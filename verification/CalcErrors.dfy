// What the calculator's errors say about the input: where it stops, and why.
module CalcErrors {
  import opened Shared
  import opened CalcGrammar
  import opened CalcMachine
  import opened CalcSoundness

  // Both operands have a value, and the operator fails on them.
  ghost predicate Fails<V>(apply: Arithmetic<V>, e: Expr<V>) {
    && e.Bin? && IsSum(e)
    && var a, b := Meaning(apply, Strip(e.left)), Meaning(apply, Strip(e.right));
       a.Some? && b.Some? && !apply(e.op, a.value, b.value).ok
  }

  // A failing expression is written somewhere in these tokens.
  ghost predicate FailsWithin<V(!new)>(apply: Arithmetic<V>, tokens: seq<Token<V>>) {
    exists e, before, after :: FailsAt(apply, tokens, e, before, after)
  }

  ghost predicate FailsAt<V>(
    apply: Arithmetic<V>, tokens: seq<Token<V>>, e: Expr<V>, before: seq<Token<V>>, after: seq<Token<V>>)
  {
    Fails(apply, e) && tokens == before + Tokens(e) + after
  }

  lemma OperationFails<V(!new)>(apply: Arithmetic<V>, nums: Stack<V>, ops: Stack<Symbol>, exprs: Stack<Expr<V>>)
    requires Based(ops) && nums.Size() == PendingCount(ops) + 1
    requires ops.top.Pending? && TopFits(ops, exprs) && Denotes(apply, nums, exprs)
    requires !CalcOperation(apply, ops.top.op, nums).ok
    ensures FailsWithin(apply, Consumed(ops, exprs.below) + Tokens(exprs.top))
  {
    var e := Combine(ops.top.op, exprs).top;
    var before := Consumed(ops.below, exprs.below.below);
    assert Denotes(apply, nums.below, exprs.below);
    GrammarAgrees(e);
    assert Fails(apply, e);
    OperandsSpell(before, Tokens(e.left), [Op(e.op)], Tokens(e.right));
    assert FailsAt(apply, Consumed(ops, exprs.below) + Tokens(exprs.top), e, before, []);
  }

  lemma OperandsSpell<T>(before: seq<T>, left: seq<T>, op: seq<T>, right: seq<T>)
    ensures before + (left + op) + right == before + (left + (op + right)) + []
  {
  }

  lemma {:induction false} ReduceAllFails<V(!new)>(
    apply: Arithmetic<V>, nums: Stack<V>, ops: Stack<Symbol>, exprs: Stack<Expr<V>>)
    requires Based(ops) && nums.Size() == PendingCount(ops) + 1
    requires TopFits(ops, exprs) && Denotes(apply, nums, exprs)
    requires !ReduceAll(apply, nums, ops, true).ok
    ensures FailsWithin(apply, Consumed(ops, exprs.below) + Tokens(exprs.top))
    decreases ops
  {
    var c := CalcOperation(apply, ops.top.op, nums);
    if c.ok {
      CombineKeeps(apply, nums, ops, exprs);
      ReduceAllFails(apply, c.nums, ops.below, Combine(ops.top.op, exprs));
    } else {
      OperationFails(apply, nums, ops, exprs);
    }
  }

  // ---------------------------------------------------------------- where it stops

  ghost predicate Sentence<V(!new)>(tokens: seq<Token<V>>) {
    exists e :: IsSum(e) && Tokens(e) == tokens
  }

  // Some sentence begins like this.
  ghost predicate Viable<V(!new)>(tokens: seq<Token<V>>) {
    exists tail :: Sentence(tokens + tail)
  }

  // The closing brackets that are still missing.
  function Closers<V>(ops: Stack<Symbol>): seq<Token<V>>
    requires Based(ops)
  {
    match ops.top
    case Bottom => []
    case Bra(b) => [Close(b)] + Closers(ops.below)
    case Pending(_) => Closers(ops.below)
  }

  ghost predicate AllWellBracketed<V>(exprs: Stack<Expr<V>>) {
    match exprs
    case Empty => true
    case Push(e, es) => WellBracketed(e) && AllWellBracketed(es)
  }

  lemma {:induction false} DenotedAreWellBracketed<V>(apply: Arithmetic<V>, nums: Stack<V>, exprs: Stack<Expr<V>>)
    requires Denotes(apply, nums, exprs)
    ensures AllWellBracketed(exprs)
    decreases exprs
  {
    if exprs.Push? { DenotedAreWellBracketed(apply, nums.below, exprs.below); }
  }

  // What was read so far, with the missing brackets closed, is a sentence.
  lemma {:induction false} CloseAll<V(!new)>(ops: Stack<Symbol>, exprs: Stack<Expr<V>>)
    requires Based(ops) && TopFits(ops, exprs) && AllWellBracketed(exprs)
    ensures Sentence(Consumed(ops, exprs.below) + Tokens(exprs.top) + Closers(ops))
    decreases ops
  {
    match ops.top
    case Bottom =>
      GrammarAgrees(exprs.top);
      assert Consumed(ops, exprs.below) + Tokens(exprs.top) + Closers(ops) == Tokens(exprs.top);
    case Bra(b) =>
      var es := Bracketed(b, exprs);
      ClosedFits(ops, b, exprs);
      CloseAll(ops.below, es);
      CloserSpells(Consumed(ops.below, es.below), [Open(b)], Tokens(exprs.top), [Close(b)], Closers(ops.below));
    case Pending(op) =>
      CombineFits(ops, exprs);
      CloseAll(ops.below, Combine(op, exprs));
  }

  lemma CloserSpells<T>(before: seq<T>, open: seq<T>, inner: seq<T>, close: seq<T>, after: seq<T>)
    ensures before + open + inner + (close + after) == before + (open + (inner + close)) + after
  {
  }

  // What may follow: an operator, or the bracket that closes the innermost open one.
  lemma {:induction false} OperatorViable<V(!new)>(ops: Stack<Symbol>, exprs: Stack<Expr<V>>, op: BinOp, v: V)
    requires Based(ops) && TopFits(ops, exprs) && AllWellBracketed(exprs) && LeftOk(op, exprs.top)
    ensures Viable(Consumed(ops, exprs.below) + Tokens(exprs.top) + [Op(op)])
    decreases ops
  {
    if Shifts(op, ops.top) {
      var longer, es := Push(Pending(op), ops), Push(Leaf(v), exprs);
      CloseAll(longer, es);
      var read := Consumed(ops, exprs.below) + Tokens(exprs.top) + [Op(op)];
      assert Consumed(longer, exprs) == read;
      assert read + Tokens(es.top) + Closers(longer) == read + (Tokens(es.top) + Closers(longer));
    } else {
      CombineFits(ops, exprs);
      OperatorViable(ops.below, Combine(ops.top.op, exprs), op, v);
    }
  }

  lemma BracketViable<V(!new)>(ops: Stack<Symbol>, exprs: Stack<Expr<V>>, b: Bracket)
    requires Based(ops) && TopFits(ops, exprs) && AllWellBracketed(exprs) && Innermost(ops) == Bra(b)
    ensures Viable(Consumed(ops, exprs.below) + Tokens(exprs.top) + [Close(b)])
  {
    hide Sentence;
    CloseAll(ops, exprs);
    var read, tail := Consumed(ops, exprs.below) + Tokens(exprs.top), Closers<V>(ops);
    InnermostCloses<V>(ops, b);
    assert read + tail == (read + [Close(b)]) + tail[1..];
  }

  lemma {:induction false} InnermostCloses<V>(ops: Stack<Symbol>, b: Bracket)
    requires Based(ops) && Innermost(ops) == Bra(b)
    ensures Closers<V>(ops) != [] && Closers<V>(ops)[0] == Close(b)
    decreases ops
  {
    if ops.top.Pending? { InnermostCloses<V>(ops.below, b); }
  }

  lemma {:induction false} NothingToClose<V>(ops: Stack<Symbol>)
    requires Based(ops) && BracketCount(ops) == 0
    ensures Closers<V>(ops) == []
    decreases ops
  {
    if ops.top.Pending? { NothingToClose<V>(ops.below); }
  }

  // The first k tokens contain a failing expression, and up to here, the next token included,
  // the input is in order: it is a sentence, or begins one.
  ghost predicate MathErrorAt<V(!new)>(apply: Arithmetic<V>, input: seq<Token<V>>, k: nat) {
    && k <= |input|
    && FailsWithin(apply, input[..k])
    && if k == |input| then Sentence(input) else Viable(input[..k + 1])
  }

  lemma StepFails<V(!new)>(apply: Arithmetic<V>, m: Machine<V>, exprs: Stack<Expr<V>>, input: seq<Token<V>>)
    returns (k: nat)
    requires Represents(apply, m, exprs, input) && m.rest != [] && Step(apply, m) == Stop(MathError)
    ensures MathErrorAt(apply, input, k)
  {
    assert m.mode.WaitForOp?;
    var read := Consumed(m.ops, exprs.below) + Tokens(exprs.top);
    DenotedAreWellBracketed(apply, m.nums, exprs);
    if m.rest[0].Op? {
      OperationFails(apply, m.nums, m.ops, exprs);
      OperatorViable(m.ops, exprs, m.rest[0].op, m.nums.top);
    } else {
      ReduceAllFails(apply, m.nums, m.ops, exprs);
      ReduceAllStopsAtInnermost(apply, m.nums, m.ops, true);
      BracketViable(m.ops, exprs, m.rest[0].bracket);
    }
    k := |read|;
    hide FailsWithin, Viable, Consumed, Tokens;
    assert input == read + m.rest && input[..k] == read && input[..k + 1] == read + [m.rest[0]];
  }

  lemma FinishFails<V(!new)>(apply: Arithmetic<V>, m: Machine<V>, exprs: Stack<Expr<V>>, input: seq<Token<V>>)
    requires Represents(apply, m, exprs, input) && m.rest == [] && Run(apply, m) == MathError
    ensures MathErrorAt(apply, input, |input|)
  {
    DenotedAreWellBracketed(apply, m.nums, exprs);
    ReduceAllFails(apply, m.nums, m.ops, exprs);
    CloseAll(m.ops, exprs);
    NothingToClose<V>(m.ops);
    var read := Consumed(m.ops, exprs.below) + Tokens(exprs.top);
    hide FailsWithin, Sentence, Consumed, Tokens;
    assert read + Closers<V>(m.ops) == read == input == input[..|input|];
  }

  lemma {:induction false} RunFails<V(!new)>(
    apply: Arithmetic<V>, m: Machine<V>, exprs: Stack<Expr<V>>, input: seq<Token<V>>) returns (k: nat)
    requires Represents(apply, m, exprs, input) && Run(apply, m) == MathError
    ensures MathErrorAt(apply, input, k)
    decreases 2 * |m.rest| + m.ops.Size()
  {
    hide MathErrorAt, Consumed, Tokens;
    if m.rest == [] {
      FinishFails(apply, m, exprs, input);
      k := |input|;
    } else if Step(apply, m).Stop? {
      k := StepFails(apply, m, exprs, input);
    } else {
      var es := StepRepresents(apply, m, exprs, input);
      k := RunFails(apply, Step(apply, m).machine, es, input);
    }
  }

  // On any input, a math error means that an expression written in it has operands with values
  // on which its operator fails, and that nothing read up to the token that showed it was wrong.
  lemma MathErrorMeans<V(!new)>(apply: Arithmetic<V>, input: seq<Token<V>>) returns (k: nat)
    requires Calculate(apply, input) == MathError
    ensures MathErrorAt(apply, input, k)
  {
    k := RunFails(apply, Initial(input), Empty, input);
  }

  // Tokens the machine has moved past when it stops.
  function Read<V>(apply: Arithmetic<V>, m: Machine<V>): (k: nat)
    requires Valid(m)
    ensures k <= |m.rest|
    decreases 2 * |m.rest| + m.ops.Size()
  {
    if m.rest == [] then 0
    else
      match Step(apply, m)
      case Stop(_) => 0
      case Continue(n) => |m.rest| - |n.rest| + Read(apply, n)
  }

  lemma StepLooksAtOne<V>(apply: Arithmetic<V>, m: Machine<V>, rest: seq<Token<V>>)
    requires Valid(m) && m.rest != [] && rest != [] && rest[0] == m.rest[0]
    ensures Step(apply, m.(rest := rest)) ==
      match Step(apply, m)
      case Stop(o) => Stop(o)
      case Continue(n) => Continue(n.(rest := if |n.rest| < |m.rest| then rest[1..] else rest))
    ensures Step(apply, m).Continue? ==>
      var n := Step(apply, m).machine; n.rest == if |n.rest| < |m.rest| then m.rest[1..] else m.rest
  {
  }

  // An input that agrees up to the offending token stops the machine as well.
  lemma {:induction false} SameStop<V>(apply: Arithmetic<V>, m: Machine<V>, rest: seq<Token<V>>)
    requires Valid(m) && Run(apply, m) == SyntaxError && Read(apply, m) < |m.rest|
    requires m.rest[..Read(apply, m) + 1] <= rest
    ensures Run(apply, m.(rest := rest)) == SyntaxError
    decreases 2 * |m.rest| + m.ops.Size()
  {
    assert rest[0] == m.rest[0];
    StepLooksAtOne(apply, m, rest);
    if Step(apply, m).Continue? {
      var n := Step(apply, m).machine;
      SameStop(apply, n, if |n.rest| < |m.rest| then rest[1..] else rest);
    }
  }

  // On any input, a syntax error means that no sentence begins with the tokens read and the
  // offending one, or, at the end of the input, that it is no sentence.
  lemma SyntaxErrorMeans<V(!new)>(apply: Arithmetic<V>, input: seq<Token<V>>) returns (k: nat)
    requires Calculate(apply, input) == SyntaxError
    ensures k <= |input| && if k == |input| then !Sentence(input) else !Viable(input[..k + 1])
  {
    k := Read(apply, Initial(input));
    NotAnExpression(apply, input);
    if k < |input| && Viable(input[..k + 1]) {
      var tail :| Sentence(input[..k + 1] + tail);
      SameStop(apply, Initial(input), input[..k + 1] + tail);
      NotAnExpression(apply, input[..k + 1] + tail);
    }
  }

  // The stacks cannot grow by more than the tokens left.
  lemma {:induction false} RunFits<V>(apply: Arithmetic<V>, m: Machine<V>)
    requires Valid(m)
    requires m.nums.Size() + |m.rest| <= NUM_CAPACITY && m.ops.Size() + |m.rest| <= OP_CAPACITY
    ensures Run(apply, m) != Overflow
    decreases 2 * |m.rest| + m.ops.Size()
  {
    if m.rest != [] && Step(apply, m).Continue? {
      RunFits(apply, Step(apply, m).machine);
    }
  }

  // If no operator ever fails and the input has no more tokens than the number stack has room,
  // the calculator reports a syntax error exactly for what is no expression.
  lemma SyntaxErrorExactly<V(!new)>(apply: Arithmetic<V>, input: seq<Token<V>>)
    requires (forall op, a, b :: apply(op, a, b).ok) && |input| <= 100
    ensures Calculate(apply, input) == SyntaxError <==> !Sentence(input)
    ensures Calculate(apply, input).SyntaxError? || Calculate(apply, input).Success?
  {
    var o := Calculate(apply, input);
    RunFits(apply, Initial(input));
    if o == MathError {
      var k := MathErrorMeans(apply, input);
      NothingFails(apply, input[..k]);
    }
    if o.Success? { CalculateSucceedsExactly(apply, input, o.value); } else { NotAnExpression(apply, input); }
  }

  lemma NothingFails<V(!new)>(apply: Arithmetic<V>, tokens: seq<Token<V>>)
    requires forall op, a, b :: apply(op, a, b).ok
    ensures !FailsWithin(apply, tokens)
  {
    forall e, before, after ensures !FailsAt(apply, tokens, e, before, after) {}
  }

  lemma NotAnExpression<V(!new)>(apply: Arithmetic<V>, input: seq<Token<V>>)
    requires Calculate(apply, input) == SyntaxError
    ensures !Sentence(input)
  {
    forall e | IsSum(e) && Tokens(e) == input ensures false {
      CalculateRendering(apply, e);
      NeverSyntaxError(apply, e, 100, 999);
    }
  }
}
