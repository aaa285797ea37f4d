// What the calculator accepts parses: the number stack always stands for a stack of
// expressions that, woven with the operator stack, spell the input consumed so far.
module CalcSoundness {
  import opened Shared
  import opened CalcGrammar
  import opened CalcMachine

  // The numbers are the meanings of the expressions.
  ghost predicate Denotes<V>(apply: Arithmetic<V>, nums: Stack<V>, exprs: Stack<Expr<V>>) {
    match exprs
    case Empty => nums.Empty?
    case Push(e, es) =>
      nums.Push? && WellBracketed(e) && Meaning(apply, Strip(e)) == Some(nums.top) && Denotes(apply, nums.below, es)
  }

  // Every pending operator has a left operand it may stand after, and between brackets the
  // priorities rise from bottom to top (equal only for ^).
  ghost predicate Ordered<V>(ops: Stack<Symbol>, exprs: Stack<Expr<V>>)
    requires Based(ops)
  {
    match ops.top
    case Bottom => exprs.Empty?
    case Bra(_) => Ordered(ops.below, exprs)
    case Pending(op) =>
      exprs.Push? && LeftOk(op, exprs.top) && Shifts(op, ops.below.top) && Ordered(ops.below, exprs.below)
  }

  // The tokens a machine that waits for a number has consumed.
  ghost function Consumed<V>(ops: Stack<Symbol>, exprs: Stack<Expr<V>>): seq<Token<V>>
    requires Based(ops) && Ordered(ops, exprs)
  {
    match ops.top
    case Bottom => []
    case Bra(b) => Consumed(ops.below, exprs) + [Open(b)]
    case Pending(op) => Consumed(ops.below, exprs.below) + (Tokens(exprs.top) + [Op(op)])
  }

  // The expression on top may become the right operand of the operator on top.
  ghost predicate TopFits<V>(ops: Stack<Symbol>, exprs: Stack<Expr<V>>)
    requires Based(ops)
  {
    && exprs.Push?
    && Ordered(ops, exprs.below)
    && (ops.top.Pending? ==> RightOk(ops.top.op, exprs.top))
  }

  ghost predicate Represents<V>(
    apply: Arithmetic<V>, m: Machine<V>, exprs: Stack<Expr<V>>, input: seq<Token<V>>)
  {
    && Valid(m)
    && Denotes(apply, m.nums, exprs)
    && if m.mode.WaitForNum? then Ordered(m.ops, exprs) && input == Consumed(m.ops, exprs) + m.rest
       else
         && TopFits(m.ops, exprs)
         && input == Consumed(m.ops, exprs.below) + Tokens(exprs.top) + m.rest
         && (exprs.top.Bin? ==> m.rest != [] && m.rest[0].Op? && LeftOk(m.rest[0].op, exprs.top))
  }

  // The expressions after the top operator was applied to its two operands.
  ghost function Combine<V>(op: BinOp, exprs: Stack<Expr<V>>): Stack<Expr<V>>
    requires exprs.Push? && exprs.below.Push?
  {
    Push(Bin(op, exprs.below.top, exprs.top), exprs.below.below)
  }

  // Putting two operands together keeps the tokens and the order.
  lemma CombineFits<V>(ops: Stack<Symbol>, exprs: Stack<Expr<V>>)
    requires Based(ops) && ops.top.Pending? && TopFits(ops, exprs)
    ensures exprs.below.Push?
    ensures var es := Combine(ops.top.op, exprs);
      && TopFits(ops.below, es)
      && Consumed(ops, exprs.below) + Tokens(exprs.top) == Consumed(ops.below, es.below) + Tokens(es.top)
  {
    var es := Combine(ops.top.op, exprs);
    var e := es.top;
    assert Consumed(ops, exprs.below) + Tokens(exprs.top)
        == Consumed(ops.below, es.below) + (Tokens(e.left) + ([Op(e.op)] + Tokens(e.right)));
  }

  lemma CombineKeeps<V>(apply: Arithmetic<V>, nums: Stack<V>, ops: Stack<Symbol>, exprs: Stack<Expr<V>>)
    requires Based(ops) && nums.Size() == PendingCount(ops) + 1
    requires ops.top.Pending? && TopFits(ops, exprs) && Denotes(apply, nums, exprs)
    requires CalcOperation(apply, ops.top.op, nums).ok
    ensures var es := Combine(ops.top.op, exprs);
      && Denotes(apply, CalcOperation(apply, ops.top.op, nums).nums, es)
      && TopFits(ops.below, es)
      && Consumed(ops, exprs.below) + Tokens(exprs.top) == Consumed(ops.below, es.below) + Tokens(es.top)
  {
    var e := Combine(ops.top.op, exprs).top;
    CombineFits(ops, exprs);
    assert Denotes(apply, nums.below, exprs.below);
    assert Strip(e) == Node(e.op, Strip(e.left), Strip(e.right));
    hide Consumed, Tokens;
  }

  lemma {:induction false} ReduceAllKeeps<V>(
    apply: Arithmetic<V>, nums: Stack<V>, ops: Stack<Symbol>, exprs: Stack<Expr<V>>) returns (es: Stack<Expr<V>>)
    requires Based(ops) && nums.Size() == PendingCount(ops) + 1
    requires TopFits(ops, exprs) && Denotes(apply, nums, exprs)
    requires ReduceAll(apply, nums, ops, true).ok
    ensures var r := ReduceAll(apply, nums, ops, true);
      && Denotes(apply, r.nums, es) && TopFits(r.ops, es)
      && Consumed(ops, exprs.below) + Tokens(exprs.top) == Consumed(r.ops, es.below) + Tokens(es.top)
    decreases ops
  {
    if ops.top.Pending? {
      var c := CalcOperation(apply, ops.top.op, nums);
      assert c.ok by { assert ReduceAll(apply, c.nums, ops.below, c.ok).ok; }
      CombineKeeps(apply, nums, ops, exprs);
      es := ReduceAllKeeps(apply, c.nums, ops.below, Combine(ops.top.op, exprs));
    } else {
      es := exprs;
    }
  }

  lemma ReadRepresents<V>(apply: Arithmetic<V>, m: Machine<V>, exprs: Stack<Expr<V>>, input: seq<Token<V>>)
    returns (es: Stack<Expr<V>>)
    requires Represents(apply, m, exprs, input) && m.rest != [] && m.mode.WaitForNum? && Step(apply, m).Continue?
    ensures Represents(apply, Step(apply, m).machine, es, input)
  {
    var n := Step(apply, m).machine;
    if m.rest[0].Open? {
      es := exprs;
      assert input == Consumed(m.ops, exprs) + [m.rest[0]] + n.rest;
    } else {
      es := Push(Leaf(m.rest[0].value), exprs);
      assert input == Consumed(m.ops, exprs) + Tokens(es.top) + n.rest;
    }
  }

  lemma ShiftRepresents<V>(apply: Arithmetic<V>, m: Machine<V>, exprs: Stack<Expr<V>>, input: seq<Token<V>>)
    requires Represents(apply, m, exprs, input) && m.mode.WaitForOp? && m.rest != [] && Step(apply, m).Continue?
    requires m.rest[0].Op? && Shifts(m.rest[0].op, m.ops.top)
    ensures Represents(apply, Step(apply, m).machine, exprs, input)
  {
    var n := Step(apply, m).machine;
    assert Level(exprs.top) == ATOM || LeftOk(m.rest[0].op, exprs.top);
    assert input == Consumed(m.ops, exprs.below) + (Tokens(exprs.top) + [m.rest[0]]) + n.rest;
  }

  lemma ReduceRepresents<V>(apply: Arithmetic<V>, m: Machine<V>, exprs: Stack<Expr<V>>, input: seq<Token<V>>)
    requires Represents(apply, m, exprs, input) && m.mode.WaitForOp? && m.rest != [] && Step(apply, m).Continue?
    requires m.rest[0].Op? && !Shifts(m.rest[0].op, m.ops.top)
    ensures exprs.below.Push? && Represents(apply, Step(apply, m).machine, Combine(m.ops.top.op, exprs), input)
  {
    CombineKeeps(apply, m.nums, m.ops, exprs);
  }

  lemma CloseRepresents<V>(apply: Arithmetic<V>, m: Machine<V>, exprs: Stack<Expr<V>>, input: seq<Token<V>>)
    returns (es: Stack<Expr<V>>)
    requires Represents(apply, m, exprs, input) && m.mode.WaitForOp? && m.rest != [] && Step(apply, m).Continue?
    requires m.rest[0].Close?
    ensures Represents(apply, Step(apply, m).machine, es, input)
  {
    var r := ReduceAll(apply, m.nums, m.ops, true);
    var inner := ReduceAllKeeps(apply, m.nums, m.ops, exprs);
    es := Bracketed(m.rest[0].bracket, inner);
    ClosedFits(r.ops, m.rest[0].bracket, inner);
    ClosedDenotes(apply, r.nums, m.rest[0].bracket, inner);
    ClosedTokens(Consumed(r.ops.below, es.below), m.rest[0].bracket, Tokens(inner.top), m.rest);
    hide Consumed, TopFits, Denotes, Tokens, Meaning, WellBracketed;
  }

  // The expressions after the bracket around the top one was closed.
  ghost function Bracketed<V>(b: Bracket, exprs: Stack<Expr<V>>): Stack<Expr<V>>
    requires exprs.Push?
  {
    Push(Paren(b, exprs.top), exprs.below)
  }

  lemma ClosedFits<V>(ops: Stack<Symbol>, b: Bracket, exprs: Stack<Expr<V>>)
    requires Based(ops) && ops.top == Bra(b) && TopFits(ops, exprs)
    ensures Based(ops.below) && TopFits(ops.below, Bracketed(b, exprs))
    ensures Consumed(ops, exprs.below) == Consumed(ops.below, exprs.below) + [Open(b)]
    ensures Tokens(Bracketed(b, exprs).top) == [Open(b)] + (Tokens(exprs.top) + [Close(b)])
  {
  }

  lemma ClosedDenotes<V>(apply: Arithmetic<V>, nums: Stack<V>, b: Bracket, exprs: Stack<Expr<V>>)
    requires exprs.Push? && Denotes(apply, nums, exprs)
    ensures Denotes(apply, nums, Bracketed(b, exprs))
  {
  }

  lemma ClosedTokens<V>(before: seq<Token<V>>, b: Bracket, inner: seq<Token<V>>, rest: seq<Token<V>>)
    requires rest != [] && rest[0] == Close(b)
    ensures before + [Open(b)] + inner + rest == before + ([Open(b)] + (inner + [Close(b)])) + rest[1..]
  {
  }

  // One step keeps the representation.
  lemma StepRepresents<V>(apply: Arithmetic<V>, m: Machine<V>, exprs: Stack<Expr<V>>, input: seq<Token<V>>)
    returns (es: Stack<Expr<V>>)
    requires Represents(apply, m, exprs, input) && m.rest != [] && Step(apply, m).Continue?
    ensures Represents(apply, Step(apply, m).machine, es, input)
  {
    if m.mode.WaitForNum? {
      es := ReadRepresents(apply, m, exprs, input);
    } else if m.rest[0].Close? {
      es := CloseRepresents(apply, m, exprs, input);
    } else if Shifts(m.rest[0].op, m.ops.top) {
      es := exprs;
      ShiftRepresents(apply, m, exprs, input);
    } else {
      es := Combine(m.ops.top.op, exprs);
      ReduceRepresents(apply, m, exprs, input);
    }
  }

  lemma {:induction false} RunSound<V>(apply: Arithmetic<V>, m: Machine<V>, exprs: Stack<Expr<V>>, input: seq<Token<V>>)
    returns (e: Expr<V>)
    requires Represents(apply, m, exprs, input) && Run(apply, m).Success?
    ensures WellBracketed(e) && Tokens(e) == input && Meaning(apply, Strip(e)) == Some(Run(apply, m).value)
    decreases 2 * |m.rest| + m.ops.Size()
  {
    if m.rest == [] {
      var r := ReduceAll(apply, m.nums, m.ops, true);
      var es := ReduceAllKeeps(apply, m.nums, m.ops, exprs);
      assert r.ops.top.Bottom?;
      e := es.top;
      assert Consumed(r.ops, es.below) == [];
    } else {
      var es := StepRepresents(apply, m, exprs, input);
      e := RunSound(apply, Step(apply, m).machine, es, input);
    }
  }

  // The calculator succeeds with v on exactly the sentences of the grammar whose value is v and
  // which fit its stacks; on a sentence it never reports a syntax error.
  lemma CalculateSucceedsExactly<V(!new)>(apply: Arithmetic<V>, input: seq<Token<V>>, v: V)
    ensures Calculate(apply, input) == Success(v) <==>
      exists e :: IsSum(e) && Tokens(e) == input && Meaning(apply, Strip(e)) == Some(v)
        && NumsNeeded(e) <= 100 && OpsNeeded(e) <= 999
    ensures Calculate(apply, input) == SyntaxError ==> !exists e :: IsSum(e) && Tokens(e) == input
  {
    if Calculate(apply, input) == Success(v) {
      var e := RunSound(apply, Initial(input), Empty, input);
      GrammarAgrees(e);
      CalculateRendering(apply, e);
      SuccessFitsStacks(apply, e, 100, 999);
    }
    forall e | IsSum(e) && Tokens(e) == input
      ensures Calculate(apply, input) == Evaluate(apply, e, 100, 999) != SyntaxError
    {
      CalculateRendering(apply, e);
      NeverSyntaxError(apply, e, 100, 999);
    }
    forall e | IsSum(e) && Tokens(e) == input && Meaning(apply, Strip(e)) == Some(v)
        && NumsNeeded(e) <= 100 && OpsNeeded(e) <= 999
      ensures Calculate(apply, input) == Success(v)
    {
      EvaluateWithinStacks(apply, e, 100, 999);
    }
  }

  lemma NeverSyntaxError<V>(apply: Arithmetic<V>, e: Expr<V>, nums: nat, ops: nat)
    ensures Evaluate(apply, e, nums, ops) != SyntaxError
  {
  }
}
