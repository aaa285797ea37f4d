// The shift-reduce machine of the calculator as a function on values, and the proof that
// it computes the value of the expression it is given.
module CalcMachine {
  import opened CalcGrammar

  const NUM_CAPACITY := 100
  const OP_CAPACITY := 1000

  // A stack with its top first.
  datatype Stack<T> = Empty | Push(top: T, below: Stack<T>) {
    function Size(): nat {
      match this
      case Empty => 0
      case Push(_, b) => 1 + b.Size()
    }
  }

  // Entries of the operator stack; `Bottom` is the '#' pushed at the start.
  datatype Symbol = Bottom | Bra(bracket: Bracket) | Pending(op: BinOp)

  datatype Mode = WaitForNum | WaitForOp

  datatype Machine<V> = Machine(
    nums: Stack<V>, ops: Stack<Symbol>, mode: Mode, brackets: int, rest: seq<Token<V>>)

  datatype Next<V> = Continue(machine: Machine<V>) | Stop(outcome: Outcome<V>)

  // Operators that still wait for their right operand.
  function PendingCount(ops: Stack<Symbol>): nat {
    match ops
    case Empty => 0
    case Push(s, b) => PendingCount(b) + if s.Pending? then 1 else 0
  }

  function BracketCount(ops: Stack<Symbol>): nat {
    match ops
    case Empty => 0
    case Push(s, b) => BracketCount(b) + if s.Bra? then 1 else 0
  }

  // '#' lies at the bottom and nowhere else.
  predicate Based(ops: Stack<Symbol>) {
    match ops
    case Empty => false
    case Push(s, b) => if b.Empty? then s.Bottom? else !s.Bottom? && Based(b)
  }

  // What makes the peeks and pops of the code safe, and its bracket counter meaningful.
  predicate Valid<V>(m: Machine<V>) {
    && Based(m.ops)
    && m.nums.Size() == PendingCount(m.ops) + (if m.mode.WaitForOp? then 1 else 0)
    && m.brackets == BracketCount(m.ops)
  }

  function Initial<V>(input: seq<Token<V>>): (m: Machine<V>)
    ensures Valid(m)
  {
    Machine(Empty, Push(Bottom, Empty), WaitForNum, 0, input)
  }

  // CorrectOperator shifts op on top of this symbol, otherwise it reduces first.
  predicate Shifts(op: BinOp, top: Symbol) {
    match top
    case Pending(p) => (op.Power? && p.Power?) || Priority(op) > Priority(p)
    case _ => true
  }

  // The number stack after CalcOperation, and whether the operator left the status alone.
  datatype Applied<V> = Applied(nums: Stack<V>, ok: bool)

  function CalcOperation<V>(apply: Arithmetic<V>, op: BinOp, nums: Stack<V>): (r: Applied<V>)
    requires nums.Size() >= 2
    ensures r.nums.Size() == nums.Size() - 1
  {
    assert nums.below.Size() >= 1;
    var c := apply(op, nums.below.top, nums.top);
    Applied(Push(c.value, nums.below.below), c.ok)
  }

  // CalcOperation, repeated while the top of the operator stack is an operator. `ok` is
  // whether the exit status was still SUCCESS.
  datatype Reduced<V> = Reduced(nums: Stack<V>, ops: Stack<Symbol>, ok: bool)

  function ReduceAll<V>(apply: Arithmetic<V>, nums: Stack<V>, ops: Stack<Symbol>, ok: bool): (r: Reduced<V>)
    requires Based(ops) && nums.Size() == PendingCount(ops) + 1
    ensures Based(r.ops) && r.nums.Size() == PendingCount(r.ops) + 1
    ensures !r.ops.top.Pending? && BracketCount(r.ops) == BracketCount(ops)
    ensures r.ops.Size() <= ops.Size() && r.nums.Size() <= nums.Size()
    ensures r.ok ==> ok
    decreases ops
  {
    match ops.top
    case Pending(op) =>
      var c := CalcOperation(apply, op, nums);
      ReduceAll(apply, c.nums, ops.below, ok && c.ok)
    case _ => Reduced(nums, ops, ok)
  }

  // One call of the state function while input remains.
  function Step<V>(apply: Arithmetic<V>, m: Machine<V>): (n: Next<V>)
    requires Valid(m) && m.rest != []
    ensures n.Continue? ==> Valid(n.machine) && |n.machine.rest| <= |m.rest|
    ensures n.Continue? ==>
      2 * |n.machine.rest| + n.machine.ops.Size() < 2 * |m.rest| + m.ops.Size()
  {
    var token := m.rest[0];
    var after := m.(rest := m.rest[1..]);
    if m.mode.WaitForNum? then
      match token
      case Open(b) =>
        if m.ops.Size() >= OP_CAPACITY then Stop(Overflow)
        else Continue(after.(ops := Push(Bra(b), m.ops), brackets := m.brackets + 1))
      case Num(v) =>
        if m.nums.Size() >= NUM_CAPACITY then Stop(Overflow)
        else Continue(after.(nums := Push(v, m.nums), mode := WaitForOp))
      case _ => Stop(SyntaxError)
    else
      match token
      case Op(op) =>
        if Shifts(op, m.ops.top) then
          if m.ops.Size() >= OP_CAPACITY then Stop(Overflow)
          else Continue(after.(ops := Push(Pending(op), m.ops), mode := WaitForNum))
        else
          var c := CalcOperation(apply, m.ops.top.op, m.nums);
          if c.ok then Continue(m.(nums := c.nums, ops := m.ops.below))
          else Stop(MathError)
      case Close(b) =>
        var r := ReduceAll(apply, m.nums, m.ops, true);
        if r.ops.top != Bra(b) then Stop(SyntaxError)
        else if !r.ok then Stop(MathError)
        else Continue(after.(nums := r.nums, ops := r.ops.below, brackets := m.brackets - 1))
      case _ => Stop(SyntaxError)
  }

  // The end of the input: EndOfEx, or a syntax error.
  function Finish<V>(apply: Arithmetic<V>, m: Machine<V>): Outcome<V>
    requires Valid(m)
  {
    if m.brackets != 0 || m.mode.WaitForNum? then SyntaxError
    else
      var r := ReduceAll(apply, m.nums, m.ops, true);
      if r.ok then Success(r.nums.top) else MathError
  }

  function Run<V>(apply: Arithmetic<V>, m: Machine<V>): Outcome<V>
    requires Valid(m)
    decreases 2 * |m.rest| + m.ops.Size()
  {
    if m.rest == [] then Finish(apply, m)
    else
      match Step(apply, m)
      case Stop(o) => o
      case Continue(n) => Run(apply, n)
  }

  function Calculate<V>(apply: Arithmetic<V>, input: seq<Token<V>>): Outcome<V> {
    Run(apply, Initial(input))
  }

  // ---------------------------------------------------------------- completeness

  function Innermost(ops: Stack<Symbol>): Symbol
    requires Based(ops)
  {
    if ops.top.Pending? then Innermost(ops.below) else ops.top
  }

  lemma {:induction false} ReduceAllStopsAtInnermost<V>(
    apply: Arithmetic<V>, nums: Stack<V>, ops: Stack<Symbol>, ok: bool)
    requires Based(ops) && nums.Size() == PendingCount(ops) + 1
    ensures ReduceAll(apply, nums, ops, ok).ops.top == Innermost(ops)
    decreases ops
  {
    if ops.top.Pending? {
      var c := CalcOperation(apply, ops.top.op, nums);
      ReduceAllStopsAtInnermost(apply, c.nums, ops.below, ok && c.ok);
    }
  }

  // The next token ends an operand of the given operator.
  ghost predicate Ends<V>(op: BinOp, rest: seq<Token<V>>) {
    rest == [] || rest[0].Close? || (rest[0].Op? && !Shifts(rest[0].op, Pending(op)))
  }

  // The next token ends expression e.
  ghost predicate EndsExpr<V>(e: Expr<V>, rest: seq<Token<V>>) {
    if e.Bin? then Ends(e.op, rest) else rest == [] || rest[0].Close? || rest[0].Op?
  }

  // If the input ends here or closes a bracket, it closes what is open.
  ghost predicate BracketsAgree<V>(m: Machine<V>)
    requires Based(m.ops)
  {
    && (m.rest == [] ==> m.brackets == 0)
    && (m.rest != [] && m.rest[0].Close? ==> Innermost(m.ops) == Bra(m.rest[0].bracket))
  }

  // The pending operator on top is applied next, whether the next token is an operator, a
  // closing bracket or the end.
  lemma ReduceNext<V>(apply: Arithmetic<V>, m: Machine<V>)
    requires Valid(m) && m.mode.WaitForOp? && m.ops.top.Pending?
    requires Ends(m.ops.top.op, m.rest) && BracketsAgree(m)
    ensures var c := CalcOperation(apply, m.ops.top.op, m.nums);
      Run(apply, m) == if c.ok then Run(apply, m.(nums := c.nums, ops := m.ops.below)) else MathError
  {
    var c := CalcOperation(apply, m.ops.top.op, m.nums);
    var n := m.(nums := c.nums, ops := m.ops.below);
    assert Valid(n);
    if m.rest != [] && m.rest[0].Close? {
      ReduceAllStopsAtInnermost(apply, m.nums, m.ops, true);
    }
  }

  // The machine m has the rendering of e before it, and e may stand here without brackets.
  ghost predicate Reads<V>(e: Expr<V>, m: Machine<V>, rest: seq<Token<V>>) {
    && WellBracketed(e) && Valid(m) && m.mode.WaitForNum? && m.rest == Tokens(e) + rest
    && m.ops.Size() <= OP_CAPACITY && m.nums.Size() <= NUM_CAPACITY
    && (m.ops.top.Pending? ==> RightOk(m.ops.top.op, e))
    && EndsExpr(e, rest) && BracketsAgree(m.(rest := rest))
  }

  function EvaluateIn<V>(apply: Arithmetic<V>, e: Expr<V>, m: Machine<V>): Outcome<V>
    requires m.ops.Size() <= OP_CAPACITY && m.nums.Size() <= NUM_CAPACITY
  {
    Evaluate(apply, e, NUM_CAPACITY - m.nums.Size(), OP_CAPACITY - m.ops.Size())
  }

  // m after e was read and reduced to the value v.
  function Holding<V>(m: Machine<V>, v: V, rest: seq<Token<V>>): (n: Machine<V>)
    requires Valid(m) && m.mode.WaitForNum?
    ensures Valid(n)
  {
    m.(nums := Push(v, m.nums), mode := WaitForOp, rest := rest)
  }

  // Reading the rendering of e from a machine that waits for a number is the same as having
  // its value on the number stack.
  ghost predicate ReadsAs<V>(apply: Arithmetic<V>, e: Expr<V>, m: Machine<V>, rest: seq<Token<V>>) {
    Reads(e, m, rest) ==>
      var v := EvaluateIn(apply, e, m);
      Run(apply, m) == if v.Success? then Run(apply, Holding(m, v.value, rest)) else v
  }

  lemma {:induction false} ReadExpr<V>(apply: Arithmetic<V>, e: Expr<V>, m: Machine<V>, rest: seq<Token<V>>)
    ensures ReadsAs(apply, e, m, rest)
    decreases e
  {
    if Reads(e, m, rest) {
      hide Reads, ReadsAs, Run;
      ReadsMeans(e, m, rest);
      match e
      case Leaf(v) => ReadLeaf(apply, e, m, rest);
      case Paren(b, i) =>
        var inner := [Close(b)] + rest;
        ReadExpr(apply, i, Opened(m, b, Tokens(i) + inner), inner);
        ReadParen(apply, e, m, rest);
      case Bin(op, l, r) =>
        ReadExpr(apply, l, m, [Op(op)] + (Tokens(r) + rest));
        var a := EvaluateIn(apply, l, m);
        if a.Success? { ReadExpr(apply, r, Shifted(m, a.value, op, Tokens(r) + rest), rest); }
        ReadBin(apply, e, m, rest);
    }
  }

  lemma ReadParen<V>(apply: Arithmetic<V>, e: Expr<V>, m: Machine<V>, rest: seq<Token<V>>)
    requires e.Paren? && Reads(e, m, rest)
    requires var inner := [Close(e.bracket)] + rest;
      ReadsAs(apply, e.inner, Opened(m, e.bracket, Tokens(e.inner) + inner), inner)
    ensures ReadsAs(apply, e, m, rest)
  {
    hide Run, Valid;
    OpenBracket(apply, e, m, rest);
    if m.ops.Size() < OP_CAPACITY {
      var inner := [Close(e.bracket)] + rest;
      var v := EvaluateIn(apply, e.inner, Opened(m, e.bracket, Tokens(e.inner) + inner));
      if v.Success? { CloseBracket(apply, m, e.bracket, v.value, rest); }
    }
  }

  lemma ReadBin<V>(apply: Arithmetic<V>, e: Expr<V>, m: Machine<V>, rest: seq<Token<V>>)
    requires e.Bin? && Reads(e, m, rest)
    requires var after := Tokens(e.right) + rest;
      && ReadsAs(apply, e.left, m, [Op(e.op)] + after)
      && var a := EvaluateIn(apply, e.left, m);
         a.Success? ==> ReadsAs(apply, e.right, Shifted(m, a.value, e.op, after), rest)
    ensures ReadsAs(apply, e, m, rest)
  {
    hide Run, Valid, Reads, Evaluate, Meaning, Strip, NumsNeeded, OpsNeeded, Shifts, Tokens;
    LeftOperandReads(e, m, rest);
    ReadsMeans(e, m, rest);
    EvaluateBin(apply, e, NUM_CAPACITY - m.nums.Size(), OP_CAPACITY - m.ops.Size());
    var a := EvaluateIn(apply, e.left, m);
    if a.Success? {
      SuccessFitsStacks(apply, e.left, NUM_CAPACITY - m.nums.Size(), OP_CAPACITY - m.ops.Size());
      NeedsOneSlot(e.left);
      ReadOperator(apply, e, m, a.value, rest);
      if m.ops.Size() < OP_CAPACITY {
        var b := EvaluateIn(apply, e.right, Shifted(m, a.value, e.op, Tokens(e.right) + rest));
        if b.Success? { ApplyOperator(apply, e, m, a.value, b.value, rest); }
      }
    }
  }

  lemma EvaluateBin<V>(apply: Arithmetic<V>, e: Expr<V>, nums: nat, ops: nat)
    requires e.Bin?
    ensures Evaluate(apply, e, nums, ops) ==
      var a := Evaluate(apply, e.left, nums, ops);
      if !a.Success? then a else
      if nums == 0 || ops == 0 then Overflow else
      var b := Evaluate(apply, e.right, nums - 1, ops - 1);
      if !b.Success? then b else
      var c := apply(e.op, a.value, b.value);
      if c.ok then Success(c.value) else MathError
  {
  }

  lemma ReadsMeans<V>(e: Expr<V>, m: Machine<V>, rest: seq<Token<V>>)
    requires Reads(e, m, rest)
    ensures Valid(m) && m.mode.WaitForNum? && m.ops.Size() <= OP_CAPACITY && m.nums.Size() <= NUM_CAPACITY
  {
  }

  lemma ReadLeaf<V>(apply: Arithmetic<V>, e: Expr<V>, m: Machine<V>, rest: seq<Token<V>>)
    requires e.Leaf? && Reads(e, m, rest)
    ensures ReadsAs(apply, e, m, rest)
  {
    assert m.rest[0] == Num(e.value) && m.rest[1..] == rest;
    assert m.nums.Size() < NUM_CAPACITY ==> Step(apply, m) == Continue(Holding(m, e.value, rest));
  }

  // m after it read an opening bracket.
  function Opened<V>(m: Machine<V>, b: Bracket, rest: seq<Token<V>>): (n: Machine<V>)
    requires Valid(m) && m.mode.WaitForNum?
    ensures Valid(n)
  {
    Machine(m.nums, Push(Bra(b), m.ops), WaitForNum, m.brackets + 1, rest)
  }

  lemma OpenBracket<V>(apply: Arithmetic<V>, e: Expr<V>, m: Machine<V>, rest: seq<Token<V>>)
    requires e.Paren? && Reads(e, m, rest)
    ensures var inner := [Close(e.bracket)] + rest;
      var n := Opened(m, e.bracket, Tokens(e.inner) + inner);
      && (m.ops.Size() < OP_CAPACITY ==> Reads(e.inner, n, inner) && Run(apply, m) == Run(apply, n))
      && (m.ops.Size() == OP_CAPACITY ==> Run(apply, m) == Overflow)
  {
    OpenedRuns(apply, e, m, rest);
    if m.ops.Size() < OP_CAPACITY { InnerReads(e, m, rest); }
    hide Run, Reads, Valid;
  }

  lemma OpenedRuns<V>(apply: Arithmetic<V>, e: Expr<V>, m: Machine<V>, rest: seq<Token<V>>)
    requires e.Paren? && Reads(e, m, rest)
    ensures Valid(m) && m.mode.WaitForNum?
    ensures var n := Opened(m, e.bracket, Tokens(e.inner) + ([Close(e.bracket)] + rest));
      Run(apply, m) == if m.ops.Size() < OP_CAPACITY then Run(apply, n) else Overflow
  {
    var after := Tokens(e.inner) + ([Close(e.bracket)] + rest);
    assert m.rest[0] == Open(e.bracket) && m.rest[1..] == after;
    assert m.ops.Size() < OP_CAPACITY ==> Step(apply, m) == Continue(Opened(m, e.bracket, after));
  }

  lemma InnerReads<V>(e: Expr<V>, m: Machine<V>, rest: seq<Token<V>>)
    requires e.Paren? && Reads(e, m, rest) && m.ops.Size() < OP_CAPACITY
    ensures var inner := [Close(e.bracket)] + rest;
      Reads(e.inner, Opened(m, e.bracket, Tokens(e.inner) + inner), inner)
  {
  }

  // m after it read the left operand, of value v, and shifted op.
  function Shifted<V>(m: Machine<V>, v: V, op: BinOp, rest: seq<Token<V>>): (p: Machine<V>)
    requires Valid(m) && m.mode.WaitForNum?
    ensures Valid(p)
  {
    m.(nums := Push(v, m.nums), ops := Push(Pending(op), m.ops), rest := rest)
  }

  lemma LeftOperandReads<V>(e: Expr<V>, m: Machine<V>, rest: seq<Token<V>>)
    requires e.Bin? && Reads(e, m, rest)
    ensures var tail := [Op(e.op)] + (Tokens(e.right) + rest);
      Reads(e.left, m, tail) && Shifts(e.op, m.ops.top)
  {
    var tail := [Op(e.op)] + (Tokens(e.right) + rest);
    assert m.rest == Tokens(e.left) + tail;
  }

  // After the left operand the operator is shifted, and the right operand may be read.
  lemma ReadOperator<V>(apply: Arithmetic<V>, e: Expr<V>, m: Machine<V>, v: V, rest: seq<Token<V>>)
    requires e.Bin? && Reads(e, m, rest) && Shifts(e.op, m.ops.top) && m.nums.Size() < NUM_CAPACITY
    ensures var after := Tokens(e.right) + rest;
      var n := Holding(m, v, [Op(e.op)] + after);
      if m.ops.Size() == OP_CAPACITY then Run(apply, n) == Overflow
      else Reads(e.right, Shifted(m, v, e.op, after), rest) && Run(apply, n) == Run(apply, Shifted(m, v, e.op, after))
  {
    var after := Tokens(e.right) + rest;
    var n := Holding(m, v, [Op(e.op)] + after);
    assert n.rest[1..] == after;
    assert m.ops.Size() < OP_CAPACITY ==> Step(apply, n) == Continue(Shifted(m, v, e.op, after));
  }

  // After the right operand the operator is applied.
  lemma ApplyOperator<V>(apply: Arithmetic<V>, e: Expr<V>, m: Machine<V>, v: V, w: V, rest: seq<Token<V>>)
    requires e.Bin? && Reads(e, m, rest)
    ensures var n := Holding(Shifted(m, v, e.op, Tokens(e.right) + rest), w, rest);
      Run(apply, n) == if apply(e.op, v, w).ok then Run(apply, Holding(m, apply(e.op, v, w).value, rest)) else MathError
  {
    hide Run;
    ReduceNext(apply, Holding(Shifted(m, v, e.op, Tokens(e.right) + rest), w, rest));
  }

  lemma CloseBracket<V>(apply: Arithmetic<V>, m: Machine<V>, b: Bracket, v: V, rest: seq<Token<V>>)
    requires Valid(m) && m.mode.WaitForNum?
    ensures var p := Machine(Push(v, m.nums), Push(Bra(b), m.ops), WaitForOp, m.brackets + 1, [Close(b)] + rest);
      Valid(p) && Run(apply, p) == Run(apply, Holding(m, v, rest))
  {
    var p := Machine(Push(v, m.nums), Push(Bra(b), m.ops), WaitForOp, m.brackets + 1, [Close(b)] + rest);
    assert p.rest[1..] == rest;
    assert Step(apply, p) == Continue(Holding(m, v, rest));
  }

  lemma NeedsOneSlot<V>(e: Expr<V>)
    ensures NumsNeeded(e) >= 1
  {
  }

  // Meaning is preserved: on every rendering of every expression the calculator returns
  // what post-order evaluation within its two stacks returns.
  lemma CalculateRendering<V>(apply: Arithmetic<V>, e: Expr<V>)
    requires IsSum(e)
    ensures Calculate(apply, Tokens(e)) == Evaluate(apply, e, 100, 999)
  {
    GrammarAgrees(e);
    StartReads(e);
    hide Run, Reads, Valid, Tokens, WellBracketed;
    var m := Initial(Tokens(e));
    ReadExpr(apply, e, m, []);
    var v := Evaluate(apply, e, 100, 999);
    if v.Success? { EndReads(apply, m, v.value); }
  }

  lemma StartReads<V>(e: Expr<V>)
    requires WellBracketed(e)
    ensures Reads(e, Initial(Tokens(e)), [])
  {
    assert Tokens(e) + [] == Tokens(e);
  }

  lemma EndReads<V>(apply: Arithmetic<V>, m: Machine<V>, v: V)
    requires m == Initial(m.rest)
    ensures Valid(m) && m.mode.WaitForNum? && Run(apply, Holding(m, v, [])) == Success(v)
  {
  }
}
