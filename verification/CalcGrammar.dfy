// The language of the calculator: expressions with the brackets they were written with,
// their renderings as token sequences, and their value by post-order evaluation.
module CalcGrammar {
  import opened Shared

  datatype BinOp = Plus | Minus | Times | Divide | Power

  datatype Bracket = Round | Square | Curly

  // `Num` is a run of characters that strtod accepts where a number is expected; `Other`
  // is any remaining character.
  datatype Token<V> = Num(value: V) | Op(op: BinOp) | Open(bracket: Bracket) | Close(bracket: Bracket) | Other

  // What an operator function returns: a value, which it returns even when it reports
  // MATH_ERROR, and whether it left the exit status alone.
  datatype Answer<V> = Answer(value: V, ok: bool)

  type Arithmetic<!V> = (BinOp, V, V) -> Answer<V>

  datatype Outcome<V> = Success(value: V) | MathError | SyntaxError | Overflow

  datatype Expr<V> =
    | Leaf(value: V)
    | Bin(op: BinOp, left: Expr<V>, right: Expr<V>)
    | Paren(bracket: Bracket, inner: Expr<V>)

  // Abstract syntax: an expression without its brackets.
  datatype Ast<V> = Number(value: V) | Node(op: BinOp, left: Ast<V>, right: Ast<V>)

  function Strip<V>(e: Expr<V>): Ast<V> {
    match e
    case Leaf(v) => Number(v)
    case Bin(op, l, r) => Node(op, Strip(l), Strip(r))
    case Paren(_, i) => Strip(i)
  }

  function Tokens<V>(e: Expr<V>): seq<Token<V>> {
    match e
    case Leaf(v) => [Num(v)]
    case Bin(op, l, r) => Tokens(l) + ([Op(op)] + Tokens(r))
    case Paren(b, i) => [Open(b)] + (Tokens(i) + [Close(b)])
  }

  function Priority(op: BinOp): nat {
    match op
    case Plus => 1
    case Minus => 1
    case Times => 2
    case Divide => 2
    case Power => 3
  }

  const ATOM := 4

  function Level<V>(e: Expr<V>): nat {
    if e.Bin? then Priority(e.op) else ATOM
  }

  // An operand that needs no brackets to the left of op: + - * / associate to the left,
  // ^ to the right.
  predicate LeftOk<V>(op: BinOp, l: Expr<V>) {
    if op.Power? then Level(l) == ATOM else Level(l) >= Priority(op)
  }

  predicate RightOk<V>(op: BinOp, r: Expr<V>) {
    if op.Power? then Level(r) >= Priority(op) else Level(r) > Priority(op)
  }

  // The expression is bracketed so that its rendering can be read back.
  predicate WellBracketed<V>(e: Expr<V>) {
    match e
    case Leaf(_) => true
    case Bin(op, l, r) => WellBracketed(l) && WellBracketed(r) && LeftOk(op, l) && RightOk(op, r)
    case Paren(_, i) => WellBracketed(i)
  }

  // The grammar the calculator is meant for, nonterminal by nonterminal:
  //   sum     ::= product | sum + product | sum - product
  //   product ::= power | product * power | product / power
  //   power   ::= atom | atom ^ power
  //   atom    ::= number | (sum) | [sum] | {sum}
  predicate IsSum<V>(e: Expr<V>)
    decreases e, 3
  {
    if e.Bin? && (e.op == Plus || e.op == Minus) then IsSum(e.left) && IsProduct(e.right) else IsProduct(e)
  }

  predicate IsProduct<V>(e: Expr<V>)
    decreases e, 2
  {
    if e.Bin? && (e.op == Times || e.op == Divide) then IsProduct(e.left) && IsPower(e.right) else IsPower(e)
  }

  predicate IsPower<V>(e: Expr<V>)
    decreases e, 1
  {
    if e.Bin? && e.op == Power then IsAtom(e.left) && IsPower(e.right) else IsAtom(e)
  }

  predicate IsAtom<V>(e: Expr<V>)
    decreases e, 0
  {
    match e
    case Leaf(_) => true
    case Paren(_, i) => IsSum(i)
    case Bin(_, _, _) => false
  }

  // The priorities and associativities say the same as this grammar.
  lemma {:induction false} GrammarAgrees<V>(e: Expr<V>)
    ensures IsSum(e) <==> WellBracketed(e)
    ensures IsProduct(e) <==> WellBracketed(e) && Level(e) >= 2
    ensures IsPower(e) <==> WellBracketed(e) && Level(e) >= 3
    ensures IsAtom(e) <==> WellBracketed(e) && Level(e) == ATOM
  {
    match e
    case Leaf(_) =>
      assert IsAtom(e) && IsPower(e) && IsProduct(e);
    case Paren(_, i) =>
      GrammarAgrees(i);
      assert (IsProduct(e) <==> IsPower(e)) && (IsPower(e) <==> IsAtom(e)) && (IsAtom(e) <==> IsSum(i));
    case Bin(op, l, r) =>
      GrammarAgrees(l);
      GrammarAgrees(r);
      assert !IsAtom(e);
      assert IsPower(e) <==> op == Power && IsAtom(l) && IsPower(r);
      assert IsProduct(e) <==> if op == Times || op == Divide then IsProduct(l) && IsPower(r) else IsPower(e);
  }

  // Post-order evaluation; None is a math error.
  function Meaning<V>(apply: Arithmetic<V>, t: Ast<V>): Option<V> {
    match t
    case Number(v) => Some(v)
    case Node(op, l, r) =>
      match Meaning(apply, l)
      case None => None
      case Some(a) =>
        match Meaning(apply, r)
        case None => None
        case Some(b) => if apply(op, a, b).ok then Some(apply(op, a, b).value) else None
  }

  // Post-order evaluation with `nums` free slots on the number stack and `ops` free slots
  // on the operator stack: the first thing that goes wrong decides.
  function Evaluate<V>(apply: Arithmetic<V>, e: Expr<V>, nums: nat, ops: nat): Outcome<V> {
    match e
    case Leaf(v) => if nums == 0 then Overflow else Success(v)
    case Paren(_, i) => if ops == 0 then Overflow else Evaluate(apply, i, nums, ops - 1)
    case Bin(op, l, r) =>
      var a := Evaluate(apply, l, nums, ops);
      if !a.Success? then a else
      if nums == 0 || ops == 0 then Overflow else
      var b := Evaluate(apply, r, nums - 1, ops - 1);
      if !b.Success? then b else
      var c := apply(op, a.value, b.value);
      if c.ok then Success(c.value) else MathError
  }

  // Slots an expression takes on the two stacks at its worst moment.
  function NumsNeeded<V>(e: Expr<V>): nat {
    match e
    case Leaf(_) => 1
    case Paren(_, i) => NumsNeeded(i)
    case Bin(_, l, r) => Max(NumsNeeded(l), 1 + NumsNeeded(r))
  }

  function OpsNeeded<V>(e: Expr<V>): nat {
    match e
    case Leaf(_) => 0
    case Paren(_, i) => 1 + OpsNeeded(i)
    case Bin(_, l, r) => Max(OpsNeeded(l), 1 + OpsNeeded(r))
  }

  // Within the stacks, evaluation is the meaning of the abstract syntax.
  lemma {:induction false} EvaluateWithinStacks<V>(apply: Arithmetic<V>, e: Expr<V>, nums: nat, ops: nat)
    requires NumsNeeded(e) <= nums && OpsNeeded(e) <= ops
    ensures Evaluate(apply, e, nums, ops) ==
      match Meaning(apply, Strip(e)) case Some(v) => Success(v) case None => MathError
  {
    match e
    case Leaf(_) =>
    case Paren(_, i) => EvaluateWithinStacks(apply, i, nums, ops - 1);
    case Bin(_, l, r) =>
      EvaluateWithinStacks(apply, l, nums, ops);
      EvaluateWithinStacks(apply, r, nums - 1, ops - 1);
  }

  // A success needed no more than the stacks had, and is the meaning.
  lemma {:induction false} SuccessFitsStacks<V>(apply: Arithmetic<V>, e: Expr<V>, nums: nat, ops: nat)
    requires Evaluate(apply, e, nums, ops).Success?
    ensures NumsNeeded(e) <= nums && OpsNeeded(e) <= ops
    ensures Meaning(apply, Strip(e)) == Some(Evaluate(apply, e, nums, ops).value)
  {
    match e
    case Leaf(_) =>
    case Paren(_, i) => SuccessFitsStacks(apply, i, nums, ops - 1);
    case Bin(_, l, r) =>
      SuccessFitsStacks(apply, l, nums, ops);
      SuccessFitsStacks(apply, r, nums - 1, ops - 1);
  }
}
