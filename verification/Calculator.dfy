// The calculator as the program runs it: a structure with two array stacks, a read position
// and a bracket counter, updated step by step. Each method is proved against CalcMachine.
module Calculator {
  import opened CalcGrammar
  import opened CalcMachine

  // The array s[0..] as a stack with its top first.
  function FromSeq<T>(s: seq<T>): (r: Stack<T>)
    ensures r.Size() == |s|
  {
    if s == [] then Empty else Push(s[|s| - 1], FromSeq(s[..|s| - 1]))
  }

  class ArrayStack<T(0)> {
    const elements: array<T>
    var pointer: int

    ghost predicate Valid()
      reads this
    {
      -1 <= pointer < elements.Length
    }

    ghost function Contents(): Stack<T>
      reads this, elements
      requires Valid()
    {
      FromSeq(elements[..pointer + 1])
    }

    constructor (capacity: nat)
      ensures Valid() && fresh(elements) && elements.Length == capacity && Contents() == Empty
    {
      elements := new T[capacity];
      pointer := -1;
    }

    predicate IsFull()
      reads this
    {
      elements.Length == pointer + 1
    }

    method StackPop()
      requires Valid() && pointer != -1
      modifies this
      ensures Valid() && Contents() == old(Contents()).below
    {
      pointer := pointer - 1;
      assert elements[..pointer + 2][..pointer + 1] == elements[..pointer + 1];
    }

    method StackPush(element: T)
      requires Valid() && !IsFull()
      modifies this, elements
      ensures Valid() && Contents() == Push(element, old(Contents()))
    {
      pointer := pointer + 1;
      elements[pointer] := element;
      assert elements[..pointer + 1][..pointer] == old(elements[..pointer + 1]);
    }

    method StackPeek() returns (element: T)
      requires Valid() && pointer != -1
      ensures element == Contents().top
    {
      element := elements[pointer];
    }

    // The two topmost elements, taken off; the lower one first.
    method PopPair() returns (lower: T, upper: T)
      requires Valid() && pointer >= 1
      modifies this
      ensures Valid() && Contents().Size() + 2 == old(Contents().Size()) && pointer < elements.Length - 1
      ensures old(Contents()) == Push(upper, Push(lower, Contents()))
    {
      upper := StackPeek();
      StackPop();
      lower := StackPeek();
      StackPop();
    }
  }

  // `Aborted` is a failed capacity assertion of StackPush.
  datatype Status = SUCCESS | MATH_ERROR | SYNTAX_ERROR | Aborted

  function StatusOf<V>(o: Outcome<V>): Status {
    match o
    case Success(_) => SUCCESS
    case MathError => MATH_ERROR
    case SyntaxError => SYNTAX_ERROR
    case Overflow => Aborted
  }

  // The top operator has its two operands, and applying it leaves a valid machine.
  lemma OperationKeepsValid<V>(apply: Arithmetic<V>, m: Machine<V>)
    requires CalcMachine.Valid(m) && m.mode.WaitForOp? && m.ops.top.Pending?
    ensures m.nums.Size() >= 2
    ensures var c := CalcMachine.CalcOperation(apply, m.ops.top.op, m.nums);
      CalcMachine.Valid(m.(nums := c.nums, ops := m.ops.below))
  {
  }

  class Calc<V(0)> {
    const apply: Arithmetic<V>
    const input: seq<Token<V>>
    const numStack: ArrayStack<V>
    const opStack: ArrayStack<Symbol>
    var mathExp: nat
    var mode: Mode
    var parenthesesCounter: int

    // The representation alone: the two stacks share nothing.
    ghost predicate Separate()
      reads this, numStack, opStack
    {
      && numStack.Valid() && opStack.Valid()
      && numStack.elements.Length == NUM_CAPACITY && opStack.elements.Length == OP_CAPACITY
      && numStack as object != opStack as object && numStack.elements as object != opStack.elements as object
      && mathExp <= |input|
    }

    ghost function Abs(): Machine<V>
      reads this, numStack, opStack, numStack.elements, opStack.elements
      requires Separate()
    {
      Machine(numStack.Contents(), opStack.Contents(), mode, parenthesesCounter, input[mathExp..])
    }

    ghost predicate Ready()
      reads this, numStack, opStack, numStack.elements, opStack.elements
    {
      Separate() && CalcMachine.Valid(Abs())
    }

    // CalcInit
    constructor (apply: Arithmetic<V>, input: seq<Token<V>>)
      ensures Ready() && Abs() == Initial(input) && this.apply == apply && this.input == input
      ensures fresh(numStack) && fresh(numStack.elements) && fresh(opStack) && fresh(opStack.elements)
    {
      this.apply := apply;
      this.input := input;
      mode := WaitForNum;
      numStack := new ArrayStack(NUM_CAPACITY);
      opStack := new ArrayStack(OP_CAPACITY);
      mathExp := 0;
      parenthesesCounter := 0;
      new;
      opStack.StackPush(Bottom);
    }

    method CalcOperation(status: Status) returns (operand: V, st: Status)
      requires Ready() && mode.WaitForOp? && Abs().ops.top.Pending?
      modifies numStack, numStack.elements, opStack
      ensures Ready()
      ensures var c := CalcMachine.CalcOperation(apply, old(Abs().ops.top.op), old(Abs().nums));
        && Abs() == old(Abs()).(nums := c.nums, ops := old(Abs().ops.below))
        && operand == c.nums.top && st == if c.ok then status else MATH_ERROR
    {
      OperationKeepsValid(apply, Abs());
      hide FromSeq, PendingCount, BracketCount, Based, CalcMachine.Valid;
      ghost var m := Abs();
      var num1, num2 := numStack.PopPair();
      var operator := opStack.StackPeek();
      var answer := apply(operator.op, num1, num2);
      operand := answer.value;
      st := if answer.ok then status else MATH_ERROR;
      numStack.StackPush(operand);
      opStack.StackPop();
      assert Abs() == m.(nums := CalcMachine.CalcOperation(apply, m.ops.top.op, m.nums).nums, ops := m.ops.below);
    }

    // The state function WaitForNum, with GetNum reading the next token.
    method WaitForNumber() returns (st: Status)
      requires Ready() && mode.WaitForNum?
      modifies this, numStack, numStack.elements, opStack, opStack.elements
      ensures Separate()
      ensures old(Abs().rest) == [] ==> st == SYNTAX_ERROR
      ensures old(Abs().rest) != [] ==>
        match Step(apply, old(Abs()))
        case Continue(n) => st == SUCCESS && Abs() == n
        case Stop(o) => st == StatusOf(o) && st != SUCCESS
    {
      hide FromSeq;
      if mathExp == |input| { return SYNTAX_ERROR; }
      var token := input[mathExp];
      if !token.Open? && !token.Num? { return SYNTAX_ERROR; }
      if token.Open? && opStack.IsFull() { return Aborted; }
      if token.Num? && numStack.IsFull() { return Aborted; }
      assert input[mathExp..][1..] == input[mathExp + 1..];
      mathExp := mathExp + 1;
      if token.Open? {
        opStack.StackPush(Bra(token.bracket));
        parenthesesCounter := parenthesesCounter + 1;
      } else {
        numStack.StackPush(token.value);
        mode := WaitForOp;
      }
      st := SUCCESS;
    }

    // CorrectOperator; GetOp has already moved past the operator.
    method CorrectOperator(status: Status) returns (st: Status)
      requires Separate() && 0 < mathExp && input[mathExp - 1].Op? && mode.WaitForOp? && status == SUCCESS
      requires CalcMachine.Valid(Abs().(rest := input[mathExp - 1..]))
      modifies this, numStack, numStack.elements, opStack, opStack.elements
      ensures Separate()
      ensures match Step(apply, old(Abs()).(rest := old(input[mathExp - 1..])))
        case Continue(n) => st == SUCCESS && Abs() == n
        case Stop(o) => st == StatusOf(o) && st != SUCCESS
    {
      hide FromSeq;
      st := status;
      var operator := input[mathExp - 1].op;
      var top := opStack.StackPeek();
      assert input[mathExp - 1..][1..] == input[mathExp..];
      if Shifts(operator, top) {
        if opStack.IsFull() { return Aborted; }
        opStack.StackPush(Pending(operator));
        mode := WaitForNum;
      } else {
        var _, after := CalcOperation(status);
        st := after;
        mathExp := mathExp - 1;
      }
    }

    // The reducing loop that Parantheses and EndOfEx share.
    method ReduceLoop(status: Status) returns (operand: V, st: Status)
      requires Ready() && mode.WaitForOp? && status == SUCCESS
      modifies numStack, numStack.elements, opStack
      ensures Ready()
      ensures var r := ReduceAll(apply, old(Abs().nums), old(Abs().ops), true);
        && Abs() == old(Abs()).(nums := r.nums, ops := r.ops)
        && operand == r.nums.top && st == if r.ok then SUCCESS else MATH_ERROR
    {
      hide FromSeq, PendingCount, BracketCount;
      st := status;
      operand := numStack.StackPeek();
      var top := opStack.StackPeek();
      while top.Pending?
        invariant Ready() && top == Abs().ops.top && operand == Abs().nums.top
        invariant Abs() == old(Abs()).(nums := Abs().nums, ops := Abs().ops)
        invariant st == SUCCESS || st == MATH_ERROR
        invariant ReduceAll(apply, Abs().nums, Abs().ops, st == SUCCESS)
          == ReduceAll(apply, old(Abs().nums), old(Abs().ops), true)
        decreases Abs().ops.Size()
      {
        operand, st := CalcOperation(st);
        top := opStack.StackPeek();
      }
    }

    // Parantheses; GetOp has already moved past the closing bracket.
    method Parentheses(status: Status) returns (st: Status)
      requires Separate() && 0 < mathExp && input[mathExp - 1].Close? && mode.WaitForOp? && status == SUCCESS
      requires CalcMachine.Valid(Abs())
      modifies this, numStack, numStack.elements, opStack
      ensures Separate()
      ensures match Step(apply, old(Abs()).(rest := old(input[mathExp - 1..])))
        case Continue(n) => st == SUCCESS && Abs() == n
        case Stop(o) => st == StatusOf(o) && st != SUCCESS
    {
      var bracket := input[mathExp - 1].bracket;
      assert input[mathExp - 1..][1..] == input[mathExp..];
      var _, after := ReduceLoop(status);
      st := after;
      var top := opStack.StackPeek();
      if top != Bra(bracket) { return SYNTAX_ERROR; }
      parenthesesCounter := parenthesesCounter - 1;
      opStack.StackPop();
    }

    // The state function WaitForOp: GetOp, then the handler of the character read.
    method WaitForOperator() returns (operand: V, st: Status)
      requires Ready() && mode.WaitForOp?
      modifies this, numStack, numStack.elements, opStack, opStack.elements
      ensures Separate()
      ensures old(Abs().rest) == [] ==>
        var r := ReduceAll(apply, old(Abs().nums), old(Abs().ops), true);
        operand == r.nums.top && st == if r.ok then SUCCESS else MATH_ERROR
      ensures old(Abs().rest) != [] ==>
        match Step(apply, old(Abs()))
        case Continue(n) => st == SUCCESS && Abs() == n
        case Stop(o) => st == StatusOf(o) && st != SUCCESS
    {
      hide FromSeq;
      operand := numStack.StackPeek();
      if mathExp == |input| {
        operand, st := ReduceLoop(SUCCESS);
        return;
      }
      mathExp := mathExp + 1;
      match input[mathExp - 1]
      case Op(_) => st := CorrectOperator(SUCCESS);
      case Close(_) => st := Parentheses(SUCCESS);
      case _ => st := SYNTAX_ERROR;
    }

    // One turn of the loop of Calculate: the state function of the current mode.
    method Turn() returns (st: Status)
      requires Ready() && mathExp < |input|
      modifies this, numStack, numStack.elements, opStack, opStack.elements
      ensures Separate()
      ensures match Step(apply, old(Abs()))
        case Continue(n) => st == SUCCESS && Abs() == n && Ready()
        case Stop(o) => st == StatusOf(o) && st != SUCCESS
    {
      assert Abs().rest != [];
      hide Step;
      if mode.WaitForNum? {
        st := WaitForNumber();
      } else {
        var _, after := WaitForOperator();
        st := after;
      }
    }

    // The loop of Calculate, until the input is read or the status changes.
    method ReadAll() returns (st: Status)
      requires Ready()
      modifies this, numStack, numStack.elements, opStack, opStack.elements
      ensures st == SUCCESS ==>
        Ready() && Abs().rest == [] && mathExp == |input| && Run(apply, Abs()) == Run(apply, old(Abs()))
      ensures st != SUCCESS ==> StatusOf(Run(apply, old(Abs()))) == st
    {
      hide Step, Run, CalcMachine.Valid;
      st := SUCCESS;
      while mathExp < |input| && st == SUCCESS
        invariant st == SUCCESS ==> Ready() && Run(apply, Abs()) == Run(apply, old(Abs()))
        invariant st != SUCCESS ==> StatusOf(Run(apply, old(Abs()))) == st
        invariant Separate()
        decreases st == SUCCESS, 2 * |Abs().rest| + Abs().ops.Size()
      {
        OneTurn(apply, Abs());
        st := Turn();
      }
    }
  }

  lemma OneTurn<V>(apply: Arithmetic<V>, m: Machine<V>)
    requires CalcMachine.Valid(m) && m.rest != []
    ensures match Step(apply, m)
      case Stop(o) => Run(apply, m) == o && !o.Success?
      case Continue(n) =>
        && CalcMachine.Valid(n) && Run(apply, m) == Run(apply, n)
        && 2 * |n.rest| + n.ops.Size() < 2 * |m.rest| + m.ops.Size()
  {
  }

  lemma AtTheEnd<V>(apply: Arithmetic<V>, m: Machine<V>)
    requires CalcMachine.Valid(m) && m.rest == []
    ensures Run(apply, m) == Finish(apply, m)
  {
  }

  method Calculate<V(0)>(apply: Arithmetic<V>, input: seq<Token<V>>) returns (res: Outcome<V>)
    ensures res == CalcMachine.Calculate(apply, input)
  {
    hide Step, Run, ReduceAll, CalcMachine.Valid;
    var session := new Calc<V>(apply, input);
    var st := session.ReadAll();
    if st != SUCCESS {
      return if st == MATH_ERROR then MathError else if st == SYNTAX_ERROR then SyntaxError else Overflow;
    }
    AtTheEnd(apply, session.Abs());
    if session.parenthesesCounter != 0 { return SyntaxError; }
    if session.mode.WaitForNum? {
      var _ := session.WaitForNumber();
      res := SyntaxError;
    } else {
      var operand, status := session.WaitForOperator();
      res := if status == SUCCESS then Success(operand) else MathError;
    }
  }
}
