// The exhaustive knight's tour: a table of moves, a vector of visited squares that the search
// pushes and pops, and a set of visited squares passed down by value.
module KnightTour {
  import opened Shared

  const BOARD_SIZE := 64
  const MAX_POS_MOVE := 8
  const ROW := 8

  // The three rows of the move table: index offset, row offset, column offset.
  const OFFSETS: seq<int> := [-17, -10, 6, 15, 17, 10, -6, -15]
  const ROW_OFFSETS: seq<int> := [-2, -1, 1, 2, 2, 1, -1, -2]
  const COL_OFFSETS: seq<int> := [-1, -2, -2, -1, 1, 2, 2, 1]

  predicate OnBoard(x: int) { 0 <= x < BOARD_SIZE }

  // A knight's move in chess terms.
  predicate KnightMove(x: int, y: int) {
    && OnBoard(x) && OnBoard(y)
    && var rows, cols := Abs(x / ROW - y / ROW), Abs(x % ROW - y % ROW);
       (rows == 1 && cols == 2) || (rows == 2 && cols == 1)
  }

  // LEGIT_ROW and LEGIT_COL
  predicate Legit(x: int, m: int)
    requires 0 <= m < MAX_POS_MOVE
  {
    0 <= x / ROW + ROW_OFFSETS[m] < ROW && 0 <= x % ROW + COL_OFFSETS[m] < ROW
  }

  // One entry of the table: 0 is "no such move".
  function TableEntry(x: int, m: int): int
    requires 0 <= m < MAX_POS_MOVE
  {
    if Legit(x, m) then OFFSETS[m] else 0
  }

  // The nonzero entries of a square are exactly its knight's moves.
  lemma TableIsKnightMoves(x: int, y: int)
    requires OnBoard(x)
    ensures KnightMove(x, y) <==>
      exists m :: 0 <= m < MAX_POS_MOVE && TableEntry(x, m) != 0 && y == x + TableEntry(x, m)
  {
    if KnightMove(x, y) {
      var m := MoveIndex(y / ROW - x / ROW, y % ROW - x % ROW);
      assert y == x + TableEntry(x, m);
    }
    forall m | 0 <= m < MAX_POS_MOVE && TableEntry(x, m) != 0
      ensures KnightMove(x, x + TableEntry(x, m))
    {
      EntryIsMove(x, m);
    }
  }

  lemma EntryIsMove(x: int, m: int)
    requires OnBoard(x) && 0 <= m < MAX_POS_MOVE && TableEntry(x, m) != 0
    ensures KnightMove(x, x + TableEntry(x, m))
  {
    var r', c' := x / ROW + ROW_OFFSETS[m], x % ROW + COL_OFFSETS[m];
    assert x + TableEntry(x, m) == r' * ROW + c';
  }

  function MoveIndex(rows: int, cols: int): (m: int)
    requires (Abs(rows) == 1 && Abs(cols) == 2) || (Abs(rows) == 2 && Abs(cols) == 1)
    ensures 0 <= m < MAX_POS_MOVE && ROW_OFFSETS[m] == rows && COL_OFFSETS[m] == cols
  {
    if rows == -2 then if cols == -1 then 0 else 7
    else if rows == -1 then if cols == -2 then 1 else 6
    else if rows == 1 then if cols == -2 then 2 else 5
    else if cols == -1 then 3 else 4
  }

  // The squares the first n entries of a square's column lead to.
  ghost function Targets(x: int, n: nat): set<int>
    requires n <= MAX_POS_MOVE
  {
    if n == 0 then {} else Targets(x, n - 1) + if Legit(x, n - 1) then {x + OFFSETS[n - 1]} else {}
  }

  ghost predicate Reached(x: int, n: nat, y: int)
    requires n <= MAX_POS_MOVE
  {
    exists m :: 0 <= m < n && Legit(x, m) && y == x + OFFSETS[m]
  }

  lemma {:induction false} InTargets(x: int, n: nat, y: int)
    requires n <= MAX_POS_MOVE
    ensures y in Targets(x, n) <==> Reached(x, n, y)
  {
    hide Legit;
    if n > 0 { InTargets(x, n - 1, y); }
  }

  lemma OffsetsDiffer(m: int, n: int)
    requires 0 <= m < n < MAX_POS_MOVE
    ensures OFFSETS[m] != OFFSETS[n]
  {
  }

  lemma {:induction false} TargetsCount(x: int, n: nat)
    requires n <= MAX_POS_MOVE
    ensures |Targets(x, n)| == LegitCount(x, n)
  {
    hide Legit;
    if n > 0 {
      TargetsCount(x, n - 1);
      var y := x + OFFSETS[n - 1];
      InTargets(x, n - 1, y);
      if Reached(x, n - 1, y) {
        var m :| 0 <= m < n - 1 && Legit(x, m) && y == x + OFFSETS[m];
        OffsetsDiffer(m, n - 1);
      }
    }
  }

  // The last row of the table counts the knight's moves of each square.
  lemma CountsKnightMoves(x: int, moves: set<int>)
    requires OnBoard(x) && forall y :: y in moves <==> KnightMove(x, y)
    ensures |moves| == LegitCount(x, MAX_POS_MOVE)
  {
    hide Targets, Legit, LegitCount, KnightMove;
    TargetsCount(x, MAX_POS_MOVE);
    forall y ensures y in moves <==> y in Targets(x, MAX_POS_MOVE) { ReachedIsMove(x, y); }
    assert moves == Targets(x, MAX_POS_MOVE);
  }

  lemma ReachedIsMove(x: int, y: int)
    requires OnBoard(x)
    ensures y in Targets(x, MAX_POS_MOVE) <==> KnightMove(x, y)
  {
    hide KnightMove, Targets, Legit;
    InTargets(x, MAX_POS_MOVE, y);
    TableIsKnightMoves(x, y);
    forall m | 0 <= m < MAX_POS_MOVE ensures TableEntry(x, m) == if Legit(x, m) then OFFSETS[m] else 0 {}
    assert forall m :: 0 <= m < MAX_POS_MOVE ==> OFFSETS[m] != 0;
  }

  // A path of distinct squares, each a knight's move from the one before.
  ghost predicate IsPath(path: seq<int>) {
    && (forall i :: 0 <= i < |path| ==> OnBoard(path[i]))
    && (forall i :: 0 < i < |path| ==> KnightMove(path[i - 1], path[i]))
    && (forall i, j :: 0 <= i < j < |path| ==> path[i] != path[j])
  }

  ghost predicate IsTour(path: seq<int>) { IsPath(path) && |path| == BOARD_SIZE }

  // Some tour begins with this path.
  ghost predicate Extends(path: seq<int>) {
    exists tour :: IsTour(tour) && path <= tour
  }

  ghost function Squares(path: seq<int>): set<int> { set i | 0 <= i < |path| :: path[i] }

  lemma {:induction false} SquaresOfPath(path: seq<int>)
    requires IsPath(path)
    ensures |Squares(path)| == |path|
  {
    if path != [] {
      var n := |path| - 1;
      SquaresOfPath(path[..n]);
      assert Squares(path) == Squares(path[..n]) + {path[n]};
    }
  }

  function Board(n: nat): set<int> {
    if n == 0 then {} else Board(n - 1) + {n - 1}
  }

  lemma {:induction false} BoardHolds(n: nat)
    ensures |Board(n)| == n && forall x :: x in Board(n) <==> 0 <= x < n
  {
    if n > 0 { BoardHolds(n - 1); }
  }

  // All squares are visited exactly when the path is a tour.
  lemma AllVisited(path: seq<int>)
    requires IsPath(path)
    ensures |path| <= BOARD_SIZE
    ensures Squares(path) == Board(BOARD_SIZE) <==> |path| == BOARD_SIZE
  {
    SquaresOfPath(path);
    BoardHolds(BOARD_SIZE);
    var s, b := Squares(path), Board(BOARD_SIZE);
    assert s <= b;
    assert |b| == |s| + |b - s| by { assert b == s + (b - s); }
    assert b - s == {} <==> s == b;
  }

  lemma SquaresAppend(path: seq<int>, y: int)
    ensures Squares(path + [y]) == Squares(path) + {y}
  {
    var longer := path + [y];
    assert forall i :: 0 <= i < |path| ==> longer[i] == path[i];
    assert longer[|path|] == y;
  }

  lemma PathExtends(path: seq<int>, y: int)
    requires IsPath(path) && path != [] && KnightMove(path[|path| - 1], y) && y !in Squares(path)
    ensures IsPath(path + [y])
  {
    assert forall i :: 0 <= i < |path| ==> path[i] in Squares(path);
  }

  // A proper beginning of a tour goes on with some knight's move to an unvisited square.
  lemma ExtendsByMove(path: seq<int>) returns (m: int)
    requires IsPath(path) && 0 < |path| < BOARD_SIZE && Extends(path)
    ensures 0 <= m < MAX_POS_MOVE
    ensures var x := path[|path| - 1];
      TableEntry(x, m) != 0 && x + TableEntry(x, m) !in Squares(path) && Extends(path + [x + TableEntry(x, m)])
  {
    var tour :| IsTour(tour) && path <= tour;
    var n := |path|;
    var x, y := path[n - 1], tour[n];
    assert x == tour[n - 1];
    TableIsKnightMoves(x, y);
    m :| 0 <= m < MAX_POS_MOVE && TableEntry(x, m) != 0 && y == x + TableEntry(x, m);
    forall i | 0 <= i < n ensures path[i] != y { assert path[i] == tour[i]; }
    assert path + [y] == tour[..n + 1];
  }

  // The dynamic vector; its growth is not visible to the caller.
  class Vector {
    var elements: seq<int>

    constructor ()
      ensures elements == []
    {
      elements := [];
    }

    method PushBack(x: int)
      modifies this
      ensures elements == old(elements) + [x]
    {
      elements := elements + [x];
    }

    method PopBack()
      requires elements != []
      modifies this
      ensures elements == old(elements)[..|old(elements)| - 1]
    {
      elements := elements[..|elements| - 1];
    }
  }

  ghost predicate TableFilled(table: array2<int>)
    reads table
  {
    && table.Length0 == MAX_POS_MOVE + 1 && table.Length1 == BOARD_SIZE
    && forall m, x :: 0 <= m < MAX_POS_MOVE && 0 <= x < BOARD_SIZE ==> table[m, x] == TableEntry(x, m)
  }

  function LegitCount(x: int, moves: nat): nat
    requires moves <= MAX_POS_MOVE
  {
    if moves == 0 then 0 else LegitCount(x, moves - 1) + if Legit(x, moves - 1) then 1 else 0
  }

  // Rows 0 to 7 hold the moves of each square, row 8 their number.
  method InitPossibleMoves() returns (table: array2<int>)
    ensures fresh(table) && TableFilled(table)
    ensures forall x :: 0 <= x < BOARD_SIZE ==> table[MAX_POS_MOVE, x] == LegitCount(x, MAX_POS_MOVE)
  {
    table := new int[MAX_POS_MOVE + 1, BOARD_SIZE]((_, _) => 0);
    var pos := 0;
    while pos < BOARD_SIZE
      invariant 0 <= pos <= BOARD_SIZE
      invariant forall m, x :: 0 <= m < MAX_POS_MOVE && 0 <= x < pos ==> table[m, x] == TableEntry(x, m)
      invariant forall x :: 0 <= x < pos ==> table[MAX_POS_MOVE, x] == LegitCount(x, MAX_POS_MOVE)
      invariant forall m, x :: 0 <= m <= MAX_POS_MOVE && pos <= x < BOARD_SIZE ==> table[m, x] == 0
    {
      FillSquare(table, pos);
      pos := pos + 1;
    }
  }

  // The inner loop: the moves of one square, whose column is zero so far.
  method FillSquare(table: array2<int>, pos: int)
    requires table.Length0 == MAX_POS_MOVE + 1 && table.Length1 == BOARD_SIZE && OnBoard(pos)
    requires forall m :: 0 <= m <= MAX_POS_MOVE ==> table[m, pos] == 0
    modifies table
    ensures forall m :: 0 <= m < MAX_POS_MOVE ==> table[m, pos] == TableEntry(pos, m)
    ensures table[MAX_POS_MOVE, pos] == LegitCount(pos, MAX_POS_MOVE)
    ensures forall m, x :: 0 <= m <= MAX_POS_MOVE && 0 <= x < BOARD_SIZE && x != pos ==>
      table[m, x] == old(table[m, x])
  {
    hide Legit;
    var move := 0;
    while move < MAX_POS_MOVE
      invariant 0 <= move <= MAX_POS_MOVE
      invariant forall m :: 0 <= m < move ==> table[m, pos] == TableEntry(pos, m)
      invariant forall m :: move <= m < MAX_POS_MOVE ==> table[m, pos] == 0
      invariant table[MAX_POS_MOVE, pos] == LegitCount(pos, move)
      invariant forall m, x :: 0 <= m <= MAX_POS_MOVE && 0 <= x < BOARD_SIZE && x != pos ==>
        table[m, x] == old(table[m, x])
    {
      if Legit(pos, move) {
        table[move, pos] := OFFSETS[move];
        table[MAX_POS_MOVE, pos] := table[MAX_POS_MOVE, pos] + 1;
      }
      move := move + 1;
    }
  }

  // The backtracking search is sound and complete: it succeeds exactly when some tour begins
  // with the path and this square, and then leaves such a tour in the vector; otherwise it
  // leaves the vector as it found it.
  method WalkThroughChess(vector: Vector, visited: set<int>, index: int, table: array2<int>) returns (found: bool)
    requires IsPath(vector.elements + [index]) && visited == Squares(vector.elements) && TableFilled(table)
    modifies vector
    ensures found <==> Extends(old(vector.elements) + [index])
    ensures found ==> IsTour(vector.elements) && old(vector.elements) + [index] <= vector.elements
    ensures !found ==> vector.elements == old(vector.elements)
    decreases BOARD_SIZE - |vector.elements|
  {
    hide KnightMove, Board, TableEntry, Squares;
    ghost var before := vector.elements;
    var now := visited + {index};
    vector.PushBack(index);
    ghost var path := vector.elements;
    SquaresAppend(before, index);
    AllVisited(path);
    if now == Board(BOARD_SIZE) {
      assert IsTour(path) && path <= path;
      return true;
    }
    var i := 0;
    while i < MAX_POS_MOVE
      invariant 0 <= i <= MAX_POS_MOVE && vector.elements == path
      invariant forall m :: 0 <= m < i && TableEntry(index, m) != 0 && index + TableEntry(index, m) !in now ==>
        !Extends(path + [index + TableEntry(index, m)])
    {
      var next := table[i, index];
      if next != 0 && index + next !in now {
        TableIsKnightMoves(index, index + next);
        PathExtends(path, index + next);
        var deeper := WalkThroughChess(vector, now, index + next, table);
        if deeper { return true; }
      }
      i := i + 1;
    }
    if Extends(path) {
      var m := ExtendsByMove(path);
    }
    vector.PopBack();
    found := false;
  }
}
