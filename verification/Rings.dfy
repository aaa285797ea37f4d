// Positions on a ring of cells.
module Rings {
  import opened Remainders

  // The index pos % capacity, computed by subtraction (CellIsRemainder).
  function Cell(pos: nat, capacity: nat): (i: nat)
    requires capacity > 0
    ensures i < capacity && i <= pos
  {
    if pos < capacity then pos else Cell(pos - capacity, capacity)
  }

  lemma {:induction false} CellIsRemainder(pos: nat, capacity: nat) returns (k: nat)
    requires capacity > 0
    ensures Cell(pos, capacity) == pos % capacity && pos == k * capacity + Cell(pos, capacity)
  {
    if pos < capacity {
      k := 0;
    } else {
      k := CellIsRemainder(pos - capacity, capacity);
      k := k + 1;
    }
    DivModUnique(pos, k, capacity, Cell(pos, capacity));
  }

  // Distinct positions that use the same cell are at least a capacity apart.
  lemma {:induction false} SameCell(p: nat, q: nat, c: nat)
    requires c > 0 && Cell(p, c) == Cell(q, c)
    ensures p == q || p >= q + c || q >= p + c
  {
    if p >= c && q >= c { SameCell(p - c, q - c, c); }
  }

  // Stepping an index around the ring follows the position.
  lemma {:induction false} CellStep(pos: nat, c: nat)
    requires c > 0
    ensures Cell(Cell(pos, c) + 1, c) == Cell(pos + 1, c)
  {
    if pos >= c { CellStep(pos - c, c); }
  }
}
