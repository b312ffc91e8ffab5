/** The zigzag in which the bits are placed. */
module QrZigzag {
  // ISO/IEC 18004:2015, section 7.7.

  /** Rows of modules; a module is addressed by column x and row y. */
  type Grid = seq<seq<bool>>

  datatype Cell = Cell(x: nat, y: nat)

  predicate IsSquare(g: Grid, size: nat) {
    |g| == size && forall y :: 0 <= y < size ==> |g[y]| == size
  }

  function At(g: Grid, size: nat, c: Cell): bool
    requires IsSquare(g, size) && c.x < size && c.y < size
  {
    g[c.y][c.x]
  }

  function Put(g: Grid, size: nat, c: Cell, dark: bool): (h: Grid)
    requires IsSquare(g, size) && c.x < size && c.y < size
    ensures IsSquare(h, size)
    ensures forall d: Cell :: d.x < size && d.y < size ==> At(h, size, d) == if d == c then dark else At(g, size, d)
  {
    g[c.y := g[c.y][c.x := dark]]
  }

  // ---- the order of the cells ----

  /** The sizes of QR symbols. */
  predicate IsSize(size: int) {
    size >= 21 && size % 4 == 1
  }

  /** The right column of pair p: the pairs to the left of column 6 are shifted by one. */
  function Right(size: nat, p: nat): int {
    var right := size - 1 - 2 * p;
    if right > 6 then right else right - 1
  }

  function NumPairs(size: nat): nat {
    size / 2
  }

  /** Cell k of the column pair whose right column is `right`. */
  function PairCell(size: nat, right: int, k: nat): Cell
    requires 1 <= right < size && k < 2 * size
  {
    var upward := (right + 1) / 2 % 2 == 0;
    Cell(right - k % 2, if upward then size - 1 - k / 2 else k / 2)
  }

  function PairCells(size: nat, right: int, n: nat): (cells: seq<Cell>)
    requires 1 <= right < size && n <= 2 * size
    ensures |cells| == n
  {
    seq(n, k requires 0 <= k < n => PairCell(size, right, k))
  }

  /** The cells of the first p column pairs, in the order of the scan. */
  function Scan(size: nat, p: nat): seq<Cell>
    requires IsSize(size) && p <= NumPairs(size)
  {
    if p == 0 then [] else Scan(size, p - 1) + PairCells(size, Right(size, p - 1), 2 * size)
  }

  ghost predicate InRange(cells: seq<Cell>, size: nat) {
    forall i :: 0 <= i < |cells| ==> cells[i].x < size && cells[i].y < size
  }

  ghost predicate NoRepeats(cells: seq<Cell>) {
    forall i, j :: 0 <= i < j < |cells| ==> cells[i] != cells[j]
  }

  lemma {:induction false} ScanColumns(size: nat, p: nat)
    requires IsSize(size) && p <= NumPairs(size)
    ensures InRange(Scan(size, p), size)
    ensures forall i :: 0 <= i < |Scan(size, p)| ==> Scan(size, p)[i].x != 6
    ensures p < NumPairs(size) ==> forall i :: 0 <= i < |Scan(size, p)| ==> Scan(size, p)[i].x > Right(size, p)
  {
    if p != 0 {
      ScanColumns(size, p - 1);
    }
  }

  /** No cell is visited twice. */
  lemma {:induction false} ScanNoRepeats(size: nat, p: nat)
    requires IsSize(size) && p <= NumPairs(size)
    ensures NoRepeats(Scan(size, p))
  {
    if p != 0 {
      ScanNoRepeats(size, p - 1);
      ScanColumns(size, p - 1);
      var right := Right(size, p - 1);
      forall i, j | 0 <= i < j < 2 * size
        ensures PairCell(size, right, i) != PairCell(size, right, j)
      {
        assert i == 2 * (i / 2) + i % 2 && j == 2 * (j / 2) + j % 2;
      }
    }
  }

  lemma PairCovers(size: nat, right: int, c: Cell)
    requires 1 <= right < size && right - 1 <= c.x <= right && c.y < size
    ensures c in PairCells(size, right, 2 * size)
  {
    var upward := (right + 1) / 2 % 2 == 0;
    var row := if upward then size - 1 - c.y else c.y;
    var k := 2 * row + (right - c.x);
    assert k / 2 == row && k % 2 == right - c.x;
    assert PairCells(size, right, 2 * size)[k] == c;
  }

  // The pair that column x belongs to.
  function PairOf(size: nat, x: nat): int
    requires x < size && x != 6
  {
    if x > 6 then (size - 1 - x) / 2 else (size - 2 - x) / 2
  }

  lemma PairOfColumn(size: nat, x: nat)
    requires IsSize(size) && x < size && x != 6
    ensures var p := PairOf(size, x);
      0 <= p < NumPairs(size) && 1 <= Right(size, p) < size && Right(size, p) - 1 <= x <= Right(size, p)
  {
    hide IsSize;
    assert size >= 21 && size % 2 == 1 by { SizesAreOdd(size); }
  }

  lemma SizesAreOdd(size: int)
    requires IsSize(size)
    ensures size >= 21 && size % 2 == 1
  {
    OddNumber(size, 2 * (size / 4));
  }

  lemma OddNumber(n: int, half: int)
    requires n == 2 * half + 1
    ensures n % 2 == 1
  {
  }

  /** Every cell outside column 6 is visited. */
  lemma ScanCovers(size: nat, c: Cell)
    requires IsSize(size) && c.x < size && c.y < size && c.x != 6
    ensures c in Scan(size, NumPairs(size))
  {
    hide *;
    var p := PairOf(size, c.x);
    PairOfColumn(size, c.x);
    PairCovers(size, Right(size, p), c);
    ScanHasPair(size, p, c);
    ScanGrows(size, p + 1, NumPairs(size));
  }

  lemma ScanHasPair(size: nat, p: nat, c: Cell)
    requires IsSize(size) && p < NumPairs(size) && 1 <= Right(size, p) < size
    requires c in PairCells(size, Right(size, p), 2 * size)
    ensures c in Scan(size, p + 1)
  {
    hide PairCells, Right;
  }

  lemma {:induction false} ScanGrows(size: nat, p: nat, q: nat)
    requires IsSize(size) && p <= q <= NumPairs(size)
    ensures Scan(size, p) <= Scan(size, q)
  {
    if p < q {
      ScanGrows(size, p, q - 1);
    }
  }

  // ---- placing bits and reading them ----

  /** A grid and the number of bits placed in it so far. */
  datatype Placed = Placed(grid: Grid, used: nat)

  /** Puts the next bit into the cell, unless the cell is a function module or no bit is left. */
  function PlaceAt(s: Placed, f: Grid, size: nat, c: Cell, bits: seq<bool>): (t: Placed)
    requires IsSquare(s.grid, size) && IsSquare(f, size) && c.x < size && c.y < size
    requires s.used <= |bits|
    ensures IsSquare(t.grid, size) && t.used <= |bits|
  {
    if !At(f, size, c) && s.used < |bits| then Placed(Put(s.grid, size, c, bits[s.used]), s.used + 1) else s
  }

  function Place(g: Grid, f: Grid, size: nat, cells: seq<Cell>, bits: seq<bool>): (t: Placed)
    requires IsSquare(g, size) && IsSquare(f, size) && InRange(cells, size)
    ensures IsSquare(t.grid, size) && t.used <= |bits|
  {
    if cells == [] then Placed(g, 0)
    else PlaceAt(Place(g, f, size, cells[..|cells| - 1], bits), f, size, cells[|cells| - 1], bits)
  }

  /** What a reader collects: the modules of the cells that are not function modules, in order. */
  function Collect(g: Grid, f: Grid, size: nat, cells: seq<Cell>): seq<bool>
    requires IsSquare(g, size) && IsSquare(f, size) && InRange(cells, size)
  {
    if cells == [] then []
    else
      var before, c := Collect(g, f, size, cells[..|cells| - 1]), cells[|cells| - 1];
      if At(f, size, c) then before else before + [At(g, size, c)]
  }

  /** The number of cells that can hold a bit. */
  function FreeCells(f: Grid, size: nat, cells: seq<Cell>): (n: nat)
    requires IsSquare(f, size) && InRange(cells, size)
  {
    if cells == [] then 0
    else FreeCells(f, size, cells[..|cells| - 1]) + if At(f, size, cells[|cells| - 1]) then 0 else 1
  }

  // Changing a cell that is not in the list does not change what is collected.
  lemma {:induction false} CollectFrame(g: Grid, f: Grid, size: nat, cells: seq<Cell>, c: Cell, dark: bool)
    requires IsSquare(g, size) && IsSquare(f, size) && InRange(cells, size)
    requires c.x < size && c.y < size && c !in cells
    ensures Collect(Put(g, size, c, dark), f, size, cells) == Collect(g, f, size, cells)
  {
    hide Put, At;
    if cells != [] {
      CollectFrame(g, f, size, cells[..|cells| - 1], c, dark);
    }
  }

  /** Scanning in the same order returns exactly the bits, followed by what was in the cells left
      over; and as many bits are placed as there are free cells for them. */
  lemma {:induction false} PlacedBitsAreCollected(g: Grid, f: Grid, size: nat, cells: seq<Cell>, bits: seq<bool>)
    requires IsSquare(g, size) && IsSquare(f, size) && InRange(cells, size) && NoRepeats(cells)
    ensures var free, t := FreeCells(f, size, cells), Place(g, f, size, cells, bits);
      && t.used == (if free < |bits| then free else |bits|)
      && |Collect(t.grid, f, size, cells)| == |Collect(g, f, size, cells)| == free
      && Collect(t.grid, f, size, cells)[..t.used] == bits[..t.used]
      && Collect(t.grid, f, size, cells)[t.used..] == Collect(g, f, size, cells)[t.used..]
  {
    if cells != [] {
      hide Put, At, IsSquare, Place, Collect, PlaceAt, InRange, NoRepeats, FreeCells;
      var n := |cells| - 1;
      var before, c := cells[..n], cells[n];
      LastCell(size, cells);
      PlacedBitsAreCollected(g, f, size, before, bits);
      var s := Place(g, f, size, before, bits);
      PlaceUnfold(g, f, size, cells, bits);
      CollectUnfold(g, f, size, cells);
      FreeCellsUnfold(f, size, cells);
      PlaceChangesFreeCellsOnly(g, f, size, before, bits, c);
      OneMoreCell(g, s, f, size, cells, bits);
    } else {
      NothingCollected(g, f, size, bits);
    }
  }

  lemma NothingCollected(g: Grid, f: Grid, size: nat, bits: seq<bool>)
    requires IsSquare(g, size) && IsSquare(f, size)
    ensures InRange([], size) && FreeCells(f, size, []) == 0
    ensures Place(g, f, size, [], bits) == Placed(g, 0) && Collect(g, f, size, []) == []
  {
  }

  lemma LastCell(size: nat, cells: seq<Cell>)
    requires InRange(cells, size) && NoRepeats(cells) && cells != []
    ensures var n := |cells| - 1;
      && InRange(cells[..n], size) && NoRepeats(cells[..n])
      && cells[n].x < size && cells[n].y < size && cells[n] !in cells[..n]
  {
  }

  lemma FreeCellsUnfold(f: Grid, size: nat, cells: seq<Cell>)
    requires IsSquare(f, size) && InRange(cells, size) && cells != []
    ensures FreeCells(f, size, cells)
         == FreeCells(f, size, cells[..|cells| - 1]) + if At(f, size, cells[|cells| - 1]) then 0 else 1
  {
  }

  // The last cell of the list, after s has been reached with the cells before it.
  lemma OneMoreCell(g: Grid, s: Placed, f: Grid, size: nat, cells: seq<Cell>, bits: seq<bool>)
    requires IsSquare(g, size) && IsSquare(s.grid, size) && IsSquare(f, size)
    requires InRange(cells, size) && NoRepeats(cells) && cells != []
    requires var before, c := cells[..|cells| - 1], cells[|cells| - 1];
      && s.used <= |bits|
      && s.used <= |Collect(s.grid, f, size, before)| == |Collect(g, f, size, before)|
      && (s.used < |bits| ==> s.used == |Collect(g, f, size, before)|)
      && Collect(s.grid, f, size, before)[..s.used] == bits[..s.used]
      && Collect(s.grid, f, size, before)[s.used..] == Collect(g, f, size, before)[s.used..]
      && At(s.grid, size, c) == At(g, size, c)
    ensures var t := PlaceAt(s, f, size, cells[|cells| - 1], bits);
      && |Collect(t.grid, f, size, cells)| == |Collect(g, f, size, cells)| && t.used <= |Collect(g, f, size, cells)|
      && Collect(t.grid, f, size, cells)[..t.used] == bits[..t.used]
      && Collect(t.grid, f, size, cells)[t.used..] == Collect(g, f, size, cells)[t.used..]
  {
    hide Put, At, IsSquare, Collect, InRange, NoRepeats;
    LastCell(size, cells);
    var before, c := cells[..|cells| - 1], cells[|cells| - 1];
    var t := PlaceAt(s, f, size, c, bits);
    CollectUnfold(g, f, size, cells);
    CollectUnfold(t.grid, f, size, cells);
    var was, now := Collect(g, f, size, before), Collect(s.grid, f, size, before);
    if t != s {
      var bit := bits[s.used];
      CollectFrame(s.grid, f, size, before, c, bit);
      PutAt(s.grid, size, c, bit);
      assert now == bits[..s.used];
      assert bits[..s.used] + [bit] == bits[..s.used + 1];
    } else if !At(f, size, c) {
      LastElement(was, now, s.used, At(g, size, c), bits);
    }
  }

  lemma LastElement(was: seq<bool>, now: seq<bool>, used: nat, x: bool, bits: seq<bool>)
    requires used <= |now| == |was| && used <= |bits| && now[..used] == bits[..used] && now[used..] == was[used..]
    ensures (now + [x])[..used] == bits[..used] && (now + [x])[used..] == (was + [x])[used..]
  {
    assert (now + [x])[..used] == now[..used];
    assert (now + [x])[used..] == now[used..] + [x] && (was + [x])[used..] == was[used..] + [x];
  }

  lemma PlaceUnfold(g: Grid, f: Grid, size: nat, cells: seq<Cell>, bits: seq<bool>)
    requires IsSquare(g, size) && IsSquare(f, size) && InRange(cells, size) && cells != []
    ensures Place(g, f, size, cells, bits)
         == PlaceAt(Place(g, f, size, cells[..|cells| - 1], bits), f, size, cells[|cells| - 1], bits)
  {
  }

  lemma CollectUnfold(g: Grid, f: Grid, size: nat, cells: seq<Cell>)
    requires IsSquare(g, size) && IsSquare(f, size) && InRange(cells, size) && cells != []
    ensures var before, c := Collect(g, f, size, cells[..|cells| - 1]), cells[|cells| - 1];
      Collect(g, f, size, cells) == if At(f, size, c) then before else before + [At(g, size, c)]
  {
  }

  lemma PutAt(g: Grid, size: nat, c: Cell, dark: bool)
    requires IsSquare(g, size) && c.x < size && c.y < size
    ensures At(Put(g, size, c, dark), size, c) == dark
  {
  }

  /** Nothing but free cells of the list changes. */
  lemma {:induction false} PlaceChangesFreeCellsOnly(g: Grid, f: Grid, size: nat, cells: seq<Cell>,
                                                     bits: seq<bool>, c: Cell)
    requires IsSquare(g, size) && IsSquare(f, size) && InRange(cells, size)
    requires c.x < size && c.y < size
    requires At(f, size, c) || c !in cells
    ensures At(Place(g, f, size, cells, bits).grid, size, c) == At(g, size, c)
  {
    if cells != [] {
      PlaceChangesFreeCellsOnly(g, f, size, cells[..|cells| - 1], bits, c);
    }
  }
}
