/**
 A single generation of Conway's Game of Life on a square toroidal grid:
 the board, the wrap-around neighbour addressing, the Moore-neighbour count,
 the synchronous B3/S23 step and the cell-by-cell comparison of two boards.
 */
module ConwayBoard {

  /** A board of `size` rows, each of `size` cells; `true` is alive. */
  datatype Board = Board(size: int, cells: seq<seq<bool>>)

  /** The shape every board has: at least one row, and exactly `size` rows of `size` cells. */
  ghost predicate WellFormed(b: Board) {
    && b.size >= 1
    && |b.cells| == b.size
    && forall i :: 0 <= i < |b.cells| ==> |b.cells[i]| == b.size
  }

  /** The board every cell of which is `alive`. */
  function Uniform(size: int, alive: bool): (b: Board)
    requires size >= 1
    ensures WellFormed(b) && b.size == size
  {
    Board(size, seq(size, _ => seq(size, _ => alive)))
  }

  /**
   A freshly constructed board. The source seeds each cell with an
   independent coin flip; here the flips are the parameter `coin`,
   indexed by position, so a fresh board has arbitrary cells.
   */
  function Fresh(size: int, coin: (int, int) -> bool): (b: Board)
    requires size >= 1
    ensures WellFormed(b) && b.size == size
    ensures forall i, j :: 0 <= i < size && 0 <= j < size ==> b.cells[i][j] == coin(i, j)
  {
    Board(size, seq(size, i => seq(size, j => coin(i, j))))
  }

  /** A unit step along one axis. */
  type Unit = d: int | -1 <= d <= 1

  /** A step to one of the cells around a cell (or to the cell itself). */
  type Offset = (Unit, Unit)

  function Abs(a: int): nat {
    if a < 0 then -a else a
  }

  /** A positive multiple of a positive number is at least that number. */
  lemma MulAtLeast(k: int, n: int)
    requires k >= 1 && n > 0
    ensures k * n >= n
  {
  }

  /** Euclidean remainder is determined by any quotient/remainder decomposition. */
  lemma ModUnique(a: int, n: int, q: int, r: int)
    requires n > 0 && a == q * n + r && 0 <= r < n
    ensures a % n == r
  {
    var q', m := a / n, a % n;
    assert a == q' * n + m;
    assert (q - q') * n == m - r;
    if q > q' {
      MulAtLeast(q - q', n);
      assert false;
    } else if q < q' {
      MulAtLeast(q' - q, n);
      assert false;
    }
  }

  /** Any multiple of a non-zero number leaves no remainder when divided by it. */
  lemma MultipleHasNoRemainder(k: int, n: int)
    requires n != 0
    ensures (k * n) % n == 0
  {
    if n > 0 {
      ModUnique(k * n, n, k, 0);
    } else {
      var q, m := (k * n) / n, (k * n) % n;
      assert k * n == q * n + m && 0 <= m < -n;
      assert (k - q) * n == m;
      if k - q > 0 {
        MulAtLeast(k - q, -n);
        assert false;
      } else if k - q < 0 {
        MulAtLeast(q - k, -n);
        assert false;
      }
    }
  }

  /** The magnitude of the remainder when `|a|` is divided by `|n|`. */
  function AbsRem(a: int, n: int): int
    requires n != 0
  {
    Abs(a) % Abs(n)
  }

  /** Negating one factor negates the product. */
  lemma NegateFactor(x: int, y: int)
    ensures (-x) * y == -(x * y) && x * (-y) == -(x * y)
  {
  }

  /** Euclidean division of the magnitudes: `|a|` is a multiple of `|n|` plus the remainder. */
  lemma AbsDivision(a: int, n: int)
    requires n != 0
    ensures Abs(a) == (Abs(a) / Abs(n)) * Abs(n) + AbsRem(a, n)
  {
    var x, y := Abs(a), Abs(n);
    assert x == (x / y) * y + x % y;
  }

  /**
   The quotient of JavaScript's truncating division: `a` minus this many
   `n`s is the remainder with the sign of `a`.
   */
  function TruncDiv(a: int, n: int): (q: int)
    requires n != 0
    ensures a - q * n == (if a >= 0 then AbsRem(a, n) else -AbsRem(a, n))
  {
    var q0, size := Abs(a) / Abs(n), Abs(n);
    AbsDivision(a, n);
    NegateFactor(q0, n);
    if n > 0 then
      assert size == n;
      if a >= 0 then q0 else -q0
    else
      assert size == -n;
      if a >= 0 then -q0 else q0
  }

  /**
   JavaScript's `%`: the remainder of truncating division. It is smaller in
   size than the divisor, takes the sign of the dividend, and differs from
   the dividend by a multiple of the divisor; together these fix it.
   */
  function JsRem(a: int, n: int): (r: int)
    requires n != 0
    ensures Abs(r) < Abs(n)
    ensures a >= 0 ==> r >= 0
    ensures a <= 0 ==> r <= 0
    ensures (a - r) % n == 0
  {
    var m := AbsRem(a, n);
    MultipleHasNoRemainder(TruncDiv(a, n), n);
    if a >= 0 then m else -m
  }

  /** The source's wrapped index `(x + d + size) % size`, with JavaScript's `%`. */
  function WrapIndex(x: int, d: int, size: int): (r: int)
    requires size != 0
    ensures Abs(r) < Abs(size)
    ensures x + d + size >= 0 ==> r >= 0
  {
    JsRem(x + d + size, size)
  }

  /** Adding `size` before taking the remainder does not change the class: the index is `x + d` modulo `size`. */
  lemma WrapIndexIsCongruent(x: int, d: int, size: int)
    requires size != 0
    ensures (x + d - WrapIndex(x, d, size)) % size == 0
  {
    var a, r := x + d + size, WrapIndex(x, d, size);
    var q := TruncDiv(a, size);
    assert a - q * size == r;
    assert (q - 1) * size == q * size - size;
    MultipleHasNoRemainder(q - 1, size);
  }

  /**
   The coordinate one step `d` from `x` around a torus of `size`: the last
   coordinate before 0, 0 after the last, and `x + d` otherwise.
   */
  function Wrap(x: int, d: Unit, size: int): (r: int)
    requires 0 <= x < size
    ensures 0 <= r < size
  {
    if x + d < 0 then size - 1 else if x + d == size then 0 else x + d
  }

  /** For an in-range coordinate and a unit offset, the source's formula is the torus step, so every access is in bounds. */
  lemma WrapIndexIsWrap(x: int, d: Unit, size: int)
    requires 0 <= x < size
    ensures 0 <= WrapIndex(x, d, size) < size
    ensures WrapIndex(x, d, size) == Wrap(x, d, size)
  {
    var a := x + d;
    if a < 0 {
      ModUnique(a + size, size, 0, size - 1);
    } else if a == size {
      ModUnique(a + size, size, 2, 0);
    } else {
      ModUnique(a + size, size, 1, a);
    }
  }

  /** The torus step is the position `x + d` taken modulo `size`. */
  lemma WrapIsTorusIndex(x: int, d: Unit, size: int)
    requires 0 <= x < size
    ensures Wrap(x, d, size) == (x + d) % size
  {
  }

  /** The eight Moore offsets, in the order the source's nested loops visit them. */
  const Offsets: seq<Offset> :=
    [(-1, -1), (-1, 0), (-1, 1), (0, -1), (0, 1), (1, -1), (1, 0), (1, 1)]

  /** Whether the neighbour of `(x, y)` at offset `o` is alive, with wrap-around. */
  function NeighborAlive(b: Board, x: int, y: int, o: Offset): bool
    requires WellFormed(b) && 0 <= x < b.size && 0 <= y < b.size
  {
    b.cells[Wrap(x, o.0, b.size)][Wrap(y, o.1, b.size)]
  }

  /** The number of offsets in `offs` whose wrapped neighbour of `(x, y)` is alive. */
  function CountOver(b: Board, x: int, y: int, offs: seq<Offset>): (c: nat)
    requires WellFormed(b) && 0 <= x < b.size && 0 <= y < b.size
    ensures c <= |offs|
    decreases |offs|
  {
    if offs == [] then 0
    else
      var last := offs[|offs| - 1];
      CountOver(b, x, y, offs[..|offs| - 1]) + (if NeighborAlive(b, x, y, last) then 1 else 0)
  }

  /** The number of live cells among the eight Moore neighbours of `(x, y)`. */
  function NeighborCount(b: Board, x: int, y: int): (c: nat)
    requires WellFormed(b) && 0 <= x < b.size && 0 <= y < b.size
    ensures c <= 8
  {
    CountOver(b, x, y, Offsets)
  }

  /** Conway's rule B3/S23: a live cell survives on 2 or 3 neighbours, a dead cell is born on exactly 3. */
  predicate Rule(alive: bool, count: int) {
    if alive then count == 2 || count == 3 else count == 3
  }

  /**
   B3/S23 read by neighbour count: three neighbours give a live cell, two
   keep the cell as it was, and any other count leaves it dead.
   */
  lemma RuleIsB3S23(alive: bool, count: int)
    ensures Rule(alive, count) <==> count == 3 || (alive && count == 2)
    ensures count == 3 ==> Rule(alive, count)
    ensures count == 2 ==> (Rule(alive, count) <==> alive)
    ensures count != 2 && count != 3 ==> !Rule(alive, count)
  {
  }

  /** The state of cell `(i, j)` in the next generation, from the old board only. */
  predicate NextCell(b: Board, i: int, j: int)
    requires WellFormed(b) && 0 <= i < b.size && 0 <= j < b.size
  {
    Rule(b.cells[i][j], NeighborCount(b, i, j))
  }

  /** The next generation: every cell follows the rule on the counts of the old board. */
  function Step(b: Board): (r: Board)
    requires WellFormed(b)
    ensures WellFormed(r) && r.size == b.size
  {
    Board(b.size, seq(b.size, i requires 0 <= i < b.size =>
      seq(b.size, j requires 0 <= j < b.size => NextCell(b, i, j))))
  }

  /** The number of non-centre offsets the nested `dx`/`dy` loops have visited before `(dx, dy)`. */
  function Visited(dx: int, dy: int): int {
    3 * (dx + 1) + (dy + 1) - (if dx > 0 || (dx == 0 && dy > 0) then 1 else 0)
  }

  /** Extending the offsets by one adds one exactly when that neighbour is alive. */
  lemma CountOverPrefix(b: Board, x: int, y: int, offs: seq<Offset>, k: int)
    requires WellFormed(b) && 0 <= x < b.size && 0 <= y < b.size
    requires 0 <= k < |offs|
    ensures CountOver(b, x, y, offs[..k + 1])
         == CountOver(b, x, y, offs[..k]) + (if NeighborAlive(b, x, y, offs[k]) then 1 else 0)
  {
    assert offs[..k + 1][..k] == offs[..k];
  }

  /** The loops reach each non-centre offset at the position it has in `Offsets`. */
  lemma VisitedIndexesOffsets(dx: int, dy: int)
    requires -1 <= dx <= 1 && -1 <= dy <= 1 && !(dx == 0 && dy == 0)
    ensures 0 <= Visited(dx, dy) < |Offsets| && Offsets[Visited(dx, dy)] == (dx, dy)
  {
  }

  /** Visiting the non-centre offset `(dx, dy)` with the source's wrapped indices extends the count by that neighbour. */
  lemma VisitNeighbor(b: Board, x: int, y: int, dx: int, dy: int)
    requires WellFormed(b) && 0 <= x < b.size && 0 <= y < b.size
    requires -1 <= dx <= 1 && -1 <= dy <= 1 && !(dx == 0 && dy == 0)
    ensures 0 <= WrapIndex(x, dx, b.size) < b.size && 0 <= WrapIndex(y, dy, b.size) < b.size
    ensures 0 <= Visited(dx, dy) < |Offsets|
    ensures Visited(dx, dy + 1) <= |Offsets|
    ensures CountOver(b, x, y, Offsets[..Visited(dx, dy + 1)]) == CountOver(b, x, y, Offsets[..Visited(dx, dy)])
      + (if b.cells[WrapIndex(x, dx, b.size)][WrapIndex(y, dy, b.size)] then 1 else 0)
  {
    assert Visited(dx, dy + 1) == Visited(dx, dy) + 1;
    WrapIndexIsWrap(x, dx, b.size);
    WrapIndexIsWrap(y, dy, b.size);
    VisitedIndexesOffsets(dx, dy);
    CountOverPrefix(b, x, y, Offsets, Visited(dx, dy));
  }

  /** `countNeighbors`: two nested loops over `dx` and `dy`, skipping the centre. */
  method CountNeighbors(b: Board, x: int, y: int) returns (count: int)
    requires WellFormed(b) && 0 <= x < b.size && 0 <= y < b.size
    ensures 0 <= count <= 8
    ensures count == NeighborCount(b, x, y)
  {
    count := 0;
    ghost var seen := [];
    var dx := -1;
    while dx <= 1
      invariant -1 <= dx <= 2
      invariant seen == Offsets[..Visited(dx, -1)]
      invariant count == CountOver(b, x, y, seen)
    {
      var dy := -1;
      while dy <= 1
        invariant -1 <= dy <= 2
        invariant seen == Offsets[..Visited(dx, dy)]
        invariant count == CountOver(b, x, y, seen)
      {
        if !(dx == 0 && dy == 0) {
          VisitNeighbor(b, x, y, dx, dy);
          var i := WrapIndex(x, dx, b.size);
          var j := WrapIndex(y, dy, b.size);
          seen := Offsets[..Visited(dx, dy + 1)];
          if b.cells[i][j] {
            count := count + 1;
          }
        }
        dy := dy + 1;
      }
      assert Visited(dx, 2) == Visited(dx + 1, -1);
      dx := dx + 1;
    }
    assert seen == Offsets;
  }

  /** `updateBoard`: fills a fresh grid row by row from the counts of the unchanged receiver. */
  method UpdateBoard(b: Board) returns (r: Board)
    requires WellFormed(b)
    ensures WellFormed(r) && r.size == b.size
    ensures forall i, j :: 0 <= i < b.size && 0 <= j < b.size ==>
      r.cells[i][j] == Rule(b.cells[i][j], NeighborCount(b, i, j))
    ensures r == Step(b)
  {
    var grid: seq<seq<bool>> := [];
    var i := 0;
    while i < b.size
      invariant 0 <= i <= b.size
      invariant |grid| == i
      invariant forall i' :: 0 <= i' < i ==> |grid[i']| == b.size
      invariant forall i', j' :: 0 <= i' < i && 0 <= j' < b.size ==> grid[i'][j'] == NextCell(b, i', j')
    {
      var row: seq<bool> := [];
      var j := 0;
      while j < b.size
        invariant 0 <= j <= b.size
        invariant |row| == j
        invariant forall j' :: 0 <= j' < j ==> row[j'] == NextCell(b, i, j')
      {
        var count := CountNeighbors(b, i, j);
        var cell;
        if b.cells[i][j] {
          cell := count == 2 || count == 3;
        } else {
          cell := count == 3;
        }
        row := row + [cell];
        j := j + 1;
      }
      grid := grid + [row];
      i := i + 1;
    }
    r := Board(b.size, grid);
    forall i' | 0 <= i' < b.size
      ensures r.cells[i'] == Step(b).cells[i']
    {
    }
  }

  /** The top-left `n` by `n` block of `a` and of `o` hold the same cells. */
  predicate AgreeOn(a: Board, o: Board, n: int)
    requires WellFormed(a) && WellFormed(o) && n <= a.size && n <= o.size
  {
    forall i, j :: 0 <= i < n && 0 <= j < n ==> a.cells[i][j] == o.cells[i][j]
  }

  /**
   `equals` as written: a row-major scan over the receiver's coordinates
   only. A column past the end of `o`'s row reads as `undefined`, which
   differs from every boolean, so the scan returns false there; the size
   of `o` is never compared.
   */
  method Equals(a: Board, o: Board) returns (same: bool)
    requires WellFormed(a) && WellFormed(o)
    ensures same <==> a.size <= o.size && AgreeOn(a, o, a.size)
  {
    var i := 0;
    while i < a.size
      invariant 0 <= i <= a.size
      invariant i >= 1 ==> a.size <= o.size
      invariant forall i', j' :: 0 <= i' < i && 0 <= j' < a.size ==> a.cells[i'][j'] == o.cells[i'][j']
    {
      var j := 0;
      while j < a.size
        invariant 0 <= j <= a.size
        invariant j <= o.size
        invariant forall j' :: 0 <= j' < j ==> a.cells[i][j'] == o.cells[i][j']
      {
        if j >= |o.cells[i]| || a.cells[i][j] != o.cells[i][j] {
          return false;
        }
        j := j + 1;
      }
      i := i + 1;
    }
    return true;
  }
}
