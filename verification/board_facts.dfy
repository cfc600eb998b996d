/**
 Properties of one generation step: what the neighbour count counts, how the
 rule acts on uniform and tiny boards, that a cell's next state depends only
 on its own neighbourhood, that the step commutes with rotating the torus,
 and two small worked patterns.
 */
module ConwayFacts {
  import opened ConwayBoard

  /** The positions in `offs` whose wrapped neighbour of `(x, y)` is alive. */
  ghost function AliveAt(b: Board, x: int, y: int, offs: seq<Offset>): set<int>
    requires WellFormed(b) && 0 <= x < b.size && 0 <= y < b.size
  {
    set k | 0 <= k < |offs| && NeighborAlive(b, x, y, offs[k])
  }

  /** Extending the offsets adds the new position exactly when its neighbour is alive. */
  lemma AliveAtSnoc(b: Board, x: int, y: int, offs: seq<Offset>)
    requires WellFormed(b) && 0 <= x < b.size && 0 <= y < b.size && offs != []
    ensures var n := |offs| - 1;
      AliveAt(b, x, y, offs) == AliveAt(b, x, y, offs[..n]) + (if NeighborAlive(b, x, y, offs[n]) then {n} else {})
  {
  }

  /** Counting over a list of offsets is the number of its positions that see a live cell. */
  lemma {:induction false} CountOverIsCardinality(b: Board, x: int, y: int, offs: seq<Offset>)
    requires WellFormed(b) && 0 <= x < b.size && 0 <= y < b.size
    ensures CountOver(b, x, y, offs) == |AliveAt(b, x, y, offs)|
    decreases |offs|
  {
    if offs != [] {
      var n := |offs| - 1;
      CountOverIsCardinality(b, x, y, offs[..n]);
      AliveAtSnoc(b, x, y, offs);
      assert n !in AliveAt(b, x, y, offs[..n]);
    }
  }

  /** `Offsets` is exactly the Moore neighbourhood: the eight distinct non-centre unit offsets. */
  lemma OffsetsAreMooreNeighbourhood()
    ensures |Offsets| == 8
    ensures forall k :: 0 <= k < |Offsets| ==> Offsets[k] != (0, 0)
    ensures forall k, l :: 0 <= k < l < |Offsets| ==> Offsets[k] != Offsets[l]
    ensures forall dx, dy :: -1 <= dx <= 1 && -1 <= dy <= 1 && (dx, dy) != (0, 0) ==> (dx, dy) in Offsets
  {
  }

  /** The neighbour count is the number of the eight Moore offsets whose wrapped cell is alive. */
  lemma NeighborCountIsAliveOffsets(b: Board, x: int, y: int)
    requires WellFormed(b) && 0 <= x < b.size && 0 <= y < b.size
    ensures NeighborCount(b, x, y) == |set k | 0 <= k < 8 && NeighborAlive(b, x, y, Offsets[k])|
  {
    CountOverIsCardinality(b, x, y, Offsets);
  }

  /** One for a live neighbour at offset `o`, zero otherwise. */
  function Seen(b: Board, x: int, y: int, o: Offset): nat
    requires WellFormed(b) && 0 <= x < b.size && 0 <= y < b.size
  {
    if NeighborAlive(b, x, y, o) then 1 else 0
  }

  /** Extending the offsets by two adds what those two neighbours contribute. */
  lemma CountOverTwoMore(b: Board, x: int, y: int, offs: seq<Offset>, k: int)
    requires WellFormed(b) && 0 <= x < b.size && 0 <= y < b.size
    requires 0 <= k && k + 2 <= |offs|
    ensures CountOver(b, x, y, offs[..k + 2])
         == CountOver(b, x, y, offs[..k]) + Seen(b, x, y, offs[k]) + Seen(b, x, y, offs[k + 1])
  {
    CountOverPrefix(b, x, y, offs, k);
    CountOverPrefix(b, x, y, offs, k + 1);
  }

  /** The neighbour count written out as the sum of its eight terms. */
  lemma NeighborCountUnrolled(b: Board, x: int, y: int)
    requires WellFormed(b) && 0 <= x < b.size && 0 <= y < b.size
    ensures NeighborCount(b, x, y) ==
      Seen(b, x, y, (-1, -1)) + Seen(b, x, y, (-1, 0)) + Seen(b, x, y, (-1, 1)) + Seen(b, x, y, (0, -1)) +
      Seen(b, x, y, (0, 1)) + Seen(b, x, y, (1, -1)) + Seen(b, x, y, (1, 0)) + Seen(b, x, y, (1, 1))
  {
    var offs := Offsets;
    assert offs[..0] == [];
    CountOverTwoMore(b, x, y, offs, 0);
    CountOverTwoMore(b, x, y, offs, 2);
    CountOverTwoMore(b, x, y, offs, 4);
    CountOverTwoMore(b, x, y, offs, 6);
    assert offs[..8] == offs;
  }

  /** On a board whose cells are all `alive`, every offset sees `alive`. */
  lemma {:induction false} CountOverUniform(size: int, alive: bool, x: int, y: int, offs: seq<Offset>)
    requires size >= 1 && 0 <= x < size && 0 <= y < size
    ensures CountOver(Uniform(size, alive), x, y, offs) == if alive then |offs| else 0
    decreases |offs|
  {
    if offs != [] {
      CountOverUniform(size, alive, x, y, offs[..|offs| - 1]);
    }
  }

  /** An all-dead board steps to an all-dead board: no cell has the three neighbours a birth needs. */
  lemma DeadBoardStaysDead(size: int)
    requires size >= 1
    ensures Step(Uniform(size, false)) == Uniform(size, false)
  {
    var b := Uniform(size, false);
    forall i | 0 <= i < size
      ensures Step(b).cells[i] == b.cells[i]
    {
      forall j | 0 <= j < size
        ensures Step(b).cells[i][j] == b.cells[i][j]
      {
        CountOverUniform(size, false, i, j, Offsets);
      }
    }
  }

  /** An all-alive board steps to an all-dead board: every cell has 8 live neighbours, too many to survive. */
  lemma FullBoardDies(size: int)
    requires size >= 1
    ensures Step(Uniform(size, true)) == Uniform(size, false)
  {
    var b := Uniform(size, true);
    forall i | 0 <= i < size
      ensures Step(b).cells[i] == Uniform(size, false).cells[i]
    {
      forall j | 0 <= j < size
        ensures !Step(b).cells[i][j]
      {
        CountOverUniform(size, true, i, j, Offsets);
      }
    }
  }

  /**
   On a 1 by 1 board all eight offsets wrap back to the only cell: it counts
   itself eight times, so it always dies and is never born.
   */
  lemma SizeOneBoard(b: Board)
    requires WellFormed(b) && b.size == 1
    ensures NeighborCount(b, 0, 0) == if b.cells[0][0] then 8 else 0
    ensures Step(b) == Uniform(1, false)
  {
    var alive := b.cells[0][0];
    assert b.cells[0] == [alive] == Uniform(1, alive).cells[0];
    assert b.cells == Uniform(1, alive).cells;
    if alive {
      FullBoardDies(1);
    } else {
      DeadBoardStaysDead(1);
    }
    CountOverUniform(1, alive, 0, 0, Offsets);
  }

  /** Two boards of one size agree on the cell `(i, j)` and on its eight wrapped neighbours. */
  ghost predicate SameNeighbourhood(a: Board, c: Board, i: int, j: int)
    requires WellFormed(a) && WellFormed(c) && a.size == c.size
    requires 0 <= i < a.size && 0 <= j < a.size
  {
    forall dx, dy :: -1 <= dx <= 1 && -1 <= dy <= 1 ==>
      a.cells[Wrap(i, dx, a.size)][Wrap(j, dy, a.size)] == c.cells[Wrap(i, dx, a.size)][Wrap(j, dy, a.size)]
  }

  lemma {:induction false} CountOverLocal(a: Board, c: Board, i: int, j: int, offs: seq<Offset>)
    requires WellFormed(a) && WellFormed(c) && a.size == c.size
    requires 0 <= i < a.size && 0 <= j < a.size
    requires SameNeighbourhood(a, c, i, j)
    ensures CountOver(a, i, j, offs) == CountOver(c, i, j, offs)
    decreases |offs|
  {
    if offs != [] {
      CountOverLocal(a, c, i, j, offs[..|offs| - 1]);
      var o := offs[|offs| - 1];
      assert NeighborAlive(a, i, j, o) == NeighborAlive(c, i, j, o);
    }
  }

  /**
   The step is local and synchronous: the next state of `(i, j)` is decided
   by the old states of that cell and its eight neighbours, nothing else.
   */
  lemma StepIsLocal(a: Board, c: Board, i: int, j: int)
    requires WellFormed(a) && WellFormed(c) && a.size == c.size
    requires 0 <= i < a.size && 0 <= j < a.size
    requires SameNeighbourhood(a, c, i, j)
    ensures Step(a).cells[i][j] == Step(c).cells[i][j]
  {
    CountOverLocal(a, c, i, j, Offsets);
    assert a.cells[Wrap(i, 0, a.size)][Wrap(j, 0, a.size)] == c.cells[Wrap(i, 0, a.size)][Wrap(j, 0, a.size)];
  }

  /** The board rotated on the torus by `p` rows and `q` columns: cell `(i, j)` shows old cell `(i + p, j + q)`. */
  function Shift(b: Board, p: int, q: int): (r: Board)
    requires WellFormed(b)
    ensures WellFormed(r) && r.size == b.size
  {
    var n := b.size;
    Board(n, seq(n, i => seq(n, j => b.cells[(i + p) % n][(j + q) % n])))
  }

  /** Reducing modulo `n` before adding does not change the result modulo `n`. */
  lemma ModAddMod(a: int, d: int, n: int)
    requires n > 0
    ensures (a % n + d) % n == (a + d) % n
  {
    var q1, q2, r := a / n, (a % n + d) / n, (a % n + d) % n;
    assert a == q1 * n + a % n;
    assert a % n + d == q2 * n + r;
    assert q1 * n + q2 * n == (q1 + q2) * n;
    ModUnique(a + d, n, q1 + q2, r);
  }

  /** Rotating then stepping one coordinate agrees with stepping then rotating it. */
  lemma WrapShift(i: int, d: Unit, p: int, n: int)
    requires 0 <= i < n
    ensures (Wrap(i, d, n) + p) % n == Wrap((i + p) % n, d, n)
  {
    WrapIsTorusIndex(i, d, n);
    WrapIsTorusIndex((i + p) % n, d, n);
    ModAddMod(i + d, p, n);
    ModAddMod(i + p, d, n);
    assert i + d + p == i + p + d;
  }

  /** Each neighbour of a cell of the rotated board is the same neighbour of the rotated-from cell. */
  lemma ShiftedNeighbor(b: Board, p: int, q: int, i: int, j: int, o: Offset)
    requires WellFormed(b) && 0 <= i < b.size && 0 <= j < b.size
    ensures NeighborAlive(Shift(b, p, q), i, j, o) == NeighborAlive(b, (i + p) % b.size, (j + q) % b.size, o)
  {
    var n := b.size;
    WrapShift(i, o.0, p, n);
    WrapShift(j, o.1, q, n);
    var r, c := Wrap(i, o.0, n), Wrap(j, o.1, n);
    assert Shift(b, p, q).cells[r][c] == b.cells[(r + p) % n][(c + q) % n];
  }

  lemma {:induction false} CountOverShift(b: Board, p: int, q: int, i: int, j: int, offs: seq<Offset>)
    requires WellFormed(b) && 0 <= i < b.size && 0 <= j < b.size
    ensures CountOver(Shift(b, p, q), i, j, offs) == CountOver(b, (i + p) % b.size, (j + q) % b.size, offs)
    decreases |offs|
  {
    if offs != [] {
      CountOverShift(b, p, q, i, j, offs[..|offs| - 1]);
      ShiftedNeighbor(b, p, q, i, j, offs[|offs| - 1]);
    }
  }

  /** One cell of the rotated next generation: its count and old state are those of the rotated-from cell. */
  lemma StepShiftCell(b: Board, p: int, q: int, i: int, j: int)
    requires WellFormed(b) && 0 <= i < b.size && 0 <= j < b.size
    ensures Step(Shift(b, p, q)).cells[i][j] == Shift(Step(b), p, q).cells[i][j]
  {
    var n := b.size;
    var i', j' := (i + p) % n, (j + q) % n;
    CountOverShift(b, p, q, i, j, Offsets);
    assert Shift(b, p, q).cells[i][j] == b.cells[i'][j'];
    assert Shift(Step(b), p, q).cells[i][j] == Step(b).cells[i'][j'] == NextCell(b, i', j');
  }

  /**
   The torus has no distinguished edge or origin: rotating the board and
   then stepping gives the same board as stepping and then rotating.
   */
  lemma StepCommutesWithShift(b: Board, p: int, q: int)
    requires WellFormed(b)
    ensures Step(Shift(b, p, q)) == Shift(Step(b), p, q)
  {
    var n := b.size;
    var l, r := Step(Shift(b, p, q)), Shift(Step(b), p, q);
    forall i | 0 <= i < n
      ensures l.cells[i] == r.cells[i]
    {
      forall j | 0 <= j < n
        ensures l.cells[i][j] == r.cells[i][j]
      {
        StepShiftCell(b, p, q, i, j);
      }
    }
  }

  /** The board of size `n` whose only live cell is `(0, 0)`. */
  function Single(n: int): (b: Board)
    requires n >= 1
    ensures WellFormed(b) && b.size == n
  {
    Board(n, seq(n, i => seq(n, j => i == 0 && j == 0)))
  }

  /** The opposite corner sees the live corner through the wrap, and only it. */
  lemma CornerSeesAcrossWrap(n: int)
    requires n >= 3
    ensures NeighborCount(Single(n), n - 1, n - 1) == 1
  {
    NeighborCountUnrolled(Single(n), n - 1, n - 1);
  }

  /** A blinker lying along row 2 (`horizontal`) or standing in column 2, in columns/rows 1 to 3. */
  function Blinker(n: int, horizontal: bool): (b: Board)
    requires n >= 1
    ensures WellFormed(b) && b.size == n
  {
    Board(n, seq(n, i => seq(n, j => if horizontal then i == 2 && 1 <= j <= 3 else j == 2 && 1 <= i <= 3)))
  }

  /** One cell of a blinker's next generation is that cell of the blinker turned the other way. */
  lemma BlinkerCell(n: int, horizontal: bool, i: int, j: int)
    requires n >= 5 && 0 <= i < n && 0 <= j < n
    ensures Step(Blinker(n, horizontal)).cells[i][j] == Blinker(n, !horizontal).cells[i][j]
  {
    var b := Blinker(n, horizontal);
    NeighborCountUnrolled(b, i, j);
    assert Step(b).cells[i][j] == NextCell(b, i, j);
  }

  /** The horizontal blinker steps to the vertical one. */
  lemma BlinkerStands(n: int)
    requires n >= 5
    ensures Step(Blinker(n, true)) == Blinker(n, false)
  {
    var b, c := Blinker(n, true), Blinker(n, false);
    forall i | 0 <= i < n
      ensures Step(b).cells[i] == c.cells[i]
    {
      forall j | 0 <= j < n
        ensures Step(b).cells[i][j] == c.cells[i][j]
      {
        BlinkerCell(n, true, i, j);
      }
    }
  }

  /** The vertical blinker steps to the horizontal one. */
  lemma BlinkerLies(n: int)
    requires n >= 5
    ensures Step(Blinker(n, false)) == Blinker(n, true)
  {
    var b, c := Blinker(n, false), Blinker(n, true);
    forall i | 0 <= i < n
      ensures Step(b).cells[i] == c.cells[i]
    {
      forall j | 0 <= j < n
        ensures Step(b).cells[i][j] == c.cells[i][j]
      {
        BlinkerCell(n, false, i, j);
      }
    }
  }

  /** The blinker is an oscillator of period exactly two on every board of size at least 5. */
  lemma BlinkerHasPeriodTwo(n: int)
    requires n >= 5
    ensures Step(Blinker(n, true)) != Blinker(n, true)
    ensures Step(Step(Blinker(n, true))) == Blinker(n, true)
  {
    BlinkerStands(n);
    BlinkerLies(n);
    assert Blinker(n, true).cells[2][1] != Blinker(n, false).cells[2][1];
  }
}
