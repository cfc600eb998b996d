/**
 The tower: the bounded history of generations, newest first. Each step
 drops the oldest board when the tower is long, then puts the next
 generation of the newest board in front.
 */
module Tower {
  import opened ConwayBoard

  /** The oldest board is dropped when the tower is longer than this, before the new one is added. */
  const PopAbove: int := 35

  /** The length the tower grows to and then keeps. */
  const Capacity: int := PopAbove + 1

  function Min(a: int, b: int): int {
    if a < b then a else b
  }

  /**
   A well-formed history of boards of one size: never empty, never longer
   than `Capacity`, and ordered newest first, each board being the next
   generation of the one after it.
   */
  ghost predicate IsHistory(t: seq<Board>, size: int) {
    && 1 <= |t| <= Capacity
    && (forall k :: 0 <= k < |t| ==> WellFormed(t[k]) && t[k].size == size)
    && (forall k :: 0 <= k < |t| - 1 ==> t[k] == Step(t[k + 1]))
  }

  /** The tower at start-up holds just the seed board. */
  function Init(seed: Board): (t: seq<Board>)
    requires WellFormed(seed)
    ensures |t| == 1 && t[0] == seed
    ensures IsHistory(t, seed.size)
  {
    [seed]
  }

  /**
   One tower step. The new front is the next generation of the old front;
   every board that is kept moves one place older; at most the last board
   is dropped, and only once the tower is longer than `PopAbove`.
   */
  function TowerStep(t: seq<Board>): (r: seq<Board>)
    requires |t| >= 1 && WellFormed(t[0])
    ensures |r| == if |t| > PopAbove then |t| else |t| + 1
    ensures |t| <= Capacity ==> |r| == Min(|t| + 1, Capacity)
    ensures r[0] == Step(t[0])
    ensures forall k :: 0 <= k < |r| - 1 ==> r[k + 1] == t[k]
  {
    var kept := if |t| > PopAbove then t[..|t| - 1] else t;
    [Step(t[0])] + kept
  }

  /** A tower step keeps the history well-formed, of the same board size and ordered newest first. */
  lemma TowerStepKeepsHistory(t: seq<Board>, size: int)
    requires IsHistory(t, size)
    ensures IsHistory(TowerStep(t), size)
  {
  }

  /** The board `m` generations after `b`. */
  function Iterate(b: Board, m: nat): (r: Board)
    requires WellFormed(b)
    ensures WellFormed(r) && r.size == b.size
  {
    if m == 0 then b else Step(Iterate(b, m - 1))
  }

  /** The tower after `n` steps from the seed. */
  function Run(seed: Board, n: nat): (t: seq<Board>)
    requires WellFormed(seed)
    ensures IsHistory(t, seed.size)
  {
    if n == 0 then Init(seed)
    else
      var prev := Run(seed, n - 1);
      TowerStepKeepsHistory(prev, seed.size);
      TowerStep(prev)
  }

  /** After `n` steps the tower holds `min(n + 1, Capacity)` boards: it never exceeds `Capacity`. */
  lemma {:induction false} RunLength(seed: Board, n: nat)
    requires WellFormed(seed)
    ensures |Run(seed, n)| == Min(n + 1, Capacity)
    ensures |Run(seed, n)| <= Capacity
  {
    if n > 0 {
      RunLength(seed, n - 1);
    }
  }

  /** Every entry of `t` is the seed advanced by `n` minus its position: the front is generation `n`, the next one `n - 1`, and so on. */
  ghost predicate GenerationsOf(t: seq<Board>, seed: Board, n: nat)
    requires WellFormed(seed)
  {
    forall k :: 0 <= k < |t| ==> EntryIs(t, seed, n, k)
  }

  /** Entry `k` of `t` is the board `n - k` generations after the seed. */
  ghost predicate EntryIs(t: seq<Board>, seed: Board, n: nat, k: int)
    requires WellFormed(seed) && 0 <= k < |t|
  {
    k <= n && t[k] == Iterate(seed, n - k)
  }

  /** After a tower step, entry `k` is one generation further on than entry `k - 1` was, and the front one further than the old front. */
  lemma TowerStepEntry(t: seq<Board>, seed: Board, n: nat, k: int)
    requires WellFormed(seed) && |t| >= 1 && WellFormed(t[0])
    requires GenerationsOf(t, seed, n)
    requires 0 <= k < |TowerStep(t)|
    ensures EntryIs(TowerStep(t), seed, n + 1, k)
  {
    var r := TowerStep(t);
    if k > 0 {
      assert r[k] == t[k - 1];
      assert EntryIs(t, seed, n, k - 1);
    } else {
      assert EntryIs(t, seed, n, 0);
      assert Iterate(seed, n + 1) == Step(Iterate(seed, n));
    }
  }

  /** A tower step carries the generations before `n` over to the generations before `n + 1`. */
  lemma TowerStepAdvancesGenerations(t: seq<Board>, seed: Board, n: nat)
    requires WellFormed(seed) && |t| >= 1 && WellFormed(t[0])
    requires GenerationsOf(t, seed, n)
    ensures GenerationsOf(TowerStep(t), seed, n + 1)
  {
    var r, m := TowerStep(t), n + 1;
    forall k | 0 <= k < |r|
      ensures EntryIs(r, seed, m, k)
    {
      TowerStepEntry(t, seed, n, k);
    }
  }

  /** After `n` steps, entry `k` of the tower is the board `n - k` generations after the seed. */
  lemma {:induction false} RunGenerations(seed: Board, n: nat)
    requires WellFormed(seed)
    ensures GenerationsOf(Run(seed, n), seed, n)
  {
    if n > 0 {
      RunGenerations(seed, n - 1);
      TowerStepAdvancesGenerations(Run(seed, n - 1), seed, n - 1);
    } else {
      assert Run(seed, 0) == [seed];
    }
  }
}
