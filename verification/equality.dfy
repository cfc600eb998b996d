/**
 What board comparison promises. The comparison as written scans only the
 receiver's coordinates and never compares sizes, so a board compares equal
 to any larger board whose top-left block it matches; the checked comparison
 adds the size test and is exactly structural equality.
 */
module BoardEquality {
  import opened ConwayBoard

  /** On boards of one size, agreeing cell by cell is being the same board. */
  lemma AgreementIsEquality(a: Board, o: Board)
    requires WellFormed(a) && WellFormed(o) && a.size == o.size
    ensures AgreeOn(a, o, a.size) <==> a == o
  {
    if AgreeOn(a, o, a.size) {
      forall i | 0 <= i < a.size
        ensures a.cells[i] == o.cells[i]
      {
        assert forall j :: 0 <= j < a.size ==> a.cells[i][j] == o.cells[i][j];
      }
    }
  }

  /** The comparison as written accepts a 1 by 1 dead board against a different, 2 by 2, dead board. */
  lemma EqualsAcceptsLargerBoard()
    ensures var a, o := Uniform(1, false), Uniform(2, false);
      a.size <= o.size && AgreeOn(a, o, a.size) && a != o
  {
  }

  /** The comparison with the size test it is meant to have: true exactly for the same board. */
  method EqualsChecked(a: Board, o: Board) returns (same: bool)
    requires WellFormed(a) && WellFormed(o)
    ensures same <==> a == o
  {
    if a.size != o.size {
      return false;
    }
    same := Equals(a, o);
    AgreementIsEquality(a, o);
  }

  /** With the size test, comparison is reflexive and symmetric. */
  lemma EqualityIsReflexiveAndSymmetric(a: Board, o: Board)
    requires WellFormed(a) && WellFormed(o)
    ensures AgreeOn(a, a, a.size)
    ensures (a.size == o.size && AgreeOn(a, o, a.size)) <==> (o.size == a.size && AgreeOn(o, a, o.size))
  {
  }
}
