/**
 * Which joint-state transitions are a single event of the process: a point
 * mutation or an IGC copy changes one coordinate, and an IGC tract that covers
 * both sites copies the two coordinates of one paralog from the other.
 */
module Compatibility {
  import opened JointStates

  /** The two-coordinate patterns the model admits: positions [0, 1] copied from
      paralog j's sites, or positions [2, 3] copied from paralog i's sites. */
  predicate IsTractPattern(a: JointState, b: JointState, ps: seq<nat>)
  {
    (ps == [0, 1] && b[0] == a[2] && b[1] == a[3])
    || (ps == [2, 3] && b[2] == a[0] && b[3] == a[1])
  }

  /** Whether the transition a -> b carries a rate. */
  predicate IsTransitionCompatible(a: JointState, b: JointState)
    ensures IsTransitionCompatible(a, b) ==> a != b
    ensures IsTransitionCompatible(a, b) ==> 1 <= |DifferingPositions(a, b)| <= 2
  {
    if a == b then false
    else
      var ps := DifferingPositions(a, b);
      if |ps| > 2 then false
      else if |ps| == 2 then IsTractPattern(a, b, ps)
      else if |ps| == 1 then true
      else
        assert false;
        false
  }

  /** Paralog i takes over both sites of paralog j, or paralog j those of paralog i,
      where both sites differed before. */
  predicate IsTractCopy(a: JointState, b: JointState)
  {
    (b == [a[2], a[3], a[2], a[3]] && a[0] != a[2] && a[1] != a[3])
    || (b == [a[0], a[1], a[0], a[1]] && a[2] != a[0] && a[3] != a[1])
  }

  /** A self-transition is never compatible. */
  lemma SelfTransitionIncompatible(a: JointState)
    ensures !IsTransitionCompatible(a, a)
  {
  }

  /** A change of more than two coordinates is never compatible. */
  lemma ManyChangesIncompatible(a: JointState, b: JointState)
    requires |DifferingPositions(a, b)| > 2
    ensures !IsTransitionCompatible(a, b)
  {
  }

  /** Every change of exactly one coordinate is compatible. */
  lemma SingleChangeCompatible(a: JointState, b: JointState, pos: nat)
    requires OneCoordinateChange(a, b, pos)
    ensures IsTransitionCompatible(a, b)
  {
    DifferingPositionsSingle(a, b, pos);
  }

  /** A two-coordinate change is compatible exactly when it is a whole-tract copy. */
  lemma TwoChangesCompatibleIff(a: JointState, b: JointState)
    requires |DifferingPositions(a, b)| == 2
    ensures IsTransitionCompatible(a, b) <==> IsTractCopy(a, b)
  {
  }

  /** The compatible transitions are exactly the one-coordinate changes and the
      whole-tract copies. */
  lemma CompatibleCharacterization(a: JointState, b: JointState)
    ensures IsTransitionCompatible(a, b) <==>
      (exists pos: nat :: OneCoordinateChange(a, b, pos)) || IsTractCopy(a, b)
  {
    var ps := DifferingPositions(a, b);
    if |ps| == 1 {
      assert OneCoordinateChange(a, b, ps[0]);
    } else {
      forall pos: nat | OneCoordinateChange(a, b, pos) ensures false {
        DifferingPositionsSingle(a, b, pos);
      }
    }
  }
}
