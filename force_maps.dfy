/**
 * Constraint maps: fixed parameter values keyed by their index into the concatenated
 * parameter vector, and their split into the point-mutation part and the IGC part.
 */
module ForceMaps {
  import opened Wrappers

  /** Fixed parameter values, by index into the parameter vector. */
  type ForceMap = map<int, real>

  /** The constraints on point-mutation parameters: the keys below `numPm`. */
  function PmPart(force: ForceMap, numPm: int): ForceMap
  {
    map k | k in force && k < numPm :: force[k]
  }

  /** The constraints on IGC parameters, re-indexed from the start of the IGC slice. */
  function IgcPart(force: ForceMap, numPm: int): ForceMap
  {
    var keys := set j | j in force && j >= numPm :: j - numPm;
    map k | k in keys :: force[k + numPm]
  }

  /** An empty constraint map stands for no constraints at all. */
  function NoneIfEmpty(m: ForceMap): Option<ForceMap>
  {
    if m.Keys == {} then None else Some(m)
  }

  lemma InPmPart(force: ForceMap, numPm: int, k: int)
    ensures k in PmPart(force, numPm) <==> k in force && k < numPm
    ensures k in PmPart(force, numPm) ==> PmPart(force, numPm)[k] == force[k]
  {
  }

  /** Key `k` of the IGC part is key `j` = k + numPm of the constraint map. */
  lemma InIgcPart(force: ForceMap, numPm: int, k: int, j: int)
    requires j == k + numPm
    ensures k in IgcPart(force, numPm) <==> j in force && k >= 0
    ensures k in IgcPart(force, numPm) ==> IgcPart(force, numPm)[k] == force[j]
  {
    var keys := set j | j in force && j >= numPm :: j - numPm;
    if k in keys {
      var j' :| j' in force && j' >= numPm && k == j' - numPm;
      assert j' == j;
    }
    if j in force && k >= 0 {
      assert j >= numPm && j - numPm == k;
      assert j - numPm in keys;
    }
  }

  /** Recording one more constraint adds it to the point-mutation part exactly when
      its index is below `numPm`. */
  lemma PmPartInsert(m: ForceMap, numPm: int, key: int, v: real)
    ensures PmPart(m[key := v], numPm) == if key < numPm then PmPart(m, numPm)[key := v] else PmPart(m, numPm)
  {
    var l := PmPart(m[key := v], numPm);
    var r := if key < numPm then PmPart(m, numPm)[key := v] else PmPart(m, numPm);
    forall k ensures (k in l <==> k in r) && (k in l ==> l[k] == r[k]) {
      InPmPart(m[key := v], numPm, k);
      InPmPart(m, numPm, k);
    }
    assert l.Keys == r.Keys;
  }

  /** Recording one more constraint adds it, shifted down, to the IGC part exactly
      when its index is at least `numPm`. */
  lemma IgcPartInsert(m: ForceMap, numPm: int, key: int, v: real)
    ensures IgcPart(m[key := v], numPm) == if key >= numPm then IgcPart(m, numPm)[key - numPm := v] else IgcPart(m, numPm)
  {
    var l := IgcPart(m[key := v], numPm);
    var r := if key >= numPm then IgcPart(m, numPm)[key - numPm := v] else IgcPart(m, numPm);
    forall k ensures (k in l <==> k in r) && (k in l ==> l[k] == r[k]) {
      var j := k + numPm;
      InIgcPart(m[key := v], numPm, k, j);
      InIgcPart(m, numPm, k, j);
      assert j == key <==> k == key - numPm;
    }
    assert l.Keys == r.Keys;
  }

  lemma NonEmptyHasKey(s: set<int>)
    requires s != {}
    ensures exists k :: k in s
  {
    if forall k :: k !in s {
      assert false;
    }
  }

  lemma InShiftedIgcPart(force: ForceMap, numPm: int, j: int)
    requires numPm >= 0
    ensures j in IgcPart(IgcPart(force, numPm), -numPm) <==> j in force && j >= numPm
    ensures j in IgcPart(IgcPart(force, numPm), -numPm) ==> IgcPart(IgcPart(force, numPm), -numPm)[j] == force[j]
  {
    var i := j - numPm;
    InIgcPart(IgcPart(force, numPm), -numPm, j, i);
    InIgcPart(force, numPm, i, j);
  }

  lemma PmPartPointwise(force: ForceMap, numPm: int)
    ensures forall j :: ((j in PmPart(force, numPm) <==> j in force && j < numPm)
      && (j in PmPart(force, numPm) ==> PmPart(force, numPm)[j] == force[j]))
  {
    forall j ensures (j in PmPart(force, numPm) <==> j in force && j < numPm)
      && (j in PmPart(force, numPm) ==> PmPart(force, numPm)[j] == force[j]) {
      InPmPart(force, numPm, j);
    }
  }

  lemma ShiftedIgcPartPointwise(force: ForceMap, numPm: int)
    requires numPm >= 0
    ensures forall j :: ((j in IgcPart(IgcPart(force, numPm), -numPm) <==> j in force && j >= numPm)
      && (j in IgcPart(IgcPart(force, numPm), -numPm) ==> IgcPart(IgcPart(force, numPm), -numPm)[j] == force[j]))
  {
    forall j ensures (j in IgcPart(IgcPart(force, numPm), -numPm) <==> j in force && j >= numPm)
      && (j in IgcPart(IgcPart(force, numPm), -numPm) ==> IgcPart(IgcPart(force, numPm), -numPm)[j] == force[j]) {
      InShiftedIgcPart(force, numPm, j);
    }
  }

  /** Putting the two parts back together, the IGC part re-indexed by -numPm, gives
      the original constraint map: the split loses and invents nothing. */
  lemma ForceSplitRoundTrip(force: ForceMap, numPm: int)
    requires numPm >= 0
    ensures PmPart(force, numPm).Keys !! IgcPart(IgcPart(force, numPm), -numPm).Keys
    ensures PmPart(force, numPm) + IgcPart(IgcPart(force, numPm), -numPm) == force
  {
    PmPartPointwise(force, numPm);
    ShiftedIgcPartPointwise(force, numPm);
    MergeByKeys(PmPart(force, numPm), IgcPart(IgcPart(force, numPm), -numPm), force, numPm);
  }

  lemma MergeByKeys(pm: ForceMap, back: ForceMap, force: ForceMap, numPm: int)
    requires forall j :: (j in pm <==> j in force && j < numPm) && (j in back <==> j in force && j >= numPm)
    requires forall j :: (j in pm ==> pm[j] == force[j]) && (j in back ==> back[j] == force[j])
    ensures pm.Keys !! back.Keys && pm + back == force
  {
    var whole := pm + back;
    forall j ensures j in whole <==> j in force {
    }
    assert whole.Keys == force.Keys;
    forall j | j in force ensures whole[j] == force[j] {
    }
    forall j | j in pm.Keys ensures j !in back.Keys {
    }
  }

  /** The loop of divide_force: each constrained index goes to the point-mutation
      part when it is below `numPm`, and otherwise to the IGC part shifted down by
      `numPm`. */
  method SplitForce(f: ForceMap, numPm: int) returns (pm: ForceMap, igc: ForceMap)
    ensures pm == PmPart(f, numPm) && igc == IgcPart(f, numPm)
  {
    pm := map[];
    igc := map[];
    var keys := f.Keys;
    ghost var seen: ForceMap := map[];
    while keys != {}
      invariant keys <= f.Keys
      invariant forall k :: k in seen <==> k in f && k !in keys
      invariant forall k :: k in seen ==> seen[k] == f[k]
      invariant pm == PmPart(seen, numPm) && igc == IgcPart(seen, numPm)
      decreases keys
    {
      NonEmptyHasKey(keys);
      var key :| key in keys;
      PmPartInsert(seen, numPm, key, f[key]);
      IgcPartInsert(seen, numPm, key, f[key]);
      if key < numPm {
        pm := pm[key := f[key]];
      } else {
        igc := igc[key - numPm := f[key]];
      }
      seen := seen[key := f[key]];
      keys := keys - {key};
    }
    forall k ensures k in seen.Keys <==> k in f.Keys {
      assert k !in keys;
    }
    assert seen.Keys == f.Keys;
    assert seen == f;
  }
}
