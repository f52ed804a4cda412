/**
 * The pair-site joint-state model object: it owns the concatenated parameter
 * vector, its point-mutation and IGC slices, the split constraint maps and the
 * point-mutation rate table, and assembles the process definition for a given
 * separation of the two sites.
 */
module PsjsModels {
  import opened Wrappers
  import opened JointStates
  import opened IgcRates
  import opened ProcessDefinitions
  import opened ForceMaps

  /** The point-mutation collaborator: the rate table it builds from its parameter
      slice and its constraint map. */
  type PointMutationModel = (seq<real>, Option<ForceMap>) -> RateTable

  /** The only supported point-mutation model and IGC parameterization. */
  const Hky := "HKY"
  const OneRate := "One rate"

  datatype ConfigError =
    | UnsupportedPointMutationModel
    | UnsupportedIgcParameterization
    | LengthMismatch
    | EmptyStateSpace

  datatype ParameterCounts = ParameterCounts(pm: nat, igc: nat)

  /** The slice sizes of the named submodels: 4 for HKY, 2 for "One rate". */
  function ParameterCountsOf(pmModel: string, igcPm: string): (r: Result<ParameterCounts, ConfigError>)
    ensures r.Success? <==> pmModel == Hky && igcPm == OneRate
    ensures r.Failure? ==> (r.error == UnsupportedPointMutationModel <==> pmModel != Hky)
    ensures r.Failure? ==> r.error in {UnsupportedPointMutationModel, UnsupportedIgcParameterization}
    ensures r.Success? ==> r.value.pm == 4 && r.value.igc == 2
  {
    if pmModel != Hky then Failure(UnsupportedPointMutationModel)
    else if igcPm != OneRate then Failure(UnsupportedIgcParameterization)
    else Success(ParameterCounts(4, 2))
  }

  /** The shape of 2 * nJs equal alphabets holds one alphabet size, or none if empty. */
  lemma ShapeAlphabets(shape: seq<nat>, nJs: nat)
    requires shape == seq(nJs * 2, _ => AlphabetSize)
    ensures |set x | x in shape| == if nJs == 0 then 0 else 1
  {
    if nJs == 0 {
      assert (set x | x in shape) == {};
    } else {
      assert shape[0] == AlphabetSize;
      assert (set x | x in shape) == {AlphabetSize};
    }
  }

  class PsjsModel {
    /** Number of paralogs per joint state (two); the state has 2 * nJs coordinates. */
    const nJs: nat
    const pmModel: string
    const igcPm: string
    /** Constraints on the concatenated parameter vector, if any. */
    const force: Option<ForceMap>
    const pointMutation: PointMutationModel

    /** The concatenated vector x_pm + x_IGC and its two slices. */
    var xJs: seq<real>
    var xPm: seq<real>
    var xIgc: seq<real>
    /** The constraint maps of the two submodels. */
    var pmForce: Option<ForceMap>
    var igcForce: Option<ForceMap>
    /** Q_mut of the point-mutation collaborator. */
    var qMut: RateTable
    /** The alphabet size of each coordinate of a joint state. */
    var stateSpaceShape: seq<nat>

    /** The state after a successful initialisation or update. */
    ghost predicate Valid()
      reads this
    {
      pmModel == Hky && igcPm == OneRate
      && |xJs| == 6 && xPm == xJs[..4] && xIgc == xJs[4..]
      && nJs >= 1 && stateSpaceShape == seq(2 * nJs, _ => AlphabetSize)
      && (force.None? ==> pmForce.None? && igcForce.None?)
      && (force.Some? ==> pmForce == NoneIfEmpty(PmPart(force.value, 4)) && igcForce == NoneIfEmpty(IgcPart(force.value, 4)))
      && qMut == pointMutation(xPm, pmForce)
    }

    /** IGC_init and IGC_p. */
    function IgcParams(): IgcParameters
      reads this
      requires Valid()
    {
      IgcParameters(xIgc[0], xIgc[1])
    }

    /** The fields as __init__ sets them before the submodels are initialised. */
    constructor Raw(xJs: seq<real>, pmModel: string, igcPm: string, force: Option<ForceMap>, nJs: nat, pointMutation: PointMutationModel)
      ensures this.xJs == xJs && this.pmModel == pmModel && this.igcPm == igcPm
      ensures this.force == force && this.nJs == nJs && this.pointMutation == pointMutation
      ensures xPm == [] && xIgc == [] && pmForce.None? && igcForce.None? && stateSpaceShape == []
    {
      this.nJs := nJs;
      this.xJs := xJs;
      this.pmModel := pmModel;
      this.igcPm := igcPm;
      this.force := force;
      this.pointMutation := pointMutation;
      xPm := [];
      xIgc := [];
      pmForce := None;
      igcForce := None;
      qMut := (i, j) => 0.0;
      stateSpaceShape := [];
    }

    /** Builds a model: the constructor followed by init_models. */
    static method Create(xJs: seq<real>, pmModel: string, igcPm: string, force: Option<ForceMap>, nJs: nat, pointMutation: PointMutationModel)
      returns (r: Result<PsjsModel, ConfigError>)
      ensures r.Success? <==> pmModel == Hky && igcPm == OneRate && |xJs| == 6 && nJs >= 1
      ensures r.Success? ==> fresh(r.value) && r.value.Valid() && r.value.xJs == xJs
      ensures r.Success? ==> r.value.pmModel == pmModel && r.value.igcPm == igcPm && r.value.nJs == nJs
      ensures r.Success? ==> r.value.force == force && r.value.pointMutation == pointMutation
      ensures r.Failure? ==> r.error == (if pmModel != Hky then UnsupportedPointMutationModel
                                         else if igcPm != OneRate then UnsupportedIgcParameterization
                                         else if |xJs| != 6 then LengthMismatch
                                         else EmptyStateSpace)
    {
      var m := new PsjsModel.Raw(xJs, pmModel, igcPm, force, nJs, pointMutation);
      var o := m.InitModels();
      if o.Fail? {
        return Failure(o.error);
      }
      return Success(m);
    }

    /** unpack_x_js: slices the vector into the two submodels' parameters. The slices
        are stored before the length is checked, so a vector of the wrong length is
        stored and reported. */
    method UnpackXJs(newXJs: seq<real>) returns (o: Outcome<ConfigError>)
      modifies this`xJs, this`xPm, this`xIgc
      ensures ParameterCountsOf(pmModel, igcPm).Failure? ==>
        o == Fail(ParameterCountsOf(pmModel, igcPm).error)
        && xJs == old(xJs) && xPm == old(xPm) && xIgc == old(xIgc)
      ensures ParameterCountsOf(pmModel, igcPm).Success? ==>
        xJs == newXJs && xPm + xIgc == newXJs
        && |xPm| == (if |newXJs| < 4 then |newXJs| else 4)
        && o == (if |newXJs| == 6 then Pass else Fail(LengthMismatch))
    {
      var counts := ParameterCountsOf(pmModel, igcPm);
      if counts.Failure? {
        return Fail(counts.error);
      }
      var numPm := counts.value.pm;
      var cut := if |newXJs| < numPm then |newXJs| else numPm;
      xPm := newXJs[..cut];
      xIgc := newXJs[cut..];
      xJs := newXJs;
      if numPm + counts.value.igc != |xJs| {
        return Fail(LengthMismatch);
      }
      return Pass;
    }

    /** update_by_x_js: stores a new parameter vector and rebuilds the point-mutation
        rate table from its slice. */
    method UpdateByXJs(newXJs: seq<real>) returns (o: Outcome<ConfigError>)
      requires Valid()
      modifies this`xJs, this`xPm, this`xIgc, this`qMut
      ensures o.Pass? <==> |newXJs| == 6
      ensures o.Pass? ==> Valid() && xJs == newXJs
      ensures o.Fail? ==>
        o.error == LengthMismatch && qMut == old(qMut) && xJs == newXJs && xPm + xIgc == newXJs
        && |xPm| == (if |newXJs| < 4 then |newXJs| else 4)
    {
      o := UnpackXJs(newXJs);
      if o.Fail? {
        return;
      }
      qMut := pointMutation(xPm, pmForce);
    }

    /** divide_force: splits the constraint map into the point-mutation part and
        the IGC part, re-indexed; an empty part becomes None. */
    method DivideForce() returns (r: Result<(Option<ForceMap>, Option<ForceMap>), ConfigError>)
      ensures force.None? ==> r == Success((None, None))
      ensures force.Some? && ParameterCountsOf(pmModel, igcPm).Failure? ==>
        r == Failure(ParameterCountsOf(pmModel, igcPm).error)
      ensures force.Some? && ParameterCountsOf(pmModel, igcPm).Success? ==>
        r == Success((NoneIfEmpty(PmPart(force.value, 4)), NoneIfEmpty(IgcPart(force.value, 4))))
    {
      if force.None? {
        return Success((None, None));
      }
      var counts := ParameterCountsOf(pmModel, igcPm);
      if counts.Failure? {
        return Failure(counts.error);
      }
      var numPm := counts.value.pm;
      var pm, igc := SplitForce(force.value, numPm);
      return Success((NoneIfEmpty(pm), NoneIfEmpty(igc)));
    }

    /** init_models: unpacks the vector, sets the state-space shape, splits the
        constraints, builds the point-mutation rate table and checks that every
        coordinate has the same alphabet. */
    method InitModels() returns (o: Outcome<ConfigError>)
      modifies this
      ensures o.Pass? <==> pmModel == Hky && igcPm == OneRate && |old(xJs)| == 6 && nJs >= 1
      ensures o.Pass? ==> Valid() && xJs == old(xJs)
      ensures o.Fail? ==> o.error == (if pmModel != Hky then UnsupportedPointMutationModel
                                      else if igcPm != OneRate then UnsupportedIgcParameterization
                                      else if |old(xJs)| != 6 then LengthMismatch
                                      else EmptyStateSpace)
    {
      o := UnpackXJs(xJs);
      if o.Fail? {
        return;
      }
      stateSpaceShape := seq(nJs * 2, _ => AlphabetSize);
      var split := DivideForce();
      var (pmF, igcF) := split.value;
      pmForce := pmF;
      qMut := pointMutation(xPm, pmForce);
      igcForce := igcF;
      var alphabets := set x | x in stateSpaceShape;
      ShapeAlphabets(stateSpaceShape, nJs);
      if |alphabets| != 1 {
        return Fail(EmptyStateSpace);
      }
      o := UpdateByXJs(xJs);
    }

    /** get_IGC_transition_rates_BF: every compatible transition over the state space,
        row state slower than column state, with its rate or IGC share. */
    method GetIgcTransitionRatesBF(n: nat, proportion: bool) returns (entries: seq<Entry>)
      requires Valid() && nJs == 2 && IgcParams().Positive()
      ensures entries == TransitionRatesBF(qMut, IgcParams(), n, proportion)
    {
      var rate := Calculator(qMut, IgcParams(), n, proportion);
      entries := [];
      var i := 0;
      while i < 256
        invariant 0 <= i <= 256
        invariant entries == EntriesBefore(rate, i)
      {
        var row := ListRow(rate, StateAt(i));
        entries := entries + row;
        EntriesBeforeStep(rate, i);
        i := i + 1;
      }
    }

    /** get_process_definition: the listing as three parallel lists, the third named
        `weights` for IGC shares and `transition_rates` otherwise. */
    method GetProcessDefinition(n: nat, proportion: bool) returns (pd: ProcessDefinition)
      requires Valid() && nJs == 2 && IgcParams().Positive()
      ensures pd == ProcessDefinitionOf(TransitionRatesBF(qMut, IgcParams(), n, proportion), proportion)
    {
      var entries := GetIgcTransitionRatesBF(n, proportion);
      pd := CollectProcessDefinition(entries, proportion);
    }
  }
}
