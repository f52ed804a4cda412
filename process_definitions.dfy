/**
 * The brute-force listing of all compatible transitions with their rates, and the
 * process definition built from it: three parallel lists (row states, column
 * states, rates or weights) that describe the generator matrix in coordinate form.
 */
module ProcessDefinitions {
  import opened JointStates
  import opened Compatibility
  import opened IgcRates

  /** One item of the listing: a transition and its rate or IGC share. */
  datatype Entry = Entry(rowState: JointState, columnState: JointState, value: FloatResult)

  /** The process definition; the third list is named `transition_rates` or, for
      IGC shares, `weights`. */
  datatype ProcessDefinition =
    | RateDefinition(rowStates: seq<JointState>, columnStates: seq<JointState>, transitionRates: seq<FloatResult>)
    | WeightDefinition(rowStates: seq<JointState>, columnStates: seq<JointState>, weights: seq<FloatResult>)
  {
    function Values(): seq<FloatResult>
    {
      if RateDefinition? then transitionRates else weights
    }
  }

  /** A value for every ordered pair of joint states; the listing applies it to the
      compatible pairs only. */
  type PairValue = (JointState, JointState) -> FloatResult

  /** cal_IGC_transition_rate as a function of the pair, on the compatible pairs it is
      defined for. */
  function Calculator(q: RateTable, g: IgcParameters, n: nat, proportion: bool): PairValue
    requires g.Positive()
  {
    (a: JointState, b: JointState) =>
      if IsTransitionCompatible(a, b) then CalIgcTransitionRate(q, g, a, b, n, proportion) else NonFinite
  }

  /** The entry for a -> b if that transition is compatible, nothing otherwise. */
  function EntryFor(rate: PairValue, a: JointState, b: JointState): seq<Entry>
  {
    if IsTransitionCompatible(a, b) then [Entry(a, b, rate(a, b))] else []
  }

  /** The entries from state `a` to the first `j` states of the listing. */
  function RowEntries(rate: PairValue, a: JointState, j: nat): seq<Entry>
    requires j <= 256
  {
    if j == 0 then [] else RowEntries(rate, a, j - 1) + EntryFor(rate, a, StateAt(j - 1))
  }

  /** The entries from the first `i` states of the listing to all states. */
  function EntriesBefore(rate: PairValue, i: nat): seq<Entry>
    requires i <= 256
  {
    if i == 0 then [] else EntriesBefore(rate, i - 1) + RowEntries(rate, StateAt(i - 1), 256)
  }

  /** What get_IGC_transition_rates_BF yields, in order. */
  function TransitionRatesBF(q: RateTable, g: IgcParameters, n: nat, proportion: bool): seq<Entry>
    requires g.Positive()
  {
    EntriesBefore(Calculator(q, g, n, proportion), 256)
  }

  lemma RowEntriesStep(rate: PairValue, a: JointState, j: nat)
    requires j < 256
    ensures RowEntries(rate, a, j + 1) == RowEntries(rate, a, j) + EntryFor(rate, a, StateAt(j))
  {
  }

  lemma EntriesBeforeStep(rate: PairValue, i: nat)
    requires i < 256
    ensures EntriesBefore(rate, i + 1) == EntriesBefore(rate, i) + RowEntries(rate, StateAt(i), 256)
  {
  }

  /** The entry is a compatible transition carrying the value of `rate` for it. */
  predicate IsListedAs(rate: PairValue, e: Entry)
  {
    IsTransitionCompatible(e.rowState, e.columnState) && e.value == rate(e.rowState, e.columnState)
  }

  /** The position of a transition in the listing of all pairs of states. */
  function PairRank(e: Entry): nat
  {
    Index(e.rowState) * 256 + Index(e.columnState)
  }

  lemma {:induction false} RowEntriesSound(rate: PairValue, a: JointState, j: nat)
    requires j <= 256
    ensures forall e :: e in RowEntries(rate, a, j) ==> IsListedAs(rate, e) && e.rowState == a && Index(e.columnState) < j
  {
    if j > 0 {
      RowEntriesSound(rate, a, j - 1);
      StateAtIndex(j - 1);
    }
  }

  lemma {:induction false} EntriesBeforeSound(rate: PairValue, i: nat)
    requires i <= 256
    ensures forall e :: e in EntriesBefore(rate, i) ==> IsListedAs(rate, e) && Index(e.rowState) < i
  {
    if i > 0 {
      EntriesBeforeSound(rate, i - 1);
      RowEntriesSound(rate, StateAt(i - 1), 256);
      StateAtIndex(i - 1);
    }
  }

  /** Every listed entry is a compatible transition with the calculator's value. */
  lemma ListedTransitionIsRated(q: RateTable, g: IgcParameters, n: nat, proportion: bool, e: Entry)
    requires g.Positive() && e in TransitionRatesBF(q, g, n, proportion)
    ensures IsTransitionCompatible(e.rowState, e.columnState)
    ensures e.value == CalIgcTransitionRate(q, g, e.rowState, e.columnState, n, proportion)
  {
    var rate := Calculator(q, g, n, proportion);
    EntriesBeforeSound(rate, 256);
    assert IsListedAs(rate, e);
  }

  lemma {:induction false} RowEntriesComplete(rate: PairValue, a: JointState, b: JointState, j: nat)
    requires Index(b) < j <= 256 && IsTransitionCompatible(a, b)
    ensures Entry(a, b, rate(a, b)) in RowEntries(rate, a, j)
  {
    if Index(b) == j - 1 {
      IndexStateAt(b);
    } else {
      RowEntriesComplete(rate, a, b, j - 1);
    }
  }

  lemma {:induction false} EntriesBeforeComplete(rate: PairValue, a: JointState, b: JointState, i: nat)
    requires Index(a) < i <= 256 && IsTransitionCompatible(a, b)
    ensures Entry(a, b, rate(a, b)) in EntriesBefore(rate, i)
  {
    if Index(a) == i - 1 {
      CompleteInOwnRow(rate, a, b, i);
    } else {
      EntriesBeforeComplete(rate, a, b, i - 1);
      EntriesBeforeStep(rate, i - 1);
    }
  }

  lemma CompleteInOwnRow(rate: PairValue, a: JointState, b: JointState, i: nat)
    requires IsTransitionCompatible(a, b) && 0 < i <= 256 && Index(a) == i - 1
    ensures Entry(a, b, rate(a, b)) in EntriesBefore(rate, i)
  {
    IndexStateAt(a);
    assert StateAt(i - 1) == a;
    RowOfState(rate, a, i);
    RowEntriesComplete(rate, a, b, 256);
  }

  lemma RowOfState(rate: PairValue, a: JointState, i: nat)
    requires 0 < i <= 256 && StateAt(i - 1) == a
    ensures EntriesBefore(rate, i) == EntriesBefore(rate, i - 1) + RowEntries(rate, a, 256)
  {
  }

  /** Every compatible transition of the state space is listed, with its value. */
  lemma CompatibleTransitionsListed(q: RateTable, g: IgcParameters, n: nat, proportion: bool, a: JointState, b: JointState)
    requires g.Positive() && IsTransitionCompatible(a, b)
    ensures Entry(a, b, CalIgcTransitionRate(q, g, a, b, n, proportion)) in TransitionRatesBF(q, g, n, proportion)
  {
    var rate := Calculator(q, g, n, proportion);
    IndexStateAt(a);
    EntriesBeforeComplete(rate, a, b, 256);
    assert rate(a, b) == CalIgcTransitionRate(q, g, a, b, n, proportion);
  }

  /** The entries are strictly increasing in PairRank. */
  predicate StrictlyIncreasing(es: seq<Entry>)
  {
    forall k, l :: 0 <= k < l < |es| ==> PairRank(es[k]) < PairRank(es[l])
  }

  lemma ConcatIncreasing(xs: seq<Entry>, ys: seq<Entry>)
    requires StrictlyIncreasing(xs) && StrictlyIncreasing(ys)
    requires forall x, y :: x in xs && y in ys ==> PairRank(x) < PairRank(y)
    ensures StrictlyIncreasing(xs + ys)
  {
    forall k, l | 0 <= k < l < |xs + ys| ensures PairRank((xs + ys)[k]) < PairRank((xs + ys)[l]) {
      if l < |xs| {
      } else if k < |xs| {
        assert (xs + ys)[k] in xs && (xs + ys)[l] in ys;
      } else {
        assert (xs + ys)[k] == ys[k - |xs|] && (xs + ys)[l] == ys[l - |xs|];
      }
    }
  }

  lemma {:induction false} RowEntriesIncreasing(rate: PairValue, a: JointState, j: nat)
    requires j <= 256
    ensures StrictlyIncreasing(RowEntries(rate, a, j))
  {
    if j > 0 {
      RowEntriesIncreasing(rate, a, j - 1);
      RowEntriesSound(rate, a, j - 1);
      StateAtIndex(j - 1);
      ConcatIncreasing(RowEntries(rate, a, j - 1), EntryFor(rate, a, StateAt(j - 1)));
    }
  }

  lemma {:induction false} EntriesBeforeIncreasing(rate: PairValue, i: nat)
    requires i <= 256
    ensures StrictlyIncreasing(EntriesBefore(rate, i))
  {
    if i > 0 {
      var xs := EntriesBefore(rate, i - 1);
      var ys := RowEntries(rate, StateAt(i - 1), 256);
      EntriesBeforeIncreasing(rate, i - 1);
      EntriesBeforeSound(rate, i - 1);
      RowEntriesIncreasing(rate, StateAt(i - 1), 256);
      RowEntriesSound(rate, StateAt(i - 1), 256);
      StateAtIndex(i - 1);
      forall x, y | x in xs && y in ys ensures PairRank(x) < PairRank(y) {
        assert Index(x.rowState) <= i - 2 && Index(y.rowState) == i - 1;
      }
      ConcatIncreasing(xs, ys);
    }
  }

  /** The listing follows the lexicographic order of (row state, column state), as
      the nested itertools.product loops visit the pairs, and so lists each pair once. */
  lemma ListingIsLexicographic(q: RateTable, g: IgcParameters, n: nat, proportion: bool)
    requires g.Positive()
    ensures var es := TransitionRatesBF(q, g, n, proportion);
      forall k, l :: 0 <= k < l < |es| ==>
        LexLess(es[k].rowState + es[k].columnState, es[l].rowState + es[l].columnState)
  {
    var es := TransitionRatesBF(q, g, n, proportion);
    EntriesBeforeIncreasing(Calculator(q, g, n, proportion), 256);
    forall k, l | 0 <= k < l < |es|
      ensures LexLess(es[k].rowState + es[k].columnState, es[l].rowState + es[l].columnState)
    {
      var x, y := es[k], es[l];
      RankAppend(x.rowState, x.columnState);
      RankAppend(y.rowState, y.columnState);
      RankOfState(x.rowState);
      RankOfState(x.columnState);
      RankOfState(y.rowState);
      RankOfState(y.columnState);
      assert Pow4(4) == 256;
      RankOrder(x.rowState + x.columnState, y.rowState + y.columnState);
    }
  }

  /** The three parallel lists of a listing: its row states, its column states and its
      values, as get_process_definition collects them. */
  function RowStates(es: seq<Entry>): seq<JointState>
  {
    seq(|es|, k requires 0 <= k < |es| => es[k].rowState)
  }

  function ColumnStates(es: seq<Entry>): seq<JointState>
  {
    seq(|es|, k requires 0 <= k < |es| => es[k].columnState)
  }

  function EntryValues(es: seq<Entry>): seq<FloatResult>
  {
    seq(|es|, k requires 0 <= k < |es| => es[k].value)
  }

  /** The process definition of a listing: the third list is named `weights` for IGC
      shares and `transition_rates` otherwise. */
  function ProcessDefinitionOf(es: seq<Entry>, proportion: bool): ProcessDefinition
  {
    if proportion then WeightDefinition(RowStates(es), ColumnStates(es), EntryValues(es))
    else RateDefinition(RowStates(es), ColumnStates(es), EntryValues(es))
  }

  /** The inner loop of get_IGC_transition_rates_BF: the compatible transitions out
      of `a`, column states in listing order, each with its value under `rate`. */
  method ListRow(rate: PairValue, a: JointState) returns (row: seq<Entry>)
    ensures row == RowEntries(rate, a, 256)
  {
    row := [];
    var j := 0;
    while j < 256
      invariant 0 <= j <= 256
      invariant row == RowEntries(rate, a, j)
    {
      var b := StateAt(j);
      if IsTransitionCompatible(a, b) {
        row := row + [Entry(a, b, rate(a, b))];
      }
      RowEntriesStep(rate, a, j);
      j := j + 1;
    }
  }

  /** The loop of get_process_definition: appends the row state, column state and
      value of each entry to three lists, then names the third by `proportion`. */
  method CollectProcessDefinition(entries: seq<Entry>, proportion: bool) returns (pd: ProcessDefinition)
    ensures pd == ProcessDefinitionOf(entries, proportion)
  {
    var rowStates: seq<JointState> := [];
    var columnStates: seq<JointState> := [];
    var values: seq<FloatResult> := [];
    var k := 0;
    while k < |entries|
      invariant 0 <= k <= |entries|
      invariant rowStates == RowStates(entries[..k])
      invariant columnStates == ColumnStates(entries[..k])
      invariant values == EntryValues(entries[..k])
    {
      assert entries[..k + 1] == entries[..k] + [entries[k]];
      rowStates := rowStates + [entries[k].rowState];
      columnStates := columnStates + [entries[k].columnState];
      values := values + [entries[k].value];
      k := k + 1;
    }
    assert entries[..k] == entries;
    if proportion {
      pd := WeightDefinition(rowStates, columnStates, values);
    } else {
      pd := RateDefinition(rowStates, columnStates, values);
    }
  }

  /** The process definition holds three lists of equal length, and position k of them
      is a compatible transition with the calculator's value for it. */
  lemma ProcessDefinitionSound(q: RateTable, g: IgcParameters, n: nat, proportion: bool)
    requires g.Positive()
    ensures var pd := ProcessDefinitionOf(TransitionRatesBF(q, g, n, proportion), proportion);
      pd.WeightDefinition? == proportion
      && |pd.rowStates| == |pd.columnStates| == |pd.Values()|
      && forall k :: 0 <= k < |pd.rowStates| ==>
           IsTransitionCompatible(pd.rowStates[k], pd.columnStates[k])
           && pd.Values()[k] == CalIgcTransitionRate(q, g, pd.rowStates[k], pd.columnStates[k], n, proportion)
  {
    var es := TransitionRatesBF(q, g, n, proportion);
    var pd := ProcessDefinitionOf(es, proportion);
    assert pd.rowStates == RowStates(es) && pd.columnStates == ColumnStates(es) && pd.Values() == EntryValues(es);
    forall k | 0 <= k < |pd.rowStates|
      ensures IsTransitionCompatible(pd.rowStates[k], pd.columnStates[k])
        && pd.Values()[k] == CalIgcTransitionRate(q, g, pd.rowStates[k], pd.columnStates[k], n, proportion)
    {
      assert pd.rowStates[k] == es[k].rowState && pd.columnStates[k] == es[k].columnState;
      assert pd.Values()[k] == es[k].value;
      ListedTransitionIsRated(q, g, n, proportion, es[k]);
    }
  }

  /** Every compatible transition has a position in the process definition. */
  lemma ProcessDefinitionComplete(q: RateTable, g: IgcParameters, n: nat, proportion: bool, a: JointState, b: JointState)
    requires g.Positive() && IsTransitionCompatible(a, b)
    ensures var pd := ProcessDefinitionOf(TransitionRatesBF(q, g, n, proportion), proportion);
      exists k :: 0 <= k < |pd.rowStates| && pd.rowStates[k] == a && pd.columnStates[k] == b
  {
    var es := TransitionRatesBF(q, g, n, proportion);
    CompatibleTransitionsListed(q, g, n, proportion, a, b);
    var k :| 0 <= k < |es| && es[k] == Entry(a, b, CalIgcTransitionRate(q, g, a, b, n, proportion));
    var pd := ProcessDefinitionOf(es, proportion);
    assert pd.rowStates == RowStates(es) && pd.columnStates == ColumnStates(es);
    assert 0 <= k < |pd.rowStates| && pd.rowStates[k] == a && pd.columnStates[k] == b;
  }
}
