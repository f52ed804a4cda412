/**
 * Rates of compatible transitions: a point-mutation rate for the changed
 * coordinate plus the rate at which an IGC tract with geometric length
 * (termination probability IGC_p per site, initiation rate IGC_init) copies it,
 * for two sites `n` apart.
 */
module IgcRates {
  import opened JointStates
  import opened Compatibility
  import opened Adjacency

  /** Q_mut of the point-mutation collaborator: the rate from one nucleotide to another. */
  type RateTable = (Nucleotide, Nucleotide) -> real

  /** The IGC parameters IGC_init and IGC_p, i.e. the exponentials of the IGC slice. */
  datatype IgcParameters = IgcParameters(init: real, p: real) {
    /** Both are values of exp, hence positive. */
    predicate Positive() {
      init > 0.0 && p > 0.0
    }
  }

  /** A floating-point quotient: a real number, or the nan/inf that dividing by zero yields. */
  datatype FloatResult = Finite(value: real) | NonFinite

  function Divide(x: real, y: real): (r: FloatResult)
    ensures r.Finite? <==> y != 0.0
    ensures r.Finite? ==> r.value * y == x
  {
    if y == 0.0 then NonFinite else Finite(x / y)
  }

  function Pow(x: real, n: nat): real
  {
    if n == 0 then 1.0 else x * Pow(x, n - 1)
  }

  /** IGC_0_not_n: rate of tracts that start at one site and stop before the other. */
  function Igc0NotN(g: IgcParameters, n: nat): (r: real)
    requires g.Positive()
    ensures r == g.init / g.p - Igc0AndN(g, n)
  {
    g.init / g.p * (1.0 - Pow(1.0 - g.p, n))
  }

  /** IGC_0_and_n: rate of tracts that start at one site and reach the site `n` away. */
  function Igc0AndN(g: IgcParameters, n: nat): real
    requires g.Positive()
  {
    g.init / g.p * Pow(1.0 - g.p, n)
  }

  /** The two summands of a rate: q_ij from point mutation, q_IGC from conversion. */
  datatype RateParts = RateParts(mutation: real, igc: real)

  /** The two summands of the rate of a compatible transition a -> b. */
  function TransitionRateParts(q: RateTable, g: IgcParameters, a: JointState, b: JointState, n: nat): (r: RateParts)
    requires g.Positive() && IsTransitionCompatible(a, b)
    ensures |DifferingPositions(a, b)| == 2 ==> r.mutation == 0.0
  {
    var ps := DifferingPositions(a, b);
    if |ps| == 1 then
      var pos := ps[0];
      var nb := OtherPositions(pos);
      var qIgc :=
        if b[pos] == a[nb.otherParalogSameSite] && a[nb.sameParalogOtherSite] == a[nb.otherParalogOtherSite] then
          Igc0NotN(g, n) + Igc0AndN(g, n)
        else if b[pos] == a[nb.otherParalogSameSite] && a[nb.sameParalogOtherSite] != a[nb.otherParalogOtherSite] then
          Igc0NotN(g, n)
        else
          0.0;
      RateParts(q(a[pos], b[pos]), qIgc)
    else if |ps| == 2 then
      if IsTractPattern(a, b, ps) then RateParts(0.0, Igc0AndN(g, n))
      else assert false; RateParts(0.0, 0.0)
    else
      assert false; RateParts(0.0, 0.0)
  }

  /** cal_IGC_transition_rate: the rate of a -> b, or with `proportion` the share of it due to IGC. */
  function CalIgcTransitionRate(q: RateTable, g: IgcParameters, a: JointState, b: JointState, n: nat, proportion: bool): (r: FloatResult)
    requires g.Positive() && IsTransitionCompatible(a, b)
    ensures !proportion ==> r.Finite?
    ensures var parts := TransitionRateParts(q, g, a, b, n);
      proportion ==> (r.Finite? <==> parts.mutation + parts.igc != 0.0)
  {
    var parts := TransitionRateParts(q, g, a, b, n);
    if proportion then Divide(parts.igc, parts.mutation + parts.igc)
    else Finite(parts.mutation + parts.igc)
  }

  /** The IGC term of a change of coordinate `pos` to `to`: both tract terms when the
      other paralog holds `to` at the same site and the two paralogs agree at the
      other site, IGC_0_not_n alone when they disagree there, and 0 when the other
      paralog does not hold `to`. */
  function SingleSiteIgcTerm(g: IgcParameters, a: JointState, pos: nat, to: Nucleotide, n: nat): real
    requires g.Positive() && pos < 4
  {
    var copied := to == a[Coordinate(1 - Paralog(pos), Site(pos))];
    var otherSiteAgrees := a[Coordinate(Paralog(pos), 1 - Site(pos))] == a[Coordinate(1 - Paralog(pos), 1 - Site(pos))];
    if copied && otherSiteAgrees then Igc0NotN(g, n) + Igc0AndN(g, n)
    else if copied then Igc0NotN(g, n)
    else 0.0
  }

  /** A one-coordinate change at `pos` splits into the point-mutation rate of that
      coordinate and the IGC term above. */
  lemma SingleCoordinateParts(q: RateTable, g: IgcParameters, a: JointState, b: JointState, n: nat, pos: nat)
    requires g.Positive() && OneCoordinateChange(a, b, pos)
    ensures IsTransitionCompatible(a, b)
    ensures TransitionRateParts(q, g, a, b, n) == RateParts(q(a[pos], b[pos]), SingleSiteIgcTerm(g, a, pos, b[pos], n))
  {
    SingleChangeCompatible(a, b, pos);
    DifferingPositionsSingle(a, b, pos);
    var parts := TransitionRateParts(q, g, a, b, n);
    assert parts.mutation == q(a[pos], b[pos]);
    assert parts.igc == SingleSiteIgcTerm(g, a, pos, b[pos], n);
  }

  lemma RateOfParts(q: RateTable, g: IgcParameters, a: JointState, b: JointState, n: nat, m: real, i: real)
    requires g.Positive() && IsTransitionCompatible(a, b)
    requires TransitionRateParts(q, g, a, b, n) == RateParts(m, i)
    ensures CalIgcTransitionRate(q, g, a, b, n, false) == Finite(m + i)
    ensures CalIgcTransitionRate(q, g, a, b, n, true) == Divide(i, m + i)
  {
  }

  /** The rate of a one-coordinate change is its point-mutation rate plus the IGC
      term above; its IGC share is that term over the sum. */
  lemma SingleCoordinateRate(q: RateTable, g: IgcParameters, a: JointState, b: JointState, n: nat, pos: nat)
    requires g.Positive() && OneCoordinateChange(a, b, pos)
    ensures IsTransitionCompatible(a, b)
    ensures var igc := SingleSiteIgcTerm(g, a, pos, b[pos], n);
      CalIgcTransitionRate(q, g, a, b, n, false) == Finite(q(a[pos], b[pos]) + igc)
      && CalIgcTransitionRate(q, g, a, b, n, true) == Divide(igc, q(a[pos], b[pos]) + igc)
  {
    SingleCoordinateParts(q, g, a, b, n, pos);
    RateOfParts(q, g, a, b, n, q(a[pos], b[pos]), SingleSiteIgcTerm(g, a, pos, b[pos], n));
  }

  /** A whole-tract copy has no point-mutation part: its rate is IGC_0_and_n and,
      when that is not zero, its IGC share is 1. */
  lemma TractCopyRate(q: RateTable, g: IgcParameters, a: JointState, b: JointState, n: nat)
    requires g.Positive() && IsTractCopy(a, b)
    ensures IsTransitionCompatible(a, b)
    ensures CalIgcTransitionRate(q, g, a, b, n, false) == Finite(Igc0AndN(g, n))
    ensures Igc0AndN(g, n) != 0.0 ==> CalIgcTransitionRate(q, g, a, b, n, true) == Finite(1.0)
    ensures Igc0AndN(g, n) == 0.0 ==> CalIgcTransitionRate(q, g, a, b, n, true) == NonFinite
  {
    assert |DifferingPositions(a, b)| == 2;
    TwoChangesCompatibleIff(a, b);
    assert TransitionRateParts(q, g, a, b, n) == RateParts(0.0, Igc0AndN(g, n));
    RateOfParts(q, g, a, b, n, 0.0, Igc0AndN(g, n));
    assert 0.0 + Igc0AndN(g, n) == Igc0AndN(g, n);
    if Igc0AndN(g, n) != 0.0 {
      SelfQuotient(Igc0AndN(g, n));
    }
  }

  /** The point-mutation rates between different nucleotides are not negative. */
  predicate OffDiagonalNonNegative(q: RateTable)
  {
    forall i: Nucleotide, j: Nucleotide :: i != j ==> q(i, j) >= 0.0
  }

  /** With non-negative mutation rates and IGC_p <= 1 both summands are non-negative. */
  lemma PartsNonNegative(q: RateTable, g: IgcParameters, a: JointState, b: JointState, n: nat)
    requires g.Positive() && g.p <= 1.0 && IsTransitionCompatible(a, b) && OffDiagonalNonNegative(q)
    ensures TransitionRateParts(q, g, a, b, n).mutation >= 0.0
    ensures TransitionRateParts(q, g, a, b, n).igc >= 0.0
  {
    TractTermsMonotone(g, n);
    var ps := DifferingPositions(a, b);
    if |ps| == 1 {
      assert ps[0] in ps;
    }
  }

  /** The IGC share is a proportion: a number in [0, 1], or undefined only for a
      transition whose rate is 0. */
  lemma ProportionInUnitInterval(q: RateTable, g: IgcParameters, a: JointState, b: JointState, n: nat)
    requires g.Positive() && g.p <= 1.0 && IsTransitionCompatible(a, b) && OffDiagonalNonNegative(q)
    ensures CalIgcTransitionRate(q, g, a, b, n, true).Finite? ==>
      0.0 <= CalIgcTransitionRate(q, g, a, b, n, true).value <= 1.0
    ensures CalIgcTransitionRate(q, g, a, b, n, true).NonFinite? ==>
      CalIgcTransitionRate(q, g, a, b, n, false) == Finite(0.0)
  {
    PartsNonNegative(q, g, a, b, n);
    var parts := TransitionRateParts(q, g, a, b, n);
    RateOfParts(q, g, a, b, n, parts.mutation, parts.igc);
    if parts.mutation + parts.igc != 0.0 {
      ShareBounds(parts.igc, parts.mutation + parts.igc);
    }
  }

  lemma ShareBounds(x: real, y: real)
    requires 0.0 <= x <= y && y != 0.0
    ensures 0.0 <= x / y <= 1.0
  {
  }

  /** Nothing bounds IGC_p = exp(x_IGC[1]) by 1, and the bounds above need it: with
      IGC_init = 1, IGC_p = 3, n = 2 and every mutation rate 0.5, IGC_0_not_n is -1,
      and copying nucleotide 2 into coordinate 0 of (0, 1, 2, 3) has rate -0.5 and
      IGC share 2. */
  lemma TractProbabilityAboveOne()
    ensures var g := IgcParameters(1.0, 3.0);
      var a: JointState := [0, 1, 2, 3];
      var b: JointState := [2, 1, 2, 3];
      var q: RateTable := (i, j) => 0.5;
      g.Positive() && IsTransitionCompatible(a, b)
      && Igc0NotN(g, 2) == -1.0
      && CalIgcTransitionRate(q, g, a, b, 2, false) == Finite(-0.5)
      && CalIgcTransitionRate(q, g, a, b, 2, true) == Finite(2.0)
  {
    var g := IgcParameters(1.0, 3.0);
    var a: JointState := [0, 1, 2, 3];
    var b: JointState := [2, 1, 2, 3];
    var q: RateTable := (i, j) => 0.5;
    assert OneCoordinateChange(a, b, 0);
    assert Pow(-2.0, 1) == -2.0;
    assert Pow(1.0 - g.p, 2) == 4.0;
    assert Igc0NotN(g, 2) == -1.0;
    SingleCoordinateRate(q, g, a, b, 2, 0);
    assert SingleSiteIgcTerm(g, a, 0, b[0], 2) == -1.0;
  }

  /** The two tract terms together are the total conversion rate IGC_init / IGC_p. */
  lemma TractTermsSum(g: IgcParameters, n: nat)
    requires g.Positive()
    ensures Igc0NotN(g, n) + Igc0AndN(g, n) == g.init / g.p
  {
  }

  /** Powers of a number in [0, 1] stay in [0, 1] and do not grow with the exponent. */
  lemma {:induction false} PowBounds(x: real, n: nat)
    requires 0.0 <= x <= 1.0
    ensures 0.0 <= Pow(x, n) <= 1.0
    ensures Pow(x, n + 1) <= Pow(x, n)
  {
    if n > 0 {
      PowBounds(x, n - 1);
      ScaleDown(x, Pow(x, n - 1));
    }
    ScaleDown(x, Pow(x, n));
  }

  lemma ScaleDown(x: real, y: real)
    requires 0.0 <= x <= 1.0 && 0.0 <= y
    ensures 0.0 <= x * y <= y
  {
  }

  /** With IGC_p <= 1 both tract terms lie in [0, IGC_init / IGC_p]; the term for
      tracts reaching the other site shrinks as the sites move apart, the other grows. */
  lemma TractTermsMonotone(g: IgcParameters, n: nat)
    requires g.Positive() && g.p <= 1.0
    ensures 0.0 <= Igc0AndN(g, n + 1) <= Igc0AndN(g, n) <= g.init / g.p
    ensures 0.0 <= Igc0NotN(g, n) <= Igc0NotN(g, n + 1) <= g.init / g.p
  {
    TractTermsBounded(g, n);
    TractTermsBounded(g, n + 1);
    TractTermsStep(g, n);
  }

  lemma TractTermsBounded(g: IgcParameters, n: nat)
    requires g.Positive() && g.p <= 1.0
    ensures 0.0 <= Igc0AndN(g, n) <= g.init / g.p
    ensures 0.0 <= Igc0NotN(g, n) <= g.init / g.p
  {
    TractTermsScaled(g, n);
    PositiveQuotient(g.init, g.p);
    PowBounds(1.0 - g.p, n);
    ScaledOrder(g.init / g.p, 0.0, Pow(1.0 - g.p, n));
  }

  lemma TractTermsStep(g: IgcParameters, n: nat)
    requires g.Positive() && g.p <= 1.0
    ensures Igc0AndN(g, n + 1) <= Igc0AndN(g, n)
    ensures Igc0NotN(g, n) <= Igc0NotN(g, n + 1)
  {
    TractTermsScaled(g, n);
    TractTermsScaled(g, n + 1);
    PositiveQuotient(g.init, g.p);
    PowBounds(1.0 - g.p, n);
    PowBounds(1.0 - g.p, n + 1);
    ScaledOrder(g.init / g.p, Pow(1.0 - g.p, n + 1), Pow(1.0 - g.p, n));
  }

  /** Both tract terms in terms of c = IGC_init / IGC_p and x = (1 - IGC_p)^n. */
  lemma TractTermsScaled(g: IgcParameters, n: nat)
    requires g.Positive()
    ensures Igc0AndN(g, n) == (g.init / g.p) * Pow(1.0 - g.p, n)
    ensures Igc0NotN(g, n) == (g.init / g.p) - (g.init / g.p) * Pow(1.0 - g.p, n)
  {
  }

  /** Scaling 0 <= y <= x <= 1 and their complements by c > 0 keeps the order. */
  lemma ScaledOrder(c: real, y: real, x: real)
    requires c > 0.0 && 0.0 <= y <= x <= 1.0
    ensures 0.0 <= c * y <= c * x <= c
    ensures 0.0 <= c - c * x <= c - c * y <= c
  {
    MulMonotone(c, y, x);
    MulMonotone(c, x, 1.0);
    NonNegativeProduct(c, y);
  }

  /** Bernoulli's inequality in the form (1 - p)^n * (1 + n p) <= 1. */
  lemma {:induction false} Bernoulli(p: real, n: nat)
    requires 0.0 <= p <= 1.0
    ensures Pow(1.0 - p, n) * (1.0 + (n as real) * p) <= 1.0
  {
    if n > 0 {
      Bernoulli(p, n - 1);
      PowBounds(1.0 - p, n - 1);
      assert (n as real) == ((n - 1) as real) + 1.0;
      BernoulliStep(Pow(1.0 - p, n - 1), p, (n - 1) as real);
    }
  }

  /** One step of Bernoulli's inequality: from x (1 + m p) <= 1 to
      ((1 - p) x) (1 + (m + 1) p) <= 1. */
  lemma BernoulliStep(x: real, p: real, m: real)
    requires 0.0 <= x && 0.0 <= p && 0.0 <= m && x * (1.0 + m * p) <= 1.0
    ensures ((1.0 - p) * x) * (1.0 + (m + 1.0) * p) <= 1.0
  {
    var f := (1.0 - p) * (1.0 + (m + 1.0) * p);
    ExpandStep(p, m);
    NonNegativeProduct(m + 1.0, p * p);
    MulMonotone(x, f, 1.0 + m * p);
    Rearrange(1.0 - p, x, 1.0 + (m + 1.0) * p);
  }

  lemma ExpandStep(p: real, m: real)
    ensures (1.0 - p) * (1.0 + (m + 1.0) * p) == 1.0 + m * p - (m + 1.0) * (p * p)
  {
  }

  lemma Rearrange(a: real, b: real, c: real)
    ensures (a * b) * c == b * (a * c)
  {
  }

  lemma SelfQuotient(x: real)
    requires x != 0.0
    ensures x / x == 1.0
  {
  }

  lemma NonNegativeProduct(x: real, y: real)
    requires 0.0 <= x && 0.0 <= y
    ensures 0.0 <= x * y
  {
  }

  lemma MulMonotone(x: real, y: real, z: real)
    requires 0.0 <= x && y <= z
    ensures x * y <= x * z
  {
  }

  /** As the separation grows, IGC_0_and_n tends to 0 and IGC_0_not_n to IGC_init / IGC_p:
      beyond the returned separation both are within `eps` of their limits. */
  lemma TractTermsLimit(g: IgcParameters, eps: real) returns (bound: nat)
    requires g.Positive() && g.p <= 1.0 && eps > 0.0
    ensures forall m: nat :: m >= bound ==> Igc0AndN(g, m) < eps
    ensures forall m: nat :: m >= bound ==> g.init / g.p - eps < Igc0NotN(g, m)
  {
    var t := (g.init / g.p) / (g.p * eps);
    bound := t.Floor + 1;
    forall m: nat | m >= bound ensures Igc0AndN(g, m) < eps {
      assert (m as real) > t;
      FarTractTermSmall(g, eps, m);
    }
    forall m: nat | m >= bound ensures g.init / g.p - eps < Igc0NotN(g, m) {
      TractTermsSum(g, m);
    }
  }

  /** Beyond (IGC_init / IGC_p) / (IGC_p eps) sites, IGC_0_and_n is below eps. */
  lemma FarTractTermSmall(g: IgcParameters, eps: real, m: nat)
    requires g.Positive() && g.p <= 1.0 && eps > 0.0 && (m as real) > (g.init / g.p) / (g.p * eps)
    ensures Igc0AndN(g, m) < eps
  {
    var c := g.init / g.p;
    PositiveQuotient(g.init, g.p);
    Bernoulli(g.p, m);
    PowBounds(1.0 - g.p, m);
    TractTermsScaled(g, m);
    LargeSeparation(c, g.p, eps, m as real);
    BelowBound(c, Pow(1.0 - g.p, m), 1.0 + (m as real) * g.p, eps);
  }

  lemma PositiveQuotient(x: real, y: real)
    requires x > 0.0 && y > 0.0
    ensures x / y > 0.0
  {
  }

  /** Beyond c / (p eps) sites, 1 + m p exceeds c / eps. */
  lemma LargeSeparation(c: real, p: real, eps: real, m: real)
    requires c > 0.0 && p > 0.0 && eps > 0.0 && m > c / (p * eps)
    ensures 1.0 + m * p > c / eps
  {
    assert m * (p * eps) > c;
    assert (m * p) * eps > c;
  }

  /** From x d <= 1 and d > c / eps follows c x < eps. */
  lemma BelowBound(c: real, x: real, d: real, eps: real)
    requires c > 0.0 && x >= 0.0 && eps > 0.0 && d > c / eps && x * d <= 1.0
    ensures c * x < eps
  {
    assert d * eps > c;
    assert c * x <= c * x * d * eps / c;
  }

}
