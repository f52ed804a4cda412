/**
 * Joint states of the pair-site model: a 4-tuple (ia, ib, ja, jb) holding the
 * nucleotide of paralog i and paralog j at sites a and b.  Coordinate
 * `2 * paralog + site` holds the nucleotide of that paralog at that site.
 */
module JointStates {

  /** Size of the point-mutation alphabet (nucleotides under HKY). */
  const AlphabetSize := 4

  type Nucleotide = i: int | 0 <= i < 4

  type JointState = s: seq<Nucleotide> | |s| == 4 witness [0, 0, 0, 0]

  /** The paralog (0 for i, 1 for j) that coordinate `pos` belongs to. */
  function Paralog(pos: nat): nat
    requires pos < 4
  {
    if pos < 2 then 0 else 1
  }

  /** The site (0 for a, 1 for b) that coordinate `pos` belongs to. */
  function Site(pos: nat): nat
    requires pos < 4
  {
    if pos == 0 || pos == 2 then 0 else 1
  }

  /** The coordinate of the given paralog at the given site. */
  function Coordinate(paralog: nat, site: nat): (pos: nat)
    requires paralog < 2 && site < 2
    ensures pos < 4 && Paralog(pos) == paralog && Site(pos) == site
  {
    2 * paralog + site
  }

  /** The coordinates in which two joint states differ, in increasing order. */
  function DifferingPositions(a: JointState, b: JointState): (ps: seq<nat>)
    ensures forall k :: k in ps <==> 0 <= k < 4 && a[k] != b[k]
    ensures forall j, l :: 0 <= j < l < |ps| ==> ps[j] < ps[l]
  {
    (if a[0] != b[0] then [0] else []) + (if a[1] != b[1] then [1] else [])
    + (if a[2] != b[2] then [2] else []) + (if a[3] != b[3] then [3] else [])
  }

  /** `b` differs from `a` in coordinate `pos` and nowhere else. */
  predicate OneCoordinateChange(a: JointState, b: JointState, pos: nat)
  {
    pos < 4 && a[pos] != b[pos] && forall k :: 0 <= k < 4 && k != pos ==> a[k] == b[k]
  }

  /** The differing positions are empty exactly for equal states. */
  lemma DifferingPositionsEmpty(a: JointState, b: JointState)
    ensures DifferingPositions(a, b) == [] <==> a == b
  {
    var ps := DifferingPositions(a, b);
    if ps == [] {
      forall k | 0 <= k < 4 ensures a[k] == b[k] {
        assert k !in ps;
      }
    }
  }

  /** A change in one coordinate shows up as exactly that one position. */
  lemma DifferingPositionsSingle(a: JointState, b: JointState, pos: nat)
    requires OneCoordinateChange(a, b, pos)
    ensures DifferingPositions(a, b) == [pos]
  {
    var ps := DifferingPositions(a, b);
    assert pos in ps;
    forall j | 0 <= j < |ps| ensures ps[j] == pos {
      assert ps[j] in ps;
    }
  }

  // The state space in the order itertools.product(range(4), repeat = 4) lists it:
  // the first coordinate varies slowest, so the k-th state is k written in base 4.

  function Pow4(m: nat): (r: nat)
    ensures r >= 1
  {
    if m == 0 then 1 else 4 * Pow4(m - 1)
  }

  /** The position of `s` in the lexicographic listing of all sequences of its length. */
  function Rank(s: seq<Nucleotide>): (r: nat)
    ensures r < Pow4(|s|)
  {
    if s == [] then 0
    else
      var rest := Rank(s[1..]);
      assert s[0] * Pow4(|s| - 1) <= 3 * Pow4(|s| - 1);
      s[0] * Pow4(|s| - 1) + rest
  }

  /** Strict lexicographic order on sequences of equal length. */
  predicate LexLess(s: seq<int>, t: seq<int>)
    requires |s| == |t|
  {
    |s| > 0 && (s[0] < t[0] || (s[0] == t[0] && LexLess(s[1..], t[1..])))
  }

  /** The k-th joint state of the listing. */
  function StateAt(k: nat): (s: JointState)
    requires k < 256
  {
    [k / 64, k / 16 % 4, k / 4 % 4, k % 4]
  }

  /** Ranks compare as the sequences compare lexicographically. */
  lemma {:induction false} RankOrder(s: seq<Nucleotide>, t: seq<Nucleotide>)
    requires |s| == |t|
    ensures Rank(s) < Rank(t) <==> LexLess(s, t)
  {
    if s != [] {
      var p := Pow4(|s| - 1);
      assert Rank(s) == s[0] * p + Rank(s[1..]);
      assert Rank(t) == t[0] * p + Rank(t[1..]);
      if s[0] < t[0] {
        assert s[0] * p + p <= t[0] * p;
      } else if s[0] > t[0] {
        assert t[0] * p + p <= s[0] * p;
      } else {
        RankOrder(s[1..], t[1..]);
      }
    }
  }

  /** The rank of a concatenation: the first part gives the leading digits. */
  lemma {:induction false} RankAppend(a: seq<Nucleotide>, b: seq<Nucleotide>)
    ensures Rank(a + b) == Rank(a) * Pow4(|b|) + Rank(b)
  {
    if a == [] {
      assert a + b == b;
    } else {
      var x: int, p, q, r := a[0], Pow4(|a| - 1), Pow4(|b|), Rank(a[1..]);
      var ab := a + b;
      assert ab[0] == a[0] && ab[1..] == a[1..] + b;
      assert Rank(ab) == x * Pow4(|ab| - 1) + Rank(ab[1..]);
      RankAppend(a[1..], b);
      assert Rank(ab[1..]) == r * q + Rank(b);
      PowAdd(|a| - 1, |b|);
      assert Pow4(|ab| - 1) == p * q;
      Distribute(x, p, q, r);
      assert Rank(a) == x * p + r;
    }
  }

  lemma Distribute(x: int, p: int, q: int, r: int)
    ensures x * (p * q) + r * q == (x * p + r) * q
  {
  }

  lemma {:induction false} PowAdd(m: nat, l: nat)
    ensures Pow4(m + l) == Pow4(m) * Pow4(l)
  {
    if m > 0 {
      PowAdd(m - 1, l);
    }
  }

  /** The position of a joint state in the listing: its base-4 value. */
  function Index(s: JointState): (k: nat)
    ensures k < 256
  {
    64 * (s[0] as int) + 16 * (s[1] as int) + 4 * (s[2] as int) + s[3] as int
  }

  /** For joint states the lexicographic rank is the index. */
  lemma RankOfState(s: JointState)
    ensures Rank(s) == Index(s)
  {
    assert Pow4(1) == 4 && Pow4(2) == 16 && Pow4(3) == 64;
    assert s[3..][1..] == [];
    assert Rank(s[3..]) == s[3] as int;
    assert s[2..][1..] == s[3..];
    assert Rank(s[2..]) == 4 * (s[2] as int) + s[3] as int;
    assert s[1..][1..] == s[2..];
    assert Rank(s[1..]) == 16 * (s[1] as int) + 4 * (s[2] as int) + s[3] as int;
  }

  /** StateAt and Index are inverse to each other on the 256 joint states. */
  lemma StateAtIndex(k: nat)
    requires k < 256
    ensures Index(StateAt(k)) == k
  {
  }

  lemma IndexStateAt(s: JointState)
    ensures StateAt(Index(s)) == s
  {
    var k := Index(s);
    assert k / 64 == s[0];
    assert k / 16 % 4 == s[1];
    assert k / 4 % 4 == s[2];
    assert k % 4 == s[3];
  }
}
