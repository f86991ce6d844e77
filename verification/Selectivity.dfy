/**
 `filter_segments`: how many directories a synthetic query's scope keeps so that it selects about
 the wanted share of the rows. The floating logarithms are replaced by the least exponent.
 */
module Selectivity {
  import opened Arithmetic
  import opened ResourceUris

  function Clamped(selectivity: real): (s: real)
    ensures 0.0 < s <= 1.0
  {
    if selectivity < 0.000000001 then 0.000000001 else if selectivity > 1.0 then 1.0 else selectivity
  }

  /** The share wanted, moved to the nearest from a billionth to one. */
  lemma ClampedIs(selectivity: real)
    ensures 0.000000001 <= Clamped(selectivity)
    ensures 0.000000001 <= selectivity <= 1.0 ==> Clamped(selectivity) == selectivity
    ensures selectivity > 1.0 ==> Clamped(selectivity) == 1.0
    ensures selectivity < 0.000000001 ==> Clamped(selectivity) == 0.000000001
  {
  }

  lemma {:induction false} PowAbove(base: nat, n: nat)
    requires base >= 2
    ensures Pow(base, n) >= n + 1
  {
    if n > 0 {
      PowAbove(base, n - 1);
      Distribute(base - 2, 2, Pow(base, n - 1));
      assert (base - 2) * Pow(base, n - 1) >= 0;
    }
  }

  /** The least number of which the share is at least one. */
  function Target(share: real): int
    requires share > 0.0
  {
    -(-1.0 / share).Floor
  }

  lemma TargetReached(share: real, m: nat)
    requires share > 0.0
    ensures m >= Target(share) <==> share * m as real >= 1.0
  {
    var x := 1.0 / share;
    assert share * x == 1.0;
    assert share * m as real - 1.0 == share * (m as real - x);
    assert -1.0 / share == -x;
    if m as real >= x {
      assert share * (m as real - x) >= 0.0;
    } else {
      assert share * (m as real - x) < 0.0;
    }
  }

  /** The least exponent from k on whose power reaches the target. */
  function LeastExponent(target: int, base: nat, k: nat): (e: nat)
    requires base >= 2 && (k == 0 || Pow(base, k - 1) < target)
    ensures Pow(base, e) >= target
    ensures e == 0 || Pow(base, e - 1) < target
    decreases target - k
  {
    PowAbove(base, k);
    if Pow(base, k) >= target then k else LeastExponent(target, base, k + 1)
  }

  /** It is the least exponent from 0 on. */
  lemma ExponentReaches(target: int, base: nat, e: nat)
    requires base >= 2
    ensures LeastExponent(target, base, 0) <= e <==> Pow(base, e) >= target
  {
    var least := LeastExponent(target, base, 0);
    if least <= e {
      PowGrows(base, least, e);
    } else {
      PowGrows(base, e, least - 1);
    }
  }

  /** ceil(log(share) / log(1 / base)) */
  function Exponent(share: real, base: nat): nat
    requires share > 0.0 && base >= 2
  {
    LeastExponent(Target(share), base, 0)
  }

  /** The exponent is the least at which the share times the power reaches one. */
  lemma ExponentIsLeast(share: real, base: nat, e: nat, power: nat)
    requires share > 0.0 && base >= 2 && power == Pow(base, e)
    ensures Exponent(share, base) <= e <==> share * power as real >= 1.0
  {
    ExponentReaches(Target(share), base, e);
    TargetReached(share, power);
  }

  /** `filter_segments` */
  function FilterSegments(selectivity: real, fanout: int, depth: int): int {
    var segments := Exponent(Clamped(selectivity), AtLeast(2, fanout));
    AtLeast(1, if depth < segments then depth else segments)
  }

  lemma {:induction false} PowGrows(base: nat, j: nat, k: nat)
    requires base >= 1 && j <= k
    ensures Pow(base, j) <= Pow(base, k)
    decreases k
  {
    if j < k {
      PowGrows(base, j, k - 1);
      MulAtLeast(base, Pow(base, k - 1));
    }
  }

  lemma ClassBelow(n: nat, m: nat, r: nat)
    requires r < m
    ensures (CountResidue(n, m, r) - 1) * m < n || CountResidue(n, m, r) == 0
  {
    ResidueClassSize(n, m, r);
    var c := CountResidue(n, m, r);
    assert c * m <= n + m - 1 - r;
    Distribute(c, 1, m);
  }

  lemma ShareBound(c: nat, m: nat, n: nat, share: real)
    requires c * m < n && share > 0.0 && share * m as real >= 1.0
    ensures c as real < share * n as real
  {
    assert (c * m) as real == c as real * m as real;
    assert share * (n as real - (c * m) as real) > 0.0;
    assert share * (c as real * m as real) == c as real * (share * m as real);
    assert c as real * (share * m as real - 1.0) >= 0.0;
  }

  /** A selection is at most the share of n rows, rounded up. */
  ghost predicate WithinShare(size: nat, n: nat, share: real) {
    size == 0 || (size - 1) as real < share * n as real
  }

  lemma ClassWithinShare(n: nat, m: nat, r: nat, share: real)
    requires r < m && share > 0.0 && m >= Target(share)
    ensures WithinShare(CountResidue(n, m, r), n, share)
  {
    ClassBelow(n, m, r);
    TargetReached(share, m);
    if CountResidue(n, m, r) > 0 {
      ShareBound(CountResidue(n, m, r) - 1, m, n, share);
    }
  }

  /** Enough full rounds through the residues that one more row is too many. */
  lemma RoundsTooMany(share: real, x: real) returns (t: nat)
    requires 0.0 < share && 0.0 < x < 1.0
    ensures t as real >= x * t as real + share
  {
    var gap := 1.0 - x;
    assert share / gap >= 0.0;
    t := -(-share / gap).Floor;
    assert -share / gap == -(share / gap);
    assert t as real >= share / gap;
    assert gap * (t as real - share / gap) >= 0.0;
    assert gap * (share / gap) == share;
  }

  lemma SharePerRound(share: real, m: nat, t: nat)
    ensures share * (m * t + 1) as real == (share * m as real) * t as real + share
  {
    assert (m * t + 1) as real == m as real * t as real + 1.0;
    assert share * (m as real * t as real) == (share * m as real) * t as real;
  }

  lemma SizeAfterRounds(m: nat, t: nat)
    requires m >= 1
    ensures CountResidue(m * t + 1, m, 0) == t + 1
  {
    ResidueClassSize(m * t + 1, m, 0);
    assert m * t + 1 + m - 1 == (t + 1) * m;
    DivModUnique((t + 1) * m, m, t + 1, 0);
  }

  /** A class of too few residues holds more than its share once there are enough rows. */
  lemma ClassBeyondShare(m: nat, share: real) returns (n: nat)
    requires m >= 1 && 0.0 < share && m < Target(share)
    ensures n >= 1 && !WithinShare(CountResidue(n, m, 0), n, share)
  {
    TargetReached(share, m);
    assert share * m as real > 0.0;
    var t := RoundsTooMany(share, share * m as real);
    assert m * t >= 0;
    n := m * t + 1;
    SharePerRound(share, m, t);
    SizeAfterRounds(m, t);
  }

  // ---------------------------------------------------------------- the scopes of the queries

  lemma {:induction false} PowOfOne(k: nat)
    ensures Pow(1, k) == 1
  {
    if k > 0 {
      PowOfOne(k - 1);
    }
  }

  /** The residues a scope of the chosen length tells apart. */
  function Residues(selectivity: real, fanout: int, depth: int): (m: nat)
    ensures m >= 1
  {
    PowPositive(AtLeast(1, fanout), FilterSegments(selectivity, fanout, depth));
    Pow(AtLeast(1, fanout), FilterSegments(selectivity, fanout, depth))
  }

  /** All is wanted, or the fanout is at least two and the paths, of at least one directory, are deep enough. */
  predicate Attainable(selectivity: real, fanout: int, depth: int) {
    var share := Clamped(selectivity);
    share == 1.0 || (fanout >= 2 && Exponent(share, fanout) <= AtLeast(1, depth))
  }

  lemma AllIsTarget(share: real)
    requires 0.0 < share <= 1.0
    ensures Target(share) <= 1 <==> share == 1.0
  {
    TargetReached(share, 1);
  }

  lemma ResiduesSuffice(selectivity: real, fanout: int, depth: int)
    ensures Residues(selectivity, fanout, depth) >= Target(Clamped(selectivity)) <==> Attainable(selectivity, fanout, depth)
  {
    var share, k := Clamped(selectivity), FilterSegments(selectivity, fanout, depth);
    AllIsTarget(share);
    if fanout >= 2 {
      ExponentReaches(Target(share), fanout, k);
      ExponentReaches(Target(share), fanout, 0);
    } else {
      PowOfOne(k);
    }
  }

  /** The rows selected by the scope of a query made from row `source` of a table of n rows. */
  ghost function Selected(selectivity: real, fanout: int, depth: int, alnum: set<char>, n: nat, source: nat): set<nat> {
    ScopeRows(n, source, FilterSegments(selectivity, fanout, depth), depth, fanout, alnum)
  }

  lemma SelectedSize(selectivity: real, fanout: int, depth: int, alnum: set<char>, n: nat, source: nat, m: nat, r: nat)
    requires AlnumOk(alnum) && m == Residues(selectivity, fanout, depth) && r == source % m
    ensures |Selected(selectivity, fanout, depth, alnum, n, source)| == CountResidue(n, m, r)
  {
    ScopeSize(n, source, FilterSegments(selectivity, fanout, depth), depth, fanout, alnum, m);
  }

  lemma AttainedShare(selectivity: real, fanout: int, depth: int, alnum: set<char>, n: nat, source: nat)
    requires AlnumOk(alnum) && Attainable(selectivity, fanout, depth)
    ensures WithinShare(|Selected(selectivity, fanout, depth, alnum, n, source)|, n, Clamped(selectivity))
  {
    var m := Residues(selectivity, fanout, depth);
    ResiduesSuffice(selectivity, fanout, depth);
    SelectedSize(selectivity, fanout, depth, alnum, n, source, m, source % m);
    ClassWithinShare(n, m, source % m, Clamped(selectivity));
  }

  /** Where the share cannot be attained, the query made from row 0 of some table selects too many rows. */
  lemma MissedShare(selectivity: real, fanout: int, depth: int, alnum: set<char>) returns (n: nat)
    requires AlnumOk(alnum) && !Attainable(selectivity, fanout, depth)
    ensures n >= 1 && !WithinShare(|Selected(selectivity, fanout, depth, alnum, n, 0)|, n, Clamped(selectivity))
  {
    var m := Residues(selectivity, fanout, depth);
    ResiduesSuffice(selectivity, fanout, depth);
    n := ClassBeyondShare(m, Clamped(selectivity));
    SelectedSize(selectivity, fanout, depth, alnum, n, 0, m, 0);
  }

  /** Every query of every table selects at most the wanted share exactly if that share can be attained. */
  lemma ScopesKeepShare(selectivity: real, fanout: int, depth: int, alnum: set<char>)
    requires AlnumOk(alnum)
    ensures Attainable(selectivity, fanout, depth) <==>
      forall n: nat, source: nat | source < n ::
        WithinShare(|Selected(selectivity, fanout, depth, alnum, n, source)|, n, Clamped(selectivity))
  {
    if Attainable(selectivity, fanout, depth) {
      forall n: nat, source: nat | source < n
        ensures WithinShare(|Selected(selectivity, fanout, depth, alnum, n, source)|, n, Clamped(selectivity))
      {
        AttainedShare(selectivity, fanout, depth, alnum, n, source);
      }
    } else {
      var n := MissedShare(selectivity, fanout, depth, alnum);
    }
  }

  /** So many directories reach the share: their number of residues, times the share, is at least one (`TargetReached`). */
  predicate Reaches(selectivity: real, fanout: int, k: nat) {
    Pow(AtLeast(2, fanout), k) >= Target(Clamped(selectivity))
  }

  lemma ReachesIffExponent(selectivity: real, fanout: int, k: nat)
    ensures Reaches(selectivity, fanout, k) <==> Exponent(Clamped(selectivity), AtLeast(2, fanout)) <= k
  {
    ExponentReaches(Target(Clamped(selectivity)), AtLeast(2, fanout), k);
  }

  /**
   The number of directories kept is the least, from one up to the depth, that reaches the share; it is
   the whole depth if none does.
   */
  lemma SegmentsAreLeast(selectivity: real, fanout: int, depth: int)
    ensures var k := FilterSegments(selectivity, fanout, depth);
      && 1 <= k <= AtLeast(1, depth)
      && (Reaches(selectivity, fanout, k) || k == AtLeast(1, depth))
      && (forall j: nat | 1 <= j < k :: !Reaches(selectivity, fanout, j))
  {
    var k := FilterSegments(selectivity, fanout, depth);
    ReachesIffExponent(selectivity, fanout, k);
    forall j: nat | 1 <= j < k
      ensures !Reaches(selectivity, fanout, j)
    {
      ReachesIffExponent(selectivity, fanout, j);
    }
  }

  /** One residue class more than fits into n rows. */
  lemma ClassAbove(n: nat, m: nat, r: nat)
    requires r < m
    ensures (CountResidue(n, m, r) + 1) * m > n
  {
    ResidueClassSize(n, m, r);
    var c := CountResidue(n, m, r);
    var x := n + m - 1 - r;
    assert x == c * m + x % m;
    Distribute(c, 1, m);
  }

  lemma ShorterMisses(selectivity: real, fanout: nat, depth: int, shorter: nat)
    requires fanout >= 2 && shorter == Pow(fanout, FilterSegments(selectivity, fanout, depth) - 1)
    ensures Clamped(selectivity) * shorter as real <= 1.0
  {
    var k := FilterSegments(selectivity, fanout, depth);
    SegmentsAreLeast(selectivity, fanout, depth);
    if k > 1 {
      assert !Reaches(selectivity, fanout, k - 1);
      TargetReached(Clamped(selectivity), shorter);
    }
  }

  lemma ShareOfResidues(selectivity: real, fanout: nat, depth: int, m: nat)
    requires fanout >= 2 && m == Residues(selectivity, fanout, depth)
    ensures Clamped(selectivity) * m as real <= fanout as real
  {
    var shorter := Pow(fanout, FilterSegments(selectivity, fanout, depth) - 1);
    assert m == fanout * shorter;
    ShorterMisses(selectivity, fanout, depth, shorter);
    ShareTimes(Clamped(selectivity), fanout, shorter);
  }

  lemma ShareTimes(share: real, fanout: nat, shorter: nat)
    requires share * shorter as real <= 1.0
    ensures share * (fanout * shorter) as real <= fanout as real
  {
    assert (fanout * shorter) as real == fanout as real * shorter as real;
    assert share * (fanout as real * shorter as real) == fanout as real * (share * shorter as real);
    assert fanout as real * (1.0 - share * shorter as real) >= 0.0;
  }

  lemma FloorBound(c: nat, m: nat, n: nat, share: real, fanout: nat)
    requires share > 0.0 && c * m > n && share * m as real <= fanout as real
    ensures fanout as real * c as real > share * n as real
  {
    assert (c * m) as real == c as real * m as real;
    assert share * ((c * m) as real - n as real) > 0.0;
    assert share * (c as real * m as real) == c as real * (share * m as real);
    assert c as real * (fanout as real - share * m as real) >= 0.0;
  }

  /** A selection and one row more are at least the share of n rows over the fanout. */
  ghost predicate EnoughShare(size: nat, n: nat, share: real, fanout: nat) {
    fanout as real * (size + 1) as real > share * n as real
  }

  lemma ClassEnough(n: nat, m: nat, r: nat, share: real, fanout: nat)
    requires r < m && share > 0.0 && share * m as real <= fanout as real
    ensures EnoughShare(CountResidue(n, m, r), n, share, fanout)
  {
    ClassAbove(n, m, r);
    FloorBound(CountResidue(n, m, r) + 1, m, n, share, fanout);
  }

  lemma ResiduesEnough(selectivity: real, fanout: nat, depth: int, m: nat, n: nat, r: nat)
    requires fanout >= 2 && m == Residues(selectivity, fanout, depth) && r < m
    ensures EnoughShare(CountResidue(n, m, r), n, Clamped(selectivity), fanout)
  {
    var share := Clamped(selectivity);
    assert share * m as real <= fanout as real by { ShareOfResidues(selectivity, fanout, depth, m); }
    ClassEnough(n, m, r, share, fanout);
  }

  /** Nor does a scope cut too deep: it selects at least the wanted share over the fanout, less one row. */
  lemma ScopesKeepEnough(selectivity: real, fanout: nat, depth: int, alnum: set<char>, n: nat, source: nat)
    requires AlnumOk(alnum) && fanout >= 2
    ensures EnoughShare(|Selected(selectivity, fanout, depth, alnum, n, source)|, n, Clamped(selectivity), fanout)
  {
    var m := Residues(selectivity, fanout, depth);
    var r := source % m;
    SelectedSize(selectivity, fanout, depth, alnum, n, source, m, r);
    ResiduesEnough(selectivity, fanout, depth, m, n, r);
  }

  /** A fanout of one misses a half, and paths of one directory with a fanout of two miss a tenth. */
  lemma MissedShares()
    ensures !Attainable(0.5, 1, 3) && !Attainable(0.1, 2, 1)
  {
    assert Pow(2, 1) == 2 * Pow(2, 0);
    ExponentIsLeast(0.1, 2, 1, 2);
  }
}
