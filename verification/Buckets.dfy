/**
 The rows of the collection benchmark: their buckets and paths, and how many rows each filter
 scenario selects.
 */
module Buckets {
  import opened PyText
  import opened Paths
  import opened Arithmetic
  import opened ResourceUris

  /** `scalar_fields` of a row of a collection of n rows. */
  function UniformBucket(row: nat): nat { row % 1000 }

  function ClusterBucket(row: nat, n: nat): nat
    requires n >= 1
  {
    var b := (row * 1000) / n;
    if b < 999 then b else 999
  }

  /** How many of the first n rows have a uniform bucket below u. */
  function CountUniformBelow(n: nat, u: nat): nat {
    if n == 0 then 0 else CountUniformBelow(n - 1, u) + if UniformBucket(n - 1) < u then 1 else 0
  }

  /** How many of the first k rows, out of n, have a cluster bucket below u. */
  function CountClusterBelow(k: nat, n: nat, u: nat): nat
    requires k <= n
  {
    if k == 0 then 0 else CountClusterBelow(k - 1, n, u) + if ClusterBucket(k - 1, n) < u then 1 else 0
  }

  // ---------------------------------------------------------------- uniform buckets

  function EligibleCount(n: nat): nat { (n + 999) / 1000 }

  /** `eligible_count` is the number of rows in uniform bucket 0. */
  lemma EligibleIsBucketZero(n: nat)
    ensures EligibleCount(n) == CountResidue(n, 1000, 0)
  {
    ResidueClassSize(n, 1000, 0);
  }

  /** A range on the uniform bucket selects u rows of each full thousand and of the rest. */
  lemma {:induction false} UniformBelowSize(n: nat, u: nat)
    requires u <= 1000
    ensures CountUniformBelow(n, u) == (n / 1000) * u + (if n % 1000 < u then n % 1000 else u)
  {
    if n > 0 {
      UniformBelowSize(n - 1, u);
      if n % 1000 == 0 {
        assert n / 1000 == (n - 1) / 1000 + 1;
        Distribute((n - 1) / 1000, 1, u);
      } else {
        assert n / 1000 == (n - 1) / 1000;
      }
    }
  }

  // ---------------------------------------------------------------- cluster buckets

  /** The rows below u thousandths of n: u * n / 1000, rounded up. */
  function ClusterPrefix(n: nat, u: nat): nat { (u * n + 999) / 1000 }

  lemma QuotientBelow(x: nat, n: nat, u: nat)
    requires n >= 1
    ensures x / n < u <==> x < u * n
  {
    var q, r := x / n, x % n;
    assert x == q * n + r;
    if q < u {
      MulAtLeast(u - q, n);
      Distribute(u, q, n);
    } else if q > u {
      MulAtLeast(q - u, n);
      Distribute(q, u, n);
    }
  }

  /** A range on the cluster bucket selects exactly the rows before the prefix. */
  lemma ClusterIsPrefix(row: nat, n: nat, u: nat)
    requires row < n && u <= 1000
    ensures ClusterBucket(row, n) < u <==> row < ClusterPrefix(n, u)
  {
    QuotientBelow(row * 1000, n, u);
    QuotientBelow(row * 1000, n, 1000);
  }

  lemma PrefixFits(n: nat, u: nat)
    requires u <= 1000
    ensures ClusterPrefix(n, u) <= n
  {
    Distribute(1000, u, n);
    assert (1000 - u) * n >= 0;
  }

  lemma {:induction false} ClusterCount(k: nat, n: nat, u: nat)
    requires k <= n && u <= 1000
    ensures CountClusterBelow(k, n, u) == if k < ClusterPrefix(n, u) then k else ClusterPrefix(n, u)
  {
    if k > 0 {
      ClusterCount(k - 1, n, u);
      ClusterIsPrefix(k - 1, n, u);
    }
  }

  /** It selects u * n / 1000 rows, rounded up. */
  lemma ClusterBelowSize(n: nat, u: nat)
    requires u <= 1000
    ensures CountClusterBelow(n, n, u) == ClusterPrefix(n, u) <= n
  {
    ClusterCount(n, n, u);
    PrefixFits(n, u);
  }

  // ---------------------------------------------------------------- path scopes

  const LETTERS := ["g", "h", "i"]

  /** The three directories of a row below "docs", by its last three decimal digits. */
  function Branch(digits: seq<nat>): seq<string>
    requires |digits| <= 3
  {
    seq(|digits|, k requires 0 <= k < |digits| => LETTERS[k] + Decimal(digits[k]))
  }

  function RowBranch(row: nat): seq<string> {
    Branch([row % 10, (row / 10) % 10, (row / 100) % 10])
  }

  /** `make_record`: the uri of a row. */
  function RowPath(row: nat): string {
    PathOf(["docs"] + RowBranch(row) + ["item-" + Decimal(row)])
  }

  /** The path scopes `/docs/g0`, `/docs/g0/h0` and `/docs/g0/h0/i0`, for k from 1 to 3. */
  function ScopePath(k: nat): string
    requires 1 <= k <= 3
  {
    PathOf(["docs"] + Branch([0, 0, 0][..k]))
  }

  lemma BranchOfZeros()
    ensures Branch([0, 0, 0][..1]) == ["g0"]
    ensures Branch([0, 0, 0][..2]) == ["g0", "h0"]
    ensures Branch([0, 0, 0][..3]) == ["g0", "h0", "i0"]
  {
    assert Decimal(0) == "0";
    assert "g" + "0" == "g0" && "h" + "0" == "h0" && "i" + "0" == "i0";
  }

  lemma JoinMore(head: string, rest: seq<string>)
    requires rest != []
    ensures Join([head] + rest, '/') == head + "/" + Join(rest, '/')
  {
    assert ([head] + rest)[1..] == rest;
  }

  lemma PathTexts()
    ensures PathOf(["docs"] + ["g0"]) == "/docs/g0"
    ensures PathOf(["docs"] + ["g0", "h0"]) == "/docs/g0/h0"
    ensures PathOf(["docs"] + ["g0", "h0", "i0"]) == "/docs/g0/h0/i0"
  {
    assert Join(["g0"], '/') == "g0" && Join(["h0"], '/') == "h0" && Join(["i0"], '/') == "i0";
    assert Join(["g0", "h0"], '/') == "g0/h0" by { JoinMore("g0", ["h0"]); }
    assert Join(["h0", "i0"], '/') == "h0/i0" by { JoinMore("h0", ["i0"]); }
    assert Join(["g0", "h0", "i0"], '/') == "g0/h0/i0" by {
      JoinMore("g0", ["h0", "i0"]);
      assert ["g0"] + ["h0", "i0"] == ["g0", "h0", "i0"];
    }
    JoinMore("docs", ["g0"]);
    JoinMore("docs", ["g0", "h0"]);
    JoinMore("docs", ["g0", "h0", "i0"]);
  }

  lemma ScopePathText()
    ensures ScopePath(1) == "/docs/g0" && ScopePath(2) == "/docs/g0/h0" && ScopePath(3) == "/docs/g0/h0/i0"
  {
    BranchOfZeros();
    PathTexts();
  }

  lemma RowDigits(row: nat)
    ensures Digits(row, 3, 10) == [row % 10, (row / 10) % 10, (row / 100) % 10]
  {
    assert (row / 10) / 10 == row / 100;
    assert Digits(row / 100, 1, 10) == [(row / 100) % 10];
    assert Digits(row / 10, 2, 10) == [(row / 10) % 10, (row / 100) % 10];
  }

  /** A plain word followed by a number is a segment. */
  lemma WordSegment(word: string, n: nat)
    requires word in LETTERS || word == "item-"
    ensures Segment(word + Decimal(n))
  {
    var s := word + Decimal(n);
    assert s[0] == word[0] && s[|s| - 1] == Decimal(n)[|Decimal(n)| - 1];
    forall k | 0 <= k < |s|
      ensures s[k] != '/' && s[k] != ';'
    {
      if k < |word| {
        assert s[k] == word[k];
      } else {
        assert s[k] == Decimal(n)[k - |word|];
      }
    }
  }

  lemma BranchSegments(digits: seq<nat>)
    requires |digits| <= 3
    ensures Segments(Branch(digits)) && Segments(["docs"] + Branch(digits))
  {
    forall k | 0 <= k < |digits|
      ensures Segment(Branch(digits)[k])
    {
      WordSegment(LETTERS[k], digits[k]);
    }
  }

  lemma LetterInjective(word: string, m: nat, n: nat)
    requires word + Decimal(m) == word + Decimal(n)
    ensures m == n
  {
    assert (word + Decimal(m))[|word|..] == Decimal(m) && (word + Decimal(n))[|word|..] == Decimal(n);
    DecimalInjective(m, n);
  }

  /** Branches share their first k directories exactly when the digits do. */
  lemma BranchPrefix(a: seq<nat>, b: seq<nat>, k: nat, last: string)
    requires |a| == 3 && |b| == 3 && k <= 3
    ensures ["docs"] + Branch(b[..k]) <= ["docs"] + Branch(a) + [last] <==> b[..k] == a[..k]
  {
    var p, q := ["docs"] + Branch(b[..k]), ["docs"] + Branch(a) + [last];
    if p <= q {
      forall j | 0 <= j < k
        ensures a[j] == b[j]
      {
        assert p[j + 1] == q[j + 1];
        LetterInjective(LETTERS[j], b[j], a[j]);
      }
    }
    if b[..k] == a[..k] {
      forall j | 0 <= j < |p|
        ensures p[j] == q[j]
      {
        assert j > 0 ==> b[..k][j - 1] == a[..k][j - 1];
      }
    }
  }

  lemma DigitsOfZero(k: nat)
    requires k <= 3
    ensures Digits(0, 3, 10)[..k] == [0, 0, 0][..k]
  {
    RowDigits(0);
  }

  /** A path scope of k directories below "docs" selects exactly the rows divisible by 10^k. */
  lemma PathScopeSelects(row: nat, k: nat)
    requires 1 <= k <= 3
    ensures Pow(10, k) >= 1
    ensures Under(RowPath(row), ScopePath(k)) <==> row % Pow(10, k) == 0
  {
    var zeros: seq<nat> := [0, 0, 0];
    var digits: seq<nat> := [row % 10, (row / 10) % 10, (row / 100) % 10];
    var last := "item-" + Decimal(row);
    var a, b := ["docs"] + Branch(digits) + [last], ["docs"] + Branch(zeros[..k]);
    BranchSegments(digits);
    BranchSegments(zeros[..k]);
    WordSegment("item-", row);
    UnderIsPrefix(a, b);
    PathIsSlashed(a);
    PathIsSlashed(b);
    BranchPrefix(digits, zeros, k, last);
    RowDigits(row);
    DigitsOfZero(k);
    DigitsDetermineResidue(row, 0, 3, 10, k);
  }

  /** The 0.1% path scope selects exactly the rows of uniform bucket 0. */
  lemma PathScopeIsBucketZero(row: nat)
    ensures Under(RowPath(row), ScopePath(3)) <==> UniformBucket(row) == 0
  {
    PathScopeSelects(row, 3);
    assert Pow(10, 3) == 1000;
  }
}
