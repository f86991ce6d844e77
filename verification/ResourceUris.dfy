/**
 `resource_uri`, `safe_uri_segment` and `synthetic_path`: where a record lives,
 which scope a query asks for, and which records that scope selects.
 */
module ResourceUris {
  import opened Wrappers
  import opened PyText
  import opened Paths
  import opened Arithmetic

  // ---------------------------------------------------------------- URIs

  /** `safe_uri_segment`; `alnum` is the set of characters for which `str.isalnum` holds. */
  function SafeChars(s: string, alnum: set<char>): (r: string)
    ensures |r| == |s|
  {
    if s == "" then ""
    else [if s[0] in alnum || s[0] == '_' || s[0] == '-' || s[0] == '.' then s[0] else '_'] + SafeChars(s[1..], alnum)
  }

  function SafeSegment(value: string, alnum: set<char>): (r: string)
    ensures r != ""
  {
    var text := SafeChars(Strip(value), alnum);
    if text == "" then "item" else text
  }

  /** What `str.isalnum` never accepts. */
  ghost predicate AlnumOk(alnum: set<char>) { forall c | c in alnum :: c != '/' && c != ';' && !IsSpace(c) }

  /** Every record id becomes a well-formed segment. */
  lemma SafeIsSegment(value: string, alnum: set<char>)
    requires AlnumOk(alnum)
    ensures Segment(SafeSegment(value, alnum))
  {
    SafeCharsKept(Strip(value), alnum);
  }

  lemma {:induction false} SafeCharsKept(s: string, alnum: set<char>)
    requires AlnumOk(alnum)
    ensures forall k | 0 <= k < |s| ::
              var c := SafeChars(s, alnum)[k]; c != '/' && c != ';' && !IsSpace(c)
  {
    if s != "" { SafeCharsKept(s[1..], alnum); }
  }

  function Base(dataset: string, alnum: set<char>): string {
    "viking://resources/bench/" + SafeSegment(dataset, alnum)
  }

  /** `resource_uri` */
  function ResourceUri(dataset: string, path: string, id: Option<string>, alnum: set<char>): string {
    var suffix := StripSlashes(NormalizePath(Split(if path == "" then "/" else path, ';')[0]));
    var base := Base(dataset, alnum) + (if suffix == "" then "" else "/" + suffix);
    base + (if id.None? then "" else "/" + SafeSegment(id.value, alnum))
  }

  /** Allowed characters stay as they are, all others become underscores. */
  lemma {:induction false} SafeCharsAt(s: string, alnum: set<char>, k: nat)
    requires k < |s|
    ensures SafeChars(s, alnum)[k] == if s[k] in alnum || s[k] in "_-." then s[k] else '_'
  {
    if k > 0 {
      SafeCharsAt(s[1..], alnum, k - 1);
    } else {
      assert "_-."[0] == '_' && "_-."[1] == '-' && "_-."[2] == '.';
    }
  }

  /** A segment is its value without the spaces around it, character by character; "item" stands for none. */
  lemma SafeSegmentIs(value: string, alnum: set<char>)
    ensures var text, r := Strip(value), SafeSegment(value, alnum);
      if text == "" then r == "item"
      else |r| == |text| && forall k | 0 <= k < |text| ::
             r[k] == if text[k] in alnum || text[k] in "_-." then text[k] else '_'
  {
    var text := Strip(value);
    forall k | 0 <= k < |text|
      ensures SafeChars(text, alnum)[k] == if text[k] in alnum || text[k] in "_-." then text[k] else '_'
    {
      SafeCharsAt(text, alnum, k);
    }
  }

  lemma SuffixOfPath(segs: seq<string>)
    requires Segments(segs)
    ensures Split(PathOf(segs), ';') == [PathOf(segs)]
    ensures StripSlashes(NormalizePath(PathOf(segs))) == Join(segs, '/')
  {
    NormalizeWellFormed(segs);
    if segs == [] {
      assert DropLeft("/", Slashes) == "";
    } else {
      JoinEnds(segs);
      var j := Join(segs, '/');
      assert ("/" + j)[1..] == j;
      assert DropLeft("/" + j, Slashes) == j;
    }
    SplitWhole(PathOf(segs), ';');
  }

  /** The URI of a well-formed path is the base followed by its segments. */
  lemma UriIsSlashed(dataset: string, segs: seq<string>, id: Option<string>, alnum: set<char>)
    requires Segments(segs)
    ensures ResourceUri(dataset, PathOf(segs), id, alnum)
         == Base(dataset, alnum) + Slashed(if id.None? then segs else segs + [SafeSegment(id.value, alnum)])
  {
    ScopeIsSlashed(dataset, segs, alnum);
    if id.Some? {
      SlashedAppend(segs, SafeSegment(id.value, alnum));
      UriWithId(dataset, PathOf(segs), id.value, alnum);
      LastSlash(Base(dataset, alnum), Slashed(segs), SafeSegment(id.value, alnum));
    }
  }

  lemma UriWithId(dataset: string, path: string, id: string, alnum: set<char>)
    ensures ResourceUri(dataset, path, Some(id), alnum) == ResourceUri(dataset, path, None, alnum) + ("/" + SafeSegment(id, alnum))
  {
    assert ResourceUri(dataset, path, None, alnum) + "" == ResourceUri(dataset, path, None, alnum);
  }

  lemma LastSlash(base: string, dirs: string, last: string)
    ensures (base + dirs) + ("/" + last) == base + (dirs + "/" + last)
  {
  }

  lemma ScopeIsSlashed(dataset: string, segs: seq<string>, alnum: set<char>)
    requires Segments(segs)
    ensures ResourceUri(dataset, PathOf(segs), None, alnum) == Base(dataset, alnum) + Slashed(segs)
  {
    SuffixOfPath(segs);
    if segs != [] {
      JoinEnds(segs);
      PathIsSlashed(segs);
    }
  }

  lemma UnderBase(base: string, p: string, q: string)
    ensures Under(base + p, base + q) <==> Under(p, q)
  {
    assert base + q + "/" == base + (q + "/");
    assert (base + p)[|base|..] == p && (base + q)[|base|..] == q;
    if |q + "/"| <= |p| {
      assert (base + p)[..|base + (q + "/")|] == base + p[..|q + "/"|];
      assert (base + (q + "/"))[|base|..] == q + "/" && (base + p[..|q + "/"|])[|base|..] == p[..|q + "/"|];
    }
  }

  /** A record passes a scope exactly when the scope's segments begin its path and id. */
  lemma RecordUnderScope(dataset: string, path: seq<string>, id: string, scope: seq<string>, alnum: set<char>)
    requires Segments(path) && Segments(scope) && AlnumOk(alnum)
    ensures Under(ResourceUri(dataset, PathOf(path), Some(id), alnum), ResourceUri(dataset, PathOf(scope), None, alnum))
       <==> scope <= path + [SafeSegment(id, alnum)]
  {
    var full := path + [SafeSegment(id, alnum)];
    SafeIsSegment(id, alnum);
    UriIsSlashed(dataset, path, Some(id), alnum);
    UriIsSlashed(dataset, scope, None, alnum);
    UnderBase(Base(dataset, alnum), Slashed(full), Slashed(scope));
    UnderIsPrefix(full, scope);
  }

  // ---------------------------------------------------------------- synthetic paths

  function Pow(base: nat, n: nat): nat { if n == 0 then 1 else base * Pow(base, n - 1) }

  function AtLeast(low: int, n: int): int { if n > low then n else low }

  /** One directory of a synthetic path. */
  function Directory(level: nat, digit: nat): string { "d" + Decimal(level) + "_" + Decimal(digit) }

  /** The `count` lowest digits of `index` in radix `fanout`, lowest first. */
  function Digits(index: nat, count: nat, fanout: nat): (digits: seq<nat>)
    requires fanout >= 1
    ensures |digits| == count
    decreases count
  {
    if count == 0 then [] else [index % fanout] + Digits(index / fanout, count - 1, fanout)
  }

  /** One directory for each digit. */
  function Directories(digits: seq<nat>, level: nat): (dirs: seq<string>)
    ensures |dirs| == |digits|
  {
    if digits == [] then [] else [Directory(level, digits[0])] + Directories(digits[1..], level + 1)
  }

  /** The directories of `synthetic_path`. */
  function RowDirectories(index: nat, depth: int, fanout: int): seq<string> {
    Directories(Digits(index, AtLeast(1, depth), AtLeast(1, fanout)), 0)
  }

  lemma {:induction false} DirectoriesAppend(digits: seq<nat>, level: nat, d: nat)
    ensures Directories(digits + [d], level) == Directories(digits, level) + [Directory(level + |digits|, d)]
    decreases |digits|
  {
    if digits == [] {
      assert [d][1..] == [];
    } else {
      assert (digits + [d])[1..] == digits[1..] + [d];
      DirectoriesAppend(digits[1..], level + 1, d);
    }
  }

  /** The next digit of a number, and what is left of it. */
  method NextDigit(value: nat, ghost count: nat, fanout: nat) returns (digit: nat, rest: nat)
    requires fanout >= 1 && count > 0
    ensures Digits(value, count, fanout) == [digit] + Digits(rest, count - 1, fanout)
  {
    digit, rest := value % fanout, value / fanout;
  }

  /** The loop of `synthetic_path`. */
  method BuildDirectories(index: nat, d: nat, f: nat) returns (parts: seq<string>)
    requires f >= 1
    ensures parts == Directories(Digits(index, d, f), 0)
  {
    parts := [];
    var value := index;
    ghost var digits: seq<nat>, left := [], Digits(index, d, f);
    for level := 0 to d
      invariant |digits| == level && parts == Directories(digits, 0)
      invariant left == Digits(value, d - level, f) && digits + left == Digits(index, d, f)
    {
      var digit, rest := NextDigit(value, d - level, f);
      DirectoriesAppend(digits, 0, digit);
      parts := parts + [Directory(level, digit)];
      assert digits + left == digits + [digit] + left[1..];
      digits, left := digits + [digit], left[1..];
      value := rest;
    }
    assert digits + left == digits;
  }

  /** `synthetic_path` */
  method SyntheticPath(index: nat, depth: int, fanout: int) returns (path: string)
    ensures path == PathOf(RowDirectories(index, depth, fanout))
  {
    var parts := BuildDirectories(index, AtLeast(1, depth), AtLeast(1, fanout));
    path := PathOf(parts);
  }

  lemma DirectorySegment(level: nat, digit: nat)
    ensures Segment(Directory(level, digit))
  {
    var s := Directory(level, digit);
    assert s[|s| - 1] == Decimal(digit)[|Decimal(digit)| - 1];
    forall k | 0 <= k < |s| ensures s[k] != '/' && s[k] != ';' {
      var l := "d" + Decimal(level);
      if k == 0 {
      } else if k < |l| {
        assert s[k] == Decimal(level)[k - 1];
      } else if k > |l| {
        assert s[k] == Decimal(digit)[k - |l| - 1];
      }
    }
  }

  lemma DirectoryInjective(level: nat, m: nat, n: nat)
    requires Directory(level, m) == Directory(level, n)
    ensures m == n
  {
    var l := "d" + Decimal(level) + "_";
    assert (l + Decimal(m))[|l|..] == Decimal(m) && (l + Decimal(n))[|l|..] == Decimal(n);
    DecimalInjective(m, n);
  }

  lemma {:induction false} DirectoriesAreSegments(digits: seq<nat>, level: nat)
    ensures Segments(Directories(digits, level))
    decreases |digits|
  {
    if digits != [] {
      DirectorySegment(level, digits[0]);
      DirectoriesAreSegments(digits[1..], level + 1);
    }
  }

  lemma {:induction false} DirectoriesDetermineDigits(a: seq<nat>, b: seq<nat>, level: nat, k: nat)
    requires k <= |a| && k <= |b|
    ensures Directories(a, level)[..k] == Directories(b, level)[..k] <==> a[..k] == b[..k]
    decreases k
  {
    if k > 0 {
      DirectoriesDetermineDigits(a[1..], b[1..], level + 1, k - 1);
      var x, y := Directories(a, level), Directories(b, level);
      assert x[..k] == [x[0]] + x[1..][..k - 1] && y[..k] == [y[0]] + y[1..][..k - 1];
      assert a[..k] == [a[0]] + a[1..][..k - 1] && b[..k] == [b[0]] + b[1..][..k - 1];
      if x[..k] == y[..k] {
        assert x[..k][0] == y[..k][0] && x[..k][1..] == y[..k][1..];
        DirectoryInjective(level, a[0], b[0]);
      }
      if a[..k] == b[..k] {
        assert a[..k][0] == b[..k][0] && a[..k][1..] == b[..k][1..];
      }
    }
  }

  lemma PowPositive(base: nat, n: nat)
    requires base >= 1
    ensures Pow(base, n) >= 1
  {
    if n > 0 {
      PowPositive(base, n - 1);
      ProductPositive(base, Pow(base, n - 1));
    }
  }

  lemma {:induction false} DigitsDetermineResidue(i: nat, j: nat, count: nat, fanout: nat, k: nat)
    requires fanout >= 1 && k <= count
    ensures Pow(fanout, k) >= 1
    ensures Digits(i, count, fanout)[..k] == Digits(j, count, fanout)[..k] <==> i % Pow(fanout, k) == j % Pow(fanout, k)
    decreases k
  {
    PowPositive(fanout, k);
    if k > 0 {
      var m := Pow(fanout, k - 1);
      PowPositive(fanout, k - 1);
      DigitsDetermineResidue(i / fanout, j / fanout, count - 1, fanout, k - 1);
      ModOfProduct(i, fanout, m);
      ModOfProduct(j, fanout, m);
      DigitsDetermine(i % fanout, j % fanout, (i / fanout) % m, (j / fanout) % m, fanout);
      var a, b := Digits(i, count, fanout), Digits(j, count, fanout);
      assert a[..k] == [a[0]] + a[1..][..k - 1] && b[..k] == [b[0]] + b[1..][..k - 1];
      if a[..k] == b[..k] {
        assert a[..k][0] == b[..k][0] && a[..k][1..] == b[..k][1..];
      }
    }
  }

  /** Two rows share their first k directories exactly when their indices agree modulo fanout^k. */
  lemma SharedDirectories(i: nat, j: nat, depth: int, fanout: int, k: nat)
    requires k <= AtLeast(1, depth)
    ensures Pow(AtLeast(1, fanout), k) >= 1
    ensures RowDirectories(i, depth, fanout)[..k] == RowDirectories(j, depth, fanout)[..k]
       <==> i % Pow(AtLeast(1, fanout), k) == j % Pow(AtLeast(1, fanout), k)
  {
    var d: nat, f: nat := AtLeast(1, depth), AtLeast(1, fanout);
    DigitsDetermineResidue(i, j, d, f, k);
    DirectoriesDetermineDigits(Digits(i, d, f), Digits(j, d, f), 0, k);
  }

  /** Below fanout^depth the rows have different paths. */
  lemma SyntheticPathsDiffer(i: nat, j: nat, depth: int, fanout: int)
    requires i < Pow(AtLeast(1, fanout), AtLeast(1, depth)) && j < Pow(AtLeast(1, fanout), AtLeast(1, depth))
    requires PathOf(RowDirectories(i, depth, fanout)) == PathOf(RowDirectories(j, depth, fanout))
    ensures i == j
  {
    var d: nat, f: nat := AtLeast(1, depth), AtLeast(1, fanout);
    var a, b := RowDirectories(i, depth, fanout), RowDirectories(j, depth, fanout);
    DirectoriesAreSegments(Digits(i, d, f), 0);
    DirectoriesAreSegments(Digits(j, d, f), 0);
    PartsOfPath(a);
    PartsOfPath(b);
    assert a[..d] == b[..d];
    SharedDirectories(i, j, depth, fanout, d);
    DivModUnique(i, Pow(f, d), 0, i);
    DivModUnique(j, Pow(f, d), 0, j);
  }

  // ---------------------------------------------------------------- what a scope selects

  /** The scope of the query made from row `source`. */
  function ScopeUri(source: nat, segments: int, depth: int, fanout: int, alnum: set<char>): string {
    ResourceUri("synthetic", PathPrefix(PathOf(RowDirectories(source, depth, fanout)), segments), None, alnum)
  }

  /** The URI of row `row`, whose id is `syn-<row>`. */
  function RowUri(row: nat, depth: int, fanout: int, alnum: set<char>): string {
    ResourceUri("synthetic", PathOf(RowDirectories(row, depth, fanout)), Some("syn-" + Decimal(row)), alnum)
  }

  /** A scope of k directories selects exactly the rows congruent to its source modulo fanout^k. */
  lemma ScopeSelectsResidue(source: nat, row: nat, k: nat, depth: int, fanout: int, alnum: set<char>)
    requires 1 <= k <= AtLeast(1, depth)
    requires AlnumOk(alnum)
    ensures Pow(AtLeast(1, fanout), k) >= 1
    ensures Under(RowUri(row, depth, fanout, alnum), ScopeUri(source, k, depth, fanout, alnum))
       <==> row % Pow(AtLeast(1, fanout), k) == source % Pow(AtLeast(1, fanout), k)
  {
    var d: nat, f: nat := AtLeast(1, depth), AtLeast(1, fanout);
    var a, b := RowDirectories(row, depth, fanout), RowDirectories(source, depth, fanout);
    DirectoriesAreSegments(Digits(row, d, f), 0);
    DirectoriesAreSegments(Digits(source, d, f), 0);
    PrefixOfPath(b, k);
    var id := "syn-" + Decimal(row);
    RecordUnderScope("synthetic", a, id, b[..k], alnum);
    SharedDirectories(row, source, depth, fanout, k);
    PrefixOfExtended(b[..k], a, SafeSegment(id, alnum));
  }

  lemma PrefixOfExtended(p: seq<string>, a: seq<string>, last: string)
    requires |p| <= |a|
    ensures p <= a + [last] <==> p == a[..|p|]
  {
    assert (a + [last])[..|p|] == a[..|p|];
  }

  /** How many of the rows 0 to n - 1 are congruent to r modulo m. */
  function CountResidue(n: nat, m: nat, r: nat): nat
    requires m >= 1
  {
    if n == 0 then 0 else CountResidue(n - 1, m, r) + if (n - 1) % m == r then 1 else 0
  }

  /** A residue class is counted by division: the scope of row r selects ceil((n - r) / m) of n rows. */
  lemma {:induction false} ResidueClassSize(n: nat, m: nat, r: nat)
    requires r < m
    ensures CountResidue(n, m, r) == (n + m - 1 - r) / m
  {
    if n == 0 {
      DivModUnique(m - 1 - r, m, 0, m - 1 - r);
    } else {
      ResidueClassSize(n - 1, m, r);
      var q, s := (n - 1) / m, (n - 1) % m;
      assert n - 1 == q * m + s;
      assert (q + 1) * m == q * m + m;
      if s < r {
        DivModUnique(n + m - 2 - r, m, q, s + m - 1 - r);
        DivModUnique(n + m - 1 - r, m, q, s + m - r);
      } else if s == r {
        DivModUnique(n + m - 2 - r, m, q, m - 1);
        DivModUnique(n + m - 1 - r, m, q + 1, 0);
      } else {
        DivModUnique(n + m - 2 - r, m, q + 1, s - r - 1);
        DivModUnique(n + m - 1 - r, m, q + 1, s - r);
      }
    }
  }

  /** The rows of a residue class. */
  ghost function ResidueRows(n: nat, m: nat, r: nat): set<nat>
    requires m >= 1
  {
    set row: nat | row < n && row % m == r
  }

  lemma {:induction false} ResidueRowsCounted(n: nat, m: nat, r: nat)
    requires m >= 1
    ensures |ResidueRows(n, m, r)| == CountResidue(n, m, r)
  {
    if n > 0 {
      ResidueRowsCounted(n - 1, m, r);
      var past, all := ResidueRows(n - 1, m, r), ResidueRows(n, m, r);
      assert all == if (n - 1) % m == r then past + {n - 1} else past;
    }
  }

  /** The rows, out of the first n, that lie under the scope of the query made from row `source`. */
  ghost function ScopeRows(n: nat, source: nat, k: nat, depth: int, fanout: int, alnum: set<char>): set<nat> {
    set row: nat | row < n && Under(RowUri(row, depth, fanout, alnum), ScopeUri(source, k, depth, fanout, alnum))
  }

  lemma ScopeRowsAreClass(n: nat, source: nat, k: nat, depth: int, fanout: int, alnum: set<char>, m: nat)
    requires 1 <= k <= AtLeast(1, depth) && AlnumOk(alnum)
    requires m == Pow(AtLeast(1, fanout), k) && m >= 1
    ensures ScopeRows(n, source, k, depth, fanout, alnum) == ResidueRows(n, m, source % m)
  {
    forall row: nat
      ensures row in ScopeRows(n, source, k, depth, fanout, alnum) <==> row in ResidueRows(n, m, source % m)
    {
      ScopeSelectsResidue(source, row, k, depth, fanout, alnum);
    }
  }

  /** Of n rows a scope of k directories selects ceil((n - r) / fanout^k), r being its source's residue. */
  lemma ScopeSize(n: nat, source: nat, k: nat, depth: int, fanout: int, alnum: set<char>, m: nat)
    requires 1 <= k <= AtLeast(1, depth) && AlnumOk(alnum)
    requires m == Pow(AtLeast(1, fanout), k) && m >= 1
    ensures |ScopeRows(n, source, k, depth, fanout, alnum)| == CountResidue(n, m, source % m) == (n + m - 1 - source % m) / m
  {
    ScopeRowsAreClass(n, source, k, depth, fanout, alnum, m);
    ResidueRowsCounted(n, m, source % m);
    ResidueClassSize(n, m, source % m);
  }
}
