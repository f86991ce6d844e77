/**
 The directory paths of the vector workload: normalising, splitting and prefix matching, with their
 laws over well-formed segments.
 */
module Paths {
  import opened Wrappers
  import opened PyText

  const SCHEME := "viking://"

  /** `normalize_path` on a string */
  function NormalizePath(path: string): string {
    var stripped := Strip(path);
    if stripped == "" then "/"
    else
      var rooted :=
        if StartsWith(stripped, SCHEME) then "/" + StripSlashes(stripped[|SCHEME|..])
        else if !StartsWith(stripped, "/") then "/" + stripped
        else stripped;
      if |rooted| > 1 then DropRight(rooted, Slashes) else rooted
  }

  function NonEmpty(parts: seq<string>): seq<string> {
    if parts == [] then []
    else if parts[0] == "" then NonEmpty(parts[1..])
    else [parts[0]] + NonEmpty(parts[1..])
  }

  /** `path_parts` */
  function PathParts(path: string): seq<string> {
    NonEmpty(Split(StripSlashes(NormalizePath(path)), '/'))
  }

  /** The path of the given segments: `"/" + "/".join(segments)`. */
  function PathOf(segments: seq<string>): string { "/" + Join(segments, '/') }

  /** `path_prefix` */
  function PathPrefix(path: string, segments: int): string {
    var parts := NonEmpty(Split(StripSlashes(path), '/'));
    if parts == [] then "/"
    else
      var n := if segments < |parts| then segments else |parts|;
      PathOf(parts[..if n > 1 then n else 1])
  }

  /** The test on normalised paths: the prefix itself, or something below it. */
  predicate MatchesNormal(path: string, wanted: string) {
    path == wanted || StartsWith(path, DropRight(wanted, Slashes) + "/")
  }

  predicate MatchesOne(item: string, prefix: string) { MatchesNormal(NormalizePath(item), NormalizePath(prefix)) }

  predicate MatchesAny(items: seq<string>, prefix: string) {
    items != [] && (MatchesOne(items[0], prefix) || MatchesAny(items[1..], prefix))
  }

  /** `path_matches`: one of the paths between semicolons lies under the prefix. */
  method PathMatches(pathValue: string, prefix: string) returns (found: bool)
    ensures found <==> MatchesAny(Split(pathValue, ';'), prefix)
  {
    var paths := Split(pathValue, ';');
    var normalizedPrefix := NormalizePath(prefix);
    for i := 0 to |paths|
      invariant MatchesAny(paths[i..], prefix) == MatchesAny(paths, prefix)
    {
      assert paths[i..][0] == paths[i] && paths[i..][1..] == paths[i + 1..];
      if MatchesNormal(NormalizePath(paths[i]), normalizedPrefix) { return true; }
    }
    found := false;
  }

  // ---------------------------------------------------------------- well-formed paths

  /** Not empty, no separator, no space at either end. */
  predicate Segment(s: string) {
    s != "" && '/' !in s && ';' !in s && !IsSpace(s[0]) && !IsSpace(s[|s| - 1])
  }

  ghost predicate Segments(segs: seq<string>) { forall i | 0 <= i < |segs| :: Segment(segs[i]) }

  /** Each segment after a slash; the path of a non-empty list. */
  function Slashed(segs: seq<string>): string {
    if segs == [] then "" else "/" + segs[0] + Slashed(segs[1..])
  }

  lemma {:induction false} PathIsSlashed(segs: seq<string>)
    requires segs != []
    ensures PathOf(segs) == Slashed(segs)
    decreases |segs|
  {
    if |segs| > 1 {
      PathIsSlashed(segs[1..]);
      assert PathOf(segs) == "/" + segs[0] + PathOf(segs[1..]);
    }
  }

  lemma {:induction false} SlashedAppend(segs: seq<string>, s: string)
    ensures Slashed(segs + [s]) == Slashed(segs) + "/" + s
    decreases |segs|
  {
    if segs == [] {
      assert Slashed([s]) == "/" + s + Slashed([]);
    } else {
      assert (segs + [s])[1..] == segs[1..] + [s];
      SlashedAppend(segs[1..], s);
    }
  }

  lemma {:induction false} JoinEnds(segs: seq<string>)
    requires segs != [] && Segments(segs)
    ensures var j := Join(segs, '/'); j != "" && j[0] != '/' && !IsSpace(j[|j| - 1]) && j[|j| - 1] != '/' && ';' !in j
    decreases |segs|
  {
    assert Segment(segs[0]);
    if |segs| > 1 { JoinEnds(segs[1..]); }
  }

  /** A well-formed path is its own normal form. */
  lemma NormalizeWellFormed(segs: seq<string>)
    requires Segments(segs)
    ensures NormalizePath(PathOf(segs)) == PathOf(segs)
  {
    if segs == [] {
      assert Strip("/") == "/";
    } else {
      JoinEnds(segs);
      var p := PathOf(segs);
      assert Strip(p) == p;
      assert p[0] == '/' && SCHEME[0] == 'v' && p[..|"/"|] == "/";
    }
  }

  lemma {:induction false} NonEmptyKeepsAll(parts: seq<string>)
    requires "" !in parts
    ensures NonEmpty(parts) == parts
  {
    if parts != [] { NonEmptyKeepsAll(parts[1..]); }
  }

  lemma SplitWellFormed(segs: seq<string>)
    requires Segments(segs)
    ensures NonEmpty(Split(StripSlashes(PathOf(segs)), '/')) == segs
  {
    if segs == [] {
      assert DropLeft("/", Slashes) == "";
    } else {
      JoinEnds(segs);
      var j := Join(segs, '/');
      assert ("/" + j)[1..] == j;
      assert DropLeft("/" + j, Slashes) == j;
      SplitJoin(segs, '/');
      NonEmptyKeepsAll(segs);
    }
  }

  /** Splitting a well-formed path gives back its segments. */
  lemma PartsOfPath(segs: seq<string>)
    requires Segments(segs)
    ensures PathParts(PathOf(segs)) == segs
  {
    NormalizeWellFormed(segs);
    SplitWellFormed(segs);
  }

  /** The first segments of a well-formed path. */
  lemma PrefixOfPath(segs: seq<string>, n: int)
    requires Segments(segs) && 1 <= n <= |segs|
    ensures PathPrefix(PathOf(segs), n) == PathOf(segs[..n])
  {
    SplitWellFormed(segs);
  }

  // ---------------------------------------------------------------- normalising twice

  /** A normal form starts with a slash, unless everything was stripped away, and ends with none. */
  lemma NormalForm(path: string)
    ensures var q := NormalizePath(path); q == "" || q == "/" || (q[0] == '/' && q[|q| - 1] != '/')
  {
    var stripped := Strip(path);
    if stripped != "" && StartsWith(stripped, "/") { assert stripped[0] == "/"[0]; }
  }

  lemma NormalizeAgain(q: string)
    requires q != "" && q[0] == '/' && (|q| > 1 ==> q[|q| - 1] != '/')
    ensures NormalizePath(q) == q <==> !IsSpace(q[|q| - 1])
  {
    var stripped := Strip(q);
    assert DropLeft(q, Blanks) == q && stripped == q[..|stripped|];
    assert SCHEME[0] == 'v';
    if stripped != "" { assert stripped[0] == '/' && stripped[..|"/"|] == "/"; }
  }

  /** Normalising is idempotent exactly where the first result is neither empty nor ends in a space. */
  lemma StableForm(path: string)
    ensures NormalizePath(NormalizePath(path)) == NormalizePath(path) <==> EndsTight(NormalizePath(path))
  {
    NormalForm(path);
    if NormalizePath(path) == "" {
      assert Strip("") == "";
    } else {
      NormalizeAgain(NormalizePath(path));
    }
  }

  lemma {:induction false} DropRightCons(c: char, s: string)
    ensures DropRight([c] + s, Slashes)
         == if DropRight(s, Slashes) != "" then [c] + DropRight(s, Slashes) else if c == '/' then "" else [c]
    decreases |s|
  {
    var t := [c] + s;
    if s == "" {
      assert t[..|t| - 1] == "";
    } else if s[|s| - 1] == '/' {
      assert t[..|t| - 1] == [c] + s[..|s| - 1];
      DropRightCons(c, s[..|s| - 1]);
    }
  }

  /** Slashes at the front do not matter for what stands before those at the end. */
  lemma {:induction false} StripSlashesEnd(s: string)
    ensures var a, b := StripSlashes(s), DropRight(s, Slashes);
      (a == "" <==> b == "") && (a != "" ==> a[|a| - 1] == b[|b| - 1])
    decreases |s|
  {
    if s != "" && s[0] == '/' {
      assert s == [s[0]] + s[1..];
      DropRightCons(s[0], s[1..]);
      StripSlashesEnd(s[1..]);
    }
  }

  /** What is left of a text's end: no two or more bare slashes, and no space before its last slashes. */
  predicate Stable(path: string) {
    var s := Strip(path);
    var named := StartsWith(s, SCHEME);
    var trimmed := DropRight(if named then s[|SCHEME|..] else s, Slashes);
    if trimmed == "" then named || |s| <= 1 else !IsSpace(trimmed[|trimmed| - 1])
  }

  /** The normal form of a text without the scheme ends as the text without its last slashes. */
  lemma PlainEnd(s: string)
    requires s != ""
    ensures var r := if StartsWith(s, "/") then s else "/" + s; var b := DropRight(s, Slashes);
      && |r| >= 1
      && (if |r| > 1 then DropRight(r, Slashes) else r)
         == if b == "" then (if |s| <= 1 then "/" else "") else if StartsWith(s, "/") then b else "/" + b
  {
    DropRightCons('/', s);
    if StartsWith(s, "/") {
      assert s[..1] == "/";
    }
  }

  lemma NamedEnd(s: string)
    ensures var r := "/" + StripSlashes(s);
      (if |r| > 1 then DropRight(r, Slashes) else r) == r
  {
    DropRightCons('/', StripSlashes(s));
  }

  ghost predicate EndsTight(q: string) { q != "" && !IsSpace(q[|q| - 1]) }

  lemma NamedIs(path: string, rest: string)
    requires StartsWith(Strip(path), SCHEME) && rest == Strip(path)[|SCHEME|..]
    ensures NormalizePath(path) == "/" + StripSlashes(rest)
  {
    NamedEnd(rest);
  }

  lemma RootedTight(a: string)
    ensures EndsTight("/" + a) <==> a == "" || EndsTight(a)
  {
    if a != "" {
      assert ("/" + a)[|a|] == a[|a| - 1];
    }
  }

  lemma NamedNormal(path: string)
    requires StartsWith(Strip(path), SCHEME)
    ensures EndsTight(NormalizePath(path)) <==> Stable(path)
  {
    var rest := Strip(path)[|SCHEME|..];
    NamedIs(path, rest);
    StripSlashesEnd(rest);
    RootedTight(StripSlashes(rest));
  }

  lemma PlainNormal(path: string)
    requires Strip(path) != "" && !StartsWith(Strip(path), SCHEME)
    ensures EndsTight(NormalizePath(path)) <==> Stable(path)
  {
    var b := DropRight(Strip(path), Slashes);
    PlainEnd(Strip(path));
    RootedTight(b);
    assert EndsTight("/");
  }

  /** Normalising is idempotent exactly on the stable texts. */
  lemma NormalizeTwice(path: string)
    ensures NormalizePath(NormalizePath(path)) == NormalizePath(path) <==> Stable(path)
  {
    StableForm(path);
    if StartsWith(Strip(path), SCHEME) {
      NamedNormal(path);
    } else if Strip(path) != "" {
      PlainNormal(path);
    }
  }

  /** Two bare slashes are not stable: they normalise to nothing, and that to the root. */
  lemma BareSlashesUnstable(path: string)
    requires path == "//"
    ensures NormalizePath(path) == "" && NormalizePath(NormalizePath(path)) == "/" && !Stable(path)
  {
    assert path[..1] == "/" && "/"[..0] == "";
    assert Strip(path) == path && Strip("") == "";
    assert SCHEME[0] == 'v';
  }

  // ---------------------------------------------------------------- matching is segment-prefix order

  ghost predicate Under(path: string, scope: string) { path == scope || StartsWith(path, scope + "/") }

  /** A shorter first segment would put its slash inside the longer one. */
  lemma SlashInside(a: string, x: string, b: string, y: string)
    requires (x == "" || x[0] == '/') && StartsWith(a + x, b + y)
    ensures |a| < |b| ==> '/' in b
  {
    if |a| < |b| {
      assert (a + x)[..|b + y|][|a|] == x[0];
      assert b[|a|] == '/';
    }
  }

  lemma SegmentBoundary(a: string, x: string, b: string, y: string)
    requires '/' !in a && '/' !in b && (x == "" || x[0] == '/') && y != "" && y[0] == '/'
    requires StartsWith(a + x, b + y)
    ensures a == b && StartsWith(x, y)
  {
    SlashInside(a, x, b, y);
    assert (a + x)[..|b + y|][|b|] == (b + y)[|b|] == '/';
    assert |a| == |b|;
    assert a == (a + x)[..|a|] && b == (b + y)[..|b|];
    assert (a + x)[|a|..] == x && (b + y)[|b|..] == y;
    assert (a + x)[..|b + y|][|a|..] == x[..|y|];
  }

  lemma {:induction false} SlashedPrefix(a: seq<string>, b: seq<string>)
    requires Segments(a) && Segments(b)
    requires StartsWith(Slashed(a) + "/", Slashed(b) + "/")
    ensures b <= a
    decreases |b|
  {
    if b != [] {
      assert Segment(b[0]);
      assert |Slashed(b) + "/"| > 1;
      var x, y := Slashed(a[1..]) + "/", Slashed(b[1..]) + "/";
      assert Segment(a[0]);
      assert Slashed(a) + "/" == "/" + (a[0] + x) && Slashed(b) + "/" == "/" + (b[0] + y);
      StartsAfterSlash(a[0] + x, b[0] + y);
      SegmentBoundary(a[0], x, b[0], y);
      SlashedPrefix(a[1..], b[1..]);
      assert a == [a[0]] + a[1..] && b == [b[0]] + b[1..];
    }
  }

  lemma StartsAfterSame(c: string, s: string, t: string)
    requires StartsWith(s, t)
    ensures StartsWith(c + s, c + t)
  {
    assert (c + s)[..|c + t|] == c + s[..|t|];
  }

  lemma {:induction false} PrefixSlashed(a: seq<string>, b: seq<string>)
    requires b <= a
    ensures StartsWith(Slashed(a) + "/", Slashed(b) + "/")
    decreases |b|
  {
    if b == [] {
      assert Slashed(b) + "/" == "/" && (Slashed(a) + "/")[..1] == "/";
    } else {
      var x, y := Slashed(a[1..]) + "/", Slashed(b[1..]) + "/";
      assert Slashed(a) + "/" == "/" + (a[0] + x) && Slashed(b) + "/" == "/" + (b[0] + y);
      PrefixSlashed(a[1..], b[1..]);
      StartsAfterSame(a[0], x, y);
      StartsAfterSlash(a[0] + x, b[0] + y);
    }
  }

  lemma StartsAfterSlash(s: string, t: string)
    ensures StartsWith("/" + s, "/" + t) <==> StartsWith(s, t)
  {
    if |t| <= |s| {
      assert ("/" + s)[..|"/" + t|] == "/" + s[..|t|];
      assert ("/" + t)[1..] == t && ("/" + s[..|t|])[1..] == s[..|t|];
    }
  }

  /** One path lies under another exactly when the segments are a prefix. */
  lemma UnderIsPrefix(a: seq<string>, b: seq<string>)
    requires Segments(a) && Segments(b)
    ensures Under(Slashed(a), Slashed(b)) <==> b <= a
  {
    var p, q := Slashed(a), Slashed(b);
    if b <= a {
      PrefixSlashed(a, b);
      if |q + "/"| <= |p| {
        assert (p + "/")[..|q + "/"|] == p[..|q + "/"|];
      } else {
        assert p + "/" == q + "/";
        assert (p + "/")[..|p|] == p && (q + "/")[..|q|] == q;
      }
    }
    if Under(p, q) {
      if p != q { assert (p + "/")[..|q + "/"|] == p[..|q + "/"|]; }
      SlashedPrefix(a, b);
    }
  }

  /** On well-formed paths, `path_matches` is exactly the prefix order of segments. */
  lemma MatchesIsPrefix(a: seq<string>, b: seq<string>)
    requires Segments(a) && Segments(b)
    ensures MatchesOne(PathOf(a), PathOf(b)) <==> b <= a
  {
    NormalizeWellFormed(a);
    NormalizeWellFormed(b);
    if b == [] {
      assert DropRight("/", Slashes) == "";
      assert PathOf(a)[..|"/"|] == "/";
    } else {
      PathIsSlashed(b);
      JoinEnds(b);
      assert DropRight(PathOf(b), Slashes) == PathOf(b);
      UnderIsPrefix(a, b);
      if a != [] {
        PathIsSlashed(a);
      } else {
        assert |PathOf(b)| > 1;
      }
    }
  }

  function PathsOf(paths: seq<seq<string>>): (texts: seq<string>)
    ensures |texts| == |paths|
  {
    if paths == [] then [] else [PathOf(paths[0])] + PathsOf(paths[1..])
  }

  lemma {:induction false} PathsHaveNoSemicolon(paths: seq<seq<string>>)
    requires forall i | 0 <= i < |paths| :: Segments(paths[i])
    ensures forall t | t in PathsOf(paths) :: ';' !in t
    decreases |paths|
  {
    if paths != [] {
      if paths[0] != [] { JoinEnds(paths[0]); }
      PathsHaveNoSemicolon(paths[1..]);
    }
  }

  ghost predicate SomeUnder(paths: seq<seq<string>>, scope: seq<string>) {
    exists i | 0 <= i < |paths| :: scope <= paths[i]
  }

  lemma SomeUnderHead(paths: seq<seq<string>>, scope: seq<string>)
    requires paths != []
    ensures SomeUnder(paths, scope) <==> scope <= paths[0] || SomeUnder(paths[1..], scope)
  {
    if i :| 0 <= i < |paths| && scope <= paths[i] {
      assert i > 0 ==> paths[1..][i - 1] == paths[i];
    }
    if i :| 0 <= i < |paths[1..]| && scope <= paths[1..][i] {
      assert paths[i + 1] == paths[1..][i];
    }
  }

  lemma {:induction false} AnyMatchIsPrefix(paths: seq<seq<string>>, scope: seq<string>)
    requires Segments(scope) && forall i | 0 <= i < |paths| :: Segments(paths[i])
    ensures MatchesAny(PathsOf(paths), PathOf(scope)) <==> SomeUnder(paths, scope)
    decreases |paths|
  {
    if paths != [] {
      MatchesIsPrefix(paths[0], scope);
      AnyMatchIsPrefix(paths[1..], scope);
      SomeUnderHead(paths, scope);
      assert PathsOf(paths)[1..] == PathsOf(paths[1..]);
    }
  }

  /** The same for a value that lists several paths between semicolons. */
  lemma ManyMatchIsPrefix(paths: seq<seq<string>>, scope: seq<string>)
    requires paths != [] && Segments(scope) && forall i | 0 <= i < |paths| :: Segments(paths[i])
    ensures MatchesAny(Split(Join(PathsOf(paths), ';'), ';'), PathOf(scope)) <==> SomeUnder(paths, scope)
  {
    PathsHaveNoSemicolon(paths);
    SplitJoin(PathsOf(paths), ';');
    AnyMatchIsPrefix(paths, scope);
  }
}
