/**
 What `path_matches` makes of any text and any scope that joins path parts: the text's raw parts,
 empty ones included, must begin with the scope's. With it, exactly which texts are matched by a
 scope made of their own first parts.
 */
module ScopeMatching {
  import opened PyText
  import opened Paths

  /** Not empty and without a slash: what `path_parts` yields. Spaces and semicolons are possible. */
  predicate Plain(part: string) { part != "" && '/' !in part }

  ghost predicate AllPlain(parts: seq<string>) { forall i | 0 <= i < |parts| :: Plain(parts[i]) }

  /** The text without the spaces at its end. */
  function Trimmed(s: string): string { DropRight(s, Blanks) }

  /** What is left of a scope's parts when the scope is normalised: spaces at its end are stripped. */
  function Tidied(parts: seq<string>): seq<string> {
    if parts == [] then []
    else
      var n := |parts| - 1;
      if Trimmed(parts[n]) == "" then parts[..n] else parts[..n] + [Trimmed(parts[n])]
  }

  /** A text's normal form exists, and its parts, empty ones included, begin with the given ones. */
  predicate Begins(text: string, parts: seq<string>) {
    NormalizePath(text) != "" && [""] + parts <= Split(NormalizePath(text), '/')
  }

  // ---------------------------------------------------------------- the normal form of a scope

  lemma PathOfMore(init: seq<string>, last: string)
    ensures PathOf(init + [last]) == Slashed(init) + "/" + last
  {
    PathIsSlashed(init + [last]);
    SlashedAppend(init, last);
  }

  lemma {:induction false} DropRightKeeps(x: string, s: string, what: Stripped)
    ensures DropRight(x + s, what) == if DropRight(s, what) != "" then x + DropRight(s, what) else DropRight(x, what)
    decreases |s|
  {
    if s == "" {
      assert x + s == x;
    } else if Drops(what, s[|s| - 1]) {
      assert (x + s)[..|x + s| - 1] == x + s[..|s| - 1];
      DropRightKeeps(x, s[..|s| - 1], what);
    }
  }

  /** The normal form of a rooted text. */
  lemma NormalizeSlash(p: string)
    requires p != "" && p[0] == '/'
    ensures var s := DropRight(p, Blanks);
      s != "" && NormalizePath(p) == if |s| > 1 then DropRight(s, Slashes) else s
  {
    RootStays(p);
    assert DropLeft(p, Blanks) == p;
    RootIsNoScheme(DropRight(p, Blanks));
  }

  lemma RootStays(p: string)
    requires p != "" && p[0] == '/'
    ensures var s := DropRight(p, Blanks); s != "" && s[0] == '/'
  {
    assert p == "/" + p[1..];
    DropRightKeeps("/", p[1..], Blanks);
    assert DropRight("/", Blanks) == "/";
  }

  lemma RootIsNoScheme(s: string)
    requires s != "" && s[0] == '/'
    ensures StartsWith(s, "/") && !StartsWith(s, SCHEME)
  {
    assert SCHEME[0] == 'v' && s[..|"/"|] == "/";
  }

  lemma SlashedEnds(parts: seq<string>)
    requires parts != [] && AllPlain(parts)
    ensures var s := Slashed(parts); |s| > 1 && s[0] == '/' && s[|s| - 1] != '/' && PathOf(parts) == s
  {
    var n := |parts| - 1;
    assert parts == parts[..n] + [parts[n]];
    SlashedAppend(parts[..n], parts[n]);
    PathIsSlashed(parts);
    assert Plain(parts[n]);
    assert Slashed(parts)[|Slashed(parts)| - 1] == parts[n][|parts[n]| - 1];
  }

  lemma NormalizeLonger(init: string, last: string)
    requires (init == "" || init[0] == '/') && Trimmed(last) != "" && '/' !in last
    ensures NormalizePath(init + "/" + last) == init + "/" + Trimmed(last)
  {
    var p := init + "/" + last;
    NormalizeSlash(p);
    DropRightKeeps(init + "/", last, Blanks);
    var s := init + "/" + Trimmed(last);
    assert s[|s| - 1] == Trimmed(last)[|Trimmed(last)| - 1];
    assert Trimmed(last)[|Trimmed(last)| - 1] in last;
  }

  lemma NormalizeBlank(init: string, last: string)
    requires (init == "" || (init[0] == '/' && init[|init| - 1] != '/')) && Trimmed(last) == ""
    ensures NormalizePath(init + "/" + last) == if init == "" then "/" else init
  {
    NormalizeSlash(init + "/" + last);
    DropRightKeeps(init + "/", last, Blanks);
    var s := init + "/";
    assert s[..|s| - 1] == init;
    assert DropRight(s, Blanks) == s;
  }

  /** Normalising a scope tidies its parts. */
  lemma NormalizeScope(parts: seq<string>)
    requires AllPlain(parts)
    ensures NormalizePath(PathOf(parts)) == PathOf(Tidied(parts)) && AllPlain(Tidied(parts))
  {
    if parts == [] {
      assert Strip("/") == "/";
    } else {
      var n := |parts| - 1;
      var init, last := parts[..n], parts[n];
      assert parts == init + [last] && Plain(last);
      PathOfMore(init, last);
      if init != [] { SlashedEnds(init); }
      if Trimmed(last) == "" {
        NormalizeBlank(Slashed(init), last);
      } else {
        NormalizeLonger(Slashed(init), last);
        PathOfMore(init, Trimmed(last));
      }
    }
  }

  // ---------------------------------------------------------------- matching any text

  lemma SplitPathOf(parts: seq<string>)
    requires parts != [] && AllPlain(parts)
    ensures Split(PathOf(parts), '/') == [""] + parts
  {
    JoinLonger("", parts, '/');
    SplitJoin([""] + parts, '/');
  }

  lemma NormalStartsAtRoot(text: string)
    ensures NormalizePath(text) != "" <==> StartsWith(NormalizePath(text), "/")
    ensures NormalizePath(text) != "" ==> [""] <= Split(NormalizePath(text), '/')
  {
    NormalForm(text);
    var m := NormalizePath(text);
    if m != "" {
      assert m[..1] == "/";
    }
  }

  /** The match of one text against a scope, for every text and every list of parts. */
  lemma MatchesOneBegins(text: string, parts: seq<string>)
    requires AllPlain(parts)
    ensures MatchesOne(text, PathOf(parts)) <==> Begins(text, Tidied(parts))
  {
    NormalizeScope(parts);
    NormalStartsAtRoot(text);
    var tidied := Tidied(parts);
    var m, w := NormalizePath(text), PathOf(tidied);
    if tidied == [] {
      assert DropRight("/", Slashes) == "";
      assert "" + "/" == "/" && [""] + tidied == [""];
    } else {
      SlashedEnds(tidied);
      assert DropRight(w, Slashes) == w;
      SplitPathOf(tidied);
      SplitPrefix(m, w, '/');
      assert w + ['/'] == w + "/";
    }
  }

  lemma {:induction false} AnyBegins(pieces: seq<string>, parts: seq<string>)
    requires AllPlain(parts)
    ensures MatchesAny(pieces, PathOf(parts)) <==> exists piece | piece in pieces :: Begins(piece, Tidied(parts))
  {
    if pieces != [] {
      AnyBegins(pieces[1..], parts);
      MatchesOneBegins(pieces[0], parts);
      assert forall piece :: piece in pieces <==> piece == pieces[0] || piece in pieces[1..];
    }
  }

  // ---------------------------------------------------------------- the parts of any text

  lemma {:induction false} NonEmptyConcat(a: seq<string>, b: seq<string>)
    ensures NonEmpty(a + b) == NonEmpty(a) + NonEmpty(b)
  {
    if a == [] {
      assert a + b == b;
    } else {
      NonEmptyConcat(a[1..], b);
      assert (a + b)[1..] == a[1..] + b;
      OnePartFirst(a[0], NonEmpty(a[1..]), NonEmpty(b));
    }
  }

  lemma OnePartFirst(part: string, a: seq<string>, b: seq<string>)
    ensures [part] + (a + b) == ([part] + a) + b
  {
  }

  lemma {:induction false} NonEmptyHas(parts: seq<string>, part: string)
    ensures part in NonEmpty(parts) <==> part in parts && part != ""
  {
    if parts != [] {
      NonEmptyHas(parts[1..], part);
      assert parts == [parts[0]] + parts[1..];
    }
  }

  lemma SlashBefore(s: string)
    ensures NonEmpty(Split("/" + s, '/')) == NonEmpty(Split(s, '/'))
  {
    assert ("/" + s)[1..] == s;
    assert ([""] + Split(s, '/'))[1..] == Split(s, '/');
  }

  lemma SlashAfter(s: string)
    ensures NonEmpty(Split(s + "/", '/')) == NonEmpty(Split(s, '/'))
  {
    assert s + ['/'] + "" == s + "/";
    SplitConcat(s, '/', "");
    NonEmptyConcat(Split(s, '/'), [""]);
    assert [""][1..] == [];
    assert NonEmpty([""]) == [];
  }

  lemma {:induction false} LeadingSlashes(s: string)
    ensures NonEmpty(Split(DropLeft(s, Slashes), '/')) == NonEmpty(Split(s, '/'))
  {
    if s != "" && s[0] == '/' {
      LeadingSlashes(s[1..]);
      SlashBefore(s[1..]);
      assert s == "/" + s[1..];
    }
  }

  lemma {:induction false} TrailingSlashes(s: string)
    ensures NonEmpty(Split(DropRight(s, Slashes), '/')) == NonEmpty(Split(s, '/'))
    decreases |s|
  {
    if s != "" && s[|s| - 1] == '/' {
      TrailingSlashes(s[..|s| - 1]);
      SlashAfter(s[..|s| - 1]);
      assert s == s[..|s| - 1] + "/";
    }
  }

  /** `path_parts` yields the parts of the normal form that are not empty. */
  lemma PartsOfNormal(text: string)
    ensures PathParts(text) == NonEmpty(Split(NormalizePath(text), '/')) && AllPlain(PathParts(text))
  {
    var m := NormalizePath(text);
    LeadingSlashes(m);
    TrailingSlashes(DropLeft(m, Slashes));
    PartsHaveNoSeparator(m, '/');
    forall i | 0 <= i < |PathParts(text)|
      ensures Plain(PathParts(text)[i])
    {
      NonEmptyHas(Split(m, '/'), PathParts(text)[i]);
    }
  }

  // ---------------------------------------------------------------- semicolons

  lemma {:induction false} DropLeftKeepsSemicolon(s: string, what: Stripped)
    ensures ';' in DropLeft(s, what) <==> ';' in s
  {
    if s != "" && Drops(what, s[0]) {
      DropLeftKeepsSemicolon(s[1..], what);
      assert s == [s[0]] + s[1..];
    }
  }

  lemma {:induction false} DropRightKeepsSemicolon(s: string, what: Stripped)
    ensures ';' in DropRight(s, what) <==> ';' in s
    decreases |s|
  {
    if s != "" && Drops(what, s[|s| - 1]) {
      DropRightKeepsSemicolon(s[..|s| - 1], what);
      assert s == s[..|s| - 1] + [s[|s| - 1]];
    }
  }

  lemma NormalKeepsSemicolon(text: string)
    ensures ';' in NormalizePath(text) <==> ';' in text
  {
    DropLeftKeepsSemicolon(text, Blanks);
    DropRightKeepsSemicolon(DropLeft(text, Blanks), Blanks);
    var s := Strip(text);
    if StartsWith(s, SCHEME) {
      var rest := s[|SCHEME|..];
      assert s == SCHEME + rest;
      DropLeftKeepsSemicolon(rest, Slashes);
      DropRightKeepsSemicolon(DropLeft(rest, Slashes), Slashes);
      DropRightKeepsSemicolon("/" + StripSlashes(rest), Slashes);
    } else {
      DropRightKeepsSemicolon(s, Slashes);
      DropRightKeepsSemicolon("/" + s, Slashes);
    }
  }

  /** Some part has a semicolon. */
  ghost predicate AnySemicolon(parts: seq<string>) { exists part | part in parts :: ';' in part }

  lemma PartsKeepSemicolon(text: string)
    ensures AnySemicolon(PathParts(text)) <==> ';' in text
  {
    NormalKeepsSemicolon(text);
    PartsOfNormal(text);
    var raw := Split(NormalizePath(text), '/');
    PartsHaveCharacters(NormalizePath(text), '/', ';');
    if part :| part in raw && ';' in part {
      NonEmptyHas(raw, part);
    }
    if part :| part in PathParts(text) && ';' in part {
      NonEmptyHas(raw, part);
    }
  }

  lemma TidiedKeepsSemicolon(parts: seq<string>)
    ensures AnySemicolon(Tidied(parts)) <==> AnySemicolon(parts)
  {
    if parts != [] {
      var n := |parts| - 1;
      DropRightKeepsSemicolon(parts[n], Blanks);
      assert parts == parts[..n] + [parts[n]];
      assert forall part :: part in parts <==> part in parts[..n] || part == parts[n];
      assert forall part :: part in parts[..n] + [Trimmed(parts[n])] <==> part in parts[..n] || part == Trimmed(parts[n]);
    }
  }

  /** A text that begins with parts that have a semicolon has one. */
  lemma BeginsWithSemicolon(text: string, parts: seq<string>)
    requires Begins(text, parts) && AnySemicolon(parts)
    ensures ';' in text
  {
    NormalKeepsSemicolon(text);
    PartsHaveCharacters(NormalizePath(text), '/', ';');
    var part :| part in parts && ';' in part;
    var i :| 0 <= i < |parts| && parts[i] == part;
    assert ([""] + parts)[i + 1] == part;
    assert Split(NormalizePath(text), '/')[i + 1] == part;
  }

  /** A text with a semicolon is not matched by the scope of its own parts. */
  lemma SemicolonNeverMatches(text: string)
    requires ';' in text
    ensures !MatchesAny(Split(text, ';'), PathOf(PathParts(text)))
  {
    var parts := PathParts(text);
    PartsOfNormal(text);
    AnyBegins(Split(text, ';'), parts);
    PartsKeepSemicolon(text);
    TidiedKeepsSemicolon(parts);
    PartsHaveNoSeparator(text, ';');
    if piece :| piece in Split(text, ';') && Begins(piece, Tidied(parts)) {
      BeginsWithSemicolon(piece, Tidied(parts));
    }
  }

  // ---------------------------------------------------------------- a text and its own scope

  /** The last part of a text that does not end in a separator. */
  lemma {:induction false} LastPart(s: string, sep: char)
    requires s != "" && s[|s| - 1] != sep
    ensures var parts := Split(s, sep); var last := parts[|parts| - 1];
      last != "" && last[|last| - 1] == s[|s| - 1]
  {
    if |s| > 1 {
      LastPart(s[1..], sep);
    } else {
      SplitWhole(s, sep);
    }
  }

  lemma NonEmptyBegins(parts: seq<string>, extra: seq<string>)
    requires AllPlain(parts)
    ensures NonEmpty(([""] + parts) + extra) == parts + NonEmpty(extra)
  {
    assert ([""] + parts) + extra == [""] + (parts + extra);
    assert ([""] + (parts + extra))[1..] == parts + extra;
    NonEmptyConcat(parts, extra);
    assert forall i | 0 <= i < |parts| :: Plain(parts[i]);
    NonEmptyKeepsAll(parts);
  }

  /** A normal form other than the root does not end in an empty part. */
  lemma NoPartsLeft(m: string, parts: seq<string>, extra: seq<string>)
    requires parts != [] && Split(m, '/') == ([""] + parts) + extra && NonEmpty(extra) == []
    requires m == "" || m == "/" || m[|m| - 1] != '/'
    ensures extra == []
  {
    if extra != [] {
      var last := extra[|extra| - 1];
      NonEmptyHas(extra, last);
      assert (([""] + parts) + extra)[|parts| + |extra|] == last;
      if m != "" && m != "/" {
        LastPart(m, '/');
      }
    }
  }

  /** The text's raw parts after the leading empty one are its parts: every slash is single. */
  lemma BeginsWithOwnParts(text: string)
    requires PathParts(text) != []
    ensures Begins(text, PathParts(text)) <==> NormalizePath(text) == PathOf(PathParts(text))
  {
    var m, parts := NormalizePath(text), PathParts(text);
    PartsOfNormal(text);
    SplitPathOf(parts);
    if Begins(text, parts) {
      NormalForm(text);
      var extra := Split(m, '/')[|parts| + 1..];
      assert Split(m, '/') == ([""] + parts) + extra;
      NonEmptyBegins(parts, extra);
      assert NonEmpty(extra) == [] by { NothingAdded(parts, NonEmpty(extra)); }
      NoPartsLeft(m, parts, extra);
      SameParts(m, PathOf(parts));
    }
  }

  lemma NothingAdded(a: seq<string>, b: seq<string>)
    requires a == a + b
    ensures b == []
  {
    assert |a| == |a| + |b|;
  }

  lemma SameParts(s: string, t: string)
    requires Split(s, '/') == Split(t, '/')
    ensures s == t
  {
    JoinSplit(s, '/');
    JoinSplit(t, '/');
  }

  /** Plain parts that a list begins with, after an empty one, are its first non-empty ones. */
  lemma BegunPart(raw: seq<string>, parts: seq<string>, i: nat)
    requires AllPlain(parts) && [""] + parts <= raw && i < |parts|
    ensures i < |NonEmpty(raw)| && NonEmpty(raw)[i] == parts[i]
  {
    assert raw == ([""] + parts) + raw[|parts| + 1..];
    NonEmptyBegins(parts, raw[|parts| + 1..]);
  }

  /** The normal form has a slash before each of its first n parts, and only one. */
  predicate SingleSlashes(text: string, n: nat) {
    var raw := Split(NormalizePath(text), '/');
    NormalizePath(text) != "" && n < |raw| && forall k | 1 <= k <= n :: raw[k] != ""
  }

  lemma BeginsWithFirstParts(text: string, n: nat)
    requires n <= |PathParts(text)|
    ensures Begins(text, PathParts(text)[..n]) <==> SingleSlashes(text, n)
  {
    var raw, parts := Split(NormalizePath(text), '/'), PathParts(text);
    PartsOfNormal(text);
    NormalStartsAtRoot(text);
    if Begins(text, parts[..n]) {
      forall k | 1 <= k <= n
        ensures raw[k] != ""
      {
        assert ([""] + parts[..n])[k] == parts[k - 1] && Plain(parts[k - 1]);
      }
    }
    if SingleSlashes(text, n) {
      FirstPartsAre(raw, n);
    }
  }

  /** If the first n parts after an empty one are not empty, they are the first non-empty ones. */
  lemma FirstPartsAre(raw: seq<string>, n: nat)
    requires n < |raw| && raw[0] == "" && forall k | 1 <= k <= n :: raw[k] != ""
    ensures n <= |NonEmpty(raw)| && [""] + NonEmpty(raw)[..n] <= raw
  {
    var begin := raw[1..n + 1];
    assert raw == [""] + (begin + raw[n + 1..]);
    assert ([""] + (begin + raw[n + 1..]))[1..] == begin + raw[n + 1..];
    NonEmptyConcat(begin, raw[n + 1..]);
    NonEmptyKeepsAll(begin);
    assert NonEmpty(raw)[..n] == begin;
    assert [""] + begin == raw[..n + 1];
  }

  /**
   The scope made of the first n parts of a text fits the text: its slashes are single up to the
   scope's end. Of a last part that is blank nothing is left in the scope; a last part that ends in
   spaces is cut short there and no longer fits.
   */
  predicate ScopeFits(text: string, n: nat)
    requires n <= |PathParts(text)|
  {
    if n == 0 then NormalizePath(text) != ""
    else
      var last := PathParts(text)[n - 1];
      if Trimmed(last) == last then SingleSlashes(text, n)
      else Trimmed(last) == "" && SingleSlashes(text, n - 1)
  }

  lemma BeginsWithScope(text: string, n: nat)
    requires n <= |PathParts(text)|
    ensures Begins(text, Tidied(PathParts(text)[..n])) <==> ScopeFits(text, n)
  {
    var scope := PathParts(text)[..n];
    PartsOfNormal(text);
    BeginsWithFirstParts(text, n);
    if n == 0 {
      NormalStartsAtRoot(text);
      assert [""] + scope == [""];
    } else {
      assert scope[n - 1] == PathParts(text)[n - 1] && scope[..n - 1] == PathParts(text)[..n - 1];
      BeginsWithFirstParts(text, n - 1);
      TidiedLast(scope);
      if Begins(text, Tidied(scope)) && Trimmed(scope[n - 1]) != "" {
        NormalizeScope(scope);
        BegunPart(Split(NormalizePath(text), '/'), Tidied(scope), n - 1);
      }
    }
  }

  lemma TidiedLast(scope: seq<string>)
    requires scope != []
    ensures var n := |scope| - 1; var cut := Trimmed(scope[n]);
      && (cut == "" ==> Tidied(scope) == scope[..n])
      && (cut == scope[n] && cut != "" ==> Tidied(scope) == scope)
      && (cut != "" ==> |Tidied(scope)| == |scope| && Tidied(scope)[n] == cut)
  {
  }

  /** For every text without a semicolon: it is matched by a scope of its first n parts exactly if that fits. */
  lemma FirstPartsMatch(text: string, n: nat)
    requires ';' !in text && n <= |PathParts(text)|
    ensures MatchesAny(Split(text, ';'), PathOf(PathParts(text)[..n])) <==> ScopeFits(text, n)
  {
    PartsOfNormal(text);
    SplitWhole(text, ';');
    AnyBegins([text], PathParts(text)[..n]);
    BeginsWithScope(text, n);
  }

  /** For every text: it is matched by the scope of all its parts exactly if it has no semicolon and that fits. */
  lemma OwnScopeMatches(text: string)
    ensures MatchesAny(Split(text, ';'), PathOf(PathParts(text))) <==> ';' !in text && ScopeFits(text, |PathParts(text)|)
  {
    if ';' in text {
      SemicolonNeverMatches(text);
    } else {
      FirstPartsMatch(text, |PathParts(text)|);
      assert PathParts(text)[..|PathParts(text)|] == PathParts(text);
    }
  }

  lemma RootHasNoParts(text: string)
    requires PathParts(text) == []
    ensures NormalizePath(text) == "" || NormalizePath(text) == "/"
  {
    NormalForm(text);
    var m := NormalizePath(text);
    PartsOfNormal(text);
    if m != "" && m != "/" {
      assert m == m[..|m| - 1] + [m[|m| - 1]];
      PartsHaveCharacters(m, '/', m[|m| - 1]);
      var part :| part in Split(m, '/') && m[|m| - 1] in part;
      NonEmptyHas(Split(m, '/'), part);
    }
  }

  /** On a normal form that ends in no space: it is matched exactly without semicolon and doubled slash. */
  lemma OwnScopeOfNormal(path: string)
    requires NormalizePath(path) == path && |path| > 1 && !IsSpace(path[|path| - 1])
    ensures MatchesAny(Split(path, ';'), PathOf(PathParts(path))) <==> ';' !in path && PathOf(PathParts(path)) == path
  {
    OwnScopeMatches(path);
    var parts := PathParts(path);
    if parts == [] {
      RootHasNoParts(path);
    } else {
      LastCharacterOfParts(path);
      BeginsWithFirstParts(path, |parts|);
      assert parts[..|parts|] == parts;
      BeginsWithOwnParts(path);
    }
  }

  lemma LastCharacterOfParts(path: string)
    requires NormalizePath(path) == path && |path| > 1 && !IsSpace(path[|path| - 1]) && PathParts(path) != []
    ensures var parts := PathParts(path); Trimmed(parts[|parts| - 1]) == parts[|parts| - 1]
  {
    PartsOfNormal(path);
    NormalForm(path);
    LastPart(path, '/');
    LastNonEmpty(Split(path, '/'));
  }

  lemma LastNonEmpty(parts: seq<string>)
    requires parts != [] && parts[|parts| - 1] != ""
    ensures var kept := NonEmpty(parts); kept != [] && kept[|kept| - 1] == parts[|parts| - 1]
  {
    var n := |parts| - 1;
    assert parts == parts[..n] + [parts[n]];
    NonEmptyConcat(parts[..n], [parts[n]]);
    assert [parts[n]][1..] == [];
  }
}
