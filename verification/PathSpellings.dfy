/**
 The many spellings of one directory path that `normalize_path` brings to one form, and the prefix of
 a path for every number of segments.
 */
module PathSpellings {
  import opened PyText
  import opened Paths
  import opened ScopeMatching

  ghost predicate AllDropped(s: string, what: Stripped) { forall i | 0 <= i < |s| :: Drops(what, s[i]) }

  lemma {:induction false} DropLeftAll(lead: string, s: string, what: Stripped)
    requires AllDropped(lead, what) && s != "" && !Drops(what, s[0])
    ensures DropLeft(lead + s, what) == s
  {
    if lead == "" {
      assert lead + s == s;
    } else {
      assert (lead + s)[1..] == lead[1..] + s;
      DropLeftAll(lead[1..], s, what);
    }
  }

  lemma {:induction false} DropRightAll(tail: string, what: Stripped)
    requires AllDropped(tail, what)
    ensures DropRight(tail, what) == ""
    decreases |tail|
  {
    if tail != "" { DropRightAll(tail[..|tail| - 1], what); }
  }

  /** A text between what is dropped is left alone. */
  lemma StripAround(before: string, s: string, after: string, what: Stripped)
    requires AllDropped(before, what) && AllDropped(after, what)
    requires s != "" && !Drops(what, s[0]) && !Drops(what, s[|s| - 1])
    ensures DropRight(DropLeft(before + s + after, what), what) == s
  {
    assert before + s + after == before + (s + after);
    DropLeftAll(before, s + after, what);
    DropRightAll(after, what);
    DropRightKeeps(s, after, what);
  }

  /** The slashes at the end of a rooted text go. */
  lemma SlashesGo(s: string, slashes: string)
    requires s != "" && s[|s| - 1] != '/' && AllDropped(slashes, Slashes)
    ensures DropRight(s + slashes, Slashes) == s
  {
    DropRightAll(slashes, Slashes);
    DropRightKeeps(s, slashes, Slashes);
  }

  lemma EndsOfPath(segs: seq<string>)
    requires segs != [] && Segments(segs)
    ensures var j, p := Join(segs, '/'), PathOf(segs);
      && p == "/" + j && j != "" && j[0] != '/' && !IsSpace(j[0])
      && j[|j| - 1] != '/' && !IsSpace(j[|j| - 1]) && |p| > 1 && p[|p| - 1] == j[|j| - 1]
  {
    JoinEnds(segs);
    assert Segment(segs[0]);
    assert Join(segs, '/')[0] == segs[0][0];
  }

  lemma LastOf(s: string, slashes: string)
    requires s != "" && !IsSpace(s[|s| - 1]) && AllDropped(slashes, Slashes)
    ensures var x := s + slashes; x[0] == s[0] && !IsSpace(x[|x| - 1])
  {
  }

  /** The path itself, with spaces around it and slashes behind it. */
  lemma RootedSpelling(segs: seq<string>, before: string, slashes: string, after: string)
    requires segs != [] && Segments(segs)
    requires AllDropped(before, Blanks) && AllDropped(slashes, Slashes) && AllDropped(after, Blanks)
    ensures NormalizePath(before + (PathOf(segs) + slashes) + after) == PathOf(segs)
  {
    var p := PathOf(segs);
    EndsOfPath(segs);
    LastOf(p, slashes);
    StripAround(before, p + slashes, after, Blanks);
    RootIsNoScheme(p + slashes);
    SlashesGo(p, slashes);
  }

  /** The path without its first slash. */
  lemma RelativeSpelling(segs: seq<string>, before: string, slashes: string, after: string)
    requires segs != [] && Segments(segs) && !StartsWith(Join(segs, '/') + slashes, SCHEME)
    requires AllDropped(before, Blanks) && AllDropped(slashes, Slashes) && AllDropped(after, Blanks)
    ensures NormalizePath(before + (Join(segs, '/') + slashes) + after) == PathOf(segs)
  {
    var j, p := Join(segs, '/'), PathOf(segs);
    EndsOfPath(segs);
    LastOf(j, slashes);
    var x := j + slashes;
    StripAround(before, x, after, Blanks);
    assert x[..1] != "/";
    assert "/" + x == p + slashes;
    SlashesGo(p, slashes);
  }

  /** The path as a URI, with any slashes around it. */
  lemma UriSpelling(segs: seq<string>, before: string, lead: string, slashes: string, after: string)
    requires segs != [] && Segments(segs) && AllDropped(lead, Slashes)
    requires AllDropped(before, Blanks) && AllDropped(slashes, Slashes) && AllDropped(after, Blanks)
    ensures NormalizePath(before + (SCHEME + (lead + Join(segs, '/') + slashes)) + after) == PathOf(segs)
  {
    var j, p := Join(segs, '/'), PathOf(segs);
    EndsOfPath(segs);
    var inner := lead + j + slashes;
    LastOf(lead + j, slashes);
    var x := SCHEME + inner;
    assert x[|x| - 1] == inner[|inner| - 1] && x[0] == 'v';
    StripAround(before, x, after, Blanks);
    assert x[..|SCHEME|] == SCHEME && x[|SCHEME|..] == inner;
    StripAround(lead, j, slashes, Slashes);
    assert p + "" == p;
    SlashesGo(p, "");
  }

  /** A text of spaces alone is the root. */
  lemma BlankIsRoot(text: string)
    requires AllDropped(text, Blanks)
    ensures NormalizePath(text) == "/"
  {
    BlankStripped(text);
  }

  lemma {:induction false} BlankStripped(text: string)
    requires AllDropped(text, Blanks)
    ensures Strip(text) == ""
  {
    if text != "" { BlankStripped(text[1..]); }
  }

  /** The prefix of a path for every number of segments: at least one of them, at most all. */
  lemma PrefixClamped(segs: seq<string>, n: int)
    requires segs != [] && Segments(segs)
    ensures PathPrefix(PathOf(segs), n) == PathOf(segs[..if n < 1 then 1 else if n > |segs| then |segs| else n])
  {
    SplitWellFormed(segs);
  }

  lemma PrefixOfRoot(n: int)
    ensures PathPrefix("/", n) == "/"
  {
    SplitWellFormed([]);
  }
}
