/**
 The deepest common directory, the scope derived from ground truth, and the directory cases built
 with it.
 */
module PathScopes {
  import opened Wrappers
  import opened PyText
  import opened Paths
  import opened ScopeMatching

  // ---------------------------------------------------------------- the deepest common directory

  function LongestCommon(a: seq<string>, b: seq<string>): seq<string> {
    if a == [] || b == [] || a[0] != b[0] then [] else [a[0]] + LongestCommon(a[1..], b[1..])
  }

  function Common(lists: seq<seq<string>>): seq<string>
    requires lists != []
  {
    if |lists| == 1 then lists[0] else LongestCommon(Common(lists[..|lists| - 1]), lists[|lists| - 1])
  }

  function AllParts(paths: seq<string>): (lists: seq<seq<string>>)
    ensures |lists| == |paths|
  {
    if paths == [] then [] else AllParts(paths[..|paths| - 1]) + [PathParts(paths[|paths| - 1])]
  }

  lemma {:induction false} AllPartsAt(paths: seq<string>, i: nat)
    requires i < |paths|
    ensures AllParts(paths)[i] == PathParts(paths[i])
    decreases |paths|
  {
    if i < |paths| - 1 {
      AllPartsAt(paths[..|paths| - 1], i);
    }
  }

  lemma {:induction false} LongestCommonIs(a: seq<string>, b: seq<string>, n: nat)
    requires n <= |a| && n <= |b| && a[..n] == b[..n]
    requires n == |a| || n == |b| || a[n] != b[n]
    ensures LongestCommon(a, b) == a[..n]
    decreases n
  {
    if n > 0 {
      assert a[0] == a[..n][0] == b[..n][0] == b[0];
      assert a[1..][..n - 1] == a[..n][1..] == b[..n][1..] == b[1..][..n - 1];
      LongestCommonIs(a[1..], b[1..], n - 1);
      assert a[..n] == [a[0]] + a[1..][..n - 1];
    }
  }

  lemma {:induction false} CommonOfEmpty(lists: seq<seq<string>>, n: nat)
    requires 0 < n <= |lists| && Common(lists[..n]) == []
    ensures Common(lists) == []
    decreases |lists|
  {
    if n < |lists| {
      var m := |lists| - 1;
      assert lists[..m][..n] == lists[..n];
      CommonOfEmpty(lists[..m], n);
    } else {
      assert lists[..n] == lists;
    }
  }

  /** The inner loop of `common_path_prefix`: how far two lists agree. */
  method Agreement(prefix: seq<string>, parts: seq<string>) returns (index: nat)
    ensures index <= |prefix| && prefix[..index] == LongestCommon(prefix, parts)
  {
    index := 0;
    while index < |prefix| && index < |parts| && prefix[index] == parts[index]
      invariant index <= |prefix| && index <= |parts| && prefix[..index] == parts[..index]
    {
      assert prefix[..index + 1] == prefix[..index] + [prefix[index]];
      assert parts[..index + 1] == parts[..index] + [parts[index]];
      index := index + 1;
    }
    LongestCommonIs(prefix, parts, index);
  }

  lemma NothingInCommon(lists: seq<seq<string>>, n: nat)
    requires 0 < n <= |lists| && Common(lists[..n]) == []
    ensures PathOf(Common(lists)) == "/"
  {
    CommonOfEmpty(lists, n);
  }

  lemma CommonOneMore(lists: seq<seq<string>>, i: nat)
    requires 0 < i < |lists|
    ensures Common(lists[..i + 1]) == LongestCommon(Common(lists[..i]), lists[i])
  {
    assert lists[..i + 1][..i] == lists[..i] && lists[..i + 1][i] == lists[i];
  }

  /** `common_path_prefix` */
  method CommonPathPrefix(paths: seq<string>) returns (scope: string)
    ensures scope == if paths == [] then "/" else PathOf(Common(AllParts(paths)))
  {
    if paths == [] { return "/"; }
    ghost var lists := AllParts(paths);
    var prefix := PathParts(paths[0]);
    AllPartsAt(paths, 0);
    assert lists[..1] == [prefix];
    for i := 1 to |paths|
      invariant prefix == Common(lists[..i])
    {
      var index := Agreement(prefix, PathParts(paths[i]));
      AllPartsAt(paths, i);
      CommonOneMore(lists, i);
      prefix := prefix[..index];
      if prefix == [] {
        NothingInCommon(lists, i + 1);
        return "/";
      }
    }
    assert lists[..|paths|] == lists;
    scope := PathOf(prefix);
  }

  lemma {:induction false} LongestCommonGlb(a: seq<string>, b: seq<string>, c: seq<string>)
    ensures c <= LongestCommon(a, b) <==> c <= a && c <= b
  {
    if c != [] && a != [] && b != [] {
      LongestCommonGlb(a[1..], b[1..], c[1..]);
      PrefixHead(c, a);
      PrefixHead(c, b);
      if a[0] == b[0] {
        var l := LongestCommon(a, b);
        assert l[1..] == LongestCommon(a[1..], b[1..]);
        PrefixHead(c, l);
      }
    }
  }

  lemma PrefixHead(c: seq<string>, a: seq<string>)
    requires c != [] && a != []
    ensures c <= a <==> c[0] == a[0] && c[1..] <= a[1..]
  {
    if c[0] == a[0] && c[1..] <= a[1..] {
      assert c == [c[0]] + c[1..] && a == [a[0]] + a[1..];
    }
  }

  ghost predicate BelowAll(c: seq<string>, lists: seq<seq<string>>) {
    forall i | 0 <= i < |lists| :: c <= lists[i]
  }

  /** The greatest lower bound in the prefix order: below all of them, and above whatever is. */
  lemma {:induction false} CommonGlb(lists: seq<seq<string>>, c: seq<string>)
    requires lists != []
    ensures c <= Common(lists) <==> BelowAll(c, lists)
    decreases |lists|
  {
    if |lists| > 1 {
      var init, last := lists[..|lists| - 1], lists[|lists| - 1];
      CommonGlb(init, c);
      LongestCommonGlb(Common(init), last, c);
      assert forall i | 0 <= i < |init| :: init[i] == lists[i];
      assert BelowAll(c, lists) <==> BelowAll(c, init) && c <= last;
    }
  }

  lemma BelowSameElements(c: seq<string>, xs: seq<seq<string>>, ys: seq<seq<string>>)
    requires BelowAll(c, xs) && forall y | y in ys :: y in xs
    ensures BelowAll(c, ys)
  {
    forall i | 0 <= i < |ys| ensures c <= ys[i] {
      assert ys[i] in xs;
      var j :| 0 <= j < |xs| && xs[j] == ys[i];
    }
  }

  /** The order of the paths, and repetitions among them, do not matter. */
  lemma CommonIgnoresOrder(xs: seq<seq<string>>, ys: seq<seq<string>>)
    requires xs != [] && ys != []
    requires (forall x | x in xs :: x in ys) && (forall y | y in ys :: y in xs)
    ensures Common(xs) == Common(ys)
  {
    CommonGlb(xs, Common(xs));
    BelowSameElements(Common(xs), xs, ys);
    CommonGlb(ys, Common(xs));
    CommonGlb(ys, Common(ys));
    BelowSameElements(Common(ys), ys, xs);
    CommonGlb(xs, Common(ys));
  }

  lemma {:induction false} CommonIsWellFormed(lists: seq<seq<string>>)
    requires lists != [] && forall i | 0 <= i < |lists| :: Segments(lists[i])
    ensures Segments(Common(lists))
  {
    CommonGlb(lists, Common(lists));
    assert Common(lists) <= lists[0];
  }

  /** The scope matches every path. */
  ghost predicate MatchesEvery(lists: seq<seq<string>>, scope: string) {
    lists == [] || (MatchesOne(PathOf(lists[0]), scope) && MatchesEvery(lists[1..], scope))
  }

  lemma BelowAllHead(scope: seq<string>, lists: seq<seq<string>>)
    requires lists != []
    ensures BelowAll(scope, lists) <==> scope <= lists[0] && BelowAll(scope, lists[1..])
  {
    assert forall i | 0 < i < |lists| :: lists[i] == lists[1..][i - 1];
  }

  lemma {:induction false} MatchesEveryIsBelowAll(lists: seq<seq<string>>, scope: seq<string>)
    requires Segments(scope) && forall k | 0 <= k < |lists| :: Segments(lists[k])
    ensures MatchesEvery(lists, PathOf(scope)) <==> BelowAll(scope, lists)
    decreases |lists|
  {
    if lists != [] {
      MatchesIsPrefix(lists[0], scope);
      MatchesEveryIsBelowAll(lists[1..], scope);
      BelowAllHead(scope, lists);
    }
  }

  /** On well-formed paths a scope matches every path exactly when it matches their common directory. */
  lemma CommonDirectory(lists: seq<seq<string>>, scope: seq<string>)
    requires lists != [] && Segments(scope) && forall k | 0 <= k < |lists| :: Segments(lists[k])
    ensures MatchesEvery(lists, PathOf(Common(lists)))
    ensures MatchesEvery(lists, PathOf(scope)) <==> MatchesOne(PathOf(Common(lists)), PathOf(scope))
  {
    CommonIsWellFormed(lists);
    CommonGlb(lists, Common(lists));
    MatchesEveryIsBelowAll(lists, Common(lists));
    CommonGlb(lists, scope);
    MatchesEveryIsBelowAll(lists, scope);
    MatchesIsPrefix(Common(lists), scope);
  }

  // ---------------------------------------------------------------- scopes from ground truth

  datatype Truth = Truth(id: string, score: int)

  /** The paths of the corpus; every ground-truth id has one. */
  type Corpus = map<string, string>

  predicate Mapped(items: seq<Truth>, corpus: Corpus) { forall i | 0 <= i < |items| :: items[i].id in corpus }

  function Highest(items: seq<Truth>): int
    requires items != []
  {
    var last := items[|items| - 1].score;
    if |items| == 1 then last
    else
      var m := Highest(items[..|items| - 1]);
      if last > m then last else m
  }

  lemma {:induction false} HighestIs(items: seq<Truth>)
    requires items != []
    ensures forall i | 0 <= i < |items| :: items[i].score <= Highest(items)
    ensures exists i | 0 <= i < |items| :: items[i].score == Highest(items)
  {
    var n := |items| - 1;
    if n > 0 {
      HighestIs(items[..n]);
      assert forall i | 0 <= i < n :: items[i] == items[..n][i];
      if items[n].score <= Highest(items[..n]) {
        var i :| 0 <= i < n && items[..n][i].score == Highest(items[..n]);
        assert items[i].score == Highest(items);
      }
    }
  }

  /** The paths of the items with the given score. */
  function PathsScored(items: seq<Truth>, score: int, corpus: Corpus): seq<string>
    requires Mapped(items, corpus)
  {
    if items == [] then []
    else
      var n := |items| - 1;
      PathsScored(items[..n], score, corpus) + if items[n].score == score then [corpus[items[n].id]] else []
  }

  /** Where the path of an item with that score stands. */
  lemma {:induction false} ScoredPathIndex(items: seq<Truth>, score: int, corpus: Corpus, i: nat) returns (k: nat)
    requires Mapped(items, corpus) && i < |items| && items[i].score == score
    ensures var paths := PathsScored(items, score, corpus); k < |paths| && paths[k] == corpus[items[i].id]
    decreases |items|
  {
    var n := |items| - 1;
    if i == n {
      k := |PathsScored(items[..n], score, corpus)|;
    } else {
      k := ScoredPathIndex(items[..n], score, corpus, i);
    }
  }

  lemma ScoredPathsExist(items: seq<Truth>, corpus: Corpus)
    requires Mapped(items, corpus) && items != []
    ensures PathsScored(items, Highest(items), corpus) != []
  {
    HighestIs(items);
    var i :| 0 <= i < |items| && items[i].score == Highest(items);
    var k := ScoredPathIndex(items, Highest(items), corpus, i);
  }

  /** `derived_gt_lca_scope` */
  method DerivedGtLcaScope(items: seq<Truth>, corpus: Corpus) returns (scope: string)
    requires Mapped(items, corpus)
    ensures scope == DerivedScope(items, corpus)
  {
    if items == [] { return "/"; }
    ScoredPathsExist(items, corpus);
    scope := CommonPathPrefix(PathsScored(items, Highest(items), corpus));
  }

  function DerivedScope(items: seq<Truth>, corpus: Corpus): string
    requires Mapped(items, corpus)
  {
    if items == [] then "/"
    else
      ScoredPathsExist(items, corpus);
      var paths := PathsScored(items, Highest(items), corpus);
      PathOf(Common(AllParts(paths)))
  }

  /** The paths of the items with that score are well-formed. */
  ghost predicate ScoredOk(items: seq<Truth>, score: int, corpus: Corpus) {
    forall i | 0 <= i < |items| && items[i].score == score && items[i].id in corpus :: WellFormed(corpus[items[i].id])
  }

  ghost predicate WellFormed(path: string) {
    Segments(PathParts(path)) && path == PathOf(PathParts(path))
  }

  lemma ScopeMatchesWhole(segs: seq<string>, scope: seq<string>)
    requires Segments(segs) && Segments(scope) && scope <= segs
    ensures MatchesAny(Split(PathOf(segs), ';'), PathOf(scope))
  {
    MatchesIsPrefix(segs, scope);
    if segs != [] { JoinEnds(segs); }
    SplitWhole(PathOf(segs), ';');
  }

  /** A well-formed path is matched by the common directory of a list it belongs to. */
  lemma CommonMatches(lists: seq<seq<string>>, k: nat)
    requires k < |lists| && forall j | 0 <= j < |lists| :: Segments(lists[j])
    ensures MatchesAny(Split(PathOf(lists[k]), ';'), PathOf(Common(lists)))
  {
    CommonIsWellFormed(lists);
    CommonGlb(lists, Common(lists));
    ScopeMatchesWhole(lists[k], Common(lists));
  }

  lemma {:induction false} ScoredPathIsMapped(items: seq<Truth>, score: int, corpus: Corpus, j: nat) returns (i: nat)
    requires Mapped(items, corpus) && j < |PathsScored(items, score, corpus)|
    ensures i < |items| && items[i].score == score && PathsScored(items, score, corpus)[j] == corpus[items[i].id]
    decreases |items|
  {
    var n := |items| - 1;
    if j < |PathsScored(items[..n], score, corpus)| {
      i := ScoredPathIsMapped(items[..n], score, corpus, j);
    } else {
      i := n;
    }
  }

  lemma ScoredAreWellFormed(items: seq<Truth>, score: int, corpus: Corpus)
    requires Mapped(items, corpus) && ScoredOk(items, score, corpus)
    ensures forall j | 0 <= j < |PathsScored(items, score, corpus)| :: WellFormed(PathsScored(items, score, corpus)[j])
  {
    var paths := PathsScored(items, score, corpus);
    forall j | 0 <= j < |paths|
      ensures WellFormed(paths[j])
    {
      var i := ScoredPathIsMapped(items, score, corpus, j);
      assert WellFormed(corpus[items[i].id]);
    }
  }

  lemma CommonMatchesTexts(paths: seq<string>, k: nat)
    requires k < |paths| && forall j | 0 <= j < |paths| :: WellFormed(paths[j])
    ensures MatchesAny(Split(paths[k], ';'), PathOf(Common(AllParts(paths))))
  {
    var lists := AllParts(paths);
    forall j | 0 <= j < |lists| ensures Segments(lists[j]) {
      assert WellFormed(paths[j]);
      AllPartsAt(paths, j);
    }
    assert WellFormed(paths[k]);
    AllPartsAt(paths, k);
    CommonMatches(lists, k);
  }

  /** The parts of the derived scope. */
  ghost function DerivedParts(items: seq<Truth>, corpus: Corpus): seq<string>
    requires Mapped(items, corpus) && items != []
  {
    ScoredPathsExist(items, corpus);
    Common(AllParts(PathsScored(items, Highest(items), corpus)))
  }

  /** They are the first parts of every path with the highest score. */
  lemma DerivedPartsComeFirst(items: seq<Truth>, corpus: Corpus, i: nat)
    requires Mapped(items, corpus) && i < |items| && items[i].score == Highest(items)
    ensures DerivedParts(items, corpus) <= PathParts(corpus[items[i].id])
  {
    var paths := PathsScored(items, Highest(items), corpus);
    var k := ScoredPathIndex(items, Highest(items), corpus, i);
    AllPartsAt(paths, k);
    CommonGlb(AllParts(paths), DerivedParts(items, corpus));
  }

  lemma DerivedPartsArePlain(items: seq<Truth>, corpus: Corpus)
    requires Mapped(items, corpus) && items != []
    ensures AllPlain(DerivedParts(items, corpus))
  {
    HighestIs(items);
    var i :| 0 <= i < |items| && items[i].score == Highest(items);
    DerivedPartsComeFirst(items, corpus, i);
    PartsOfNormal(corpus[items[i].id]);
    assert forall k | 0 <= k < |DerivedParts(items, corpus)| ::
      DerivedParts(items, corpus)[k] == PathParts(corpus[items[i].id])[k];
  }

  /** For every text: it is matched by a derived scope exactly if a piece of it begins with the scope's parts. */
  lemma DerivedScopeMatchesText(items: seq<Truth>, corpus: Corpus, text: string)
    requires Mapped(items, corpus) && items != []
    ensures MatchesAny(Split(text, ';'), DerivedScope(items, corpus)) <==>
      exists piece | piece in Split(text, ';') :: Begins(piece, Tidied(DerivedParts(items, corpus)))
  {
    DerivedPartsArePlain(items, corpus);
    AnyBegins(Split(text, ';'), DerivedParts(items, corpus));
  }

  /** A path with the highest score and no semicolon is matched exactly if its slashes are single up to the scope's end. */
  lemma DerivedScopeMatchesExactly(items: seq<Truth>, corpus: Corpus, i: nat)
    requires Mapped(items, corpus) && i < |items| && items[i].score == Highest(items)
    requires ';' !in corpus[items[i].id]
    ensures var path, n := corpus[items[i].id], |DerivedParts(items, corpus)|;
      n <= |PathParts(path)| && (MatchesAny(Split(path, ';'), DerivedScope(items, corpus)) <==> ScopeFits(path, n))
  {
    var path, parts := corpus[items[i].id], DerivedParts(items, corpus);
    DerivedPartsComeFirst(items, corpus, i);
    assert PathParts(path)[..|parts|] == parts;
    FirstPartsMatch(path, |parts|);
  }

  /** If the scope has a semicolon, no text at all is matched by it. */
  lemma SemicolonScopeMatchesNothing(items: seq<Truth>, corpus: Corpus, text: string)
    requires Mapped(items, corpus) && items != [] && AnySemicolon(DerivedParts(items, corpus))
    ensures !MatchesAny(Split(text, ';'), DerivedScope(items, corpus))
  {
    DerivedScopeMatchesText(items, corpus, text);
    TidiedKeepsSemicolon(DerivedParts(items, corpus));
    PartsHaveNoSeparator(text, ';');
    if piece :| piece in Split(text, ';') && Begins(piece, Tidied(DerivedParts(items, corpus))) {
      BeginsWithSemicolon(piece, Tidied(DerivedParts(items, corpus)));
    }
  }

  /** The derived scope matches the path of every item with the highest score, if these are well-formed. */
  lemma DerivedScopeMatches(items: seq<Truth>, corpus: Corpus, i: nat)
    requires Mapped(items, corpus) && i < |items| && items[i].score == Highest(items)
    requires ScoredOk(items, Highest(items), corpus)
    ensures MatchesAny(Split(corpus[items[i].id], ';'), DerivedScope(items, corpus))
  {
    var k := ScoredPathIndex(items, Highest(items), corpus, i);
    ScoredAreWellFormed(items, Highest(items), corpus);
    CommonMatchesTexts(PathsScored(items, Highest(items), corpus), k);
  }

  // ---------------------------------------------------------------- directory cases

  datatype Query = Query(id: string, truth: seq<Truth>)

  datatype Case = Case(queryId: string, scope: string, truthIds: seq<string>)

  predicate Sampled(id: string, sample: Option<set<string>>) { sample.None? || id in sample.value }

  function SampledIds(items: seq<Truth>, sample: Option<set<string>>): seq<string> {
    if items == [] then []
    else
      var n := |items| - 1;
      var ids := SampledIds(items[..n], sample);
      if Sampled(items[n].id, sample) then ids + [items[n].id] else ids
  }

  predicate IdUnder(id: string, corpus: Corpus, scope: string) {
    id in corpus && MatchesAny(Split(corpus[id], ';'), scope)
  }

  lemma {:induction false} SampledIdKept(items: seq<Truth>, sample: Option<set<string>>, i: nat)
    requires i < |items| && Sampled(items[i].id, sample)
    ensures items[i].id in SampledIds(items, sample)
    decreases |items|
  {
    if i < |items| - 1 {
      SampledIdKept(items[..|items| - 1], sample, i);
    }
  }

  lemma {:induction false} IdsUnderKeeps(ids: seq<string>, corpus: Corpus, scope: string, id: string)
    ensures id in IdsUnder(ids, corpus, scope) <==> id in ids && IdUnder(id, corpus, scope)
    decreases |ids|
  {
    if ids != [] {
      var n := |ids| - 1;
      assert ids == ids[..n] + [ids[n]];
      IdsUnderKeeps(ids[..n], corpus, scope, id);
    }
  }

  function IdsUnder(ids: seq<string>, corpus: Corpus, scope: string): seq<string> {
    if ids == [] then []
    else
      var n := |ids| - 1;
      if IdUnder(ids[n], corpus, scope) then IdsUnder(ids[..n], corpus, scope) + [ids[n]] else IdsUnder(ids[..n], corpus, scope)
  }

  /** The Wiki directory case of a query in derived-scope mode; None when its scope is the root. */
  function CaseFor(q: Query, sample: Option<set<string>>, corpus: Corpus): Option<Case>
    requires Mapped(q.truth, corpus)
  {
    var scope := DerivedScope(q.truth, corpus);
    if scope == "/" then None
    else Some(Case(q.id, scope, IdsUnder(SampledIds(q.truth, sample), corpus, scope)))
  }

  predicate AllMapped(queries: seq<Query>, corpus: Corpus) {
    forall i | 0 <= i < |queries| :: Mapped(queries[i].truth, corpus)
  }

  /** What each query gives, in the order of the queries. */
  ghost function CasesFor(queries: seq<Query>, sample: Option<set<string>>, corpus: Corpus): (cases: seq<Option<Case>>)
    requires AllMapped(queries, corpus)
    ensures |cases| == |queries|
  {
    if queries == [] then []
    else
      var n := |queries| - 1;
      CasesFor(queries[..n], sample, corpus) + [CaseFor(queries[n], sample, corpus)]
  }

  lemma {:induction false} CasesForAt(queries: seq<Query>, sample: Option<set<string>>, corpus: Corpus, i: nat)
    requires AllMapped(queries, corpus) && i < |queries|
    ensures CasesFor(queries, sample, corpus)[i] == CaseFor(queries[i], sample, corpus)
    decreases |queries|
  {
    if i < |queries| - 1 {
      CasesForAt(queries[..|queries| - 1], sample, corpus, i);
    }
  }

  /** A case counts as covered when it keeps some ground truth, or nothing was sampled away. */
  predicate Covered(c: Case, sample: Option<set<string>>) { c.truthIds != [] || sample.None? }

  /** The cases that are covered, or those that are not. */
  ghost function Among(cases: seq<Option<Case>>, sample: Option<set<string>>, covered: bool): seq<Case> {
    if cases == [] then []
    else
      var n := |cases| - 1;
      Among(cases[..n], sample, covered) + OneAmong(cases[n], sample, covered)
  }

  ghost function OneAmong(c: Option<Case>, sample: Option<set<string>>, covered: bool): seq<Case> {
    if c.Some? && Covered(c.value, sample) == covered then [c.value] else []
  }

  /** Positions in a list, each after the one before. */
  ghost predicate Ascending(positions: seq<nat>, n: nat) {
    && (forall k | 0 <= k < |positions| :: positions[k] < n)
    && (forall j, k | 0 <= j < k < |positions| :: positions[j] < positions[k])
  }

  /** The first `limit` of a list. */
  function First<T>(xs: seq<T>, limit: nat): (r: seq<T>)
    ensures r <= xs && |r| == if |xs| <= limit then |xs| else limit
  {
    if |xs| <= limit then xs else xs[..limit]
  }

  /** The cases at these positions, one for each. */
  ghost predicate CasesAt(picked: seq<Case>, cases: seq<Option<Case>>, positions: seq<nat>) {
    && |picked| == |positions| && Ascending(positions, |cases|)
    && forall k | 0 <= k < |picked| :: cases[positions[k]] == Some(picked[k])
  }

  lemma AddCasePosition(picked: seq<Case>, cases: seq<Option<Case>>, past: seq<nat>, n: nat)
    requires |cases| == n + 1 && CasesAt(picked, cases[..n], past)
    ensures CasesAt(picked, cases, past) && n !in past
    ensures cases[n].Some? ==> CasesAt(picked + [cases[n].value], cases, past + [n])
  {
    assert forall k | 0 <= k < |past| :: past[k] < n && cases[..n][past[k]] == cases[past[k]];
  }

  /** A case that is to be picked. */
  predicate Picks(c: Option<Case>, sample: Option<set<string>>, covered: bool) {
    c.Some? && (c.value.truthIds != [] || sample.None?) == covered
  }

  lemma AmongLast(cases: seq<Option<Case>>, sample: Option<set<string>>, covered: bool)
    requires cases != []
    ensures var n := |cases| - 1; var past := Among(cases[..n], sample, covered);
      Among(cases, sample, covered) == if Picks(cases[n], sample, covered) then past + [cases[n].value] else past
  {
  }

  lemma PicksAdded(cases: seq<Option<Case>>, sample: Option<set<string>>, covered: bool, past: seq<nat>, n: nat)
    requires |cases| == n + 1 && n !in past
    requires forall i | 0 <= i < n :: i in past <==> Picks(cases[..n][i], sample, covered)
    ensures forall i | 0 <= i <= n ::
      i in (if Picks(cases[n], sample, covered) then past + [n] else past) <==> Picks(cases[i], sample, covered)
  {
    assert forall i | 0 <= i < n :: cases[..n][i] == cases[i];
  }

  /** Picked, in the order of the queries, are exactly the cases that keep some ground truth or come without sampling. */
  lemma {:induction false} AmongPositions(cases: seq<Option<Case>>, sample: Option<set<string>>, covered: bool)
    returns (positions: seq<nat>)
    ensures CasesAt(Among(cases, sample, covered), cases, positions)
    ensures forall i | 0 <= i < |cases| :: i in positions <==> Picks(cases[i], sample, covered)
    decreases |cases|
  {
    if cases == [] {
      positions := [];
    } else {
      var n := |cases| - 1;
      var past := AmongPositions(cases[..n], sample, covered);
      AddCasePosition(Among(cases[..n], sample, covered), cases, past, n);
      AmongLast(cases, sample, covered);
      PicksAdded(cases, sample, covered, past, n);
      positions := if Picks(cases[n], sample, covered) then past + [n] else past;
    }
  }

  lemma AmongOneMore(cases: seq<Option<Case>>, i: nat, sample: Option<set<string>>, covered: bool)
    requires i < |cases|
    ensures Among(cases[..i + 1], sample, covered) == Among(cases[..i], sample, covered) + OneAmong(cases[i], sample, covered)
  {
    assert cases[..i + 1][..i] == cases[..i] && cases[..i + 1][i] == cases[i];
  }

  /** The directory case of one query, as the loop computes it. */
  method DirectoryCase(q: Query, sample: Option<set<string>>, corpus: Corpus) returns (c: Option<Case>)
    requires Mapped(q.truth, corpus)
    ensures c == CaseFor(q, sample, corpus)
  {
    var gt := SampledIds(q.truth, sample);
    var scope := DerivedGtLcaScope(q.truth, corpus);
    if scope == "/" { return None; }
    c := Some(Case(q.id, scope, IdsUnder(gt, corpus, scope)));
  }

  method AddCase(c: Option<Case>, sample: Option<set<string>>, covered: seq<Case>, fallback: seq<Case>)
    returns (covered': seq<Case>, fallback': seq<Case>)
    ensures covered' == covered + OneAmong(c, sample, true) && fallback' == fallback + OneAmong(c, sample, false)
    ensures |covered'| + |fallback'| == |covered| + |fallback| + if c.None? then 0 else 1
  {
    covered', fallback' := covered, fallback;
    if c.Some? {
      if c.value.truthIds != [] || sample.None? {
        covered' := covered + [c.value];
      } else {
        fallback' := fallback + [c.value];
      }
    }
  }

  /** The case-building loop, for its directory cases. */
  method CollectCases(queries: seq<Query>, sample: Option<set<string>>, corpus: Corpus, ghost all: seq<Option<Case>>)
    returns (covered: seq<Case>, fallback: seq<Case>, rootScopes: nat)
    requires AllMapped(queries, corpus) && all == CasesFor(queries, sample, corpus)
    ensures covered == Among(all, sample, true) && fallback == Among(all, sample, false)
    ensures rootScopes + |covered| + |fallback| == |queries|
  {
    covered, fallback, rootScopes := [], [], 0;
    for i := 0 to |queries|
      invariant rootScopes + |covered| + |fallback| == i
      invariant covered == Among(all[..i], sample, true) && fallback == Among(all[..i], sample, false)
    {
      var c := DirectoryCase(queries[i], sample, corpus);
      assert all[i] == c by { CasesForAt(queries, sample, corpus, i); }
      AmongOneMore(all, i, sample, true);
      AmongOneMore(all, i, sample, false);
      covered, fallback := AddCase(c, sample, covered, fallback);
      if c.None? {
        rootScopes := rootScopes + 1;
      }
    }
    assert all[..|queries|] == all;
  }

  /** The directory cases of a workload: covered queries come first. */
  method BuildDirectoryCases(queries: seq<Query>, sample: Option<set<string>>, corpus: Corpus, limit: nat)
    returns (cases: seq<Case>, rootScopes: nat)
    requires AllMapped(queries, corpus)
    ensures var all := CasesFor(queries, sample, corpus);
      && cases == First(Among(all, sample, true) + Among(all, sample, false), limit)
      && rootScopes + |Among(all, sample, true)| + |Among(all, sample, false)| == |queries|
  {
    var covered, fallback, roots := CollectCases(queries, sample, corpus, CasesFor(queries, sample, corpus));
    cases := SelectCases(covered, fallback, limit);
    rootScopes := roots;
  }

  method SelectCases(covered: seq<Case>, fallback: seq<Case>, limit: nat) returns (selected: seq<Case>)
    ensures selected == First(covered + fallback, limit)
  {
    selected := if |covered| <= limit then covered else covered[..limit];
    if |selected| < limit {
      var room := limit - |selected|;
      selected := selected + if |fallback| <= room then fallback else fallback[..room];
    }
  }

  /** Every case that is built is the case of a query. */
  lemma {:induction false} CaseHasQuery(cases: seq<Option<Case>>, sample: Option<set<string>>, covered: bool, c: Case)
    returns (i: nat)
    requires c in Among(cases, sample, covered)
    ensures i < |cases| && cases[i] == Some(c)
  {
    var n := |cases| - 1;
    if c in Among(cases[..n], sample, covered) {
      i := CaseHasQuery(cases[..n], sample, covered, c);
    } else {
      i := n;
    }
  }

  /** For every corpus: a case keeps a sampled id exactly if a piece of its path begins with the scope's parts. */
  lemma CaseKeepsExactly(q: Query, sample: Option<set<string>>, corpus: Corpus, i: nat)
    requires Mapped(q.truth, corpus) && i < |q.truth| && Sampled(q.truth[i].id, sample)
    ensures CaseFor(q, sample, corpus).Some? ==>
      (q.truth[i].id in CaseFor(q, sample, corpus).value.truthIds <==>
       exists piece | piece in Split(corpus[q.truth[i].id], ';') :: Begins(piece, Tidied(DerivedParts(q.truth, corpus))))
  {
    DerivedScopeMatchesText(q.truth, corpus, corpus[q.truth[i].id]);
    SampledIdKept(q.truth, sample, i);
    IdsUnderKeeps(SampledIds(q.truth, sample), corpus, DerivedScope(q.truth, corpus), q.truth[i].id);
  }

  /** Every case keeps every sampled id with the highest score, if their paths are well-formed. */
  lemma CaseKeepsHighest(q: Query, sample: Option<set<string>>, corpus: Corpus, i: nat)
    requires Mapped(q.truth, corpus) && i < |q.truth| && Sampled(q.truth[i].id, sample)
    ensures q.truth[i].score == Highest(q.truth) && ScoredOk(q.truth, Highest(q.truth), corpus) ==>
      (CaseFor(q, sample, corpus).Some? ==> q.truth[i].id in CaseFor(q, sample, corpus).value.truthIds)
  {
    if q.truth[i].score == Highest(q.truth) && ScoredOk(q.truth, Highest(q.truth), corpus) {
      DerivedScopeMatches(q.truth, corpus, i);
    }
    SampledIdKept(q.truth, sample, i);
    IdsUnderKeeps(SampledIds(q.truth, sample), corpus, DerivedScope(q.truth, corpus), q.truth[i].id);
  }

  lemma PathOfParts(parts: seq<string>)
    requires AllPlain(parts)
    ensures PathOf(parts) == "/" <==> parts == []
  {
    if parts != [] { SlashedEnds(parts); }
  }

  /** A query has a case exactly if there is ground truth and its highest-scored paths have a directory in common. */
  lemma CaseExists(q: Query, sample: Option<set<string>>, corpus: Corpus)
    requires Mapped(q.truth, corpus)
    ensures CaseFor(q, sample, corpus).Some? <==> q.truth != [] && DerivedParts(q.truth, corpus) != []
  {
    if q.truth != [] {
      DerivedPartsArePlain(q.truth, corpus);
      PathOfParts(DerivedParts(q.truth, corpus));
    }
  }

  /** The case carries the query's id, and as its scope the path of the common directory. */
  lemma CaseCarries(q: Query, sample: Option<set<string>>, corpus: Corpus, c: Case)
    requires Mapped(q.truth, corpus) && CaseFor(q, sample, corpus) == Some(c)
    ensures c.queryId == q.id && q.truth != [] && c.scope == PathOf(DerivedParts(q.truth, corpus))
  {
    CaseExists(q, sample, corpus);
  }

  /** `ids` are the ids of the items at these positions. */
  ghost predicate IdsAt(ids: seq<string>, items: seq<Truth>, positions: seq<nat>) {
    && |ids| == |positions| && Ascending(positions, |items|)
    && forall k | 0 <= k < |ids| :: ids[k] == items[positions[k]].id
  }

  /** The ids of the items that are marked. */
  ghost function MarkedIds(items: seq<Truth>, marks: seq<bool>): seq<string>
    requires |items| == |marks|
  {
    if items == [] then []
    else
      var n := |items| - 1;
      MarkedIds(items[..n], marks[..n]) + if marks[n] then [items[n].id] else []
  }

  lemma AddPosition(ids: seq<string>, items: seq<Truth>, past: seq<nat>, n: nat)
    requires |items| == n + 1 && IdsAt(ids, items[..n], past)
    ensures IdsAt(ids, items, past) && n !in past && IdsAt(ids + [items[n].id], items, past + [n])
  {
    assert forall k | 0 <= k < |past| :: past[k] < n;
    forall k | 0 <= k < |ids|
      ensures ids[k] == items[past[k]].id
    {
      assert items[..n][past[k]] == items[past[k]];
    }
  }

  lemma {:induction false} MarkedPositions(items: seq<Truth>, marks: seq<bool>) returns (positions: seq<nat>)
    requires |items| == |marks|
    ensures IdsAt(MarkedIds(items, marks), items, positions)
    ensures forall i | 0 <= i < |items| :: i in positions <==> marks[i]
    decreases |items|
  {
    if items == [] {
      positions := [];
    } else {
      var n := |items| - 1;
      var past := MarkedPositions(items[..n], marks[..n]);
      AddPosition(MarkedIds(items[..n], marks[..n]), items, past, n);
      positions := if marks[n] then past + [n] else past;
      assert MarkedIds(items, marks) == MarkedIds(items[..n], marks[..n]) + if marks[n] then [items[n].id] else [];
      MembersAdded(past, marks, n);
    }
  }

  lemma MembersAdded(past: seq<nat>, marks: seq<bool>, n: nat)
    requires |marks| == n + 1 && n !in past && forall i | 0 <= i < n :: i in past <==> marks[..n][i]
    ensures forall i | 0 <= i <= n :: i in (if marks[n] then past + [n] else past) <==> marks[i]
  {
  }

  /** Which items are sampled and lie under the scope. */
  ghost function Marks(items: seq<Truth>, sample: Option<set<string>>, corpus: Corpus, scope: string): (marks: seq<bool>)
    ensures |marks| == |items|
  {
    if items == [] then []
    else
      var n := |items| - 1;
      Marks(items[..n], sample, corpus, scope) + [Sampled(items[n].id, sample) && IdUnder(items[n].id, corpus, scope)]
  }

  lemma {:induction false} MarksAt(items: seq<Truth>, sample: Option<set<string>>, corpus: Corpus, scope: string, i: nat)
    requires i < |items|
    ensures Marks(items, sample, corpus, scope)[i] <==> Sampled(items[i].id, sample) && IdUnder(items[i].id, corpus, scope)
    decreases |items|
  {
    if i < |items| - 1 { MarksAt(items[..|items| - 1], sample, corpus, scope, i); }
  }

  lemma {:induction false} KeptAreMarked(items: seq<Truth>, sample: Option<set<string>>, corpus: Corpus, scope: string)
    ensures IdsUnder(SampledIds(items, sample), corpus, scope) == MarkedIds(items, Marks(items, sample, corpus, scope))
    decreases |items|
  {
    if items != [] {
      var n := |items| - 1;
      KeptAreMarked(items[..n], sample, corpus, scope);
      KeptOneMore(items, sample, corpus, scope);
      assert Marks(items, sample, corpus, scope)[..n] == Marks(items[..n], sample, corpus, scope);
    }
  }

  /** What a case keeps is the ids of the items that are sampled and lie under its scope, in order and with repetitions. */
  lemma KeptPositions(items: seq<Truth>, sample: Option<set<string>>, corpus: Corpus, scope: string)
    returns (positions: seq<nat>)
    ensures IdsAt(IdsUnder(SampledIds(items, sample), corpus, scope), items, positions)
    ensures forall i | 0 <= i < |items| ::
      i in positions <==> Sampled(items[i].id, sample) && IdUnder(items[i].id, corpus, scope)
  {
    KeptAreMarked(items, sample, corpus, scope);
    positions := MarkedPositions(items, Marks(items, sample, corpus, scope));
    forall i | 0 <= i < |items|
      ensures i in positions <==> Sampled(items[i].id, sample) && IdUnder(items[i].id, corpus, scope)
    {
      MarksAt(items, sample, corpus, scope, i);
    }
  }

  lemma KeptOneMore(items: seq<Truth>, sample: Option<set<string>>, corpus: Corpus, scope: string)
    requires items != []
    ensures var n := |items| - 1; var id := items[n].id;
      IdsUnder(SampledIds(items, sample), corpus, scope) == IdsUnder(SampledIds(items[..n], sample), corpus, scope) +
        if Sampled(id, sample) && IdUnder(id, corpus, scope) then [id] else []
  {
    var n := |items| - 1;
    var past := SampledIds(items[..n], sample);
    assert (past + [items[n].id])[..|past|] == past;
  }

  /**
   For every corpus: the case of a query keeps, in order and with repetitions, exactly the sampled ids with
   a piece of whose path the parts of the scope begin.
   */
  lemma CaseTruth(q: Query, sample: Option<set<string>>, corpus: Corpus, c: Case) returns (positions: seq<nat>)
    requires Mapped(q.truth, corpus) && CaseFor(q, sample, corpus) == Some(c)
    ensures q.truth != [] && IdsAt(c.truthIds, q.truth, positions)
    ensures forall i | 0 <= i < |q.truth| ::
      i in positions <==> (Sampled(q.truth[i].id, sample) &&
        exists piece | piece in Split(corpus[q.truth[i].id], ';') :: Begins(piece, Tidied(DerivedParts(q.truth, corpus))))
  {
    CaseExists(q, sample, corpus);
    positions := KeptPositions(q.truth, sample, corpus, DerivedScope(q.truth, corpus));
    forall i | 0 <= i < |q.truth|
      ensures IdUnder(q.truth[i].id, corpus, DerivedScope(q.truth, corpus)) <==>
        exists piece | piece in Split(corpus[q.truth[i].id], ';') :: Begins(piece, Tidied(DerivedParts(q.truth, corpus)))
    {
      DerivedScopeMatchesText(q.truth, corpus, corpus[q.truth[i].id]);
    }
  }

  /** Every case that is emitted belongs to a query and keeps all its sampled ids with the highest score. */
  lemma EmittedCaseKeepsHighest(queries: seq<Query>, sample: Option<set<string>>, corpus: Corpus, limit: nat, c: Case)
    returns (i: nat)
    requires AllMapped(queries, corpus)
    requires forall i | 0 <= i < |queries| && queries[i].truth != [] ::
      ScoredOk(queries[i].truth, Highest(queries[i].truth), corpus)
    requires var all := CasesFor(queries, sample, corpus);
      c in First(Among(all, sample, true) + Among(all, sample, false), limit)
    ensures i < |queries| && CaseFor(queries[i], sample, corpus) == Some(c)
    ensures forall j | 0 <= j < |queries[i].truth| && queries[i].truth[j].score == Highest(queries[i].truth) &&
                       Sampled(queries[i].truth[j].id, sample) :: queries[i].truth[j].id in c.truthIds
  {
    var all := CasesFor(queries, sample, corpus);
    i := CaseHasQuery(all, sample, c in Among(all, sample, true), c);
    CasesForAt(queries, sample, corpus, i);
    var truth := queries[i].truth;
    forall j | 0 <= j < |truth| && truth[j].score == Highest(truth) && Sampled(truth[j].id, sample)
      ensures truth[j].id in c.truthIds
    {
      CaseKeepsHighest(queries[i], sample, corpus, j);
    }
  }

  // ---------------------------------------------------------------- where the derived scope fails

  /** The scope derived from a single item is the path of its parts. */
  lemma SoleScope(corpus: Corpus, id: string, score: int)
    requires id in corpus
    ensures DerivedScope([Truth(id, score)], corpus) == PathOf(PathParts(corpus[id]))
  {
    var items, paths := [Truth(id, score)], [corpus[id]];
    assert items[..0] == [] && paths[..0] == [];
    assert PathsScored(items, score, corpus) == PathsScored(items[..0], score, corpus) + paths;
    assert AllParts(paths) == AllParts(paths[..0]) + [PathParts(corpus[id])];
  }

  /** A path with a semicolon is not matched by its own scope: the match splits it, the scope does not. */
  lemma SemicolonBreaksScope()
    ensures var path := "/a;b"; !MatchesAny(Split(path, ';'), PathOf(PathParts(path)))
  {
    SemicolonNeverMatches("/a;b");
  }

  /** Nor is a path with a doubled slash: the scope joins its parts with single ones. */
  lemma DoubledSlashBreaksScope() returns (path: string)
    ensures path == "/a//b" && !MatchesAny(Split(path, ';'), PathOf(PathParts(path)))
  {
    path := "/a" + "/" + "/b";
    NormalizeSlash(path);
    DoubledSlashParts(path);
    DoubledSlashUnmatched(path);
  }

  lemma DoubledSlashUnmatched(path: string)
    requires NormalizePath(path) == path && |path| > 1 && !IsSpace(path[|path| - 1])
    requires |Split(path, '/')| > 2 && Split(path, '/')[2] == ""
    ensures !MatchesAny(Split(path, ';'), PathOf(PathParts(path)))
  {
    OwnScopeOfNormal(path);
    PartsOfNormal(path);
    ThirdPartFilled(PathParts(path));
  }

  lemma DoubledSlashParts(path: string)
    requires path == "/a" + "/" + "/b"
    ensures Split(path, '/') == ["", "a", "", "b"]
  {
    SplitConcat("/a", '/', "/b");
    SplitConcat("", '/', "b");
    SplitConcat("", '/', "a");
    SplitWhole("a", '/');
    SplitWhole("b", '/');
  }

  lemma ThirdPartFilled(parts: seq<string>)
    requires AllPlain(parts)
    ensures var raw := Split(PathOf(parts), '/'); |raw| > 2 ==> raw[2] != ""
  {
    if parts == [] {
      SplitConcat("", '/', "");
    } else {
      SplitPathOf(parts);
      assert |parts| > 1 ==> Plain(parts[1]);
    }
  }

  /** Nor is this normal form, in which there is neither: its own scope ends in a space and is cut short. */
  lemma SpaceBreaksScope() returns (raw: string, path: string)
    ensures raw == "/a / /" && path == "/a / " && path == NormalizePath(raw)
    ensures !MatchesAny(Split(path, ';'), PathOf(PathParts(path)))
  {
    raw, path := "/a / /", "/a / ";
    SpacedNormal(raw);
    SpacedAgain(path);
    OnlyPart(path);
    CutScopeUnmatched(path, "a ");
  }

  lemma SpacedNormal(raw: string)
    requires raw == "/a / /"
    ensures NormalizePath(raw) == "/a / "
  {
    NormalizeSlash(raw);
    assert raw[..|raw| - 1] == "/a / ";
  }

  lemma SpacedAgain(path: string)
    requires path == "/a / "
    ensures NormalizePath(path) == "/a "
  {
    NormalizeBlank("/a ", " ");
    assert "/a " + "/" + " " == path;
  }

  lemma CutScopeUnmatched(path: string, part: string)
    requires PathParts(path) == [part] && Trimmed(part) != "" && Trimmed(part) != part
    ensures !MatchesAny(Split(path, ';'), PathOf(PathParts(path)))
  {
    OwnScopeMatches(path);
  }

  lemma OnlyPart(path: string)
    requires NormalizePath(path) == "/a "
    ensures PathParts(path) == ["a "]
  {
    PartsOfNormal(path);
    SplitConcat("", '/', "a ");
    SplitWhole("a ", '/');
    assert "" + ['/'] + "a " == "/a ";
    assert [""] + ["a "] == ["", "a "];
    assert ["", "a "][1..] == ["a "] && ["a "][1..] == [];
  }
}
