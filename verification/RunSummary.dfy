/**
 `summarize_files` and `metric_summary`: result documents of independent runs, checked against each
 other, grouped by variant and summarised metric by metric.
 */
module RunSummary {
  import opened Wrappers
  import opened Samples
  import opened Percentiles

  /** What is found at a metric's place: nothing, a number, or something else. */
  datatype Metric = Missing | Number(x: real) | NotNumeric

  /** A backend result; `backend` is None unless it is a string, `params` are canonical JSON. */
  datatype Row = Row(backend: Option<string>, params: string, metrics: map<string, Metric>)

  datatype Document = Document(dataset: Option<string>, parameters: string, rows: seq<Row>, timestamp: Option<string>)

  /** A result file: its resolved path, and the document if it can be loaded. */
  datatype File = File(path: string, document: Option<Document>)

  datatype Key = Key(backend: string, params: string)

  type Groups = map<Key, seq<Row>>

  datatype Error =
    | TooFew
    | Repeated
    | Unreadable
    | NoDataset
    | DatasetDiffers
    | ParametersDiffer
    | NoBackend
    | DuplicateVariant
    | VariantsDiffer
    | NoTimestamp
    | DuplicateTimestamp

  datatype Grouping = Grouped(groups: Groups) | Refused(error: Error)

  function VariantKey(row: Row): Option<Key> {
    if row.backend.None? || row.backend.value == "" then None else Some(Key(row.backend.value, row.params))
  }

  predicate Readable(f: File) {
    f.document.Some? && f.document.value.rows != []
  }

  function Rows(f: File): seq<Row> {
    if f.document.Some? then f.document.value.rows else []
  }

  function Keys(rows: seq<Row>): set<Key> {
    set row | row in rows && VariantKey(row).Some? :: VariantKey(row).value
  }

  function Paths(files: seq<File>): set<string> {
    set f | f in files :: f.path
  }

  // ---------------------------------------------------------------- what a success means

  ghost predicate KeysOk(rows: seq<Row>) {
    && (forall i | 0 <= i < |rows| :: VariantKey(rows[i]).Some?)
    && (forall i, j | 0 <= i < j < |rows| :: VariantKey(rows[i]) != VariantKey(rows[j]))
  }

  predicate HasTimestamp(d: Document) {
    d.timestamp.Some? && d.timestamp.value != ""
  }

  ghost predicate Sound(f: File) {
    && Readable(f)
    && f.document.value.dataset.Some?
    && KeysOk(f.document.value.rows)
    && HasTimestamp(f.document.value)
  }

  /** Two files of the same benchmark. */
  ghost predicate Agrees(f: File, g: File) {
    && f.document.Some? && g.document.Some?
    && f.document.value.dataset == g.document.value.dataset
    && f.document.value.parameters == g.document.value.parameters
    && Keys(f.document.value.rows) == Keys(g.document.value.rows)
  }

  /** Two files of independent runs of the same benchmark. */
  ghost predicate Compatible(f: File, g: File) {
    Agrees(f, g) && (f.path != g.path ==> f.document.value.timestamp != g.document.value.timestamp)
  }

  /** The files can be summarised together. It does not matter in which order they are given. */
  ghost predicate Acceptable(files: seq<File>) {
    && |files| >= 2
    && |Paths(files)| == |files|
    && (forall f | f in files :: Sound(f))
    && (forall f, g | f in files && g in files :: Compatible(f, g))
  }

  /** What the error says of the rows of a document. */
  ghost predicate RowsExplain(rows: seq<Row>, e: Error) {
    || (e.NoBackend? && exists i | 0 <= i < |rows| :: VariantKey(rows[i]).None?)
    || (e.DuplicateVariant? && exists i, j | 0 <= i < j < |rows| :: VariantKey(rows[i]) == VariantKey(rows[j]))
  }

  /** What the error says of file n. */
  ghost predicate FileExplains(files: seq<File>, n: nat, e: Error)
    requires n < |files|
  {
    match (e, files[0].document, files[n].document)
    case (Unreadable, _, _) => !Readable(files[n])
    case (NoDataset, _, Some(d)) => d.dataset.None?
    case (DatasetDiffers, Some(c), Some(d)) => d.dataset != c.dataset
    case (ParametersDiffer, Some(c), Some(d)) => d.parameters != c.parameters
    case (VariantsDiffer, Some(c), Some(d)) => Keys(d.rows) != Keys(c.rows)
    case (NoTimestamp, _, Some(d)) => !HasTimestamp(d)
    case (DuplicateTimestamp, _, _) => exists i | 0 <= i < n :: Timestamp(files[i]) == Timestamp(files[n])
    case _ => RowsExplain(Rows(files[n]), e)
  }

  ghost predicate Explains(files: seq<File>, e: Error) {
    match e
    case TooFew => |files| < 2
    case Repeated => |Paths(files)| < |files|
    case _ => exists n | 0 <= n < |files| :: FileExplains(files, n, e)
  }

  /** The row of a variant in a document. */
  function FindRow(rows: seq<Row>, key: Key): Option<Row> {
    if rows == [] then None
    else if VariantKey(rows[0]) == Some(key) then Some(rows[0])
    else FindRow(rows[1..], key)
  }

  /** One row per file, in the order of the files. */
  ghost predicate OneRowEach(list: seq<Row>, files: seq<File>, key: Key) {
    && |list| == |files|
    && (forall i | 0 <= i < |files| :: FindRow(Rows(files[i]), key) == Some(list[i]))
  }

  lemma {:induction false} FindRowFinds(rows: seq<Row>, key: Key, i: nat)
    requires KeysOk(rows) && i < |rows| && VariantKey(rows[i]) == Some(key)
    ensures FindRow(rows, key) == Some(rows[i])
  {
    if i > 0 {
      assert VariantKey(rows[0]) != VariantKey(rows[i]);
      FindRowFinds(rows[1..], key, i - 1);
    }
  }

  // ---------------------------------------------------------------- the grouping loops

  function ListOf(groups: Groups, key: Key): seq<Row> {
    if key in groups then groups[key] else []
  }

  /** Groups after the rows of one document: each row went to the end of its variant's list. */
  ghost predicate Extended(before: Groups, after: Groups, rows: seq<Row>) {
    && after.Keys == before.Keys + Keys(rows)
    && (forall key | key in after && key !in Keys(rows) :: after[key] == before[key])
    && (forall i | 0 <= i < |rows| && VariantKey(rows[i]).Some? ::
          ListOf(after, VariantKey(rows[i]).value) == ListOf(before, VariantKey(rows[i]).value) + [rows[i]])
  }

  lemma KeysOneMore(rows: seq<Row>, i: nat)
    requires i < |rows| && VariantKey(rows[i]).Some?
    ensures Keys(rows[..i + 1]) == Keys(rows[..i]) + {VariantKey(rows[i]).value}
  {
    assert rows[..i + 1] == rows[..i] + [rows[i]];
  }

  lemma KeyIsNew(rows: seq<Row>, i: nat)
    requires i < |rows| && VariantKey(rows[i]).Some? && KeysOk(rows[..i])
    ensures VariantKey(rows[i]).value !in Keys(rows[..i]) <==> KeysOk(rows[..i + 1])
    ensures VariantKey(rows[i]).value in Keys(rows[..i]) ==> RowsExplain(rows, DuplicateVariant)
  {
    var key := VariantKey(rows[i]).value;
    var past := rows[..i];
    if key in Keys(past) {
      var row :| row in past && VariantKey(row) == Some(key);
      var j :| 0 <= j < |past| && past[j] == row;
      assert rows[..i + 1][j] == row && rows[..i + 1][i] == rows[i];
      assert VariantKey(rows[j]) == VariantKey(rows[i]);
    } else {
      forall j | 0 <= j < i
        ensures VariantKey(rows[j]) != VariantKey(rows[i])
      {
        assert past[j] == rows[j] && past[j] in past;
      }
      forall a, b | 0 <= a < b < i + 1
        ensures VariantKey(rows[a]) != VariantKey(rows[b])
      {
        if b < i {
          assert past[a] == rows[a] && past[b] == rows[b];
        }
      }
      forall a | 0 <= a < i + 1
        ensures VariantKey(rows[a]).Some?
      {
        if a < i {
          assert past[a] == rows[a];
        }
      }
    }
  }

  /** The loop over the rows of one document. */
  method AddRows(rows: seq<Row>, before: Groups) returns (error: Option<Error>, after: Groups, variants: set<Key>)
    ensures error.None? <==> KeysOk(rows)
    ensures error.None? ==> Extended(before, after, rows) && variants == Keys(rows)
    ensures error.Some? ==> RowsExplain(rows, error.value)
  {
    after := before;
    variants := {};
    error := None;
    var i := 0;
    while i < |rows|
      invariant i <= |rows| && error.None?
      invariant KeysOk(rows[..i]) && variants == Keys(rows[..i])
      invariant Extended(before, after, rows[..i])
    {
      var key := VariantKey(rows[i]);
      if key.None? {
        return Some(NoBackend), after, variants;
      }
      KeyIsNew(rows, i);
      if key.value in variants {
        return Some(DuplicateVariant), after, variants;
      }
      KeysOneMore(rows, i);
      ExtendedOneMore(before, after, rows, i);
      variants := variants + {key.value};
      after := after[key.value := ListOf(after, key.value) + [rows[i]]];
      i := i + 1;
    }
    assert rows[..i] == rows;
  }

  lemma ExtendedOneMore(before: Groups, after: Groups, rows: seq<Row>, i: nat)
    requires i < |rows| && VariantKey(rows[i]).Some? && Extended(before, after, rows[..i])
    requires VariantKey(rows[i]).value !in Keys(rows[..i])
    ensures Extended(before, after[VariantKey(rows[i]).value := ListOf(after, VariantKey(rows[i]).value) + [rows[i]]], rows[..i + 1])
  {
    var past, now := rows[..i], rows[..i + 1];
    var key := VariantKey(rows[i]).value;
    var next := after[key := ListOf(after, key) + [rows[i]]];
    KeysOneMore(rows, i);
    assert ListOf(after, key) == ListOf(before, key);
    forall j | 0 <= j < |now| && VariantKey(now[j]).Some?
      ensures ListOf(next, VariantKey(now[j]).value) == ListOf(before, VariantKey(now[j]).value) + [now[j]]
    {
      if j < i {
        assert past[j] == now[j] && past[j] in past;
        assert VariantKey(past[j]).value in Keys(past);
      }
    }
  }

  /** The lists hold one row of each of the first n files. */
  ghost predicate ListsOk(files: seq<File>, n: nat, groups: Groups)
    requires 0 < |files| && n <= |files|
  {
    && groups.Keys == (if n > 0 then Keys(Rows(files[0])) else {})
    && (forall key | key in groups :: OneRowEach(groups[key], files[..n], key))
  }

  /** The first n files are sound and alike. */
  ghost predicate FilesOk(files: seq<File>, n: nat)
    requires 0 < |files| && n <= |files|
  {
    forall i | 0 <= i < n :: Sound(files[i]) && Agrees(files[0], files[i])
  }

  function Timestamp(f: File): Option<string> {
    if f.document.Some? then f.document.value.timestamp else None
  }

  /** The first n files have these timestamps, no two of them the same. */
  ghost predicate TimesOk(files: seq<File>, n: nat, times: set<string>)
    requires n <= |files|
  {
    && (forall i | 0 <= i < n :: Timestamp(files[i]).Some? && Timestamp(files[i]).value in times)
    && (forall t | t in times :: exists i | 0 <= i < n :: Timestamp(files[i]) == Some(t))
    && (forall i, j | 0 <= i < j < n :: Timestamp(files[i]) != Timestamp(files[j]))
  }

  lemma {:induction false} PathsAtMost(files: seq<File>)
    ensures |Paths(files)| <= |files|
  {
    if files != [] {
      PathsAtMost(files[1..]);
      PathsHead(files);
    }
  }

  lemma PathsHead(files: seq<File>)
    requires files != []
    ensures Paths(files) == {files[0].path} + Paths(files[1..])
  {
    assert files == [files[0]] + files[1..];
  }

  /** As many paths as files: the paths are distinct. */
  lemma {:induction false} PathsDistinct(files: seq<File>, i: nat, j: nat)
    requires |Paths(files)| == |files| && i < j < |files|
    ensures files[i].path != files[j].path
  {
    PathsAtMost(files[1..]);
    PathsHead(files);
    if i == 0 {
      assert files[j] == files[1..][j - 1] && files[1..][j - 1] in files[1..];
    } else {
      PathsDistinct(files[1..], i - 1, j - 1);
    }
  }

  lemma AllTaken(files: seq<File>, times: set<string>)
    requires |files| >= 2 && |Paths(files)| == |files|
    requires FilesOk(files, |files|) && TimesOk(files, |files|, times)
    ensures Acceptable(files)
  {
    forall f, g | f in files && g in files
      ensures Compatible(f, g)
    {
      var i :| 0 <= i < |files| && files[i] == f;
      var j :| 0 <= j < |files| && files[j] == g;
      assert i < j || i == j || j < i;
    }
  }

  lemma RowAdded(list: seq<Row>, files: seq<File>, n: nat, key: Key, row: Row)
    requires n < |files| && OneRowEach(list, files[..n], key) && FindRow(Rows(files[n]), key) == Some(row)
    ensures OneRowEach(list + [row], files[..n + 1], key)
  {
    assert files[..n + 1] == files[..n] + [files[n]];
  }

  lemma ExtendedAt(before: Groups, after: Groups, rows: seq<Row>, key: Key) returns (row: Row)
    requires KeysOk(rows) && Extended(before, after, rows) && key in Keys(rows)
    ensures FindRow(rows, key) == Some(row) && key in after && after[key] == ListOf(before, key) + [row]
  {
    row :| row in rows && VariantKey(row) == Some(key);
    var i :| 0 <= i < |rows| && rows[i] == row;
    FindRowFinds(rows, key, i);
  }

  lemma ListsOneMore(files: seq<File>, n: nat, before: Groups, after: Groups)
    requires n < |files| && ListsOk(files, n, before)
    requires KeysOk(Rows(files[n])) && Keys(Rows(files[n])) == Keys(Rows(files[0]))
    requires Extended(before, after, Rows(files[n]))
    ensures ListsOk(files, n + 1, after)
  {
    forall key | key in after
      ensures OneRowEach(after[key], files[..n + 1], key)
    {
      var row := ExtendedAt(before, after, Rows(files[n]), key);
      assert OneRowEach(ListOf(before, key), files[..n], key);
      RowAdded(ListOf(before, key), files, n, key, row);
    }
  }

  lemma TimesOneMore(files: seq<File>, n: nat, times: set<string>)
    requires n < |files| && TimesOk(files, n, times)
    requires Timestamp(files[n]).Some? && Timestamp(files[n]).value !in times
    ensures TimesOk(files, n + 1, times + {Timestamp(files[n]).value})
  {
    var all := times + {Timestamp(files[n]).value};
    forall t | t in all
      ensures exists i | 0 <= i < n + 1 :: Timestamp(files[i]) == Some(t)
    {
      if t in times {
        var i :| 0 <= i < n && Timestamp(files[i]) == Some(t);
      } else {
        assert Timestamp(files[n]) == Some(t);
      }
    }
  }

  /** A file that is unsound, or unlike the first, rules the summary out. */
  lemma OneBadFile(files: seq<File>, n: nat)
    requires n < |files| && !(Sound(files[n]) && Agrees(files[0], files[n]))
    ensures !Acceptable(files)
  {
    assert files[0] in files && files[n] in files;
  }

  /** So does a timestamp seen before. */
  lemma RepeatedTimestamp(files: seq<File>, n: nat, times: set<string>)
    requires |Paths(files)| == |files| && n < |files| && TimesOk(files, n, times)
    requires Timestamp(files[n]).Some? && Timestamp(files[n]).value in times
    ensures !Acceptable(files)
  {
    var i :| 0 <= i < n && Timestamp(files[i]) == Timestamp(files[n]);
    PathsDistinct(files, i, n);
    assert files[i] in files && files[n] in files;
  }

  /** One turn of the loop over the documents. */
  method TakeDocument(files: seq<File>, n: nat, before: Groups, timesBefore: set<string>)
    returns (error: Option<Error>, after: Groups, times: set<string>)
    requires n < |files| && |Paths(files)| == |files|
    requires Readable(files[0]) && Readable(files[n])
    requires FilesOk(files, n) && ListsOk(files, n, before) && TimesOk(files, n, timesBefore)
    ensures error.None? ==> FilesOk(files, n + 1) && ListsOk(files, n + 1, after) && TimesOk(files, n + 1, times)
    ensures error.Some? ==> !Acceptable(files) && Explains(files, error.value)
  {
    var reference, document := files[0].document.value, files[n].document.value;
    after, times := before, timesBefore;
    if document.dataset.None? {
      OneBadFile(files, n);
      assert FileExplains(files, n, NoDataset);
      return Some(NoDataset), after, times;
    }
    if document.dataset != reference.dataset {
      OneBadFile(files, n);
      assert FileExplains(files, n, DatasetDiffers);
      return Some(DatasetDiffers), after, times;
    }
    if document.parameters != reference.parameters {
      OneBadFile(files, n);
      assert FileExplains(files, n, ParametersDiffer);
      return Some(ParametersDiffer), after, times;
    }
    var variants: set<Key>;
    error, after, variants := AddRows(document.rows, before);
    if error.Some? {
      OneBadFile(files, n);
      assert FileExplains(files, n, error.value);
      return error, after, times;
    }
    if n > 0 && variants != Keys(reference.rows) {
      OneBadFile(files, n);
      assert FileExplains(files, n, VariantsDiffer);
      return Some(VariantsDiffer), after, times;
    }
    if !HasTimestamp(document) {
      OneBadFile(files, n);
      assert FileExplains(files, n, NoTimestamp);
      return Some(NoTimestamp), after, times;
    }
    if document.timestamp.value in times {
      RepeatedTimestamp(files, n, times);
      assert FileExplains(files, n, DuplicateTimestamp);
      return Some(DuplicateTimestamp), after, times;
    }
    ListsOneMore(files, n, before, after);
    TimesOneMore(files, n, times);
    times := times + {document.timestamp.value};
  }

  /** `summarize_files` up to the grouped results. */
  method GroupFiles(files: seq<File>) returns (r: Grouping)
    ensures r.Grouped? <==> Acceptable(files)
    ensures r.Refused? ==> Explains(files, r.error)
    ensures r.Grouped? ==> r.groups.Keys == Keys(Rows(files[0]))
    ensures r.Grouped? ==> forall key | key in r.groups :: OneRowEach(r.groups[key], files, key)
  {
    if |files| < 2 {
      return Refused(TooFew);
    }
    if |Paths(files)| != |files| {
      PathsAtMost(files);
      return Refused(Repeated);
    }
    var k := 0;
    while k < |files|
      invariant k <= |files| && forall i | 0 <= i < k :: Readable(files[i])
    {
      if !Readable(files[k]) {
        OneBadFile(files, k);
        assert FileExplains(files, k, Unreadable);
        return Refused(Unreadable);
      }
      k := k + 1;
    }
    if files[0].document.value.dataset.None? {
      OneBadFile(files, 0);
      assert FileExplains(files, 0, NoDataset);
      return Refused(NoDataset);
    }
    var groups: Groups, times, n := map[], {}, 0;
    while n < |files|
      invariant n <= |files| && FilesOk(files, n) && ListsOk(files, n, groups) && TimesOk(files, n, times)
    {
      var error: Option<Error>;
      error, groups, times := TakeDocument(files, n, groups, times);
      if error.Some? {
        return Refused(error.value);
      }
      n := n + 1;
    }
    assert files[..n] == files;
    AllTaken(files, times);
    return Grouped(groups);
  }

  // ---------------------------------------------------------------- metrics

  datatype Summary =
    | NoNumber
    | Summary(count: nat, median: Option<real>, mad: Option<real>, least: Option<real>, greatest: Option<real>)

  function MetricOf(row: Row, name: string): Metric {
    if name in row.metrics then row.metrics[name] else Missing
  }

  function Metrics(rows: seq<Row>, name: string): seq<Metric> {
    seq(|rows|, i requires 0 <= i < |rows| => MetricOf(rows[i], name))
  }

  function Present(values: seq<Metric>): seq<real> {
    if values == [] then []
    else (if values[0].Number? then [values[0].x] else []) + Present(values[1..])
  }

  function Least(s: seq<real>): (m: real)
    requires s != []
    ensures m in s && forall x | x in s :: m <= x
  {
    if |s| == 1 then s[0] else
    var m := Least(s[1..]);
    assert s == [s[0]] + s[1..];
    if s[0] <= m then s[0] else m
  }

  function Greatest(s: seq<real>): (m: real)
    requires s != []
    ensures m in s && forall x | x in s :: x <= m
  {
    if |s| == 1 then s[0] else
    var m := Greatest(s[1..]);
    assert s == [s[0]] + s[1..];
    if s[0] >= m then s[0] else m
  }

  /** `metric_summary` of what `nested_value` finds; something that is no number raises. */
  function MetricSummary(values: seq<Metric>): Summary {
    if NotNumeric in values then NoNumber else
    var present := Present(values);
    if present == [] then Summary(0, None, None, None, None)
    else Summary(|present|, Some(Median(present)), Some(Mad(present)), Some(Least(present)), Some(Greatest(present)))
  }

  lemma {:induction false} PresentCounts(values: seq<Metric>, x: real)
    ensures multiset(Present(values))[x] == multiset(values)[Number(x)]
  {
    if values != [] {
      PresentCounts(values[1..], x);
      assert values == [values[0]] + values[1..];
    }
  }

  lemma MedianIgnoresOrder(a: seq<real>, b: seq<real>)
    requires multiset(a) == multiset(b) && a != []
    ensures b != [] && Median(a) == Median(b)
  {
    SameSize(a, b);
    SortIgnoresOrder(a, b);
  }

  /** How many of the values deviate by d from m. */
  function Deviating(values: multiset<real>, m: real, d: real): nat {
    if d < 0.0 then 0 else if d == 0.0 then values[m] else values[m + d] + values[m - d]
  }

  lemma DeviatingOneMore(x: real, values: multiset<real>, m: real, d: real)
    ensures Deviating(multiset{x} + values, m, d) == Deviating(values, m, d) + (if Distance(x, m) == d then 1 else 0)
  {
  }

  lemma {:induction false} DeviationCounts(values: seq<real>, m: real, d: real)
    ensures multiset(Deviations(values, m))[d] == Deviating(multiset(values), m, d)
  {
    if values != [] {
      DeviationCounts(values[1..], m, d);
      HeadAndTail(values);
      HeadAndTail(Deviations(values, m));
      assert Deviations(values, m)[1..] == Deviations(values[1..], m);
      DeviatingOneMore(values[0], multiset(values[1..]), m, d);
    }
  }

  lemma DeviationsIgnoreOrder(a: seq<real>, b: seq<real>, m: real)
    requires multiset(a) == multiset(b)
    ensures multiset(Deviations(a, m)) == multiset(Deviations(b, m))
  {
    forall d: real
      ensures multiset(Deviations(a, m))[d] == multiset(Deviations(b, m))[d]
    {
      DeviationCounts(a, m, d);
      DeviationCounts(b, m, d);
    }
  }

  lemma ExtremesIgnoreOrder(a: seq<real>, b: seq<real>)
    requires multiset(a) == multiset(b) && a != [] && b != []
    ensures Least(a) == Least(b) && Greatest(a) == Greatest(b)
  {
    forall x
      ensures x in a <==> x in b
    {
      assert x in multiset(a) <==> x in multiset(b);
    }
  }

  lemma NumbersIgnoreOrder(a: seq<real>, b: seq<real>)
    requires multiset(a) == multiset(b) && a != []
    ensures b != [] && |a| == |b| && Median(a) == Median(b) && Mad(a) == Mad(b)
    ensures Least(a) == Least(b) && Greatest(a) == Greatest(b)
  {
    SameSize(a, b);
    MedianIgnoresOrder(a, b);
    DeviationsIgnoreOrder(a, b, Median(a));
    MedianIgnoresOrder(Deviations(a, Median(a)), Deviations(b, Median(a)));
    ExtremesIgnoreOrder(a, b);
  }

  /** A summary does not depend on the order of the values. */
  lemma SummaryIgnoresOrder(v: seq<Metric>, w: seq<Metric>)
    requires multiset(v) == multiset(w)
    ensures MetricSummary(v) == MetricSummary(w)
  {
    assert NotNumeric in v <==> NotNumeric in multiset(v);
    assert NotNumeric in w <==> NotNumeric in multiset(w);
    forall x: real
      ensures multiset(Present(v))[x] == multiset(Present(w))[x]
    {
      PresentCounts(v, x);
      PresentCounts(w, x);
    }
    SameSize(Present(v), Present(w));
    if Present(v) != [] {
      NumbersIgnoreOrder(Present(v), Present(w));
    }
  }

  /** The metric of a variant in each file, in the order of the files. */
  function Column(files: seq<File>, key: Key, name: string): (r: seq<Metric>)
    ensures |r| == |files|
  {
    if files == [] then [] else [Cell(files[0], key, name)] + Column(files[1..], key, name)
  }

  /** The grouped list of a variant gives its column. */
  lemma {:induction false} ListGivesColumn(list: seq<Row>, files: seq<File>, key: Key, name: string)
    requires OneRowEach(list, files, key)
    ensures Metrics(list, name) == Column(files, key, name)
  {
    if files != [] {
      ListGivesColumn(list[1..], files[1..], key, name);
      assert Metrics(list, name) == [MetricOf(list[0], name)] + Metrics(list[1..], name);
    }
  }

  function Cell(f: File, key: Key, name: string): Metric {
    var row := FindRow(Rows(f), key);
    if row.Some? then MetricOf(row.value, name) else Missing
  }

  lemma ColumnHead(files: seq<File>, key: Key, name: string)
    requires files != []
    ensures Column(files, key, name) == [Cell(files[0], key, name)] + Column(files[1..], key, name)
  {
  }

  lemma {:induction false} ColumnSplit(a: seq<File>, b: seq<File>, key: Key, name: string)
    ensures Column(a + b, key, name) == Column(a, key, name) + Column(b, key, name)
  {
    if a == [] {
      assert a + b == b;
    } else {
      ColumnSplit(a[1..], b, key, name);
      ColumnHead(a, key, name);
      ColumnHead(a + b, key, name);
      assert (a + b)[0] == a[0] && (a + b)[1..] == a[1..] + b;
      Regroup([Cell(a[0], key, name)], Column(a[1..], key, name), Column(b, key, name));
    }
  }

  lemma Regroup(x: seq<Metric>, y: seq<Metric>, z: seq<Metric>)
    ensures x + (y + z) == (x + y) + z
  {
  }

  lemma ColumnWithout(files: seq<File>, i: nat, key: Key, name: string)
    requires i < |files|
    ensures multiset(Column(files, key, name)) ==
      multiset(Column([files[i]], key, name)) + multiset(Column(files[..i] + files[i + 1..], key, name))
  {
    var x := [files[i]];
    assert files == files[..i] + (x + files[i + 1..]);
    ColumnSplit(files[..i], x + files[i + 1..], key, name);
    ColumnSplit(x, files[i + 1..], key, name);
    ColumnSplit(files[..i], files[i + 1..], key, name);
  }

  lemma SameFilesWithout(files: seq<File>, files': seq<File>, i: nat)
    requires files != [] && multiset(files) == multiset(files') && i < |files'| && files'[i] == files[0]
    ensures multiset(files[1..]) == multiset(files'[..i] + files'[i + 1..])
  {
    assert files == [files[0]] + files[1..];
    assert files' == files'[..i] + ([files[0]] + files'[i + 1..]);
    assert multiset(files[1..]) == multiset(files) - multiset{files[0]};
    assert multiset(files'[..i] + files'[i + 1..]) == multiset(files') - multiset{files[0]};
  }

  lemma {:induction false} ColumnIgnoresOrder(files: seq<File>, files': seq<File>, key: Key, name: string)
    requires multiset(files) == multiset(files')
    ensures multiset(Column(files, key, name)) == multiset(Column(files', key, name))
  {
    assert |multiset(files)| == |files| && |multiset(files')| == |files'|;
    if files != [] {
      assert files[0] in multiset(files');
      var i :| 0 <= i < |files'| && files'[i] == files[0];
      SameFilesWithout(files, files', i);
      ColumnIgnoresOrder(files[1..], files'[..i] + files'[i + 1..], key, name);
      ColumnWithout(files, 0, key, name);
      assert files[..0] + files[1..] == files[1..];
      ColumnWithout(files', i, key, name);
    }
  }

  /** Whether files can be summarised together does not depend on their order. */
  lemma AcceptableIgnoresOrder(files: seq<File>, files': seq<File>)
    requires multiset(files) == multiset(files')
    ensures Acceptable(files) <==> Acceptable(files')
  {
    assert |multiset(files)| == |files| && |multiset(files')| == |files'|;
    assert forall f :: f in files <==> f in multiset(files);
    assert forall f :: f in files' <==> f in multiset(files');
    assert Paths(files) == Paths(files');
  }

  /** A variant's metrics do not depend on the order of the files. */
  lemma MetricsIgnoreFileOrder(files: seq<File>, files': seq<File>, list: seq<Row>, list': seq<Row>, key: Key, name: string)
    requires multiset(files) == multiset(files')
    requires OneRowEach(list, files, key) && OneRowEach(list', files', key)
    ensures MetricSummary(Metrics(list, name)) == MetricSummary(Metrics(list', name))
  {
    ListGivesColumn(list, files, key, name);
    ListGivesColumn(list', files', key, name);
    ColumnIgnoresOrder(files, files', key, name);
    SummaryIgnoresOrder(Metrics(list, name), Metrics(list', name));
  }

  lemma PresentMembers(values: seq<Metric>, x: real)
    ensures x in Present(values) <==> Number(x) in values
  {
    PresentCounts(values, x);
    assert x in multiset(Present(values)) <==> Number(x) in multiset(values);
  }

  /** A summary counts the numbers, and its least and greatest are numbers that bound all of them. */
  lemma SummaryBounds(values: seq<Metric>, x: real)
    requires NotNumeric !in values && Number(x) in values
    ensures var r := MetricSummary(values);
      && r.Summary? && r.count == |Present(values)|
      && r.least.Some? && Number(r.least.value) in values && r.least.value <= x
      && r.greatest.Some? && Number(r.greatest.value) in values && x <= r.greatest.value
  {
    PresentMembers(values, x);
    PresentMembers(values, Least(Present(values)));
    PresentMembers(values, Greatest(Present(values)));
  }

  /** Its median has at least half of the numbers at or below it, and at most half below anything less; its deviation likewise. */
  lemma SummaryHalves(values: seq<Metric>, y: real)
    requires NotNumeric !in values && Present(values) != []
    ensures var r, present := MetricSummary(values), Present(values);
      && r.Summary? && r.median.Some? && r.mad.Some?
      && 2 * Count(present, r.median.value) >= r.count && (y < r.median.value ==> 2 * Count(present, y) <= r.count)
      && 2 * Near(present, r.median.value, r.mad.value) >= r.count
      && (y < r.mad.value ==> 2 * Near(present, r.median.value, y) <= r.count)
  {
    MedianHalves(Present(values), y);
    MadHoldsHalf(Present(values), y);
  }

  /** Only something that is no number is refused. */
  lemma SummaryRefuses(values: seq<Metric>)
    ensures MetricSummary(values).NoNumber? <==> NotNumeric in values
  {
  }

  /** At least half of the numbers present lie within one deviation of the median. */
  lemma SummaryHoldsHalf(values: seq<Metric>)
    requires NotNumeric !in values
    ensures MetricSummary(values).Summary?
    ensures MetricSummary(values).median.Some? <==> exists x :: Number(x) in values
    ensures MetricSummary(values).median.Some? ==>
      && MetricSummary(values).mad.Some?
      && 2 * Near(Present(values), MetricSummary(values).median.value, MetricSummary(values).mad.value) >= MetricSummary(values).count
  {
    var present := Present(values);
    if present != [] {
      MadHoldsHalf(present, 0.0);
      PresentCounts(values, present[0]);
      assert present[0] in multiset(present);
      assert Number(present[0]) in multiset(values);
    } else {
      forall x
        ensures Number(x) !in values
      {
        PresentCounts(values, x);
        assert Number(x) !in multiset(values);
      }
    }
  }
}
