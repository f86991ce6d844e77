/**
 What the array reading is: exactly the texts laid out as an array of objects are read to the end,
 their records are the objects in order, and a limit takes a prefix.
 */
module JsonArrayTheorems {
  import opened Wrappers
  import opened JsonScanner
  import opened JsonLocality
  import opened JsonGrammar
  import opened JsonArrayReader
  import opened PyText

  // ---------------------------------------------------------------- limits

  lemma {:induction false} LimitOfRead(mode: Mode, text: string, n: nat)
    requires n > 0
    ensures var full := Read(mode, text, None);
            Read(mode, text, Some(n)) ==
              if n <= |full.records| then Reading(full.records[..n], LimitReached) else full
    decreases |text|
  {
    var s := SkipSpace(text);
    if s != "" {
      match mode
      case BeforeArray => if s[0] == '[' { LimitOfRead(FirstValue, s[1..], n); }
      case AfterValue => if s[0] == ',' { LimitOfRead(ValueAfterComma, s[1..], n); }
      case _ =>
        if s[0] != ']' && ScanValue(s).Got? && ScanValue(s).value.Obj? && n > 1 {
          LimitOfRead(AfterValue, ScanValue(s).rest, n - 1);
        }
    }
  }

  /** A limit gives the first records of the unlimited reading, and hides what comes after them. */
  lemma LimitTakesPrefix(text: string, n: int)
    ensures var full := ReadArray(text, None);
            ReadArray(text, Some(n)) ==
              if n <= 0 then Reading([], LimitReached)
              else if n <= |full.records| then Reading(full.records[..n], LimitReached)
              else full
  {
    if n > 0 { LimitOfRead(BeforeArray, text, n); }
  }

  // ---------------------------------------------------------------- layouts

  /** One object of an array: its text and the space around it. */
  datatype Item = Item(before: string, body: string, after: string)

  /** An array text; `blank` is the space between the brackets of an empty array. */
  datatype Layout = Layout(lead: string, items: seq<Item>, blank: string, tail: string)

  ghost predicate AllSpace(s: string) { forall i | 0 <= i < |s| :: IsSpace(s[i]) }

  ghost predicate ItemOk(item: Item) {
    && AllSpace(item.before) && AllSpace(item.after)
    && ScanValue(item.body).Got? && ScanValue(item.body).value.Obj? && ScanValue(item.body).rest == ""
  }

  ghost predicate ItemsOk(items: seq<Item>) { forall i | 0 <= i < |items| :: ItemOk(items[i]) }

  ghost predicate LayoutOk(l: Layout) {
    AllSpace(l.lead) && AllSpace(l.blank) && AllSpace(l.tail) && ItemsOk(l.items)
  }

  /** The text of an object with `rest` behind it. */
  function ItemText(item: Item, rest: string): string {
    item.before + (item.body + (item.after + rest))
  }

  /** Further objects, each after a comma, with `rest` behind them. */
  function MoreText(items: seq<Item>, rest: string): string {
    if items == [] then rest else "," + ItemText(items[0], MoreText(items[1..], rest))
  }

  /** What stands after the opening bracket. */
  function InnerText(l: Layout): string {
    var end := "]" + l.tail;
    if l.items == [] then l.blank + end else ItemText(l.items[0], MoreText(l.items[1..], end))
  }

  function LayoutText(l: Layout): string { l.lead + ("[" + InnerText(l)) }

  ghost function Objects(items: seq<Item>): seq<Value>
    requires ItemsOk(items)
  {
    if items == [] then [] else [ScanValue(items[0].body).value] + Objects(items[1..])
  }

  /** The objects of an array are the texts between its spaces and commas that denote an object. */
  lemma ItemDenotes(item: Item)
    ensures ItemOk(item) <==> AllSpace(item.before) && AllSpace(item.after) && exists v: Value :: v.Obj? && Denotes(item.body, v)
    ensures ItemOk(item) ==> Denotes(item.body, Objects([item])[0])
  {
    var r := ScanValue(item.body);
    if r.Got? { ScanIffDenotes(item.body, r.value); }
    if v: Value :| v.Obj? && Denotes(item.body, v) { ScanIffDenotes(item.body, v); }
  }

  /** Each object yielded is the one its text denotes. */
  lemma {:induction false} ObjectsAreDenoted(items: seq<Item>, i: nat)
    requires ItemsOk(items) && i < |items|
    ensures |Objects(items)| == |items| && Denotes(items[i].body, Objects(items)[i]) && Objects(items)[i].Obj?
  {
    ObjectsLength(items);
    if i == 0 {
      ScanIffDenotes(items[0].body, ScanValue(items[0].body).value);
    } else {
      ObjectsAreDenoted(items[1..], i - 1);
    }
  }

  lemma {:induction false} ObjectsLength(items: seq<Item>)
    requires ItemsOk(items)
    ensures |Objects(items)| == |items|
  {
    if items != [] { ObjectsLength(items[1..]); }
  }

  lemma {:induction false} SkipAllSpace(s: string, t: string)
    requires AllSpace(s)
    ensures SkipSpace(s + t) == SkipSpace(t)
  {
    if s == "" {
      assert s + t == t;
    } else {
      assert (s + t)[1..] == s[1..] + t;
      SkipAllSpace(s[1..], t);
    }
  }

  lemma {:induction false} SkipSpaceSplits(s: string)
    ensures var r := SkipSpace(s); s == s[..|s| - |r|] + r && AllSpace(s[..|s| - |r|])
  {
    if s != "" && IsSpace(s[0]) {
      var r := SkipSpace(s[1..]);
      SkipSpaceSplits(s[1..]);
      assert s == [s[0]] + s[1..];
      assert s[..|s| - |r|] == [s[0]] + s[1..][..|s| - 1 - |r|];
    }
  }

  /** Reading one laid-out object, whatever text follows its trailing space. */
  lemma ReadItem(mode: Mode, item: Item, rest: string)
    requires mode == FirstValue || mode == ValueAfterComma
    requires ItemOk(item)
    ensures Read(mode, ItemText(item, rest), None) == Prepend([ScanValue(item.body).value], Read(AfterValue, rest, None))
  {
    var body, follow := item.body, item.after + rest;
    ScanValueExtends(body, follow);
    assert "" + follow == follow;
    var s := body + follow;
    assert s[0] == '{' && SkipSpace(s) == s;
    SkipAllSpace(item.before, s);
    ReadSkips(mode, item.before + s, s, None);
    ReadYields([], mode, s, None, ScanValue(body).value, follow);
    SkipAllSpace(item.after, rest);
    ReadSkips(AfterValue, follow, rest, None);
  }

  lemma ReadEnd(tail: string)
    requires AllSpace(tail)
    ensures Read(AfterValue, "]" + tail, None) == Reading([], Finished)
    ensures Read(FirstValue, "]" + tail, None) == Reading([], Finished)
  {
    assert ("]" + tail)[1..] == tail && tail + "" == tail;
    SkipAllSpace(tail, "");
  }

  lemma {:induction false} ReadMore(items: seq<Item>, tail: string)
    requires ItemsOk(items) && AllSpace(tail)
    ensures Read(AfterValue, MoreText(items, "]" + tail), None) == Reading(Objects(items), Finished)
    decreases |items|
  {
    if items == [] {
      ReadEnd(tail);
    } else {
      var rest := MoreText(items[1..], "]" + tail);
      assert ("," + ItemText(items[0], rest))[1..] == ItemText(items[0], rest);
      ReadItem(ValueAfterComma, items[0], rest);
      ReadMore(items[1..], tail);
    }
  }

  lemma ReadInner(l: Layout)
    requires LayoutOk(l)
    ensures Read(FirstValue, InnerText(l), None) == Reading(Objects(l.items), Finished)
  {
    if l.items == [] {
      SkipAllSpace(l.blank, "]" + l.tail);
      ReadSkips(FirstValue, InnerText(l), "]" + l.tail, None);
      ReadEnd(l.tail);
    } else {
      ReadItem(FirstValue, l.items[0], MoreText(l.items[1..], "]" + l.tail));
      ReadMore(l.items[1..], l.tail);
    }
  }

  /** Every layout is read to the end, and gives its objects in order. */
  lemma ReadLayout(l: Layout)
    requires LayoutOk(l)
    ensures ReadArray(LayoutText(l), None) == Reading(Objects(l.items), Finished)
  {
    SkipAllSpace(l.lead, "[" + InnerText(l));
    assert ("[" + InnerText(l))[1..] == InnerText(l);
    ReadInner(l);
  }

  lemma ClosedBySpace(s: string)
    requires Closing(s) == Finished
    ensures AllSpace(s)
  {
    SkipSpaceSplits(s);
    assert s[..|s|] == s;
  }

  /** Cuts one object off a text that is read to the end; `rest` is what follows its trailing space. */
  lemma FindItem(mode: Mode, text: string) returns (item: Item, rest: string)
    requires mode == FirstValue || mode == ValueAfterComma
    requires Read(mode, text, None).outcome == Finished && SkipSpace(text)[0] != ']'
    ensures ItemOk(item) && text == ItemText(item, rest) && rest == SkipSpace(rest) && |rest| < |text|
    ensures Read(mode, text, None) == Prepend([ScanValue(item.body).value], Read(AfterValue, rest, None))
  {
    ReadFindsObject(mode, text);
    item, rest := CutItem(text);
    ReadItem(mode, item, rest);
  }

  lemma ReadFindsObject(mode: Mode, text: string)
    requires mode == FirstValue || mode == ValueAfterComma
    requires Read(mode, text, None).outcome == Finished && SkipSpace(text)[0] != ']'
    ensures ScanValue(SkipSpace(text)).Got? && ScanValue(SkipSpace(text)).value.Obj?
  {
  }

  /** Cuts a text that starts with an object into the space and the object, and what follows them. */
  lemma CutItem(text: string) returns (item: Item, rest: string)
    requires ScanValue(SkipSpace(text)).Got? && ScanValue(SkipSpace(text)).value.Obj?
    ensures ItemOk(item) && text == ItemText(item, rest) && rest == SkipSpace(rest) && |rest| < |text|
  {
    var s := SkipSpace(text);
    SkipSpaceSplits(text);
    var before := text[..|text| - |s|];
    var body, follow := CutObject(s);
    rest := SkipSpace(follow);
    SkipSpaceSplits(follow);
    item := Item(before, body, follow[..|follow| - |rest|]);
  }

  lemma CutObject(s: string) returns (body: string, follow: string)
    requires ScanValue(s).Got?
    ensures s == body + follow && |follow| < |s| && ScanValue(body) == Got(ScanValue(s).value, "")
  {
    follow := ScanValue(s).rest;
    body := s[..|s| - |follow|];
    ScanValueSuffix(s);
    ScanValueCutOut(s);
  }

  /** The layout of what follows an object of a text that is read to the end. */
  lemma {:induction false} FindMore(text: string) returns (items: seq<Item>, tail: string)
    requires Read(AfterValue, text, None).outcome == Finished && SkipSpace(text) == text
    ensures ItemsOk(items) && AllSpace(tail) && text == MoreText(items, "]" + tail)
    decreases |text|
  {
    if text[0] == ']' {
      items, tail := [], text[1..];
      ClosedBySpace(tail);
      assert text == "]" + tail;
    } else {
      var item, rest := FindItem(ValueAfterComma, text[1..]);
      var more, end := FindMore(rest);
      items, tail := [item] + more, end;
      assert items[1..] == more;
      assert text == "," + text[1..];
    }
  }

  /** The layout of what follows the opening bracket. */
  lemma FindInner(inner: string) returns (l: Layout)
    requires Read(FirstValue, inner, None).outcome == Finished
    ensures LayoutOk(l) && l.lead == "" && InnerText(l) == inner
  {
    if SkipSpace(inner)[0] == ']' {
      l := FindNothing(inner);
    } else {
      var item, rest := FindItem(FirstValue, inner);
      var more, tail := FindMore(rest);
      l := FindSome(item, more, tail);
    }
  }

  lemma FindNothing(inner: string) returns (l: Layout)
    requires Read(FirstValue, inner, None).outcome == Finished && SkipSpace(inner)[0] == ']'
    ensures LayoutOk(l) && l.lead == "" && InnerText(l) == inner
  {
    var t := SkipSpace(inner);
    SkipSpaceSplits(inner);
    ClosedBySpace(t[1..]);
    l := Layout("", [], inner[..|inner| - |t|], t[1..]);
    assert t == "]" + t[1..];
  }

  lemma FindSome(item: Item, more: seq<Item>, tail: string) returns (l: Layout)
    requires ItemOk(item) && ItemsOk(more) && AllSpace(tail)
    ensures LayoutOk(l) && l.lead == "" && InnerText(l) == ItemText(item, MoreText(more, "]" + tail))
  {
    l := Layout("", [item] + more, "", tail);
    assert l.items[1..] == more;
  }

  /** The layout of a text that is read to the end. */
  lemma FindLayout(text: string) returns (l: Layout)
    requires ReadArray(text, None).outcome == Finished
    ensures LayoutOk(l) && LayoutText(l) == text
  {
    var s := SkipSpace(text);
    SkipSpaceSplits(text);
    assert s == "[" + s[1..];
    l := FindInner(s[1..]);
    l := l.(lead := text[..|text| - |s|]);
    assert InnerText(l) == s[1..];
  }

  /** The reader accepts exactly the laid-out arrays, and yields exactly their objects. */
  lemma FinishedIffLayout(text: string)
    ensures ReadArray(text, None).outcome == Finished
        <==> exists l: Layout :: LayoutOk(l) && LayoutText(l) == text
    ensures forall l: Layout :: LayoutOk(l) && LayoutText(l) == text ==>
              Objects(l.items) == ReadArray(text, None).records
  {
    forall l: Layout | LayoutOk(l) && LayoutText(l) == text
      ensures ReadArray(text, None) == Reading(Objects(l.items), Finished)
    {
      ReadLayout(l);
    }
    if ReadArray(text, None).outcome == Finished {
      var l := FindLayout(text);
    }
  }

  // ---------------------------------------------------------------- where a reading stops

  /** The outcome says what stands at the text where a reading in that mode stops. */
  ghost predicate Stops(mode: Mode, rest: string, outcome: Outcome) {
    var s := SkipSpace(rest);
    var value := mode.FirstValue? || mode.ValueAfterComma?;
    match outcome
    case Truncated => s == ""
    case NotAnArray => mode.BeforeArray? && s != "" && s[0] != '['
    case ExpectedCommaOrBracket => mode.AfterValue? && s != "" && s[0] != ',' && s[0] != ']'
    case TrailingComma => mode.ValueAfterComma? && s != "" && s[0] == ']'
    case Finished => (mode.FirstValue? || mode.AfterValue?) && s != "" && s[0] == ']' && AllSpace(s[1..])
    case ExtraContent => (mode.FirstValue? || mode.AfterValue?) && s != "" && s[0] == ']' && !AllSpace(s[1..])
    case InvalidJson => value && s != "" && s[0] != ']' && !exists n: nat, v :: n <= |s| && Denotes(s[..n], v)
    case NotAnObject => value && s != "" && exists n: nat, v: Value :: n <= |s| && Denotes(s[..n], v) && !v.Obj?
    case _ => false
  }

  /** Objects after commas, up to where a reading stops: before a value the last comma is read. */
  function StoppedText(items: seq<Item>, mode: Mode, rest: string): string {
    MoreText(items, if mode.ValueAfterComma? then "," + rest else rest)
  }

  lemma ClosingStops(s: string)
    ensures Closing(s) == (if AllSpace(s) then Finished else ExtraContent)
  {
    if AllSpace(s) {
      assert s + "" == s;
      SkipAllSpace(s, "");
    } else if SkipSpace(s) == "" {
      ClosedBySpace(s);
    }
  }

  /** Where a value is expected and no object is found, the reading stops there. */
  lemma StopsAtValue(mode: Mode, text: string)
    requires mode.FirstValue? || mode.ValueAfterComma?
    requires var s := SkipSpace(text); s == "" || s[0] == ']' || ScanValue(s).Fail? || !ScanValue(s).value.Obj?
    ensures Read(mode, text, None).records == [] && Stops(mode, text, Read(mode, text, None).outcome)
  {
    var s := SkipSpace(text);
    if s != "" && s[0] == ']' {
      ClosingStops(s[1..]);
    } else if s != "" {
      ScanFindsPrefix(s);
      if ScanValue(s).Got? {
        var v := ScanValue(s);
        assert Denotes(s[..|s| - |v.rest|], v.value) && !v.value.Obj?;
      }
    }
  }

  lemma StopsAfterValue(text: string)
    requires SkipSpace(text) == text && (text == "" || text[0] != ',')
    ensures Read(AfterValue, text, None).records == [] && Stops(AfterValue, text, Read(AfterValue, text, None).outcome)
  {
    if text != "" && text[0] == ']' {
      ClosingStops(text[1..]);
    }
  }

  /** Where the reading of what follows an object stops, and the objects before that. */
  lemma {:induction false} FindStop(text: string) returns (items: seq<Item>, mode: Mode, rest: string)
    requires SkipSpace(text) == text
    ensures ItemsOk(items) && (mode.AfterValue? || mode.ValueAfterComma?) && text == StoppedText(items, mode, rest)
    ensures Read(AfterValue, text, None).records == Objects(items) && Stops(mode, rest, Read(AfterValue, text, None).outcome)
    decreases |text|
  {
    if text == "" || text[0] != ',' {
      items, mode, rest := [], AfterValue, text;
      StopsAfterValue(text);
    } else {
      var t := text[1..];
      var s := SkipSpace(t);
      assert text == "," + t;
      if s == "" || s[0] == ']' || ScanValue(s).Fail? || !ScanValue(s).value.Obj? {
        items, mode, rest := [], ValueAfterComma, t;
        StopsAtValue(ValueAfterComma, t);
      } else {
        var item, follow := CutItem(t);
        ReadItem(ValueAfterComma, item, follow);
        var more;
        more, mode, rest := FindStop(follow);
        items := [item] + more;
        assert items[1..] == more;
      }
    }
  }

  /** The text after the opening bracket, up to where a reading stops. */
  ghost predicate InnerStopsAt(inner: string, items: seq<Item>, mode: Mode, rest: string) {
    match mode
    case BeforeArray => false
    case FirstValue => inner == rest && items == []
    case _ => items != [] && inner == ItemText(items[0], StoppedText(items[1..], mode, rest))
  }

  lemma FindFirstStop(inner: string) returns (items: seq<Item>, mode: Mode, rest: string)
    ensures ItemsOk(items) && InnerStopsAt(inner, items, mode, rest)
    ensures Read(FirstValue, inner, None).records == Objects(items) && Stops(mode, rest, Read(FirstValue, inner, None).outcome)
  {
    var t := SkipSpace(inner);
    if t == "" || t[0] == ']' || ScanValue(t).Fail? || !ScanValue(t).value.Obj? {
      items, mode, rest := [], FirstValue, inner;
      StopsAtValue(FirstValue, inner);
    } else {
      var item, follow := CutItem(inner);
      ReadItem(FirstValue, item, follow);
      var more;
      more, mode, rest := FindStop(follow);
      items := [item] + more;
      assert items[1..] == more;
    }
  }

  /** Every reading is explained: the objects it yields, and what stands where it stops. */
  lemma ReadingExplained(text: string) returns (lead: string, items: seq<Item>, mode: Mode, rest: string)
    ensures AllSpace(lead) && ItemsOk(items) && ReadArray(text, None).records == Objects(items)
    ensures Stops(mode, rest, ReadArray(text, None).outcome)
    ensures if mode == BeforeArray then text == rest && items == []
            else exists inner :: text == lead + ("[" + inner) && InnerStopsAt(inner, items, mode, rest)
  {
    var s := SkipSpace(text);
    if s == "" || s[0] != '[' {
      lead, items, mode, rest := "", [], BeforeArray, text;
    } else {
      SkipSpaceSplits(text);
      lead := text[..|text| - |s|];
      assert s == "[" + s[1..];
      items, mode, rest := FindFirstStop(s[1..]);
      assert text == lead + ("[" + s[1..]);
    }
  }
}
