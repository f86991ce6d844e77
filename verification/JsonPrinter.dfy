/**
 An ASCII printer of JSON values, and with it the round trip of whole arrays: printed objects with
 any space around them stream back to the same list.
 */
module JsonPrinter {
  import opened Wrappers
  import opened PyText
  import opened JsonScanner
  import opened JsonLocality
  import opened JsonGrammar
  import opened JsonArrayReader
  import opened JsonArrayTheorems

  /** The four hexadecimal digits of a number below 0x10000. */
  function HexOf(n: nat): (digits: seq<HexDigit>)
    requires n < 0x1_0000
    ensures HexOk(digits) && HexCode(digits) == n
  {
    assert n / 16 == n / 256 * 16 + n / 16 % 16 && n / 256 == n / 4096 * 16 + n / 256 % 16;
    [HexDigit(n / 4096, false), HexDigit(n / 256 % 16, false), HexDigit(n / 16 % 16, false), HexDigit(n % 16, false)]
  }

  predicate IsPlain(c: nat) { 0x20 <= c < 0x7F && c != 0x22 && c != 0x5C }

  /** One code point: itself, a `\uXXXX` escape, or a pair of surrogate escapes. */
  function UnitsOf(c: nat): (units: seq<Unit>)
    requires c <= 0x10_FFFF
    ensures |units| == 1 || |units| == 2
  {
    if IsPlain(c) then [Plain(c as char)]
    else if c < 0x1_0000 then [Hex(HexOf(c))]
    else [Hex(HexOf(HighOf(c))), Hex(HexOf(LowOf(c)))]
  }

  function HighOf(c: nat): (high: nat)
    requires 0x1_0000 <= c <= 0x10_FFFF
    ensures 0xD800 <= high < 0xDC00
  {
    0xD800 + (c - 0x1_0000) / 0x400
  }

  function LowOf(c: nat): (low: nat)
    requires 0x1_0000 <= c <= 0x10_FFFF
    ensures 0xDC00 <= low < 0xE000 && c == 0x1_0000 + (HighOf(c) - 0xD800) * 0x400 + (low - 0xDC00)
  {
    0xDC00 + (c - 0x1_0000) % 0x400
  }

  /** Code points, with no high surrogate directly before a low one: that pair is one code point. */
  ghost predicate PrintableText(t: seq<nat>) {
    t != [] ==>
      && t[0] <= 0x10_FFFF
      && (IsHigh(t[0]) && |t| > 1 ==> !IsLow(t[1]))
      && PrintableText(t[1..])
  }

  ghost function PrintedUnits(t: seq<nat>): seq<Unit>
    requires PrintableText(t)
  {
    if t == [] then [] else UnitsOf(t[0]) + PrintedUnits(t[1..])
  }

  lemma UnitsOfAreOk(c: nat)
    requires c <= 0x10_FFFF
    ensures UnitsOk(UnitsOf(c))
    ensures |UnitsOf(c)| == 1 ==> HasCode(UnitsOf(c)[0], c) && (UnitsOf(c)[0].Hex? ==> HexCode(UnitsOf(c)[0].digits) == c)
    ensures |UnitsOf(c)| == 2 ==>
      IsPair(UnitsOf(c)) && c == PairCode(UnitsOf(c)[0].digits, UnitsOf(c)[1].digits)
  {
  }

  /** The escape of a high surrogate that stands alone is not read as one of a pair. */
  lemma NoPairMade(t: seq<nat>)
    requires t != [] && PrintableText(t) && |UnitsOf(t[0])| == 1
    ensures !IsPair(UnitsOf(t[0]) + PrintedUnits(t[1..]))
  {
    UnitsOfAreOk(t[0]);
    if |t| > 1 {
      UnitsOfAreOk(t[1]);
      var units := UnitsOf(t[0]) + PrintedUnits(t[1..]);
      assert t[1..][0] == t[1];
      assert units[1] == UnitsOf(t[1])[0];
    }
  }

  lemma {:induction false} PrintedUnitsMean(t: seq<nat>)
    requires PrintableText(t)
    ensures UnitsOk(PrintedUnits(t)) && HasCodes(PrintedUnits(t), t)
  {
    if t != [] {
      PrintedUnitsMean(t[1..]);
      UnitsOfAreOk(t[0]);
      if |UnitsOf(t[0])| == 1 { NoPairMade(t); }
      CodesPut(UnitsOf(t[0]), t[0], PrintedUnits(t[1..]), t[1..]);
      assert t == [t[0]] + t[1..];
    }
  }

  // ---------------------------------------------------------------- values

  /** Numbers are printed as the texts they were read from. */
  ghost predicate Printable(v: Value)
    decreases v, 1
  {
    match v
    case Null => true
    case Bool(_) => true
    case Num(lexeme) => Denotes(lexeme, v)
    case Str(t) => PrintableText(t)
    case Arr(items) => PrintableAll(items)
    case Obj(members) => PrintableMembers(members)
  }

  ghost predicate PrintableAll(vs: seq<Value>)
    decreases vs, 0
  {
    vs != [] ==> Printable(vs[0]) && PrintableAll(vs[1..])
  }

  ghost predicate PrintableMembers(members: seq<Member>)
    decreases members, 0
  {
    members != [] ==>
      PrintableText(members[0].key) && Printable(members[0].value) && PrintableMembers(members[1..])
  }

  /** The syntax tree that is printed, without any blanks. */
  ghost function TreeOf(v: Value): Tree
    requires Printable(v)
    decreases v, 1
  {
    match v
    case Null => NullTree
    case Bool(b) => BoolTree(b)
    case Num(lexeme) => var tree :| Means(tree, v) && TreeText(tree, v, "") == lexeme; tree
    case Str(t) => StringTree(PrintedUnits(t))
    case Arr(items) => ArrayTree("", ElementsOf(items))
    case Obj(members) => ObjectTree("", EntriesOf(members))
  }

  ghost function ElementsOf(items: seq<Value>): seq<Element>
    requires PrintableAll(items)
    decreases items, 0
  {
    if items == [] then [] else [Element("", TreeOf(items[0]), "")] + ElementsOf(items[1..])
  }

  ghost function EntriesOf(members: seq<Member>): seq<Entry>
    requires PrintableMembers(members)
    decreases members, 0
  {
    if members == [] then []
    else [Entry("", PrintedUnits(members[0].key), "", "", TreeOf(members[0].value), "")] + EntriesOf(members[1..])
  }

  lemma {:induction false} TreeMeans(v: Value)
    requires Printable(v)
    ensures Means(TreeOf(v), v)
    decreases v, 1
  {
    match v
    case Str(t) => PrintedUnitsMean(t);
    case Arr(items) => ElementsMean(items);
    case Obj(members) => EntriesMean(members);
    case _ =>
  }

  lemma {:induction false} ElementsMean(items: seq<Value>)
    requires PrintableAll(items)
    ensures MeanItems(ElementsOf(items), items)
    decreases items, 0
  {
    if items != [] {
      TreeMeans(items[0]);
      ElementsMean(items[1..]);
      assert ElementsOf(items)[1..] == ElementsOf(items[1..]);
    }
  }

  lemma {:induction false} EntriesMean(members: seq<Member>)
    requires PrintableMembers(members)
    ensures MeanMembers(EntriesOf(members), members)
    decreases members, 0
  {
    if members != [] {
      TreeMeans(members[0].value);
      PrintedUnitsMean(members[0].key);
      EntriesMean(members[1..]);
      assert EntriesOf(members)[1..] == EntriesOf(members[1..]);
    }
  }

  ghost function Show(v: Value): string
    requires Printable(v)
  {
    TreeMeans(v);
    TreeText(TreeOf(v), v, "")
  }

  /** Scanning what was printed gives the value back, with nothing left. */
  lemma ScanPrinted(v: Value)
    requires Printable(v)
    ensures Denotes(Show(v), v) && ScanValue(Show(v)) == Got(v, "")
  {
    TreeMeans(v);
    ScanIffDenotes(Show(v), v);
  }

  // ---------------------------------------------------------------- arrays

  /** The space around the objects of an array, chosen freely. */
  datatype Spacing = Spacing(before: string, after: string)

  ghost predicate AllObjects(records: seq<Value>) { forall v | v in records :: v.Obj? }

  ghost function Lay(records: seq<Value>, spaces: seq<Spacing>): seq<Item>
    requires |records| == |spaces| && PrintableAll(records)
  {
    if records == [] then []
    else [Item(spaces[0].before, Show(records[0]), spaces[0].after)] + Lay(records[1..], spaces[1..])
  }

  lemma {:induction false} LayIsLaidOut(records: seq<Value>, spaces: seq<Spacing>)
    requires |records| == |spaces| && PrintableAll(records) && AllObjects(records)
    requires forall sp | sp in spaces :: AllSpace(sp.before) && AllSpace(sp.after)
    ensures ItemsOk(Lay(records, spaces)) && Objects(Lay(records, spaces)) == records
    decreases |records|
  {
    if records != [] {
      ScanPrinted(records[0]);
      LayIsLaidOut(records[1..], spaces[1..]);
      var items := Lay(records, spaces);
      assert items[1..] == Lay(records[1..], spaces[1..]);
      assert records == [records[0]] + records[1..];
    }
  }

  /** Round trip: printed objects, spaced in any way, are read back in order; a limit takes a prefix. */
  lemma PrintedArrayReadsBack(records: seq<Value>, spaces: seq<Spacing>, lead: string, blank: string, tail: string, n: nat)
    requires |records| == |spaces| && PrintableAll(records) && AllObjects(records)
    requires forall sp | sp in spaces :: AllSpace(sp.before) && AllSpace(sp.after)
    requires AllSpace(lead) && AllSpace(blank) && AllSpace(tail)
    ensures var text := LayoutText(Layout(lead, Lay(records, spaces), blank, tail));
            && ReadArray(text, None) == Reading(records, Finished)
            && (n <= |records| ==> ReadArray(text, Some(n)) == Reading(records[..n], LimitReached))
            && (n > |records| ==> ReadArray(text, Some(n)) == Reading(records, Finished))
  {
    var l := Layout(lead, Lay(records, spaces), blank, tail);
    LayIsLaidOut(records, spaces);
    ReadLayout(l);
    LimitTakesPrefix(LayoutText(l), n);
  }
}
