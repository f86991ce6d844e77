/**
 The grammar of JSON texts (sections 2 to 7 of RFC 8259, and the three names that Python adds), stated
 apart from the scanner: a text denotes a value if it spells a syntax tree with that meaning. The
 scanner reads exactly the texts that denote a value, and gives the value they denote.
 */
module JsonGrammar {
  import opened PyText
  import opened JsonScanner
  import opened JsonLocality

  // ---------------------------------------------------------------- characters of strings

  /** A hexadecimal digit of value 0 to 15, spelled with a small or a capital letter. */
  datatype HexDigit = HexDigit(value: nat, capital: bool)

  /** One character of a string: itself, a short escape, or a `\uXXXX` escape. */
  datatype Unit =
    | Plain(c: char)
    | Short(letter: char)
    | Hex(digits: seq<HexDigit>)

  const SHORT_LETTERS := "\"\\/bfnrt"

  const SHORT_CODES: seq<nat> := [0x22, 0x5C, 0x2F, 0x08, 0x0C, 0x0A, 0x0D, 0x09]

  const SMALL_DIGITS := "0123456789abcdef"

  const CAPITAL_DIGITS := "0123456789ABCDEF"

  predicate HexOk(digits: seq<HexDigit>) { |digits| == 4 && forall i | 0 <= i < 4 :: digits[i].value < 16 }

  predicate UnitOk(u: Unit) {
    match u
    case Plain(c) => c != '"' && c != '\\' && c >= ' '
    case Short(letter) => letter in SHORT_LETTERS
    case Hex(digits) => HexOk(digits)
  }

  function DigitText(d: HexDigit): char
    requires d.value < 16
  {
    if d.capital then CAPITAL_DIGITS[d.value] else SMALL_DIGITS[d.value]
  }

  function HexText(digits: seq<HexDigit>): string
    requires HexOk(digits)
  {
    [DigitText(digits[0]), DigitText(digits[1]), DigitText(digits[2]), DigitText(digits[3])]
  }

  function HexCode(digits: seq<HexDigit>): nat
    requires |digits| == 4
  {
    digits[0].value * 0x1000 + digits[1].value * 0x100 + digits[2].value * 0x10 + digits[3].value
  }

  /** The spelling of a unit, with `rest` behind it. */
  function UnitText(u: Unit, rest: string): string
    requires UnitOk(u)
  {
    match u
    case Plain(c) => [c] + rest
    case Short(letter) => ['\\', letter] + rest
    case Hex(digits) => ['\\', 'u'] + (HexText(digits) + rest)
  }

  predicate IsShortCode(letter: char, code: nat) {
    exists k | 0 <= k < |SHORT_LETTERS| :: SHORT_LETTERS[k] == letter && SHORT_CODES[k] == code
  }

  /** The code a unit stands for by itself. */
  ghost predicate HasCode(u: Unit, code: nat)
    requires UnitOk(u)
  {
    match u
    case Plain(c) => code == c as nat
    case Short(letter) => IsShortCode(letter, code)
    case Hex(digits) => code == HexCode(digits)
  }

  /** An escaped high surrogate and an escaped low one directly after it stand for one code point. */
  predicate IsPair(units: seq<Unit>) {
    && |units| >= 2 && units[0].Hex? && units[1].Hex? && UnitOk(units[0]) && UnitOk(units[1])
    && 0xD800 <= HexCode(units[0].digits) < 0xDC00 && 0xDC00 <= HexCode(units[1].digits) < 0xE000
  }

  function PairCode(high: seq<HexDigit>, low: seq<HexDigit>): int
    requires HexOk(high) && HexOk(low)
  {
    0x1_0000 + (HexCode(high) - 0xD800) * 0x400 + (HexCode(low) - 0xDC00)
  }

  ghost predicate UnitsOk(units: seq<Unit>) { forall i | 0 <= i < |units| :: UnitOk(units[i]) }

  /** The code points that units stand for. */
  ghost predicate HasCodes(units: seq<Unit>, codes: seq<nat>)
    requires UnitsOk(units)
    decreases |units|
  {
    if units == [] then codes == []
    else if IsPair(units) then
      && codes != [] && HasCodes(units[2..], codes[1..])
      && codes[0] == PairCode(units[0].digits, units[1].digits)
    else codes != [] && HasCode(units[0], codes[0]) && HasCodes(units[1..], codes[1..])
  }

  function UnitsText(units: seq<Unit>, rest: string): string
    requires UnitsOk(units)
  {
    if units == [] then rest else UnitText(units[0], UnitsText(units[1..], rest))
  }

  /** A quoted string, with `rest` behind it. */
  function StringText(units: seq<Unit>, rest: string): string
    requires UnitsOk(units)
  {
    "\"" + UnitsText(units, "\"" + rest)
  }

  // ---------------------------------------------------------------- what the scanner makes of them

  lemma ScanDigit(d: HexDigit)
    requires d.value < 16
    ensures HexValue(DigitText(d)) == d.value
  {
    var v := d.value;
    assert v == 0 || v == 1 || v == 2 || v == 3 || v == 4 || v == 5 || v == 6 || v == 7
        || v == 8 || v == 9 || v == 10 || v == 11 || v == 12 || v == 13 || v == 14 || v == 15;
  }

  lemma FindDigit(c: char) returns (d: HexDigit)
    requires HexValue(c) >= 0
    ensures d.value < 16 && DigitText(d) == c && d.value == HexValue(c)
  {
    d := HexDigit(HexValue(c), 'A' <= c <= 'F');
    var v := d.value;
    assert v == 0 || v == 1 || v == 2 || v == 3 || v == 4 || v == 5 || v == 6 || v == 7
        || v == 8 || v == 9 || v == 10 || v == 11 || v == 12 || v == 13 || v == 14 || v == 15;
  }

  lemma ScanHexText(digits: seq<HexDigit>, rest: string)
    requires HexOk(digits)
    ensures ScanHex4(HexText(digits) + rest) == Got(HexCode(digits), rest)
  {
    ScanDigit(digits[0]);
    ScanDigit(digits[1]);
    ScanDigit(digits[2]);
    ScanDigit(digits[3]);
    assert (HexText(digits) + rest)[4..] == rest;
  }

  lemma FindHexText(s: string) returns (digits: seq<HexDigit>)
    requires ScanHex4(s).Got?
    ensures HexOk(digits)
    ensures s == HexText(digits) + ScanHex4(s).rest && HexCode(digits) == ScanHex4(s).value
  {
    var a := FindDigit(s[0]);
    var b := FindDigit(s[1]);
    var c := FindDigit(s[2]);
    var d := FindDigit(s[3]);
    digits := [a, b, c, d];
    assert s == s[..4] + s[4..];
  }

  lemma ShortIsScanned(letter: char)
    requires letter in SHORT_LETTERS
    ensures ShortEscape(letter) >= 0 && IsShortCode(letter, ShortEscape(letter)) && letter != 'u'
  {
    var k :| 0 <= k < |SHORT_LETTERS| && SHORT_LETTERS[k] == letter;
    assert k == 0 || k == 1 || k == 2 || k == 3 || k == 4 || k == 5 || k == 6 || k == 7;
    assert SHORT_CODES[k] == ShortEscape(letter);
  }

  lemma ShortCodeIsScanned(letter: char, code: nat)
    requires IsShortCode(letter, code)
    ensures ShortEscape(letter) == code
  {
    var k :| 0 <= k < |SHORT_LETTERS| && SHORT_LETTERS[k] == letter && SHORT_CODES[k] == code;
    assert k == 0 || k == 1 || k == 2 || k == 3 || k == 4 || k == 5 || k == 6 || k == 7;
  }

  lemma ScannedIsShort(letter: char)
    requires ShortEscape(letter) >= 0
    ensures letter in SHORT_LETTERS
  {
    assert SHORT_LETTERS[0] == '"' && SHORT_LETTERS[1] == '\\' && SHORT_LETTERS[2] == '/' && SHORT_LETTERS[3] == 'b';
    assert SHORT_LETTERS[4] == 'f' && SHORT_LETTERS[5] == 'n' && SHORT_LETTERS[6] == 'r' && SHORT_LETTERS[7] == 't';
  }

  /** The text goes on with an escaped low surrogate. */
  predicate LowFollows(rest: string) {
    |rest| >= 2 && rest[0] == '\\' && rest[1] == 'u' && ScanHex4(rest[2..]).Got? && IsLow(ScanHex4(rest[2..]).value)
  }

  /** ... or with an escape that is none. */
  predicate BrokenHexFollows(rest: string) {
    |rest| >= 2 && rest[0] == '\\' && rest[1] == 'u' && ScanHex4(rest[2..]).Fail?
  }

  lemma UnitFollows(units: seq<Unit>, rest: string)
    requires UnitsOk(units)
    ensures var s := UnitsText(units, "\"" + rest);
      && !BrokenHexFollows(s)
      && (LowFollows(s) <==> units != [] && units[0].Hex? && IsLow(HexCode(units[0].digits)))
  {
    if units != [] {
      var more := UnitsText(units[1..], "\"" + rest);
      match units[0]
      case Plain(c) =>
      case Short(letter) => ShortIsScanned(letter);
      case Hex(digits) =>
        ScanHexText(digits, more);
        assert UnitText(units[0], more)[2..] == HexText(digits) + more;
    }
  }

  lemma ScanHexEscape(digits: seq<HexDigit>, rest: string)
    requires HexOk(digits)
    requires IsHigh(HexCode(digits)) ==> !BrokenHexFollows(rest) && !LowFollows(rest)
    ensures ScanEscape("u" + (HexText(digits) + rest)) == Got(HexCode(digits), rest)
  {
    ScanHexText(digits, rest);
    assert ("u" + (HexText(digits) + rest))[1..] == HexText(digits) + rest;
  }

  lemma ScanHexPair(high: seq<HexDigit>, low: seq<HexDigit>, rest: string)
    requires HexOk(high)
    requires HexOk(low)
    requires IsHigh(HexCode(high)) && IsLow(HexCode(low))
    ensures ScanEscape("u" + (HexText(high) + (['\\', 'u'] + (HexText(low) + rest))))
         == Got(JoinSurrogates(HexCode(high), HexCode(low)), rest)
  {
    var second := ['\\', 'u'] + (HexText(low) + rest);
    ScanHexText(high, second);
    ScanHexText(low, rest);
    assert ("u" + (HexText(high) + second))[1..] == HexText(high) + second;
    assert second[2..] == HexText(low) + rest;
  }

  lemma ScanOneUnit(s: string, c: nat, rest: string)
    requires s != "" && s[0] == '\\' && ScanEscape(s[1..]) == Got(c, rest) && ScanChars(rest).Got?
    ensures ScanChars(s) == Got([c] + ScanChars(rest).value, ScanChars(rest).rest)
  {
  }

  lemma ScanPlainUnit(c: char, rest: string)
    requires c != '"' && c != '\\' && c >= ' ' && ScanChars(rest).Got?
    ensures ScanChars([c] + rest) == Got([c as nat] + ScanChars(rest).value, ScanChars(rest).rest)
  {
    assert ([c] + rest)[1..] == rest;
  }

  /** Reading one unit, or a pair, before a text that is read. */
  lemma ScanUnit(u: Unit, code: nat, rest: string)
    requires UnitOk(u) && HasCode(u, code) && ScanChars(rest).Got?
    requires u.Hex? && IsHigh(code) ==> !BrokenHexFollows(rest) && !LowFollows(rest)
    ensures ScanChars(UnitText(u, rest)) == Got([code] + ScanChars(rest).value, ScanChars(rest).rest)
  {
    var s := UnitText(u, rest);
    match u
    case Plain(c) => ScanPlainUnit(c, rest);
    case Short(letter) =>
      ShortIsScanned(letter);
      ShortCodeIsScanned(letter, code);
      assert s[1..] == [letter] + rest && s[1..][1..] == rest;
      ScanOneUnit(s, code, rest);
    case Hex(digits) =>
      ScanHexEscape(digits, rest);
      assert s[1..] == "u" + (HexText(digits) + rest);
      ScanOneUnit(s, code, rest);
  }

  lemma ScanPair(units: seq<Unit>, code: nat, rest: string, s: string, more: string)
    requires UnitsOk(units) && IsPair(units) && s == UnitsText(units, rest) && more == UnitsText(units[2..], rest)
    requires code == PairCode(units[0].digits, units[1].digits)
    requires ScanChars(more).Got?
    ensures ScanChars(s) == Got([code] + ScanChars(more).value, ScanChars(more).rest)
  {
    PairText(units, rest);
    ScanHexPair(units[0].digits, units[1].digits, more);
    PairIsJoined(units[0].digits, units[1].digits);
    ScanOneUnit(s, code, more);
  }

  lemma PairIsJoined(high: seq<HexDigit>, low: seq<HexDigit>)
    requires HexOk(high) && HexOk(low) && IsHigh(HexCode(high)) && IsLow(HexCode(low))
    ensures PairCode(high, low) == JoinSurrogates(HexCode(high), HexCode(low))
  {
  }

  /** The scanner reads the units of a string and their code points. */
  lemma {:induction false} ScanUnits(units: seq<Unit>, codes: seq<nat>, rest: string)
    requires UnitsOk(units) && HasCodes(units, codes)
    ensures ScanChars(UnitsText(units, "\"" + rest)) == Got(codes, rest)
    decreases |units|
  {
    if units == [] {
      assert ("\"" + rest)[1..] == rest;
    } else if IsPair(units) {
      ScanUnits(units[2..], codes[1..], rest);
      ScanFirstPair(units, codes[0], rest);
      assert codes == [codes[0]] + codes[1..];
    } else {
      ScanUnits(units[1..], codes[1..], rest);
      ScanFirstUnit(units, codes[0], rest);
      assert codes == [codes[0]] + codes[1..];
    }
  }

  lemma ScanFirstPair(units: seq<Unit>, code: nat, rest: string)
    requires UnitsOk(units) && IsPair(units) && code == PairCode(units[0].digits, units[1].digits)
    requires ScanChars(UnitsText(units[2..], "\"" + rest)).Got?
    ensures var more := ScanChars(UnitsText(units[2..], "\"" + rest));
      ScanChars(UnitsText(units, "\"" + rest)) == Got([code] + more.value, more.rest)
  {
    ScanPair(units, code, "\"" + rest, UnitsText(units, "\"" + rest), UnitsText(units[2..], "\"" + rest));
  }

  lemma ScanFirstUnit(units: seq<Unit>, code: nat, rest: string)
    requires UnitsOk(units) && units != [] && !IsPair(units) && HasCode(units[0], code)
    requires ScanChars(UnitsText(units[1..], "\"" + rest)).Got?
    ensures var more := ScanChars(UnitsText(units[1..], "\"" + rest));
      ScanChars(UnitsText(units, "\"" + rest)) == Got([code] + more.value, more.rest)
  {
    UnitFollows(units[1..], rest);
    ScanUnit(units[0], code, UnitsText(units[1..], "\"" + rest));
  }

  lemma PairText(units: seq<Unit>, rest: string)
    requires UnitsOk(units) && IsPair(units)
    ensures var s, more := UnitsText(units, rest), UnitsText(units[2..], rest);
      s[0] == '\\' && s[1..] == "u" + (HexText(units[0].digits) + (['\\', 'u'] + (HexText(units[1].digits) + more)))
  {
    assert units[1..][0] == units[1] && units[1..][1..] == units[2..];
  }

  /** What one step of the scanner reads is a unit, or a pair. */
  lemma FindUnit(s: string) returns (units: seq<Unit>)
    requires s != "" && s[0] == '\\' && ScanEscape(s[1..]).Got?
    ensures UnitsOk(units) && units != [] && s == UnitsText(units, ScanEscape(s[1..]).rest)
    ensures (|units| == 1 && HasCode(units[0], ScanEscape(s[1..]).value)
               && (units[0].Hex? && IsHigh(ScanEscape(s[1..]).value) ==> !LowFollows(ScanEscape(s[1..]).rest)))
         || (|units| == 2 && IsPair(units) && ScanEscape(s[1..]).value ==
               PairCode(units[0].digits, units[1].digits))
  {
    if s[1] != 'u' {
      units := FindShort(s);
    } else {
      units := FindHex(s);
    }
  }

  lemma FindShort(s: string) returns (units: seq<Unit>)
    requires |s| >= 2 && s[0] == '\\' && ShortEscape(s[1]) >= 0
    ensures |units| == 1 && units[0].Short? && UnitsOk(units) && s == UnitsText(units, s[2..])
    ensures HasCode(units[0], ShortEscape(s[1]))
  {
    ScannedIsShort(s[1]);
    ShortIsScanned(s[1]);
    units := [Short(s[1])];
    assert s == ['\\', s[1]] + s[2..];
  }

  lemma OneUnitText(u: Unit, rest: string)
    requires UnitOk(u)
    ensures UnitsText([u], rest) == UnitText(u, rest)
  {
    assert [u][1..] == [];
  }

  lemma TwoUnitsText(u: Unit, w: Unit, rest: string)
    requires UnitOk(u) && UnitOk(w)
    ensures UnitsText([u, w], rest) == UnitText(u, UnitText(w, rest))
  {
    assert [u, w][1..] == [w];
    OneUnitText(w, rest);
  }

  lemma FindHex(s: string) returns (units: seq<Unit>)
    requires |s| >= 2 && s[0] == '\\' && s[1] == 'u' && ScanEscape(s[1..]).Got?
    ensures UnitsOk(units) && units != [] && s == UnitsText(units, ScanEscape(s[1..]).rest)
    ensures (|units| == 1 && HasCode(units[0], ScanEscape(s[1..]).value)
               && (IsHigh(ScanEscape(s[1..]).value) ==> !LowFollows(ScanEscape(s[1..]).rest)))
         || (|units| == 2 && IsPair(units) && ScanEscape(s[1..]).value ==
               PairCode(units[0].digits, units[1].digits))
  {
    assert s[1..][1..] == s[2..];
    var high := FindHexUnit(s);
    var h := ScanHex4(s[2..]);
    if IsHigh(h.value) && LowFollows(h.rest) {
      var low := FindHexUnit(h.rest);
      units := [high, low];
      TwoUnitsText(high, low, ScanHex4(h.rest[2..]).rest);
      PairIsJoined(high.digits, low.digits);
    } else {
      units := [high];
      OneUnitText(high, h.rest);
    }
  }

  lemma FindHexUnit(s: string) returns (u: Unit)
    requires |s| >= 2 && s[0] == '\\' && s[1] == 'u' && ScanHex4(s[2..]).Got?
    ensures u.Hex? && UnitOk(u) && s == UnitText(u, ScanHex4(s[2..]).rest) && HexCode(u.digits) == ScanHex4(s[2..]).value
  {
    var digits := FindHexText(s[2..]);
    u := Hex(digits);
    assert s == ['\\', 'u'] + s[2..];
  }

  lemma {:induction false} UnitsTextAppend(a: seq<Unit>, b: seq<Unit>, rest: string)
    requires UnitsOk(a) && UnitsOk(b)
    ensures UnitsText(a + b, rest) == UnitsText(a, UnitsText(b, rest))
  {
    if a == [] {
      assert a + b == b;
    } else {
      assert (a + b)[1..] == a[1..] + b;
      UnitsTextAppend(a[1..], b, rest);
    }
  }

  lemma CodesPut(first: seq<Unit>, code: nat, units: seq<Unit>, codes: seq<nat>)
    requires UnitsOk(first) && UnitsOk(units) && HasCodes(units, codes)
    requires (|first| == 1 && HasCode(first[0], code) && !IsPair(first + units))
          || (|first| == 2 && IsPair(first) &&
              code == PairCode(first[0].digits, first[1].digits))
    ensures HasCodes(first + units, [code] + codes)
  {
    assert (first + units)[|first|..] == units;
    assert ([code] + codes)[1..] == codes;
  }

  /** What the scanner reads as the inside of a string are units and their code points. */
  lemma {:induction false} FindUnits(s: string) returns (units: seq<Unit>)
    requires ScanChars(s).Got?
    ensures UnitsOk(units) && HasCodes(units, ScanChars(s).value) && s == UnitsText(units, "\"" + ScanChars(s).rest)
    decreases |s|
  {
    var rest := ScanChars(s).rest;
    if s[0] == '"' {
      units := [];
      assert s == "\"" + s[1..];
    } else if s[0] == '\\' {
      var c := ScanEscape(s[1..]);
      var more := FindUnits(c.rest);
      var first := FindUnit(s);
      units := first + more;
      UnitsTextAppend(first, more, "\"" + rest);
      UnitFollows(more, rest);
      CodesPut(first, c.value, more, ScanChars(c.rest).value);
    } else {
      var more := FindUnits(s[1..]);
      units := [Plain(s[0])] + more;
      assert s == [s[0]] + s[1..];
      UnitsTextAppend([Plain(s[0])], more, "\"" + rest);
      OneUnitText(Plain(s[0]), s[1..]);
      CodesPut([Plain(s[0])], s[0] as nat, more, ScanChars(s[1..]).value);
    }
  }

  // ---------------------------------------------------------------- numbers

  datatype Exponent = NoExponent | Exponent(mark: char, sign: string, digits: string)

  /** A sign, whole digits, fraction digits if there is a fraction, and an exponent. */
  datatype Number = Number(minus: bool, whole: string, fraction: string, exponent: Exponent)

  ghost predicate AllDigits(s: string) { forall i | 0 <= i < |s| :: '0' <= s[i] <= '9' }

  ghost predicate ExponentOk(e: Exponent) {
    e.Exponent? ==>
      && (e.mark == 'e' || e.mark == 'E')
      && (e.sign == "" || e.sign == "+" || e.sign == "-")
      && e.digits != "" && AllDigits(e.digits)
  }

  /** Digits, of which only a single zero may come first. */
  ghost predicate NumberOk(n: Number) {
    && n.whole != "" && AllDigits(n.whole) && (|n.whole| > 1 ==> n.whole[0] != '0')
    && AllDigits(n.fraction) && ExponentOk(n.exponent)
  }

  function ExponentText(e: Exponent, rest: string): string {
    if e.NoExponent? then rest else [e.mark] + (e.sign + (e.digits + rest))
  }

  function FractionText(fraction: string, rest: string): string {
    if fraction == "" then rest else "." + (fraction + rest)
  }

  function UnsignedText(n: Number, rest: string): string {
    n.whole + FractionText(n.fraction, ExponentText(n.exponent, rest))
  }

  function NumberText(n: Number, rest: string): string {
    if n.minus then "-" + UnsignedText(n, rest) else UnsignedText(n, rest)
  }

  lemma ExponentAppend(e: Exponent, rest: string)
    ensures ExponentText(e, rest) == ExponentText(e, "") + rest
  {
  }

  lemma FractionAppend(fraction: string, middle: string, rest: string)
    ensures FractionText(fraction, middle + rest) == FractionText(fraction, middle) + rest
  {
  }

  lemma NumberAppend(n: Number, rest: string)
    ensures NumberText(n, rest) == NumberText(n, "") + rest
  {
    ExponentAppend(n.exponent, rest);
    FractionAppend(n.fraction, ExponentText(n.exponent, ""), rest);
  }

  lemma {:induction false} DropAllDigits(digits: string, rest: string)
    requires AllDigits(digits) && (rest == "" || !IsDigit(rest[0]))
    ensures DropDigits(digits + rest) == rest
  {
    if digits == "" {
      assert digits + rest == rest;
    } else {
      assert (digits + rest)[1..] == digits[1..] + rest;
      DropAllDigits(digits[1..], rest);
    }
  }

  lemma {:induction false} FindDigits(s: string) returns (digits: string)
    ensures AllDigits(digits) && s == digits + DropDigits(s)
    ensures s != "" && IsDigit(s[0]) ==> digits != "" && digits[0] == s[0]
  {
    if s != "" && IsDigit(s[0]) {
      digits := FindDigits(s[1..]);
      digits := [s[0]] + digits;
      assert s == [s[0]] + s[1..];
    } else {
      digits := "";
    }
  }

  lemma ScanExponent(e: Exponent, rest: string)
    requires ExponentOk(e) && Delimited(rest)
    ensures DropExponent(ExponentText(e, rest)) == rest
  {
    if e.Exponent? {
      var s := ExponentText(e, rest);
      if e.sign == "" {
        assert s[1..] == e.digits + rest;
      } else {
        assert s[2..] == e.digits + rest && s[1] == e.sign[0] && s[2] == e.digits[0];
      }
      DropAllDigits(e.digits, rest);
    }
  }

  lemma FindExponent(s: string) returns (e: Exponent)
    ensures ExponentOk(e) && s == ExponentText(e, DropExponent(s))
  {
    if DropExponent(s) == s {
      e := NoExponent;
    } else {
      var k := if IsDigit(s[1]) then 1 else 2;
      var digits := FindDigits(s[k..]);
      e := Exponent(s[0], s[1..k], digits);
      assert s == [s[0]] + (s[1..k] + s[k..]);
    }
  }

  /** What may stand behind the whole digits, or behind the fraction. */
  lemma ExponentStart(e: Exponent, rest: string)
    requires ExponentOk(e) && Delimited(rest)
    ensures var s := ExponentText(e, rest); s == "" || (!IsDigit(s[0]) && s[0] != '.')
  {
  }

  lemma ScanFraction(fraction: string, rest: string)
    requires AllDigits(fraction) && (rest == "" || (!IsDigit(rest[0]) && rest[0] != '.'))
    ensures DropFraction(FractionText(fraction, rest)) == rest
  {
    if fraction != "" {
      assert FractionText(fraction, rest)[1..] == fraction + rest;
      DropAllDigits(fraction, rest);
    }
  }

  lemma FindFraction(s: string) returns (fraction: string)
    ensures AllDigits(fraction) && s == FractionText(fraction, DropFraction(s))
  {
    if |s| >= 2 && s[0] == '.' && IsDigit(s[1]) {
      fraction := FindDigits(s[1..]);
      assert s == "." + s[1..];
    } else {
      fraction := "";
    }
  }

  lemma ScanWhole(whole: string, rest: string)
    requires whole != "" && AllDigits(whole) && (|whole| > 1 ==> whole[0] != '0') && (rest == "" || !IsDigit(rest[0]))
    ensures ScanInt(whole + rest) == Got((), rest)
  {
    assert (whole + rest)[1..] == whole[1..] + rest;
    DropAllDigits(whole[1..], rest);
    assert whole[0] == '0' ==> whole[1..] + rest == rest;
  }

  lemma FindWhole(s: string) returns (whole: string)
    requires ScanInt(s).Got?
    ensures whole != "" && AllDigits(whole) && (|whole| > 1 ==> whole[0] != '0') && s == whole + ScanInt(s).rest
  {
    if s[0] == '0' {
      whole := "0";
      assert s == "0" + s[1..];
    } else {
      var digits := FindDigits(s[1..]);
      whole := [s[0]] + digits;
      FirstDigit(s, digits, DropDigits(s[1..]));
    }
  }

  lemma FirstDigit(s: string, digits: string, rest: string)
    requires s != "" && IsDigit(s[0]) && AllDigits(digits) && s[1..] == digits + rest
    ensures AllDigits([s[0]] + digits) && s == ([s[0]] + digits) + rest
  {
    assert s == [s[0]] + s[1..];
  }

  lemma ScanUnsigned(n: Number, rest: string)
    requires NumberOk(n) && Delimited(rest)
    ensures var s := UnsignedText(n, rest);
      && s != "" && IsDigit(s[0]) && ScanInt(s).Got? && DropExponent(DropFraction(ScanInt(s).rest)) == rest
  {
    var e := ExponentText(n.exponent, rest);
    var f := FractionText(n.fraction, e);
    ExponentStart(n.exponent, rest);
    assert f == "" || !IsDigit(f[0]);
    ScanWhole(n.whole, f);
    ScanFraction(n.fraction, e);
    ScanExponent(n.exponent, rest);
  }

  /** The scanner reads a number text, before anything that can stand behind it. */
  lemma ScanNumberText(n: Number, rest: string)
    requires NumberOk(n) && Delimited(rest)
    ensures NumberText(n, rest) != "" && ScanAtom(NumberText(n, rest)) == Got(Num(NumberText(n, "")), rest)
    ensures var c := NumberText(n, rest)[0]; IsDigit(c) || c == '-'
  {
    var s := NumberText(n, rest);
    ScanUnsigned(n, rest);
    NumberAppend(n, rest);
    if n.minus { assert s[1..] == UnsignedText(n, rest); }
    assert s[..|s| - |rest|] == NumberText(n, "");
    NumberIsNoName(s, s);
  }

  /** What the scanner reads as a number is a number text. */
  lemma FindNumber(s: string) returns (n: Number)
    requires ScanNumber(s).Got?
    ensures NumberOk(n) && s == NumberText(n, ScanNumber(s).rest) && ScanNumber(s).value == Num(NumberText(n, ""))
  {
    var t := if s[0] == '-' then s[1..] else s;
    var whole := FindWhole(t);
    var i := ScanInt(t).rest;
    var fraction := FindFraction(i);
    var f := DropFraction(i);
    var exponent := FindExponent(f);
    n := Number(s[0] == '-', whole, fraction, exponent);
    assert t == UnsignedText(n, DropExponent(f));
    if n.minus { assert s == "-" + t; }
    NumberAppend(n, ScanNumber(s).rest);
    assert s[..|s| - |ScanNumber(s).rest|] == NumberText(n, "");
  }

  // ---------------------------------------------------------------- values

  /** A syntax tree, with the blanks around its parts. */
  datatype Tree =
    | NullTree
    | BoolTree(b: bool)
    | NumberTree(n: Number)
    | NotANumber
    | Infinite(minus: bool)
    | StringTree(units: seq<Unit>)
    | ArrayTree(blank: string, elements: seq<Element>)
    | ObjectTree(blank: string, entries: seq<Entry>)

  datatype Element = Element(before: string, tree: Tree, after: string)

  datatype Entry = Entry(before: string, key: seq<Unit>, beforeColon: string, afterColon: string, tree: Tree, after: string)

  /** Spaces, tabs, line feeds and carriage returns. */
  ghost predicate AllBlank(s: string) {
    forall i | 0 <= i < |s| :: s[i] == ' ' || s[i] == '\t' || s[i] == '\n' || s[i] == '\r'
  }

  /** The tree is a syntax tree, and it means the value. */
  ghost predicate Means(tree: Tree, v: Value)
    decreases tree, 1
  {
    match tree
    case NullTree => v == Null
    case BoolTree(b) => v == Bool(b)
    case NumberTree(n) => NumberOk(n) && v == Num(NumberText(n, ""))
    case NotANumber => v == Num("NaN")
    case Infinite(minus) => v == Num(if minus then "-Infinity" else "Infinity")
    case StringTree(units) => v.Str? && UnitsOk(units) && HasCodes(units, v.text)
    case ArrayTree(blank, elements) => v.Arr? && AllBlank(blank) && MeanItems(elements, v.items)
    case ObjectTree(blank, entries) => v.Obj? && AllBlank(blank) && MeanMembers(entries, v.members)
  }

  ghost predicate MeanItems(elements: seq<Element>, items: seq<Value>)
    decreases elements, 0
  {
    |elements| == |items| &&
    (elements != [] ==>
      && AllBlank(elements[0].before) && AllBlank(elements[0].after)
      && Means(elements[0].tree, items[0]) && MeanItems(elements[1..], items[1..]))
  }

  ghost predicate MeanMembers(entries: seq<Entry>, members: seq<Member>)
    decreases entries, 0
  {
    |entries| == |members| &&
    (entries != [] ==>
      && AllBlank(entries[0].before) && AllBlank(entries[0].beforeColon)
      && AllBlank(entries[0].afterColon) && AllBlank(entries[0].after)
      && UnitsOk(entries[0].key) && HasCodes(entries[0].key, members[0].key)
      && Means(entries[0].tree, members[0].value) && MeanMembers(entries[1..], members[1..]))
  }

  /** The text of a tree, with `rest` behind it. */
  ghost function TreeText(tree: Tree, v: Value, rest: string): string
    requires Means(tree, v)
    decreases tree, 1
  {
    match tree
    case NullTree => "null" + rest
    case BoolTree(b) => (if b then "true" else "false") + rest
    case NumberTree(n) => NumberText(n, rest)
    case NotANumber => "NaN" + rest
    case Infinite(minus) => (if minus then "-Infinity" else "Infinity") + rest
    case StringTree(units) => StringText(units, rest)
    case ArrayTree(blank, elements) =>
      "[" + if elements == [] then blank + ("]" + rest) else ElementsText(elements, v.items, rest)
    case ObjectTree(blank, entries) =>
      "{" + if entries == [] then blank + ("}" + rest) else EntriesText(entries, v.members, rest)
  }

  /** Elements with commas between them and the closing bracket. */
  ghost function ElementsText(elements: seq<Element>, items: seq<Value>, rest: string): string
    requires elements != [] && MeanItems(elements, items)
    decreases elements, 0
  {
    elements[0].before + TreeText(elements[0].tree, items[0], elements[0].after + AfterElement(elements, items, rest))
  }

  ghost function AfterElement(elements: seq<Element>, items: seq<Value>, rest: string): string
    requires elements != [] && MeanItems(elements, items)
    decreases elements, 0, 0
  {
    if |elements| == 1 then "]" + rest else "," + ElementsText(elements[1..], items[1..], rest)
  }

  /** Entries with commas between them and the closing brace. */
  ghost function EntriesText(entries: seq<Entry>, members: seq<Member>, rest: string): string
    requires entries != [] && MeanMembers(entries, members)
    decreases entries, 0
  {
    entries[0].before + EntryText(entries, members, rest)
  }

  ghost function EntryText(entries: seq<Entry>, members: seq<Member>, rest: string): string
    requires entries != [] && MeanMembers(entries, members)
    decreases entries, 0, 1
  {
    var e := entries[0];
    StringText(e.key, e.beforeColon + (":" + (e.afterColon +
      TreeText(e.tree, members[0].value, e.after + AfterEntry(entries, members, rest)))))
  }

  ghost function AfterEntry(entries: seq<Entry>, members: seq<Member>, rest: string): string
    requires entries != [] && MeanMembers(entries, members)
    decreases entries, 0, 0
  {
    if |entries| == 1 then "}" + rest else "," + EntriesText(entries[1..], members[1..], rest)
  }

  /** The text spells a tree that means the value. */
  ghost predicate Denotes(text: string, v: Value) {
    exists tree :: Means(tree, v) && TreeText(tree, v, "") == text
  }

  /** The text of an entry after its first blanks, with `behind` behind it. */
  ghost function OneEntryText(e: Entry, m: Member, behind: string): string
    requires UnitsOk(e.key) && Means(e.tree, m.value)
  {
    StringText(e.key, e.beforeColon + (":" + (e.afterColon + TreeText(e.tree, m.value, e.after + behind))))
  }

  ghost predicate EntryOk(e: Entry, m: Member) {
    && AllBlank(e.before) && AllBlank(e.beforeColon) && AllBlank(e.afterColon) && AllBlank(e.after)
    && UnitsOk(e.key) && HasCodes(e.key, m.key) && Means(e.tree, m.value)
  }

  // ---------------------------------------------------------------- every tree is read

  lemma {:induction false} SkipBlanks(blank: string, rest: string)
    requires AllBlank(blank)
    ensures SkipWs(blank + rest) == SkipWs(rest)
  {
    if blank == "" {
      assert blank + rest == rest;
    } else {
      assert (blank + rest)[1..] == blank[1..] + rest;
      SkipBlanks(blank[1..], rest);
    }
  }

  lemma ScanName(s: string, name: string, v: Value, rest: string)
    requires s == name + rest && name != "" && NameFor(name[0]) == Name(name, v)
    requires name[0] != '"' && name[0] != '[' && name[0] != '{'
    ensures ScanValue(s) == Got(v, rest)
  {
    assert s[..|name|] == name && s[|name|..] == rest;
  }

  lemma ScanString(units: seq<Unit>, codes: seq<nat>, rest: string)
    requires UnitsOk(units) && HasCodes(units, codes)
    ensures StringText(units, rest)[1..] == UnitsText(units, "\"" + rest)
    ensures ScanChars(StringText(units, rest)[1..]) == Got(codes, rest)
  {
    ScanUnits(units, codes, rest);
  }

  lemma BracketBehind(after: string, mark: char, rest: string)
    requires AllBlank(after) && (mark == ',' || mark == ']' || mark == '}')
    ensures Delimited(after + ([mark] + rest)) && SkipWs(after + ([mark] + rest)) == [mark] + rest
  {
    SkipBlanks(after, [mark] + rest);
  }

  /** A value never starts with a blank or a closing mark. */
  lemma StartOfValue(s: string)
    requires ScanValue(s).Got?
    ensures s != "" && !IsWs(s[0]) && s[0] != ']' && s[0] != '}'
  {
  }

  lemma ScanLeaf(tree: Tree, v: Value, rest: string)
    requires Means(tree, v) && !tree.ArrayTree? && !tree.ObjectTree? && (tree.NumberTree? ==> Delimited(rest))
    ensures ScanValue(TreeText(tree, v, rest)) == Got(v, rest)
  {
    var s := TreeText(tree, v, rest);
    match tree
    case NullTree => ScanName(s, "null", v, rest);
    case BoolTree(b) => ScanName(s, if b then "true" else "false", v, rest);
    case NumberTree(n) => ScanNumberText(n, rest);
    case NotANumber => ScanName(s, "NaN", v, rest);
    case Infinite(minus) => ScanName(s, if minus then "-Infinity" else "Infinity", v, rest);
    case StringTree(units) => ScanString(units, v.text, rest);
  }

  /** The scanner reads the text of a tree and gives the value it means. */
  lemma {:induction false} ScanTree(tree: Tree, v: Value, rest: string)
    requires Means(tree, v) && (tree.NumberTree? ==> Delimited(rest))
    ensures ScanValue(TreeText(tree, v, rest)) == Got(v, rest)
    decreases tree, 1
  {
    match tree
    case ArrayTree(blank, elements) => ScanArrayTree(blank, elements, v.items, rest);
    case ObjectTree(blank, entries) => ScanObjectTree(blank, entries, v.members, rest);
    case _ => ScanLeaf(tree, v, rest);
  }

  lemma {:induction false} ScanArrayTree(blank: string, elements: seq<Element>, items: seq<Value>, rest: string)
    requires AllBlank(blank) && MeanItems(elements, items)
    ensures ScanArray(if elements == [] then blank + ("]" + rest) else ElementsText(elements, items, rest)) == Got(items, rest)
    decreases elements, 1
  {
    if elements == [] {
      SkipBlanks(blank, "]" + rest);
    } else {
      ScanElements(elements, items, rest);
      ElementsTextIs(elements, items, rest);
      SkipBlanks(elements[0].before, ElementText(elements[0], items[0], AfterElement(elements, items, rest)));
    }
  }

  ghost function ElementText(e: Element, v: Value, behind: string): string
    requires Means(e.tree, v)
  {
    TreeText(e.tree, v, e.after + behind)
  }

  lemma ElementsTextIs(elements: seq<Element>, items: seq<Value>, rest: string)
    requires elements != [] && MeanItems(elements, items)
    ensures AllBlank(elements[0].before) && AllBlank(elements[0].after) && Means(elements[0].tree, items[0])
    ensures ElementsText(elements, items, rest)
         == elements[0].before + ElementText(elements[0], items[0], AfterElement(elements, items, rest))
    ensures |elements| == 1 ==> items == [items[0]]
    ensures |elements| > 1 ==> items == [items[0]] + items[1..] && MeanItems(elements[1..], items[1..])
  {
  }

  lemma {:induction false} ScanElements(elements: seq<Element>, items: seq<Value>, rest: string)
    requires elements != [] && MeanItems(elements, items)
    ensures var inner := ElementText(elements[0], items[0], AfterElement(elements, items, rest));
      inner != "" && !IsWs(inner[0]) && inner[0] != ']' && ScanItems(inner) == Got(items, rest)
    decreases elements, 0
  {
    var e, v := elements[0], items[0];
    var behind := AfterElement(elements, items, rest);
    var inner := ElementText(e, v, behind);
    ElementsTextIs(elements, items, rest);
    if |elements| == 1 {
      BracketBehind(e.after, ']', rest);
      ScanTree(e.tree, v, e.after + behind);
      ScanLastItem(inner, v, e.after + behind, rest);
    } else {
      var more := ElementsText(elements[1..], items[1..], rest);
      BracketBehind(e.after, ',', more);
      ScanTree(e.tree, v, e.after + behind);
      ScanElements(elements[1..], items[1..], rest);
      ElementsTextIs(elements[1..], items[1..], rest);
      var next := ElementText(elements[1], items[1], AfterElement(elements[1..], items[1..], rest));
      SkipBlanks(elements[1].before, next);
      ScanNextItem(inner, v, e.after + behind, more, next, items[1..], rest);
    }
    StartOfValue(inner);
  }

  lemma ScanLastItem(s: string, v: Value, tail: string, rest: string)
    requires ScanValue(s) == Got(v, tail) && SkipWs(tail) == "]" + rest
    ensures ScanItems(s) == Got([v], rest)
  {
    assert ("]" + rest)[1..] == rest;
  }

  lemma ScanNextItem(s: string, v: Value, tail: string, more: string, next: string, vs: seq<Value>, rest: string)
    requires ScanValue(s) == Got(v, tail) && SkipWs(tail) == "," + more
    requires SkipWs(more) == next && ScanItems(next) == Got(vs, rest)
    ensures ScanItems(s) == Got([v] + vs, rest)
  {
    assert ("," + more)[1..] == more;
  }

  lemma {:induction false} ScanObjectTree(blank: string, entries: seq<Entry>, members: seq<Member>, rest: string)
    requires AllBlank(blank) && MeanMembers(entries, members)
    ensures ScanObject(if entries == [] then blank + ("}" + rest) else EntriesText(entries, members, rest)) == Got(members, rest)
    decreases entries, 1
  {
    if entries == [] {
      SkipBlanks(blank, "}" + rest);
    } else {
      ScanEntries(entries, members, rest);
      SkipBlanks(entries[0].before, EntryText(entries, members, rest));
    }
  }

  lemma ScanKeyText(key: seq<Unit>, codes: seq<nat>, before: string, after: string, rest: string)
    requires UnitsOk(key) && HasCodes(key, codes) && AllBlank(before) && AllBlank(after) && rest != "" && !IsWs(rest[0])
    ensures ScanKey(StringText(key, before + (":" + (after + rest)))) == Got(codes, rest)
  {
    ScanString(key, codes, before + (":" + (after + rest)));
    SkipBlanks(before, ":" + (after + rest));
    assert (":" + (after + rest))[1..] == after + rest;
    SkipBlanks(after, rest);
  }

  lemma EntryTextIs(entries: seq<Entry>, members: seq<Member>, rest: string)
    requires entries != [] && MeanMembers(entries, members)
    ensures EntryOk(entries[0], members[0])
    ensures EntryText(entries, members, rest) == OneEntryText(entries[0], members[0], AfterEntry(entries, members, rest))
    ensures |entries| == 1 ==> members == [members[0]]
    ensures |entries| > 1 ==> members == [members[0]] + members[1..] && MeanMembers(entries[1..], members[1..])
  {
  }

  lemma {:induction false} ScanEntries(entries: seq<Entry>, members: seq<Member>, rest: string)
    requires entries != [] && MeanMembers(entries, members)
    ensures var inner := EntryText(entries, members, rest);
      inner != "" && inner[0] == '"' && ScanMembers(inner) == Got(members, rest)
    decreases entries, 0
  {
    var e, m := entries[0], members[0];
    var inner := EntryText(entries, members, rest);
    var behind := AfterEntry(entries, members, rest);
    EntryTextIs(entries, members, rest);
    if |entries| == 1 {
      BracketBehind(e.after, '}', rest);
      var value := ScanEntry(e, m, inner, behind);
      ScanLastMember(inner, m, value, e.after + behind, rest);
    } else {
      var more := EntriesText(entries[1..], members[1..], rest);
      BracketBehind(e.after, ',', more);
      var value := ScanEntry(e, m, inner, behind);
      ScanEntries(entries[1..], members[1..], rest);
      var next := EntryText(entries[1..], members[1..], rest);
      EntryTextIs(entries[1..], members[1..], rest);
      SkipBlanks(entries[1].before, next);
      ScanNextMember(inner, m, value, e.after + behind, more, next, members[1..], rest);
    }
  }

  /** The key and the value of an entry, before something that ends the value. */
  lemma {:induction false} ScanEntry(e: Entry, m: Member, inner: string, behind: string) returns (value: string)
    requires EntryOk(e, m) && Delimited(e.after + behind) && inner == OneEntryText(e, m, behind)
    ensures ScanKey(inner) == Got(m.key, value) && ScanValue(value) == Got(m.value, e.after + behind)
    ensures inner != "" && inner[0] == '"'
    decreases e, 0
  {
    value := TreeText(e.tree, m.value, e.after + behind);
    ScanTree(e.tree, m.value, e.after + behind);
    StartOfValue(value);
    ScanKeyText(e.key, m.key, e.beforeColon, e.afterColon, value);
  }

  lemma ScanLastMember(s: string, m: Member, value: string, tail: string, rest: string)
    requires ScanKey(s) == Got(m.key, value) && ScanValue(value) == Got(m.value, tail) && SkipWs(tail) == "}" + rest
    ensures ScanMembers(s) == Got([m], rest)
  {
    assert ("}" + rest)[1..] == rest;
  }

  lemma ScanNextMember(s: string, m: Member, value: string, tail: string, more: string, next: string, ms: seq<Member>, rest: string)
    requires ScanKey(s) == Got(m.key, value) && ScanValue(value) == Got(m.value, tail) && SkipWs(tail) == "," + more
    requires SkipWs(more) == next && ScanMembers(next) == Got(ms, rest)
    ensures ScanMembers(s) == Got([m] + ms, rest)
  {
    assert ("," + more)[1..] == more;
  }

  // ---------------------------------------------------------------- what is read is a tree

  lemma {:induction false} FindBlank(s: string) returns (blank: string)
    ensures AllBlank(blank) && s == blank + SkipWs(s)
  {
    if s != "" && IsWs(s[0]) {
      blank := FindBlank(s[1..]);
      blank := [s[0]] + blank;
      assert s == [s[0]] + s[1..];
    } else {
      blank := "";
    }
  }

  lemma FindName(s: string) returns (tree: Tree)
    requires s != "" && IsNamed(s, NameFor(s[0]).text)
    ensures Means(tree, NameFor(s[0]).value)
    ensures s == TreeText(tree, NameFor(s[0]).value, s[|NameFor(s[0]).text|..])
  {
    var name := NameFor(s[0]);
    assert s == name.text + s[|name.text|..];
    match s[0]
    case 'n' => tree := NullTree;
    case 't' => tree := BoolTree(true);
    case 'f' => tree := BoolTree(false);
    case 'N' => tree := NotANumber;
    case 'I' => tree := Infinite(false);
    case _ => tree := Infinite(true);
  }

  lemma FindString(s: string) returns (units: seq<Unit>)
    requires s != "" && s[0] == '"' && ScanChars(s[1..]).Got?
    ensures UnitsOk(units) && HasCodes(units, ScanChars(s[1..]).value) && s == StringText(units, ScanChars(s[1..]).rest)
  {
    units := FindUnits(s[1..]);
    assert s == "\"" + s[1..];
  }

  /** What the scanner reads is the text of a tree that means the value it gives. */
  lemma {:induction false} FindTree(s: string) returns (tree: Tree)
    requires ScanValue(s).Got?
    ensures Means(tree, ScanValue(s).value) && s == TreeText(tree, ScanValue(s).value, ScanValue(s).rest)
    decreases |s|, 2
  {
    if s[0] == '"' {
      var units := FindString(s);
      tree := StringTree(units);
    } else if s[0] == '{' {
      tree := FindObject(s[1..]);
      assert s == "{" + s[1..];
    } else if s[0] == '[' {
      tree := FindArray(s[1..]);
      assert s == "[" + s[1..];
    } else if IsNamed(s, NameFor(s[0]).text) {
      tree := FindName(s);
    } else {
      var n := FindNumber(s);
      tree := NumberTree(n);
    }
  }

  lemma {:induction false} FindArray(s: string) returns (tree: Tree)
    requires ScanArray(s).Got?
    ensures Means(tree, Arr(ScanArray(s).value)) && "[" + s == TreeText(tree, Arr(ScanArray(s).value), ScanArray(s).rest)
    decreases |s|, 4
  {
    var blank := FindBlank(s);
    var t := SkipWs(s);
    if t[0] == ']' {
      tree := ArrayTree(blank, []);
      assert t == "]" + t[1..];
    } else {
      var elements := FindElements(t, blank);
      tree := ArrayTree("", elements);
    }
  }

  lemma {:induction false} FindElements(t: string, before: string) returns (elements: seq<Element>)
    requires ScanItems(t).Got? && AllBlank(before)
    ensures elements != [] && MeanItems(elements, ScanItems(t).value)
    ensures before + t == ElementsText(elements, ScanItems(t).value, ScanItems(t).rest)
    decreases |t|, 3
  {
    var v := ScanValue(t);
    var tree := FindTree(t);
    var after := FindBlank(v.rest);
    var u := SkipWs(v.rest);
    var e := Element(before, tree, after);
    if u[0] == ']' {
      elements := [e];
      assert u == "]" + u[1..];
    } else {
      var next := FindBlank(u[1..]);
      var more := FindElements(SkipWs(u[1..]), next);
      elements := [e] + more;
      assert u == "," + u[1..];
      ElementPut(e, v.value, more, ScanItems(SkipWs(u[1..])).value, ScanItems(t).rest);
    }
  }

  lemma ElementPut(e: Element, v: Value, more: seq<Element>, vs: seq<Value>, rest: string)
    requires AllBlank(e.before) && AllBlank(e.after) && Means(e.tree, v) && more != [] && MeanItems(more, vs)
    ensures MeanItems([e] + more, [v] + vs)
    ensures ElementsText([e] + more, [v] + vs, rest)
         == e.before + TreeText(e.tree, v, e.after + ("," + ElementsText(more, vs, rest)))
  {
    assert ([e] + more)[1..] == more && ([v] + vs)[1..] == vs;
  }

  lemma {:induction false} FindObject(s: string) returns (tree: Tree)
    requires ScanObject(s).Got?
    ensures Means(tree, Obj(ScanObject(s).value)) && "{" + s == TreeText(tree, Obj(ScanObject(s).value), ScanObject(s).rest)
    decreases |s|, 2
  {
    var blank := FindBlank(s);
    var t := SkipWs(s);
    if t[0] == '}' {
      tree := ObjectTree(blank, []);
      assert t == "}" + t[1..];
    } else {
      var entries := FindEntries(t, blank);
      tree := ObjectTree("", entries);
      ObjectText(entries, ScanObject(s).value, ScanObject(s).rest, s);
    }
  }

  lemma ObjectText(entries: seq<Entry>, members: seq<Member>, rest: string, s: string)
    requires entries != [] && MeanMembers(entries, members) && s == EntriesText(entries, members, rest)
    ensures Means(ObjectTree("", entries), Obj(members))
    ensures TreeText(ObjectTree("", entries), Obj(members), rest) == "{" + s
  {
  }

  lemma FindColon(r: string) returns (before: string, after: string)
    requires SkipWs(r) != "" && SkipWs(r)[0] == ':'
    ensures AllBlank(before) && AllBlank(after) && r == before + (":" + (after + SkipWs(SkipWs(r)[1..])))
  {
    before := FindBlank(r);
    var t := SkipWs(r);
    after := FindBlank(t[1..]);
    assert t == ":" + t[1..];
  }

  lemma FindKey(s: string) returns (key: seq<Unit>, before: string, after: string)
    requires ScanKey(s).Got?
    ensures UnitsOk(key) && HasCodes(key, ScanKey(s).value) && AllBlank(before) && AllBlank(after)
    ensures s == StringText(key, before + (":" + (after + ScanKey(s).rest)))
  {
    key := FindString(s);
    before, after := FindColon(ScanChars(s[1..]).rest);
  }

  lemma {:induction false} FindEntry(t: string, before: string) returns (e: Entry)
    requires AllBlank(before) && ScanKey(t).Got? && ScanValue(ScanKey(t).rest).Got?
    ensures var v := ScanValue(ScanKey(t).rest); var m := Member(ScanKey(t).value, v.value);
      EntryOk(e, m) && e.before == before && t == OneEntryText(e, m, SkipWs(v.rest))
    decreases |t|, 0
  {
    var key, beforeColon, afterColon := FindKey(t);
    var value := ScanKey(t).rest;
    var tree := FindTree(value);
    var after := FindBlank(ScanValue(value).rest);
    e := Entry(before, key, beforeColon, afterColon, tree, after);
  }

  lemma {:induction false} FindEntries(t: string, before: string) returns (entries: seq<Entry>)
    requires ScanMembers(t).Got? && AllBlank(before)
    ensures entries != [] && MeanMembers(entries, ScanMembers(t).value)
    ensures before + t == EntriesText(entries, ScanMembers(t).value, ScanMembers(t).rest)
    decreases |t|, 1
  {
    var v := ScanValue(ScanKey(t).rest);
    var m := Member(ScanKey(t).value, v.value);
    var u := SkipWs(v.rest);
    var e := FindEntry(t, before);
    if u[0] == '}' {
      entries := [e];
      assert u == "}" + u[1..];
      LastEntry(e, m, u[1..]);
    } else {
      var next := FindBlank(u[1..]);
      var more := FindEntries(SkipWs(u[1..]), next);
      entries := NextEntries(t, e, m, u, next, more);
    }
  }

  lemma NextEntries(t: string, e: Entry, m: Member, u: string, next: string, more: seq<Entry>) returns (entries: seq<Entry>)
    requires EntryOk(e, m) && t == OneEntryText(e, m, u) && |u| > 0 && u[0] == ','
    requires ScanMembers(SkipWs(u[1..])).Got? && u[1..] == next + SkipWs(u[1..]) && more != []
    requires var r := ScanMembers(SkipWs(u[1..]));
      MeanMembers(more, r.value) && next + SkipWs(u[1..]) == EntriesText(more, r.value, r.rest)
    ensures var r := ScanMembers(SkipWs(u[1..]));
      entries != [] && MeanMembers(entries, [m] + r.value) && e.before + t == EntriesText(entries, [m] + r.value, r.rest)
  {
    var r := ScanMembers(SkipWs(u[1..]));
    entries := [e] + more;
    assert u == "," + u[1..];
    EntryPut(e, m, more, r.value, r.rest);
  }

  lemma LastEntry(e: Entry, m: Member, rest: string)
    requires EntryOk(e, m)
    ensures MeanMembers([e], [m]) && EntriesText([e], [m], rest) == e.before + OneEntryText(e, m, "}" + rest)
  {
    var es, ms := [e], [m];
    assert es[0] == e && ms[0] == m && es[1..] == [] && ms[1..] == [];
    assert MeanMembers(es, ms);
    assert AfterEntry(es, ms, rest) == "}" + rest;
    assert EntryText(es, ms, rest) == OneEntryText(e, m, "}" + rest);
  }

  lemma EntryPut(e: Entry, m: Member, more: seq<Entry>, ms: seq<Member>, rest: string)
    requires EntryOk(e, m) && more != [] && MeanMembers(more, ms)
    ensures MeanMembers([e] + more, [m] + ms)
    ensures EntriesText([e] + more, [m] + ms, rest) == e.before + OneEntryText(e, m, "," + EntriesText(more, ms, rest))
  {
    var es, all := [e] + more, [m] + ms;
    assert es[0] == e && all[0] == m && es[1..] == more && all[1..] == ms;
    assert MeanMembers(es, all);
    assert AfterEntry(es, all, rest) == "," + EntriesText(more, ms, rest);
    assert EntryText(es, all, rest) == OneEntryText(e, m, "," + EntriesText(more, ms, rest));
  }

  // ---------------------------------------------------------------- theorems

  /** The scanner reads exactly the texts that denote a value, and gives the value they denote. */
  lemma ScanIffDenotes(text: string, v: Value)
    ensures ScanValue(text) == Got(v, "") <==> Denotes(text, v)
  {
    if ScanValue(text) == Got(v, "") {
      var tree := FindTree(text);
    }
    if tree :| Means(tree, v) && TreeText(tree, v, "") == text {
      ScanTree(tree, v, "");
    }
  }

  /** A text denotes one value at most. */
  lemma DenotesOne(text: string, v: Value, w: Value)
    requires Denotes(text, v) && Denotes(text, w)
    ensures v == w
  {
    ScanIffDenotes(text, v);
    ScanIffDenotes(text, w);
  }

  lemma FindPrefix(s: string)
    requires ScanValue(s).Got?
    ensures Denotes(s[..|s| - |ScanValue(s).rest|], ScanValue(s).value)
  {
    ScanValueCutOut(s);
    ScanIffDenotes(s[..|s| - |ScanValue(s).rest|], ScanValue(s).value);
  }

  lemma PrefixFound(s: string, t: string, v: Value)
    requires Denotes(s, v)
    ensures ScanValue(s + t).Got?
  {
    ScanIffDenotes(s, v);
    ScanValueExtends(s, t);
  }

  /** Decoding at a position succeeds exactly if the text there starts with one that denotes a value. */
  lemma ScanFindsPrefix(s: string)
    ensures ScanValue(s).Got? <==> exists n: nat, v :: n <= |s| && Denotes(s[..n], v)
    ensures ScanValue(s).Got? ==> Denotes(s[..|s| - |ScanValue(s).rest|], ScanValue(s).value)
  {
    if ScanValue(s).Got? {
      FindPrefix(s);
    }
    if n: nat, v :| n <= |s| && Denotes(s[..n], v) {
      PrefixFound(s[..n], s[n..], v);
      assert s == s[..n] + s[n..];
    }
  }
}
