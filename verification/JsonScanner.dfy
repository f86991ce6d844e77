/**
 The JSON value scanner behind `json.JSONDecoder.raw_decode`: sections 2 to 7 of RFC 8259, with
 the three non-finite number names that Python's decoder also accepts.

 Every scanner reads a value at the start of its text and returns the unread rest, so that
 `raw_decode(buffer, position)` is `ScanValue(buffer[position..])`.
 */
module JsonScanner {
  import opened PyText

  /** Decoded strings are sequences of code points, because an escape may denote a lone surrogate. */
  datatype Value =
    | Null
    | Bool(b: bool)
    | Num(lexeme: string)
    | Str(text: seq<nat>)
    | Arr(items: seq<Value>)
    | Obj(members: seq<Member>)

  datatype Member = Member(key: seq<nat>, value: Value)

  datatype Scan<+T> = Fail | Got(value: T, rest: string)

  /** A successful scanner consumed at least one character. */
  ghost predicate Advances<T>(s: string, r: Scan<T>) {
    r.Got? ==> |r.rest| < |s|
  }

  predicate IsWs(c: char) { c == ' ' || c == '\t' || c == '\n' || c == '\r' }

  predicate IsDigit(c: char) { '0' <= c <= '9' }

  function SkipWs(s: string): (r: string)
    ensures |r| <= |s|
    ensures r != "" ==> !IsWs(r[0])
  {
    if s != "" && IsWs(s[0]) then SkipWs(s[1..]) else s
  }

  // ---------------------------------------------------------------- strings

  function HexValue(c: char): (v: int)
    ensures -1 <= v < 16
  {
    if IsDigit(c) then c as int - '0' as int
    else if 'a' <= c <= 'f' then c as int - 'a' as int + 10
    else if 'A' <= c <= 'F' then c as int - 'A' as int + 10
    else -1
  }

  /** Four hexadecimal digits at the start of `s`. */
  function ScanHex4(s: string): (r: Scan<nat>)
    ensures r.Got? ==> |s| >= 4 && r.rest == s[4..] && r.value < 0x1_0000
  {
    if |s| < 4 || HexValue(s[0]) < 0 || HexValue(s[1]) < 0 || HexValue(s[2]) < 0 || HexValue(s[3]) < 0
    then Fail
    else Got(((HexValue(s[0]) * 16 + HexValue(s[1])) * 16 + HexValue(s[2])) * 16 + HexValue(s[3]), s[4..])
  }

  predicate IsHigh(c: nat) { 0xD800 <= c <= 0xDBFF }

  predicate IsLow(c: nat) { 0xDC00 <= c <= 0xDFFF }

  function JoinSurrogates(high: nat, low: nat): nat
    requires IsHigh(high) && IsLow(low)
  {
    0x1_0000 + (high - 0xD800) * 0x400 + (low - 0xDC00)
  }

  /** The code point of a one-letter escape, or -1. */
  function ShortEscape(c: char): int {
    match c
    case '"' => 0x22
    case '\\' => 0x5C
    case '/' => 0x2F
    case 'b' => 0x08
    case 'f' => 0x0C
    case 'n' => 0x0A
    case 'r' => 0x0D
    case 't' => 0x09
    case _ => -1
  }

  /** What follows a backslash: a one-letter escape, a `uXXXX` escape, or a surrogate pair of two. */
  function ScanEscape(s: string): (r: Scan<nat>)
    ensures Advances(s, r)
  {
    if s == "" then Fail
    else if s[0] != 'u' then
      if ShortEscape(s[0]) < 0 then Fail else Got(ShortEscape(s[0]), s[1..])
    else
      var h := ScanHex4(s[1..]);
      if h.Fail? then Fail
      else if IsHigh(h.value) && |h.rest| >= 2 && h.rest[0] == '\\' && h.rest[1] == 'u' then
        var l := ScanHex4(h.rest[2..]);
        if l.Fail? then Fail
        else if IsLow(l.value) then Got(JoinSurrogates(h.value, l.value), l.rest)
        else Got(h.value, h.rest)
      else Got(h.value, h.rest)
  }

  /** The body of a string, up to and including its closing quotation mark. */
  function ScanChars(s: string): (r: Scan<seq<nat>>)
    ensures Advances(s, r)
  {
    if s == "" then Fail
    else if s[0] == '"' then Got([], s[1..])
    else if s[0] < ' ' then Fail
    else
      var c := if s[0] == '\\' then ScanEscape(s[1..]) else Got(s[0] as nat, s[1..]);
      if c.Fail? then Fail
      else
        var cs := ScanChars(c.rest);
        if cs.Fail? then Fail else Got([c.value] + cs.value, cs.rest)
  }

  // ---------------------------------------------------------------- numbers

  function DropDigits(s: string): (r: string)
    ensures |r| <= |s|
    ensures r != "" ==> !IsDigit(r[0])
  {
    if s != "" && IsDigit(s[0]) then DropDigits(s[1..]) else s
  }

  /** An optional fraction. */
  function DropFraction(s: string): (r: string)
    ensures |r| <= |s|
  {
    if |s| >= 2 && s[0] == '.' && IsDigit(s[1]) then DropDigits(s[1..]) else s
  }

  /** An optional exponent. */
  function DropExponent(s: string): (r: string)
    ensures |r| <= |s|
  {
    if |s| >= 2 && (s[0] == 'e' || s[0] == 'E') then
      if IsDigit(s[1]) then DropDigits(s[1..])
      else if |s| >= 3 && (s[1] == '+' || s[1] == '-') && IsDigit(s[2]) then DropDigits(s[2..])
      else s
    else s
  }

  /** A non-empty integer part without superfluous leading zeros. */
  function ScanInt(s: string): (r: Scan<()>)
    ensures Advances(s, r)
  {
    if s == "" || !IsDigit(s[0]) then Fail
    else if s[0] == '0' then Got((), s[1..])
    else Got((), DropDigits(s[1..]))
  }

  function ScanNumber(s: string): (r: Scan<Value>)
    ensures Advances(s, r)
    ensures r.Got? ==> r.value == Num(s[..|s| - |r.rest|])
  {
    var i := ScanInt(if s != "" && s[0] == '-' then s[1..] else s);
    if i.Fail? then Fail
    else
      var rest := DropExponent(DropFraction(i.rest));
      Got(Num(s[..|s| - |rest|]), rest)
  }

  // ---------------------------------------------------------------- values

  datatype Name = Name(text: string, value: Value)

  /** The literal name that starts with `c`; the empty name when there is none. */
  function NameFor(c: char): Name {
    match c
    case 'n' => Name("null", Null)
    case 't' => Name("true", Bool(true))
    case 'f' => Name("false", Bool(false))
    case 'N' => Name("NaN", Num("NaN"))
    case 'I' => Name("Infinity", Num("Infinity"))
    case '-' => Name("-Infinity", Num("-Infinity"))
    case _ => Name("", Null)
  }

  predicate IsNamed(s: string, name: string) {
    name != "" && StartsWith(s, name)
  }

  /** A literal name or a number. */
  function ScanAtom(s: string): (r: Scan<Value>)
    requires s != ""
    ensures Advances(s, r)
  {
    var name := NameFor(s[0]);
    if IsNamed(s, name.text) then Got(name.value, s[|name.text|..]) else ScanNumber(s)
  }

  function ScanValue(s: string): (r: Scan<Value>)
    ensures Advances(s, r)
    decreases |s|, 2
  {
    if s == "" then Fail
    else if s[0] == '"' then
      var cs := ScanChars(s[1..]);
      if cs.Fail? then Fail else Got(Str(cs.value), cs.rest)
    else if s[0] == '{' then
      var ms := ScanObject(s[1..]);
      if ms.Fail? then Fail else Got(Obj(ms.value), ms.rest)
    else if s[0] == '[' then
      var vs := ScanArray(s[1..]);
      if vs.Fail? then Fail else Got(Arr(vs.value), vs.rest)
    else ScanAtom(s)
  }

  /** What follows an opening brace. */
  function ScanObject(s: string): (r: Scan<seq<Member>>)
    ensures Advances(s, r)
    decreases |s|, 1
  {
    var t := SkipWs(s);
    if t != "" && t[0] == '}' then Got([], t[1..]) else ScanMembers(t)
  }

  /** A quoted key, a colon and the blanks around it. */
  function ScanKey(s: string): (r: Scan<seq<nat>>)
    ensures Advances(s, r)
  {
    if s == "" || s[0] != '"' then Fail
    else
      var k := ScanChars(s[1..]);
      if k.Fail? then Fail
      else
        var t := SkipWs(k.rest);
        if t == "" || t[0] != ':' then Fail else Got(k.value, SkipWs(t[1..]))
  }

  /** One or more members, up to and including the closing brace. */
  function ScanMembers(s: string): (r: Scan<seq<Member>>)
    ensures Advances(s, r)
    decreases |s|, 0
  {
    var k := ScanKey(s);
    if k.Fail? then Fail
    else
      var v := ScanValue(k.rest);
      if v.Fail? then Fail
      else
        var t := SkipWs(v.rest);
        if t == "" then Fail
        else if t[0] == '}' then Got([Member(k.value, v.value)], t[1..])
        else if t[0] != ',' then Fail
        else
          var ms := ScanMembers(SkipWs(t[1..]));
          if ms.Fail? then Fail else Got([Member(k.value, v.value)] + ms.value, ms.rest)
  }

  /** What follows an opening bracket. */
  function ScanArray(s: string): (r: Scan<seq<Value>>)
    ensures Advances(s, r)
    decreases |s|, 4
  {
    var t := SkipWs(s);
    if t != "" && t[0] == ']' then Got([], t[1..]) else ScanItems(t)
  }

  /** One or more items, up to and including the closing bracket. */
  function ScanItems(s: string): (r: Scan<seq<Value>>)
    ensures Advances(s, r)
    decreases |s|, 3
  {
    var v := ScanValue(s);
    if v.Fail? then Fail
    else
      var t := SkipWs(v.rest);
      if t == "" then Fail
      else if t[0] == ']' then Got([v.value], t[1..])
      else if t[0] != ',' then Fail
      else
        var vs := ScanItems(SkipWs(t[1..]));
        if vs.Fail? then Fail else Got([v.value] + vs.value, vs.rest)
  }

  // ---------------------------------------------------------------- the rest is a suffix

  /** `r` is what remains of `s` after its first `|s| - |r|` characters. */
  ghost predicate IsSuffix(r: string, s: string) {
    |r| <= |s| && s[|s| - |r|..] == r
  }

  lemma SuffixTrans(r: string, m: string, s: string)
    requires IsSuffix(r, m) && IsSuffix(m, s)
    ensures IsSuffix(r, s)
  {
    assert s[|s| - |m|..][|m| - |r|..] == s[|s| - |r|..];
  }

  lemma {:induction false} SkipWsSuffix(s: string)
    ensures IsSuffix(SkipWs(s), s)
  {
    if s != "" && IsWs(s[0]) {
      SkipWsSuffix(s[1..]);
      SuffixTrans(SkipWs(s), s[1..], s);
    }
  }

  lemma {:induction false} DropDigitsSuffix(s: string)
    ensures IsSuffix(DropDigits(s), s)
  {
    if s != "" && IsDigit(s[0]) {
      DropDigitsSuffix(s[1..]);
      SuffixTrans(DropDigits(s), s[1..], s);
    }
  }

  lemma {:induction false} ScanCharsSuffix(s: string)
    requires ScanChars(s).Got?
    ensures IsSuffix(ScanChars(s).rest, s)
  {
    if s[0] != '"' {
      var c := if s[0] == '\\' then ScanEscape(s[1..]) else Got(s[0] as nat, s[1..]);
      assert IsSuffix(c.rest, s);
      ScanCharsSuffix(c.rest);
      SuffixTrans(ScanChars(s).rest, c.rest, s);
    }
  }

  lemma DropFractionSuffix(s: string)
    ensures IsSuffix(DropFraction(s), s)
  {
    if |s| >= 2 && s[0] == '.' && IsDigit(s[1]) {
      DropDigitsSuffix(s[1..]);
      SuffixTrans(DropFraction(s), s[1..], s);
    }
  }

  lemma DropExponentSuffix(s: string)
    ensures IsSuffix(DropExponent(s), s)
  {
    if DropExponent(s) != s {
      var tail := if IsDigit(s[1]) then s[1..] else s[2..];
      DropDigitsSuffix(tail);
      SuffixTrans(DropExponent(s), tail, s);
    }
  }

  lemma ScanIntSuffix(s: string)
    requires ScanInt(s).Got?
    ensures IsSuffix(ScanInt(s).rest, s)
  {
    DropDigitsSuffix(s[1..]);
    SuffixTrans(ScanInt(s).rest, s[1..], s);
  }

  lemma ScanNumberSuffix(s: string)
    requires ScanNumber(s).Got?
    ensures IsSuffix(ScanNumber(s).rest, s)
  {
    var t := if s[0] == '-' then s[1..] else s;
    var i := ScanInt(t).rest;
    var f := DropFraction(i);
    ScanIntSuffix(t);
    SuffixTrans(i, t, s);
    DropFractionSuffix(i);
    SuffixTrans(f, i, s);
    DropExponentSuffix(f);
    SuffixTrans(DropExponent(f), f, s);
  }

  lemma ScanKeySuffix(s: string)
    requires ScanKey(s).Got?
    ensures IsSuffix(ScanKey(s).rest, s)
  {
    var k := ScanChars(s[1..]).rest;
    var t := SkipWs(k);
    ScanCharsSuffix(s[1..]);
    SuffixTrans(k, s[1..], s);
    SkipWsSuffix(k);
    SuffixTrans(t, k, s);
    SuffixTrans(t[1..], t, s);
    SkipWsSuffix(t[1..]);
    SuffixTrans(SkipWs(t[1..]), t[1..], s);
  }

  lemma ScanAtomSuffix(s: string)
    requires s != "" && ScanAtom(s).Got?
    ensures IsSuffix(ScanAtom(s).rest, s)
  {
    if !IsNamed(s, NameFor(s[0]).text) { ScanNumberSuffix(s); }
  }

  lemma {:induction false} ScanValueSuffix(s: string)
    requires ScanValue(s).Got?
    ensures IsSuffix(ScanValue(s).rest, s)
    decreases |s|, 2
  {
    if s[0] == '"' {
      ScanCharsSuffix(s[1..]);
      SuffixTrans(ScanValue(s).rest, s[1..], s);
    } else if s[0] == '{' {
      ScanObjectSuffix(s[1..]);
      SuffixTrans(ScanValue(s).rest, s[1..], s);
    } else if s[0] == '[' {
      ScanArraySuffix(s[1..]);
      SuffixTrans(ScanValue(s).rest, s[1..], s);
    } else {
      ScanAtomSuffix(s);
    }
  }

  lemma {:induction false} ScanObjectSuffix(s: string)
    requires ScanObject(s).Got?
    ensures IsSuffix(ScanObject(s).rest, s)
    decreases |s|, 1
  {
    var t := SkipWs(s);
    SkipWsSuffix(s);
    if t[0] != '}' { ScanMembersSuffix(t); }
    SuffixTrans(ScanObject(s).rest, t, s);
  }

  lemma {:induction false} ScanArraySuffix(s: string)
    requires ScanArray(s).Got?
    ensures IsSuffix(ScanArray(s).rest, s)
    decreases |s|, 4
  {
    var t := SkipWs(s);
    SkipWsSuffix(s);
    if t[0] != ']' { ScanItemsSuffix(t); }
    SuffixTrans(ScanArray(s).rest, t, s);
  }

  lemma {:induction false} ScanMembersSuffix(s: string)
    requires ScanMembers(s).Got?
    ensures IsSuffix(ScanMembers(s).rest, s)
    decreases |s|, 0
  {
    var k := ScanKey(s).rest;
    var v := ScanValue(k).rest;
    var t := SkipWs(v);
    ScanKeySuffix(s);
    ScanValueSuffix(k);
    SuffixTrans(v, k, s);
    SkipWsSuffix(v);
    SuffixTrans(t, v, s);
    SuffixTrans(t[1..], t, s);
    if t[0] == ',' {
      var u := SkipWs(t[1..]);
      SkipWsSuffix(t[1..]);
      SuffixTrans(u, t[1..], s);
      ScanMembersSuffix(u);
      SuffixTrans(ScanMembers(u).rest, u, s);
    }
  }

  lemma {:induction false} ScanItemsSuffix(s: string)
    requires ScanItems(s).Got?
    ensures IsSuffix(ScanItems(s).rest, s)
    decreases |s|, 3
  {
    var v := ScanValue(s).rest;
    var t := SkipWs(v);
    ScanValueSuffix(s);
    SkipWsSuffix(v);
    SuffixTrans(t, v, s);
    SuffixTrans(t[1..], t, s);
    if t[0] == ',' {
      var u := SkipWs(t[1..]);
      SkipWsSuffix(t[1..]);
      SuffixTrans(u, t[1..], s);
      ScanItemsSuffix(u);
      SuffixTrans(ScanItems(u).rest, u, s);
    }
  }
}
