/**
 The scanner is self-delimiting: what a successful scan returns depends only on the text it
 consumed. Whatever stands beyond may be replaced by anything, with one exception: a number has
 no closing mark, so what follows it must not continue it.

 Two consequences carry the streaming reader: a value found in a partial buffer is the value of
 the whole text, and the text of a value can be cut out and scanned on its own.
 */
module JsonLocality {
  import opened JsonScanner

  /** `s` with its last `|q|` characters replaced by `u`. */
  function Swap(s: string, q: string, u: string): string
    requires |q| <= |s|
  {
    s[..|s| - |q|] + u
  }

  lemma SwapTail(s: string, q: string, u: string)
    requires |q| < |s|
    ensures Swap(s, q, u) != "" && Swap(s, q, u)[0] == s[0]
    ensures Swap(s, q, u)[1..] == Swap(s[1..], q, u)
  {
  }

  /** A character that can follow a number inside an object or an array. */
  predicate IsDelimiter(c: char) { IsWs(c) || c == ',' || c == ']' || c == '}' }

  ghost predicate Delimited(s: string) { s == "" || IsDelimiter(s[0]) }

  lemma {:induction false} SkipWsLocal(s: string, q: string, u: string)
    requires |q| < |SkipWs(s)|
    ensures SkipWs(Swap(s, q, u)) == Swap(SkipWs(s), q, u)
  {
    SwapTail(s, q, u);
    if IsWs(s[0]) { SkipWsLocal(s[1..], q, u); }
  }

  lemma {:induction false} DropDigitsLocal(s: string, q: string, u: string)
    requires |q| <= |DropDigits(s)|
    requires var r := Swap(DropDigits(s), q, u); r == "" || !IsDigit(r[0])
    ensures DropDigits(Swap(s, q, u)) == Swap(DropDigits(s), q, u)
  {
    if s != "" && IsDigit(s[0]) {
      SwapTail(s, q, u);
      DropDigitsLocal(s[1..], q, u);
    }
  }

  lemma ScanHex4Local(s: string, q: string, u: string)
    requires ScanHex4(s).Got? && |q| <= |ScanHex4(s).rest|
    ensures ScanHex4(Swap(s, q, u)) == Got(ScanHex4(s).value, Swap(ScanHex4(s).rest, q, u))
  {
    var t := Swap(s, q, u);
    assert t[0] == s[0] && t[1] == s[1] && t[2] == s[2] && t[3] == s[3];
    assert t[4..] == Swap(s[4..], q, u);
  }

  /** An escape is followed by more of its string, so its look-ahead stays inside the string. */
  lemma ScanEscapeLocal(s: string, q: string, u: string)
    requires ScanEscape(s).Got?
    requires var r := ScanChars(ScanEscape(s).rest); r.Got? && |q| <= |r.rest|
    ensures ScanEscape(Swap(s, q, u)) == Got(ScanEscape(s).value, Swap(ScanEscape(s).rest, q, u))
  {
    SwapTail(s, q, u);
    if s[0] == 'u' {
      var h := ScanHex4(s[1..]);
      ScanHex4Local(s[1..], q, u);
      SwapTail(h.rest, q, u);
      var next := ScanChars(h.rest);
      if IsHigh(h.value) && |h.rest| >= 2 && h.rest[0] == '\\' && h.rest[1] == 'u' {
        SwapTail(h.rest[1..], q, u);
        assert Swap(h.rest, q, u)[2..] == Swap(h.rest[2..], q, u);
        ScanHex4Local(h.rest[2..], q, u);
      } else if IsHigh(h.value) && h.rest[0] == '\\' {
        SwapTail(h.rest[1..], q, u);
      }
    }
  }

  lemma {:induction false} ScanCharsLocal(s: string, q: string, u: string)
    requires ScanChars(s).Got? && |q| <= |ScanChars(s).rest|
    ensures ScanChars(Swap(s, q, u)) == Got(ScanChars(s).value, Swap(ScanChars(s).rest, q, u))
  {
    SwapTail(s, q, u);
    if s[0] != '"' {
      var c := if s[0] == '\\' then ScanEscape(s[1..]) else Got(s[0] as nat, s[1..]);
      if s[0] == '\\' { ScanEscapeLocal(s[1..], q, u); }
      ScanCharsLocal(c.rest, q, u);
    }
  }

  // ---------------------------------------------------------------- numbers

  lemma DropExponentLocal(s: string, q: string, u: string)
    requires |q| <= |DropExponent(s)| && Delimited(Swap(DropExponent(s), q, u))
    ensures DropExponent(Swap(s, q, u)) == Swap(DropExponent(s), q, u)
  {
    if DropExponent(s) != s {
      var k := if IsDigit(s[1]) then 1 else 2;
      DropDigitsLocal(s[k..], q, u);
      assert DropDigits(s[k..]) == DropDigits(s[k..][1..]);
      SwapTail(s, q, u);
      SwapTail(s[1..], q, u);
      if k == 2 { SwapTail(s[2..], q, u); }
      assert Swap(s, q, u)[k..] == Swap(s[k..], q, u);
    }
  }

  /** What may follow a fraction for it to end there. */
  ghost predicate EndsFraction(s: string) { Delimited(s) || s[0] == 'e' || s[0] == 'E' }

  lemma DropFractionLocal(s: string, q: string, u: string)
    requires |q| <= |DropFraction(s)| && EndsFraction(Swap(DropFraction(s), q, u))
    ensures DropFraction(Swap(s, q, u)) == Swap(DropFraction(s), q, u)
  {
    if DropFraction(s) != s {
      DropDigitsLocal(s[1..], q, u);
      assert DropDigits(s[1..]) == DropDigits(s[1..][1..]);
      SwapTail(s, q, u);
      SwapTail(s[1..], q, u);
    }
  }

  lemma ScanIntLocal(s: string, q: string, u: string)
    requires ScanInt(s).Got? && |q| <= |ScanInt(s).rest|
    requires var r := Swap(ScanInt(s).rest, q, u); r == "" || !IsDigit(r[0])
    ensures ScanInt(Swap(s, q, u)) == Got((), Swap(ScanInt(s).rest, q, u))
  {
    SwapTail(s, q, u);
    if s[0] != '0' { DropDigitsLocal(s[1..], q, u); }
  }

  lemma ScanNumberLocal(s: string, q: string, u: string)
    requires ScanNumber(s).Got? && |q| <= |ScanNumber(s).rest|
    requires Delimited(Swap(ScanNumber(s).rest, q, u))
    ensures ScanNumber(Swap(s, q, u)) == Got(ScanNumber(s).value, Swap(ScanNumber(s).rest, q, u))
  {
    var t := if s[0] == '-' then s[1..] else s;
    var i := ScanInt(t).rest;
    var f := DropFraction(i);
    var e := DropExponent(f);
    DropExponentLocal(f, q, u);
    HeadAfterExponent(f, q, u);
    DropFractionLocal(i, q, u);
    HeadAfterFraction(i, q, u);
    ScanIntLocal(t, q, u);
    SwapTail(s, q, u);
    assert Swap(s, q, u)[..|s| - |e|] == s[..|s| - |e|];
  }

  lemma HeadAfterExponent(s: string, q: string, u: string)
    requires |q| <= |DropExponent(s)| && Delimited(Swap(DropExponent(s), q, u))
    ensures EndsFraction(Swap(s, q, u))
  {
    if DropExponent(s) != s { SwapTail(s, q, u); }
  }

  lemma HeadAfterFraction(s: string, q: string, u: string)
    requires |q| <= |DropFraction(s)| && EndsFraction(Swap(DropFraction(s), q, u))
    ensures var r := Swap(s, q, u); r == "" || !IsDigit(r[0])
  {
    if DropFraction(s) != s { SwapTail(s, q, u); }
  }

  /** More text can lengthen a number, but cannot stop it from being one. */
  lemma ScanNumberGrows(s: string, t: string)
    requires ScanNumber(s).Got?
    ensures ScanNumber(s + t).Got?
  {
    assert (s + t)[1..] == s[1..] + t;
  }

  // ---------------------------------------------------------------- values

  /** A number starts with a digit, or with a minus sign and a digit, and so is not a name. */
  lemma NumberIsNoName(s: string, t: string)
    requires ScanNumber(s).Got?
    requires |t| >= |s| - |ScanNumber(s).rest|
    requires t[..|s| - |ScanNumber(s).rest|] == s[..|s| - |ScanNumber(s).rest|]
    ensures s != "" && t != "" && s[0] == t[0] && !IsNamed(t, NameFor(s[0]).text)
  {
    var n := |s| - |ScanNumber(s).rest|;
    assert t[..n][0] == s[..n][0];
    if s[0] == '-' {
      assert n >= 2 && IsDigit(s[1]) && t[..n][1] == s[..n][1];
      assert |t| >= 9 ==> t[..9][1] == t[1];
    }
  }

  lemma ScanAtomLocal(s: string, q: string, u: string)
    requires s != "" && ScanAtom(s).Got? && |q| <= |ScanAtom(s).rest|
    requires ScanAtom(s).value.Num? ==> Delimited(Swap(ScanAtom(s).rest, q, u))
    ensures Swap(s, q, u) != "" && ScanAtom(Swap(s, q, u)) == Got(ScanAtom(s).value, Swap(ScanAtom(s).rest, q, u))
  {
    SwapTail(s, q, u);
    var n := |s| - |ScanAtom(s).rest|;
    assert Swap(s, q, u)[..n] == s[..n];
    if IsNamed(s, NameFor(s[0]).text) {
      assert Swap(s, q, u)[n..] == Swap(s[n..], q, u);
    } else {
      NumberIsNoName(s, Swap(s, q, u));
      ScanNumberLocal(s, q, u);
    }
  }

  lemma ScanKeyLocal(s: string, q: string, u: string)
    requires ScanKey(s).Got? && |q| < |ScanKey(s).rest|
    ensures ScanKey(Swap(s, q, u)) == Got(ScanKey(s).value, Swap(ScanKey(s).rest, q, u))
  {
    var k := ScanChars(s[1..]);
    var t := SkipWs(k.rest);
    SwapTail(s, q, u);
    ScanCharsLocal(s[1..], q, u);
    SkipWsLocal(k.rest, q, u);
    SwapTail(t, q, u);
    SkipWsLocal(t[1..], q, u);
  }

  /** A value followed, after blanks, by a mark that the container reads is delimited. */
  lemma DelimitedByMark(r: string, q: string, u: string)
    requires |q| < |SkipWs(r)| && SkipWs(r)[0] in ",]}"
    ensures Delimited(Swap(r, q, u))
  {
    SwapTail(r, q, u);
  }

  /** Locality of the scanner. */
  lemma {:induction false} ScanValueLocal(s: string, q: string, u: string)
    requires ScanValue(s).Got? && |q| <= |ScanValue(s).rest|
    requires ScanValue(s).value.Num? ==> Delimited(Swap(ScanValue(s).rest, q, u))
    ensures ScanValue(Swap(s, q, u)) == Got(ScanValue(s).value, Swap(ScanValue(s).rest, q, u))
    decreases |s|, 2
  {
    SwapTail(s, q, u);
    if s[0] == '"' {
      ScanCharsLocal(s[1..], q, u);
    } else if s[0] == '{' {
      ScanObjectLocal(s[1..], q, u);
    } else if s[0] == '[' {
      ScanArrayLocal(s[1..], q, u);
    } else {
      ScanAtomLocal(s, q, u);
    }
  }

  lemma {:induction false} ScanObjectLocal(s: string, q: string, u: string)
    requires ScanObject(s).Got? && |q| <= |ScanObject(s).rest|
    ensures ScanObject(Swap(s, q, u)) == Got(ScanObject(s).value, Swap(ScanObject(s).rest, q, u))
    decreases |s|, 1
  {
    var t := SkipWs(s);
    SkipWsLocal(s, q, u);
    SwapTail(t, q, u);
    if t[0] != '}' { ScanMembersLocal(t, q, u); }
  }

  lemma {:induction false} ScanMembersLocal(s: string, q: string, u: string)
    requires ScanMembers(s).Got? && |q| <= |ScanMembers(s).rest|
    ensures ScanMembers(Swap(s, q, u)) == Got(ScanMembers(s).value, Swap(ScanMembers(s).rest, q, u))
    decreases |s|, 0
  {
    var k := ScanKey(s);
    var v := ScanValue(k.rest);
    var t := SkipWs(v.rest);
    ScanKeyLocal(s, q, u);
    DelimitedByMark(v.rest, q, u);
    ScanValueLocal(k.rest, q, u);
    SkipWsLocal(v.rest, q, u);
    SwapTail(t, q, u);
    if t[0] == ',' {
      SkipWsLocal(t[1..], q, u);
      ScanMembersLocal(SkipWs(t[1..]), q, u);
    }
  }

  lemma {:induction false} ScanArrayLocal(s: string, q: string, u: string)
    requires ScanArray(s).Got? && |q| <= |ScanArray(s).rest|
    ensures ScanArray(Swap(s, q, u)) == Got(ScanArray(s).value, Swap(ScanArray(s).rest, q, u))
    decreases |s|, 4
  {
    var t := SkipWs(s);
    SkipWsLocal(s, q, u);
    SwapTail(t, q, u);
    if t[0] != ']' { ScanItemsLocal(t, q, u); }
  }

  lemma {:induction false} ScanItemsLocal(s: string, q: string, u: string)
    requires ScanItems(s).Got? && |q| <= |ScanItems(s).rest|
    ensures ScanItems(Swap(s, q, u)) == Got(ScanItems(s).value, Swap(ScanItems(s).rest, q, u))
    decreases |s|, 3
  {
    var v := ScanValue(s);
    var t := SkipWs(v.rest);
    DelimitedByMark(v.rest, q, u);
    ScanValueLocal(s, q, u);
    SkipWsLocal(v.rest, q, u);
    SwapTail(t, q, u);
    if t[0] == ',' {
      SkipWsLocal(t[1..], q, u);
      ScanItemsLocal(SkipWs(t[1..]), q, u);
    }
  }

  // ---------------------------------------------------------------- consequences

  /** A value found in a buffer is found in every extension of it, unless a number runs on. */
  lemma ScanValueExtends(s: string, t: string)
    requires ScanValue(s).Got?
    ensures ScanValue(s + t).Got?
    ensures ScanValue(s + t).value.Num? <==> ScanValue(s).value.Num?
    ensures !ScanValue(s).value.Num? ==> ScanValue(s + t) == Got(ScanValue(s).value, ScanValue(s).rest + t)
  {
    var r := ScanValue(s).rest;
    var n := |s| - |r|;
    assert Swap(s, "", t) == s + t && Swap(r, "", t) == r + t;
    assert (s + t)[..n] == s[..n] && (s + t)[0] == s[0];
    if !ScanValue(s).value.Num? {
      ScanValueLocal(s, "", t);
    } else if !IsNamed(s, NameFor(s[0]).text) {
      ScanNumberGrows(s, t);
      NumberIsNoName(s, s + t);
    }
  }

  /** The text of a value, cut out, scans to that value and nothing remains. */
  lemma ScanValueCutOut(s: string)
    requires ScanValue(s).Got?
    ensures ScanValue(s[..|s| - |ScanValue(s).rest|]) == Got(ScanValue(s).value, "")
  {
    var r := ScanValue(s).rest;
    assert Swap(s, r, "") == s[..|s| - |r|] && Swap(r, r, "") == "";
    ScanValueLocal(s, r, "");
  }
}
