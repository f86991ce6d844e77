/**
 The string operations of Python that the harnesses use: `isspace`, `strip`, `rstrip`, `split`, `join`, `str`.
 */
module PyText {

  /** `str.isspace`, which accepts more than JSON's four blanks. */
  predicate IsSpace(c: char) {
    var n := c as int;
    0x09 <= n <= 0x0D || 0x1C <= n <= 0x20 || n == 0x85 || n == 0xA0 || n == 0x1680 ||
    0x2000 <= n <= 0x200A || n == 0x2028 || n == 0x2029 || n == 0x202F || n == 0x205F || n == 0x3000
  }

  /** What is stripped: white space, or slashes. */
  datatype Stripped = Blanks | Slashes

  predicate Drops(what: Stripped, c: char) { if what.Slashes? then c == '/' else IsSpace(c) }

  function DropLeft(s: string, what: Stripped): (r: string)
    ensures |r| <= |s|
  {
    if s != "" && Drops(what, s[0]) then DropLeft(s[1..], what) else s
  }

  function DropRight(s: string, what: Stripped): (r: string)
    ensures |r| <= |s| && r == s[..|r|]
    ensures r != "" ==> !Drops(what, r[|r| - 1])
  {
    if s != "" && Drops(what, s[|s| - 1]) then DropRight(s[..|s| - 1], what) else s
  }

  function Strip(s: string): string { DropRight(DropLeft(s, Blanks), Blanks) }

  function StripSlashes(s: string): string { DropRight(DropLeft(s, Slashes), Slashes) }

  predicate StartsWith(s: string, prefix: string) { |prefix| <= |s| && s[..|prefix|] == prefix }

  function Split(s: string, sep: char): (parts: seq<string>)
    ensures |parts| > 0
  {
    if s == "" then [""]
    else
      var rest := Split(s[1..], sep);
      if s[0] == sep then [""] + rest else [[s[0]] + rest[0]] + rest[1..]
  }

  function Join(parts: seq<string>, sep: char): string {
    if parts == [] then ""
    else if |parts| == 1 then parts[0]
    else parts[0] + [sep] + Join(parts[1..], sep)
  }

  lemma {:induction false} SplitWhole(s: string, sep: char)
    requires sep !in s
    ensures Split(s, sep) == [s]
  {
    if s != "" {
      SplitWhole(s[1..], sep);
      assert s == [s[0]] + s[1..];
    }
  }

  lemma {:induction false} SplitFirst(s: string, sep: char, t: string)
    requires sep !in s
    ensures Split(s + [sep] + t, sep) == [s] + Split(t, sep)
  {
    var u := s + [sep] + t;
    if s == "" {
      assert u[1..] == t;
    } else {
      assert u[1..] == s[1..] + [sep] + t;
      SplitFirst(s[1..], sep, t);
      assert s == [s[0]] + s[1..];
    }
  }

  /** Splitting undoes joining, when no part contains the separator. */
  lemma {:induction false} SplitJoin(parts: seq<string>, sep: char)
    requires parts != [] && forall p | p in parts :: sep !in p
    ensures Split(Join(parts, sep), sep) == parts
    decreases |parts|
  {
    if |parts| == 1 {
      SplitWhole(parts[0], sep);
    } else {
      SplitFirst(parts[0], sep, Join(parts[1..], sep));
      SplitJoin(parts[1..], sep);
    }
  }

  lemma {:induction false} SplitConcat(s: string, sep: char, t: string)
    ensures Split(s + [sep] + t, sep) == Split(s, sep) + Split(t, sep)
    decreases |s|
  {
    var u := s + [sep] + t;
    if s == "" {
      assert u[1..] == t;
    } else {
      assert u[1..] == s[1..] + [sep] + t;
      SplitConcat(s[1..], sep, t);
      SplitStep(s[0], Split(s[1..], sep), Split(t, sep));
    }
  }

  lemma SplitStep(c: char, a: seq<string>, b: seq<string>)
    requires a != []
    ensures [""] + (a + b) == ([""] + a) + b
    ensures [[c] + (a + b)[0]] + (a + b)[1..] == ([[c] + a[0]] + a[1..]) + b
  {
    assert (a + b)[1..] == a[1..] + b;
  }

  lemma JoinLonger(first: string, rest: seq<string>, sep: char)
    requires rest != []
    ensures Join([first] + rest, sep) == first + [sep] + Join(rest, sep)
  {
    assert ([first] + rest)[1..] == rest;
  }

  lemma JoinPushed(c: char, parts: seq<string>, sep: char)
    requires parts != []
    ensures Join([[c] + parts[0]] + parts[1..], sep) == [c] + Join(parts, sep)
  {
    if |parts| > 1 {
      JoinLonger([c] + parts[0], parts[1..], sep);
    }
  }

  /** Joining undoes splitting. */
  lemma {:induction false} JoinSplit(s: string, sep: char)
    ensures Join(Split(s, sep), sep) == s
  {
    if s != "" {
      JoinSplit(s[1..], sep);
      var rest := Split(s[1..], sep);
      if s[0] == sep {
        JoinLonger("", rest, sep);
      } else {
        JoinPushed(s[0], rest, sep);
      }
      assert s == [s[0]] + s[1..];
    }
  }

  lemma {:induction false} JoinConcat(a: seq<string>, b: seq<string>, sep: char)
    requires a != [] && b != []
    ensures Join(a + b, sep) == Join(a, sep) + [sep] + Join(b, sep)
    decreases |a|
  {
    if |a| == 1 {
      assert a == [a[0]];
      JoinLonger(a[0], b, sep);
    } else {
      JoinConcat(a[1..], b, sep);
      JoinLonger(a[0], a[1..] + b, sep);
      assert a + b == [a[0]] + (a[1..] + b);
      JoinLonger(a[0], a[1..], sep);
      assert a == [a[0]] + a[1..];
      Regroup(a[0], Join(a[1..], sep), Join(b, sep), [sep]);
    }
  }

  lemma Regroup(x: string, y: string, z: string, sep: string)
    ensures x + sep + (y + sep + z) == x + sep + y + sep + z
  {
  }

  /** A text extends another at a separator exactly if its parts begin with the other's. */
  lemma SplitPrefix(s: string, w: string, sep: char)
    ensures (s == w || StartsWith(s, w + [sep])) <==> Split(w, sep) <= Split(s, sep)
  {
    var a, b := Split(w, sep), Split(s, sep);
    if StartsWith(s, w + [sep]) {
      assert s == w + [sep] + s[|w| + 1..];
      SplitConcat(w, sep, s[|w| + 1..]);
    }
    if a <= b {
      JoinSplit(w, sep);
      JoinSplit(s, sep);
      var e := b[|a|..];
      assert b == a + e;
      if e != [] {
        JoinConcat(a, e, sep);
      } else {
        assert b == a;
      }
    }
  }

  lemma {:induction false} PartsHaveNoSeparator(s: string, sep: char)
    ensures forall part | part in Split(s, sep) :: sep !in part
  {
    if s != "" {
      PartsHaveNoSeparator(s[1..], sep);
    }
  }

  /** The characters of a text, but for the separator, are those of its parts. */
  lemma {:induction false} PartsHaveCharacters(s: string, sep: char, c: char)
    requires c != sep
    ensures c in s <==> exists part | part in Split(s, sep) :: c in part
  {
    if s != "" {
      PartsHaveCharacters(s[1..], sep, c);
      var rest := Split(s[1..], sep);
      assert rest == [rest[0]] + rest[1..];
      assert s == [s[0]] + s[1..];
      if s[0] != sep {
        var head := [s[0]] + rest[0];
        assert forall part :: part in Split(s, sep) <==> part == head || part in rest[1..];
        assert forall part :: part in rest <==> part == rest[0] || part in rest[1..];
        assert c in head <==> c == s[0] || c in rest[0];
      } else {
        assert forall part :: part in Split(s, sep) <==> part == "" || part in rest;
      }
    }
  }

  /** `str` of a non-negative integer. */
  function Decimal(n: nat): (s: string)
    ensures s != "" && forall k | 0 <= k < |s| :: '0' <= s[k] <= '9'
  {
    if n < 10 then [n as char + '0'] else Decimal(n / 10) + [(n % 10) as char + '0']
  }

  lemma {:induction false} DecimalInjective(m: nat, n: nat)
    requires Decimal(m) == Decimal(n)
    ensures m == n
  {
    var s, t := Decimal(m), Decimal(n);
    assert s[|s| - 1] == t[|t| - 1];
    if m >= 10 && n >= 10 {
      assert s[..|s| - 1] == Decimal(m / 10) && t[..|t| - 1] == Decimal(n / 10);
      DecimalInjective(m / 10, n / 10);
    }
  }
}
