/**
 `unique_filter`: a window of row numbers for each request, started by a multiple of the prime 997
 so that requests near each other get different windows.
 */
module FilterWindows {
  import opened Arithmetic

  const MULTIPLIER := 997

  function Width(rows: int): int {
    var capped := if rows < 100 then rows else 100;
    if capped > 10 then capped else 10
  }

  function Span(rows: int): (s: nat)
    ensures s >= 1
  {
    var s := rows - Width(rows) + 1;
    if s > 1 then s else 1
  }

  /** The first row number of the window of a request; the window ends before start plus width. */
  function Start(request: int, rows: int, salt: int): (start: nat)
    ensures start < Span(rows)
  {
    ((request + salt) * MULTIPLIER) % Span(rows)
  }

  /** How many of the first n row numbers lie in a window. */
  function Selected(n: nat, start: nat, end: nat): nat {
    if n == 0 then 0 else Selected(n - 1, start, end) + if start <= n - 1 < end then 1 else 0
  }

  lemma {:induction false} SelectedIs(n: nat, start: nat, end: nat)
    requires start <= end
    ensures Selected(n, start, end) == if n <= start then 0 else if n <= end then n - start else end - start
  {
    if n > 0 {
      SelectedIs(n - 1, start, end);
    }
  }

  /** From ten rows on a window lies inside the rows and selects its width; below it selects all. */
  lemma WindowSelectsWidth(request: int, rows: nat, salt: int)
    ensures var start := Start(request, rows, salt);
      Selected(rows, start, start + Width(rows)) == if rows >= 10 then Width(rows) else rows
    ensures rows >= 10 ==> Start(request, rows, salt) + Width(rows) <= rows
  {
    var start := Start(request, rows, salt);
    SelectedIs(rows, start, start + Width(rows));
  }

  function Gap(a: int, b: int): nat { if a < b then b - a else a - b }

  /** The width is the number from 10 to 100 that is nearest to the number of rows. */
  lemma WidthIsNearest(rows: int, w: int)
    requires 10 <= w <= 100
    ensures 10 <= Width(rows) <= 100 && Gap(Width(rows), rows) <= Gap(w, rows)
  {
  }

  /** The salt counts like the request: the windows walk from the first row in steps of 997 around the span. */
  lemma WindowsWalk(request: int, rows: int, salt: int)
    ensures Start(request, rows, salt) == Start(request + salt, rows, 0)
    ensures Start(0, rows, 0) == 0
    ensures Start(request + 1, rows, salt) == (Start(request, rows, salt) + MULTIPLIER) % Span(rows)
  {
    var x, s := (request + salt) * MULTIPLIER, Span(rows);
    assert (request + 1 + salt) * MULTIPLIER == x + MULTIPLIER;
    RemainderFirst(x, MULTIPLIER, s);
    DivModUnique(0, s, 0, 0);
  }

  lemma RemainderFirst(x: int, y: int, s: nat)
    requires s >= 1
    ensures (x + y) % s == (x % s + y) % s
  {
    var q, p := x / s, (x % s + y) / s;
    Distribute(q, -p, s);
    assert x + y == q * s + (x % s + y);
    assert x + y == (q + p) * s + (x % s + y) % s;
    DivModUnique(x + y, s, q + p, (x % s + y) % s);
  }

  // ---------------------------------------------------------------- divisors

  lemma SquareBound(d: nat, e: nat)
    requires 32 <= d <= e
    ensures d * e >= 1024
  {
    assert d * e >= d * 32;
  }

  lemma NoFactors(d: nat, e: nat)
    requires d * e == MULTIPLIER && d <= e
    ensures d == 1
  {
    if d >= 32 {
      SquareBound(d, e);
    }
  }

  /** 997 is prime. */
  lemma MultiplierIsPrime(d: nat, e: nat)
    requires d * e == MULTIPLIER
    ensures d == 1 || e == 1
  {
    if d <= e {
      NoFactors(d, e);
    } else {
      NoFactors(e, d);
    }
  }

  lemma CombineBack(a: int, b: int, q: int, r: int, x: int, y: int)
    requires a == b * q + r
    ensures b * x + r * y == a * y + b * (x - q * y)
  {
    assert r * y == (a - b * q) * y == a * y - b * q * y;
    assert b * (x - q * y) == b * x - b * q * y;
  }

  lemma FactorBack(g: int, b1: int, q: int, r1: int)
    ensures (g * b1) * q + g * r1 == g * (b1 * q + r1)
  {
  }

  /** A common divisor that is a combination of both numbers. */
  lemma Bezout(a: nat, b: nat) returns (g: nat, x: int, y: int, a1: nat, b1: nat)
    requires a >= 1
    ensures g == a * x + b * y && a == g * a1 && b == g * b1
    decreases b
  {
    if b == 0 {
      g, x, y, a1, b1 := a, 1, 0, 1, 0;
    } else {
      var q, r := a / b, a % b;
      var u, v, r1;
      g, u, v, b1, r1 := Bezout(b, r);
      CombineBack(a, b, q, r, u, v);
      FactorBack(g, b1, q, r1);
      x, y, a1 := v, u - q * v, b1 * q + r1;
    }
  }

  /** Unless the multiplier divides s, some combination of the two is 1. */
  lemma Coprime(s: nat) returns (x: int, y: int)
    requires s >= 1 && s % MULTIPLIER != 0
    ensures MULTIPLIER * x + s * y == 1
  {
    var g, u, v, p1, s1 := Bezout(MULTIPLIER, s);
    MultiplierIsPrime(g, p1);
    if g != 1 {
      assert g == MULTIPLIER;
      DivModUnique(s, MULTIPLIER, s1, 0);
    }
    x, y := u, v;
  }

  lemma Regroup(p: int, s: int, x: int, y: int, d: int, m: int)
    requires p * x + s * y == 1 && p * d == s * m
    ensures d == s * (x * m + y * d)
  {
    assert d == (p * x + s * y) * d == (p * d) * x + s * y * d;
    assert (p * d) * x == s * (m * x);
  }

  /** Then s divides d as soon as it divides 997 d. */
  lemma DividesCofactor(s: nat, d: nat, m: int)
    requires s >= 1 && s % MULTIPLIER != 0 && MULTIPLIER * d == s * m
    ensures d % s == 0
  {
    var x, y := Coprime(s);
    Regroup(MULTIPLIER, s, x, y, d, m);
    DivModUnique(d, s, x * m + y * d, 0);
  }

  // ---------------------------------------------------------------- distinct windows

  lemma SameRemainder(a: int, b: int, s: nat) returns (m: int)
    requires s >= 1 && a % s == b % s
    ensures a - b == s * m
  {
    m := a / s - b / s;
    assert a == s * (a / s) + a % s && b == s * (b / s) + b % s;
    Distribute(a / s, b / s, s);
  }

  /** Requests less than one span apart get different windows if 997 does not divide the span. */
  lemma WindowsDiffer(i: int, j: int, rows: int, salt: int)
    requires Span(rows) % MULTIPLIER != 0 && i < j < i + Span(rows)
    ensures Start(i, rows, salt) != Start(j, rows, salt)
  {
    if Start(i, rows, salt) == Start(j, rows, salt) {
      var m := SameRemainder((j + salt) * MULTIPLIER, (i + salt) * MULTIPLIER, Span(rows));
      DividesCofactor(Span(rows), j - i, m);
      DivModUnique(j - i, Span(rows), 0, j - i);
    }
  }

  lemma ShiftBySpan(a: int, s: nat)
    requires s >= 1
    ensures (a + s) % s == a % s
  {
    Distribute(a / s, 1, s);
    DivModUnique(a + s, s, a / s + 1, a % s);
  }

  /** If it does, every request shares its window with one less than a span later. */
  lemma WindowsCollide(i: int, rows: int, salt: int)
    requires Span(rows) % MULTIPLIER == 0
    ensures var j := i + Span(rows) / MULTIPLIER; i < j < i + Span(rows) && Start(i, rows, salt) == Start(j, rows, salt)
  {
    var d := Span(rows) / MULTIPLIER;
    assert (i + d + salt) * MULTIPLIER == (i + salt) * MULTIPLIER + d * MULTIPLIER;
    assert d * MULTIPLIER == Span(rows);
    ShiftBySpan((i + salt) * MULTIPLIER, Span(rows));
  }
}
