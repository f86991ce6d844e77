/** Sorting samples and counting them, over exact reals. */
module Samples {

  predicate Ordered(s: seq<real>) {
    forall i, j | 0 <= i <= j < |s| :: s[i] <= s[j]
  }

  function Insert(x: real, s: seq<real>): seq<real> {
    if s == [] || x <= s[0] then [x] + s else [s[0]] + Insert(x, s[1..])
  }

  /** `sorted` of a list of numbers. */
  function Sort(s: seq<real>): seq<real> {
    if s == [] then [] else Insert(s[0], Sort(s[1..]))
  }

  lemma {:induction false} InsertKeeps(x: real, s: seq<real>)
    requires Ordered(s)
    ensures multiset(Insert(x, s)) == multiset{x} + multiset(s)
    ensures Ordered(Insert(x, s)) && |Insert(x, s)| == |s| + 1
  {
    if s != [] && x > s[0] {
      InsertKeeps(x, s[1..]);
      var r := Insert(x, s[1..]);
      assert s == [s[0]] + s[1..];
      forall j | 0 <= j < |r|
        ensures s[0] <= r[j]
      {
        assert r[j] in multiset(r);
        assert r[j] == x || r[j] in s[1..];
      }
    }
  }

  lemma {:induction false} SortSorts(s: seq<real>)
    ensures Ordered(Sort(s)) && multiset(Sort(s)) == multiset(s) && |Sort(s)| == |s|
  {
    if s != [] {
      SortSorts(s[1..]);
      InsertKeeps(s[0], Sort(s[1..]));
      assert s == [s[0]] + s[1..];
    }
  }

  lemma LeastComesFirst(a: seq<real>, b: seq<real>)
    requires Ordered(a) && Ordered(b) && multiset(a) == multiset(b) && a != []
    ensures b != [] && a[0] <= b[0]
  {
    assert |multiset(a)| == |a| && |multiset(b)| == |b|;
    assert b[0] in multiset(a);
  }

  lemma HeadAndTail(s: seq<real>)
    requires s != []
    ensures multiset(s) == multiset{s[0]} + multiset(s[1..])
  {
    assert s == [s[0]] + s[1..];
  }

  lemma SameTail(x: real, a: multiset<real>, b: multiset<real>)
    requires multiset{x} + a == multiset{x} + b
    ensures a == b
  {
    assert a == (multiset{x} + a) - multiset{x} && b == (multiset{x} + b) - multiset{x};
  }

  /** Ordered lists with the same samples are the same list. */
  lemma {:induction false} OrderedUnique(a: seq<real>, b: seq<real>)
    requires Ordered(a) && Ordered(b) && multiset(a) == multiset(b)
    ensures a == b
  {
    assert |multiset(a)| == |a| && |multiset(b)| == |b|;
    if a != [] {
      LeastComesFirst(a, b);
      LeastComesFirst(b, a);
      HeadAndTail(a);
      HeadAndTail(b);
      SameTail(a[0], multiset(a[1..]), multiset(b[1..]));
      OrderedUnique(a[1..], b[1..]);
    }
  }

  lemma SameSize(s: seq<real>, t: seq<real>)
    requires multiset(s) == multiset(t)
    ensures |s| == |t|
  {
    assert |multiset(s)| == |s| && |multiset(t)| == |t|;
  }

  lemma SortIgnoresOrder(s: seq<real>, t: seq<real>)
    requires multiset(s) == multiset(t)
    ensures Sort(s) == Sort(t)
  {
    SortSorts(s);
    SortSorts(t);
    OrderedUnique(Sort(s), Sort(t));
  }

  lemma SortMembers(s: seq<real>, x: real)
    ensures x in Sort(s) <==> x in s
  {
    SortSorts(s);
    assert x in multiset(Sort(s)) <==> x in multiset(s);
  }

  /** How many samples are at or below x. */
  function Count(s: seq<real>, x: real): nat {
    if s == [] then 0 else (if s[0] <= x then 1 else 0) + Count(s[1..], x)
  }

  lemma {:induction false} CountInsert(y: real, s: seq<real>, x: real)
    ensures Count(Insert(y, s), x) == (if y <= x then 1 else 0) + Count(s, x)
  {
    if s == [] || y <= s[0] {
      assert ([y] + s)[1..] == s;
    } else {
      CountInsert(y, s[1..], x);
      assert ([s[0]] + Insert(y, s[1..]))[1..] == Insert(y, s[1..]);
    }
  }

  lemma {:induction false} CountSorted(s: seq<real>, x: real)
    ensures Count(Sort(s), x) == Count(s, x)
  {
    if s != [] {
      CountSorted(s[1..], x);
      CountInsert(s[0], Sort(s[1..]), x);
    }
  }

  /** If the first k samples are at or below x, the count reaches k. */
  lemma {:induction false} CountAtLeast(s: seq<real>, x: real, k: nat)
    requires k <= |s| && forall i | 0 <= i < k :: s[i] <= x
    ensures Count(s, x) >= k
  {
    if k > 0 {
      CountAtLeast(s[1..], x, k - 1);
    }
  }

  /** If the samples from k on are above x, the count stays within k. */
  lemma {:induction false} CountAtMost(s: seq<real>, x: real, k: nat)
    requires k <= |s| && forall i | k <= i < |s| :: s[i] > x
    ensures Count(s, x) <= k
  {
    if s != [] {
      CountAtMost(s[1..], x, if k > 0 then k - 1 else 0);
    }
  }

  function Negated(s: seq<real>): (r: seq<real>)
    ensures |r| == |s| && forall i | 0 <= i < |s| :: r[i] == -s[i]
  {
    seq(|s|, i requires 0 <= i < |s| => -s[i])
  }

  /** Negating and reversing. */
  function Mirrored(s: seq<real>): (r: seq<real>)
    ensures |r| == |s| && forall i | 0 <= i < |s| :: r[i] == -s[|s| - 1 - i]
  {
    seq(|s|, i requires 0 <= i < |s| => -s[|s| - 1 - i])
  }

  lemma {:induction false} NegatedHas(s: seq<real>, x: real)
    ensures multiset(Negated(s))[x] == multiset(s)[-x]
  {
    if s != [] {
      NegatedHas(s[1..], x);
      HeadAndTail(s);
      HeadAndTail(Negated(s));
      assert Negated(s)[1..] == Negated(s[1..]);
    }
  }

  lemma {:induction false} MirroredHas(s: seq<real>, x: real)
    ensures multiset(Mirrored(s))[x] == multiset(s)[-x]
  {
    if s != [] {
      MirroredHas(s[1..], x);
      assert s == [s[0]] + s[1..];
      assert Mirrored(s) == Mirrored(s[1..]) + [-s[0]];
    }
  }

  lemma SortNegated(s: seq<real>)
    ensures Sort(Negated(s)) == Mirrored(Sort(s))
  {
    SortSorts(s);
    SortSorts(Negated(s));
    forall x: real
      ensures multiset(Sort(Negated(s)))[x] == multiset(Mirrored(Sort(s)))[x]
    {
      NegatedHas(s, x);
      MirroredHas(Sort(s), x);
    }
    assert multiset(Sort(Negated(s))) == multiset(Mirrored(Sort(s)));
    OrderedUnique(Sort(Negated(s)), Mirrored(Sort(s)));
  }
}
