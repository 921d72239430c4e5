/** Divisors of an integer: the ascending list the exercises build, its sum,
    and the square-root pairing the divisor-count loop relies on. */
module Divisibility {
  import opened Sequences

  /** The d in 1..k with n % d == 0, ascending. */
  function DivisorsUpTo(n: int, k: int): (ds: seq<int>)
    ensures forall i :: 0 <= i < |ds| ==> 1 <= ds[i] <= k && n % ds[i] == 0
    ensures forall d :: 1 <= d <= k && n % d == 0 ==> d in ds
    ensures Ascending(ds)
    decreases k
  {
    if k < 1 then [] else DivisorsUpTo(n, k - 1) + (if n % k == 0 then [k] else [])
  }

  /** Every divisor of n from 1 to n; none when n <= 0. */
  function Divisors(n: int): seq<int>
  {
    DivisorsUpTo(n, n)
  }

  predicate Ascending(s: seq<int>)
  {
    forall i, j :: 0 <= i < j < |s| ==> s[i] < s[j]
  }

  /** Sum of a sequence, added up front to back. */
  function Sum(s: seq<int>): int
  {
    if s == [] then 0 else Sum(s[..|s| - 1]) + s[|s| - 1]
  }

  /** The divisors up to k are those up to j followed by those in j+1..k. */
  lemma {:induction false} DivisorsUpToSplit(n: int, j: int, k: int)
    requires 0 <= j <= k
    ensures exists rest :: DivisorsUpTo(n, k) == DivisorsUpTo(n, j) + rest
                         && forall i :: 0 <= i < |rest| ==> rest[i] > j
    decreases k - j
  {
    if j == k {
      assert DivisorsUpTo(n, k) == DivisorsUpTo(n, j) + [];
    } else {
      DivisorsUpToSplit(n, j, k - 1);
      var rest :| DivisorsUpTo(n, k - 1) == DivisorsUpTo(n, j) + rest
                  && forall i :: 0 <= i < |rest| ==> rest[i] > j;
      var last := if n % k == 0 then [k] else [];
      assert DivisorsUpTo(n, k) == DivisorsUpTo(n, j) + (rest + last);
      assert forall i :: 0 <= i < |rest + last| ==> (rest + last)[i] > j;
    }
  }

  /** A filter whose test holds only below j + 1 sees no more than the divisors up to j. */
  lemma FilterDivisorsBelow(n: int, j: int, k: int, p: int -> bool)
    requires 0 <= j <= k
    requires forall d :: d > j ==> !p(d)
    ensures Filter(DivisorsUpTo(n, k), p) == Filter(DivisorsUpTo(n, j), p)
  {
    DivisorsUpToSplit(n, j, k);
    var rest :| DivisorsUpTo(n, k) == DivisorsUpTo(n, j) + rest
                && forall i :: 0 <= i < |rest| ==> rest[i] > j;
    FilterAppend(DivisorsUpTo(n, j), rest, p);
    FilterNone(rest, p);
    assert Filter(DivisorsUpTo(n, j), p) + [] == Filter(DivisorsUpTo(n, j), p);
  }

  lemma {:induction false} AscendingCard(s: seq<int>)
    requires Ascending(s)
    ensures |set x | x in s| == |s|
  {
    if s != [] {
      var init := s[..|s| - 1];
      AscendingCard(init);
      var last := s[|s| - 1];
      assert (set x | x in s) == (set x | x in init) + {last} by {
        assert s == init + [last];
      }
      assert last !in (set x | x in init);
    }
  }

  lemma {:induction false} FilterAscending(s: seq<int>, p: int -> bool)
    requires Ascending(s)
    ensures Ascending(Filter(s, p))
  {
    if s != [] {
      FilterAscending(s[1..], p);
      var r := Filter(s[1..], p);
      FilterMembers(s[1..], p);
      assert forall i :: 0 <= i < |r| ==> r[i] in s[1..];
      assert forall x :: x in s[1..] ==> s[0] < x;
    }
  }

  /** One-to-one maps from xs into b show |xs| <= |b|. */
  lemma {:induction false} InjectionCard(xs: seq<int>, b: set<int>, f: int -> int)
    requires forall i :: 0 <= i < |xs| ==> f(xs[i]) in b
    requires forall i, j :: 0 <= i < |xs| && 0 <= j < |xs| && f(xs[i]) == f(xs[j]) ==> i == j
    ensures |xs| <= |b|
  {
    if xs != [] {
      var xs' := xs[1..];
      forall i | 0 <= i < |xs'| ensures f(xs'[i]) in b - {f(xs[0])} {
        assert xs'[i] == xs[i + 1];
      }
      InjectionCard(xs', b - {f(xs[0])}, f);
    }
  }

  /** d * (n / d) == n for every divisor d of n. */
  lemma CoDivisor(n: int, d: int)
    requires d >= 1 && n % d == 0
    ensures d * (n / d) == n
  {
  }

  lemma MulCancel(a: int, b: int, q: int)
    requires q != 0 && a * q == b * q
    ensures a == b
  {
    assert (a - b) * q == a * q - b * q;
  }

  lemma MulStrict(a: int, b: int, q: int)
    requires a < b && q > 0
    ensures a * q < b * q
  {
  }

  lemma MulMono(a: int, b: int, q: int)
    requires a <= b && q >= 0
    ensures a * q <= b * q
  {
  }

  /** The co-divisor map d |-> n / d is one-to-one on the divisors of n. */
  lemma CoDivisorInjective(n: int, d1: int, d2: int)
    requires n >= 1 && d1 >= 1 && n % d1 == 0 && d2 >= 1 && n % d2 == 0
    requires n / d1 == n / d2
    ensures d1 == d2
  {
    var q := n / d1;
    CoDivisor(n, d1);
    CoDivisor(n, d2);
    assert q != 0 by { assert d1 * q == n; }
    MulCancel(d1, d2, q);
  }

  lemma DivExact(n: int, e: int, d: int)
    requires e >= 1 && e * d == n
    ensures n % e == 0 && n / e == d
  {
    var q, r := n / e, n % e;
    assert n == e * q + r && 0 <= r < e;
    var k := d - q;
    assert e * k == r by { assert e * d - e * q == e * (d - q); }
    if k >= 1 {
      MulMono(1, k, e);
    } else if k <= -1 {
      MulMono(k, -1, e);
    }
  }

  /** d and n / d lie on opposite sides of the square root. */
  lemma PairedDivisors(n: int, d: int)
    requires n >= 1 && 1 <= d <= n && n % d == 0
    ensures 1 <= n / d <= n && n % (n / d) == 0 && n / (n / d) == d
    ensures d * d < n <==> (n / d) * (n / d) > n
  {
    var e := n / d;
    CoDivisor(n, d);
    assert e * d == n;
    assert e >= 1;
    assert e <= n by { if e > n { MulStrict(n, e, d); } }
    DivExact(n, e, d);
    if d * d < n {
      if e <= d { MulMono(e, d, d); }
      MulStrict(d, e, e);
    }
    if e * e > n {
      if e <= d { MulMono(e, d, e); }
      MulStrict(d, e, d);
    }
  }

  /** Tests for lying below, at and above the square root of n. */
  function BelowRoot(n: int): int -> bool { d => d * d < n }
  function AtRoot(n: int): int -> bool { d => d * d == n }
  function AboveRoot(n: int): int -> bool { d => d * d > n }

  /** Divisors below, at and above the square root. */
  function SmallDivisors(n: int): seq<int> { Filter(Divisors(n), BelowRoot(n)) }
  function RootDivisors(n: int): seq<int> { Filter(Divisors(n), AtRoot(n)) }
  function LargeDivisors(n: int): seq<int> { Filter(Divisors(n), AboveRoot(n)) }

  lemma {:induction false} Partition3(s: seq<int>, n: int)
    ensures |s| == |Filter(s, BelowRoot(n))| + |Filter(s, AtRoot(n))| + |Filter(s, AboveRoot(n))|
  {
    if s != [] {
      Partition3(s[1..], n);
    }
  }

  /** The co-divisor map, total on the integers. */
  function CoDivisorMap(n: int): int -> int
  {
    (d: int) => if d >= 1 then n / d else 0
  }

  /** The co-divisor of a divisor off the square root is a divisor on the
      other side of it. */
  lemma CoDivisorOpposite(n: int, x: int)
    requires n >= 1 && x in Divisors(n) && x * x != n
    ensures n / x in Divisors(n)
    ensures (n / x) * (n / x) != n && (x * x < n <==> (n / x) * (n / x) > n)
  {
    var i :| 0 <= i < |Divisors(n)| && Divisors(n)[i] == x;
    PairedDivisors(n, x);
    PairedDivisors(n, n / x);
  }

  /** The co-divisor map sends xs, divisors on one side of the square root,
      one-to-one into ys, the divisors on the other side. */
  lemma CoDivisorInjection(n: int, xs: seq<int>, ys: seq<int>, small: bool)
    requires n >= 1 && Ascending(xs) && Ascending(ys)
    requires forall x :: x in xs ==> x in Divisors(n) && (x * x < n <==> small)
    requires forall x :: x in xs ==> x * x != n
    requires forall y :: y in Divisors(n) && (y * y > n <==> small) && y * y != n ==> y in ys
    ensures |xs| <= |ys|
  {
    var f := CoDivisorMap(n);
    AscendingCard(ys);
    forall i | 0 <= i < |xs| ensures f(xs[i]) in (set y | y in ys) {
      var x := xs[i];
      assert x in xs;
      CoDivisorOpposite(n, x);
      assert f(x) == n / x;
    }
    forall i, j | 0 <= i < |xs| && 0 <= j < |xs| && f(xs[i]) == f(xs[j]) ensures i == j {
      assert xs[i] in xs && xs[j] in xs;
      CoDivisorInjective(n, xs[i], xs[j]);
    }
    InjectionCard(xs, (set y | y in ys), f);
  }

  lemma SmallLargeCard(n: int)
    requires n >= 1
    ensures |SmallDivisors(n)| == |LargeDivisors(n)|
  {
    var sm, lg := SmallDivisors(n), LargeDivisors(n);
    FilterAscending(Divisors(n), BelowRoot(n));
    FilterAscending(Divisors(n), AboveRoot(n));
    FilterMembers(Divisors(n), BelowRoot(n));
    FilterMembers(Divisors(n), AboveRoot(n));
    CoDivisorInjection(n, sm, lg, true);
    CoDivisorInjection(n, lg, sm, false);
  }

  /** Twice the divisors below the square root, plus the root if it divides,
      is the number of divisors. */
  lemma DivisorCountByPairs(n: int)
    requires n >= 1
    ensures |Divisors(n)| == 2 * |SmallDivisors(n)| + |RootDivisors(n)|
  {
    SmallLargeCard(n);
    Partition3(Divisors(n), n);
  }
}
