/** The divisor enumeration behind the factor-pair image size
    (`getFactors` in dist/utilities.js), with the divisor facts it rests on. */
module Divisors {
  import opened Types
  import opened Arith

  /** `d` is a positive divisor of `n`. */
  predicate IsDivisor(d: int, n: int)
  {
    d >= 1 && n % d == 0
  }

  predicate StrictlyAscending(s: seq<int>)
  {
    forall i, j :: 0 <= i < j < |s| ==> s[i] < s[j]
  }

  predicate Ascending(s: seq<int>)
  {
    forall i, j :: 0 <= i < j < |s| ==> s[i] <= s[j]
  }

  predicate Distinct(s: seq<int>)
  {
    forall i, j :: 0 <= i < j < |s| ==> s[i] != s[j]
  }

  // ---------------------------------------------------------------------
  // Divisors and cofactors
  // ---------------------------------------------------------------------

  /** A divisor and its cofactor multiply back to the number, and each is
      the other's cofactor. */
  lemma Cofactor(n: int, d: int)
    requires n >= 1 && IsDivisor(d, n)
    ensures IsDivisor(n / d, n)
    ensures (n / d) * d == n
    ensures n / (n / d) == d
  {
    var q := n / d;
    assert n == q * d;
    if q <= 0 {
      MulMonotone(q, 0, d);
    }
    DivModUnique(n, q, d, 0);
  }

  /** Of two divisors, the smaller has the larger cofactor. */
  lemma CofactorOrder(n: int, a: int, b: int)
    requires n >= 1 && IsDivisor(a, n) && IsDivisor(b, n) && a < b
    ensures n / b < n / a
  {
    Cofactor(n, a);
    Cofactor(n, b);
    if n / a <= n / b {
      MulMonotone(n / a, n / b, a);
      MulStrict(a, b, n / b);
      assert false;
    }
  }

  /** A divisor below the square root has its cofactor above it, and the
      other way round. */
  lemma CofactorSquare(n: int, d: int)
    requires n >= 1 && IsDivisor(d, n)
    ensures d * d < n <==> (n / d) * (n / d) > n
    ensures d * d == n <==> n / d == d
  {
    Cofactor(n, d);
    var q := n / d;
    SquareOrder(d, q);
    if d < q {
      MulStrict(d, q, d);
      MulStrict(d, q, q);
    } else if q < d {
      MulStrict(q, d, d);
      MulStrict(q, d, q);
    }
  }

  // ---------------------------------------------------------------------
  // Square root
  // ---------------------------------------------------------------------

  /** The integer square root: the largest `r` with `r * r <= n`. */
  function Isqrt(n: nat): (r: nat)
    ensures r * r <= n < (r + 1) * (r + 1)
  {
    if n == 0 then 0
    else
      var s := Isqrt(n - 1);
      if (s + 1) * (s + 1) <= n then s + 1
      else s
  }

  /** `n` is a positive perfect square. */
  predicate IsPerfectSquare(n: nat)
  {
    n >= 1 && Isqrt(n) * Isqrt(n) == n
  }

  lemma SquareRootUnique(n: nat, r: int)
    requires r >= 0 && r * r == n
    ensures r == Isqrt(n)
  {
    var s := Isqrt(n);
    SquareOrder(r, s);
    SquareOrder(s, r + 1);
    SquareOrder(r, s + 1);
  }

  // ---------------------------------------------------------------------
  // The ascending divisor list
  // ---------------------------------------------------------------------

  /** The divisors `d >= i` of `n` with `d * d < n`, ascending. */
  function Lower(n: nat, i: nat): seq<nat>
    requires i >= 1
    decreases n - i
  {
    if i * i >= n then []
    else
      MulMonotone(1, i, i);
      if n % i == 0 then [i] + Lower(n, i + 1) else Lower(n, i + 1)
  }

  /** The cofactors `n / d` of the same divisors, ascending (so the
      divisors `d` are taken from the largest down). */
  function Upper(n: nat, i: nat): seq<nat>
    requires i >= 1
    decreases n - i
  {
    if i * i >= n then []
    else
      MulMonotone(1, i, i);
      if n % i == 0 then Upper(n, i + 1) + [n / i] else Upper(n, i + 1)
  }

  /** The square root of `n` when it is a divisor, as a list of zero or one element. */
  function Root(n: nat): seq<nat>
  {
    if IsPerfectSquare(n) then [Isqrt(n)] else []
  }


  lemma {:induction false} LowerSpec(n: nat, i: nat)
    requires i >= 1
    ensures StrictlyAscending(Lower(n, i))
    ensures forall d :: d in Lower(n, i) <==> i <= d && IsDivisor(d, n) && d * d < n
    decreases n - i
  {
    if i * i >= n {
      forall d | i <= d
        ensures d * d >= n
      {
        SquareOrder(d, i);
      }
    } else {
      MulMonotone(1, i, i);
      LowerSpec(n, i + 1);
      var rest := Lower(n, i + 1);
      if n % i == 0 {
        assert Lower(n, i) == [i] + rest;
        forall d
          ensures d in Lower(n, i) <==> i <= d && IsDivisor(d, n) && d * d < n
        {
          assert d in Lower(n, i) <==> d == i || d in rest;
        }
        forall k | 0 <= k < |rest|
          ensures i < rest[k]
        {
          assert rest[k] in rest;
        }
      } else {
        assert Lower(n, i) == rest;
      }
    }
  }

  lemma {:induction false} UpperSpec(n: nat, i: nat)
    requires n >= 1 && i >= 1
    ensures StrictlyAscending(Upper(n, i))
    ensures forall q :: q in Upper(n, i) <==> IsDivisor(q, n) && q * q > n && n / q >= i
    decreases n - i
  {
    if i * i >= n {
      forall q | IsDivisor(q, n) && q * q > n
        ensures n / q < i
      {
        Cofactor(n, q);
        CofactorSquare(n, n / q);
        if n / q >= i {
          SquareOrder(i, n / q);
          SquareOrder(n / q, i);
        }
      }
    } else {
      MulMonotone(1, i, i);
      UpperSpec(n, i + 1);
      var rest := Upper(n, i + 1);
      forall q | IsDivisor(q, n) && n / q == i
        ensures n % i == 0 && q == n / i
      {
        Cofactor(n, q);
      }
      if n % i == 0 {
        Cofactor(n, i);
        CofactorSquare(n, i);
        assert Upper(n, i) == rest + [n / i];
        forall q
          ensures q in Upper(n, i) <==> IsDivisor(q, n) && q * q > n && n / q >= i
        {
          assert q in Upper(n, i) <==> q in rest || q == n / i;
        }
        forall k | 0 <= k < |rest|
          ensures rest[k] < n / i
        {
          var q := rest[k];
          assert q in rest;
          Cofactor(n, q);
          CofactorOrder(n, i, n / q);
        }
      } else {
        assert Upper(n, i) == rest;
      }
    }
  }

  /** Divisors come in pairs: the k-th cofactor from the bottom belongs to
      the k-th divisor from the top. */
  lemma {:induction false} Pairing(n: nat, i: nat)
    requires n >= 1 && i >= 1
    ensures |Upper(n, i)| == |Lower(n, i)|
    ensures forall j :: 0 <= j < |Lower(n, i)| ==> Lower(n, i)[j] >= i
    ensures forall j, k :: 0 <= j < |Lower(n, i)| && 0 <= k < |Upper(n, i)| && j + k == |Lower(n, i)| - 1 ==>
      Upper(n, i)[k] == n / Lower(n, i)[j]
    decreases n - i
  {
    if i * i < n {
      MulMonotone(1, i, i);
      Pairing(n, i + 1);
      var lo, up := Lower(n, i + 1), Upper(n, i + 1);
      if n % i == 0 {
        var lo', up' := Lower(n, i), Upper(n, i);
        assert lo' == [i] + lo;
        assert up' == up + [n / i];
        forall j | 0 <= j < |lo'|
          ensures lo'[j] >= i
        {
          if j > 0 {
            assert lo'[j] == lo[j - 1];
          }
        }
        forall j, k | 0 <= j < |lo'| && 0 <= k < |up'| && j + k == |lo'| - 1
          ensures up'[k] == n / lo'[j]
        {
          if j == 0 {
            assert up'[k] == n / i;
          } else {
            assert lo'[j] == lo[j - 1] && up'[k] == up[k];
          }
        }
      } else {
        assert Lower(n, i) == lo && Upper(n, i) == up;
      }
    }
  }

  lemma AscendingConcat(a: seq<int>, b: seq<int>)
    requires StrictlyAscending(a) && StrictlyAscending(b)
    requires forall x, y :: x in a && y in b ==> x < y
    ensures StrictlyAscending(a + b)
  {
    forall i, j | 0 <= i < j < |a + b|
      ensures (a + b)[i] < (a + b)[j]
    {
      if j < |a| {
      } else if i >= |a| {
        assert (a + b)[i] == b[i - |a|] && (a + b)[j] == b[j - |a|];
      } else {
        assert (a + b)[i] in a && (a + b)[j] in b;
      }
    }
  }

  /** The small divisors, the root and the cofactors, put in a row, form a
      strictly ascending list holding exactly the positive divisors. */
  lemma DivisorPieces(n: nat)
    ensures n == 0 ==> Lower(n, 1) + Root(n) + Upper(n, 1) == []
    ensures n >= 1 ==> StrictlyAscending(Lower(n, 1) + Root(n) + Upper(n, 1))
    ensures n >= 1 ==> forall d :: d in Lower(n, 1) + Root(n) + Upper(n, 1) <==> IsDivisor(d, n)
  {
    if n >= 1 {
      var lo, rt, up := Lower(n, 1), Root(n), Upper(n, 1);
      LowerSpec(n, 1);
      UpperSpec(n, 1);
      forall d | IsDivisor(d, n)
        ensures d in lo + rt + up
      {
        Cofactor(n, d);
        if d * d == n {
          SquareRootUnique(n, d);
        } else if d * d > n {
          assert d in up;
        } else {
          assert d in lo;
        }
      }
      forall d | d in rt
        ensures IsDivisor(d, n) && d * d == n
      {
        if d == 0 {
          assert false;
        }
        DivModUnique(n, d, d, 0);
      }
      forall x, y | x in lo && y in rt + up
        ensures x < y
      {
        SquareOrder(x, y);
      }
      forall x, y | x in rt && y in up
        ensures x < y
      {
        SquareOrder(x, y);
      }
      AscendingConcat(rt, up);
      AscendingConcat(lo, rt + up);
      assert lo + rt + up == lo + (rt + up);
    } else {
      assert Lower(0, 1) == [] && Upper(0, 1) == [];
    }
  }

  /** All positive divisors of `n`, in ascending order: what `getFactors`
      returns after its sort. Empty for 0. */
  function FactorList(n: nat): (f: seq<nat>)
    ensures n == 0 ==> f == []
    ensures n >= 1 ==> StrictlyAscending(f)
    ensures n >= 1 ==> forall d :: d in f <==> IsDivisor(d, n)
  {
    DivisorPieces(n);
    Lower(n, 1) + Root(n) + Upper(n, 1)
  }

  /** For a perfect square the root sits between the two halves. */
  lemma MiddleOfSquare(n: nat)
    requires n >= 2 && IsPerfectSquare(n)
    ensures |Lower(n, 1) + Root(n) + Upper(n, 1)| == 2 * |Lower(n, 1)| + 1
    ensures (Lower(n, 1) + Root(n) + Upper(n, 1))[|Lower(n, 1)|] == Isqrt(n)
  {
    Pairing(n, 1);
    assert Root(n) == [Isqrt(n)];
  }

  /** Otherwise the largest divisor below the root and the smallest above it
      meet in the middle, and they multiply to `n`. */
  lemma MiddleOfNonSquare(n: nat)
    requires n >= 2 && !IsPerfectSquare(n)
    ensures |Lower(n, 1) + Root(n) + Upper(n, 1)| == 2 * |Lower(n, 1)|
    ensures |Lower(n, 1)| >= 1
    ensures (Lower(n, 1) + Root(n) + Upper(n, 1))[|Lower(n, 1)| - 1] *
            (Lower(n, 1) + Root(n) + Upper(n, 1))[|Lower(n, 1)|] == n
  {
    var lo, up := Lower(n, 1), Upper(n, 1);
    Pairing(n, 1);
    assert lo == [1] + Lower(n, 2);
    var k := |lo|;
    var d := lo[k - 1];
    assert up[0] == n / d;
    assert d in lo;
    LowerSpec(n, 1);
    Cofactor(n, d);
    assert Root(n) == [];
    assert (lo + Root(n) + up)[k - 1] == d;
    assert (lo + Root(n) + up)[k] == up[0];
  }

  /** The middle of the divisor list, written out as its three pieces. */
  lemma MiddlePieces(n: nat)
    requires n >= 2
    ensures var f := Lower(n, 1) + Root(n) + Upper(n, 1);
            |f| >= 1 &&
            (|f| % 2 == 1 <==> IsPerfectSquare(n)) &&
            (|f| % 2 == 1 ==> f[|f| / 2] * f[|f| / 2] == n) &&
            (|f| % 2 == 0 ==> |f| >= 2 && f[|f| / 2 - 1] * f[|f| / 2] == n)
  {
    if IsPerfectSquare(n) {
      MiddleOfSquare(n);
    } else {
      MiddleOfNonSquare(n);
    }
  }

  /** The list has odd length exactly when `n` is a perfect square, and its
      middle element (odd length) or middle pair (even length) multiplies
      to `n`. */
  lemma MiddleDivisors(n: nat)
    requires n >= 2
    ensures |FactorList(n)| >= 1
    ensures |FactorList(n)| % 2 == 1 <==> IsPerfectSquare(n)
    ensures |FactorList(n)| % 2 == 1 ==>
      FactorList(n)[|FactorList(n)| / 2] * FactorList(n)[|FactorList(n)| / 2] == n
    ensures |FactorList(n)| % 2 == 0 ==>
      |FactorList(n)| >= 2 &&
      FactorList(n)[|FactorList(n)| / 2 - 1] * FactorList(n)[|FactorList(n)| / 2] == n
  {
    MiddlePieces(n);
    assert FactorList(n) == Lower(n, 1) + Root(n) + Upper(n, 1);
  }

  /** The head of a strictly ascending list is its least element and does
      not occur again in the tail. */
  lemma HeadAndTail(s: seq<int>)
    requires s != [] && StrictlyAscending(s)
    ensures forall x :: x in s ==> s[0] <= x
    ensures forall x :: x in s[1..] <==> x in s && x != s[0]
  {
    forall x | x in s
      ensures s[0] <= x
    {
      var j :| 0 <= j < |s| && s[j] == x;
      assert j == 0 || s[0] < s[j];
    }
    forall x | x in s && x != s[0]
      ensures x in s[1..]
    {
      var j :| 0 <= j < |s| && s[j] == x;
      assert s[1..][j - 1] == x;
    }
    forall x | x in s[1..]
      ensures x != s[0]
    {
      var j :| 0 <= j < |s| - 1 && s[1..][j] == x;
      assert s[0] < s[j + 1];
    }
  }

  /** Two strictly ascending lists with the same elements are equal: the
      order of a set of distinct numbers is unique. */
  lemma {:induction false} AscendingUnique(a: seq<int>, b: seq<int>)
    requires StrictlyAscending(a) && StrictlyAscending(b)
    requires forall x :: x in a <==> x in b
    ensures a == b
    decreases |a|
  {
    assert a != [] ==> a[0] in a;
    assert b != [] ==> b[0] in b;
    if a != [] && b != [] {
      HeadAndTail(a);
      HeadAndTail(b);
      assert a[0] == b[0];
      AscendingUnique(a[1..], b[1..]);
      assert a == [a[0]] + a[1..];
      assert b == [b[0]] + b[1..];
    }
  }

  // ---------------------------------------------------------------------
  // Sorting (the numeric `sort((a, b) => a - b)` of the collected factors)
  // ---------------------------------------------------------------------

  lemma Prepend(h: int, t: seq<int>)
    ensures Ascending(t) && (forall k :: 0 <= k < |t| ==> h <= t[k]) ==> Ascending([h] + t)
    ensures StrictlyAscending(t) && (forall k :: 0 <= k < |t| ==> h < t[k]) ==> StrictlyAscending([h] + t)
  {
    forall i, j | 0 <= i < j < |[h] + t|
      ensures ([h] + t)[j] == t[j - 1]
      ensures i > 0 ==> ([h] + t)[i] == t[i - 1]
    {
    }
  }

  /** The step of `Insert` past a smaller head: keeping the head in front
      of the insertion into the tail keeps the list ordered. */
  lemma InsertBehindHead(x: int, s: seq<int>, tail: seq<int>)
    requires s != [] && s[0] < x
    requires multiset(tail) == multiset(s[1..]) + multiset{x}
    requires Ascending(s[1..]) ==> Ascending(tail)
    requires StrictlyAscending(s[1..]) && x !in s[1..] ==> StrictlyAscending(tail)
    ensures multiset([s[0]] + tail) == multiset(s) + multiset{x}
    ensures Ascending(s) ==> Ascending([s[0]] + tail)
    ensures StrictlyAscending(s) && x !in s ==> StrictlyAscending([s[0]] + tail)
  {
    assert s == [s[0]] + s[1..];
    forall k | 0 <= k < |tail|
      ensures tail[k] == x || tail[k] in s[1..]
    {
      assert tail[k] in multiset(tail);
    }
    if Ascending(s) {
      forall k | 0 <= k < |tail|
        ensures s[0] <= tail[k]
      {
        if tail[k] != x {
          var j :| 1 <= j < |s| && s[j] == tail[k];
        }
      }
      Prepend(s[0], tail);
    }
    if StrictlyAscending(s) {
      forall k | 0 <= k < |tail|
        ensures s[0] < tail[k]
      {
        if tail[k] != x {
          var j :| 1 <= j < |s| && s[j] == tail[k];
        }
      }
      Prepend(s[0], tail);
    }
  }

  /** Places `x` in front of the first element it does not exceed. */
  function Insert(x: int, s: seq<int>): (r: seq<int>)
    ensures multiset(r) == multiset(s) + multiset{x}
    ensures Ascending(s) ==> Ascending(r)
    ensures StrictlyAscending(s) && x !in s ==> StrictlyAscending(r)
  {
    if s == [] then [x]
    else if x <= s[0] then
      Prepend(x, s);
      assert x !in s ==> x < s[0] by {
        assert s[0] in s;
      }
      [x] + s
    else
      var tail := Insert(x, s[1..]);
      InsertBehindHead(x, s, tail);
      [s[0]] + tail
  }

  /** Insertion sort: an ascending permutation of its input. */
  function Sort(s: seq<int>): (t: seq<int>)
    ensures multiset(t) == multiset(s)
    ensures Ascending(t)
    ensures Distinct(s) ==> StrictlyAscending(t)
  {
    if s == [] then []
    else
      var init := s[..|s| - 1];
      var last := s[|s| - 1];
      assert s == init + [last];
      var sorted := Sort(init);
      assert last !in init ==> last !in sorted by {
        assert last in sorted ==> last in multiset(sorted);
      }
      Insert(last, sorted)
  }

  lemma DistinctAppend(s: seq<int>, x: int)
    requires Distinct(s) && x !in s
    ensures Distinct(s + [x])
  {
    forall i, j | 0 <= i < j < |s + [x]|
      ensures (s + [x])[i] != (s + [x])[j]
    {
      assert (s + [x])[i] == s[i];
      if j == |s| {
        assert s[i] in s;
      }
    }
  }

  /** One round of the collecting loop: after trying `i`, the list holds,
      once each, every divisor that is below `i + 1` or whose cofactor is. */
  lemma CollectStep(num: int, i: int, before: seq<int>, after: seq<int>)
    requires num >= 1 && i >= 1 && i * i <= num
    requires Distinct(before)
    requires forall e :: e in before <==> IsDivisor(e, num) && (e < i || num / e < i)
    requires after == if num % i != 0 then before
                      else if i != num / i then before + [i] + [num / i]
                      else before + [i]
    ensures Distinct(after)
    ensures forall e :: e in after <==> IsDivisor(e, num) && (e < i + 1 || num / e < i + 1)
  {
    forall e | IsDivisor(e, num) && num / e == i
      ensures num % i == 0 && e == num / i
    {
      Cofactor(num, e);
    }
    if num % i == 0 {
      Cofactor(num, i);
      SquareOrder(i, num / i);
      assert i !in before;
      DistinctAppend(before, i);
      if i != num / i {
        assert num / i !in before + [i];
        DistinctAppend(before + [i], num / i);
      }
    }
  }

  /** `getFactors`: rejects a negative argument, otherwise collects each
      divisor `i` up to the square root together with its cofactor
      `num / i` (once when they coincide) and sorts the result. */
  method GetFactors(num: int) returns (r: Result<seq<int>>)
    ensures r.Err? <==> num < 0
    ensures r.Ok? ==> r.value == FactorList(num)
    ensures r.Ok? ==> StrictlyAscending(r.value)
    ensures r.Ok? && num >= 1 ==> forall d :: d in r.value <==> IsDivisor(d, num)
  {
    if num < 0 {
      return Err("Number must be positive");
    }
    var factors: seq<int> := [];
    var i := 1;
    while i * i <= num
      invariant i >= 1
      invariant num == 0 ==> factors == []
      invariant Distinct(factors)
      invariant num >= 1 ==> forall e :: e in factors <==> IsDivisor(e, num) && (e < i || num / e < i)
      decreases num - i
    {
      MulMonotone(1, i, i);
      ghost var before := factors;
      if num % i == 0 {
        factors := factors + [i];
        if i != num / i {
          factors := factors + [num / i];
        }
      }
      CollectStep(num, i, before, factors);
      i := i + 1;
    }
    if num >= 1 {
      forall e | IsDivisor(e, num)
        ensures e < i || num / e < i
      {
        Cofactor(num, e);
        if e >= i && num / e >= i {
          MulMonotone(i, e, i);
          MulMonotone(i, num / e, e);
        }
      }
    }
    var sorted := Sort(factors);
    assert forall e :: e in sorted <==> e in factors by {
      forall e ensures e in sorted <==> e in factors {
        assert e in sorted <==> e in multiset(sorted);
        assert e in factors <==> e in multiset(factors);
      }
    }
    if num >= 1 {
      AscendingUnique(sorted, FactorList(num));
    }
    r := Ok(sorted);
  }
}
