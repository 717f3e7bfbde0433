/** Small helpers shared by the puzzle models: an option type, sums and
    products of integer sequences, and the integer operations whose Rust
    meaning differs from Dafny's (truncating division, `signum`, `abs`). */
module Common {

  datatype Option<+T> = None | Some(value: T)

  /** Sum of a sequence, folded from the left like `Iterator::sum`. */
  function Sum(s: seq<int>): int
  {
    if |s| == 0 then 0 else Sum(s[..|s| - 1]) + s[|s| - 1]
  }

  lemma {:induction false} SumAppend(a: seq<int>, b: seq<int>)
    ensures Sum(a + b) == Sum(a) + Sum(b)
    decreases |b|
  {
    if |b| == 0 {
      assert a + b == a;
    } else {
      assert (a + b)[..|a + b| - 1] == a + b[..|b| - 1];
      SumAppend(a, b[..|b| - 1]);
    }
  }

  lemma {:induction false} SumNonNegative(s: seq<int>)
    requires forall i :: 0 <= i < |s| ==> s[i] >= 0
    ensures Sum(s) >= 0
    decreases |s|
  {
    if |s| > 0 {
      SumNonNegative(s[..|s| - 1]);
    }
  }

  /** Rearranging a sequence does not change its sum. */
  lemma {:induction false} SumPermutation(a: seq<int>, b: seq<int>)
    requires multiset(a) == multiset(b)
    ensures Sum(a) == Sum(b)
    decreases |a|
  {
    assert |a| == |multiset(a)| == |b|;
    if |a| > 0 {
      var x := a[|a| - 1];
      assert a == a[..|a| - 1] + [x];
      assert x in multiset(b);
      var i :| 0 <= i < |b| && b[i] == x;
      var rest := b[..i] + b[i + 1..];
      assert b == b[..i] + [x] + b[i + 1..];
      assert multiset(b) == multiset(rest) + multiset{x} by {
        assert multiset(b) == multiset(b[..i]) + multiset{x} + multiset(b[i + 1..]);
        assert multiset(rest) == multiset(b[..i]) + multiset(b[i + 1..]);
      }
      assert multiset(a) == multiset(a[..|a| - 1]) + multiset{x};
      assert multiset(a[..|a| - 1]) == multiset(a) - multiset{x};
      assert multiset(rest) == multiset(b) - multiset{x};
      SumPermutation(a[..|a| - 1], rest);
      SumAppend(b[..i] + [x], b[i + 1..]);
      SumAppend(b[..i], [x]);
      SumAppend(b[..i], b[i + 1..]);
    }
  }

  /** Product of a sequence, as `Iterator::product`. */
  function Product(s: seq<int>): int
  {
    if |s| == 0 then 1 else Product(s[..|s| - 1]) * s[|s| - 1]
  }

  function Abs(x: int): nat
  {
    if x < 0 then -x else x
  }

  function Max(a: int, b: int): int
  {
    if a < b then b else a
  }

  function Min(a: int, b: int): int
  {
    if a < b then a else b
  }

  /** Rust's `i32::signum`. */
  function Sign(x: int): int
  {
    if x > 0 then 1 else if x < 0 then -1 else 0
  }

  /** Rust's integer `/`: the quotient truncated toward zero (Dafny's `/` is
      Euclidean, so the two differ when exactly one operand is negative). */
  function TruncDiv(a: int, b: int): (q: int)
    requires b != 0
  {
    if (a < 0) == (b < 0) then Abs(a) / Abs(b) else -(Abs(a) / Abs(b))
  }

  lemma LemmaDivMultiple(a: nat, b: nat)
    requires b > 0
    ensures (a * b) / b == a
  {
    var q := (a * b) / b;
    var r := (a * b) % b;
    assert a * b == q * b + r;
    assert (a - q) * b == r by {
      assert (a - q) * b == a * b - q * b;
    }
    MulSignBound(a - q, b);
  }

  lemma MulSignBound(x: int, b: int)
    requires b > 0
    ensures x >= 1 ==> x * b >= b
    ensures x <= -1 ==> x * b <= -b
  {
  }

  /** The quotient and remainder are the unique ones. */
  lemma ModUnique(z: int, q: int, r: int, n: int)
    requires n > 0 && z == q * n + r && 0 <= r < n
    ensures z % n == r && z / n == q
  {
    var q', r' := z / n, z % n;
    assert (q - q') * n == r' - r by {
      assert (q - q') * n == q * n - q' * n;
    }
    MulSignBound(q - q', n);
  }

  /** Adding a multiple of `n` does not change the remainder. */
  lemma ModSplit(z: int, q: int, r: nat, n: int)
    requires n > 0 && z == q * n + r
    ensures z % n == r % n
  {
    var q2, r2 := r / n, r % n;
    assert z == (q + q2) * n + r2 by {
      assert (q + q2) * n == q * n + q2 * n;
    }
    ModUnique(z, q + q2, r2, n);
  }

  lemma AbsMul(a: int, b: int)
    ensures Abs(a * b) == Abs(a) * Abs(b)
  {
    if a < 0 && b < 0 {
      assert a * b == (-a) * (-b);
    } else if a < 0 {
      assert a * b == -((-a) * b);
    } else if b < 0 {
      assert a * b == -(a * (-b));
    }
  }

  /** Division that leaves no remainder undoes multiplication. */
  lemma TruncDivExact(a: int, b: int)
    requires b != 0
    ensures TruncDiv(a * b, b) == a
  {
    AbsMul(a, b);
    LemmaDivMultiple(Abs(a), Abs(b));
    if a != 0 {
      assert a * b < 0 <==> (a < 0) != (b < 0) by {
        if a > 0 && b > 0 { assert a * b > 0; }
        if a < 0 && b < 0 { assert a * b == (-a) * (-b); }
        if a > 0 && b < 0 { assert a * b == -(a * (-b)); }
        if a < 0 && b > 0 { assert a * b == -((-a) * b); }
      }
    }
  }

  // ----- sorting (`sort`/`sort_unstable` on integers) -----

  predicate Sorted(s: seq<int>)
  {
    forall i, j :: 0 <= i < j < |s| ==> s[i] <= s[j]
  }

  /** Prepending an element no larger than the head keeps a sequence sorted. */
  lemma SortedCons(a: int, t: seq<int>)
    requires Sorted(t)
    requires |t| == 0 || a <= t[0]
    ensures Sorted([a] + t)
  {
    var r := [a] + t;
    forall i, j | 0 <= i < j < |r|
      ensures r[i] <= r[j]
    {
      if i > 0 {
        assert r[i] == t[i - 1] && r[j] == t[j - 1];
      } else {
        assert r[j] == t[j - 1];
      }
    }
  }

  /** Insert `x` into an ascending sequence, before the first larger-or-equal
      element. */
  function Insert(x: int, s: seq<int>): (r: seq<int>)
    requires Sorted(s)
    ensures Sorted(r)
    ensures multiset(r) == multiset(s) + multiset{x}
    ensures |r| == |s| + 1
    ensures r[0] == x || (|s| > 0 && r[0] == s[0])
  {
    if |s| == 0 then [x]
    else if x <= s[0] then SortedCons(x, s); [x] + s
    else
      assert s == [s[0]] + s[1..];
      var t := Insert(x, s[1..]);
      SortedCons(s[0], t);
      [s[0]] + t
  }

  /** The ascending rearrangement of `s`. */
  function Sort(s: seq<int>): (r: seq<int>)
    ensures Sorted(r)
    ensures multiset(r) == multiset(s)
    ensures |r| == |s|
  {
    if |s| == 0 then []
    else
      assert s == [s[0]] + s[1..];
      Insert(s[0], Sort(s[1..]))
  }

  /** The last element of an ascending rearrangement is the maximum. */
  lemma SortedLastIsMax(s: seq<int>, v: seq<int>)
    requires |s| > 0 && Sorted(v) && multiset(v) == multiset(s)
    ensures v[|v| - 1] in s
    ensures forall i :: 0 <= i < |s| ==> s[i] <= v[|v| - 1]
  {
    assert |v| == |multiset(v)| == |s|;
    assert v[|v| - 1] in multiset(v);
    forall i | 0 <= i < |s|
      ensures s[i] <= v[|v| - 1]
    {
      assert s[i] in multiset(s);
      assert s[i] in multiset(v);
      var j :| 0 <= j < |v| && v[j] == s[i];
    }
  }

  /** A sum of non-negative numbers is at least its last term. */
  lemma SumAtLeastLast(s: seq<int>)
    requires |s| > 0
    requires forall i :: 0 <= i < |s| ==> s[i] >= 0
    ensures Sum(s) >= s[|s| - 1]
  {
    SumNonNegative(s[..|s| - 1]);
  }

  /** The elements in the opposite order. */
  function Reverse<T>(s: seq<T>): (r: seq<T>)
    ensures |r| == |s|
    ensures forall i :: 0 <= i < |s| ==> r[i] == s[|s| - 1 - i]
  {
    if |s| == 0 then [] else [s[|s| - 1]] + Reverse(s[..|s| - 1])
  }

  /** Reversing twice gives the sequence back. */
  lemma ReverseReverse<T>(s: seq<T>)
    ensures Reverse(Reverse(s)) == s
  {
  }

  /** Reversing a sequence with one more element in front puts that element
      last. */
  lemma ReversePrepend<T>(a: T, s: seq<T>)
    ensures Reverse([a] + s) == Reverse(s) + [a]
  {
    var l, r := Reverse([a] + s), Reverse(s) + [a];
    assert forall i :: 0 <= i < |l| ==> l[i] == r[i];
  }

  /** Reversing a sequence with one more element at the end puts that element
      first. */
  lemma ReverseAppend<T>(s: seq<T>, a: T)
    ensures Reverse(s + [a]) == [a] + Reverse(s)
  {
    var l, r := Reverse(s + [a]), [a] + Reverse(s);
    assert forall i :: 0 <= i < |l| ==> l[i] == r[i];
  }
}
