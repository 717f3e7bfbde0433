/** Tuning trouble: the first position in the datastream after which the
    last `n` characters are all different. */
module SignalMarker {
  import opened Common

  /** No character occurs twice. */
  predicate Distinct(s: seq<char>)
  {
    forall i, j :: 0 <= i < j < |s| ==> s[i] != s[j]
  }

  /** The set of characters of `s`. */
  function SetOf(s: seq<char>): set<char>
  {
    if |s| == 0 then {} else SetOf(s[..|s| - 1]) + {s[|s| - 1]}
  }

  /** The set holds exactly the characters of the sequence. */
  lemma {:induction false} SetOfMembers(s: seq<char>)
    ensures forall c :: c in SetOf(s) <==> c in s
    decreases |s|
  {
    if |s| > 0 {
      SetOfMembers(s[..|s| - 1]);
      assert s == s[..|s| - 1] + [s[|s| - 1]];
    }
  }

  lemma {:induction false} SetOfSize(s: seq<char>)
    ensures |SetOf(s)| <= |s|
    decreases |s|
  {
    if |s| > 0 {
      SetOfSize(s[..|s| - 1]);
    }
  }

  /** Without a repeat, the set has one element per character. */
  lemma {:induction false} DistinctFullSet(s: seq<char>)
    requires Distinct(s)
    ensures |SetOf(s)| == |s|
    decreases |s|
  {
    if |s| > 0 {
      var p := s[..|s| - 1];
      assert Distinct(p);
      DistinctFullSet(p);
      SetOfMembers(p);
      assert s[|s| - 1] !in p;
    }
  }

  /** With a repeat, the set is smaller than the sequence. */
  lemma {:induction false} RepeatSmallSet(s: seq<char>, i: nat, j: nat)
    requires i < j < |s| && s[i] == s[j]
    ensures |SetOf(s)| < |s|
    decreases |s|
  {
    var p := s[..|s| - 1];
    SetOfSize(p);
    if j < |s| - 1 {
      RepeatSmallSet(p, i, j);
    } else {
      assert p[i] == s[|s| - 1];
      SetOfMembers(p);
      assert SetOf(s) == SetOf(p);
    }
  }

  /** A window has as many distinct characters as its length exactly when no
      character repeats in it. */
  lemma DistinctIffFullSet(s: seq<char>)
    ensures |SetOf(s)| == |s| <==> Distinct(s)
  {
    if Distinct(s) {
      DistinctFullSet(s);
    } else {
      var i, j :| 0 <= i < j < |s| && s[i] == s[j];
      RepeatSmallSet(s, i, j);
    }
  }

  /** Whether the `n` characters before position `m` all differ. */
  predicate DistinctBefore(data: seq<char>, n: nat, m: nat)
    requires n <= m <= |data|
  {
    Distinct(data[m - n..m])
  }

  /** The marker as a search: the first `k` from `start` on whose window
      `data[k - n..k]` has no repeat, checking only `k < |data|`; `|data|`
      when none does. */
  function MarkerFrom(data: seq<char>, n: nat, k: nat): (r: nat)
    requires n <= k <= |data|
    ensures k <= r <= |data|
    ensures forall m :: k <= m < r ==> !DistinctBefore(data, n, m)
    ensures r < |data| ==> DistinctBefore(data, n, r)
    decreases |data| - k
  {
    if k >= |data| then |data|
    else if DistinctBefore(data, n, k) then k
    else MarkerFrom(data, n, k + 1)
  }

  /** The answer `index_of_unique_chain` computes, stated as a search. With
      at most `n` characters no window is examined and the answer is `n`;
      otherwise it is the least position from `n` on whose preceding `n`
      characters differ, or `|data|` when no position before the end has
      one. The final window, ending at `|data|`, is never examined. */
  function Marker(data: seq<char>, n: nat): (r: nat)
    ensures |data| <= n ==> r == n
    ensures |data| > n ==> n <= r <= |data|
    ensures |data| > n ==> forall m :: n <= m < r ==> !DistinctBefore(data, n, m)
    ensures |data| > n && r < |data| ==> DistinctBefore(data, n, r)
  {
    if |data| <= n then n else MarkerFrom(data, n, n)
  }

  /** Sliding the window one step: the leaving character is dropped unless
      it recurs in the new window, and the entering one is added. */
  lemma SlideWindow(data: seq<char>, j: nat, n: nat)
    requires 0 < n && j + n < |data|
    ensures SetOf(data[j + 1..j + 1 + n])
         == (if data[j] !in data[j + 1..j + n + 1] then SetOf(data[j..j + n]) - {data[j]}
             else SetOf(data[j..j + n])) + {data[j + n]}
  {
    assert data[j..j + n] == [data[j]] + data[j + 1..j + n];
    assert data[j + 1..j + n + 1] == data[j + 1..j + n] + [data[j + n]];
    SetOfMembers(data[j..j + n]);
    SetOfMembers(data[j + 1..j + n]);
    SetOfMembers(data[j + 1..j + n + 1]);
  }

  /** No position from `n` up to `i` ends a window free of repeats. */
  predicate NoMarkerBefore(data: seq<char>, n: nat, i: nat)
  {
    forall m :: n <= m < i && m <= |data| ==> !DistinctBefore(data, n, m)
  }

  lemma NoMarkerExtend(data: seq<char>, n: nat, i: nat)
    requires n <= i < |data| && NoMarkerBefore(data, n, i) && !DistinctBefore(data, n, i)
    ensures NoMarkerBefore(data, n, i + 1)
  {
  }

  /** The loop's update of the character set, written on the window
      `data[j..j + n + 1]` as the source reads it. */
  lemma SlideKeepsSet(data: seq<char>, j: nat, n: nat, uniq: set<char>)
    requires 0 < n && j + n < |data| && uniq == SetOf(data[j..j + n])
    ensures var w := data[j..j + n + 1];
      (if w[0] !in w[1..] then uniq - {w[0]} else uniq) + {w[n]} == SetOf(data[j + 1..j + 1 + n])
  {
    var w := data[j..j + n + 1];
    assert w[0] == data[j] && w[n] == data[j + n] && w[1..] == data[j + 1..j + n + 1];
    SlideWindow(data, j, n);
  }

  /** The window ending at `n + j` is free of repeats exactly when its
      character set has `n` elements. */
  lemma WindowDistinct(data: seq<char>, n: nat, j: nat, uniq: set<char>)
    requires j + n <= |data|
    requires uniq == SetOf(data[j..j + n])
    ensures |uniq| == n <==> DistinctBefore(data, n, n + j)
  {
    assert data[n + j - n..n + j] == data[j..j + n];
    DistinctIffFullSet(data[j..j + n]);
  }

  /** `index_of_unique_chain`: a set of the characters in the current window
      is kept up to date as the window slides one character at a time. */
  method IndexOfUniqueChain(data: seq<char>, n: nat) returns (i: nat)
    ensures i == Marker(data, n)
  {
    var uniq := SetOf(data[..Min(n, |data|)]);
    if n <= |data| {
      assert data[..Min(n, |data|)] == data[0..0 + n];
    }
    i := n;
    var j := 0;
    while j + n < |data|
      invariant j + n <= |data| || j == 0
      invariant i == n + j
      invariant j + n <= |data| ==> uniq == SetOf(data[j..j + n])
      invariant |data| > n ==> NoMarkerBefore(data, n, i)
      decreases |data| - j
    {
      WindowDistinct(data, n, j, uniq);
      if |uniq| == n {
        break;
      }
      NoMarkerExtend(data, n, i);
      var w := data[j..j + n + 1];
      SlideKeepsSet(data, j, n, uniq);
      if w[0] !in w[1..] {
        uniq := uniq - {w[0]};
      }
      uniq := uniq + {w[n]};
      i := i + 1;
      j := j + 1;
    }
    if j + n < |data| {
      WindowDistinct(data, n, j, uniq);
    }
    MarkerIsFirst(data, n, i);
  }

  /** The search answer is determined by its characterisation. */
  lemma MarkerIsFirst(data: seq<char>, n: nat, i: nat)
    requires |data| <= n ==> i == n
    requires |data| > n ==> n <= i <= |data|
    requires |data| > n ==> NoMarkerBefore(data, n, i)
    requires |data| > n && i < |data| ==> DistinctBefore(data, n, i)
    ensures i == Marker(data, n)
  {
  }

  /** `solve_part1`: the start-of-packet marker, four distinct characters. */
  function Part1(data: seq<char>): (r: nat)
    ensures |data| <= 4 ==> r == 4
    ensures |data| > 4 ==> 4 <= r <= |data| && forall m :: 4 <= m < r ==> !DistinctBefore(data, 4, m)
    ensures |data| > 4 && r < |data| ==> DistinctBefore(data, 4, r)
  {
    Marker(data, 4)
  }

  /** `solve_part2`: the start-of-message marker, fourteen distinct
      characters. */
  function Part2(data: seq<char>): (r: nat)
    ensures |data| <= 14 ==> r == 14
    ensures |data| > 14 ==> 14 <= r <= |data| && forall m :: 14 <= m < r ==> !DistinctBefore(data, 14, m)
    ensures |data| > 14 && r < |data| ==> DistinctBefore(data, 14, r)
  {
    Marker(data, 14)
  }

  const Sample: seq<char> := "mjqjpqmgbljsphdztnvjfqwrcgsmlb"

  lemma SampleRepeatsBefore7()
    ensures !DistinctBefore(Sample, 4, 4)
    ensures !DistinctBefore(Sample, 4, 5)
    ensures !DistinctBefore(Sample, 4, 6)
  {
    var d := Sample;
    assert d[1] == 'j' == d[3] && d[2] == 'q' == d[5];
    assert d[0..4][1] == d[1] && d[0..4][3] == d[3];
    assert d[1..5][0] == d[1] && d[1..5][2] == d[3];
    assert d[2..6][0] == d[2] && d[2..6][3] == d[5];
  }

  lemma SampleDistinctBefore7()
    ensures DistinctBefore(Sample, 4, 7)
  {
    var d := Sample;
    assert d[3] == 'j' && d[4] == 'p' && d[5] == 'q' && d[6] == 'm';
    assert d[3..7] == ['j', 'p', 'q', 'm'];
  }

  /** The first sample stream has its packet marker after 7 characters. */
  lemma SamplePart1()
    ensures Part1(Sample) == 7
  {
    SampleRepeatsBefore7();
    SampleDistinctBefore7();
    assert MarkerFrom(Sample, 4, 7) == 7;
    assert MarkerFrom(Sample, 4, 6) == 7;
    assert MarkerFrom(Sample, 4, 5) == 7;
    assert MarkerFrom(Sample, 4, 4) == 7;
  }
}
