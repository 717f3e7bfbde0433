/** Calorie counting: the elves' snack lists are separated by blank lines;
    the answers are the largest group total and the sum of the three largest. */
module Calories {
  import opened Common
  import opened Text

  /** Parse every line of a group as a number; None if one is not a number. */
  function ParseGroup(lines: seq<string>): (r: Option<seq<nat>>)
    ensures r.Some? ==> |r.value| == |lines|
    ensures r.Some? ==> forall k :: 0 <= k < |lines| ==> ParseNat(lines[k]) == Some(r.value[k])
    ensures r.None? ==> exists k :: 0 <= k < |lines| && ParseNat(lines[k]).None?
  {
    ParseNats(lines)
  }

  function ParseGroups(groups: seq<string>): (r: Option<seq<seq<nat>>>)
    ensures r.Some? ==> |r.value| == |groups|
    ensures r.Some? ==> forall k :: 0 <= k < |groups| ==> ParseGroup(Lines(groups[k])) == Some(r.value[k])
    ensures r.None? <==> exists k :: 0 <= k < |groups| && ParseGroup(Lines(groups[k])).None?
  {
    if |groups| == 0 then Some([])
    else
      match (ParseGroup(Lines(groups[0])), ParseGroups(groups[1..]))
      case (Some(g), Some(rest)) => Some([g] + rest)
      case (None, _) => None
      case (_, None) => None
  }

  /** `parse_input`: the text between blank lines is one group, one number per
      line; any line that is not a number makes the source panic (None). */
  function ParseInput(data: string): (r: Option<seq<seq<nat>>>)
    ensures r.Some? ==> |r.value| == |SplitOn(data, "\n\n")|
  {
    ParseGroups(SplitOn(data, "\n\n"))
  }

  function GroupSums(groups: seq<seq<nat>>): (r: seq<int>)
    ensures |r| == |groups|
    ensures forall k :: 0 <= k < |r| ==> r[k] == Sum(groups[k])
    ensures forall k :: 0 <= k < |r| ==> r[k] >= 0
  {
    if |groups| == 0 then []
    else
      SumNonNegative(groups[0]);
      [Sum(groups[0])] + GroupSums(groups[1..])
  }

  /** The largest element; the source unwraps the maximum, so at least one
      group is needed. */
  function MaxOf(s: seq<int>): (r: int)
    requires |s| > 0
    ensures r in s
    ensures forall k :: 0 <= k < |s| ==> s[k] <= r
  {
    if |s| == 1 then s[0] else Max(s[0], MaxOf(s[1..]))
  }

  /** `solve_part1`: the largest group total. */
  function Part1(groups: seq<seq<nat>>): (r: int)
    requires |groups| > 0
    ensures exists k :: 0 <= k < |groups| && r == Sum(groups[k])
    ensures forall k :: 0 <= k < |groups| ==> Sum(groups[k]) <= r
  {
    var sums := GroupSums(groups);
    var m := MaxOf(sums);
    var k :| 0 <= k < |sums| && sums[k] == m;
    m
  }

  /** The part 2 selection: sort the totals ascending and take the last three
      (all of them when there are fewer). */
  function TopThree(sums: seq<int>): (r: (seq<int>, seq<int>))
    ensures |r.0| == Min(3, |sums|)
    ensures multiset(r.0) + multiset(r.1) == multiset(sums)
    ensures forall i, j :: 0 <= i < |r.1| && 0 <= j < |r.0| ==> r.1[i] <= r.0[j]
  {
    var v := Sort(sums);
    var k := Min(3, |v|);
    assert v == v[..|v| - k] + v[|v| - k..];
    (v[|v| - k..], v[..|v| - k])
  }

  /** `solve_part2`: the sum of the three largest totals; with three
      groups or fewer, the sum of all of them. */
  function Part2(groups: seq<seq<nat>>): (r: int)
    ensures r >= 0
    ensures |groups| <= 3 ==> r == Sum(GroupSums(groups))
  {
    var sums := GroupSums(groups);
    var top := TopThree(sums).0;
    forall i | 0 <= i < |top|
      ensures top[i] >= 0
    {
      assert top[i] in multiset(top);
      assert top[i] in multiset(sums);
    }
    SumNonNegative(top);
    if |groups| <= 3 then
      assert multiset(TopThree(sums).1) == multiset{} by {
        assert |TopThree(sums).1| == 0 by {
          assert |multiset(TopThree(sums).1)| == |sums| - |top|;
        }
      }
      SumPermutation(top, sums);
      Sum(top)
    else Sum(top)
  }

  /** The three largest totals include the largest, and totals are never
      negative, so part 2 is at least part 1. */
  lemma Part2AtLeastPart1(groups: seq<seq<nat>>)
    requires |groups| > 0
    ensures Part2(groups) >= Part1(groups)
  {
    var sums := GroupSums(groups);
    var v := Sort(sums);
    var k := Min(3, |v|);
    var top := v[|v| - k..];
    SortedLastIsMax(sums, v);
    forall i | 0 <= i < |top|
      ensures top[i] >= 0
    {
      assert top[i] in multiset(v);
      assert top[i] in multiset(sums);
    }
    SumAtLeastLast(top);
    assert top[|top| - 1] == v[|v| - 1];
  }
}
