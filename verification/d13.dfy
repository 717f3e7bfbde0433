/** Distress-signal packets: nested lists of numbers, and the recursive
    "right order" comparison between two packets. */
module Packets {
  import opened Common

  datatype Item = Num(n: nat) | List(items: seq<Item>)

  datatype Ordering = Less | Equal | Greater

  function Size(x: Item): nat
  {
    match x
    case Num(_) => 1
    case List(xs) => 1 + SizeSeq(xs)
  }

  function SizeSeq(xs: seq<Item>): nat
  {
    if |xs| == 0 then 0 else Size(xs[0]) + SizeSeq(xs[1..])
  }

  lemma SizeSeqSingleton(x: Item)
    ensures SizeSeq([x]) == Size(x)
  {
    assert [x][1..] == [];
  }

  lemma SizeSeqHead(xs: seq<Item>)
    requires |xs| > 0
    ensures Size(xs[0]) <= SizeSeq(xs) && SizeSeq(xs[1..]) < SizeSeq(xs)
  {
  }

  function Flip(o: Option<bool>): Option<bool>
  {
    match o
    case None => None
    case Some(b) => Some(!b)
  }

  /** `items_ordered`: Some(true) if left comes first, Some(false) if right
      does, None if the comparison does not decide. A number met by a list
      is compared as the list holding just that number. */
  function Ordered(left: Item, right: Item): Option<bool>
    decreases Size(left) + Size(right), 1
  {
    match (left, right)
    case (Num(l), Num(r)) => if l == r then None else Some(l < r)
    case (List(ls), List(rs)) => OrderedLists(ls, rs)
    case (Num(_), List(rs)) => SizeSeqSingleton(left); OrderedLists([left], rs)
    case (List(ls), Num(_)) => SizeSeqSingleton(right); OrderedLists(ls, [right])
  }

  /** The loop over the common positions of two lists: the first decided
      position wins; if all tie, the shorter list comes first. */
  function OrderedLists(ls: seq<Item>, rs: seq<Item>): Option<bool>
    decreases SizeSeq(ls) + SizeSeq(rs) + 1, 0
  {
    if |ls| == 0 && |rs| == 0 then None
    else if |ls| == 0 then Some(true)
    else if |rs| == 0 then Some(false)
    else
      SizeSeqHead(ls);
      SizeSeqHead(rs);
      var c := Ordered(ls[0], rs[0]);
      if c.Some? then c else OrderedLists(ls[1..], rs[1..])
  }

  /** Two numbers: equal ones leave the order undecided, otherwise the smaller
      comes first. */
  lemma NumbersCompareByValue(l: nat, r: nat)
    ensures Ordered(Num(l), Num(r)) == None <==> l == r
    ensures Ordered(Num(l), Num(r)) == Some(true) <==> l < r
  {
  }

  /** A number compared with any list behaves as the one-element list
      holding it, on either side. */
  lemma NumberAsSingleton(n: nat, rs: seq<Item>)
    ensures Ordered(Num(n), List(rs)) == Ordered(List([Num(n)]), List(rs))
    ensures Ordered(List(rs), Num(n)) == Ordered(List(rs), List([Num(n)]))
  {
  }

  /** If every common position ties, the shorter list comes first and equal
      lengths are undecided. */
  lemma {:induction false} TiedPrefix(ls: seq<Item>, rs: seq<Item>)
    requires forall i :: 0 <= i < |ls| && i < |rs| ==> Ordered(ls[i], rs[i]) == None
    ensures |ls| < |rs| ==> OrderedLists(ls, rs) == Some(true)
    ensures |ls| > |rs| ==> OrderedLists(ls, rs) == Some(false)
    ensures |ls| == |rs| ==> OrderedLists(ls, rs) == None
    decreases |ls|
  {
    if |ls| > 0 && |rs| > 0 {
      assert Ordered(ls[0], rs[0]) == None;
      TiedPrefix(ls[1..], rs[1..]);
    }
  }

  /** Comparing an item with itself never decides. */
  lemma {:induction false} OrderedIrreflexive(x: Item)
    ensures Ordered(x, x) == None
    decreases Size(x), 1
  {
    match x
    case Num(_) =>
    case List(xs) => OrderedListsIrreflexive(xs);
  }

  lemma {:induction false} OrderedListsIrreflexive(xs: seq<Item>)
    ensures OrderedLists(xs, xs) == None
    decreases SizeSeq(xs) + 1, 0
  {
    if |xs| > 0 {
      SizeSeqHead(xs);
      OrderedIrreflexive(xs[0]);
      OrderedListsIrreflexive(xs[1..]);
    }
  }

  /** Swapping the operands flips a decided answer and keeps an undecided one. */
  lemma {:induction false} OrderedAntisymmetric(a: Item, b: Item)
    ensures Ordered(b, a) == Flip(Ordered(a, b))
    decreases Size(a) + Size(b), 1
  {
    match (a, b)
    case (Num(_), Num(_)) =>
    case (List(as_), List(bs)) => OrderedListsAntisymmetric(as_, bs);
    case (Num(_), List(bs)) => SizeSeqSingleton(a); OrderedListsAntisymmetric([a], bs);
    case (List(as_), Num(_)) => SizeSeqSingleton(b); OrderedListsAntisymmetric(as_, [b]);
  }

  lemma {:induction false} OrderedListsAntisymmetric(as_: seq<Item>, bs: seq<Item>)
    ensures OrderedLists(bs, as_) == Flip(OrderedLists(as_, bs))
    decreases SizeSeq(as_) + SizeSeq(bs) + 1, 0
  {
    if |as_| > 0 && |bs| > 0 {
      SizeSeqHead(as_);
      SizeSeqHead(bs);
      OrderedAntisymmetric(as_[0], bs[0]);
      OrderedListsAntisymmetric(as_[1..], bs[1..]);
    }
  }

  /** `Ord::cmp` of the source: numbers by value, lists lexicographically
      (the first unequal position decides, then the length), and a number
      met by a list as the one-element slice. */
  function Compare(a: Item, b: Item): Ordering
    decreases Size(a) + Size(b), 1
  {
    match (a, b)
    case (Num(x), Num(y)) => if x < y then Less else if x == y then Equal else Greater
    case (List(as_), List(bs)) => CompareLists(as_, bs)
    case (List(as_), Num(_)) => SizeSeqSingleton(b); CompareLists(as_, [b])
    case (Num(_), List(bs)) => SizeSeqSingleton(a); CompareLists([a], bs)
  }

  /** Slice comparison: element by element, then by length. */
  function CompareLists(as_: seq<Item>, bs: seq<Item>): Ordering
    decreases SizeSeq(as_) + SizeSeq(bs) + 1, 0
  {
    if |as_| == 0 && |bs| == 0 then Equal
    else if |as_| == 0 then Less
    else if |bs| == 0 then Greater
    else
      SizeSeqHead(as_);
      SizeSeqHead(bs);
      var c := Compare(as_[0], bs[0]);
      if c != Equal then c else CompareLists(as_[1..], bs[1..])
  }

  function ToOrdering(o: Option<bool>): Ordering
  {
    match o
    case Some(true) => Less
    case Some(false) => Greater
    case None => Equal
  }

  /** `Ord::cmp` agrees with `items_ordered`: Less exactly when Some(true),
      Greater exactly when Some(false), Equal exactly when None. */
  lemma {:induction false} CompareAgrees(a: Item, b: Item)
    ensures Compare(a, b) == ToOrdering(Ordered(a, b))
    decreases Size(a) + Size(b), 1
  {
    match (a, b)
    case (Num(_), Num(_)) =>
    case (List(as_), List(bs)) => CompareListsAgrees(as_, bs);
    case (Num(_), List(bs)) => SizeSeqSingleton(a); CompareListsAgrees([a], bs);
    case (List(as_), Num(_)) => SizeSeqSingleton(b); CompareListsAgrees(as_, [b]);
  }

  lemma {:induction false} CompareListsAgrees(as_: seq<Item>, bs: seq<Item>)
    ensures CompareLists(as_, bs) == ToOrdering(OrderedLists(as_, bs))
    decreases SizeSeq(as_) + SizeSeq(bs) + 1, 0
  {
    if |as_| > 0 && |bs| > 0 {
      SizeSeqHead(as_);
      SizeSeqHead(bs);
      CompareAgrees(as_[0], bs[0]);
      CompareListsAgrees(as_[1..], bs[1..]);
    }
  }

  /** `partial_cmp` built on `items_ordered`. */
  function PartialCompare(a: Item, b: Item): (r: Option<Ordering>)
    ensures r.Some? <==> Ordered(a, b).Some?
    ensures r.Some? ==> r.value == Compare(a, b)
  {
    CompareAgrees(a, b);
    match Ordered(a, b)
    case Some(true) => Some(Less)
    case Some(false) => Some(Greater)
    case None => None
  }

  /** The loop of `solve_part1`: the running sum of the 1-based indices of
      the pairs that are in the right order. */
  function IndexSum(pairs: seq<(Item, Item)>): nat
  {
    if |pairs| == 0 then 0
    else
      var last := pairs[|pairs| - 1];
      IndexSum(pairs[..|pairs| - 1]) + (if Ordered(last.0, last.1) == Some(true) then |pairs| else 0)
  }

  /** `solve_part1`: the sum of the set of 1-based positions whose pair is in
      the right order; at most 1 + 2 + ... + n, and 0 when none is. */
  function Part1(pairs: seq<(Item, Item)>): (r: nat)
    ensures r == SetSum(OrderedPositions(pairs))
    ensures r <= |pairs| * (|pairs| + 1) / 2
    ensures (forall k :: 0 <= k < |pairs| ==> Ordered(pairs[k].0, pairs[k].1) != Some(true)) ==> r == 0
  {
    IndexSumIsPositionSum(pairs);
    IndexSumBounds(pairs);
    IndexSum(pairs)
  }

  /** The sum is at most 1 + 2 + ... + n, and 0 when no pair is ordered. */
  lemma {:induction false} IndexSumBounds(pairs: seq<(Item, Item)>)
    ensures IndexSum(pairs) <= |pairs| * (|pairs| + 1) / 2
    ensures (forall k :: 0 <= k < |pairs| ==> Ordered(pairs[k].0, pairs[k].1) != Some(true)) ==> IndexSum(pairs) == 0
    decreases |pairs|
  {
    if |pairs| > 0 {
      var n := |pairs|;
      var init := pairs[..n - 1];
      IndexSumBounds(init);
      assert (n - 1) * n / 2 + n == n * (n + 1) / 2 by {
        assert (n - 1) * n + 2 * n == n * (n + 1);
      }
      assert forall k :: 0 <= k < n - 1 ==> init[k] == pairs[k];
    }
  }

  /** The pair at 1-based position `k` is in the right order. */
  predicate InOrderAt(pairs: seq<(Item, Item)>, k: nat)
  {
    1 <= k <= |pairs| && Ordered(pairs[k - 1].0, pairs[k - 1].1) == Some(true)
  }

  /** The 1-based positions of the pairs in the right order. */
  ghost function OrderedPositions(pairs: seq<(Item, Item)>): set<nat>
  {
    set k: nat | k <= |pairs| && InOrderAt(pairs, k)
  }

  /** The sum of a finite set of numbers. */
  ghost function SetSum(s: set<nat>): nat
    decreases |s|
  {
    if s == {} then 0 else var x :| x in s; x + SetSum(s - {x})
  }

  /** Any element can be taken out of the sum first. */
  lemma {:induction false} SetSumRemove(s: set<nat>, y: nat)
    requires y in s
    ensures SetSum(s) == y + SetSum(s - {y})
    decreases |s|
  {
    var x :| x in s && SetSum(s) == x + SetSum(s - {x});
    if x != y {
      SetSumRemove(s - {x}, y);
      SetSumRemove(s - {y}, x);
      assert s - {x} - {y} == s - {y} - {x};
    }
  }

  /** The loop's sum is the sum of the 1-based positions of the ordered
      pairs. */
  lemma {:induction false} IndexSumIsPositionSum(pairs: seq<(Item, Item)>)
    ensures IndexSum(pairs) == SetSum(OrderedPositions(pairs))
    decreases |pairs|
  {
    if |pairs| > 0 {
      var n := |pairs|;
      var init := pairs[..n - 1];
      IndexSumIsPositionSum(init);
      var last := pairs[n - 1];
      assert forall k: nat :: k < n ==> (InOrderAt(init, k) <==> InOrderAt(pairs, k));
      if Ordered(last.0, last.1) == Some(true) {
        assert OrderedPositions(pairs) - {n} == OrderedPositions(init);
        SetSumRemove(OrderedPositions(pairs), n);
      } else {
        assert OrderedPositions(pairs) == OrderedPositions(init);
      }
    }
  }

  /** Number of items that sort strictly before `x`. */
  function CountBefore(items: seq<Item>, x: Item): (r: nat)
    ensures r <= |items|
  {
    if |items| == 0 then 0
    else (if Compare(items[0], x) == Less then 1 else 0) + CountBefore(items[1..], x)
  }

  /** An item never sorts before itself, so it is not counted among the items
      before it. */
  lemma {:induction false} CountBeforeMember(items: seq<Item>, x: Item)
    requires x in items
    ensures CountBefore(items, x) < |items|
    decreases |items|
  {
    if items[0] == x {
      OrderedIrreflexive(x);
      CompareAgrees(x, x);
    } else {
      CountBeforeMember(items[1..], x);
    }
  }

  function Flatten(pairs: seq<(Item, Item)>): (r: seq<Item>)
    ensures |r| == 2 * |pairs|
  {
    if |pairs| == 0 then [] else Flatten(pairs[..|pairs| - 1]) + [pairs[|pairs| - 1].0, pairs[|pairs| - 1].1]
  }

  function Divider(n: nat): Item
  {
    List([List([Num(n)])])
  }

  /** The packets of part 2: the two dividers followed by every packet. */
  function AllPackets(pairs: seq<(Item, Item)>): (r: seq<Item>)
    ensures |r| == 2 * |pairs| + 2
  {
    [Divider(2), Divider(6)] + Flatten(pairs)
  }

  /** The 1-based position of `x` after a stable sort: one more than the
      number of packets sorting strictly before it. */
  function SortedPosition(items: seq<Item>, x: Item): (r: nat)
    requires x in items
    ensures 1 <= r <= |items|
  {
    CountBeforeMember(items, x);
    CountBefore(items, x) + 1
  }

  /** `solve_part2`: the product of the sorted positions of [[2]] and [[6]];
      [[2]] sorts before [[6]], so [[6]] is at position 2 or later. */
  function Part2(pairs: seq<(Item, Item)>): (r: (nat, nat))
    ensures 1 <= r.0 <= 2 * |pairs| + 2
    ensures 2 <= r.1 <= 2 * |pairs| + 2
  {
    var items := AllPackets(pairs);
    assert Compare(Divider(2), Divider(6)) == Less;
    (SortedPosition(items, Divider(2)), SortedPosition(items, Divider(6)))
  }

  /** The answer: the product of the two positions, each one more than the
      number of packets sorting strictly before its divider. */
  function Part2Answer(pairs: seq<(Item, Item)>): (r: nat)
    ensures r == (|Before(AllPackets(pairs), Divider(2))| + 1) * (|Before(AllPackets(pairs), Divider(6))| + 1)
    ensures 2 <= r
  {
    var (p2, p6) := Part2(pairs);
    CountBeforeIsSize(AllPackets(pairs), Divider(2));
    CountBeforeIsSize(AllPackets(pairs), Divider(6));
    p2 * p6
  }

  /** The indices of the packets that sort strictly before `x`. */
  ghost function Before(items: seq<Item>, x: Item): set<nat>
  {
    set k: nat | k < |items| && Compare(items[k], x) == Less
  }

  /** `CountBefore` counts exactly the indices of `Before`. */
  lemma {:induction false} CountBeforeIsSize(items: seq<Item>, x: Item)
    ensures CountBefore(items, x) == |Before(items, x)|
    decreases |items|
  {
    if |items| > 0 {
      var n := |items|;
      var init := items[..n - 1];
      CountBeforeIsSize(init, x);
      CountBeforeLast(items, x);
      assert forall k: nat :: k < n - 1 ==> init[k] == items[k];
      if Compare(items[n - 1], x) == Less {
        assert Before(items, x) == Before(init, x) + {n - 1};
      } else {
        assert Before(items, x) == Before(init, x);
      }
    }
  }

  /** `CountBefore` taken from the back. */
  lemma {:induction false} CountBeforeLast(items: seq<Item>, x: Item)
    requires |items| > 0
    ensures CountBefore(items, x) == CountBefore(items[..|items| - 1], x) + (if Compare(items[|items| - 1], x) == Less then 1 else 0)
    decreases |items|
  {
    if |items| > 1 {
      CountBeforeLast(items[1..], x);
      assert items[1..][..|items| - 2] == items[..|items| - 1][1..];
    }
  }

  /** The divider [[2]] sorts before [[6]], so it is counted among the
      items before [[6]]. */
  lemma DividersOrdered()
    ensures Compare(Divider(2), Divider(6)) == Less
    ensures Compare(Divider(6), Divider(2)) == Greater
    ensures Compare(Divider(2), Divider(2)) == Equal
  {
  }

  /** The eight sample pairs of the puzzle. */
  function SamplePairList(): seq<(Item, Item)>
  {
    [ (List([Num(1), Num(1), Num(3), Num(1), Num(1)]), List([Num(1), Num(1), Num(5), Num(1), Num(1)])),
      (List([List([Num(1)]), List([Num(2), Num(3), Num(4)])]), List([List([Num(1)]), Num(4)])),
      (List([Num(9)]), List([List([Num(8), Num(7), Num(6)])])),
      (List([List([Num(4), Num(4)]), Num(4), Num(4)]), List([List([Num(4), Num(4)]), Num(4), Num(4), Num(4)])),
      (List([Num(7), Num(7), Num(7), Num(7)]), List([Num(7), Num(7), Num(7)])),
      (List([]), List([Num(3)])),
      (List([List([List([])])]), List([List([])])),
      (List([Num(1), List([Num(2), List([Num(3), List([Num(4), List([Num(5), Num(6), Num(7)])])])]), Num(8), Num(9)]),
       List([Num(1), List([Num(2), List([Num(3), List([Num(4), List([Num(5), Num(6), Num(0)])])])]), Num(8), Num(9)])) ]
  }

  /** The sample answers: pairs 1, 2, 4 and 6 are in the right order and
      pairs 3, 5, 7 and 8 are not. */
  lemma SamplePairs()
    ensures |SamplePairList()| == 8
    ensures forall k :: 0 <= k < 8 ==>
      (Ordered(SamplePairList()[k].0, SamplePairList()[k].1) == Some(true) <==> k in {0, 1, 3, 5})
    ensures forall k :: 0 <= k < 8 ==> Ordered(SamplePairList()[k].0, SamplePairList()[k].1).Some?
  {
    var p := SamplePairList();
    assert Ordered(p[0].0, p[0].1) == Some(true);
    assert Ordered(p[1].0, p[1].1) == Some(true);
    assert Ordered(p[2].0, p[2].1) == Some(false);
    assert Ordered(p[3].0, p[3].1) == Some(true);
    assert Ordered(p[4].0, p[4].1) == Some(false);
    assert Ordered(p[5].0, p[5].1) == Some(true);
    assert Ordered(p[6].0, p[6].1) == Some(false);
    SampleDeepPair();
  }

  /** Equal leading numbers defer to the next position. */
  lemma HeadTieDefers(n: nat, x: Item, y: Item)
    requires Ordered(x, y).Some?
    ensures Ordered(List([Num(n), x]), List([Num(n), y])) == Ordered(x, y)
  {
    assert [Num(n), x][1..] == [x] && [Num(n), y][1..] == [y];
    assert Ordered(Num(n), Num(n)) == None;
    assert OrderedLists([x], [y]) == Ordered(x, y);
  }

  /** The eighth pair differs only in its innermost list: 7 against 0. */
  lemma SampleDeepPair()
    ensures Ordered(SamplePairList()[7].0, SamplePairList()[7].1) == Some(false)
  {
    var l5 := List([Num(5), Num(6), Num(7)]);
    var r5 := List([Num(5), Num(6), Num(0)]);
    assert Ordered(l5, r5) == Some(false);
    var l4 := List([Num(4), l5]);
    var r4 := List([Num(4), r5]);
    HeadTieDefers(4, l5, r5);
    var l3 := List([Num(3), l4]);
    var r3 := List([Num(3), r4]);
    HeadTieDefers(3, l4, r4);
    var l2 := List([Num(2), l3]);
    var r2 := List([Num(2), r3]);
    HeadTieDefers(2, l3, r3);
    assert OrderedLists([Num(1), l2, Num(8), Num(9)], [Num(1), r2, Num(8), Num(9)]) == Some(false);
  }

  /** ... so the sample's first answer is 1 + 2 + 4 + 6 = 13. */
  lemma SampleAnswer()
    ensures Part1(SamplePairList()) == 13
  {
    SamplePairs();
    var p := SamplePairList();
    assert IndexSum(p[..0]) == 0;
    assert IndexSum(p[..1]) == 1 by { assert p[..1][..0] == p[..0]; }
    assert IndexSum(p[..2]) == 3 by { assert p[..2][..1] == p[..1]; }
    assert IndexSum(p[..3]) == 3 by { assert p[..3][..2] == p[..2]; }
    assert IndexSum(p[..4]) == 7 by { assert p[..4][..3] == p[..3]; }
    assert IndexSum(p[..5]) == 7 by { assert p[..5][..4] == p[..4]; }
    assert IndexSum(p[..6]) == 13 by { assert p[..6][..5] == p[..5]; }
    assert IndexSum(p[..7]) == 13 by { assert p[..7][..6] == p[..6]; }
    assert IndexSum(p) == 13 by { assert p[..7] == p[..|p| - 1]; }
  }
}
