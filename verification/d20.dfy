/** Grove positioning: mixing an encrypted list of numbers by moving each
    one, in its original order, as many places along the circle as its
    value says, then reading the numbers 1000, 2000 and 3000 places after
    the zero. */
module GrovePositioning {
  import opened Common

  /** A number and the position it had in the input (`Value`). */
  datatype Entry = Entry(start: nat, value: int)

  const DecryptionKey: int := 811_589_153

  /** `numbers_to_values`. */
  function Tag(data: seq<int>): (r: seq<Entry>)
    ensures |r| == |data|
    ensures forall k :: 0 <= k < |r| ==> r[k] == Entry(k, data[k])
  {
    seq(|data|, k requires 0 <= k < |data| => Entry(k, data[k]))
  }

  /** `Vec::remove`. */
  function RemoveAt(s: seq<Entry>, k: nat): (r: seq<Entry>)
    requires k < |s|
  {
    s[..k] + s[k + 1..]
  }

  /** `Vec::insert`. */
  function InsertAt(s: seq<Entry>, k: nat, x: Entry): (r: seq<Entry>)
    requires k <= |s|
  {
    s[..k] + [x] + s[k..]
  }

  lemma RemoveCount(s: seq<Entry>, k: nat)
    requires k < |s|
    ensures |RemoveAt(s, k)| == |s| - 1
    ensures multiset(RemoveAt(s, k)) + multiset{s[k]} == multiset(s)
  {
    assert s == s[..k] + [s[k]] + s[k + 1..];
  }

  lemma InsertCount(s: seq<Entry>, k: nat, x: Entry)
    requires k <= |s|
    ensures |InsertAt(s, k, x)| == |s| + 1
    ensures multiset(InsertAt(s, k, x)) == multiset(s) + multiset{x}
  {
    assert s == s[..k] + s[k..];
  }

  /** Taking out what was just put in gives back the sequence. */
  lemma RemoveInserted(s: seq<Entry>, k: nat, x: Entry)
    requires k <= |s|
    ensures InsertAt(s, k, x)[k] == x
    ensures RemoveAt(InsertAt(s, k, x), k) == s
  {
    var t := InsertAt(s, k, x);
    assert t[..k] == s[..k];
    assert t[k + 1..] == s[k..];
    assert s == s[..k] + s[k..];
  }

  // ----- finding an entry -----

  /** The `find` over `enumerate`: the first position holding the entry
      that started at `i`. */
  function Locate(buf: seq<Entry>, i: nat): (r: Option<nat>)
    ensures r.Some? ==> r.value < |buf| && buf[r.value].start == i
    ensures r.Some? ==> forall k :: 0 <= k < r.value ==> buf[k].start != i
    ensures r.None? ==> forall k :: 0 <= k < |buf| ==> buf[k].start != i
  {
    LocateFrom(buf, i, 0)
  }

  function LocateFrom(buf: seq<Entry>, i: nat, from: nat): (r: Option<nat>)
    requires from <= |buf|
    requires forall k :: 0 <= k < from ==> buf[k].start != i
    ensures r.Some? ==> r.value < |buf| && buf[r.value].start == i
    ensures r.Some? ==> forall k :: 0 <= k < r.value ==> buf[k].start != i
    ensures r.None? ==> forall k :: 0 <= k < |buf| ==> buf[k].start != i
    decreases |buf| - from
  {
    if from == |buf| then None
    else if buf[from].start == i then Some(from)
    else LocateFrom(buf, i, from + 1)
  }

  // ----- one move -----

  /** Where an entry at `c` with value `v` is put back:
      `(c + v).rem_euclid(len - 1)`, which is Dafny's `%`. */
  function Target(c: nat, v: int, len: nat): (n: nat)
    requires len >= 2
    ensures n < len - 1
  {
    (c + v) % (len - 1)
  }

  /** Moving the entry that started at `i`: take it out and put it back at
      its target among the others; `None` where the source's `unwrap`
      panics because no entry started at `i`. */
  function Move(buf: seq<Entry>, i: nat): (r: Option<seq<Entry>>)
    requires |buf| >= 2
    ensures r.Some? ==> |r.value| == |buf|
    ensures r.None? <==> forall k :: 0 <= k < |buf| ==> buf[k].start != i
  {
    match Locate(buf, i)
    case None => None
    case Some(c) =>
      RemoveCount(buf, c);
      Some(InsertAt(RemoveAt(buf, c), Target(c, buf[c].value, |buf|), buf[c]))
  }

  /** A move only rearranges the buffer. */
  lemma MovePermutes(buf: seq<Entry>, i: nat)
    requires |buf| >= 2 && Move(buf, i).Some?
    ensures multiset(Move(buf, i).value) == multiset(buf)
  {
    var c := Locate(buf, i).value;
    RemoveCount(buf, c);
    InsertCount(RemoveAt(buf, c), Target(c, buf[c].value, |buf|), buf[c]);
  }

  /** The moved entry lands on its target, and the others keep their
      order: without the moved entry, the buffer is what it was. */
  lemma MoveKeepsOthers(buf: seq<Entry>, i: nat, c: nat)
    requires |buf| >= 2 && Locate(buf, i) == Some(c)
    ensures var n := Target(c, buf[c].value, |buf|);
      Move(buf, i).value[n] == buf[c] && RemoveAt(Move(buf, i).value, n) == RemoveAt(buf, c)
  {
    RemoveCount(buf, c);
    RemoveInserted(RemoveAt(buf, c), Target(c, buf[c].value, |buf|), buf[c]);
  }

  /** Moves of the entries that started at `0 .. k - 1`, in that order. */
  function Steps(buf: seq<Entry>, k: nat): (r: Option<seq<Entry>>)
    requires |buf| >= 2
    ensures r.Some? ==> |r.value| == |buf|
  {
    if k == 0 then Some(buf)
    else
      match Steps(buf, k - 1)
      case None => None
      case Some(b) => Move(b, k - 1)
  }

  /** `rounds` full passes over the `n` starting positions; they keep the
      length, and `RoundsTagged` shows they only rearrange a tagged input. */
  function Rounds(buf: seq<Entry>, n: nat, rounds: nat): (r: Option<seq<Entry>>)
    requires |buf| >= 2
    ensures r.Some? ==> |r.value| == |buf|
  {
    if rounds == 0 then Some(buf)
    else
      match Rounds(buf, n, rounds - 1)
      case None => None
      case Some(b) => Steps(b, n)
  }

  // ----- every start index is there exactly once -----

  /** The buffer is a rearrangement of the tagged input. */
  predicate Tagged(buf: seq<Entry>, data: seq<int>)
  {
    multiset(buf) == multiset(Tag(data))
  }

  /** Every entry of a rearranged buffer is the input's number at its
      start index. */
  lemma TaggedEntry(buf: seq<Entry>, data: seq<int>, k: nat)
    requires Tagged(buf, data) && k < |buf|
    ensures buf[k].start < |data| && buf[k] == Entry(buf[k].start, data[buf[k].start])
  {
    assert buf[k] in multiset(buf);
    assert buf[k] in multiset(Tag(data));
    var j :| 0 <= j < |data| && Tag(data)[j] == buf[k];
  }

  lemma CountOne(s: seq<Entry>, i: nat)
    requires i < |s|
    requires forall k :: 0 <= k < |s| && k != i ==> s[k] != s[i]
    ensures multiset(s)[s[i]] == 1
  {
    assert s == s[..i] + [s[i]] + s[i + 1..];
    assert s[i] !in s[..i];
    assert s[i] !in s[i + 1..];
  }

  lemma CountTwo(s: seq<Entry>, j: nat, k: nat)
    requires j < k < |s| && s[j] == s[k]
    ensures multiset(s)[s[k]] >= 2
  {
    assert s == s[..k] + [s[k]] + s[k + 1..];
    assert s[..k][j] == s[k];
  }

  /** No two positions of a rearranged buffer hold the same start index. */
  lemma StartUnique(buf: seq<Entry>, data: seq<int>, j: nat, k: nat)
    requires Tagged(buf, data) && j < k < |buf|
    ensures buf[j].start != buf[k].start
  {
    if buf[j].start == buf[k].start {
      TaggedEntry(buf, data, j);
      TaggedEntry(buf, data, k);
      CountTwo(buf, j, k);
      var t := Tag(data);
      var i := buf[k].start;
      CountOne(t, i);
      assert false;
    }
  }

  /** Every start index of the input is found, holding its own number. */
  lemma TaggedLocate(buf: seq<Entry>, data: seq<int>, i: nat)
    requires Tagged(buf, data) && i < |data|
    ensures Locate(buf, i).Some? && buf[Locate(buf, i).value] == Entry(i, data[i])
  {
    var t := Tag(data);
    assert t[i] in multiset(t);
    assert t[i] in multiset(buf);
    var k :| 0 <= k < |buf| && buf[k] == t[i];
    assert buf[k].start == i;
    TaggedEntry(buf, data, Locate(buf, i).value);
  }

  /** A pass over the input's start indices never misses one, and keeps
      the buffer a rearrangement of the input. */
  lemma {:induction false} StepsTagged(buf: seq<Entry>, data: seq<int>, k: nat)
    requires |buf| >= 2 && Tagged(buf, data) && k <= |data|
    ensures Steps(buf, k).Some? && Tagged(Steps(buf, k).value, data)
  {
    if k > 0 {
      StepsTagged(buf, data, k - 1);
      MoveTagged(Steps(buf, k - 1).value, data, k - 1);
    }
  }

  /** Moving any start index of the input keeps a rearrangement one. */
  lemma MoveTagged(b: seq<Entry>, data: seq<int>, i: nat)
    requires |b| >= 2 && Tagged(b, data) && i < |data|
    ensures Move(b, i).Some? && Tagged(Move(b, i).value, data)
  {
    TaggedLocate(b, data, i);
    MovePermutes(b, i);
  }

  lemma {:induction false} RoundsTagged(buf: seq<Entry>, data: seq<int>, rounds: nat)
    requires |buf| >= 2 && Tagged(buf, data)
    ensures Rounds(buf, |data|, rounds).Some? && Tagged(Rounds(buf, |data|, rounds).value, data)
  {
    if rounds > 0 {
      RoundsTagged(buf, data, rounds - 1);
      StepsTagged(Rounds(buf, |data|, rounds - 1).value, data, |data|);
    }
  }

  /** The mixing loop of `solve_part1` as the source runs it, one move per
      start index. */
  method MixOnce(data: seq<int>) returns (buf: seq<Entry>)
    requires |data| >= 2
    ensures Steps(Tag(data), |data|) == Some(buf)
    ensures Tagged(buf, data)
  {
    buf := Tag(data);
    var i := 0;
    while i < |data|
      invariant 0 <= i <= |data|
      invariant Steps(Tag(data), i) == Some(buf)
    {
      StepsTagged(Tag(data), data, i);
      var next := MoveStart(buf, data, i);
      StepsNext(Tag(data), i, buf, next);
      buf := next;
      i := i + 1;
    }
    StepsTagged(Tag(data), data, |data|);
  }

  lemma StepsNext(buf0: seq<Entry>, k: nat, b: seq<Entry>, next: seq<Entry>)
    requires |buf0| >= 2 && Steps(buf0, k) == Some(b) && |b| >= 2 && Move(b, k) == Some(next)
    ensures Steps(buf0, k + 1) == Some(next)
  {
  }

  /** One iteration: find the entry that started at `i`, take it out and
      insert it at its target. */
  method MoveStart(buf: seq<Entry>, data: seq<int>, i: nat) returns (next: seq<Entry>)
    requires |buf| >= 2 && Tagged(buf, data) && i < |data|
    ensures Move(buf, i) == Some(next) && Tagged(next, data)
  {
    TaggedLocate(buf, data, i);
    var c := FindStart(buf, i);
    var n := Target(c, buf[c].value, |buf|);
    next := InsertAt(RemoveAt(buf, c), n, buf[c]);
    assert Move(buf, i) == Some(next);
    MovePermutes(buf, i);
  }

  /** The linear search for the entry that started at `i`. */
  method FindStart(buf: seq<Entry>, i: nat) returns (c: nat)
    requires exists k :: 0 <= k < |buf| && buf[k].start == i
    ensures Locate(buf, i) == Some(c)
  {
    c := 0;
    while buf[c].start != i
      invariant c < |buf|
      invariant forall k :: 0 <= k < c ==> buf[k].start != i
      invariant exists k :: c <= k < |buf| && buf[k].start == i
      decreases |buf| - c
    {
      c := c + 1;
    }
    LocateFirst(buf, i, c);
  }

  /** The first position holding start `i` is what `Locate` returns. */
  lemma LocateFirst(buf: seq<Entry>, i: nat, c: nat)
    requires c < |buf| && buf[c].start == i
    requires forall k :: 0 <= k < c ==> buf[k].start != i
    ensures Locate(buf, i) == Some(c)
  {
  }

  // ----- the grove coordinates -----

  /** The first position holding the number 0. */
  function ZeroFrom(buf: seq<Entry>, from: nat): (r: Option<nat>)
    requires from <= |buf|
    ensures r.Some? ==> from <= r.value < |buf| && buf[r.value].value == 0
    ensures r.Some? ==> forall k :: from <= k < r.value ==> buf[k].value != 0
    ensures r.None? ==> forall k :: from <= k < |buf| ==> buf[k].value != 0
    decreases |buf| - from
  {
    if from == |buf| then None
    else if buf[from].value == 0 then Some(from)
    else ZeroFrom(buf, from + 1)
  }

  /** The sum of the numbers 1000, 2000 and 3000 places after the first
      zero, going round the circle; `None` where the source's `unwrap`
      finds no zero. */
  function Coordinates(buf: seq<Entry>): (r: Option<int>)
    ensures r.Some? <==> exists k :: 0 <= k < |buf| && buf[k].value == 0
  {
    match ZeroFrom(buf, 0)
    case None => None
    case Some(z) =>
      var len := |buf|;
      Some(buf[(z + 1000) % len].value + buf[(z + 2000) % len].value + buf[(z + 3000) % len].value)
  }

  /** `solve_part1`: one round; `None` where the source panics (fewer than
      two numbers, or no zero). Mixing never panics on a missing index, so
      there is an answer exactly when there are two numbers and a zero,
      and it is read off a rearrangement of the input. */
  function Part1(data: seq<int>): (r: Option<int>)
    ensures r.Some? <==> |data| >= 2 && 0 in data
    ensures r.Some? ==> exists b :: Tagged(b, data) && Coordinates(b) == r
  {
    if |data| < 2 then None
    else
      StepsTagged(Tag(data), data, |data|);
      TaggedZero(Steps(Tag(data), |data|).value, data);
      match Steps(Tag(data), |data|)
      case None => None
      case Some(b) => Coordinates(b)
  }

  /** The key multiplies every number (`val.value *= DECRYPTION_KEY`). */
  function Scale(data: seq<int>): (r: seq<int>)
    ensures |r| == |data|
    ensures forall k :: 0 <= k < |r| ==> r[k] == data[k] * DecryptionKey
  {
    seq(|data|, k requires 0 <= k < |data| => data[k] * DecryptionKey)
  }

  /** `solve_part2`: the scaled numbers, ten rounds; an answer under the
      same condition as part 1, read off a rearrangement of the scaled
      input. */
  function Part2(data: seq<int>): (r: Option<int>)
    ensures r.Some? <==> |data| >= 2 && 0 in data
    ensures r.Some? ==> exists b :: Tagged(b, Scale(data)) && Coordinates(b) == r
  {
    if |data| < 2 then None
    else
      RoundsTagged(Tag(Scale(data)), Scale(data), 10);
      TaggedZero(Rounds(Tag(Scale(data)), |data|, 10).value, Scale(data));
      ScaleZero(data);
      match Rounds(Tag(Scale(data)), |data|, 10)
      case None => None
      case Some(b) => Coordinates(b)
  }

  /** A rearranged buffer holds a zero exactly when the input does. */
  lemma TaggedZero(buf: seq<Entry>, data: seq<int>)
    requires Tagged(buf, data)
    ensures (exists k :: 0 <= k < |buf| && buf[k].value == 0) <==> 0 in data
  {
    if exists k :: 0 <= k < |buf| && buf[k].value == 0 {
      var k :| 0 <= k < |buf| && buf[k].value == 0;
      TaggedEntry(buf, data, k);
    }
    if 0 in data {
      var i :| 0 <= i < |data| && data[i] == 0;
      TaggedLocate(buf, data, i);
    }
  }

  lemma ScaleZero(data: seq<int>)
    ensures 0 in Scale(data) <==> 0 in data
  {
    if 0 in Scale(data) {
      var k :| 0 <= k < |data| && Scale(data)[k] == 0;
      assert data[k] * DecryptionKey == 0;
    }
    if 0 in data {
      var k :| 0 <= k < |data| && data[k] == 0;
      assert Scale(data)[k] == 0;
    }
  }

  // ----- the puzzle's example -----

  /** A move determined by where the entry is found and what the buffer
      looks like without it. */
  lemma MoveBy(b: seq<Entry>, i: nat, c: nat, t: seq<Entry>, r: seq<Entry>)
    requires |b| >= 2 && c < |b| && b[c].start == i && forall k :: 0 <= k < c ==> b[k].start != i
    requires RemoveAt(b, c) == t && InsertAt(t, Target(c, b[c].value, |b|), b[c]) == r
    ensures Move(b, i) == Some(r)
  {
    LocateFirst(b, i, c);
  }

  const B0 := [Entry(0, 1), Entry(1, 2), Entry(2, -3), Entry(3, 3), Entry(4, -2), Entry(5, 0), Entry(6, 4)]
  const B1 := [Entry(1, 2), Entry(0, 1), Entry(2, -3), Entry(3, 3), Entry(4, -2), Entry(5, 0), Entry(6, 4)]
  const B2 := [Entry(0, 1), Entry(2, -3), Entry(1, 2), Entry(3, 3), Entry(4, -2), Entry(5, 0), Entry(6, 4)]
  const B3 := [Entry(0, 1), Entry(1, 2), Entry(3, 3), Entry(4, -2), Entry(2, -3), Entry(5, 0), Entry(6, 4)]
  const B4 := [Entry(0, 1), Entry(1, 2), Entry(4, -2), Entry(2, -3), Entry(5, 0), Entry(3, 3), Entry(6, 4)]
  const B5 := [Entry(4, -2), Entry(0, 1), Entry(1, 2), Entry(2, -3), Entry(5, 0), Entry(3, 3), Entry(6, 4)]
  const B7 := [Entry(4, -2), Entry(0, 1), Entry(1, 2), Entry(2, -3), Entry(6, 4), Entry(5, 0), Entry(3, 3)]

  lemma Move0()
    ensures Move(B0, 0) == Some(B1)
  {
    var t := [Entry(1, 2), Entry(2, -3), Entry(3, 3), Entry(4, -2), Entry(5, 0), Entry(6, 4)];
    assert B0[1..] == t;
    assert RemoveAt(B0, 0) == t;
    assert InsertAt(t, 1, Entry(0, 1)) == B1;
    MoveBy(B0, 0, 0, t, B1);
  }
  lemma Move1()
    ensures Move(B1, 1) == Some(B2)
  {
    var t := [Entry(0, 1), Entry(2, -3), Entry(3, 3), Entry(4, -2), Entry(5, 0), Entry(6, 4)];
    assert RemoveAt(B1, 0) == t;
    assert InsertAt(t, 2, Entry(1, 2)) == B2;
    MoveBy(B1, 1, 0, t, B2);
  }
  lemma Move2()
    ensures Move(B2, 2) == Some(B3)
  {
    var t := [Entry(0, 1), Entry(1, 2), Entry(3, 3), Entry(4, -2), Entry(5, 0), Entry(6, 4)];
    assert RemoveAt(B2, 1) == t;
    assert InsertAt(t, 4, Entry(2, -3)) == B3;
    MoveBy(B2, 2, 1, t, B3);
  }
  lemma Move3()
    ensures Move(B3, 3) == Some(B4)
  {
    var t := [Entry(0, 1), Entry(1, 2), Entry(4, -2), Entry(2, -3), Entry(5, 0), Entry(6, 4)];
    assert RemoveAt(B3, 2) == t;
    assert InsertAt(t, 5, Entry(3, 3)) == B4;
    MoveBy(B3, 3, 2, t, B4);
  }
  lemma Move4()
    ensures Move(B4, 4) == Some(B5)
  {
    var t := [Entry(0, 1), Entry(1, 2), Entry(2, -3), Entry(5, 0), Entry(3, 3), Entry(6, 4)];
    assert RemoveAt(B4, 2) == t;
    assert InsertAt(t, 0, Entry(4, -2)) == B5;
    MoveBy(B4, 4, 2, t, B5);
  }
  lemma Move5()
    ensures Move(B5, 5) == Some(B5)
  {
    var t := [Entry(4, -2), Entry(0, 1), Entry(1, 2), Entry(2, -3), Entry(3, 3), Entry(6, 4)];
    assert RemoveAt(B5, 4) == t;
    assert InsertAt(t, 4, Entry(5, 0)) == B5;
    MoveBy(B5, 5, 4, t, B5);
  }
  lemma Move6()
    ensures Move(B5, 6) == Some(B7)
  {
    var t := [Entry(4, -2), Entry(0, 1), Entry(1, 2), Entry(2, -3), Entry(5, 0), Entry(3, 3)];
    assert RemoveAt(B5, 6) == t;
    assert InsertAt(t, 4, Entry(6, 4)) == B7;
    MoveBy(B5, 6, 6, t, B7);
  }

  const Sample := [1, 2, -3, 3, -2, 0, 4]

  lemma SampleTag()
    ensures Tag(Sample) == B0
  {
  }

  lemma SampleSteps()
    ensures Steps(B0, 7) == Some(B7)
  {
    Move0(); Move1(); Move2(); Move3(); Move4(); Move5(); Move6();
    StepsNext(B0, 0, B0, B1);
    StepsNext(B0, 1, B1, B2);
    StepsNext(B0, 2, B2, B3);
    StepsNext(B0, 3, B3, B4);
    StepsNext(B0, 4, B4, B5);
    StepsNext(B0, 5, B5, B5);
    StepsNext(B0, 6, B5, B7);
  }

  lemma SampleCoordinates()
    ensures Coordinates(B7) == Some(3)
  {
    assert ZeroFrom(B7, 0) == Some(5);
  }

  /** The puzzle's example: the grove coordinates sum to 3. */
  lemma SampleAnswer()
    ensures Part1(Sample) == Some(3)
  {
    SampleTag();
    SampleSteps();
    SampleCoordinates();
  }
}
