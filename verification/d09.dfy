/** Rope bridge: a rope's head follows the motions of the input and every
    other knot is pulled along; the answer is the number of positions the
    last knot visits. */
module Rope {
  import opened Common
  import opened Text

  datatype Direction = Up | Down | Left | Right

  datatype Step = Step(direction: Direction, size: nat)

  function ParseDirection(s: string): (r: Option<Direction>)
    ensures r == Some(Up) <==> s == "U"
    ensures r == Some(Down) <==> s == "D"
    ensures r == Some(Left) <==> s == "L"
    ensures r == Some(Right) <==> s == "R"
  {
    if s == "U" then Some(Up)
    else if s == "D" then Some(Down)
    else if s == "L" then Some(Left)
    else if s == "R" then Some(Right)
    else None
  }

  /** One motion "D n"; None where the source panics. */
  function ParseStep(line: string): (r: Option<Step>)
    ensures r.Some? ==>
      (exists d, n :: (SplitOnce(line, ' ') == Some((d, n))
         && ParseDirection(d) == Some(r.value.direction) && ParseNat(n) == Some(r.value.size)))
  {
    match SplitOnce(line, ' ')
    case None => None
    case Some((d, n)) =>
      match (ParseDirection(d), ParseNat(n))
      case (Some(dir), Some(size)) => Some(Step(dir, size))
      case _ => None
  }

  function DirectionText(d: Direction): string
  {
    match d
    case Up => "U"
    case Down => "D"
    case Left => "L"
    case Right => "R"
  }

  /** A printed motion parses back to itself. */
  lemma ParseStepRoundTrip(s: Step)
    ensures ParseStep(DirectionText(s.direction) + " " + ShowNat(s.size)) == Some(s)
  {
    var d := DirectionText(s.direction);
    var line := d + " " + ShowNat(s.size);
    assert line == d + [' '] + ShowNat(s.size);
    assert ' ' !in d;
    SplitOnceJoin(d, ShowNat(s.size), ' ');
    ParseShowNat(s.size);
  }

  /** `parse_input`: one motion per line; a line that is not "D n" makes
      the source panic (None). */
  function ParseInput(data: string): (r: Option<seq<Step>>)
    ensures r.None? <==> exists k :: 0 <= k < |Lines(data)| && ParseStep(Lines(data)[k]).None?
    ensures r.Some? ==> |r.value| == |Lines(data)|
    ensures r.Some? ==> forall k :: 0 <= k < |r.value| ==> ParseStep(Lines(data)[k]) == Some(r.value[k])
  {
    ParseAll(Lines(data))
  }

  function ParseAll(lines: seq<string>): (r: Option<seq<Step>>)
    ensures r.Some? ==> |r.value| == |lines|
    ensures r.Some? ==> forall k :: 0 <= k < |lines| ==> ParseStep(lines[k]) == Some(r.value[k])
    ensures r.None? <==> exists k :: 0 <= k < |lines| && ParseStep(lines[k]).None?
  {
    if |lines| == 0 then Some([])
    else
      var head := ParseStep(lines[0]);
      var tail := ParseAll(lines[1..]);
      ParsedCons(lines, head, tail);
      if head.Some? && tail.Some? then Some([head.value] + tail.value) else None
  }

  /** `r` is what parsing every line of `lines` gives: each step, or `None` when some line fails. */
  ghost predicate Parsed(lines: seq<string>, r: Option<seq<Step>>)
  {
    && (r.Some? ==> |r.value| == |lines| && forall k :: 0 <= k < |lines| ==> ParseStep(lines[k]) == Some(r.value[k]))
    && (r.None? <==> exists k :: 0 <= k < |lines| && ParseStep(lines[k]).None?)
  }

  /** Parsing the first line and then the rest parses every line. */
  lemma ParsedCons(lines: seq<string>, head: Option<Step>, tail: Option<seq<Step>>)
    requires |lines| > 0 && head == ParseStep(lines[0]) && Parsed(lines[1..], tail)
    ensures Parsed(lines, if head.Some? && tail.Some? then Some([head.value] + tail.value) else None)
  {
    if head.Some? && tail.Some? {
      var r := [head.value] + tail.value;
      forall k | 0 <= k < |lines| ensures ParseStep(lines[k]) == Some(r[k]) {
        if k > 0 {
          assert lines[k] == lines[1..][k - 1] && r[k] == tail.value[k - 1];
        }
      }
    } else if head.Some? {
      var k :| 0 <= k < |lines[1..]| && ParseStep(lines[1..][k]).None?;
      assert ParseStep(lines[k + 1]).None?;
    }
  }

  datatype Position = Position(x: int, y: int)

  /** Two knots touch when they are at most one apart on each axis. */
  predicate Touching(a: Position, b: Position)
  {
    Abs(a.x - b.x) <= 1 && Abs(a.y - b.y) <= 1
  }

  /** `Position::distance`: the sum of the axis distances, except 1 for
      diagonal neighbours. */
  function Distance(a: Position, b: Position): (d: nat)
    ensures d > 1 <==> !Touching(a, b)
    ensures d == 0 <==> a == b
  {
    var dx := Abs(a.x - b.x);
    var dy := Abs(a.y - b.y);
    if dx == 1 && dy == 1 then 1 else dx + dy
  }

  /** `step_once`: one unit along the axis of the direction, y growing
      downwards. */
  function StepOnce(p: Position, d: Direction): (r: Position)
    ensures Abs(r.x - p.x) + Abs(r.y - p.y) == 1
    ensures d == Up ==> r == Position(p.x, p.y - 1)
    ensures d == Down ==> r == Position(p.x, p.y + 1)
    ensures d == Left ==> r == Position(p.x - 1, p.y)
    ensures d == Right ==> r == Position(p.x + 1, p.y)
  {
    match d
    case Up => Position(p.x, p.y - 1)
    case Down => Position(p.x, p.y + 1)
    case Left => Position(p.x - 1, p.y)
    case Right => Position(p.x + 1, p.y)
  }

  /** Every unit step of the motions, in order. */
  function Units(steps: seq<Step>): (r: seq<Direction>)
  {
    if |steps| == 0 then []
    else seq(steps[0].size, _ => steps[0].direction) + Units(steps[1..])
  }

  lemma {:induction false} UnitsLength(steps: seq<Step>)
    ensures |Units(steps)| == Sum(seq(|steps|, k requires 0 <= k < |steps| => steps[k].size))
    decreases |steps|
  {
    if |steps| > 0 {
      UnitsLength(steps[1..]);
      var sizes := seq(|steps|, k requires 0 <= k < |steps| => steps[k].size);
      var rest := seq(|steps[1..]|, k requires 0 <= k < |steps[1..]| => steps[1..][k].size);
      assert sizes == [steps[0].size] + rest;
      SumAppend([steps[0].size], rest);
    }
  }

  /** Part 1's rope: head, tail and the tail's visited positions. */
  datatype ShortRope = ShortRope(head: Position, tail: Position, visited: set<Position>)

  /** One unit step of part 1: when the head leaves the tail behind, the tail
      jumps to where the head just was; the tail's position is recorded. */
  function Move1(s: ShortRope, d: Direction): (r: ShortRope)
    requires Touching(s.head, s.tail)
    ensures Touching(r.head, r.tail)
    ensures r.head == StepOnce(s.head, d)
    ensures r.tail == s.tail || r.tail == s.head
    ensures r.visited == s.visited + {r.tail}
  {
    var head := StepOnce(s.head, d);
    var tail := if Distance(head, s.tail) > 1 then s.head else s.tail;
    ShortRope(head, tail, s.visited + {tail})
  }

  function Run1(s: ShortRope, ds: seq<Direction>): (r: ShortRope)
    requires Touching(s.head, s.tail)
    ensures Touching(r.head, r.tail)
    ensures s.visited <= r.visited
    ensures |ds| > 0 ==> r.tail in r.visited
    ensures |r.visited| <= |s.visited| + |ds|
    decreases |ds|
  {
    if |ds| == 0 then s
    else
      var next := Move1(s, ds[0]);
      var r := Run1(next, ds[1..]);
      assert |next.visited| <= |s.visited| + 1;
      r
  }

  const Origin := Position(0, 0)

  /** `solve_part1`: the number of positions the tail visits. */
  function Part1(steps: seq<Step>): (n: nat)
    ensures n <= |Units(steps)|
    ensures |Units(steps)| > 0 ==> n >= 1
  {
    var r := Run1(ShortRope(Origin, Origin, {}), Units(steps));
    assert |Units(steps)| > 0 ==> r.tail in r.visited;
    |r.visited|
  }

  /** A lagging knot moves one unit towards its predecessor on each axis
      where they differ. */
  function Follow(head: Position, tail: Position): (r: Position)
    ensures Abs(r.x - tail.x) <= 1 && Abs(r.y - tail.y) <= 1
    ensures Abs(head.x - tail.x) <= 2 && Abs(head.y - tail.y) <= 2 ==> Touching(head, r)
  {
    Position(tail.x + Sign(head.x - tail.x), tail.y + Sign(head.y - tail.y))
  }

  /** Links `1..` of the rope: knot `j` touches knot `j - 1`. */
  predicate LinkTouches(knots: seq<Position>, j: nat)
    requires 1 <= j < |knots|
  {
    Touching(knots[j - 1], knots[j])
  }

  predicate AllTouching(knots: seq<Position>)
  {
    forall j :: 1 <= j < |knots| ==> LinkTouches(knots, j)
  }

  /** Knot `i` and later: each knot that is no longer touching follows its
      predecessor; the first one still touching ends the pull. */
  function PullFrom(knots: seq<Position>, i: nat): (r: seq<Position>)
    requires 1 <= i
    ensures |r| == |knots|
    ensures forall j :: 0 <= j < i && j < |knots| ==> r[j] == knots[j]
    ensures forall j :: i <= j < |knots| && r[j] == knots[j] ==> forall l :: j <= l < |knots| ==> r[l] == knots[l]
    decreases |knots| - i
  {
    if i >= |knots| then knots
    else if Distance(knots[i - 1], knots[i]) > 1 then PullFrom(knots[i := Follow(knots[i - 1], knots[i])], i + 1)
    else knots
  }

  /** Pulling restores a rope whose only broken link, `i`, spans at most two
      units per axis: afterwards every link touches. */
  lemma {:induction false} PullRestores(knots: seq<Position>, i: nat)
    requires 1 <= i <= |knots|
    requires forall j :: 1 <= j < |knots| && j != i ==> LinkTouches(knots, j)
    requires i < |knots| ==> Abs(knots[i - 1].x - knots[i].x) <= 2 && Abs(knots[i - 1].y - knots[i].y) <= 2
    ensures AllTouching(PullFrom(knots, i))
    decreases |knots| - i
  {
    if i < |knots| && Distance(knots[i - 1], knots[i]) > 1 {
      var next := knots[i := Follow(knots[i - 1], knots[i])];
      assert LinkTouches(next, i);
      forall j | 1 <= j < |next| && j != i + 1
        ensures LinkTouches(next, j)
      {
        if j != i {
          assert LinkTouches(knots, j);
        }
      }
      if i + 1 < |knots| {
        assert LinkTouches(knots, i + 1);
      }
      PullRestores(next, i + 1);
    } else if i < |knots| {
      assert LinkTouches(knots, i);
    }
  }

  /** Part 2's rope: the knots, head first, and the last knot's visited
      positions. */
  datatype LongRope = LongRope(knots: seq<Position>, visited: set<Position>)

  /** One unit step of part 2: the head moves, the rest is pulled and the
      last knot's position recorded. */
  function Move(s: LongRope, d: Direction): (r: LongRope)
    requires |s.knots| >= 1 && AllTouching(s.knots)
    ensures |r.knots| == |s.knots| && AllTouching(r.knots)
    ensures r.knots[0] == StepOnce(s.knots[0], d)
    ensures r.visited == s.visited + {r.knots[|r.knots| - 1]}
  {
    var moved := s.knots[0 := StepOnce(s.knots[0], d)];
    assert |moved| > 1 ==> LinkTouches(s.knots, 1);
    assert forall j :: 2 <= j < |moved| ==> LinkTouches(moved, j) by {
      forall j | 2 <= j < |moved|
        ensures LinkTouches(moved, j)
      {
        assert LinkTouches(s.knots, j);
      }
    }
    PullRestores(moved, 1);
    var knots := PullFrom(moved, 1);
    LongRope(knots, s.visited + {knots[|knots| - 1]})
  }

  function Run(s: LongRope, ds: seq<Direction>): (r: LongRope)
    requires |s.knots| >= 1 && AllTouching(s.knots)
    ensures |r.knots| == |s.knots| && AllTouching(r.knots)
    ensures s.visited <= r.visited
    ensures |ds| > 0 ==> r.knots[|r.knots| - 1] in r.visited
    ensures |r.visited| <= |s.visited| + |ds|
    decreases |ds|
  {
    if |ds| == 0 then s
    else
      var next := Move(s, ds[0]);
      assert |next.visited| <= |s.visited| + 1;
      Run(next, ds[1..])
  }

  /** `solve_part2`: the number of positions the tenth knot visits. */
  function Part2(steps: seq<Step>): (n: nat)
    ensures n <= |Units(steps)|
    ensures |Units(steps)| > 0 ==> n >= 1
  {
    var start := LongRope(seq(10, _ => Origin), {});
    assert forall j :: 1 <= j < 10 ==> LinkTouches(start.knots, j);
    var r := Run(start, Units(steps));
    assert |Units(steps)| > 0 ==> r.knots[9] in r.visited;
    |r.visited|
  }

  /** For a touching pair, part 1's jump to the head's previous position is
      the same move as part 2's step towards the head. */
  lemma JumpIsFollow(head: Position, tail: Position, d: Direction)
    requires Touching(head, tail)
    ensures var h := StepOnce(head, d);
      !Touching(h, tail) ==> Follow(h, tail) == head
  {
  }

  /** Part 1 is the two-knot case of part 2's rope. */
  lemma {:induction false} ShortRopeIsTwoKnots(s: ShortRope, ds: seq<Direction>)
    requires Touching(s.head, s.tail)
    ensures var r := Run(LongRope([s.head, s.tail], s.visited), ds);
      assert LinkTouches([s.head, s.tail], 1);
      r.knots == [Run1(s, ds).head, Run1(s, ds).tail] && r.visited == Run1(s, ds).visited
    decreases |ds|
  {
    assert LinkTouches([s.head, s.tail], 1);
    if |ds| > 0 {
      var next := Move1(s, ds[0]);
      var long := Move(LongRope([s.head, s.tail], s.visited), ds[0]);
      JumpIsFollow(s.head, s.tail, ds[0]);
      assert long.knots == [next.head, next.tail];
      ShortRopeIsTwoKnots(next, ds[1..]);
    }
  }
}
