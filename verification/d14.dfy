/** Regolith reservoir: rock paths drawn as sets of cells, and sand poured
    from (500, 0) that falls down, down-left or down-right until it rests. */
module FallingSand {
  import opened Common
  import opened Text

  type Point = (int, int)

  /** A rock path: its corners, joined by straight segments. */
  type Path = seq<Point>

  const Source: Point := (500, 0)

  // ----- parsing -----

  /** `parse::<i16>()`. */
  function ParseI16(s: string): (r: Option<int>)
    ensures r.Some? ==> -32768 <= r.value <= 32767
  {
    match ParseInt(s)
    case None => None
    case Some(n) => if -32768 <= n <= 32767 then Some(n) else None
  }

  /** "x,y"; `None` where the source's `unwrap` panics. */
  function ParsePoint(s: string): Option<Point>
  {
    match SplitOnce(s, ',')
    case None => None
    case Some(halves) =>
      match (ParseI16(halves.0), ParseI16(halves.1))
      case (Some(x), Some(y)) => Some((x, y))
      case _ => None
  }

  function ParsePoints(pieces: seq<string>): (r: Option<Path>)
    ensures r.Some? ==> |r.value| == |pieces|
  {
    if |pieces| == 0 then Some([])
    else
      match (ParsePoint(pieces[0]), ParsePoints(pieces[1..]))
      case (Some(p), Some(rest)) => Some([p] + rest)
      case _ => None
  }

  function ParsePaths(lines: seq<string>): (r: Option<seq<Path>>)
    ensures r.Some? ==> |r.value| == |lines|
  {
    if |lines| == 0 then Some([])
    else
      match (ParsePoints(SplitOn(lines[0], " -> ")), ParsePaths(lines[1..]))
      case (Some(p), Some(rest)) => Some([p] + rest)
      case _ => None
  }

  /** `parse_input`: one path per line, corners separated by " -> ". */
  function ParseInput(data: string): (r: Option<seq<Path>>)
    ensures r.Some? ==> |r.value| == |Lines(data)|
  {
    ParsePaths(Lines(data))
  }

  /** The printed form of a point. */
  function ShowPoint(p: Point): string
  {
    ShowInt(p.0) + "," + ShowInt(p.1)
  }

  /** Points print and read back, within the 16-bit range. */
  lemma ParseShowPoint(p: Point)
    requires -32768 <= p.0 <= 32767 && -32768 <= p.1 <= 32767
    ensures ParsePoint(ShowPoint(p)) == Some(p)
  {
    ParseShowInt(p.0);
    ParseShowInt(p.1);
    assert ',' !in ShowInt(p.0);
    SplitOnceJoin(ShowInt(p.0), ShowInt(p.1), ',');
    assert ShowPoint(p) == ShowInt(p.0) + [','] + ShowInt(p.1);
  }

  // ----- rock -----

  /** The cells one segment of a path covers, as the source's three cases:
      a change in x draws a row at the first corner's y, otherwise a change
      in y draws a column, otherwise the single cell. */
  function Segment(a: Point, b: Point): set<Point>
  {
    if a.0 != b.0 then set x | Min(a.0, b.0) <= x <= Max(a.0, b.0) :: (x, a.1)
    else if a.1 != b.1 then set y | Min(a.1, b.1) <= y <= Max(a.1, b.1) :: (a.0, y)
    else {a}
  }

  /** `p` lies in the box spanned by `a` and `b`, ends included. */
  predicate Between(a: Point, b: Point, p: Point)
  {
    Min(a.0, b.0) <= p.0 <= Max(a.0, b.0) && Min(a.1, b.1) <= p.1 <= Max(a.1, b.1)
  }

  /** An axis-aligned segment covers exactly the cells between its ends,
      both ends included; a segment of length zero covers its one cell. */
  lemma SegmentContents(a: Point, b: Point)
    requires a.0 == b.0 || a.1 == b.1
    ensures forall p :: p in Segment(a, b) <==> Between(a, b, p)
    ensures a in Segment(a, b) && b in Segment(a, b)
  {
    if a.0 != b.0 {
      forall p | Between(a, b, p)
        ensures p in Segment(a, b)
      {
        assert p == (p.0, a.1);
      }
      assert a == (a.0, a.1) && b == (b.0, a.1);
    } else if a.1 != b.1 {
      forall p | Between(a, b, p)
        ensures p in Segment(a, b)
      {
        assert p == (a.0, p.1);
      }
      assert a == (a.0, a.1) && b == (a.0, b.1);
    } else {
      forall p | Between(a, b, p)
        ensures p == a
      {
      }
    }
  }

  /** The cells of every segment of one path. */
  function PathBlocks(path: Path): set<Point>
    decreases |path|
  {
    if |path| < 2 then {} else Segment(path[0], path[1]) + PathBlocks(path[1..])
  }

  /** A path covers exactly the cells of its segments. */
  lemma {:induction false} PathBlocksContents(path: Path, p: Point)
    ensures p in PathBlocks(path) <==>
      exists j :: 0 <= j < |path| - 1 && p in Segment(path[j], path[j + 1])
    decreases |path|
  {
    if |path| >= 2 {
      PathBlocksContents(path[1..], p);
      assert forall j :: 0 <= j < |path| - 1 ==> path[1..][j] == path[j + 1];
      if p in PathBlocks(path[1..]) {
        var j :| 0 <= j < |path| - 2 && p in Segment(path[1..][j], path[1..][j + 1]);
        assert p in Segment(path[j + 1], path[j + 2]);
      }
      if exists j :: 0 <= j < |path| - 1 && p in Segment(path[j], path[j + 1]) {
        var j :| 0 <= j < |path| - 1 && p in Segment(path[j], path[j + 1]);
        if j > 0 {
          assert p in Segment(path[1..][j - 1], path[1..][j]);
        }
      }
    }
  }

  /** `init_blocks`: the cells of every segment of every path. */
  function InitBlocks(paths: seq<Path>): set<Point>
  {
    if |paths| == 0 then {} else PathBlocks(paths[0]) + InitBlocks(paths[1..])
  }

  /** The rock is exactly the cells of the paths. */
  lemma {:induction false} InitBlocksContents(paths: seq<Path>, p: Point)
    ensures p in InitBlocks(paths) <==> exists i :: 0 <= i < |paths| && p in PathBlocks(paths[i])
    decreases |paths|
  {
    if |paths| > 0 {
      InitBlocksContents(paths[1..], p);
      if p in InitBlocks(paths[1..]) {
        var i :| 0 <= i < |paths| - 1 && p in PathBlocks(paths[1..][i]);
        assert p in PathBlocks(paths[i + 1]);
      }
      if exists i :: 0 <= i < |paths| && p in PathBlocks(paths[i]) {
        var i :| 0 <= i < |paths| && p in PathBlocks(paths[i]);
        if i > 0 {
          assert p in PathBlocks(paths[1..][i - 1]);
        }
      }
    }
  }

  /** The deepest y of any corner, and 0 for no corners: `abyss_y`. */
  function Deepest(paths: seq<Path>): (d: int)
    ensures d >= 0
    ensures forall p, c :: p in paths && c in p ==> c.1 <= d
  {
    if |paths| == 0 then 0
    else
      var rest := Deepest(paths[1..]);
      assert forall p :: p in paths ==> p == paths[0] || p in paths[1..];
      Max(DeepestOf(paths[0]), rest)
  }

  function DeepestOf(path: Path): (d: int)
    ensures d >= 0
    ensures forall c :: c in path ==> c.1 <= d
  {
    if |path| == 0 then 0
    else
      assert forall c :: c in path ==> c == path[0] || c in path[1..];
      Max(path[0].1, DeepestOf(path[1..]))
  }

  // ----- sand -----

  /** The three cells a grain at `p` tries, in order. */
  function Down(p: Point): Point { (p.0, p.1 + 1) }
  function DownLeft(p: Point): Point { (p.0 - 1, p.1 + 1) }
  function DownRight(p: Point): Point { (p.0 + 1, p.1 + 1) }

  /** A grain at `p` cannot move. */
  predicate Stuck(blocks: set<Point>, p: Point)
  {
    Down(p) in blocks && DownLeft(p) in blocks && DownRight(p) in blocks
  }

  /** The cells a grain can reach from the source: below it and no further
      sideways than down. */
  predicate InCone(p: Point)
  {
    p.1 >= 0 && 500 - p.1 <= p.0 <= 500 + p.1
  }

  /** The cone's cells down to depth `h`. */
  function Cone(h: nat): (r: set<Point>)
    ensures forall p :: p in r <==> InCone(p) && p.1 <= h
  {
    var r := set y, x | 0 <= y <= h && 500 - y <= x <= 500 + y :: (x, y);
    assert forall p :: InCone(p) && p.1 <= h ==> p in r by {
      forall p | InCone(p) && p.1 <= h
        ensures p in r
      {
        assert p == (p.0, p.1);
      }
    }
    r
  }

  /** Where a falling grain ends: at rest, or below the lowest rock. */
  datatype Outcome = Rest(at: Point) | Abyss

  /** One grain in part 1, from `p`: it falls past `abyss` or comes to rest
      where all three cells below are taken. Every move is into a free
      cell, so a grain that moved rests on a free cell. */
  function Fall(blocks: set<Point>, p: Point, abyss: int): (r: Outcome)
    requires InCone(p)
    ensures r.Rest? ==> Stuck(blocks, r.at) && r.at.1 <= abyss && InCone(r.at)
    ensures r.Rest? && (r.at != p || p !in blocks) ==> r.at !in blocks
    decreases abyss - p.1
  {
    if p.1 > abyss then Abyss
    else if Down(p) !in blocks then Fall(blocks, Down(p), abyss)
    else if DownLeft(p) !in blocks then Fall(blocks, DownLeft(p), abyss)
    else if DownRight(p) !in blocks then Fall(blocks, DownRight(p), abyss)
    else Rest(p)
  }

  /** Removing a cell of the cone that was free shrinks what is free. */
  lemma FreeShrinks(cone: set<Point>, blocks: set<Point>, q: Point)
    requires q in cone && q !in blocks
    ensures |cone - (blocks + {q})| < |cone - blocks|
  {
    assert cone - blocks == (cone - (blocks + {q})) + {q};
  }

  /** The sand loop of part 1, from the state `blocks` with `grains` grains
      at rest. A grain resting on the source would be poured again and
      again forever; that case gives `None`. */
  function Pour(blocks: set<Point>, abyss: nat, grains: nat): (r: Option<(set<Point>, nat)>)
    ensures r.Some? ==> blocks <= r.value.0
    ensures r.Some? ==> |r.value.0| == |blocks| + r.value.1 - grains && r.value.1 >= grains
    ensures r.Some? ==> Fall(r.value.0, Source, abyss).Abyss?
    ensures r.Some? ==> forall g :: g in r.value.0 - blocks ==> g in Cone(abyss) && Stuck(r.value.0, g)
    ensures r.None? ==> exists b :: blocks <= b && Fall(b, Source, abyss) == Rest(Source)
    decreases |Cone(abyss) - blocks|
  {
    match Fall(blocks, Source, abyss)
    case Abyss => Some((blocks, grains))
    case Rest(q) =>
      if q == Source then None
      else
        FreeShrinks(Cone(abyss), blocks, q);
        var r := Pour(blocks + {q}, abyss, grains + 1);
        assert r.Some? ==> Stuck(r.value.0, q);
        r
  }

  /** Some `n` grains outside the rock, each resting in the cone above
      `abyss` on the rock and the other grains, let the next grain fall
      into the abyss. */
  ghost predicate AbyssAfter(rock: set<Point>, abyss: nat, n: int)
  {
    exists sand: set<Point> ::
      && |sand| == n && sand !! rock
      && (forall g :: g in sand ==> g in Cone(abyss) && Stuck(rock + sand, g))
      && Fall(rock + sand, Source, abyss).Abyss?
  }

  /** Some `n` grains outside the rock cover the source, each in the cone
      above the floor and resting on the floor row or on three blocks. */
  ghost predicate CoveredAfter(rock: set<Point>, deep: nat, n: int)
  {
    exists sand: set<Point> ::
      && |sand| == n && sand !! rock && Source in rock + sand
      && (forall g :: g in sand ==> g in Cone(deep + 1) && (g.1 == deep + 1 || Stuck(rock + sand, g)))
  }

  /** `solve_part1`: the number of grains at rest once one falls into the
      abyss, as the growth of the block set. */
  function Part1(paths: seq<Path>): (r: Option<int>)
    ensures r.Some? ==> r.value >= 0 && AbyssAfter(InitBlocks(paths), Deepest(paths), r.value)
    ensures r.None? ==> exists b :: InitBlocks(paths) <= b && Fall(b, Source, Deepest(paths)) == Rest(Source)
  {
    var rock := InitBlocks(paths);
    var abyss := Deepest(paths);
    match Pour(rock, abyss, 0)
    case None => None
    case Some(end) =>
      AbyssSand(rock, abyss, end.0);
      Some(|end.0| - |rock|)
  }

  /** The grains a finished pour added to the rock, as a set of their own. */
  lemma AbyssSand(rock: set<Point>, abyss: nat, end: set<Point>)
    requires rock <= end && Fall(end, Source, abyss).Abyss?
    requires forall g :: g in end - rock ==> g in Cone(abyss) && Stuck(end, g)
    ensures |end| >= |rock| && AbyssAfter(rock, abyss, |end| - |rock|)
  {
    var sand := end - rock;
    assert rock + sand == end;
    assert |end| == |rock| + |sand| by { assert rock !! sand; }
    assert forall g :: g in sand ==> g in Cone(abyss) && Stuck(rock + sand, g) by {
      forall g | g in sand ensures g in Cone(abyss) && Stuck(rock + sand, g) {
        assert g in end - rock;
      }
    }
    assert Fall(rock + sand, Source, abyss).Abyss?;
  }

  // ----- part 2 -----

  /** One grain in part 2: it rests on the floor two below the lowest rock,
      or where all three cells below are taken. */
  function FallToFloor(blocks: set<Point>, p: Point, floor: int): (r: Point)
    requires InCone(p) && p.1 <= floor - 1
    ensures InCone(r) && r.1 <= floor - 1
    ensures r.1 == floor - 1 || Stuck(blocks, r)
    ensures (r != p || p !in blocks) ==> r !in blocks
    decreases floor - 1 - p.1
  {
    if p.1 == floor - 1 then p
    else if Down(p) !in blocks then FallToFloor(blocks, Down(p), floor)
    else if DownLeft(p) !in blocks then FallToFloor(blocks, DownLeft(p), floor)
    else if DownRight(p) !in blocks then FallToFloor(blocks, DownRight(p), floor)
    else p
  }

  /** The sand loop of part 2: grains are poured until one rests on the
      source. The check for the source on the floor row comes before the
      insertion, as in the source; with the floor at depth 2 or more it
      never fires. */
  function PourToFloor(blocks: set<Point>, floor: nat, grains: nat): (r: (set<Point>, nat))
    requires floor >= 2
    ensures blocks <= r.0 && Source in r.0
    ensures |r.0| <= |blocks| + r.1 - grains && r.1 >= grains
    ensures forall g :: g in r.0 - blocks ==> g in Cone(floor - 1) && (g.1 == floor - 1 || Stuck(r.0, g))
    decreases |Cone(floor - 1) - blocks|
  {
    var q := FallToFloor(blocks, Source, floor);
    if q == Source then
      if q.1 == floor - 1 then (blocks, grains)
      else (blocks + {q}, grains + 1)
    else
      FreeShrinks(Cone(floor - 1), blocks, q);
      var r := PourToFloor(blocks + {q}, floor, grains + 1);
      assert q.1 == floor - 1 || Stuck(r.0, q);
      r
  }

  /** `solve_part2`: the growth of the block set once the source is
      covered. */
  function Part2(paths: seq<Path>): (r: int)
    ensures r <= PourToFloor(InitBlocks(paths), Deepest(paths) + 2, 0).1
    ensures Source !in InitBlocks(paths) ==> r == PourToFloor(InitBlocks(paths), Deepest(paths) + 2, 0).1
    ensures r >= 0 && CoveredAfter(InitBlocks(paths), Deepest(paths), r)
  {
    var rock := InitBlocks(paths);
    var deep := Deepest(paths);
    var end := PourToFloor(rock, deep + 2, 0);
    GrowthAt(rock, deep, end);
    Growth(rock, deep)
  }

  lemma GrowthAt(rock: set<Point>, deep: nat, end: (set<Point>, nat))
    requires end == PourToFloor(rock, deep + 2, 0)
    ensures Growth(rock, deep) <= end.1 && (Source !in rock ==> Growth(rock, deep) == end.1)
    ensures Growth(rock, deep) >= 0 && CoveredAfter(rock, deep, Growth(rock, deep))
  {
  }

  /** The number of blocks pouring onto the floor two below `deep` adds
      to `rock`: at most the grains poured, exactly that many while the
      source was free of rock, and the size of a set of grains each on the
      floor row or stuck. */
  function Growth(rock: set<Point>, deep: nat): (r: int)
    ensures r <= PourToFloor(rock, deep + 2, 0).1
    ensures Source !in rock ==> r == PourToFloor(rock, deep + 2, 0).1
    ensures r >= 0 && CoveredAfter(rock, deep, r)
  {
    var end := PourToFloor(rock, deep + 2, 0);
    assert deep + 2 - 1 == deep + 1;
    FloorCount(rock, deep + 2);
    FloorSand(rock, deep, end.0);
    |end.0| - |rock|
  }

  /** The blocks added number at most the grains poured, and exactly that
      many while the source was free of rock. */
  lemma FloorCount(rock: set<Point>, floor: nat)
    requires floor >= 2
    ensures var end := PourToFloor(rock, floor, 0);
      |end.0| - |rock| <= end.1 && (Source !in rock ==> |end.0| - |rock| == end.1)
  {
    var end := PourToFloor(rock, floor, 0);
    if Source !in rock {
      ExactWhenFree(rock, floor, 0);
    }
    GrowthBound(|rock|, |end.0|, end.1, Source !in rock);
  }

  /** The grains a pour onto the floor added to the rock, as a set of
      their own. */
  lemma FloorSand(rock: set<Point>, deep: nat, end: set<Point>)
    requires rock <= end && Source in end
    requires forall g :: g in end - rock ==> g in Cone(deep + 1) && (g.1 == deep + 1 || Stuck(end, g))
    ensures |end| >= |rock| && CoveredAfter(rock, deep, |end| - |rock|)
  {
    var sand := end - rock;
    assert rock + sand == end;
    assert |end| == |rock| + |sand| by { assert rock !! sand; }
    assert forall g :: g in sand ==> g in Cone(deep + 1) && (g.1 == deep + 1 || Stuck(rock + sand, g)) by {
      forall g | g in sand ensures g in Cone(deep + 1) && (g.1 == deep + 1 || Stuck(rock + sand, g)) {
        assert g in end - rock;
      }
    }
    assert Source in rock + sand;
  }

  lemma GrowthBound(rock: nat, end: nat, grains: nat, exact: bool)
    requires end <= rock + grains
    requires exact ==> end == rock + grains
    ensures end - rock <= grains && (exact ==> end - rock == grains)
  {
  }

  /** While the source is free, every grain lands on a free cell, so each
      one adds exactly one block. */
  lemma {:induction false} ExactWhenFree(blocks: set<Point>, floor: nat, grains: nat)
    requires floor >= 2 && Source !in blocks
    ensures var r := PourToFloor(blocks, floor, grains);
      |r.0| == |blocks| + r.1 - grains
    decreases |Cone(floor - 1) - blocks|
  {
    var q := FallToFloor(blocks, Source, floor);
    if q != Source {
      FreeShrinks(Cone(floor - 1), blocks, q);
      ExactWhenFree(blocks + {q}, floor, grains + 1);
    }
  }
}
