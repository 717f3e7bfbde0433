/** Boiling boulders: the surface area of a droplet of unit cubes, first
    counting every face not against another cube, then only the faces
    reached by steam flooding in from outside the droplet. */
module BoilingBoulders {
  import opened Common
  import opened Text

  type Cube = (int, int, int)

  const I64Min := -0x8000_0000_0000_0000
  const I64Max := 0x7FFF_FFFF_FFFF_FFFF

  // ----- parsing -----

  /** `str::parse::<i64>()`. */
  function ParseCoord(s: string): (r: Option<int>)
    ensures r.Some? ==> I64Min <= r.value <= I64Max
  {
    match ParseInt(s)
    case Some(n) => if I64Min <= n <= I64Max then Some(n) else None
    case None => None
  }

  /** One line "x,y,z"; pieces after the third are ignored, and a missing
      or malformed piece is where the source panics. */
  function ParseCube(line: string): Option<Cube>
  {
    var parts := Split(line, ',');
    if |parts| < 3 then None
    else
      match (ParseCoord(parts[0]), ParseCoord(parts[1]), ParseCoord(parts[2]))
      case (Some(x), Some(y), Some(z)) => Some((x, y, z))
      case _ => None
  }

  /** Every line parsed, or None when one of them does not parse. */
  function ParseCubes(lines: seq<string>): (r: Option<seq<Cube>>)
    ensures r.Some? <==> forall i :: 0 <= i < |lines| ==> ParseCube(lines[i]).Some?
    ensures r.Some? ==> |r.value| == |lines|
    ensures r.Some? ==> forall i :: 0 <= i < |lines| ==> ParseCube(lines[i]) == Some(r.value[i])
  {
    if |lines| == 0 then Some([])
    else
      assert forall i :: 1 <= i < |lines| ==> lines[i] == lines[1..][i - 1];
      match (ParseCube(lines[0]), ParseCubes(lines[1..]))
      case (Some(c), Some(rest)) => Some([c] + rest)
      case _ => None
  }

  /** `parse_input`: one cube per line; cubes printed one per line, within
      the 64-bit range, read back as themselves. */
  function ParseInput(data: string): (r: Option<seq<Cube>>)
    ensures r.Some? <==> forall i :: 0 <= i < |Lines(data)| ==> ParseCube(Lines(data)[i]).Some?
    ensures r.Some? ==> |r.value| == |Lines(data)|
    ensures r.Some? ==> forall i :: 0 <= i < |r.value| ==> ParseCube(Lines(data)[i]) == Some(r.value[i])
  {
    ParseCubes(Lines(data))
  }

  /** Cubes printed one per line read back as themselves. */
  lemma ParseInputShown(cubes: seq<Cube>)
    requires forall i :: 0 <= i < |cubes| ==>
      I64Min <= cubes[i].0 <= I64Max && I64Min <= cubes[i].1 <= I64Max && I64Min <= cubes[i].2 <= I64Max
    ensures ParseInput(Unlines(seq(|cubes|, i requires 0 <= i < |cubes| => ShowCube(cubes[i])))) == Some(cubes)
  {
    var ls := seq(|cubes|, i requires 0 <= i < |cubes| => ShowCube(cubes[i]));
    forall k | 0 <= k < |ls|
      ensures '\n' !in ls[k] && ls[k][|ls[k]| - 1] != '\r'
      ensures ParseCube(ls[k]) == Some(cubes[k])
    {
      ParseShowCube(cubes[k]);
      var c := cubes[k];
      assert ls[k] == ShowInt(c.0) + "," + ShowInt(c.1) + "," + ShowInt(c.2);
      assert forall j :: 0 <= j < |ls[k]| ==> IsDigit(ls[k][j]) || ls[k][j] == '-' || ls[k][j] == ',';
    }
    LinesUnlines(ls);
    var r := ParseCubes(ls);
    assert r.Some?;
    assert r.value == cubes;
  }

  function ShowCube(c: Cube): string
  {
    ShowInt(c.0) + "," + ShowInt(c.1) + "," + ShowInt(c.2)
  }

  lemma SplitShowCube(c: Cube)
    ensures Split(ShowCube(c), ',') == [ShowInt(c.0), ShowInt(c.1), ShowInt(c.2)]
  {
    var pieces := [ShowInt(c.0), ShowInt(c.1), ShowInt(c.2)];
    assert forall k :: 0 <= k < 3 ==> ',' !in pieces[k];
    SplitJoin(pieces, ',');
    assert pieces[1..][1..] == [ShowInt(c.2)];
    assert Join(pieces[1..], ',') == ShowInt(c.1) + [','] + ShowInt(c.2);
    assert Join(pieces, ',') == ShowCube(c);
  }

  /** A cube prints and reads back, within the 64-bit range. */
  lemma ParseShowCube(c: Cube)
    requires I64Min <= c.0 <= I64Max && I64Min <= c.1 <= I64Max && I64Min <= c.2 <= I64Max
    ensures ParseCube(ShowCube(c)) == Some(c)
  {
    SplitShowCube(c);
    ParseShowInt(c.0);
    ParseShowInt(c.1);
    ParseShowInt(c.2);
  }

  // ----- faces -----

  /** The six cubes sharing a face, in the source's order: +x, -x, +y, -y,
      +z, -z. */
  function Neighbours(c: Cube): seq<Cube>
  {
    var (x, y, z) := c;
    [(x + 1, y, z), (x - 1, y, z), (x, y + 1, z), (x, y - 1, z), (x, y, z + 1), (x, y, z - 1)]
  }

  function Dist(a: Cube, b: Cube): nat
  {
    Abs(a.0 - b.0) + Abs(a.1 - b.1) + Abs(a.2 - b.2)
  }

  /** The neighbours are exactly the six distinct cubes at distance one. */
  lemma NeighboursAtDistanceOne(c: Cube, d: Cube)
    ensures |Neighbours(c)| == 6
    ensures d in Neighbours(c) <==> Dist(c, d) == 1
    ensures forall i, j :: 0 <= i < j < 6 ==> Neighbours(c)[i] != Neighbours(c)[j]
  {
  }

  /** The index of the opposite face. */
  function Opposite(i: nat): nat
    requires i < 6
  {
    if i % 2 == 0 then i + 1 else i - 1
  }

  /** Stepping through a face and back through the opposite one returns. */
  lemma NeighbourBack(c: Cube, i: nat)
    requires i < 6
    ensures Opposite(i) < 6 && Neighbours(Neighbours(c)[i])[Opposite(i)] == c
  {
  }

  predicate NoDup(s: seq<Cube>)
  {
    forall i, j :: 0 <= i < j < |s| ==> s[i] != s[j]
  }

  function ToSet(s: seq<Cube>): (r: set<Cube>)
    ensures forall x :: x in r <==> x in s
  {
    set x | x in s
  }

  /** How many of `cells` are not in `s`. */
  function CountOut(cells: seq<Cube>, s: set<Cube>): (n: nat)
    ensures n <= |cells|
  {
    if |cells| == 0 then 0 else (if cells[0] in s then 0 else 1) + CountOut(cells[1..], s)
  }

  /** How many of `cells` are in `s`. */
  function CountIn(cells: seq<Cube>, s: set<Cube>): (n: nat)
    ensures n <= |cells|
  {
    if |cells| == 0 then 0 else (if cells[0] in s then 1 else 0) + CountIn(cells[1..], s)
  }

  lemma NoDupTail(cells: seq<Cube>)
    requires NoDup(cells) && |cells| > 0
    ensures NoDup(cells[1..]) && cells[0] !in cells[1..]
  {
    var rest := cells[1..];
    forall i, j | 0 <= i < j < |rest|
      ensures rest[i] != rest[j]
    {
      assert rest[i] == cells[i + 1] && rest[j] == cells[j + 1];
    }
  }

  /** For distinct cells, the count is the size of the set of cells left
      outside `s`. */
  lemma {:induction false} CountOutIsSize(cells: seq<Cube>, s: set<Cube>)
    requires NoDup(cells)
    ensures CountOut(cells, s) == |ToSet(cells) - s|
  {
    if |cells| > 0 {
      var rest := cells[1..];
      NoDupTail(cells);
      CountOutIsSize(rest, s);
      OutCons(cells, s);
    }
  }

  /** Leaving out `s`, the set of a sequence is that of its tail, plus its
      head when the head is outside `s`. */
  lemma OutCons(cells: seq<Cube>, s: set<Cube>)
    requires |cells| > 0 && cells[0] !in cells[1..]
    ensures |ToSet(cells) - s| == (if cells[0] in s then 0 else 1) + |ToSet(cells[1..]) - s|
  {
    var tail := ToSet(cells[1..]) - s;
    assert ToSet(cells) == ToSet(cells[1..]) + {cells[0]} by {
      forall x ensures x in ToSet(cells) <==> x in ToSet(cells[1..]) + {cells[0]} {
        assert x in cells <==> x == cells[0] || x in cells[1..];
      }
    }
    if cells[0] in s {
      assert ToSet(cells) - s == tail;
    } else {
      assert ToSet(cells) - s == tail + {cells[0]};
      assert cells[0] !in tail;
    }
  }

  /** A cell can be counted as touching `t` only where it is not in `s`,
      when the two are disjoint. */
  lemma {:induction false} CountInDisjoint(cells: seq<Cube>, s: set<Cube>, t: set<Cube>)
    requires s !! t
    ensures CountIn(cells, t) <= CountOut(cells, s)
  {
    if |cells| > 0 {
      CountInDisjoint(cells[1..], s, t);
    }
  }

  /** `solve_part1`: for each cube in input order, the faces whose
      neighbour is not a cube of the droplet. */
  function Exposed(cubes: seq<Cube>, pieces: set<Cube>): nat
  {
    if |cubes| == 0 then 0 else CountOut(Neighbours(cubes[0]), pieces) + Exposed(cubes[1..], pieces)
  }

  /** No two cubes of the droplet share a face. */
  predicate Isolated(data: seq<Cube>)
  {
    forall i, j :: 0 <= i < |data| && 0 <= j < |data| ==> Dist(data[i], data[j]) != 1
  }

  /** Every face counts at most once, and when no two cubes share a face
      every face of every cube is exposed. */
  function Part1(data: seq<Cube>): (r: nat)
    ensures r <= 6 * |data|
    ensures Isolated(data) ==> r == 6 * |data|
  {
    ExposedBound(data, ToSet(data));
    IsolatedExposed(data);
    Exposed(data, ToSet(data))
  }

  lemma {:induction false} CountOutNone(cells: seq<Cube>, s: set<Cube>)
    requires forall k :: 0 <= k < |cells| ==> cells[k] !in s
    ensures CountOut(cells, s) == |cells|
  {
    if |cells| > 0 {
      CountOutNone(cells[1..], s);
    }
  }

  /** Cubes whose neighbours are all outside `pieces` expose six faces
      each. */
  lemma {:induction false} AllOpen(cubes: seq<Cube>, pieces: set<Cube>)
    requires forall i, k :: 0 <= i < |cubes| && 0 <= k < 6 ==> Neighbours(cubes[i])[k] !in pieces
    ensures Exposed(cubes, pieces) == 6 * |cubes|
  {
    if |cubes| > 0 {
      AllOpen(cubes[1..], pieces);
      CountOutNone(Neighbours(cubes[0]), pieces);
    }
  }

  lemma IsolatedExposed(data: seq<Cube>)
    ensures Isolated(data) ==> Exposed(data, ToSet(data)) == 6 * |data|
  {
    if Isolated(data) {
      forall i, k | 0 <= i < |data| && 0 <= k < 6
        ensures Neighbours(data[i])[k] !in ToSet(data)
      {
        var n := Neighbours(data[i])[k];
        NeighboursAtDistanceOne(data[i], n);
        forall j | 0 <= j < |data|
          ensures data[j] != n
        {
          assert Dist(data[i], data[j]) != 1;
        }
      }
      AllOpen(data, ToSet(data));
    }
  }

  /** Each cube adds the number of its distinct face neighbours outside
      the droplet, so at most six. */
  lemma {:induction false} ExposedBound(cubes: seq<Cube>, pieces: set<Cube>)
    ensures Exposed(cubes, pieces) <= 6 * |cubes|
    ensures |cubes| > 0 ==> Exposed(cubes, pieces) == |ToSet(Neighbours(cubes[0])) - pieces| + Exposed(cubes[1..], pieces)
  {
    if |cubes| > 0 {
      ExposedBound(cubes[1..], pieces);
      CountOutIsSize(Neighbours(cubes[0]), pieces);
    }
  }

  // ----- bounds -----

  /** The running minimum of the source's loop, from its seed. */
  function MinOf(seed: int, xs: seq<int>): (r: int)
    ensures r <= seed && forall i :: 0 <= i < |xs| ==> r <= xs[i]
    ensures r == seed || exists i :: 0 <= i < |xs| && xs[i] == r
  {
    if |xs| == 0 then seed else Min(MinOf(seed, xs[..|xs| - 1]), xs[|xs| - 1])
  }

  /** The running maximum of the source's loop, from its seed. */
  function MaxOf(seed: int, xs: seq<int>): (r: int)
    ensures r >= seed && forall i :: 0 <= i < |xs| ==> r >= xs[i]
    ensures r == seed || exists i :: 0 <= i < |xs| && xs[i] == r
  {
    if |xs| == 0 then seed else Max(MaxOf(seed, xs[..|xs| - 1]), xs[|xs| - 1])
  }

  function Xs(data: seq<Cube>): (r: seq<int>)
    ensures |r| == |data| && forall i :: 0 <= i < |data| ==> r[i] == data[i].0
  {
    seq(|data|, i requires 0 <= i < |data| => data[i].0)
  }

  function Ys(data: seq<Cube>): (r: seq<int>)
    ensures |r| == |data| && forall i :: 0 <= i < |data| ==> r[i] == data[i].1
  {
    seq(|data|, i requires 0 <= i < |data| => data[i].1)
  }

  function Zs(data: seq<Cube>): (r: seq<int>)
    ensures |r| == |data| && forall i :: 0 <= i < |data| ==> r[i] == data[i].2
  {
    seq(|data|, i requires 0 <= i < |data| => data[i].2)
  }

  /** The bounds of `solve_part2`: per axis, the minimum with the seed 999
      and the maximum with the seed 0. */
  function Bounds(data: seq<Cube>): (r: (Cube, Cube))
  {
    ((MinOf(999, Xs(data)), MinOf(999, Ys(data)), MinOf(999, Zs(data))),
     (MaxOf(0, Xs(data)), MaxOf(0, Ys(data)), MaxOf(0, Zs(data))))
  }

  /** Every cube lies between the bounds, which lie between the seeds and
      the cubes' extremes. */
  lemma BoundsContain(data: seq<Cube>, i: nat)
    requires i < |data|
    ensures var (lo, hi) := Bounds(data);
      lo.0 <= data[i].0 <= hi.0 && lo.1 <= data[i].1 <= hi.1 && lo.2 <= data[i].2 <= hi.2
  {
    assert Xs(data)[i] == data[i].0 && Ys(data)[i] == data[i].1 && Zs(data)[i] == data[i].2;
  }

  // ----- flood fill -----

  /** The droplet and its bounds. */
  datatype Grid = Grid(pieces: set<Cube>, lo: Cube, hi: Cube)

  /** Inside the bounding box grown by one on every side. */
  predicate InBox(g: Grid, c: Cube)
  {
    g.lo.0 - 1 <= c.0 <= g.hi.0 + 1 && g.lo.1 - 1 <= c.1 <= g.hi.1 + 1 && g.lo.2 - 1 <= c.2 <= g.hi.2 + 1
  }

  /** A cell steam may fill. */
  predicate Air(g: Grid, c: Cube)
  {
    InBox(g, c) && c !in g.pieces
  }

  function BoxSet(g: Grid): (r: set<Cube>)
    ensures forall c :: c in r <==> InBox(g, c)
  {
    set x, y, z | g.lo.0 - 1 <= x <= g.hi.0 + 1 && g.lo.1 - 1 <= y <= g.hi.1 + 1 && g.lo.2 - 1 <= z <= g.hi.2 + 1 :: (x, y, z)
  }

  predicate Touches(r: set<Cube>, d: Cube)
  {
    exists i :: 0 <= i < 6 && Neighbours(d)[i] in r
  }

  /** The cells reached from `start` in at most `k` steps through air. */
  function ReachIn(g: Grid, start: Cube, k: nat): set<Cube>
  {
    if k == 0 then {start}
    else
      var r := ReachIn(g, start, k - 1);
      r + set d | d in BoxSet(g) && d !in g.pieces && Touches(r, d)
  }

  ghost predicate Reachable(g: Grid, start: Cube, d: Cube)
  {
    exists k: nat :: d in ReachIn(g, start, k)
  }

  /** One step further from a reachable cell, through a face into air. */
  lemma ReachStep(g: Grid, start: Cube, k: nat, c: Cube, i: nat)
    requires i < 6 && c in ReachIn(g, start, k) && Air(g, Neighbours(c)[i])
    ensures Neighbours(c)[i] in ReachIn(g, start, k + 1)
  {
    var d := Neighbours(c)[i];
    NeighbourBack(c, i);
    assert Neighbours(d)[Opposite(i)] in ReachIn(g, start, k);
  }

  /** Every flooded cell is air reached from the start. */
  ghost predicate FloodedOk(g: Grid, start: Cube, flooded: set<Cube>)
  {
    forall d :: d in flooded ==> Air(g, d) && Reachable(g, start, d)
  }

  /** The queue holds distinct cells, all flooded except the start before
      the first pop. */
  predicate QueueOk(start: Cube, flooded: set<Cube>, queue: seq<Cube>)
  {
    NoDup(queue) && ((queue == [start] && flooded == {}) || forall i :: 0 <= i < |queue| ==> queue[i] in flooded)
  }

  /** Every cell already popped has its air neighbours flooded. */
  ghost predicate Closed(g: Grid, start: Cube, flooded: set<Cube>, queue: seq<Cube>)
  {
    forall c, i :: (c in flooded || c == start) && c !in queue && 0 <= i < 6 && Air(g, Neighbours(c)[i]) ==> Neighbours(c)[i] in flooded
  }

  ghost predicate FloodInv(g: Grid, start: Cube, flooded: set<Cube>, queue: seq<Cube>)
  {
    FloodedOk(g, start, flooded) && QueueOk(start, flooded, queue) && Closed(g, start, flooded, queue)
  }

  /** The inner loop over the neighbours of a popped cell: each one inside
      the box that is not flooded, not a cube and not queued is flooded and
      queued. */
  function Visit(g: Grid, flooded: set<Cube>, queue: seq<Cube>, nbs: seq<Cube>): (r: (set<Cube>, seq<Cube>))
    requires NoDup(queue) && forall i :: 0 <= i < |queue| ==> queue[i] in flooded
    ensures flooded <= r.0 && queue <= r.1 && NoDup(r.1)
    ensures forall i :: 0 <= i < |r.1| ==> r.1[i] in r.0
    ensures forall d :: d in r.0 && d !in flooded ==> Air(g, d) && d in nbs && d in r.1
    ensures forall k :: 0 <= k < |nbs| && Air(g, nbs[k]) ==> nbs[k] in r.0
    ensures r.0 == flooded ==> r.1 == queue
    decreases |nbs|
  {
    if |nbs| == 0 then (flooded, queue)
    else
      var d := nbs[0];
      if !InBox(g, d) || d in flooded || d in g.pieces || d in queue then
        Visit(g, flooded, queue, nbs[1..])
      else
        var r := Visit(g, flooded + {d}, queue + [d], nbs[1..]);
        assert (queue + [d])[|queue|] == d;
        r
  }

  /** The flood's loop: pop the most recently queued cell and visit its
      neighbours, until the queue is empty. */
  function Flood(g: Grid, start: Cube, flooded: set<Cube>, queue: seq<Cube>): (r: set<Cube>)
    requires FloodInv(g, start, flooded, queue)
    ensures FloodInv(g, start, r, [])
    decreases BoxSet(g) - flooded, |queue|
  {
    if |queue| == 0 then flooded
    else
      var c := queue[|queue| - 1];
      var rest := queue[..|queue| - 1];
      var (f, q) := Visit(g, flooded, rest, Neighbours(c));
      FloodStep(g, start, flooded, queue, f, q);
      Flood(g, start, f, q)
  }

  lemma FloodStep(g: Grid, start: Cube, flooded: set<Cube>, queue: seq<Cube>, f: set<Cube>, q: seq<Cube>)
    requires FloodInv(g, start, flooded, queue) && |queue| > 0
    requires var rest := queue[..|queue| - 1];
      NoDup(rest) && (forall i :: 0 <= i < |rest| ==> rest[i] in flooded) &&
      (f, q) == Visit(g, flooded, rest, Neighbours(queue[|queue| - 1]))
    ensures FloodInv(g, start, f, q)
    ensures BoxSet(g) - f < BoxSet(g) - flooded || (f == flooded && |q| < |queue|)
  {
    var c := queue[|queue| - 1];
    var rest := queue[..|queue| - 1];
    assert c in flooded || c == start;
    StepFloodedOk(g, start, flooded, c, f);
    assert queue == rest + [c];
    StepClosed(g, start, flooded, rest, c, f, q);
    if f != flooded {
      var d :| d in f && d !in flooded;
      assert d in BoxSet(g) - flooded;
    }
  }

  /** Cells flooded from a popped cell are reached from the start. */
  lemma StepFloodedOk(g: Grid, start: Cube, flooded: set<Cube>, c: Cube, f: set<Cube>)
    requires FloodedOk(g, start, flooded) && (c in flooded || c == start) && flooded <= f
    requires forall d :: d in f && d !in flooded ==> Air(g, d) && d in Neighbours(c)
    ensures FloodedOk(g, start, f)
  {
    var k: nat :| c in ReachIn(g, start, k) by {
      if c !in flooded {
        assert c in ReachIn(g, start, 0);
      }
    }
    forall d | d in f && d !in flooded
      ensures Reachable(g, start, d)
    {
      var i :| 0 <= i < 6 && Neighbours(c)[i] == d;
      ReachStep(g, start, k, c, i);
    }
  }

  /** Once the popped cell's air neighbours are flooded, every cell off
      the queue is closed again. */
  lemma StepClosed(g: Grid, start: Cube, flooded: set<Cube>, rest: seq<Cube>, c: Cube, f: set<Cube>, q: seq<Cube>)
    requires Closed(g, start, flooded, rest + [c])
    requires flooded <= f && rest <= q
    requires forall d :: d in f && d !in flooded ==> d in q
    requires forall k :: 0 <= k < 6 && Air(g, Neighbours(c)[k]) ==> Neighbours(c)[k] in f
    ensures Closed(g, start, f, q)
  {
    forall c', i | (c' in f || c' == start) && c' !in q && 0 <= i < 6 && Air(g, Neighbours(c')[i])
      ensures Neighbours(c')[i] in f
    {
      if c' != c {
        assert c' !in rest + [c];
      }
    }
  }

  /** Once the queue is empty, everything reachable from the start is the
      start or flooded. */
  lemma {:induction false} ReachFlooded(g: Grid, start: Cube, flooded: set<Cube>, k: nat)
    requires Closed(g, start, flooded, [])
    ensures forall d :: d in ReachIn(g, start, k) ==> d in flooded || d == start
  {
    if k > 0 {
      ReachFlooded(g, start, flooded, k - 1);
      forall d | d in ReachIn(g, start, k)
        ensures d in flooded || d == start
      {
        if d !in ReachIn(g, start, k - 1) {
          var i :| 0 <= i < 6 && Neighbours(d)[i] in ReachIn(g, start, k - 1);
          var c := Neighbours(d)[i];
          NeighbourBack(d, i);
          assert Neighbours(c)[Opposite(i)] == d;
        }
      }
    }
  }

  /** When no cube lies left of the start, the start is flooded too if it
      is air: the flood reaches it back from the cell on its left. */
  lemma StartFlooded(g: Grid, start: Cube, flooded: set<Cube>)
    requires FloodInv(g, start, flooded, []) && start == g.lo
    requires forall p :: p in g.pieces ==> p.0 >= g.lo.0
    requires Air(g, start)
    ensures start in flooded
  {
    var w := Neighbours(start)[1];
    assert Air(g, w);
    ClosedAt(g, start, flooded, [], start, 1);
    NeighbourBack(start, 1);
    assert Neighbours(w)[0] == start;
    ClosedAt(g, start, flooded, [], w, 0);
  }

  /** A closed flood holds every air neighbour of a cell it has finished. */
  lemma ClosedAt(g: Grid, start: Cube, flooded: set<Cube>, queue: seq<Cube>, c: Cube, i: nat)
    requires Closed(g, start, flooded, queue)
    requires (c in flooded || c == start) && c !in queue && i < 6 && Air(g, Neighbours(c)[i])
    ensures Neighbours(c)[i] in flooded
  {
  }

  /** The flood fills exactly the air cells reachable from the corner of
      the box through air. */
  lemma FloodIsReach(g: Grid, d: Cube)
    requires forall p :: p in g.pieces ==> p.0 >= g.lo.0
    ensures var f := Flood(g, g.lo, {}, [g.lo]);
      d in f <==> Air(g, d) && Reachable(g, g.lo, d)
  {
    var f := Flood(g, g.lo, {}, [g.lo]);
    if Air(g, d) && Reachable(g, g.lo, d) {
      var k: nat :| d in ReachIn(g, g.lo, k);
      ReachFlooded(g, g.lo, f, k);
      if d == g.lo {
        StartFlooded(g, g.lo, f);
      }
    }
  }

  /** `solve_part2`: flood from the low corner of the bounds, then count
      the faces of the cubes whose neighbour was flooded. */
  function Flooded(data: seq<Cube>): set<Cube>
  {
    var (lo, hi) := Bounds(data);
    var g := Grid(ToSet(data), lo, hi);
    Flood(g, lo, {}, [lo])
  }

  function Touching(cubes: seq<Cube>, flooded: set<Cube>): nat
  {
    if |cubes| == 0 then 0 else CountIn(Neighbours(cubes[0]), flooded) + Touching(cubes[1..], flooded)
  }

  /** The air cells of the grown box that steam reaches from its low
      corner without passing through a cube. */
  ghost function Outside(data: seq<Cube>): set<Cube>
  {
    var (lo, hi) := Bounds(data);
    var g := Grid(ToSet(data), lo, hi);
    set d | d in BoxSet(g) && Air(g, d) && Reachable(g, lo, d)
  }

  /** The faces touching the outside air, which are some of the exposed
      faces. */
  function Part2(data: seq<Cube>): (r: nat)
    ensures r == Touching(data, Outside(data))
    ensures r <= Part1(data)
  {
    FloodedIsOutside(data);
    TouchingAtMostExposed(data, ToSet(data), Flooded(data));
    Touching(data, Flooded(data))
  }

  lemma FloodedIsOutside(data: seq<Cube>)
    ensures Flooded(data) == Outside(data)
    ensures Flooded(data) !! ToSet(data)
  {
    forall d | d in Flooded(data)
      ensures d in Outside(data) && d !in ToSet(data)
    {
      FloodedMeaning(data, d);
    }
    forall d | d in Outside(data)
      ensures d in Flooded(data)
    {
      FloodedMeaning(data, d);
    }
  }

  /** The flood never enters a cube of the droplet and stays inside the
      grown box; it holds exactly the air cells reachable from the low
      corner. */
  lemma FloodedMeaning(data: seq<Cube>, d: Cube)
    ensures var (lo, hi) := Bounds(data);
      var g := Grid(ToSet(data), lo, hi);
      (d in Flooded(data) <==> Air(g, d) && Reachable(g, lo, d))
      && (d in Flooded(data) ==> d !in data && InBox(g, d))
  {
    var (lo, hi) := Bounds(data);
    var g := Grid(ToSet(data), lo, hi);
    forall p | p in g.pieces
      ensures p.0 >= lo.0
    {
      var i :| 0 <= i < |data| && data[i] == p;
      BoundsContain(data, i);
    }
    FloodIsReach(g, d);
  }

  lemma {:induction false} TouchingAtMostExposed(cubes: seq<Cube>, pieces: set<Cube>, flooded: set<Cube>)
    requires pieces !! flooded
    ensures Touching(cubes, flooded) <= Exposed(cubes, pieces)
  {
    if |cubes| > 0 {
      TouchingAtMostExposed(cubes[1..], pieces, flooded);
      CountInDisjoint(Neighbours(cubes[0]), pieces, flooded);
    }
  }
}
