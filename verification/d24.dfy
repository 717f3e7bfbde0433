/** Blizzard basin: a walled valley whose interior is swept by blizzards
    that move one cell a minute and wrap round at the walls. The
    expedition enters at the gap in the top wall, leaves at the gap in
    the bottom wall, and every minute stays or steps to a free neighbour. */
module BlizzardBasin {
  import opened Common
  import opened Text

  /** A grid position as (row, column); row 0 is the top wall. The source
      uses `usize`; the model uses `int` and states where the source would
      step below zero. */
  type Coords = (int, int)

  datatype Direction = Left | Right | Up | Down

  datatype Blizzard = Blizzard(pos: Coords, dir: Direction)

  /** The valley: its size and the blizzards, one per cell and direction.
      The source keeps a `HashSet<Direction>` per cell; the set of
      (cell, direction) pairs holds the same information. */
  datatype Maze = Maze(rows: int, cols: int, blizzards: set<Blizzard>)

  // ----- directions -----

  function ToChar(d: Direction): char
  {
    match d
    case Left => '<'
    case Right => '>'
    case Up => '^'
    case Down => 'v'
  }

  function TryFrom(c: char): (r: Option<Direction>)
    ensures r.None? <==> c !in ['<', '>', '^', 'v']
  {
    match c
    case '<' => Some(Left)
    case '>' => Some(Right)
    case '^' => Some(Up)
    case 'v' => Some(Down)
    case _ => None
  }

  /** Reading a direction's character gives the direction back, and a
      character that reads as a direction is that direction's character. */
  lemma CharRoundTrip(d: Direction, c: char)
    ensures TryFrom(ToChar(d)) == Some(d)
    ensures TryFrom(c) == Some(d) <==> ToChar(d) == c
  {
  }

  /** `Direction::of`: the neighbouring cell one step away. */
  function Of(d: Direction, p: Coords): (r: Coords)
    ensures Abs(r.0 - p.0) + Abs(r.1 - p.1) == 1
  {
    match d
    case Left => (p.0, p.1 - 1)
    case Right => (p.0, p.1 + 1)
    case Up => (p.0 - 1, p.1)
    case Down => (p.0 + 1, p.1)
  }

  function Opposite(d: Direction): Direction
  {
    match d
    case Left => Right
    case Right => Left
    case Up => Down
    case Down => Up
  }

  lemma OppositeOf(d: Direction, p: Coords)
    ensures Of(Opposite(d), Of(d, p)) == p
    ensures Opposite(Opposite(d)) == d
  {
  }

  // ----- the valley -----

  function Start(): Coords
  {
    (0, 1)
  }

  function Finish(m: Maze): Coords
  {
    (m.rows - 1, m.cols - 2)
  }

  predicate InGrid(m: Maze, p: Coords)
  {
    0 <= p.0 < m.rows && 0 <= p.1 < m.cols
  }

  /** Inside the walls. */
  predicate Inside(m: Maze, p: Coords)
  {
    1 <= p.0 <= m.rows - 2 && 1 <= p.1 <= m.cols - 2
  }

  /** Every blizzard is inside the walls, as in every puzzle input. */
  predicate Interior(m: Maze)
  {
    forall b :: b in m.blizzards ==> Inside(m, b.pos)
  }

  /** A cell the expedition may occupy: the two gaps and the inside. */
  predicate Open(m: Maze, p: Coords)
  {
    p == Start() || p == Finish(m) || Inside(m, p)
  }

  /** The gaps sit in the top and bottom walls, apart from each other and
      from the inside, each right next to an inside corner. */
  lemma GapsInWalls(m: Maze)
    requires m.rows >= 3 && m.cols >= 3
    ensures Start() != Finish(m)
    ensures InGrid(m, Start()) && InGrid(m, Finish(m))
    ensures !Inside(m, Start()) && !Inside(m, Finish(m))
    ensures Of(Down, Start()) == (1, 1) && Inside(m, Of(Down, Start()))
    ensures Of(Up, Finish(m)) == (m.rows - 2, m.cols - 2) && Inside(m, Of(Up, Finish(m)))
  {
  }

  /** No blizzard on the cell (`can_wait_at` once the blizzards moved). */
  predicate Clear(m: Maze, p: Coords)
  {
    Blizzard(p, Left) !in m.blizzards && Blizzard(p, Right) !in m.blizzards
    && Blizzard(p, Up) !in m.blizzards && Blizzard(p, Down) !in m.blizzards
  }

  lemma ClearIff(m: Maze, p: Coords)
    ensures Clear(m, p) <==> forall b :: b in m.blizzards ==> b.pos != p
  {
    if !Clear(m, p) {
    } else {
      forall b | b in m.blizzards ensures b.pos != p {
        match b.dir
        case Left =>
        case Right =>
        case Up =>
        case Down =>
      }
    }
  }

  // ----- blizzards -----

  /** `wrapped_coords`: a step onto a wall re-enters on the far side. */
  function Wrapped(m: Maze, p: Coords): (r: Coords)
    ensures p.0 == 0 ==> r.0 == m.rows - 2
    ensures p.0 == m.rows - 1 && p.0 != 0 ==> r.0 == 1
    ensures p.0 != 0 && p.0 != m.rows - 1 ==> r.0 == p.0
    ensures p.1 == 0 ==> r.1 == m.cols - 2
    ensures p.1 == m.cols - 1 && p.1 != 0 ==> r.1 == 1
    ensures p.1 != 0 && p.1 != m.cols - 1 ==> r.1 == p.1
  {
    var row := if p.0 == 0 then m.rows - 2 else if p.0 == m.rows - 1 then 1 else p.0;
    var col := if p.1 == 0 then m.cols - 2 else if p.1 == m.cols - 1 then 1 else p.1;
    (row, col)
  }

  /** Where one blizzard is a minute later. */
  function Moved(m: Maze, b: Blizzard): Blizzard
  {
    Blizzard(Wrapped(m, Of(b.dir, b.pos)), b.dir)
  }

  /** The source's loop body runs without a panic for this blizzard: its
      step neither goes below zero nor leaves the grid, and the wrapped
      cell indexes the new grid. */
  predicate Steppable(m: Maze, b: Blizzard)
  {
    var t := Of(b.dir, b.pos);
    InGrid(m, b.pos) && InGrid(m, t) && InGrid(m, Wrapped(m, t))
  }

  function MoveAll(m: Maze): Maze
  {
    Maze(m.rows, m.cols, set b | b in m.blizzards :: Moved(m, b))
  }

  /** `move_blizzards`: every blizzard moves one step; no result where the
      source would panic. */
  function MoveBlizzards(m: Maze): (r: Option<Maze>)
    ensures r.Some? <==> forall b :: b in m.blizzards ==> Steppable(m, b)
    ensures r.Some? ==> r.value.rows == m.rows && r.value.cols == m.cols
    ensures r.Some? ==> forall b :: b in r.value.blizzards <==> exists a :: a in m.blizzards && b == Moved(m, a)
  {
    if forall b | b in m.blizzards :: Steppable(m, b) then Some(MoveAll(m)) else None
  }

  /** A blizzard inside the walls takes one step in its own direction when
      that stays inside, and otherwise re-enters at the far inside edge. */
  lemma MovedInside(m: Maze, b: Blizzard)
    requires Inside(m, b.pos)
    ensures Steppable(m, b)
    ensures Moved(m, b).dir == b.dir && Inside(m, Moved(m, b).pos)
    ensures Inside(m, Of(b.dir, b.pos)) ==> Moved(m, b).pos == Of(b.dir, b.pos)
    ensures !Inside(m, Of(b.dir, b.pos)) ==> Moved(m, b).pos == FarEdge(m, b)
  {
  }

  /** The inside cell a blizzard re-enters at after hitting the wall. */
  function FarEdge(m: Maze, b: Blizzard): Coords
  {
    match b.dir
    case Left => (b.pos.0, m.cols - 2)
    case Right => (b.pos.0, 1)
    case Up => (m.rows - 2, b.pos.1)
    case Down => (1, b.pos.1)
  }

  /** The step back, undoing `Moved` inside the walls. */
  function Unmoved(m: Maze, b: Blizzard): Blizzard
  {
    Blizzard(Wrapped(m, Of(Opposite(b.dir), b.pos)), b.dir)
  }

  lemma UnmovedMoved(m: Maze, b: Blizzard)
    requires Inside(m, b.pos)
    ensures Unmoved(m, Moved(m, b)) == b
  {
  }

  /** Inside the walls, every cell and direction is reached by exactly
      one blizzard position a minute earlier. */
  lemma MovedUnmoved(m: Maze, b: Blizzard)
    requires Inside(m, b.pos)
    ensures Inside(m, Unmoved(m, b).pos) && Moved(m, Unmoved(m, b)) == b
  {
  }

  /** With every blizzard inside the walls the source does not panic, and
      the blizzards stay inside. */
  lemma MoveInterior(m: Maze)
    requires Interior(m)
    ensures MoveBlizzards(m) == Some(MoveAll(m))
    ensures Interior(MoveAll(m))
  {
    forall b | b in m.blizzards ensures Steppable(m, b) {
      MovedInside(m, b);
    }
    forall b | b in MoveAll(m).blizzards ensures Inside(m, b.pos) {
      var a :| a in m.blizzards && b == Moved(m, a);
      MovedInside(m, a);
    }
  }

  /** The blizzards going one way. */
  function Going(s: set<Blizzard>, d: Direction): set<Blizzard>
  {
    set b | b in s && b.dir == d
  }

  /** No blizzard is lost or merged: with every blizzard inside the walls,
      a minute keeps the number going each way, and so the total. */
  lemma MoveKeepsCounts(m: Maze, d: Direction)
    requires Interior(m)
    ensures |Going(MoveAll(m).blizzards, d)| == |Going(m.blizzards, d)|
    ensures |MoveAll(m).blizzards| == |m.blizzards|
  {
    forall a, b | a in m.blizzards && b in m.blizzards && Moved(m, a) == Moved(m, b) ensures a == b {
      UnmovedMoved(m, a);
      UnmovedMoved(m, b);
    }
    ImageSize(m, m.blizzards);
    ImageSize(m, Going(m.blizzards, d));
    assert Going(MoveAll(m).blizzards, d) == set b | b in Going(m.blizzards, d) :: Moved(m, b);
  }

  /** `Moved` is one-to-one on `s`, so the image is as large as `s`. */
  lemma {:induction false} ImageSize(m: Maze, s: set<Blizzard>)
    requires forall a, b :: a in s && b in s && Moved(m, a) == Moved(m, b) ==> a == b
    ensures |set b | b in s :: Moved(m, b)| == |s|
    decreases |s|
  {
    if s != {} {
      var a :| a in s;
      var rest := s - {a};
      ImageSize(m, rest);
      var img := set b | b in s :: Moved(m, b);
      var restImg := set b | b in rest :: Moved(m, b);
      assert img == restImg + {Moved(m, a)};
      assert Moved(m, a) !in restImg;
    }
  }

  // ----- the expedition's moves -----

  /** `is_direction_free`, asked once the blizzards have moved. */
  function DirectionFree(m: Maze, p: Coords, d: Direction): bool
  {
    if p == Start() && d != Down then false
    else if d == Down && p == Of(Up, Finish(m)) then true
    else if p == Finish(m) && d != Up then false
    else if d == Up && p == Of(Down, Start()) then true
    else if (match d
             case Left => p.1 <= 1
             case Right => p.1 >= m.cols - 2
             case Up => p.0 <= 1
             case Down => p.0 >= m.rows - 2) then false
    else Clear(m, Of(d, p))
  }

  /** `available_moves_at`: staying when the cell is clear, then each free
      direction in the order left, up, right, down. */
  function MovesAt(m: Maze, p: Coords): (r: seq<Coords>)
    ensures |r| <= 5
  {
    (if Clear(m, p) then [p] else [])
    + (if DirectionFree(m, p, Left) then [Of(Left, p)] else [])
    + (if DirectionFree(m, p, Up) then [Of(Up, p)] else [])
    + (if DirectionFree(m, p, Right) then [Of(Right, p)] else [])
    + (if DirectionFree(m, p, Down) then [Of(Down, p)] else [])
  }

  /** The offered cells are the current one when clear and the
      neighbours in the free directions, and nothing else. */
  lemma MovesAtIff(m: Maze, p: Coords, c: Coords)
    ensures c in MovesAt(m, p) <==>
      (c == p && Clear(m, p)) || exists d :: DirectionFree(m, p, d) && c == Of(d, p)
  {
    if c in MovesAt(m, p) && !(c == p && Clear(m, p)) {
      if DirectionFree(m, p, Left) && c == Of(Left, p) {
      } else if DirectionFree(m, p, Up) && c == Of(Up, p) {
      } else if DirectionFree(m, p, Right) && c == Of(Right, p) {
      } else {
        assert DirectionFree(m, p, Down) && c == Of(Down, p);
      }
    }
  }

  /** From the entrance the only step is down, and from the exit the only
      step is up. */
  lemma GapMoves(m: Maze, d: Direction)
    requires m.rows >= 3 && m.cols >= 3
    ensures DirectionFree(m, Start(), d) ==> d == Down
    ensures DirectionFree(m, Finish(m), d) ==> d == Up
  {
    GapsInWalls(m);
  }

  /** A free direction from an open cell never leads into a wall: it leads
      to a gap, or to a clear cell inside. Conversely, every clear inside
      neighbour, and the gap next to the cell, is free. */
  lemma FreeIff(m: Maze, p: Coords, d: Direction)
    requires m.rows >= 3 && m.cols >= 3 && Open(m, p) && Interior(m)
    ensures DirectionFree(m, p, d) <==>
      ((Of(d, p) == Start() || Of(d, p) == Finish(m) || Inside(m, Of(d, p))) && Clear(m, Of(d, p)))
  {
    GapsInWalls(m);
    var t := Of(d, p);
    if t == Start() || t == Finish(m) {
      assert !Inside(m, t);
    }
  }

  /** Every cell offered from an open cell is open and clear. */
  lemma MovesOpen(m: Maze, p: Coords, c: Coords)
    requires m.rows >= 3 && m.cols >= 3 && Open(m, p) && Interior(m)
    requires c in MovesAt(m, p)
    ensures Open(m, c) && Clear(m, c)
  {
    MovesAtIff(m, p, c);
    if !(c == p && Clear(m, p)) {
      var d :| DirectionFree(m, p, d) && c == Of(d, p);
      FreeIff(m, p, d);
    }
  }

  // ----- walks and the reached sets -----

  /** What the expedition is offered at minute `t` from a cell. */
  type Offers = (nat, Coords) -> seq<Coords>

  /** The cells reachable at minute `t` from any of `reached`. */
  function SpreadBy(o: Offers, t: nat, reached: set<Coords>): set<Coords>
  {
    set p, c | p in reached && c in o(t, p) :: c
  }

  /** A cell reached in a minute was offered from a cell reached before. */
  lemma SpreadSource(o: Offers, t: nat, reached: set<Coords>, c: Coords) returns (p: Coords)
    requires c in SpreadBy(o, t, reached)
    ensures p in reached && c in o(t, p)
  {
    p :| p in reached && c in o(t, p);
  }

  lemma SpreadInto(o: Offers, t: nat, reached: set<Coords>, p: Coords, c: Coords)
    requires p in reached && c in o(t, p)
    ensures c in SpreadBy(o, t, reached)
  {
  }

  /** The cells the expedition may be in after `t` minutes from `from`. */
  function ReachBy(o: Offers, from: Coords, t: nat): set<Coords>
  {
    if t == 0 then {from} else SpreadBy(o, t, ReachBy(o, from, t - 1))
  }

  /** A walk: it starts at `from`, and each minute takes an offered move. */
  predicate WalkBy(o: Offers, from: Coords, path: seq<Coords>)
  {
    |path| >= 1 && path[0] == from
    && forall i :: 0 <= i < |path| - 1 ==> Stepped(o, path, i)
  }

  /** Minute `i + 1` of the walk takes a move offered from `path[i]`. */
  predicate Stepped(o: Offers, path: seq<Coords>, i: nat)
    requires i + 1 < |path|
  {
    path[i + 1] in o(i + 1, path[i])
  }

  /** Every walk ends in the reached set of its length. */
  lemma {:induction false} WalkReaches(o: Offers, from: Coords, path: seq<Coords>)
    requires WalkBy(o, from, path)
    ensures path[|path| - 1] in ReachBy(o, from, |path| - 1)
  {
    var t := |path| - 1;
    if t > 0 {
      var prefix := path[..t];
      WalkPrefix(o, from, path);
      WalkReaches(o, from, prefix);
      SpreadInto(o, t, ReachBy(o, from, t - 1), path[t - 1], path[t]);
    }
  }

  /** A walk cut short by a minute is a walk, and its last minute took an
      offered move. */
  lemma WalkPrefix(o: Offers, from: Coords, path: seq<Coords>)
    requires WalkBy(o, from, path) && |path| >= 2
    ensures WalkBy(o, from, path[..|path| - 1])
    ensures path[|path| - 1] in o(|path| - 1, path[..|path| - 1][|path| - 2])
  {
    var t := |path| - 1;
    var prefix := path[..t];
    assert Stepped(o, path, t - 1);
    forall i | 0 <= i < t - 1 ensures Stepped(o, prefix, i) {
      assert Stepped(o, path, i) && prefix[i] == path[i] && prefix[i + 1] == path[i + 1];
    }
  }

  /** Every reached cell ends some walk of that length. */
  lemma {:induction false} ReachWalk(o: Offers, from: Coords, t: nat, c: Coords) returns (path: seq<Coords>)
    requires c in ReachBy(o, from, t)
    ensures WalkBy(o, from, path) && |path| == t + 1 && path[t] == c
  {
    if t == 0 {
      path := [c];
    } else {
      var p := SpreadSource(o, t, ReachBy(o, from, t - 1), c);
      var prefix := ReachWalk(o, from, t - 1, p);
      path := prefix + [c];
      assert prefix[|prefix| - 1] == p;
      WalkSnoc(o, from, prefix, c);
    }
  }

  lemma WalkSnoc(o: Offers, from: Coords, prefix: seq<Coords>, c: Coords)
    requires WalkBy(o, from, prefix)
    requires c in o(|prefix|, prefix[|prefix| - 1])
    ensures WalkBy(o, from, prefix + [c])
  {
    var path := prefix + [c];
    forall i | 0 <= i < |path| - 1 ensures Stepped(o, path, i) {
      if i < |prefix| - 1 {
        assert Stepped(o, prefix, i);
        assert path[i + 1] == prefix[i + 1] && path[i] == prefix[i];
      }
    }
  }

  // ----- flooding the valley -----

  /** The blizzards after `t` minutes. */
  function BlizzardsAfter(m: Maze, t: nat): Maze
  {
    if t == 0 then m else MoveAll(BlizzardsAfter(m, t - 1))
  }

  lemma {:induction false} BlizzardsAfterAdd(m: Maze, a: nat, b: nat)
    ensures BlizzardsAfter(BlizzardsAfter(m, a), b) == BlizzardsAfter(m, a + b)
    decreases b
  {
    if b > 0 {
      BlizzardsAfterAdd(m, a, b - 1);
    }
  }

  lemma {:induction false} BlizzardsInterior(m: Maze, t: nat)
    requires Interior(m)
    ensures Interior(BlizzardsAfter(m, t))
    ensures BlizzardsAfter(m, t).rows == m.rows && BlizzardsAfter(m, t).cols == m.cols
  {
    if t > 0 {
      BlizzardsInterior(m, t - 1);
      MoveInterior(BlizzardsAfter(m, t - 1));
    }
  }

  /** The moves offered in the valley `m` at minute `t`, once the
      blizzards have moved `t` times. */
  function Offered(m: Maze): Offers
  {
    (t: nat, p: Coords) => MovesAt(BlizzardsAfter(m, t), p)
  }

  function Reach(m: Maze, from: Coords, t: nat): set<Coords>
  {
    ReachBy(Offered(m), from, t)
  }

  /** A walk through the valley. Starting on an open cell of a valley
      whose blizzards are inside the walls, every later cell of a walk is
      open and free of blizzards at the minute the expedition stands on it. */
  predicate Walk(m: Maze, from: Coords, path: seq<Coords>)
    ensures Walk(m, from, path) && m.rows >= 3 && m.cols >= 3 && Interior(m) && Open(m, from) ==>
      forall i :: 0 < i < |path| ==> Open(m, path[i]) && Clear(BlizzardsAfter(m, i), path[i])
  {
    if WalkBy(Offered(m), from, path) && m.rows >= 3 && m.cols >= 3 && Interior(m) && Open(m, from) then
      assert forall i :: 0 < i < |path| ==> Open(m, path[i]) && Clear(BlizzardsAfter(m, i), path[i]) by {
        forall i | 0 < i < |path| ensures Open(m, path[i]) && Clear(BlizzardsAfter(m, i), path[i]) {
          WalkOpen(m, from, path, i);
        }
      }
      true
    else WalkBy(Offered(m), from, path)
  }

  /** The `i`th cell of a walk from an open cell is open, and clear at
      minute `i` when `i > 0`. */
  lemma {:induction false} WalkOpen(m: Maze, from: Coords, path: seq<Coords>, i: nat)
    requires m.rows >= 3 && m.cols >= 3 && Interior(m) && Open(m, from)
    requires WalkBy(Offered(m), from, path) && i < |path|
    ensures Open(m, path[i]) && (i > 0 ==> Clear(BlizzardsAfter(m, i), path[i]))
  {
    if i > 0 {
      WalkOpen(m, from, path, i - 1);
      var b := BlizzardsAfter(m, i);
      assert path[i] in MovesAt(b, path[i - 1]) by {
        assert Stepped(Offered(m), path, i - 1);
      }
      BlizzardsInterior(m, i);
      OpenStep(m, b, path[i - 1], path[i]);
    }
  }

  /** A move offered from an open cell, with the blizzards `b` of some
      minute of `m`, lands on an open cell free of those blizzards. */
  lemma OpenStep(m: Maze, b: Maze, p: Coords, c: Coords)
    requires m.rows >= 3 && m.cols >= 3 && Open(m, p)
    requires b.rows == m.rows && b.cols == m.cols && Interior(b)
    requires c in MovesAt(b, p)
    ensures Open(m, c) && Clear(b, c)
  {
    assert Open(b, p);
    MovesOpen(b, p, c);
  }

  /** The inner loop of `flood_maze`: every reached cell adds the moves
      offered from it, with the blizzards `m` already moved. */
  function Spread(m: Maze, reached: set<Coords>): set<Coords>
  {
    set p, c | p in reached && c in MovesAt(m, p) :: c
  }

  /** The state of `flood_maze` between minutes: the blizzards and the
      cells the expedition may be in. */
  datatype Flood = Flood(maze: Maze, reached: set<Coords>)

  /** One minute: the blizzards move, then every reached cell spreads. */
  function Minute(s: Flood): Flood
  {
    var m := MoveAll(s.maze);
    Flood(m, Spread(m, s.reached))
  }

  function Iterate(f: Flood -> Flood, s: Flood, n: nat): Flood
  {
    if n == 0 then s else f(Iterate(f, s, n - 1))
  }

  /** The loop of `flood_maze` from minute `time`: stop as soon as `to`
      is reached, else let a minute pass. `fuel` bounds the minutes. */
  function Search(f: Flood -> Flood, s: Flood, to: Coords, time: nat, fuel: nat): Option<(nat, Flood)>
    decreases fuel
  {
    if to in s.reached then Some((time, s))
    else if fuel == 0 then None
    else Search(f, f(s), to, time + 1, fuel - 1)
  }

  /** The search reports the first minute, from `k` on, at which `to` is
      reached, with the state of that minute; and it reports one whenever
      such a minute lies within the fuel. */
  lemma {:induction false} SearchSound(f: Flood -> Flood, s0: Flood, to: Coords, k: nat, fuel: nat)
    ensures var r := Search(f, Iterate(f, s0, k), to, k, fuel);
      r.Some? ==> (r.value.0 >= k && r.value.1 == Iterate(f, s0, r.value.0)
        && to in Iterate(f, s0, r.value.0).reached
        && forall j :: k <= j < r.value.0 ==> to !in Iterate(f, s0, j).reached)
    ensures (exists j :: k <= j <= k + fuel && to in Iterate(f, s0, j).reached)
      ==> Search(f, Iterate(f, s0, k), to, k, fuel).Some?
    decreases fuel
  {
    var s := Iterate(f, s0, k);
    if to !in s.reached && fuel > 0 {
      assert Iterate(f, s0, k + 1) == f(s);
      SearchSound(f, s0, to, k + 1, fuel - 1);
      if exists j :: k <= j <= k + fuel && to in Iterate(f, s0, j).reached {
        var j :| k <= j <= k + fuel && to in Iterate(f, s0, j).reached;
        assert j != k;
      }
    }
  }

  /** The source's loop state after `t` minutes holds the blizzards after
      `t` minutes and the cells reached by then. */
  lemma {:induction false} MinuteState(m: Maze, from: Coords, t: nat)
    ensures Iterate(Minute, Flood(m, {from}), t) == Flood(BlizzardsAfter(m, t), Reach(m, from, t))
  {
    if t > 0 {
      MinuteState(m, from, t - 1);
      SpreadOffered(m, t, Reach(m, from, t - 1));
    }
  }

  lemma SpreadOffered(m: Maze, t: nat, reached: set<Coords>)
    ensures Spread(BlizzardsAfter(m, t), reached) == SpreadBy(Offered(m), t, reached)
  {
    var o := Offered(m);
    forall c | c in SpreadBy(o, t, reached) ensures c in Spread(BlizzardsAfter(m, t), reached) {
      var p := SpreadSource(o, t, reached, c);
    }
    forall c | c in Spread(BlizzardsAfter(m, t), reached) ensures c in SpreadBy(o, t, reached) {
      var p :| p in reached && c in MovesAt(BlizzardsAfter(m, t), p);
      SpreadInto(o, t, reached, p, c);
    }
  }

  /** `flood_maze`: the first minute at which `to` is reached and the
      blizzards of that minute, which the next leg starts from. */
  function FloodMaze(m: Maze, from: Coords, to: Coords, fuel: nat): Option<(nat, Maze)>
  {
    var r := Search(Minute, Flood(m, {from}), to, 0, fuel);
    if r.Some? then Some((r.value.0, r.value.1.maze)) else None
  }

  /** `to` is first reached from `from` after `t` minutes. */
  predicate First(m: Maze, from: Coords, to: Coords, t: nat)
  {
    to in Reach(m, from, t) && forall j :: 0 <= j < t ==> to !in Reach(m, from, j)
  }

  /** The leg reports the first minute at which `to` is reached, with the
      blizzards of that minute. */
  lemma FloodFirst(m: Maze, from: Coords, to: Coords, fuel: nat)
    ensures var r := FloodMaze(m, from, to, fuel);
      r.Some? ==> (r.value.1 == BlizzardsAfter(m, r.value.0) && First(m, from, to, r.value.0))
  {
    var s0 := Flood(m, {from});
    SearchSound(Minute, s0, to, 0, fuel);
    var r := FloodMaze(m, from, to, fuel);
    if r.Some? {
      MinuteState(m, from, r.value.0);
      forall j | 0 <= j < r.value.0 ensures to !in Reach(m, from, j) {
        MinuteState(m, from, j);
      }
    }
  }

  /** The leg reports an answer whenever `to` is reached within `fuel`
      minutes. */
  lemma FloodComplete(m: Maze, from: Coords, to: Coords, fuel: nat, j: nat)
    requires j <= fuel && to in Reach(m, from, j)
    ensures FloodMaze(m, from, to, fuel).Some?
  {
    SearchSound(Minute, Flood(m, {from}), to, 0, fuel);
    MinuteState(m, from, j);
  }

  /** The leg reports the fewest minutes of any walk from `from` to `to`,
      and leaves the blizzards of that minute. */
  lemma FloodFewest(m: Maze, from: Coords, to: Coords, fuel: nat)
    ensures var r := FloodMaze(m, from, to, fuel);
      r.Some? ==> (r.value.1 == BlizzardsAfter(m, r.value.0)
        && (exists path :: Walk(m, from, path) && |path| == r.value.0 + 1 && path[r.value.0] == to)
        && forall path :: Walk(m, from, path) && path[|path| - 1] == to ==> |path| > r.value.0)
  {
    FloodFirst(m, from, to, fuel);
    var r := FloodMaze(m, from, to, fuel);
    if r.Some? {
      var t := r.value.0;
      var path := ReachWalk(Offered(m), from, t, to);
      forall q | Walk(m, from, q) && q[|q| - 1] == to ensures |q| > t {
        WalkReaches(Offered(m), from, q);
        assert to in Reach(m, from, |q| - 1);
      }
    }
  }

  /** The leg finds an answer whenever some walk reaches `to` within
      `fuel` minutes. */
  lemma FloodFinds(m: Maze, from: Coords, to: Coords, fuel: nat, path: seq<Coords>)
    requires Walk(m, from, path) && |path| <= fuel + 1 && path[|path| - 1] == to
    ensures FloodMaze(m, from, to, fuel).Some?
  {
    var o := Offered(m);
    assert WalkBy(o, from, path);
    WalkReaches(o, from, path);
    assert to in Reach(m, from, |path| - 1);
    FloodComplete(m, from, to, fuel, |path| - 1);
  }

  // ----- reading the valley and the answers -----

  /** A direction character beyond the first line's length, which the
      source would write past the end of its grid row. */
  predicate Overflows(ls: seq<string>)
    requires ls != []
  {
    exists r, c :: 0 <= r < |ls| && |ls[0]| <= c < |ls[r]| && TryFrom(ls[r][c]).Some?
  }

  /** `Maze::from_str`: as many rows as lines, as many columns as the
      first line has characters, and a blizzard for every direction
      character. No result where the source would panic. */
  function ParseMaze(input: string): (r: Option<Maze>)
    ensures r.None? <==> Lines(input) == [] || Overflows(Lines(input))
    ensures r.Some? ==> (r.value.rows == |Lines(input)| && r.value.cols == |Lines(input)[0]|
      && forall b :: b in r.value.blizzards <==>
        (0 <= b.pos.0 < |Lines(input)| && 0 <= b.pos.1 < |Lines(input)[b.pos.0]|
         && TryFrom(Lines(input)[b.pos.0][b.pos.1]) == Some(b.dir)))
  {
    var ls := Lines(input);
    if ls == [] || Overflows(ls) then None
    else
      var bs := set r: int, c: int | 0 <= r < |ls| && 0 <= c < |ls[r]| && TryFrom(ls[r][c]).Some?
        :: Blizzard((r, c), TryFrom(ls[r][c]).value);
      assert forall b: Blizzard :: b in bs <==>
        (0 <= b.pos.0 < |ls| && 0 <= b.pos.1 < |ls[b.pos.0]| && TryFrom(ls[b.pos.0][b.pos.1]) == Some(b.dir)) by {
        forall b: Blizzard | 0 <= b.pos.0 < |ls| && 0 <= b.pos.1 < |ls[b.pos.0]| && TryFrom(ls[b.pos.0][b.pos.1]) == Some(b.dir)
          ensures b in bs
        {
          assert b == Blizzard((b.pos.0, b.pos.1), TryFrom(ls[b.pos.0][b.pos.1]).value);
        }
      }
      Some(Maze(|ls|, |ls[0]|, bs))
  }

  /** The source runs a leg without a panic: at least two rows and two
      columns for the gaps, and every blizzard inside the walls. */
  predicate Runs(m: Maze)
  {
    m.rows >= 2 && m.cols >= 2 && Interior(m)
  }

  /** `solve_part1`: the fewest minutes from the entrance to the exit;
      `fuel` bounds the minutes searched. An answer is the first minute at
      which the exit is reachable, and there is one whenever the exit is
      reachable within the fuel in a valley the source runs on. */
  function Part1(input: string, fuel: nat): (r: Option<nat>)
    ensures r.Some? ==> (ParseMaze(input).Some? && Runs(ParseMaze(input).value)
      && First(ParseMaze(input).value, Start(), Finish(ParseMaze(input).value), r.value))
    ensures ParseMaze(input).Some? && Runs(ParseMaze(input).value) ==>
      forall j: nat :: j <= fuel && Finish(ParseMaze(input).value) in Reach(ParseMaze(input).value, Start(), j) ==> r.Some?
  {
    var m := ParseMaze(input);
    if m.None? || !Runs(m.value) then None
    else
      var r := FloodMaze(m.value, Start(), Finish(m.value), fuel);
      FloodFirst(m.value, Start(), Finish(m.value), fuel);
      assert forall j: nat :: j <= fuel && Finish(m.value) in Reach(m.value, Start(), j) ==> r.Some? by {
        forall j: nat | j <= fuel && Finish(m.value) in Reach(m.value, Start(), j) ensures r.Some? {
          FloodComplete(m.value, Start(), Finish(m.value), fuel, j);
        }
      }
      if r.None? then None else Some(r.value.0)
  }

  /** The outcome of the three legs of `solve_part2`: the minutes of
      each, and the blizzards at the exit and back at the entrance. */
  datatype Trip = Trip(out: nat, back: nat, again: nat, atExit: Maze, atEntrance: Maze)

  /** The three legs of `solve_part2`: to the exit, back to the entrance
      and to the exit again, each starting from the blizzards the last
      one left. Each leg takes the fewest minutes for its trip given the
      blizzards at the minute it starts, which are those after the earlier
      legs. */
  function Legs(m: Maze, fuel: nat): (r: Option<Trip>)
    ensures r.Some? ==> TripSound(m, r.value)
  {
    var s := Start();
    var f := Finish(m);
    var r1 := FloodMaze(m, s, f, fuel);
    if r1.None? then None
    else
      var r2 := FloodMaze(r1.value.1, f, s, fuel);
      if r2.None? then None
      else
        var r3 := FloodMaze(r2.value.1, s, f, fuel);
        if r3.None? then None
        else
          LegsSound(m, fuel, r1.value, r2.value, r3.value);
          Some(Trip(r1.value.0, r2.value.0, r3.value.0, r1.value.1, r2.value.1))
  }

  /** Each leg of a trip is the fastest one from the blizzards the legs
      before it left, and those are the valley's blizzards after the
      minutes spent so far. */
  predicate TripSound(m: Maze, t: Trip)
  {
    && First(m, Start(), Finish(m), t.out)
    && t.atExit == BlizzardsAfter(m, t.out)
    && First(t.atExit, Finish(m), Start(), t.back)
    && t.atEntrance == BlizzardsAfter(t.atExit, t.back)
    && First(t.atEntrance, Start(), Finish(m), t.again)
  }

  /** Three legs found by flooding one after the other make a sound trip. */
  lemma LegsSound(m: Maze, fuel: nat, r1: (nat, Maze), r2: (nat, Maze), r3: (nat, Maze))
    requires FloodMaze(m, Start(), Finish(m), fuel) == Some(r1)
    requires FloodMaze(r1.1, Finish(m), Start(), fuel) == Some(r2)
    requires FloodMaze(r2.1, Start(), Finish(m), fuel) == Some(r3)
    ensures TripSound(m, Trip(r1.0, r2.0, r3.0, r1.1, r2.1))
  {
    FloodFirst(m, Start(), Finish(m), fuel);
    FloodFirst(r1.1, Finish(m), Start(), fuel);
    FloodFirst(r2.1, Start(), Finish(m), fuel);
  }

  /** On a sound trip the blizzards back at the entrance are those
      `out + back` minutes after the start. */
  lemma EntranceAfter(m: Maze, t: Trip)
    requires TripSound(m, t)
    ensures t.atEntrance == BlizzardsAfter(m, t.out + t.back)
  {
    BlizzardsAfterAdd(m, t.out, t.back);
  }

  /** `solve_part2`: the minutes of the three legs added up. */
  function Part2(input: string, fuel: nat): (r: Option<nat>)
    ensures r.Some? ==> (ParseMaze(input).Some? && Runs(ParseMaze(input).value)
      && Legs(ParseMaze(input).value, fuel).Some?
      && var l := Legs(ParseMaze(input).value, fuel).value;
      r.value == l.out + l.back + l.again)
  {
    var m := ParseMaze(input);
    if m.None? || !Runs(m.value) then None
    else
      var l := Legs(m.value, fuel);
      if l.None? then None else Some(l.value.out + l.value.back + l.value.again)
  }
}
