/** Pyroclastic flow: five rock shapes pushed by jets of gas and falling
    into a well seven units wide, until a given number have come to rest. */
module PyroclasticFlow {
  import opened Common

  type Point = (int, int)

  datatype Block = Minus | Plus | L | I | Square

  /** `Block::from_step`: the shapes come in this order, over and over. */
  function FromStep(step: nat): Block
  {
    match step % 5
    case 0 => Minus
    case 1 => Plus
    case 2 => L
    case 3 => I
    case 4 => Square
  }

  lemma FromStepPeriod(step: nat)
    ensures FromStep(step + 5) == FromStep(step)
    ensures FromStep(step) == [Minus, Plus, L, I, Square][step % 5]
  {
    assert (step + 5) % 5 == step % 5;
  }

  function Width(b: Block): int
  {
    match b
    case Minus => 4
    case Plus => 3
    case L => 3
    case I => 1
    case Square => 2
  }

  function Height(b: Block): int
  {
    match b
    case Minus => 1
    case Plus => 3
    case L => 3
    case I => 4
    case Square => 2
  }

  /** `taken_coords`: the cells of a block whose bottom-left corner is `p`. */
  function Taken(b: Block, p: Point): seq<Point>
  {
    var (x, y) := p;
    match b
    case Minus => [(x, y), (x + 1, y), (x + 2, y), (x + 3, y)]
    case Plus => [(x + 1, y), (x, y + 1), (x + 1, y + 1), (x + 2, y + 1), (x + 1, y + 2)]
    case L => [(x, y), (x + 1, y), (x + 2, y), (x + 2, y + 1), (x + 2, y + 2)]
    case I => [(x, y), (x, y + 1), (x, y + 2), (x, y + 3)]
    case Square => [(x, y), (x + 1, y), (x, y + 1), (x + 1, y + 1)]
  }

  /** The cells of a block are distinct, fill its bounding box's bottom
      and top rows, and lie inside the box. */
  lemma TakenShape(b: Block, p: Point)
    ensures |Taken(b, p)| == match b case Minus => 4 case Plus => 5 case L => 5 case I => 4 case Square => 4
    ensures forall i, j :: 0 <= i < j < |Taken(b, p)| ==> Taken(b, p)[i] != Taken(b, p)[j]
    ensures forall c :: c in Taken(b, p) ==> p.0 <= c.0 < p.0 + Width(b) && p.1 <= c.1 < p.1 + Height(b)
    ensures exists c :: c in Taken(b, p) && c.1 == p.1 + Height(b) - 1
  {
    var s := Taken(b, p);
    assert s[|s| - 1].1 == p.1 + Height(b) - 1;
  }

  /** The cells as a set, as the well stores them. */
  function Cells(b: Block, p: Point): set<Point>
  {
    set c | c in Taken(b, p)
  }

  /** `coords_on_left_of`. */
  function LeftOf(b: Block, p: Point): seq<Point>
  {
    var (x, y) := p;
    match b
    case Minus => [(x - 1, y)]
    case Plus => [(x, y), (x - 1, y + 1), (x, y + 2)]
    case L => [(x - 1, y), (x + 1, y + 1), (x + 1, y + 2)]
    case I => [(x - 1, y), (x - 1, y + 1), (x - 1, y + 2), (x - 1, y + 3)]
    case Square => [(x - 1, y), (x - 1, y + 1)]
  }

  /** `coords_on_right_of`. */
  function RightOf(b: Block, p: Point): seq<Point>
  {
    var (x, y) := p;
    match b
    case Minus => [(x + 4, y)]
    case Plus => [(x + 2, y), (x + 3, y + 1), (x + 2, y + 2)]
    case L => [(x + 3, y), (x + 3, y + 1), (x + 3, y + 2)]
    case I => [(x + 1, y), (x + 1, y + 1), (x + 1, y + 2), (x + 1, y + 3)]
    case Square => [(x + 2, y), (x + 2, y + 1)]
  }

  /** `coords_below_of`. */
  function Below(b: Block, p: Point): seq<Point>
  {
    var (x, y) := p;
    match b
    case Minus => [(x, y - 1), (x + 1, y - 1), (x + 2, y - 1), (x + 3, y - 1)]
    case Plus => [(x, y), (x + 1, y - 1), (x + 2, y)]
    case L => [(x, y - 1), (x + 1, y - 1), (x + 2, y - 1)]
    case I => [(x, y - 1)]
    case Square => [(x, y - 1), (x + 1, y - 1)]
  }

  /** Each side list is exactly the cells the block would take after the
      move that it does not take already. */
  lemma LeftOfIsFront(b: Block, p: Point, c: Point)
    ensures c in LeftOf(b, p) <==> c in Taken(b, (p.0 - 1, p.1)) && c !in Taken(b, p)
  {
  }

  lemma RightOfIsFront(b: Block, p: Point, c: Point)
    ensures c in RightOf(b, p) <==> c in Taken(b, (p.0 + 1, p.1)) && c !in Taken(b, p)
  {
  }

  lemma BelowIsFront(b: Block, p: Point, c: Point)
    ensures c in Below(b, p) <==> c in Taken(b, (p.0, p.1 - 1)) && c !in Taken(b, p)
  {
  }

  /** `well_includes`: some of the cells is occupied. */
  function WellIncludes(well: set<Point>, cells: seq<Point>): (r: bool)
    ensures r <==> exists i :: 0 <= i < |cells| && cells[i] in well
  {
    if |cells| == 0 then false
    else if cells[0] in well then true
    else
      assert forall i :: 1 <= i < |cells| ==> cells[i] == cells[1..][i - 1];
      WellIncludes(well, cells[1..])
  }

  const WellWidth := 7
  const InitX := 2
  const InitDy := 3

  /** The floor the source puts in the well before the first block. */
  function Floor(): set<Point>
  {
    {(0, -1), (1, -1), (2, -1), (3, -1), (4, -1), (5, -1), (6, -1)}
  }

  lemma FloorContents(c: Point)
    ensures c in Floor() <==> 0 <= c.0 < WellWidth && c.1 == -1
  {
    if 0 <= c.0 < WellWidth && c.1 == -1 {
      assert c.0 in {0, 1, 2, 3, 4, 5, 6};
    }
  }

  /** One jet of gas: `>` moves the block right and `<` left, unless a wall
      or a rested cell is in the way. */
  function Push(well: set<Point>, b: Block, p: Point, jet: char): Point
    requires jet == '<' || jet == '>'
  {
    if jet == '>' then
      if p.0 < WellWidth - Width(b) && !WellIncludes(well, RightOf(b, p)) then (p.0 + 1, p.1) else p
    else
      if p.0 != 0 && !WellIncludes(well, LeftOf(b, p)) then (p.0 - 1, p.1) else p
  }

  /** The state of the simulation between two jets. */
  datatype Sim = Sim(well: set<Point>, highest: int, fallen: nat, block: Block, pos: Point, jet: nat)

  /** Where every block starts: two from the left wall, three above the
      highest rock. */
  function Spawn(highest: int): Point
  {
    (InitX, highest + InitDy)
  }

  function Init(): Sim
  {
    Sim(Floor(), 0, 0, FromStep(0), Spawn(0), 0)
  }

  predicate ValidJets(jets: string)
  {
    |jets| > 0 && forall k :: 0 <= k < |jets| ==> jets[k] == '<' || jets[k] == '>'
  }

  /** One turn of the loop: a jet, then a fall by one or coming to rest. */
  function Step(jets: string, s: Sim): (r: Sim)
    requires ValidJets(jets) && s.jet < |jets|
    ensures r.jet == (s.jet + 1) % |jets|
  {
    var p := Push(s.well, s.block, s.pos, jets[s.jet]);
    var next := (s.jet + 1) % |jets|;
    if WellIncludes(s.well, Below(s.block, p)) then Settle(s, p, next)
    else s.(pos := (p.0, p.1 - 1), jet := next)
  }

  /** The block comes to rest at `p`: its cells join the well, the highest
      point rises to its top if that is higher, and the next shape starts. */
  function Settle(s: Sim, p: Point, next: nat): Sim
  {
    var highest := Max(s.highest, p.1 + Height(s.block));
    Sim(s.well + Cells(s.block, p), highest, s.fallen + 1, FromStep(s.fallen + 1), Spawn(highest), next)
  }

  /** The well's contents: the floor, and rested rock inside the walls and
      below the highest point. */
  predicate WellOk(well: set<Point>, highest: int)
  {
    Floor() <= well && highest >= 0
    && forall c :: c in well ==> 0 <= c.0 < WellWidth && -1 <= c.1 < highest
  }

  /** The highest point is the top of some rested rock, or 0. */
  predicate Tight(well: set<Point>, highest: int)
  {
    highest == 0 || exists c :: c in well && c.1 == highest - 1
  }

  /** A block at `p` lies between the walls, above the floor, and
      overlaps no rested rock. */
  predicate Fits(well: set<Point>, b: Block, p: Point)
  {
    0 <= p.0 <= WellWidth - Width(b) && p.1 >= 0
    && forall c :: c in Taken(b, p) ==> c !in well
  }

  predicate Inv(jets: string, s: Sim)
  {
    ValidJets(jets) && s.jet < |jets|
    && WellOk(s.well, s.highest) && Tight(s.well, s.highest) && Fits(s.well, s.block, s.pos)
  }

  lemma InitInv(jets: string)
    requires ValidJets(jets)
    ensures Inv(jets, Init())
  {
    forall c | c in Floor()
      ensures 0 <= c.0 < WellWidth && -1 <= c.1 < 0
    {
      FloorContents(c);
    }
  }

  /** A jet keeps the block between the walls and off the rock. */
  lemma PushKeepsFit(well: set<Point>, b: Block, p: Point, jet: char)
    requires jet == '<' || jet == '>'
    requires Fits(well, b, p)
    ensures Fits(well, b, Push(well, b, p, jet))
  {
    var q := Push(well, b, p, jet);
    if q != p {
      forall c | c in Taken(b, q)
        ensures c !in well
      {
        if jet == '>' {
          RightOfIsFront(b, p, c);
        } else {
          LeftOfIsFront(b, p, c);
        }
      }
    }
  }

  /** A block on the floor always has a floor cell below it. */
  lemma FloorStops(well: set<Point>, highest: int, b: Block, p: Point)
    requires WellOk(well, highest) && 0 <= p.0 <= WellWidth - Width(b) && p.1 == 0
    ensures WellIncludes(well, Below(b, p))
  {
    var c := match b case Plus => (p.0 + 1, -1) case _ => (p.0, -1);
    FloorContents(c);
    assert c in Below(b, p);
  }

  /** Falling by one, when nothing is below, keeps the block above the
      floor and off the rock. */
  lemma FallKeepsFit(well: set<Point>, highest: int, b: Block, p: Point)
    requires WellOk(well, highest) && Fits(well, b, p) && !WellIncludes(well, Below(b, p))
    ensures Fits(well, b, (p.0, p.1 - 1))
  {
    if p.1 == 0 {
      FloorStops(well, highest, b, p);
    }
    forall c | c in Taken(b, (p.0, p.1 - 1))
      ensures c !in well
    {
      BelowIsFront(b, p, c);
    }
  }

  /** Coming to rest adds the block's cells, raises the highest point to
      its top if that is higher, and starts the next shape clear of
      everything. */
  lemma SettleKeepsInv(jets: string, s: Sim, p: Point, next: nat)
    requires ValidJets(jets) && next < |jets|
    requires WellOk(s.well, s.highest) && Tight(s.well, s.highest) && Fits(s.well, s.block, p)
    ensures Inv(jets, Settle(s, p, next))
  {
    var r := Settle(s, p, next);
    TakenShape(s.block, p);
    SettleTight(s, p, next);
    TakenShape(r.block, r.pos);
  }

  /** The new highest point is the top of the block or of older rock. */
  lemma SettleTight(s: Sim, p: Point, next: nat)
    requires Tight(s.well, s.highest)
    requires exists top :: top in Taken(s.block, p) && top.1 == p.1 + Height(s.block) - 1
    ensures Tight(Settle(s, p, next).well, Settle(s, p, next).highest)
  {
    var r := Settle(s, p, next);
    if r.highest != s.highest {
      var top :| top in Taken(s.block, p) && top.1 == p.1 + Height(s.block) - 1;
      assert top in r.well;
    } else if s.highest != 0 {
      var c :| c in s.well && c.1 == s.highest - 1;
      assert c in r.well;
    }
  }

  /** Every turn of the loop keeps the invariant. */
  lemma StepKeepsInv(jets: string, s: Sim)
    requires Inv(jets, s)
    ensures Inv(jets, Step(jets, s))
  {
    var p := Push(s.well, s.block, s.pos, jets[s.jet]);
    PushKeepsFit(s.well, s.block, s.pos, jets[s.jet]);
    if WellIncludes(s.well, Below(s.block, p)) {
      SettleKeepsInv(jets, s, p, (s.jet + 1) % |jets|);
    } else {
      FallKeepsInv(jets, s, p);
    }
  }

  lemma FallKeepsInv(jets: string, s: Sim, p: Point)
    requires Inv(jets, s) && Fits(s.well, s.block, p) && !WellIncludes(s.well, Below(s.block, p))
    ensures Inv(jets, s.(pos := (p.0, p.1 - 1), jet := (s.jet + 1) % |jets|))
  {
    FallKeepsFit(s.well, s.highest, s.block, p);
  }

  /** Runs the loop until `count` blocks have come to rest. */
  function Run(jets: string, s: Sim, count: nat): (r: Sim)
    requires Inv(jets, s) && s.fallen < count
    ensures Inv(jets, r) && r.fallen == count
    decreases count - s.fallen, s.pos.1
  {
    StepKeepsInv(jets, s);
    var next := Step(jets, s);
    if next.fallen == count then next else Run(jets, next, count)
  }

  /** The highest point never goes down. */
  lemma {:induction false} RunRaises(jets: string, s: Sim, count: nat)
    requires Inv(jets, s) && s.fallen < count
    ensures Run(jets, s, count).highest >= s.highest
    decreases count - s.fallen, s.pos.1
  {
    StepKeepsInv(jets, s);
    var next := Step(jets, s);
    if next.fallen != count {
      RunRaises(jets, next, count);
    }
  }

  /** `solve_part1`: the height of the tower after 2022 blocks: every
      rested cell lies below it, and a rested cell lies just below it
      unless it is 0. */
  function Part1(jets: string): (h: int)
    requires ValidJets(jets)
    ensures h >= 0
    ensures var s := Run(jets, Init(), 2022);
      s.fallen == 2022 && WellOk(s.well, h) && Tight(s.well, h)
  {
    InitInv(jets);
    Run(jets, Init(), 2022).highest
  }

  /** A block comes to rest exactly when falling one more would make it
      overlap rock or the floor. */
  lemma RestsWhenBlocked(jets: string, s: Sim)
    requires ValidJets(jets) && s.jet < |jets| && Fits(s.well, s.block, s.pos)
    ensures var p := Push(s.well, s.block, s.pos, jets[s.jet]);
      Step(jets, s).fallen == s.fallen + 1 <==> exists c :: c in Taken(s.block, (p.0, p.1 - 1)) && c in s.well
  {
    var p := Push(s.well, s.block, s.pos, jets[s.jet]);
    PushKeepsFit(s.well, s.block, s.pos, jets[s.jet]);
    StepRestsWhenBelow(jets, s);
    BelowOccupied(s.well, s.block, p);
  }

  /** A turn adds a block exactly when a cell below the pushed block is
      occupied. */
  lemma StepRestsWhenBelow(jets: string, s: Sim)
    requires ValidJets(jets) && s.jet < |jets|
    ensures var p := Push(s.well, s.block, s.pos, jets[s.jet]);
      Step(jets, s).fallen == s.fallen + 1 <==> WellIncludes(s.well, Below(s.block, p))
  {
  }

  /** For a block clear of the rock, a cell below it is occupied exactly
      when the block one lower would overlap the rock. */
  lemma BelowOccupied(well: set<Point>, b: Block, p: Point)
    requires forall c :: c in Taken(b, p) ==> c !in well
    ensures WellIncludes(well, Below(b, p)) <==> exists c :: c in Taken(b, (p.0, p.1 - 1)) && c in well
  {
    if WellIncludes(well, Below(b, p)) {
      var i :| 0 <= i < |Below(b, p)| && Below(b, p)[i] in well;
      BelowIsFront(b, p, Below(b, p)[i]);
    } else {
      forall c | c in Taken(b, (p.0, p.1 - 1))
        ensures c !in well
      {
        BelowIsFront(b, p, c);
      }
    }
  }

  // ----- part 2: skipping repeated cycles -----

  /** Part 2's bookkeeping: the block count and height gained over each
      pass through the jets, where the last pass ended, and how many
      cycles were skipped. */
  datatype Cycles = Cycles(seen: seq<(int, int)>, latestBlocks: nat, latestHeight: int, skipped: nat)

  predicate CyclesOk(c: Cycles, fallen: nat)
  {
    c.latestBlocks <= fallen && (c.skipped > 0 ==> |c.seen| > 0)
  }

  /** The counter after skipping as the source does: as many whole cycles
      of `period` blocks as fit before `count`. */
  function SkipAsWritten(fallen: nat, period: nat, count: nat): nat
    requires period > 0 && fallen <= count
  {
    fallen + (count - fallen) / period * period
  }

  /** The skip never goes past `count`, and it lands exactly on `count`
      when the remaining blocks are a whole number of cycles. The source
      tests for `count` only after the next block comes to rest, when the
      counter is already one past it, so it never stops. */
  lemma SkipAsWrittenPassesStop(fallen: nat, period: nat, count: nat)
    requires period > 0 && fallen <= count
    ensures SkipAsWritten(fallen, period, count) <= count
    ensures (count - fallen) % period == 0 ==> SkipAsWritten(fallen, period, count) == count
  {
  }

  /** An instance: a 1000-block cycle found after 2000 blocks. */
  lemma SkipAsWrittenExample()
    ensures SkipAsWritten(2000, 1000, Part2Count) == Part2Count
    ensures SkipAsWritten(2000, 1000, Part2Count) + 1 != Part2Count
  {
  }

  const Part2Count := 1000000000000

  /** The bookkeeping at the end of a pass through the jets: record the
      pass, and when it repeats the one before, skip whole cycles. `None`
      when a pass of no blocks repeats, where the source divides by zero. */
  function AtWrap(c: Cycles, fallen: nat, highest: int, count: nat): (r: Option<(Cycles, nat)>)
    requires CyclesOk(c, fallen) && fallen <= count
    ensures r.Some? ==> fallen <= r.value.1 <= count && CyclesOk(r.value.0, r.value.1)
    ensures r.Some? ==> r.value.1 == fallen || (fallen > c.latestBlocks && r.value.1 == SkipAsWritten(fallen, fallen - c.latestBlocks, count))
    ensures r.Some? ==> r.value.0.seen == c.seen + [(fallen - c.latestBlocks, highest - c.latestHeight)]
  {
    var cur := (fallen - c.latestBlocks, highest - c.latestHeight);
    var seen := c.seen + [cur];
    if |seen| > 1 && seen[|seen| - 2] == cur then
      if cur.0 == 0 then None
      else
        var skipped := (count - fallen) / cur.0;
        var f := fallen + skipped * cur.0;
        Some((Cycles(seen, f, highest, skipped), f))
    else Some((Cycles(seen, fallen, highest, c.skipped), fallen))
  }

  /** Part 2's loop, stopping as soon as `count` blocks have come to rest
      or have been skipped over. */
  function Run2(jets: string, s: Sim, c: Cycles, count: nat): (r: Option<(Sim, Cycles)>)
    requires Inv(jets, s) && s.fallen < count && CyclesOk(c, s.fallen)
    ensures r.Some? ==> r.value.0.fallen == count && CyclesOk(r.value.1, count)
    decreases count - s.fallen, s.pos.1, 1
  {
    var wrapped := if (s.jet + 1) % |jets| == 0 then AtWrap(c, s.fallen, s.highest, count) else Some((c, s.fallen));
    match wrapped
    case None => None
    case Some(w) =>
      var s1 := s.(fallen := w.1);
      if w.1 == count then Some((s1, w.0)) else Run2Drop(jets, s1, w.0, count)
  }

  /** The rest of a turn of part 2's loop, after the bookkeeping: a jet
      and a fall or a rest, stopping once `count` blocks have come to rest. */
  function Run2Drop(jets: string, s: Sim, c: Cycles, count: nat): (r: Option<(Sim, Cycles)>)
    requires Inv(jets, s) && s.fallen < count && CyclesOk(c, s.fallen)
    ensures r.Some? ==> r.value.0.fallen == count && CyclesOk(r.value.1, count)
    decreases count - s.fallen, s.pos.1, 0
  {
    StepKeepsInv(jets, s);
    var next := Step(jets, s);
    if next.fallen == count then Some((next, c)) else Run2(jets, next, c, count)
  }

  /** The bookkeeping at the end of a pass as written: once the counter
      is past `count`, a repeated pass computes `count - fallen`, which
      underflows and panics (`None`). */
  function WrapAsWritten(c: Cycles, fallen: nat, highest: int, count: nat): (r: Option<(Cycles, nat)>)
    requires CyclesOk(c, fallen)
    ensures r.Some? ==> fallen <= r.value.1 && CyclesOk(r.value.0, r.value.1)
    ensures fallen <= count ==> r == AtWrap(c, fallen, highest, count)
  {
    if fallen <= count then AtWrap(c, fallen, highest, count)
    else
      var cur := (fallen - c.latestBlocks, highest - c.latestHeight);
      var seen := c.seen + [cur];
      if |seen| > 1 && seen[|seen| - 2] == cur then None
      else Some((Cycles(seen, fallen, highest, c.skipped), fallen))
  }

  /** One turn of part 2's loop as written: the bookkeeping when a pass
      through the jets ends, then a jet and a fall or a rest. The counter
      before the jet, the state after it and the bookkeeping; `None` where
      the bookkeeping panics. */
  function TurnAsWritten(jets: string, s: Sim, c: Cycles, count: nat): (r: Option<(nat, Sim, Cycles)>)
    requires Inv(jets, s) && CyclesOk(c, s.fallen)
    ensures r.Some? ==> s.fallen <= r.value.0 && Inv(jets, r.value.1) && CyclesOk(r.value.2, r.value.1.fallen)
    ensures r.Some? ==> r.value.1.fallen == r.value.0 || r.value.1.fallen == r.value.0 + 1
    ensures (s.jet + 1) % |jets| == 0 && s.fallen <= count ==>
      (r.Some? <==> AtWrap(c, s.fallen, s.highest, count).Some?)
      && (r.Some? ==> r.value.0 == AtWrap(c, s.fallen, s.highest, count).value.1)
  {
    var wrapped := if (s.jet + 1) % |jets| == 0 then WrapAsWritten(c, s.fallen, s.highest, count) else Some((c, s.fallen));
    match wrapped
    case None => None
    case Some(w) =>
      var s1 := s.(fallen := w.1);
      StepKeepsInv(jets, s1);
      StepCounts(jets, s1);
      Some((w.1, Step(jets, s1), w.0))
  }

  /** A turn adds at most one block to the count. */
  lemma StepCounts(jets: string, s: Sim)
    requires ValidJets(jets) && s.jet < |jets|
    ensures Step(jets, s).fallen == s.fallen || Step(jets, s).fallen == s.fallen + 1
  {
  }

  /** Part 2's loop as written: the counter is tested against `count` only
      when a block comes to rest, so a skip that lands on `count` is not
      noticed. Past `count` the source's loop ends only by the panic of
      `WrapAsWritten`, so `fuel` bounds the turns and `None` also stands
      for running out of it. */
  function Run2AsWritten(jets: string, s: Sim, c: Cycles, count: nat, fuel: nat): (r: Option<(Sim, Cycles)>)
    requires Inv(jets, s) && CyclesOk(c, s.fallen)
    ensures r.Some? ==> r.value.0.fallen == count && CyclesOk(r.value.1, count)
    decreases fuel
  {
    if fuel == 0 then None
    else
      var t := TurnAsWritten(jets, s, c, count);
      if t.None? then None
      else if t.value.1.fallen == t.value.0 + 1 && t.value.1.fallen == count then Some((t.value.1, t.value.2))
      else Run2AsWritten(jets, t.value.1, t.value.2, count, fuel - 1)
  }

  /** Once the counter has reached `count`, the loop as written never
      stops with an answer: every later rest takes the counter further
      past it. */
  lemma {:induction false} PastCountNeverStops(jets: string, s: Sim, c: Cycles, count: nat, fuel: nat)
    requires Inv(jets, s) && CyclesOk(c, s.fallen) && s.fallen >= count
    ensures Run2AsWritten(jets, s, c, count, fuel).None?
    decreases fuel
  {
    if fuel > 0 {
      var t := TurnAsWritten(jets, s, c, count);
      if t.Some? {
        PastCountNeverStops(jets, t.value.1, t.value.2, count, fuel - 1);
      }
    }
  }

  /** At the end of a pass whose skip lands exactly on `count`, the
      corrected loop stops with `count` blocks. */
  lemma SkipOntoCountStops(jets: string, s: Sim, c: Cycles, count: nat)
    requires Inv(jets, s) && s.fallen < count && CyclesOk(c, s.fallen)
    requires (s.jet + 1) % |jets| == 0
    requires AtWrap(c, s.fallen, s.highest, count).Some? && AtWrap(c, s.fallen, s.highest, count).value.1 == count
    ensures Run2(jets, s, c, count).Some?
  {
    var w := AtWrap(c, s.fallen, s.highest, count).value;
    Run2AtCount(jets, s, c, count, w);
  }

  /** When the bookkeeping at the end of a pass brings the counter to
      `count`, the corrected loop stops there. */
  lemma Run2AtCount(jets: string, s: Sim, c: Cycles, count: nat, w: (Cycles, nat))
    requires Inv(jets, s) && s.fallen < count && CyclesOk(c, s.fallen)
    requires (s.jet + 1) % |jets| == 0 && AtWrap(c, s.fallen, s.highest, count) == Some(w)
    requires w.1 == count
    ensures Run2(jets, s, c, count) == Some((s.(fallen := count), w.0))
  {
  }

  /** There the loop as written runs past `count` and never answers. */
  lemma SkipOntoCountMissed(jets: string, s: Sim, c: Cycles, count: nat, fuel: nat)
    requires Inv(jets, s) && s.fallen < count && CyclesOk(c, s.fallen)
    requires (s.jet + 1) % |jets| == 0
    requires AtWrap(c, s.fallen, s.highest, count).Some? && AtWrap(c, s.fallen, s.highest, count).value.1 == count
    ensures Run2AsWritten(jets, s, c, count, fuel).None?
  {
    TurnAtWrap(jets, s, c, count, AtWrap(c, s.fallen, s.highest, count).value);
    TurnPastCount(jets, s, c, count, fuel);
  }

  /** A turn that ends a pass through the jets moves the counter where the
      bookkeeping puts it. */
  lemma TurnAtWrap(jets: string, s: Sim, c: Cycles, count: nat, w: (Cycles, nat))
    requires Inv(jets, s) && s.fallen <= count && CyclesOk(c, s.fallen)
    requires (s.jet + 1) % |jets| == 0 && AtWrap(c, s.fallen, s.highest, count) == Some(w)
    ensures TurnAsWritten(jets, s, c, count).Some? && TurnAsWritten(jets, s, c, count).value.0 == w.1
  {
    assert WrapAsWritten(c, s.fallen, s.highest, count) == Some(w);
    var s1 := s.(fallen := w.1);
    StepKeepsInv(jets, s1);
    assert TurnAsWritten(jets, s, c, count) == Some((w.1, Step(jets, s1), w.0));
  }

  /** A turn that starts the jet with the counter at or past `count` leaves
      the loop as written without an answer. */
  lemma TurnPastCount(jets: string, s: Sim, c: Cycles, count: nat, fuel: nat)
    requires Inv(jets, s) && CyclesOk(c, s.fallen)
    requires TurnAsWritten(jets, s, c, count).Some? && TurnAsWritten(jets, s, c, count).value.0 >= count
    ensures Run2AsWritten(jets, s, c, count, fuel).None?
  {
    if fuel > 0 {
      var t := TurnAsWritten(jets, s, c, count);
      PastCountNeverStops(jets, t.value.1, t.value.2, count, fuel - 1);
    }
  }

  /** Where the two loops part: the corrected loop answers, the loop as
      written does not. */
  lemma SkipOntoCountDiverges(jets: string, s: Sim, c: Cycles, count: nat, fuel: nat)
    requires Inv(jets, s) && s.fallen < count && CyclesOk(c, s.fallen)
    requires (s.jet + 1) % |jets| == 0
    requires AtWrap(c, s.fallen, s.highest, count).Some? && AtWrap(c, s.fallen, s.highest, count).value.1 == count
    ensures Run2(jets, s, c, count).Some? && Run2AsWritten(jets, s, c, count, fuel).None?
  {
    SkipOntoCountStops(jets, s, c, count);
    SkipOntoCountMissed(jets, s, c, count, fuel);
  }

  /** `solve_part2`: the height after a trillion blocks, the skipped
      cycles adding the height of the last recorded pass each. */
  function Part2(jets: string): (r: Option<int>)
    requires ValidJets(jets)
    ensures (InitInv(jets);
      var run := Run2(jets, Init(), Cycles([], 0, 0, 0), Part2Count);
      && (r.Some? <==> run.Some?)
      && (r.Some? && run.value.1.skipped == 0 ==> r.value == run.value.0.highest))
  {
    InitInv(jets);
    match Run2(jets, Init(), Cycles([], 0, 0, 0), Part2Count)
    case None => None
    case Some((s, c)) => Some(s.highest + if c.skipped > 0 then c.skipped * c.seen[|c.seen| - 1].1 else 0)
  }
}
