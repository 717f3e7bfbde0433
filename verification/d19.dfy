/** Not enough minerals: a factory of robots mining ore, clay, obsidian
    and geodes, building at most one robot a minute from a blueprint's
    costs, and a depth-first search for the most geodes it can open. */
module NotEnoughMinerals {
  import opened Common
  import opened Text

  datatype Material = Ore | Clay | Obsidian | Geode

  /** One count per material, the source's `[usize; 4]` indexed by
      `Material::index`. */
  datatype Counts = Counts(ore: nat, clay: nat, obsidian: nat, geode: nat)

  function Get(c: Counts, m: Material): nat
  {
    match m
    case Ore => c.ore
    case Clay => c.clay
    case Obsidian => c.obsidian
    case Geode => c.geode
  }

  function Plus(a: Counts, b: Counts): Counts
  {
    Counts(a.ore + b.ore, a.clay + b.clay, a.obsidian + b.obsidian, a.geode + b.geode)
  }

  predicate Le(a: Counts, b: Counts)
  {
    a.ore <= b.ore && a.clay <= b.clay && a.obsidian <= b.obsidian && a.geode <= b.geode
  }

  /** `update_stock` with `add`: one material raised by `n`. */
  function AddTo(c: Counts, m: Material, n: nat): (r: Counts)
    ensures Get(r, m) == Get(c, m) + n
    ensures forall m' :: m' != m ==> Get(r, m') == Get(c, m')
  {
    match m
    case Ore => c.(ore := c.ore + n)
    case Clay => c.(clay := c.clay + n)
    case Obsidian => c.(obsidian := c.obsidian + n)
    case Geode => c.(geode := c.geode + n)
  }

  datatype Blueprint = Blueprint(oreRobot: nat, clayRobot: nat, obsidianRobot: (nat, nat), geodeRobot: (nat, nat))

  /** What building a robot of each kind uses up. */
  function Cost(bp: Blueprint, m: Material): Counts
  {
    match m
    case Ore => Counts(bp.oreRobot, 0, 0, 0)
    case Clay => Counts(bp.clayRobot, 0, 0, 0)
    case Obsidian => Counts(bp.obsidianRobot.0, bp.obsidianRobot.1, 0, 0)
    case Geode => Counts(bp.geodeRobot.0, 0, bp.geodeRobot.1, 0)
  }

  // ----- parsing -----

  /** `Blueprint::from`: the costs are words 6, 12, 18, 21, 27 and 30; a
      short line or a malformed number is where the source panics. */
  function ParseBlueprint(line: string): Option<Blueprint>
  {
    var ws := Words(line);
    if |ws| < 31 then None
    else
      match (ParseNat(ws[6]), ParseNat(ws[12]), ParseNat(ws[18]), ParseNat(ws[21]), ParseNat(ws[27]), ParseNat(ws[30]))
      case (Some(a), Some(b), Some(c), Some(d), Some(e), Some(f)) => Some(Blueprint(a, b, (c, d), (e, f)))
      case _ => None
  }

  function ParseBlueprints(lines: seq<string>): (r: Option<seq<Blueprint>>)
    ensures r.Some? ==> |r.value| == |lines|
  {
    if |lines| == 0 then Some([])
    else
      match (ParseBlueprint(lines[0]), ParseBlueprints(lines[1..]))
      case (Some(b), Some(rest)) => Some([b] + rest)
      case _ => None
  }

  /** `parse_input`: one blueprint per line. */
  function ParseInput(data: string): (r: Option<seq<Blueprint>>)
    ensures r.Some? ==> |r.value| == |Lines(data)|
  {
    ParseBlueprints(Lines(data))
  }

  /** The words of a blueprint line as the puzzle writes it: a header and
      one sentence per robot. */
  function BlueprintWords(id: nat, bp: Blueprint): (ws: seq<string>)
    ensures |ws| == 32
  {
    ["Blueprint", ShowNat(id) + ":"]
    + CostSentence("ore", bp.oreRobot)
    + CostSentence("clay", bp.clayRobot)
    + PairCostSentence("obsidian", bp.obsidianRobot, "clay.")
    + PairCostSentence("geode", bp.geodeRobot, "obsidian.")
  }

  function CostSentence(robot: string, ore: nat): (ws: seq<string>)
    ensures |ws| == 6
  {
    ["Each", robot, "robot", "costs", ShowNat(ore), "ore."]
  }

  function PairCostSentence(robot: string, cost: (nat, nat), other: string): (ws: seq<string>)
    ensures |ws| == 9
  {
    ["Each", robot, "robot", "costs", ShowNat(cost.0), "ore", "and", ShowNat(cost.1), other]
  }

  function ShowBlueprint(id: nat, bp: Blueprint): string
  {
    Unwords(BlueprintWords(id, bp))
  }

  predicate AllWords(ws: seq<string>)
  {
    forall k :: 0 <= k < |ws| ==> IsWord(ws[k])
  }

  lemma AllWordsConcat(a: seq<string>, b: seq<string>)
    requires AllWords(a) && AllWords(b)
    ensures AllWords(a + b)
  {
    assert forall k :: |a| <= k < |a + b| ==> (a + b)[k] == b[k - |a|];
  }

  lemma Printable(w: string)
    requires |w| > 0 && forall i :: 0 <= i < |w| ==> w[i] > ' '
    ensures IsWord(w)
  {
  }

  lemma HeaderWords(id: nat)
    ensures AllWords(["Blueprint", ShowNat(id) + ":"])
  {
    var ws := ["Blueprint", ShowNat(id) + ":"];
    Printable("Blueprint");
    ShowNatIsWord(id);
    Printable(ws[1]);
  }

  lemma CostSentenceWords(robot: string, ore: nat)
    requires IsWord(robot)
    ensures AllWords(CostSentence(robot, ore))
  {
    Printable("Each");
    Printable("robot");
    Printable("costs");
    Printable("ore.");
    ShowNatIsWord(ore);
  }

  lemma PairCostSentenceWords(robot: string, cost: (nat, nat), other: string)
    requires IsWord(robot) && IsWord(other)
    ensures AllWords(PairCostSentence(robot, cost, other))
  {
    Printable("Each");
    Printable("robot");
    Printable("costs");
    Printable("ore");
    Printable("and");
    ShowNatIsWord(cost.0);
    ShowNatIsWord(cost.1);
  }

  lemma BlueprintWordsAreWords(id: nat, bp: Blueprint)
    ensures AllWords(BlueprintWords(id, bp))
  {
    var h := ["Blueprint", ShowNat(id) + ":"];
    var s1 := CostSentence("ore", bp.oreRobot);
    var s2 := CostSentence("clay", bp.clayRobot);
    var s3 := PairCostSentence("obsidian", bp.obsidianRobot, "clay.");
    var s4 := PairCostSentence("geode", bp.geodeRobot, "obsidian.");
    Printable("ore");
    Printable("clay");
    Printable("obsidian");
    Printable("clay.");
    Printable("geode");
    Printable("obsidian.");
    HeaderWords(id);
    CostSentenceWords("ore", bp.oreRobot);
    CostSentenceWords("clay", bp.clayRobot);
    PairCostSentenceWords("obsidian", bp.obsidianRobot, "clay.");
    PairCostSentenceWords("geode", bp.geodeRobot, "obsidian.");
    AllWordsConcat(h, s1);
    AllWordsConcat(h + s1, s2);
    AllWordsConcat(h + s1 + s2, s3);
    AllWordsConcat(h + s1 + s2 + s3, s4);
  }

  /** Where the six costs sit among the words. */
  lemma BlueprintWordsFields(id: nat, bp: Blueprint)
    ensures var ws := BlueprintWords(id, bp);
      ws[6] == ShowNat(bp.oreRobot) && ws[12] == ShowNat(bp.clayRobot) &&
      ws[18] == ShowNat(bp.obsidianRobot.0) && ws[21] == ShowNat(bp.obsidianRobot.1) &&
      ws[27] == ShowNat(bp.geodeRobot.0) && ws[30] == ShowNat(bp.geodeRobot.1)
  {
  }

  lemma ParseFromWords(line: string, bp: Blueprint)
    requires |Words(line)| >= 31
    requires ParseNat(Words(line)[6]) == Some(bp.oreRobot) && ParseNat(Words(line)[12]) == Some(bp.clayRobot)
    requires ParseNat(Words(line)[18]) == Some(bp.obsidianRobot.0) && ParseNat(Words(line)[21]) == Some(bp.obsidianRobot.1)
    requires ParseNat(Words(line)[27]) == Some(bp.geodeRobot.0) && ParseNat(Words(line)[30]) == Some(bp.geodeRobot.1)
    ensures ParseBlueprint(line) == Some(bp)
  {
  }

  /** A blueprint line as the puzzle prints it reads back as the
      blueprint. */
  lemma ParseShowBlueprint(id: nat, bp: Blueprint)
    ensures ParseBlueprint(ShowBlueprint(id, bp)) == Some(bp)
  {
    var ws := BlueprintWords(id, bp);
    BlueprintWordsAreWords(id, bp);
    WordsUnwords(ws);
    BlueprintWordsFields(id, bp);
    ParseShowNat(bp.oreRobot);
    ParseShowNat(bp.clayRobot);
    ParseShowNat(bp.obsidianRobot.0);
    ParseShowNat(bp.obsidianRobot.1);
    ParseShowNat(bp.geodeRobot.0);
    ParseShowNat(bp.geodeRobot.1);
    ParseFromWords(ShowBlueprint(id, bp), bp);
  }

  // ----- the factory -----

  /** `robots_for_geode`: the ore robots that cover the dearest ore cost,
      and the clay and obsidian robots that cover the obsidian and geode
      robots' other costs, so that one robot can be built every minute. */
  function RobotsForGeode(bp: Blueprint): (r: (nat, nat, nat))
    ensures r.0 >= bp.oreRobot && r.0 >= bp.clayRobot && r.0 >= bp.obsidianRobot.0 && r.0 >= bp.geodeRobot.0
    ensures r.0 in {bp.oreRobot, bp.clayRobot, bp.obsidianRobot.0, bp.geodeRobot.0}
    ensures forall m :: Get(Cost(bp, m), Ore) <= r.0
    ensures forall m :: Get(Cost(bp, m), Clay) <= r.1 && Get(Cost(bp, m), Obsidian) <= r.2
  {
    var ores := Max(Max(Max(bp.oreRobot, bp.clayRobot), bp.obsidianRobot.0), bp.geodeRobot.0);
    (ores, bp.obsidianRobot.1, bp.geodeRobot.1)
  }

  datatype Factory = Factory(robots: Counts, stock: Counts, minutes: nat)

  /** `Factory::new`: one ore robot, nothing in stock. */
  function New(minutes: nat): Factory
  {
    Factory(Counts(1, 0, 0, 0), Counts(0, 0, 0, 0), minutes)
  }

  /** `mine`: the robots of one kind each add one to its stock. */
  function Mine(f: Factory, m: Material): Factory
  {
    f.(stock := AddTo(f.stock, m, Get(f.robots, m)))
  }

  /** `mine_all`: every robot adds one of its material. */
  function MineAll(f: Factory): (r: Factory)
    ensures r.stock == Plus(f.stock, f.robots) && r.robots == f.robots && r.minutes == f.minutes
  {
    Mine(Mine(Mine(Mine(f, Ore), Clay), Obsidian), Geode)
  }

  /** `can_afford_robot`. */
  predicate CanAfford(f: Factory, m: Material, bp: Blueprint)
  {
    match m
    case Ore => f.stock.ore >= bp.oreRobot
    case Clay => f.stock.ore >= bp.clayRobot
    case Obsidian => f.stock.ore >= bp.obsidianRobot.0 && f.stock.clay >= bp.obsidianRobot.1
    case Geode => f.stock.ore >= bp.geodeRobot.0 && f.stock.obsidian >= bp.geodeRobot.1
  }

  /** A robot is affordable exactly when the stock covers its whole cost. */
  lemma CanAffordCovers(f: Factory, m: Material, bp: Blueprint)
    ensures CanAfford(f, m, bp) <==> Le(Cost(bp, m), f.stock)
  {
  }

  /** What is affordable stays affordable after mining. */
  lemma AffordAfterMining(f: Factory, m: Material, bp: Blueprint)
    requires CanAfford(f, m, bp)
    ensures CanAfford(MineAll(f), m, bp)
  {
  }

  lemma AffordChoice(f: Factory, a: Option<Material>, bp: Blueprint)
    requires a.Some? ==> CanAfford(f, a.value, bp)
    ensures a.Some? ==> CanAfford(MineAll(f), a.value, bp)
  {
  }

  /** `build_robot`: pay the cost, then add one robot of the kind. */
  function BuildRobot(f: Factory, m: Material, bp: Blueprint): (r: Factory)
    requires CanAfford(f, m, bp)
    ensures Plus(r.stock, Cost(bp, m)) == f.stock
    ensures Get(r.robots, m) == Get(f.robots, m) + 1
    ensures forall m' :: m' != m ==> Get(r.robots, m') == Get(f.robots, m')
    ensures r.minutes == f.minutes
  {
    var paid := match m
      case Ore => f.stock.(ore := f.stock.ore - bp.oreRobot)
      case Clay => f.stock.(ore := f.stock.ore - bp.clayRobot)
      case Obsidian => f.stock.(ore := f.stock.ore - bp.obsidianRobot.0, clay := f.stock.clay - bp.obsidianRobot.1)
      case Geode => f.stock.(ore := f.stock.ore - bp.geodeRobot.0, obsidian := f.stock.obsidian - bp.geodeRobot.1);
    Factory(AddTo(f.robots, m, 1), paid, f.minutes)
  }

  /** `step_and_build`: mine with the robots there were at the start of
      the minute, then build, and one minute fewer remains. */
  function StepAndBuild(f: Factory, robot: Option<Material>, bp: Blueprint): (r: Factory)
    requires f.minutes >= 1
    requires robot.Some? ==> CanAfford(MineAll(f), robot.value, bp)
    ensures r.minutes == f.minutes - 1
    ensures robot.None? ==> r.robots == f.robots && r.stock == Plus(f.stock, f.robots)
    ensures robot.Some? ==> Plus(r.stock, Cost(bp, robot.value)) == Plus(f.stock, f.robots)
    ensures robot.Some? ==> Get(r.robots, robot.value) == Get(f.robots, robot.value) + 1
    ensures forall m :: robot != Some(m) ==> Get(r.robots, m) == Get(f.robots, m)
  {
    var mined := MineAll(f);
    var built := if robot.Some? then BuildRobot(mined, robot.value, bp) else mined;
    built.(minutes := built.minutes - 1)
  }

  // ----- bounds -----

  /** Geodes at the end if a geode robot could be built free every
      remaining minute. */
  function FreeRun(geodes: nat, robots: nat, minutes: nat): nat
    decreases minutes
  {
    if minutes == 0 then geodes else FreeRun(geodes + robots, robots + 1, minutes - 1)
  }

  /** `max_no_cost_geodes`; `minutes_to_go - 1` needs a minute left. */
  function MaxNoCost(f: Factory): nat
    requires f.minutes >= 1
  {
    var m := f.minutes;
    f.stock.geode + m * f.robots.geode + m * (m - 1) / 2
  }

  lemma {:induction false} FreeRunClosed(geodes: nat, robots: nat, minutes: nat)
    ensures 2 * FreeRun(geodes, robots, minutes) == 2 * geodes + 2 * robots * minutes + minutes * (minutes - 1)
    decreases minutes
  {
    if minutes > 0 {
      FreeRunClosed(geodes + robots, robots + 1, minutes - 1);
      var m: int := minutes;
      assert (robots + 1) * (m - 1) == robots * m - robots + m - 1;
      assert (m - 1) * (m - 2) + 2 * (m - 1) == m * (m - 1);
    }
  }

  /** The bound is the geodes of building a geode robot free every
      remaining minute. */
  lemma MaxNoCostIsFreeRun(f: Factory)
    requires f.minutes >= 1
    ensures MaxNoCost(f) == FreeRun(f.stock.geode, f.robots.geode, f.minutes)
  {
    FreeRunClosed(f.stock.geode, f.robots.geode, f.minutes);
  }

  lemma {:induction false} FreeRunMono(g: nat, r: nat, g': nat, r': nat, minutes: nat)
    requires g <= g' && r <= r'
    ensures FreeRun(g, r, minutes) <= FreeRun(g', r', minutes)
    decreases minutes
  {
    if minutes > 0 {
      FreeRunMono(g + r, r + 1, g' + r', r' + 1, minutes - 1);
    }
  }

  /** One minute of any choice never raises the free-run bound. */
  lemma StepFreeRun(f: Factory, robot: Option<Material>, bp: Blueprint)
    requires f.minutes >= 1
    requires robot.Some? ==> CanAfford(MineAll(f), robot.value, bp)
    ensures var c := StepAndBuild(f, robot, bp);
      FreeRun(c.stock.geode, c.robots.geode, c.minutes) <= FreeRun(f.stock.geode, f.robots.geode, f.minutes)
  {
    var c := StepAndBuild(f, robot, bp);
    assert c.stock.geode == f.stock.geode + f.robots.geode;
    assert c.robots.geode <= f.robots.geode + 1;
    FreeRunMono(c.stock.geode, c.robots.geode, f.stock.geode + f.robots.geode, f.robots.geode + 1, f.minutes - 1);
  }

  // ----- build orders -----

  /** A build order: for each minute, a robot to build or none. */
  type Plan = seq<Option<Material>>

  /** Follow a build order; `None` when a robot is not affordable at the
      start of its minute or the time runs out. */
  function RunPlan(bp: Blueprint, f: Factory, plan: Plan): Option<Factory>
    decreases |plan|
  {
    if |plan| == 0 then Some(f)
    else if f.minutes == 0 then None
    else if plan[0].Some? && !CanAfford(f, plan[0].value, bp) then None
    else
      AffordChoice(f, plan[0], bp);
      RunPlan(bp, StepAndBuild(f, plan[0], bp), plan[1..])
  }

  /** A build order over all the remaining minutes that ends with `n`
      geodes. */
  predicate Achieves(bp: Blueprint, f: Factory, plan: Plan, n: nat)
  {
    |plan| == f.minutes && RunPlan(bp, f, plan).Some? && RunPlan(bp, f, plan).value.stock.geode == n
  }

  /** No build order beats the free-run bound. */
  lemma {:induction false} PlanBound(bp: Blueprint, f: Factory, plan: Plan, n: nat)
    requires Achieves(bp, f, plan, n)
    ensures n <= FreeRun(f.stock.geode, f.robots.geode, f.minutes)
    decreases |plan|
  {
    if |plan| > 0 {
      if plan[0].Some? {
        AffordAfterMining(f, plan[0].value, bp);
      }
      var c := StepAndBuild(f, plan[0], bp);
      PlanBound(bp, c, plan[1..], n);
      StepFreeRun(f, plan[0], bp);
    }
  }

  // ----- the search -----

  /** The choices the search pushes for a factory, in the order it pops
      them: waiting first, then a geode, obsidian, ore and clay robot,
      each when affordable and, but for geode robots, below its cap. */
  function Actions(bp: Blueprint, f: Factory): (r: seq<Option<Material>>)
    ensures |r| >= 1 && r[0] == None
    ensures forall i :: 0 <= i < |r| && r[i].Some? ==> CanAfford(f, r[i].value, bp)
    ensures forall i :: 0 <= i < |r| && r[i].Some? && r[i].value != Geode ==> Within(bp, f.robots, r[i].value)
  {
    var caps := RobotsForGeode(bp);
    [None]
    + (if CanAfford(f, Geode, bp) then [Some(Geode)] else [])
    + (if CanAfford(f, Obsidian, bp) && f.robots.obsidian < caps.2 then [Some(Obsidian)] else [])
    + (if CanAfford(f, Ore, bp) && f.robots.ore < caps.0 then [Some(Ore)] else [])
    + (if CanAfford(f, Clay, bp) && f.robots.clay < caps.1 then [Some(Clay)] else [])
  }

  /** Fewer robots of kind `m` than its cap. */
  predicate Within(bp: Blueprint, robots: Counts, m: Material)
  {
    var caps := RobotsForGeode(bp);
    match m
    case Ore => robots.ore < caps.0
    case Clay => robots.clay < caps.1
    case Obsidian => robots.obsidian < caps.2
    case Geode => true
  }

  /** `maxed_score` as written: once the robot counts reach
      `robots_for_geode`, report the free-run bound. */
  function MaxedScoreAsWritten(bp: Blueprint, f: Factory): Option<nat>
    requires f.minutes >= 1
  {
    var (ores, clays, obsidians) := RobotsForGeode(bp);
    if f.robots.ore < ores || f.robots.clay < clays || f.robots.obsidian < obsidians then None
    else Some(MaxNoCost(f))
  }

  /** `maxed_score` as intended: the robot counts must suffice and the
      stock must already pay for a geode robot this minute. */
  function MaxedScore(bp: Blueprint, f: Factory): (r: Option<nat>)
    requires f.minutes >= 1
    ensures r.Some? ==> MaxedScoreAsWritten(bp, f) == r
  {
    if CanAfford(f, Geode, bp) then MaxedScoreAsWritten(bp, f) else None
  }

  function Shortcut(bp: Blueprint, f: Factory, corrected: bool): Option<nat>
    requires f.minutes >= 1
  {
    if corrected then MaxedScore(bp, f) else MaxedScoreAsWritten(bp, f)
  }

  /** The value the search assigns a factory: the geodes at the end, the
      shortcut's score, or the best over the choices it pushes. */
  function Search(bp: Blueprint, f: Factory, corrected: bool): nat
    decreases f.minutes, 1
  {
    if f.minutes == 0 then f.stock.geode
    else
      match Shortcut(bp, f, corrected)
      case Some(n) => n
      case None => SearchAll(bp, f, Actions(bp, f), corrected)
  }

  function SearchAll(bp: Blueprint, f: Factory, acts: seq<Option<Material>>, corrected: bool): nat
    requires f.minutes >= 1
    requires forall i :: 0 <= i < |acts| && acts[i].Some? ==> CanAfford(f, acts[i].value, bp)
    decreases f.minutes, 0, |acts|
  {
    if |acts| == 0 then 0
    else
      AffordChoice(f, acts[0], bp);
      Max(Search(bp, StepAndBuild(f, acts[0], bp), corrected), SearchAll(bp, f, acts[1..], corrected))
  }

  /** The search never reports more than the free-run bound, which is
      what makes `max_no_cost_geodes` a safe cut-off. */
  lemma {:induction false} SearchBound(bp: Blueprint, f: Factory, corrected: bool)
    ensures Search(bp, f, corrected) <= FreeRun(f.stock.geode, f.robots.geode, f.minutes)
    decreases f.minutes, 1
  {
    if f.minutes > 0 {
      MaxNoCostIsFreeRun(f);
      if Shortcut(bp, f, corrected).None? {
        SearchAllBound(bp, f, Actions(bp, f), corrected);
      }
    }
  }

  lemma {:induction false} SearchAllBound(bp: Blueprint, f: Factory, acts: seq<Option<Material>>, corrected: bool)
    requires f.minutes >= 1
    requires forall i :: 0 <= i < |acts| && acts[i].Some? ==> CanAfford(f, acts[i].value, bp)
    ensures SearchAll(bp, f, acts, corrected) <= FreeRun(f.stock.geode, f.robots.geode, f.minutes)
    decreases f.minutes, 0, |acts|
  {
    if |acts| > 0 {
      if acts[0].Some? {
        AffordAfterMining(f, acts[0].value, bp);
      }
      SearchBound(bp, StepAndBuild(f, acts[0], bp), corrected);
      StepFreeRun(f, acts[0], bp);
      SearchAllBound(bp, f, acts[1..], corrected);
    }
  }

  /** With the intended shortcut, building a geode robot every remaining
      minute is affordable and reaches the free-run bound. */
  lemma {:induction false} GeodeEveryMinute(bp: Blueprint, f: Factory) returns (plan: Plan)
    requires f.robots.ore >= bp.geodeRobot.0 && f.robots.obsidian >= bp.geodeRobot.1
    requires CanAfford(f, Geode, bp)
    ensures Achieves(bp, f, plan, FreeRun(f.stock.geode, f.robots.geode, f.minutes))
    decreases f.minutes
  {
    if f.minutes == 0 {
      plan := [];
    } else {
      AffordAfterMining(f, Geode, bp);
      var c := StepAndBuild(f, Some(Geode), bp);
      var rest := GeodeEveryMinute(bp, c);
      plan := [Some(Geode)] + rest;
      assert plan[1..] == rest;
    }
  }

  /** The intended search reports a count some build order achieves. */
  lemma {:induction false} SearchAchieved(bp: Blueprint, f: Factory) returns (plan: Plan)
    ensures Achieves(bp, f, plan, Search(bp, f, true))
    decreases f.minutes, 1
  {
    if f.minutes == 0 {
      plan := [];
    } else {
      match MaxedScore(bp, f)
      case Some(n) =>
        MaxNoCostIsFreeRun(f);
        plan := GeodeEveryMinute(bp, f);
      case None =>
        plan := SearchAllAchieved(bp, f, Actions(bp, f));
    }
  }

  lemma {:induction false} SearchAllAchieved(bp: Blueprint, f: Factory, acts: seq<Option<Material>>) returns (plan: Plan)
    requires f.minutes >= 1 && |acts| >= 1
    requires forall i :: 0 <= i < |acts| && acts[i].Some? ==> CanAfford(f, acts[i].value, bp)
    ensures Achieves(bp, f, plan, SearchAll(bp, f, acts, true))
    decreases f.minutes, 0, |acts|
  {
    if acts[0].Some? {
      AffordAfterMining(f, acts[0].value, bp);
    }
    var c := StepAndBuild(f, acts[0], bp);
    if |acts| == 1 || Search(bp, c, true) >= SearchAll(bp, f, acts[1..], true) {
      var rest := SearchAchieved(bp, c);
      plan := [acts[0]] + rest;
      assert plan[1..] == rest;
    } else {
      plan := SearchAllAchieved(bp, f, acts[1..]);
    }
  }

  /** Every factory the search visits from a new one keeps its ore, clay
      and obsidian robots within the caps (ore robots start at one). */
  predicate WithinCaps(bp: Blueprint, f: Factory)
  {
    var caps := RobotsForGeode(bp);
    f.robots.ore <= Max(1, caps.0) && f.robots.clay <= caps.1 && f.robots.obsidian <= caps.2
  }

  lemma ActionsKeepCaps(bp: Blueprint, f: Factory, i: nat)
    requires f.minutes >= 1 && WithinCaps(bp, f) && i < |Actions(bp, f)|
    ensures var a := Actions(bp, f)[i];
      (a.Some? ==> CanAfford(MineAll(f), a.value, bp)) && WithinCaps(bp, StepAndBuild(f, a, bp))
  {
    var a := Actions(bp, f)[i];
    if a.Some? {
      AffordAfterMining(f, a.value, bp);
    }
  }

  // ----- the depth-first search with cut-offs -----

  /** States already popped at or below `level` minutes have a value the
      best so far covers. */
  ghost predicate Done(bp: Blueprint, seen: set<Factory>, best: nat, level: nat, corrected: bool)
  {
    forall s :: s in seen && s.minutes <= level ==> Search(bp, s, corrected) <= best
  }

  /** The loop of `best_geode_count` from one popped factory: finished
      factories update the best, repeated states and those whose
      free-run bound cannot beat the best are dropped, the shortcut
      scores the rest or the choices are searched in pop order. */
  function Dfs(bp: Blueprint, f: Factory, best: nat, seen: set<Factory>, corrected: bool): (r: (nat, set<Factory>))
    requires Done(bp, seen, best, f.minutes, corrected)
    ensures r.0 == Max(best, Search(bp, f, corrected))
    ensures Done(bp, r.1, r.0, f.minutes, corrected)
    ensures seen <= r.1 && forall s :: s in r.1 && s !in seen ==> s.minutes <= f.minutes
    decreases f.minutes, 1
  {
    if f.minutes == 0 then (Max(best, f.stock.geode), seen)
    else if f in seen then (best, seen)
    else
      var seen' := seen + {f};
      if MaxNoCost(f) <= best then
        MaxNoCostIsFreeRun(f);
        SearchBound(bp, f, corrected);
        (best, seen')
      else
        match Shortcut(bp, f, corrected)
        case Some(n) => (Max(best, n), seen')
        case None =>
          DoneAddCurrent(bp, seen, best, f, corrected);
          var r := DfsAll(bp, f, Actions(bp, f), best, seen', corrected);
          DfsChoicesDone(bp, f, best, seen, r, corrected);
          r
  }

  /** The factory being expanded is above the level its choices need. */
  lemma DoneAddCurrent(bp: Blueprint, seen: set<Factory>, best: nat, f: Factory, corrected: bool)
    requires f.minutes >= 1 && Done(bp, seen, best, f.minutes, corrected)
    ensures Done(bp, seen + {f}, best, f.minutes - 1, corrected)
  {
  }

  /** Once the choices are searched, the expanded factory and everything
      seen before it are covered by the new best. */
  lemma DfsChoicesDone(bp: Blueprint, f: Factory, best: nat, seen: set<Factory>, r: (nat, set<Factory>), corrected: bool)
    requires f.minutes >= 1 && Shortcut(bp, f, corrected).None?
    requires Done(bp, seen, best, f.minutes, corrected)
    requires r.0 == Max(best, SearchAll(bp, f, Actions(bp, f), corrected))
    requires Done(bp, r.1, r.0, f.minutes - 1, corrected)
    requires seen + {f} <= r.1 && forall s :: s in r.1 && s !in seen + {f} ==> s.minutes <= f.minutes - 1
    ensures r.0 == Max(best, Search(bp, f, corrected))
    ensures Done(bp, r.1, r.0, f.minutes, corrected)
  {
  }

  function DfsAll(bp: Blueprint, f: Factory, acts: seq<Option<Material>>, best: nat, seen: set<Factory>, corrected: bool): (r: (nat, set<Factory>))
    requires f.minutes >= 1
    requires forall i :: 0 <= i < |acts| && acts[i].Some? ==> CanAfford(f, acts[i].value, bp)
    requires Done(bp, seen, best, f.minutes - 1, corrected)
    ensures r.0 == Max(best, SearchAll(bp, f, acts, corrected))
    ensures Done(bp, r.1, r.0, f.minutes - 1, corrected)
    ensures seen <= r.1 && forall s :: s in r.1 && s !in seen ==> s.minutes <= f.minutes - 1
    decreases f.minutes, 0, |acts|
  {
    if |acts| == 0 then (best, seen)
    else
      AffordChoice(f, acts[0], bp);
      var c := StepAndBuild(f, acts[0], bp);
      var first := Dfs(bp, c, best, seen, corrected);
      DfsAll(bp, f, acts[1..], first.0, first.1, corrected)
  }

  /** `best_geode_count`: the search from a new factory, which the
      cut-offs and the repeated-state check do not change. */
  function BestGeodeCount(bp: Blueprint, minutes: nat, corrected: bool): (n: nat)
    ensures n == Search(bp, New(minutes), corrected)
  {
    Dfs(bp, New(minutes), 0, {}, corrected).0
  }

  /** The intended count is achieved by a build order. */
  lemma BestGeodeCountAchieved(bp: Blueprint, minutes: nat) returns (plan: Plan)
    ensures Achieves(bp, New(minutes), plan, BestGeodeCount(bp, minutes, true))
  {
    plan := SearchAchieved(bp, New(minutes));
  }

  /** From a new factory no build order opens more than one geode per
      minute-pair, the count of a free geode robot every minute. */
  lemma NewFactoryBound(bp: Blueprint, minutes: nat, plan: Plan, n: nat)
    requires Achieves(bp, New(minutes), plan, n)
    ensures 2 * n <= minutes * (minutes - 1)
  {
    PlanBound(bp, New(minutes), plan, n);
    FreeRunClosed(0, 0, minutes);
  }

  // ----- the shortcut as written over-reports -----

  /** A blueprint where every robot costs one of each material it needs. */
  const Cheap := Blueprint(1, 1, (1, 1), (1, 1))

  /** The search value is at least that of every choice it explores. */
  lemma {:induction false} SearchAllCovers(bp: Blueprint, f: Factory, acts: seq<Option<Material>>, i: nat, corrected: bool)
    requires f.minutes >= 1 && i < |acts|
    requires forall j :: 0 <= j < |acts| && acts[j].Some? ==> CanAfford(f, acts[j].value, bp)
    ensures (acts[i].Some? ==> CanAfford(MineAll(f), acts[i].value, bp)) &&
      SearchAll(bp, f, acts, corrected) >= Search(bp, StepAndBuild(f, acts[i], bp), corrected)
    decreases i
  {
    AffordChoice(f, acts[i], bp);
    if i > 0 {
      SearchAllCovers(bp, f, acts[1..], i - 1, corrected);
      assert acts[1..][i - 1] == acts[i];
    }
  }

  /** How far the first robots of each kind can come in six minutes of
      `Cheap`, counted in minutes elapsed. */
  predicate Earliest(f: Factory)
  {
    var e := 6 - f.minutes;
    f.minutes <= 6
    && (e == 0 ==> f.stock.ore == 0)
    && (f.robots.clay > 0 ==> e >= 2) && (f.stock.clay > 0 ==> e >= 3)
    && (f.robots.obsidian > 0 ==> e >= 4) && (f.stock.obsidian > 0 ==> e >= 5)
    && (f.robots.geode > 0 ==> e >= 6) && (f.stock.geode > 0 ==> e >= 7)
  }

  lemma {:induction false} CheapNoGeode(f: Factory, plan: Plan)
    requires Earliest(f) && |plan| == f.minutes && RunPlan(Cheap, f, plan).Some?
    ensures RunPlan(Cheap, f, plan).value.stock.geode == 0
    decreases |plan|
  {
    if |plan| > 0 {
      AffordChoice(f, plan[0], Cheap);
      CheapNoGeode(StepAndBuild(f, plan[0], Cheap), plan[1..]);
    }
  }

  /** With every cost one, no build order opens a geode in six minutes. */
  lemma CheapSixMinutes(p: Plan, n: nat)
    requires Achieves(Cheap, New(6), p, n)
    ensures n == 0
  {
    CheapNoGeode(New(6), p);
  }

  /** Without a shortcut, the search value covers each explored choice. */
  lemma SearchCoversChoice(bp: Blueprint, f: Factory, i: nat, corrected: bool)
    requires f.minutes >= 1 && Shortcut(bp, f, corrected).None? && i < |Actions(bp, f)|
    ensures var a := Actions(bp, f)[i];
      (a.Some? ==> CanAfford(MineAll(f), a.value, bp)) && Search(bp, f, corrected) >= Search(bp, StepAndBuild(f, a, bp), corrected)
  {
    SearchAllCovers(bp, f, Actions(bp, f), i, corrected);
  }

  /** One step of the search as written: no shortcut at `f`, and its
      `i`-th pushed choice leads to `g`. */
  predicate Pushes(bp: Blueprint, f: Factory, i: nat, g: Factory)
  {
    if f.minutes == 0 || MaxedScoreAsWritten(bp, f).Some? || i >= |Actions(bp, f)| then false
    else
      AffordChoice(f, Actions(bp, f)[i], bp);
      StepAndBuild(f, Actions(bp, f)[i], bp) == g
  }

  lemma PushesIntro(bp: Blueprint, f: Factory, i: nat, a: Option<Material>, g: Factory)
    requires f.minutes >= 1 && MaxedScoreAsWritten(bp, f).None? && i < |Actions(bp, f)| && Actions(bp, f)[i] == a
    requires a.Some? ==> CanAfford(MineAll(f), a.value, bp)
    requires StepAndBuild(f, a, bp) == g
    ensures Pushes(bp, f, i, g)
  {
  }

  /** The search as written scores a factory at least as high as any
      factory it pushes. */
  lemma PushesScores(bp: Blueprint, f: Factory, i: nat, g: Factory)
    requires Pushes(bp, f, i, g)
    ensures Search(bp, f, false) >= Search(bp, g, false)
  {
    SearchCoversChoice(bp, f, i, false);
  }

  /** The factories on the way, from six minutes left down to two. */
  const AtFive := Factory(Counts(1, 0, 0, 0), Counts(1, 0, 0, 0), 5)
  const AtFour := Factory(Counts(1, 1, 0, 0), Counts(1, 0, 0, 0), 4)
  const AtThree := Factory(Counts(1, 1, 0, 0), Counts(2, 1, 0, 0), 3)
  const AtTwo := Factory(Counts(1, 1, 1, 0), Counts(2, 1, 0, 0), 2)

  /** The search as written waits, builds a clay robot, waits and builds
      an obsidian robot. */
  lemma OverclaimSteps(bp: Blueprint)
    requires bp == Cheap
    ensures Pushes(bp, New(6), 0, AtFive) && Pushes(bp, AtFive, 1, AtFour)
    ensures Pushes(bp, AtFour, 0, AtThree) && Pushes(bp, AtThree, 1, AtTwo)
  {
    SixWaits();
    FiveBuildsClay();
    FourWaits();
    ThreeBuildsObsidian();
  }

  lemma SixWaits()
    ensures Pushes(Cheap, New(6), 0, Factory(Counts(1, 0, 0, 0), Counts(1, 0, 0, 0), 5))
  {
    assert RobotsForGeode(Cheap) == (1, 1, 1);
  }

  lemma FiveBuildsClay()
    ensures Pushes(Cheap, Factory(Counts(1, 0, 0, 0), Counts(1, 0, 0, 0), 5), 1, Factory(Counts(1, 1, 0, 0), Counts(1, 0, 0, 0), 4))
  {
    assert RobotsForGeode(Cheap) == (1, 1, 1);
  }

  lemma FourWaits()
    ensures Pushes(Cheap, Factory(Counts(1, 1, 0, 0), Counts(1, 0, 0, 0), 4), 0, Factory(Counts(1, 1, 0, 0), Counts(2, 1, 0, 0), 3))
  {
    assert RobotsForGeode(Cheap) == (1, 1, 1);
  }

  lemma ThreeBuildsObsidian()
    ensures Pushes(Cheap, Factory(Counts(1, 1, 0, 0), Counts(2, 1, 0, 0), 3), 1, Factory(Counts(1, 1, 1, 0), Counts(2, 1, 0, 0), 2))
  {
    ThreeActions();
    ThreeAffords();
    ThreeStep();
    PushesIntro(Cheap, Factory(Counts(1, 1, 0, 0), Counts(2, 1, 0, 0), 3), 1, Some(Obsidian), Factory(Counts(1, 1, 1, 0), Counts(2, 1, 0, 0), 2));
  }

  lemma ThreeActions()
    ensures MaxedScoreAsWritten(Cheap, Factory(Counts(1, 1, 0, 0), Counts(2, 1, 0, 0), 3)).None?
    ensures Actions(Cheap, Factory(Counts(1, 1, 0, 0), Counts(2, 1, 0, 0), 3)) == [None, Some(Obsidian)]
  {
    assert RobotsForGeode(Cheap) == (1, 1, 1);
  }

  lemma ThreeAffords()
    ensures CanAfford(MineAll(Factory(Counts(1, 1, 0, 0), Counts(2, 1, 0, 0), 3)), Obsidian, Cheap)
  {
  }

  lemma ThreeStep()
    ensures StepAndBuild(Factory(Counts(1, 1, 0, 0), Counts(2, 1, 0, 0), 3), Some(Obsidian), Cheap) == Factory(Counts(1, 1, 1, 0), Counts(2, 1, 0, 0), 2)
  {
  }

  /** With one ore, clay and obsidian robot and two minutes left, the
      search as written trusts `maxed_score` and reports one geode,
      though no obsidian is in stock to build a geode robot with. */
  lemma OverclaimAtTwo(bp: Blueprint)
    requires bp == Cheap
    ensures Search(bp, AtTwo, false) == 1
  {
    assert RobotsForGeode(Cheap) == (1, 1, 1);
  }

  /** The search as written reaches, after waiting, a clay robot, waiting
      and an obsidian robot, a factory whose robot counts meet
      `robots_for_geode` while no obsidian is in stock, and scores it one
      geode. */
  lemma AsWrittenReachesOverclaim(bp: Blueprint, minutes: nat)
    requires bp == Cheap && minutes == 6
    ensures Search(bp, New(minutes), false) >= 1
  {
    OverclaimSteps(bp);
    OverclaimAtTwo(bp);
    PushesScores(Cheap, AtThree, 1, AtTwo);
    PushesScores(Cheap, AtFour, 0, AtThree);
    PushesScores(Cheap, AtFive, 1, AtFour);
    PushesScores(Cheap, New(6), 0, AtFive);
  }

  /** So `best_geode_count` as written reports a geode for `Cheap` over six
      minutes where none can be opened (`CheapSixMinutes`). */
  lemma MaxedScoreAsWrittenOverclaims(bp: Blueprint, minutes: nat)
    requires bp == Cheap && minutes == 6
    ensures BestGeodeCount(bp, minutes, false) >= 1
  {
    AsWrittenReachesOverclaim(bp, minutes);
  }

  /** With the intended shortcut it reports none. */
  lemma CorrectedFindsNoGeode(bp: Blueprint, minutes: nat)
    requires bp == Cheap && minutes == 6
    ensures BestGeodeCount(bp, minutes, true) == 0
  {
    var plan := BestGeodeCountAchieved(bp, minutes);
    CheapSixMinutes(plan, BestGeodeCount(bp, minutes, true));
  }

  // ----- the two parts -----

  /** The quality levels of the plain search: the geodes each blueprint
      opens over `minutes`, times its 1-based position counted from
      `first`. */
  function Qualities(bps: seq<Blueprint>, first: nat, minutes: nat, corrected: bool): (q: seq<int>)
    ensures |q| == |bps|
  {
    seq(|bps|, k requires 0 <= k < |bps| => (first + k + 1) * Search(bps[k], New(minutes), corrected))
  }

  /** The sum of each blueprint's 1-based id times its geode count, taken
      with the cut-off search: it is the sum of the plain search's quality
      levels. */
  function QualitySum(bps: seq<Blueprint>, first: nat, minutes: nat, corrected: bool): (r: nat)
    ensures r == Sum(Qualities(bps, first, minutes, corrected))
  {
    if |bps| == 0 then 0
    else
      var head := BestGeodeCount(bps[0], minutes, corrected);
      var rest := QualitySum(bps[1..], first + 1, minutes, corrected);
      QualitiesCons(bps, first, minutes, corrected, head, rest);
      (first + 1) * head + rest
  }

  lemma QualitiesCons(bps: seq<Blueprint>, first: nat, minutes: nat, corrected: bool, head: nat, rest: nat)
    requires |bps| > 0 && head == Search(bps[0], New(minutes), corrected)
    requires rest == Sum(Qualities(bps[1..], first + 1, minutes, corrected))
    ensures (first + 1) * head + rest >= 0
    ensures Sum(Qualities(bps, first, minutes, corrected)) == (first + 1) * head + rest
  {
    var q := Qualities(bps, first, minutes, corrected);
    var t := Qualities(bps[1..], first + 1, minutes, corrected);
    assert q[0] == (first + 1) * head;
    assert q == [q[0]] + t by {
      forall k | 0 <= k < |t|
        ensures t[k] == q[k + 1]
      {
        assert bps[1..][k] == bps[k + 1];
      }
    }
    SumAppend([q[0]], t);
    assert Sum([q[0]]) == Sum([q[0]][..0]) + q[0];
  }

  /** `solve_part1`: quality levels over 24 minutes, the sum over the
      blueprints of the 1-based id times the geodes the search opens. With
      `corrected` false the search is the source's. */
  function Part1(bps: seq<Blueprint>, corrected: bool): (r: nat)
    ensures r == Sum(Qualities(bps, 0, 24, corrected))
  {
    QualitySum(bps, 0, 24, corrected)
  }

  /** The geodes each blueprint opens over `minutes` with the plain search. */
  function Geodes(bps: seq<Blueprint>, minutes: nat, corrected: bool): (g: seq<int>)
    ensures |g| == |bps|
  {
    seq(|bps|, k requires 0 <= k < |bps| => Search(bps[k], New(minutes), corrected))
  }

  /** The product of the geode counts, taken with the cut-off search: it is
      the product of the plain search's counts. */
  function GeodeProduct(bps: seq<Blueprint>, minutes: nat, corrected: bool): (r: int)
    ensures r == Product(Geodes(bps, minutes, corrected))
  {
    if |bps| == 0 then 1
    else
      var head, rest := BestGeodeCount(bps[0], minutes, corrected), GeodeProduct(bps[1..], minutes, corrected);
      GeodesCons(bps, minutes, corrected);
      head * rest
  }

  lemma GeodesCons(bps: seq<Blueprint>, minutes: nat, corrected: bool)
    requires |bps| > 0
    ensures Product(Geodes(bps, minutes, corrected))
      == Search(bps[0], New(minutes), corrected) * Product(Geodes(bps[1..], minutes, corrected))
  {
    var g := Geodes(bps, minutes, corrected);
    assert g == [g[0]] + Geodes(bps[1..], minutes, corrected);
    ProductCons(g[0], Geodes(bps[1..], minutes, corrected));
  }

  lemma {:induction false} ProductCons(x: int, s: seq<int>)
    ensures Product([x] + s) == x * Product(s)
    decreases |s|
  {
    if |s| > 0 {
      assert ([x] + s)[..|s|] == [x] + s[..|s| - 1];
      ProductCons(x, s[..|s| - 1]);
    } else {
      assert [x] + s == [x];
      assert [x][..0] == [];
    }
  }

  /** `solve_part2`: the product of the geodes the search opens over 32
      minutes for the first three blueprints (fewer when there are fewer).
      With `corrected` false the search is the source's. */
  function Part2(bps: seq<Blueprint>, corrected: bool): (r: int)
    ensures r == Product(Geodes(bps[..Min(|bps|, 3)], 32, corrected))
  {
    GeodeProduct(bps[..Min(|bps|, 3)], 32, corrected)
  }
}
