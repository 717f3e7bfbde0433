/** Proboscidea volcanium: valves joined by tunnels, a breadth-first hop
    count between every two valves, and the exhaustive search for the most
    pressure released before the volcano erupts. */
module ValvePressure {
  import opened Common
  import opened Text

  datatype Valve = Valve(name: string, flowRate: nat, tunnels: seq<string>)

  // ----- parsing -----

  /** `w.strip_suffix(',')` when it applies, `w` otherwise. */
  function TrimComma(w: string): (r: string)
    ensures r + (if EndsWith(w, ",") then "," else "") == w
  {
    if EndsWith(w, ",") then w[..|w| - 1] else w
  }

  /** "rate=N;" to N; `None` where a strip or the parse panics. */
  function ParseRate(w: string): (r: Option<nat>)
    ensures r.Some? ==> StartsWith(w, "rate=") && EndsWith(w, ";")
  {
    if StartsWith(w, "rate=") && |w| >= 6 && EndsWith(w, ";") then ParseNat(w[5..|w| - 1]) else None
  }

  /** The rate word as the puzzle prints it. */
  function ShowRate(n: nat): string
  {
    "rate=" + ShowNat(n) + ";"
  }

  /** Printing a rate and reading it back gives the rate. */
  lemma ParseRateRoundTrip(n: nat)
    ensures ParseRate(ShowRate(n)) == Some(n)
    ensures IsWord(ShowRate(n))
  {
    var w := ShowRate(n);
    assert w[..5] == "rate=" && w[|w| - 1..] == ";";
    assert w[5..|w| - 1] == ShowNat(n);
    ParseShowNat(n);
  }

  /** One line, "Valve AA has flow rate=0; tunnels lead to valves DD, II, BB":
      the name is the second word, the rate the fifth, and every word from
      the tenth on names a tunnel, less a trailing comma. */
  function ParseValve(line: string): (r: Option<Valve>)
    ensures r.Some? <==> |Words(line)| >= 5 && ParseRate(Words(line)[4]).Some?
    ensures r.Some? ==> r.value.name == Words(line)[1] && ParseRate(Words(line)[4]) == Some(r.value.flowRate)
    ensures r.Some? ==> |r.value.tunnels| == if |Words(line)| > 9 then |Words(line)| - 9 else 0
    ensures r.Some? ==> forall k :: 0 <= k < |r.value.tunnels| ==> r.value.tunnels[k] == TrimComma(Words(line)[9 + k])
  {
    var ws := Words(line);
    if |ws| < 5 then None
    else
      match ParseRate(ws[4])
      case None => None
      case Some(rate) =>
        var rest := if |ws| > 9 then ws[9..] else [];
        Some(Valve(ws[1], rate, seq(|rest|, k requires 0 <= k < |rest| => TrimComma(rest[k]))))
  }

  /** The words of a valve's line as the puzzle prints it: commas after
      every tunnel but the last. */
  function ValveWords(v: Valve): seq<string>
  {
    ["Valve", v.name, "has", "flow", ShowRate(v.flowRate), "tunnels", "lead", "to", "valves"]
    + seq(|v.tunnels|, k requires 0 <= k < |v.tunnels| => if k < |v.tunnels| - 1 then v.tunnels[k] + "," else v.tunnels[k])
  }

  /** Printing a valve's line and parsing it back gives the valve, when its
      names are words and no tunnel name ends in a comma. */
  lemma ParseValveRoundTrip(v: Valve)
    requires IsWord(v.name)
    requires forall k :: 0 <= k < |v.tunnels| ==> IsWord(v.tunnels[k]) && !EndsWith(v.tunnels[k], ",")
    ensures ParseValve(Unwords(ValveWords(v))) == Some(v)
  {
    var ws := ValveWords(v);
    ParseRateRoundTrip(v.flowRate);
    ValveWordsAreWords(v);
    WordsUnwords(ws);
    TunnelWordsBack(v);
    var r := ParseValve(Unwords(ws));
    assert ws[4] == ShowRate(v.flowRate);
    assert r.Some? && r.value.name == v.name && r.value.flowRate == v.flowRate;
    assert r.value.tunnels == v.tunnels;
  }

  /** Every word of a printed valve line is a word. */
  lemma ValveWordsAreWords(v: Valve)
    requires IsWord(v.name)
    requires forall k :: 0 <= k < |v.tunnels| ==> IsWord(v.tunnels[k])
    ensures forall k :: 0 <= k < |ValveWords(v)| ==> IsWord(ValveWords(v)[k])
  {
    var ws := ValveWords(v);
    ParseRateRoundTrip(v.flowRate);
    forall k | 0 <= k < |ws|
      ensures IsWord(ws[k])
    {
      if k >= 9 && k - 9 < |v.tunnels| - 1 {
        assert ws[k] == v.tunnels[k - 9] + ",";
      }
    }
  }

  /** Trimming the comma from each tunnel word of a printed line gives the
      tunnel back. */
  lemma TunnelWordsBack(v: Valve)
    requires forall k :: 0 <= k < |v.tunnels| ==> !EndsWith(v.tunnels[k], ",")
    ensures |ValveWords(v)| == 9 + |v.tunnels|
    ensures forall k :: 0 <= k < |v.tunnels| ==> TrimComma(ValveWords(v)[9 + k]) == v.tunnels[k]
  {
    var ws := ValveWords(v);
    forall k | 0 <= k < |v.tunnels|
      ensures TrimComma(ws[9 + k]) == v.tunnels[k]
    {
      if k < |v.tunnels| - 1 {
        var w := v.tunnels[k] + ",";
        assert ws[9 + k] == w;
        assert w[..|w| - 1] == v.tunnels[k];
      } else {
        assert ws[9 + k] == v.tunnels[k];
      }
    }
  }

  function ParseValves(lines: seq<string>): (r: Option<seq<Valve>>)
    ensures r.Some? ==> |r.value| == |lines|
  {
    if |lines| == 0 then Some([])
    else
      match (ParseValve(lines[0]), ParseValves(lines[1..]))
      case (Some(v), Some(rest)) => Some([v] + rest)
      case _ => None
  }

  /** `parse_input`. */
  function ParseInput(data: string): (r: Option<seq<Valve>>)
    ensures r.Some? ==> |r.value| == |Lines(data)|
  {
    ParseValves(Lines(data))
  }

  // ----- the tunnel graph -----

  type Graph = map<string, seq<string>>

  function Names(valves: seq<Valve>): set<string>
  {
    set v | v in valves :: v.name
  }

  /** `volcano_map`: every valve by its name, a later valve of the same
      name replacing an earlier one as the collect into a map does. */
  function VolcanoMap(valves: seq<Valve>): (g: Graph)
    ensures g.Keys == Names(valves)
    ensures |valves| > 0 ==> g[valves[|valves| - 1].name] == valves[|valves| - 1].tunnels
  {
    if |valves| == 0 then map[]
    else
      var last := valves[|valves| - 1];
      var g := VolcanoMap(valves[..|valves| - 1]);
      assert valves == valves[..|valves| - 1] + [last];
      g[last.name := last.tunnels]
  }

  function Tunnels(g: Graph, node: string): seq<string>
  {
    if node in g then g[node] else []
  }

  /** Every tunnel leads to a known valve: `volcano_map.get(..).unwrap()`
      panics otherwise. */
  predicate Closed(g: Graph)
  {
    forall node, k :: node in g && 0 <= k < |g[node]| ==> g[node][k] in g
  }

  // ----- the breadth-first hop count -----

  /** A queue entry: a valve and the valve it was reached from. */
  type Entry = (string, string)

  /** The entries a popped entry pushes: every tunnel of the valve except
      the one leading straight back. */
  function Successors(g: Graph, e: Entry): seq<Entry>
  {
    Pushed(Tunnels(g, e.0), e)
  }

  function Pushed(ns: seq<string>, e: Entry): seq<Entry>
  {
    if |ns| == 0 then []
    else
      var rest := Pushed(ns[1..], e);
      if ns[0] == e.1 then rest else [(ns[0], e.0)] + rest
  }

  lemma {:induction false} PushedContents(ns: seq<string>, e: Entry, x: Entry)
    ensures x in Pushed(ns, e) <==> x.1 == e.0 && x.0 in ns && x.0 != e.1
    decreases |ns|
  {
    if |ns| > 0 {
      PushedContents(ns[1..], e, x);
      assert x.0 in ns <==> x.0 == ns[0] || x.0 in ns[1..];
    }
  }

  /** A popped entry pushes exactly the tunnels of its valve that do not
      lead straight back. */
  lemma SuccessorsContents(g: Graph, e: Entry, x: Entry)
    ensures x in Successors(g, e) <==> x.1 == e.0 && x.0 in Tunnels(g, e.0) && x.0 != e.1
  {
    PushedContents(Tunnels(g, e.0), e, x);
  }

  /** Everything the entries of one hop count push, in queue order. */
  function NextLayer(g: Graph, layer: seq<Entry>): seq<Entry>
  {
    if |layer| == 0 then [] else Successors(g, layer[0]) + NextLayer(g, layer[1..])
  }

  lemma {:induction false} NextLayerContents(g: Graph, layer: seq<Entry>, x: Entry)
    ensures x in NextLayer(g, layer) <==> exists e :: e in layer && x in Successors(g, e)
    decreases |layer|
  {
    if |layer| > 0 {
      NextLayerContents(g, layer[1..], x);
      assert forall e :: e in layer <==> e == layer[0] || e in layer[1..];
    }
  }

  /** The queue entries carrying hop count `d`: the queue holds them all,
      in this order, between those of `d - 1` and those of `d + 1`. */
  function Layer(g: Graph, start: string, d: nat): seq<Entry>
  {
    if d == 0 then [(start, start)] else NextLayer(g, Layer(g, start, d - 1))
  }

  /** A walk through the tunnels, one valve after another. */
  predicate IsWalk(g: Graph, w: seq<string>)
  {
    |w| >= 1 && forall i :: 0 <= i < |w| - 1 ==> w[i + 1] in Tunnels(g, w[i])
  }

  /** A walk that never turns straight back, nor stays put on its first
      step; the queue explores exactly these. */
  predicate NoBacktrack(w: seq<string>)
  {
    (|w| >= 2 ==> w[1] != w[0]) && forall i :: 2 <= i < |w| ==> w[i] != w[i - 2]
  }

  /** Where the last valve of a walk was reached from. */
  function Before(w: seq<string>): string
    requires |w| >= 1
  {
    if |w| == 1 then w[0] else w[|w| - 2]
  }

  /** An entry of a later layer was pushed by an entry of the layer before. */
  lemma Pusher(g: Graph, start: string, d: nat, e: Entry) returns (p: Entry)
    requires d > 0 && e in Layer(g, start, d)
    ensures p in Layer(g, start, d - 1) && p.0 == e.1 && e.0 in Tunnels(g, p.0)
  {
    NextLayerContents(g, Layer(g, start, d - 1), e);
    p :| p in Layer(g, start, d - 1) && e in Successors(g, p);
    SuccessorsContents(g, p, e);
  }

  lemma ExtendWalk(g: Graph, v: seq<string>, x: string)
    requires IsWalk(g, v) && x in Tunnels(g, v[|v| - 1])
    ensures IsWalk(g, v + [x])
  {
    var w := v + [x];
    forall i | 0 <= i < |w| - 1
      ensures w[i + 1] in Tunnels(g, w[i])
    {
      if i < |v| - 1 {
        assert w[i + 1] == v[i + 1] && w[i] == v[i];
      }
    }
  }

  /** Every entry of a layer ends a walk from the start of that many hops. */
  lemma {:induction false} LayerSound(g: Graph, start: string, d: nat, e: Entry) returns (w: seq<string>)
    requires e in Layer(g, start, d)
    ensures IsWalk(g, w) && |w| == d + 1 && w[0] == start && w[d] == e.0 && Before(w) == e.1
  {
    if d == 0 {
      w := [start];
    } else {
      var p := Pusher(g, start, d, e);
      var v := LayerSound(g, start, d - 1, p);
      ExtendWalk(g, v, e.0);
      w := v + [e.0];
    }
  }

  /** Every walk that never turns back reaches the layer of its length. */
  lemma {:induction false} LayerComplete(g: Graph, start: string, w: seq<string>)
    requires IsWalk(g, w) && NoBacktrack(w) && w[0] == start
    ensures (w[|w| - 1], Before(w)) in Layer(g, start, |w| - 1)
    decreases |w|
  {
    if |w| > 1 {
      var v := w[..|w| - 1];
      assert IsWalk(g, v) && NoBacktrack(v) by {
        assert forall i :: 0 <= i < |v| ==> v[i] == w[i];
      }
      LayerComplete(g, start, v);
      var p := (v[|v| - 1], Before(v));
      var e := (w[|w| - 1], Before(w));
      assert e.1 == p.0 && e.0 in Tunnels(g, p.0);
      assert e.0 != p.1 by {
        if |v| > 1 {
          assert p.1 == w[|w| - 3];
        }
      }
      SuccessorsContents(g, p, e);
      NextLayerContents(g, Layer(g, start, |w| - 2), e);
    }
  }

  /** A walk between two valves can be made to never turn back without
      getting longer. */
  lemma {:induction false} DropBacktracks(g: Graph, w: seq<string>) returns (v: seq<string>)
    requires IsWalk(g, w)
    ensures IsWalk(g, v) && NoBacktrack(v) && |v| <= |w|
    ensures v[0] == w[0] && v[|v| - 1] == w[|w| - 1]
    decreases |w|
  {
    if |w| >= 2 && w[1] == w[0] {
      var u := w[1..];
      assert forall i :: 0 <= i < |u| ==> u[i] == w[i + 1];
      v := DropBacktracks(g, u);
    } else if i :| 2 <= i < |w| && w[i] == w[i - 2] {
      // w[i - 1], w[i] turn straight back: cut both
      var u := w[..i - 1] + w[i + 1..];
      forall j | 0 <= j < |u| - 1
        ensures u[j + 1] in Tunnels(g, u[j])
      {
        if j + 1 < i - 1 {
          assert u[j + 1] == w[j + 1] && u[j] == w[j];
        } else if j + 1 == i - 1 {
          assert u[j + 1] == w[i + 1] && u[j] == w[i - 2] == w[i];
        } else {
          assert u[j + 1] == w[j + 3] && u[j] == w[j + 2];
        }
      }
      v := DropBacktracks(g, u);
    } else {
      v := w;
    }
  }

  predicate WalkBetween(g: Graph, w: seq<string>, a: string, b: string)
  {
    IsWalk(g, w) && w[0] == a && w[|w| - 1] == b
  }

  /** What a search result says about a walk to the target: a found hop
      count is no longer, an emptied queue cannot happen, and a passed
      bound means the walk is longer than the bound. */
  predicate NotShorter(r: Search, w: seq<string>, fuel: nat)
  {
    match r
    case Found(h) => h <= |w| - 1
    case Exhausted => false
    case OutOfFuel => |w| - 1 > fuel
  }

  /** How the queue ran out: the target popped at some hop count, the
      queue emptied, or the model's hop bound was passed. */
  datatype Search = Found(hops: nat) | Exhausted | OutOfFuel

  predicate Reaches(layer: seq<Entry>, finish: string)
  {
    exists e :: e in layer && e.0 == finish
  }

  /** Popping the layers from hop count `d` on. */
  function SearchFrom(g: Graph, start: string, finish: string, d: nat, fuel: nat): Search
    decreases fuel - d
  {
    var layer := Layer(g, start, d);
    if |layer| == 0 then Exhausted
    else if Reaches(layer, finish) then Found(d)
    else if d >= fuel then OutOfFuel
    else SearchFrom(g, start, finish, d + 1, fuel)
  }

  /** What a search from `d` on has seen: each layer it passed holds
      entries but not the target, and the layer it stops at is the one
      its answer names. */
  lemma {:induction false} SearchFromLayers(g: Graph, start: string, finish: string, d: nat, fuel: nat, k: nat)
    requires d <= k
    ensures SearchFrom(g, start, finish, d, fuel).Found? ==> SearchFrom(g, start, finish, d, fuel).hops >= d
    ensures SearchFrom(g, start, finish, d, fuel).Found? && k < SearchFrom(g, start, finish, d, fuel).hops
      ==> |Layer(g, start, k)| > 0 && !Reaches(Layer(g, start, k), finish)
    ensures SearchFrom(g, start, finish, d, fuel).Found? && k == SearchFrom(g, start, finish, d, fuel).hops
      ==> Reaches(Layer(g, start, k), finish)
    ensures SearchFrom(g, start, finish, d, fuel) == OutOfFuel && k <= fuel ==> !Reaches(Layer(g, start, k), finish)
    ensures SearchFrom(g, start, finish, d, fuel) == Exhausted ==> !Reaches(Layer(g, start, k), finish)
    decreases fuel - d
  {
    var layer := Layer(g, start, d);
    if |layer| == 0 {
      EmptyLayerStays(g, start, d, k);
    } else if !Reaches(layer, finish) && d < fuel {
      SearchFromLayers(g, start, finish, d + 1, fuel, if k > d then k else d + 1);
    }
  }

  lemma {:induction false} EmptyLayerStays(g: Graph, start: string, d: nat, k: nat)
    requires d <= k && |Layer(g, start, d)| == 0
    ensures |Layer(g, start, k)| == 0
    decreases k - d
  {
    if d < k {
      EmptyLayerStays(g, start, d + 1, k);
    }
  }

  /** A walk to the target puts the target in the layer of some hop count
      no larger than the walk's length. */
  lemma WalkReaches(g: Graph, start: string, finish: string, w: seq<string>) returns (k: nat)
    requires IsWalk(g, w) && w[0] == start && w[|w| - 1] == finish
    ensures k <= |w| - 1 && Reaches(Layer(g, start, k), finish)
  {
    var v := DropBacktracks(g, w);
    LayerComplete(g, start, v);
    k := |v| - 1;
  }

  /** The hop count the queue finds is the length of the shortest walk; an
      emptied queue means no walk at all; a passed bound means no walk
      within it. */
  lemma SearchMeaning(g: Graph, start: string, finish: string, fuel: nat)
    ensures SearchFrom(g, start, finish, 0, fuel).Found? ==>
      exists w :: WalkBetween(g, w, start, finish) && |w| - 1 == SearchFrom(g, start, finish, 0, fuel).hops
    ensures forall w :: WalkBetween(g, w, start, finish) ==> NotShorter(SearchFrom(g, start, finish, 0, fuel), w, fuel)
  {
    var r := SearchFrom(g, start, finish, 0, fuel);
    if r.Found? {
      SearchFromLayers(g, start, finish, 0, fuel, r.hops);
      var e :| e in Layer(g, start, r.hops) && e.0 == finish;
      var w := LayerSound(g, start, r.hops, e);
      assert WalkBetween(g, w, start, finish);
    }
    forall w | WalkBetween(g, w, start, finish)
      ensures NotShorter(r, w, fuel)
    {
      var k := WalkReaches(g, start, finish, w);
      SearchFromLayers(g, start, finish, 0, fuel, k);
    }
  }

  /** The answer for a pair that is never found. */
  const NoRoute := 999999999

  /** What popping one layer's entries in queue order meets first: the
      target, a valve with no line of its own (where the source's
      `volcano_map.get(node).unwrap()` panics), or neither. The target is
      tested before the lookup. */
  datatype Pop = Hit | Missing | Through

  function PopLayer(g: Graph, layer: seq<Entry>, finish: string): Pop
  {
    if |layer| == 0 then Through
    else if layer[0].0 == finish then Hit
    else if layer[0].0 !in g then Missing
    else PopLayer(g, layer[1..], finish)
  }

  /** The pop passes a layer exactly when no entry is the target and every
      entry has a line; it meets a missing valve exactly when one comes
      before any entry for the target; and it stops at the target only
      when the layer holds it. */
  lemma {:induction false} PopLayerMeaning(g: Graph, layer: seq<Entry>, finish: string)
    ensures PopLayer(g, layer, finish) == Through <==>
      forall i :: 0 <= i < |layer| ==> layer[i].0 != finish && layer[i].0 in g
    ensures PopLayer(g, layer, finish) == Hit ==> Reaches(layer, finish)
    ensures PopLayer(g, layer, finish) == Missing <==>
      exists i :: 0 <= i < |layer| && layer[i].0 !in g && layer[i].0 != finish &&
        forall j :: 0 <= j < i ==> layer[j].0 != finish
    decreases |layer|
  {
    if |layer| > 0 && layer[0].0 != finish && layer[0].0 in g {
      var rest := layer[1..];
      PopLayerMeaning(g, rest, finish);
      assert forall i :: 1 <= i < |layer| ==> layer[i] == rest[i - 1];
      if PopLayer(g, rest, finish) == Missing {
        var i :| 0 <= i < |rest| && rest[i].0 !in g && rest[i].0 != finish &&
                 forall j :: 0 <= j < i ==> rest[j].0 != finish;
        forall j | 0 <= j < i + 1 ensures layer[j].0 != finish {
          if j > 0 { assert layer[j] == rest[j - 1]; }
        }
        assert layer[i + 1] == rest[i];
      }
      if PopLayer(g, rest, finish) == Hit {
        var e :| e in rest && e.0 == finish;
        assert e in layer;
      }
    } else if |layer| > 0 && layer[0].0 == finish {
      assert layer[0] in layer;
    }
  }

  /** The source's queue pops, layer by layer up to the hop bound, a valve
      with no line of its own before it meets the target. */
  predicate PanicsFrom(g: Graph, start: string, finish: string, d: nat, fuel: nat)
    decreases fuel - d
  {
    var layer := Layer(g, start, d);
    match PopLayer(g, layer, finish)
    case Missing => true
    case Hit => false
    case Through => |layer| > 0 && d < fuel && PanicsFrom(g, start, finish, d + 1, fuel)
  }

  /** `find_shortest_distance`, with the hop count bounded by the number of
      valves: past it the source keeps going, and either empties its queue
      or never stops. `None` where the source panics on a missing valve. */
  function ShortestDistance(g: Graph, start: string, finish: string, fuel: nat): (r: Option<nat>)
    ensures r.None? <==> PanicsFrom(g, start, finish, 0, fuel)
  {
    if PanicsFrom(g, start, finish, 0, fuel) then None
    else
      match SearchFrom(g, start, finish, 0, fuel)
      case Found(h) => Some(h)
      case Exhausted => Some(NoRoute)
      case OutOfFuel => Some(NoRoute)
  }

  /** In a map whose tunnels all lead to valves of the map, every queue
      entry names a valve of the map. */
  lemma {:induction false} LayerInGraph(g: Graph, start: string, d: nat, e: Entry)
    requires Closed(g) && start in g && e in Layer(g, start, d)
    ensures e.0 in g
  {
    if d > 0 {
      var p := Pusher(g, start, d, e);
      LayerInGraph(g, start, d - 1, p);
      SuccessorsContents(g, p, e);
    }
  }

  /** So the search never panics there: `Closed` is enough. */
  lemma {:induction false} ClosedNeverPanics(g: Graph, start: string, finish: string, d: nat, fuel: nat)
    requires Closed(g) && start in g
    ensures !PanicsFrom(g, start, finish, d, fuel)
    decreases fuel - d
  {
    var layer := Layer(g, start, d);
    forall i | 0 <= i < |layer| ensures layer[i].0 in g {
      LayerInGraph(g, start, d, layer[i]);
    }
    PopLayerMeaning(g, layer, finish);
    if d < fuel {
      ClosedNeverPanics(g, start, finish, d + 1, fuel);
    }
  }


  // ----- the distance table -----

  function Pairs(names: set<string>): (r: set<(string, string)>)
    ensures forall a, b :: (a, b) in r <==> a in names && b in names
  {
    set a, b | a in names && b in names :: (a, b)
  }

  /** `PipeSystem::new` panics when the search between some two different
      valves does. */
  predicate TablePanics(valves: seq<Valve>)
  {
    exists a, b :: a in Names(valves) && b in Names(valves) && a != b &&
      PanicsFrom(VolcanoMap(valves), a, b, 0, |valves|)
  }

  /** When every tunnel leads to a valve of the input, building the table
      never panics. */
  lemma ClosedTableNeverPanics(valves: seq<Valve>)
    ensures Closed(VolcanoMap(valves)) ==> !TablePanics(valves)
  {
    if Closed(VolcanoMap(valves)) {
      forall a, b | a in Names(valves) && b in Names(valves) && a != b
        ensures !PanicsFrom(VolcanoMap(valves), a, b, 0, |valves|)
      {
        ClosedNeverPanics(VolcanoMap(valves), a, b, 0, |valves|);
      }
    }
  }

  /** `PipeSystem::new`'s table: 0 from a valve to itself, the hop count
      of the queue search between any two others. */
  function DistanceTable(valves: seq<Valve>): (t: map<(string, string), nat>)
    requires !TablePanics(valves)
    ensures t.Keys == Pairs(Names(valves))
  {
    var g := VolcanoMap(valves);
    map p | p in Pairs(Names(valves)) ::
      if p.0 == p.1 then 0 else ShortestDistance(g, p.0, p.1, |valves|).value
  }

  /** The table has an entry for every ordered pair of valves, 0 from a
      valve to itself. */
  lemma DistanceTableDiagonal(valves: seq<Valve>, a: string, b: string)
    requires !TablePanics(valves) && a in Names(valves) && b in Names(valves)
    ensures (a, b) in DistanceTable(valves)
    ensures a == b ==> DistanceTable(valves)[(a, b)] == 0
  {
    assert (a, b) in Pairs(Names(valves));
  }

  /** Between two different valves the table holds the length of the
      shortest walk through the tunnels: a walk of that length exists
      unless the pair is marked unreachable, and no walk within the bound
      is shorter. */
  lemma {:induction false} DistanceTableShortest(valves: seq<Valve>, a: string, b: string)
    requires !TablePanics(valves) && a in Names(valves) && b in Names(valves) && a != b
    ensures DistanceTable(valves)[(a, b)] != NoRoute ==>
      exists w :: WalkBetween(VolcanoMap(valves), w, a, b) && |w| - 1 == DistanceTable(valves)[(a, b)]
    ensures forall w :: WalkBetween(VolcanoMap(valves), w, a, b) && |w| - 1 <= |valves| ==>
      DistanceTable(valves)[(a, b)] <= |w| - 1
  {
    var g := VolcanoMap(valves);
    var n := |valves|;
    DistanceTableEntry(valves, a, b);
    SearchMeaning(g, a, b, n);
    var r := SearchFrom(g, a, b, 0, n);
    forall w | WalkBetween(g, w, a, b) && |w| - 1 <= n
      ensures DistanceTable(valves)[(a, b)] <= |w| - 1
    {
      assert NotShorter(r, w, n);
    }
  }

  /** Between two different valves the table's entry is the hop count. */
  lemma {:induction false} DistanceTableEntry(valves: seq<Valve>, a: string, b: string)
    requires !TablePanics(valves) && a in Names(valves) && b in Names(valves) && a != b
    ensures (a, b) in DistanceTable(valves)
    ensures ShortestDistance(VolcanoMap(valves), a, b, |valves|) == Some(DistanceTable(valves)[(a, b)])
  {
    assert (a, b) in Pairs(Names(valves));
  }

  // ----- opening valves -----

  /** `productive_valves`: name and flow rate of every valve whose flow is
      positive, in input order. */
  function ProductiveValves(valves: seq<Valve>): (r: seq<(string, nat)>)
    ensures forall x :: x in r <==> exists v :: v in valves && v.flowRate > 0 && x == (v.name, v.flowRate)
  {
    if |valves| == 0 then []
    else
      var rest := ProductiveValves(valves[1..]);
      assert forall v :: v in valves <==> v == valves[0] || v in valves[1..];
      if valves[0].flowRate > 0 then [(valves[0].name, valves[0].flowRate)] + rest else rest
  }

  /** `PipeSystem`: the productive valves and the table of hop counts. */
  datatype PipeSystem = PipeSystem(productive: seq<(string, nat)>, distances: map<(string, string), nat>)

  function NewSystem(valves: seq<Valve>): PipeSystem
    requires !TablePanics(valves)
  {
    PipeSystem(ProductiveValves(valves), DistanceTable(valves))
  }

  /** `min_distance` is defined from `from` to every productive valve. */
  predicate Known(sys: PipeSystem, from: string)
  {
    forall k :: 0 <= k < |sys.productive| ==> (from, sys.productive[k].0) in sys.distances
  }

  /** ... and from every productive valve. */
  predicate Ready(sys: PipeSystem)
  {
    forall k :: 0 <= k < |sys.productive| ==> Known(sys, sys.productive[k].0)
  }

  lemma ReadyKnows(sys: PipeSystem, k: nat)
    requires Ready(sys) && k < |sys.productive|
    ensures Known(sys, sys.productive[k].0)
  {
  }

  /** A system built from the input is ready, and knows the way from every
      valve of the input. */
  lemma NewSystemReady(valves: seq<Valve>, from: string)
    requires !TablePanics(valves)
    ensures Ready(NewSystem(valves))
    ensures from in Names(valves) ==> Known(NewSystem(valves), from)
  {
    var sys := NewSystem(valves);
    forall k | 0 <= k < |sys.productive|
      ensures sys.productive[k].0 in Names(valves)
    {
      assert sys.productive[k] in sys.productive;
    }
  }

  /** The minute a valve is open: after the walk there and one minute to
      turn it. */
  function Arrival(sys: PipeSystem, t: nat, from: string, k: nat): nat
    requires Known(sys, from) && k < |sys.productive|
  {
    t + sys.distances[(from, sys.productive[k].0)] + 1
  }

  const Minutes := 30

  /** `highest_pressure`: the most pressure the valves not yet `seen` can
      still release when standing at `from` at minute `t`. */
  function Pressure(sys: PipeSystem, t: nat, from: string, seen: set<string>): nat
    requires Ready(sys) && Known(sys, from) && t <= Minutes
    decreases Minutes - t, 1, 0
  {
    PressureFrom(sys, t, from, seen, 0)
  }

  /** The best over the productive valves from index `k` on. */
  function PressureFrom(sys: PipeSystem, t: nat, from: string, seen: set<string>, k: nat): nat
    requires Ready(sys) && Known(sys, from) && t <= Minutes && k <= |sys.productive|
    decreases Minutes - t, 0, |sys.productive| - k
  {
    if k == |sys.productive| then 0
    else
      var rest := PressureFrom(sys, t, from, seen, k + 1);
      var to := sys.productive[k].0;
      var nt := Arrival(sys, t, from, k);
      if to in seen || nt > Minutes then rest
      else
        var a := Pressure(sys, nt, to, seen + {to}) + (Minutes - nt) * sys.productive[k].1;
        if a > rest then a else rest
  }

  /** The pressure released by opening the valves of `s`, indices into the
      productive valves, in that order: `None` if one was already open or
      would open after the last minute. */
  function Release(sys: PipeSystem, t: nat, from: string, seen: set<string>, s: seq<nat>): Option<nat>
    requires Ready(sys) && Known(sys, from) && t <= Minutes
    decreases |s|
  {
    if |s| == 0 then Some(0)
    else if s[0] >= |sys.productive| then None
    else
      var to := sys.productive[s[0]].0;
      var nt := Arrival(sys, t, from, s[0]);
      if to in seen || nt > Minutes then None
      else
        match Release(sys, nt, to, seen + {to}, s[1..])
        case None => None
        case Some(v) => Some(v + (Minutes - nt) * sys.productive[s[0]].1)
  }

  /** A valid order opens every valve at most once, never one already seen. */
  lemma {:induction false} ReleaseOpensOnce(sys: PipeSystem, t: nat, from: string, seen: set<string>, s: seq<nat>)
    requires Ready(sys) && Known(sys, from) && t <= Minutes
    requires Release(sys, t, from, seen, s).Some?
    ensures forall i :: 0 <= i < |s| ==> s[i] < |sys.productive| && sys.productive[s[i]].0 !in seen
    ensures forall i, j :: 0 <= i < j < |s| ==> sys.productive[s[i]].0 != sys.productive[s[j]].0
    decreases |s|
  {
    if |s| > 0 {
      var to := sys.productive[s[0]].0;
      var nt := Arrival(sys, t, from, s[0]);
      ReleaseOpensOnce(sys, nt, to, seen + {to}, s[1..]);
      assert forall i :: 1 <= i < |s| ==> s[i] == s[1..][i - 1];
    }
  }

  /** The candidate a valve of index `i` adds to the best from `k` on. */
  lemma {:induction false} PressureFromCovers(sys: PipeSystem, t: nat, from: string, seen: set<string>, k: nat, i: nat)
    requires Ready(sys) && Known(sys, from) && t <= Minutes && k <= i < |sys.productive|
    requires sys.productive[i].0 !in seen && Arrival(sys, t, from, i) <= Minutes
    ensures PressureFrom(sys, t, from, seen, k) >=
      Pressure(sys, Arrival(sys, t, from, i), sys.productive[i].0, seen + {sys.productive[i].0})
        + (Minutes - Arrival(sys, t, from, i)) * sys.productive[i].1
    decreases i - k
  {
    if k < i {
      PressureFromCovers(sys, t, from, seen, k + 1, i);
    }
  }

  /** No order of opening valves releases more than `highest_pressure`. */
  lemma {:induction false} PressureIsBest(sys: PipeSystem, t: nat, from: string, seen: set<string>, s: seq<nat>)
    requires Ready(sys) && Known(sys, from) && t <= Minutes
    requires Release(sys, t, from, seen, s).Some?
    ensures Release(sys, t, from, seen, s).value <= Pressure(sys, t, from, seen)
    decreases |s|
  {
    if |s| > 0 {
      var to := sys.productive[s[0]].0;
      var nt := Arrival(sys, t, from, s[0]);
      PressureIsBest(sys, nt, to, seen + {to}, s[1..]);
      PressureFromCovers(sys, t, from, seen, 0, s[0]);
    }
  }

  /** ... and some order releases exactly that much. */
  lemma {:induction false} PressureIsAchieved(sys: PipeSystem, t: nat, from: string, seen: set<string>)
    returns (s: seq<nat>)
    requires Ready(sys) && Known(sys, from) && t <= Minutes
    ensures Release(sys, t, from, seen, s) == Some(Pressure(sys, t, from, seen))
    decreases Minutes - t, 1, 0
  {
    s := PressureFromAchieved(sys, t, from, seen, 0);
  }

  lemma {:induction false} PressureFromAchieved(sys: PipeSystem, t: nat, from: string, seen: set<string>, k: nat)
    returns (s: seq<nat>)
    requires Ready(sys) && Known(sys, from) && t <= Minutes && k <= |sys.productive|
    ensures Release(sys, t, from, seen, s) == Some(PressureFrom(sys, t, from, seen, k))
    decreases Minutes - t, 0, |sys.productive| - k
  {
    if k == |sys.productive| {
      s := [];
    } else {
      var rest := PressureFrom(sys, t, from, seen, k + 1);
      var to := sys.productive[k].0;
      var nt := Arrival(sys, t, from, k);
      if to in seen || nt > Minutes {
        s := PressureFromAchieved(sys, t, from, seen, k + 1);
      } else {
        var a := Pressure(sys, nt, to, seen + {to}) + (Minutes - nt) * sys.productive[k].1;
        if a > rest {
          var tail := PressureIsAchieved(sys, nt, to, seen + {to});
          s := [k] + tail;
          assert s[1..] == tail;
        } else {
          s := PressureFromAchieved(sys, t, from, seen, k + 1);
        }
      }
    }
  }

  /** `highest_pressure` is the most any opening order releases. */
  lemma PressureOptimal(sys: PipeSystem, t: nat, from: string, seen: set<string>)
    requires Ready(sys) && Known(sys, from) && t <= Minutes
    ensures forall s :: Release(sys, t, from, seen, s).Some? ==> Release(sys, t, from, seen, s).value <= Pressure(sys, t, from, seen)
    ensures exists s :: Release(sys, t, from, seen, s) == Some(Pressure(sys, t, from, seen))
  {
    forall s | Release(sys, t, from, seen, s).Some?
      ensures Release(sys, t, from, seen, s).value <= Pressure(sys, t, from, seen)
    {
      PressureIsBest(sys, t, from, seen, s);
    }
    var s := PressureIsAchieved(sys, t, from, seen);
  }

  /** Where the source panics before it answers: building the table, or
      looking up the way from AA, which has no line of its own, to a
      productive valve. */
  predicate Unanswered(valves: seq<Valve>)
  {
    TablePanics(valves) || ("AA" !in Names(valves) && |ProductiveValves(valves)| > 0)
  }

  /** `get_max_pressure`: alone, from valve AA at minute 0, the most any
      opening order releases in 30 minutes; `None` where the source
      panics. */
  function Part1(valves: seq<Valve>): (r: Option<nat>)
    ensures r.None? <==> Unanswered(valves)
    ensures Closed(VolcanoMap(valves)) && ("AA" in Names(valves) || |ProductiveValves(valves)| == 0) ==> r.Some?
    ensures r.Some? ==> (NewSystemReady(valves, "AA");
      forall s :: Release(NewSystem(valves), 0, "AA", {}, s).Some? ==> Release(NewSystem(valves), 0, "AA", {}, s).value <= r.value)
    ensures r.Some? ==> (NewSystemReady(valves, "AA");
      exists s :: Release(NewSystem(valves), 0, "AA", {}, s) == r)
  {
    ClosedTableNeverPanics(valves);
    if Unanswered(valves) then None
    else
      NewSystemReady(valves, "AA");
      PressureOptimal(NewSystem(valves), 0, "AA", {});
      Some(Pressure(NewSystem(valves), 0, "AA", {}))
  }

  /** A tunnel to a valve with no line of its own is harmless while the
      queue never pops it: from AA the search meets BB before ZZ, and from
      BB it meets AA at once, so the source answers 140 (BB opened at
      minute 2 releases 5 for 28 minutes). */
  lemma UndeclaredTunnel(valves: seq<Valve>)
    requires valves == [Valve("AA", 0, ["BB", "ZZ"]), Valve("BB", 5, ["AA"])]
    ensures !Closed(VolcanoMap(valves))
    ensures Part1(valves) == Some(140)
  {
    ExampleValves(valves);
    ExampleTable(valves);
    var sys := NewSystem(valves);
    NewSystemReady(valves, "AA");
    ExamplePressure(sys);
  }

  /** The map, names and productive valves of that input. */
  lemma ExampleValves(valves: seq<Valve>)
    requires valves == [Valve("AA", 0, ["BB", "ZZ"]), Valve("BB", 5, ["AA"])]
    ensures VolcanoMap(valves) == map["AA" := ["BB", "ZZ"], "BB" := ["AA"]]
    ensures !Closed(VolcanoMap(valves))
    ensures Names(valves) == {"AA", "BB"}
    ensures ProductiveValves(valves) == [("BB", 5)]
  {
    var g := VolcanoMap(valves);
    assert valves[..1] == [valves[0]] && valves[..1][..0] == [];
    assert g == map["AA" := ["BB", "ZZ"], "BB" := ["AA"]];
    assert g["AA"][1] == "ZZ" && "ZZ" !in g;
    assert valves[0] in valves && valves[1] in valves;
    var tail := valves[1..];
    assert tail == [Valve("BB", 5, ["AA"])] && tail[1..] == [];
    assert ProductiveValves(tail[1..]) == [];
    assert ProductiveValves(tail) == [("BB", 5)];
  }

  /** Its table never panics and holds one hop between AA and BB. */
  lemma ExampleTable(valves: seq<Valve>)
    requires valves == [Valve("AA", 0, ["BB", "ZZ"]), Valve("BB", 5, ["AA"])]
    ensures !TablePanics(valves)
    ensures DistanceTable(valves)[("AA", "BB")] == 1 && DistanceTable(valves)[("BB", "BB")] == 0
  {
    ExampleValves(valves);
    var g := VolcanoMap(valves);
    ExampleSearch(g, "AA", "BB", ["BB", "ZZ"], ["AA"]);
    assert g == map["BB" := ["AA"], "AA" := ["BB", "ZZ"]];
    ExampleSearch(g, "BB", "AA", ["AA"], ["BB", "ZZ"]);
    assert ("AA", "BB") in Pairs(Names(valves)) && ("BB", "BB") in Pairs(Names(valves));
  }

  /** Opening BB, one hop from AA, at minute 2 is the best there is. */
  lemma ExamplePressure(sys: PipeSystem)
    requires sys.productive == [("BB", 5)] && Ready(sys) && Known(sys, "AA")
    requires ("AA", "BB") in sys.distances && sys.distances[("AA", "BB")] == 1
    ensures Pressure(sys, 0, "AA", {}) == 140
  {
    assert Known(sys, sys.productive[0].0);
    assert PressureFrom(sys, 2, "BB", {"BB"}, 1) == 0;
    assert Pressure(sys, 2, "BB", {"BB"}) == 0;
    assert Arrival(sys, 0, "AA", 0) == 2;
    assert PressureFrom(sys, 0, "AA", {}, 1) == 0;
    assert {} + {"BB"} == {"BB"};
    assert PressureFrom(sys, 0, "AA", {}, 0) == 140;
  }

  /** A two-valve map searched from `a`: the target `b` is the first
      tunnel of `a`, and `a` is the first tunnel of `b`. */
  lemma ExampleSearch(g: Graph, a: string, b: string, ta: seq<string>, tb: seq<string>)
    requires g == map[a := ta, b := tb] && a != b && |ta| > 0 && ta[0] == b
    ensures !PanicsFrom(g, a, b, 0, 2)
    ensures SearchFrom(g, a, b, 0, 2) == Found(1)
  {
    assert Layer(g, a, 0) == [(a, a)];
    assert PopLayer(g, [(a, a)], b) == Through;
    var l1 := Layer(g, a, 1);
    assert Successors(g, (a, a)) == Pushed(ta, (a, a));
    assert Pushed(ta, (a, a))[0] == (b, a);
    assert l1 == Pushed(ta, (a, a)) by {
      assert NextLayer(g, [(a, a)]) == Successors(g, (a, a)) + NextLayer(g, []);
    }
    assert PopLayer(g, l1, b) == Hit;
    assert Reaches(l1, b);
  }

  // ----- opening valves with the elephant's help -----

  const HelperMinutes := 26

  /** Where one of the two stands, and from which minute. */
  type Agent = (nat, string)

  predicate AgentOk(sys: PipeSystem, x: Agent)
  {
    x.0 <= HelperMinutes && Known(sys, x.1)
  }

  /** `highest_pressure_with_helper`: the two take turns, each turn opening
      one valve not yet `visited` by either; the turn passes whatever the
      valve chosen. */
  function PressureWithHelper(sys: PipeSystem, helpersTurn: bool, me: Agent, helper: Agent, visited: set<string>): nat
    requires Ready(sys) && AgentOk(sys, me) && AgentOk(sys, helper)
    decreases HelperMinutes - me.0 + HelperMinutes - helper.0, 1, 0
  {
    PressureWithHelperFrom(sys, helpersTurn, me, helper, visited, 0)
  }

  function PressureWithHelperFrom(sys: PipeSystem, helpersTurn: bool, me: Agent, helper: Agent, visited: set<string>, k: nat): nat
    requires Ready(sys) && AgentOk(sys, me) && AgentOk(sys, helper) && k <= |sys.productive|
    decreases HelperMinutes - me.0 + HelperMinutes - helper.0, 0, |sys.productive| - k
  {
    if k == |sys.productive| then 0
    else
      var rest := PressureWithHelperFrom(sys, helpersTurn, me, helper, visited, k + 1);
      var to := sys.productive[k].0;
      var mover := if helpersTurn then helper else me;
      var nt := Arrival(sys, mover.0, mover.1, k);
      if to in visited || nt > HelperMinutes then rest
      else
        var a := PressureWithHelper(sys, !helpersTurn,
          if helpersTurn then me else (nt, to), if helpersTurn then (nt, to) else helper,
          visited + {to}) + (HelperMinutes - nt) * sys.productive[k].1;
        if a > rest then a else rest
  }

  /** What a valve of `rate` releases when opened at minute `t` of `limit`. */
  function Gain(limit: nat, t: nat, rate: nat): nat
    requires t <= limit
  {
    (limit - t) * rate
  }

  /** The pressure released when the two open the valves of `s` in that
      order, taking turns. */
  function ReleaseWithHelper(sys: PipeSystem, helpersTurn: bool, me: Agent, helper: Agent, visited: set<string>, s: seq<nat>): Option<nat>
    requires Ready(sys) && AgentOk(sys, me) && AgentOk(sys, helper)
    decreases |s|
  {
    if |s| == 0 then Some(0)
    else if s[0] >= |sys.productive| then None
    else
      var to := sys.productive[s[0]].0;
      var mover := if helpersTurn then helper else me;
      var nt := Arrival(sys, mover.0, mover.1, s[0]);
      if to in visited || nt > HelperMinutes then None
      else
        var me' := if helpersTurn then me else (nt, to);
        var helper' := if helpersTurn then (nt, to) else helper;
        ReadyKnows(sys, s[0]);
        assert AgentOk(sys, me') && AgentOk(sys, helper');
        var gain := Gain(HelperMinutes, nt, sys.productive[s[0]].1);
        match ReleaseWithHelper(sys, !helpersTurn, me', helper', visited + {to}, s[1..])
        case None => None
        case Some(v) => Some(v + gain)
  }

  /** Between them the two open every valve at most once. */
  lemma {:induction false} ReleaseWithHelperOpensOnce(sys: PipeSystem, helpersTurn: bool, me: Agent, helper: Agent, visited: set<string>, s: seq<nat>)
    requires Ready(sys) && AgentOk(sys, me) && AgentOk(sys, helper)
    requires ReleaseWithHelper(sys, helpersTurn, me, helper, visited, s).Some?
    ensures forall i :: 0 <= i < |s| ==> s[i] < |sys.productive| && sys.productive[s[i]].0 !in visited
    ensures forall i, j :: 0 <= i < j < |s| ==> sys.productive[s[i]].0 != sys.productive[s[j]].0
    decreases |s|
  {
    if |s| > 0 {
      var to := sys.productive[s[0]].0;
      var mover := if helpersTurn then helper else me;
      var nt := Arrival(sys, mover.0, mover.1, s[0]);
      ReleaseWithHelperOpensOnce(sys, !helpersTurn,
        if helpersTurn then me else (nt, to), if helpersTurn then (nt, to) else helper,
        visited + {to}, s[1..]);
      assert forall i :: 1 <= i < |s| ==> s[i] == s[1..][i - 1];
    }
  }

  lemma {:induction false} PressureWithHelperFromCovers(sys: PipeSystem, helpersTurn: bool, me: Agent, helper: Agent, visited: set<string>, k: nat, i: nat)
    requires Ready(sys) && AgentOk(sys, me) && AgentOk(sys, helper) && k <= i < |sys.productive|
    requires sys.productive[i].0 !in visited
    requires Arrival(sys, (if helpersTurn then helper else me).0, (if helpersTurn then helper else me).1, i) <= HelperMinutes
    ensures var nt := Arrival(sys, (if helpersTurn then helper else me).0, (if helpersTurn then helper else me).1, i);
      var to := sys.productive[i].0;
      PressureWithHelperFrom(sys, helpersTurn, me, helper, visited, k) >=
        PressureWithHelper(sys, !helpersTurn,
          if helpersTurn then me else (nt, to), if helpersTurn then (nt, to) else helper,
          visited + {to}) + (HelperMinutes - nt) * sys.productive[i].1
    decreases i - k
  {
    if k < i {
      PressureWithHelperFromCovers(sys, helpersTurn, me, helper, visited, k + 1, i);
    }
  }

  /** No turn-taking order releases more than `highest_pressure_with_helper`. */
  lemma {:induction false} PressureWithHelperIsBest(sys: PipeSystem, helpersTurn: bool, me: Agent, helper: Agent, visited: set<string>, s: seq<nat>)
    requires Ready(sys) && AgentOk(sys, me) && AgentOk(sys, helper)
    requires ReleaseWithHelper(sys, helpersTurn, me, helper, visited, s).Some?
    ensures ReleaseWithHelper(sys, helpersTurn, me, helper, visited, s).value
      <= PressureWithHelper(sys, helpersTurn, me, helper, visited)
    decreases |s|
  {
    if |s| > 0 {
      var to := sys.productive[s[0]].0;
      var mover := if helpersTurn then helper else me;
      var nt := Arrival(sys, mover.0, mover.1, s[0]);
      PressureWithHelperIsBest(sys, !helpersTurn,
        if helpersTurn then me else (nt, to), if helpersTurn then (nt, to) else helper,
        visited + {to}, s[1..]);
      PressureWithHelperFromCovers(sys, helpersTurn, me, helper, visited, 0, s[0]);
    }
  }

  /** ... and some turn-taking order releases exactly that much. */
  lemma {:induction false} PressureWithHelperIsAchieved(sys: PipeSystem, helpersTurn: bool, me: Agent, helper: Agent, visited: set<string>)
    returns (s: seq<nat>)
    requires Ready(sys) && AgentOk(sys, me) && AgentOk(sys, helper)
    ensures ReleaseWithHelper(sys, helpersTurn, me, helper, visited, s)
      == Some(PressureWithHelper(sys, helpersTurn, me, helper, visited))
    decreases HelperMinutes - me.0 + HelperMinutes - helper.0, 1, 0
  {
    s := PressureWithHelperFromAchieved(sys, helpersTurn, me, helper, visited, 0);
  }

  lemma {:induction false} PressureWithHelperFromAchieved(sys: PipeSystem, helpersTurn: bool, me: Agent, helper: Agent, visited: set<string>, k: nat)
    returns (s: seq<nat>)
    requires Ready(sys) && AgentOk(sys, me) && AgentOk(sys, helper) && k <= |sys.productive|
    ensures ReleaseWithHelper(sys, helpersTurn, me, helper, visited, s)
      == Some(PressureWithHelperFrom(sys, helpersTurn, me, helper, visited, k))
    decreases HelperMinutes - me.0 + HelperMinutes - helper.0, 0, |sys.productive| - k
  {
    if k == |sys.productive| {
      s := [];
    } else {
      var rest := PressureWithHelperFrom(sys, helpersTurn, me, helper, visited, k + 1);
      var to := sys.productive[k].0;
      var mover := if helpersTurn then helper else me;
      var nt := Arrival(sys, mover.0, mover.1, k);
      if to in visited || nt > HelperMinutes {
        s := PressureWithHelperFromAchieved(sys, helpersTurn, me, helper, visited, k + 1);
      } else {
        var me' := if helpersTurn then me else (nt, to);
        var helper' := if helpersTurn then (nt, to) else helper;
        ReadyKnows(sys, k);
        assert AgentOk(sys, me') && AgentOk(sys, helper');
        var a := PressureWithHelper(sys, !helpersTurn, me', helper', visited + {to})
          + (HelperMinutes - nt) * sys.productive[k].1;
        assert PressureWithHelperFrom(sys, helpersTurn, me, helper, visited, k) == if a > rest then a else rest;
        if a > rest {
          var tail := PressureWithHelperIsAchieved(sys, !helpersTurn, me', helper', visited + {to});
          s := [k] + tail;
          ReleaseWithHelperCons(sys, helpersTurn, me, helper, visited, k, tail,
            PressureWithHelper(sys, !helpersTurn, me', helper', visited + {to}));
        } else {
          s := PressureWithHelperFromAchieved(sys, helpersTurn, me, helper, visited, k + 1);
        }
      }
    }
  }

  /** Opening valve `k` first adds its release to that of the rest of the
      order, the turn passing to the other. */
  lemma ReleaseWithHelperCons(sys: PipeSystem, helpersTurn: bool, me: Agent, helper: Agent, visited: set<string>, k: nat, tail: seq<nat>, v: nat)
    requires Ready(sys) && AgentOk(sys, me) && AgentOk(sys, helper) && k < |sys.productive|
    requires var mover := if helpersTurn then helper else me;
      var nt := Arrival(sys, mover.0, mover.1, k);
      var to := sys.productive[k].0;
      to !in visited && nt <= HelperMinutes &&
      ReleaseWithHelper(sys, !helpersTurn,
        if helpersTurn then me else (nt, to), if helpersTurn then (nt, to) else helper,
        visited + {to}, tail) == Some(v)
    ensures var mover := if helpersTurn then helper else me;
      var nt := Arrival(sys, mover.0, mover.1, k);
      ReleaseWithHelper(sys, helpersTurn, me, helper, visited, [k] + tail)
        == Some(v + (HelperMinutes - nt) * sys.productive[k].1)
  {
    assert ([k] + tail)[1..] == tail;
  }

  /** `highest_pressure_with_helper` is the most any turn-taking order
      releases. */
  lemma PressureWithHelperOptimal(sys: PipeSystem, helpersTurn: bool, me: Agent, helper: Agent, visited: set<string>)
    requires Ready(sys) && AgentOk(sys, me) && AgentOk(sys, helper)
    ensures forall s :: ReleaseWithHelper(sys, helpersTurn, me, helper, visited, s).Some? ==>
      ReleaseWithHelper(sys, helpersTurn, me, helper, visited, s).value <= PressureWithHelper(sys, helpersTurn, me, helper, visited)
    ensures exists s :: ReleaseWithHelper(sys, helpersTurn, me, helper, visited, s) == Some(PressureWithHelper(sys, helpersTurn, me, helper, visited))
  {
    forall s | ReleaseWithHelper(sys, helpersTurn, me, helper, visited, s).Some?
      ensures ReleaseWithHelper(sys, helpersTurn, me, helper, visited, s).value <= PressureWithHelper(sys, helpersTurn, me, helper, visited)
    {
      PressureWithHelperIsBest(sys, helpersTurn, me, helper, visited, s);
    }
    var s := PressureWithHelperIsAchieved(sys, helpersTurn, me, helper, visited);
  }

  /** `get_max_pressure_with_helper`: both from valve AA at minute 0, the
      first turn being mine; the most any turn-taking order releases in 26
      minutes. */
  function Part2(valves: seq<Valve>): (r: Option<nat>)
    ensures r.None? <==> Unanswered(valves)
    ensures Closed(VolcanoMap(valves)) && ("AA" in Names(valves) || |ProductiveValves(valves)| == 0) ==> r.Some?
    ensures r.Some? ==> (NewSystemReady(valves, "AA");
      forall s :: ReleaseWithHelper(NewSystem(valves), false, (0, "AA"), (0, "AA"), {}, s).Some? ==>
        ReleaseWithHelper(NewSystem(valves), false, (0, "AA"), (0, "AA"), {}, s).value <= r.value)
    ensures r.Some? ==> (NewSystemReady(valves, "AA");
      exists s :: ReleaseWithHelper(NewSystem(valves), false, (0, "AA"), (0, "AA"), {}, s) == r)
  {
    ClosedTableNeverPanics(valves);
    if Unanswered(valves) then None
    else
      NewSystemReady(valves, "AA");
      PressureWithHelperOptimal(NewSystem(valves), false, (0, "AA"), (0, "AA"), {});
      Some(PressureWithHelper(NewSystem(valves), false, (0, "AA"), (0, "AA"), {}))
  }
}
