/** Unstable diffusion: elves on an unbounded grid spread out in rounds.
    Each elf with company proposes one step, in the first direction of a
    rotating order whose three cells are free, and takes it only when no
    other elf proposed the same cell. */
module UnstableDiffusion {
  import opened Common
  import opened Text

  /** A grid position as (row, column); rows grow southwards. */
  type Coords = (int, int)

  /** The elves' cells are kept as a list without repeats: the source keeps
      them in a `HashSet`, whose iteration order the model fixes. */
  predicate Distinct(s: seq<Coords>)
  {
    forall i, j :: 0 <= i < j < |s| ==> s[i] != s[j]
  }

  datatype Neighbor = N | NE | E | SE | S | SW | W | NW

  /** One entry of `intent_order`: the neighbours that must be free and
      the step taken when they are. */
  datatype Intent = Intent(dirs: seq<Neighbor>, step: Coords)

  /** What a round leaves behind: each elf's cell, listed in a fixed order
      of the elves, the rotated intent order and the number that moved. */
  datatype Round = Round(elves: seq<Coords>, order: seq<Intent>, moved: nat)

  /** Row-major bounds: `top..=bottom` rows, `left..=right` columns. */
  datatype Box = Box(top: int, bottom: int, left: int, right: int)

  function Offset(n: Neighbor): Coords
  {
    match n
    case N => (-1, 0)
    case NE => (-1, 1)
    case E => (0, 1)
    case SE => (1, 1)
    case S => (1, 0)
    case SW => (1, -1)
    case W => (0, -1)
    case NW => (-1, -1)
  }

  function Shift(c: Coords, d: Coords): Coords
  {
    (c.0 + d.0, c.1 + d.1)
  }

  /** The eight cells touching a cell, including diagonals. */
  predicate Adjacent(d: Coords)
  {
    -1 <= d.0 <= 1 && -1 <= d.1 <= 1 && d != (0, 0)
  }

  /** `NEIGHBOR_CANDIDATES`, clockwise from north. */
  const Compass: seq<Neighbor> := [N, NE, E, SE, S, SW, W, NW]

  /** The compass names every touching offset exactly once. */
  lemma CompassExact(d: Coords)
    ensures Adjacent(d) <==> exists k :: 0 <= k < |Compass| && Offset(Compass[k]) == d
    ensures forall a: Neighbor, b: Neighbor :: Offset(a) == Offset(b) ==> a == b
  {
    if Adjacent(d) {
      var k := if d == (-1, 0) then 0 else if d == (-1, 1) then 1 else if d == (0, 1) then 2
        else if d == (1, 1) then 3 else if d == (1, 0) then 4 else if d == (1, -1) then 5
        else if d == (0, -1) then 6 else 7;
      assert Offset(Compass[k]) == d;
    }
  }

  // ----- neighbours -----

  /** The names in `ns` whose cell next to `c` holds an elf, in order. */
  function Occupied(elves: seq<Coords>, c: Coords, ns: seq<Neighbor>): (r: seq<Neighbor>)
    ensures forall n :: n in r <==> n in ns && Shift(c, Offset(n)) in elves
    ensures |r| <= |ns|
  {
    if ns == [] then []
    else (if Shift(c, Offset(ns[0])) in elves then [ns[0]] else []) + Occupied(elves, c, ns[1..])
  }

  /** `neighbors_of`: which of the eight surrounding cells hold elves. */
  function NeighborsOf(elves: seq<Coords>, c: Coords): (r: seq<Neighbor>)
    ensures forall n :: n in r <==> Shift(c, Offset(n)) in elves
    ensures |r| <= 8
  {
    Occupied(elves, c, Compass)
  }

  /** An elf has no neighbours exactly when all eight touching cells are empty. */
  lemma Lonely(elves: seq<Coords>, c: Coords)
    ensures NeighborsOf(elves, c) == [] <==> forall d :: Adjacent(d) ==> Shift(c, d) !in elves
  {
    var ns := NeighborsOf(elves, c);
    if ns == [] {
      forall d | Adjacent(d) ensures Shift(c, d) !in elves {
        CompassExact(d);
        var k :| 0 <= k < |Compass| && Offset(Compass[k]) == d;
        assert Compass[k] !in ns;
      }
    } else {
      assert ns[0] in ns;
      CompassExact(Offset(ns[0]));
    }
  }

  // ----- intents -----

  const InitialOrder: seq<Intent> := [
    Intent([N, NE, NW], (-1, 0)),
    Intent([S, SE, SW], (1, 0)),
    Intent([W, NW, SW], (0, -1)),
    Intent([E, NE, SE], (0, 1))
  ]

  /** Each intent steps onto the orthogonal neighbour it names first, so
      a free intent steps onto a free cell next to the elf. */
  predicate Sound(order: seq<Intent>)
  {
    forall i :: 0 <= i < |order| ==>
      |order[i].dirs| > 0 && Offset(order[i].dirs[0]) == order[i].step
      && Abs(order[i].step.0) + Abs(order[i].step.1) == 1
  }

  lemma InitialSound()
    ensures Sound(InitialOrder)
    ensures forall i :: 0 <= i < |InitialOrder| ==> |InitialOrder[i].dirs| == 3
    ensures [InitialOrder[0].step, InitialOrder[1].step, InitialOrder[2].step, InitialOrder[3].step]
      == [Offset(N), Offset(S), Offset(W), Offset(E)]
  {
  }

  /** None of the intent's neighbours is occupied. */
  predicate Free(ns: seq<Neighbor>, intent: Intent)
  {
    forall k :: 0 <= k < |intent.dirs| ==> intent.dirs[k] !in ns
  }

  /** The first free intent, by position. */
  function Choose(ns: seq<Neighbor>, order: seq<Intent>): (r: Option<nat>)
    ensures r.Some? ==> (r.value < |order| && Free(ns, order[r.value])
      && forall j :: 0 <= j < r.value ==> !Free(ns, order[j]))
    ensures r.None? ==> forall j :: 0 <= j < |order| ==> !Free(ns, order[j])
  {
    if order == [] then None
    else if Free(ns, order[0]) then Some(0)
    else match Choose(ns, order[1..])
      case None => None
      case Some(i) => Some(i + 1)
  }

  /** The cell the elf at `c` proposes, if any. */
  function Propose(elves: seq<Coords>, order: seq<Intent>, c: Coords): Option<Coords>
  {
    var ns := NeighborsOf(elves, c);
    if ns == [] then None
    else match Choose(ns, order)
      case None => None
      case Some(i) => Some(Shift(c, order[i].step))
  }

  /** A proposal is a step of the first free intent onto an empty cell,
      and only elves with company propose. */
  lemma ProposeFree(elves: seq<Coords>, order: seq<Intent>, c: Coords)
    requires Sound(order)
    ensures Propose(elves, order, c).Some? ==>
      NeighborsOf(elves, c) != [] && Propose(elves, order, c).value !in elves
      && (exists i :: (0 <= i < |order| && Free(NeighborsOf(elves, c), order[i])
        && Propose(elves, order, c).value == Shift(c, order[i].step)))
    ensures NeighborsOf(elves, c) == [] ==> Propose(elves, order, c).None?
  {
    var ns := NeighborsOf(elves, c);
    if ns != [] && Choose(ns, order).Some? {
      var i := Choose(ns, order).value;
      assert order[i].dirs[0] !in ns;
    }
  }

  function RotateLeft(order: seq<Intent>): (r: seq<Intent>)
    requires |order| > 0
    ensures |r| == |order|
  {
    order[1..] + [order[0]]
  }

  /** Rotating only reorders the intents. */
  lemma RotateLeftPermutes(order: seq<Intent>)
    requires |order| > 0
    ensures multiset(RotateLeft(order)) == multiset(order)
  {
    assert order == [order[0]] + order[1..];
  }

  /** `rotate_left(1)`: each intent takes the place of the one before it,
      the first going last. */
  lemma RotateLeftIndex(order: seq<Intent>)
    requires |order| > 0
    ensures forall i :: 0 <= i < |order| ==> RotateLeft(order)[i] == order[(i + 1) % |order|]
  {
    forall i | 0 <= i < |order| ensures RotateLeft(order)[i] == order[(i + 1) % |order|] {
      if i + 1 < |order| {
        ModUnique(i + 1, 0, i + 1, |order|);
      } else {
        ModUnique(i + 1, 1, 0, |order|);
      }
    }
  }

  /** The order after `n` rotations. */
  function Rotations(order: seq<Intent>, n: nat): (r: seq<Intent>)
    requires |order| > 0
    ensures |r| == |order|
  {
    if n == 0 then order else RotateLeft(Rotations(order, n - 1))
  }

  /** Fewer than a full turn of rotations moves the first `n` intents to the back. */
  lemma {:induction false} RotationsSplit(order: seq<Intent>, n: nat)
    requires 0 < |order| && n <= |order|
    ensures Rotations(order, n) == order[n..] + order[..n]
  {
    if n > 0 {
      RotationsSplit(order, n - 1);
      assert order[..n] == order[..n - 1] + [order[n - 1]];
    }
  }

  lemma {:induction false} RotationsAdd(order: seq<Intent>, a: nat, b: nat)
    requires 0 < |order|
    ensures Rotations(order, a + b) == Rotations(Rotations(order, a), b)
  {
    if b > 0 {
      RotationsAdd(order, a, b - 1);
    }
  }

  /** The order is periodic in a full turn: four rounds for the initial one. */
  lemma RotationsRestore(order: seq<Intent>, n: nat)
    requires |order| > 0
    ensures Rotations(order, |order| + n) == Rotations(order, n)
    ensures Rotations(InitialOrder, 4 + n) == Rotations(InitialOrder, n)
  {
    RotationsSplit(order, |order|);
    assert order[|order|..] + order[..|order|] == order;
    RotationsAdd(order, |order|, n);
    RotationsSplit(InitialOrder, 4);
    assert InitialOrder[4..] + InitialOrder[..4] == InitialOrder;
    RotationsAdd(InitialOrder, 4, n);
  }

  lemma RotateSound(order: seq<Intent>)
    requires |order| > 0 && Sound(order)
    ensures Sound(RotateLeft(order))
  {
  }

  /** What each elf in `es` proposes, among all of `elves`. */
  function Wishes(elves: seq<Coords>, order: seq<Intent>, es: seq<Coords>): (r: seq<Option<Coords>>)
    ensures |r| == |es|
    ensures forall i :: 0 <= i < |es| ==> r[i] == Propose(elves, order, es[i])
  {
    if es == [] then [] else [Propose(elves, order, es[0])] + Wishes(elves, order, es[1..])
  }

  /** `intents[target]`: how many elves proposed `target`. */
  function Claims(ws: seq<Option<Coords>>, target: Coords): nat
  {
    if ws == [] then 0 else (if ws[0] == Some(target) then 1 else 0) + Claims(ws[1..], target)
  }

  /** A proposal is claimed once exactly when no other elf made it. */
  lemma {:induction false} ClaimsOnce(ws: seq<Option<Coords>>, i: nat)
    requires i < |ws| && ws[i].Some?
    ensures Claims(ws, ws[i].value) >= 1
    ensures Claims(ws, ws[i].value) == 1 <==> forall j :: 0 <= j < |ws| && j != i ==> ws[j] != ws[i]
  {
    var t := ws[i].value;
    if i == 0 {
      ClaimsNone(ws[1..], t);
      assert forall j :: 1 <= j < |ws| ==> ws[1..][j - 1] == ws[j];
    } else {
      ClaimsOnce(ws[1..], i - 1);
      assert forall j :: 1 <= j < |ws| ==> ws[1..][j - 1] == ws[j];
    }
  }

  lemma {:induction false} ClaimsNone(ws: seq<Option<Coords>>, t: Coords)
    ensures Claims(ws, t) == 0 <==> forall j :: 0 <= j < |ws| ==> ws[j] != Some(t)
  {
    if ws != [] {
      ClaimsNone(ws[1..], t);
      assert forall j :: 1 <= j < |ws| ==> ws[1..][j - 1] == ws[j];
    }
  }

  /** Elf `i` proposed a cell nobody else proposed, so it moves. */
  predicate Lands(ws: seq<Option<Coords>>, i: nat)
    requires i < |ws|
  {
    ws[i].Some? && Claims(ws, ws[i].value) == 1
  }

  /** The number of landing elves among the first `n`. */
  function MovedCount(ws: seq<Option<Coords>>, n: nat): nat
    requires n <= |ws|
  {
    if n == 0 then 0 else MovedCount(ws, n - 1) + (if Lands(ws, n - 1) then 1 else 0)
  }

  function Landers(ws: seq<Option<Coords>>, n: nat): set<nat>
    requires n <= |ws|
  {
    set i: nat | i < n && Lands(ws, i)
  }

  lemma {:induction false} MovedCountLanders(ws: seq<Option<Coords>>, n: nat)
    requires n <= |ws|
    ensures MovedCount(ws, n) == |Landers(ws, n)|
  {
    if n > 0 {
      MovedCountLanders(ws, n - 1);
      var below := Landers(ws, n - 1);
      assert n - 1 !in below;
      if Lands(ws, n - 1) {
        assert Landers(ws, n) == below + {n - 1};
      } else {
        assert Landers(ws, n) == below;
      }
    } else {
      assert Landers(ws, n) == {};
    }
  }

  /** Every elf's cell after the moves: landers on their proposal, the
      rest where they were. */
  function Landed(elves: seq<Coords>, ws: seq<Option<Coords>>): (r: seq<Coords>)
    requires |ws| == |elves|
    ensures |r| == |elves|
  {
    seq(|elves|, i requires 0 <= i < |elves| => if Lands(ws, i) then ws[i].value else elves[i])
  }

  /** `scatter`: one round of proposals and moves; the intent order
      rotates by one. */
  function Scatter(elves: seq<Coords>, order: seq<Intent>): (r: Round)
    requires |order| > 0
    ensures r.order == RotateLeft(order)
    ensures |r.elves| == |elves|
  {
    var ws := Wishes(elves, order, elves);
    Round(Landed(elves, ws), RotateLeft(order), MovedCount(ws, |ws|))
  }

  /** An elf changes cell exactly when it proposed a cell that no other
      elf proposed; otherwise it keeps its cell. */
  lemma ScatterMovesIff(elves: seq<Coords>, order: seq<Intent>, i: nat)
    requires |order| > 0 && Sound(order) && i < |elves|
    ensures var p := Propose(elves, order, elves[i]);
      Scatter(elves, order).elves[i] != elves[i] <==>
        (p.Some? && forall j :: 0 <= j < |elves| && j != i ==> Propose(elves, order, elves[j]) != p)
    ensures Scatter(elves, order).elves[i] != elves[i] ==>
      Scatter(elves, order).elves[i] == Propose(elves, order, elves[i]).value
    ensures Scatter(elves, order).elves[i] == elves[i] || Scatter(elves, order).elves[i] !in elves
  {
    var ws := Wishes(elves, order, elves);
    ProposeFree(elves, order, elves[i]);
    if ws[i].Some? {
      ClaimsOnce(ws, i);
      assert elves[i] in elves;
    }
  }

  /** Only elves with company move, and a move is one orthogonal step. */
  lemma ScatterStep(elves: seq<Coords>, order: seq<Intent>, i: nat)
    requires |order| > 0 && Sound(order) && i < |elves|
    ensures NeighborsOf(elves, elves[i]) == [] ==> Scatter(elves, order).elves[i] == elves[i]
    ensures var t := Scatter(elves, order).elves[i];
      t == elves[i] || Abs(t.0 - elves[i].0) + Abs(t.1 - elves[i].1) == 1
  {
    var ws := Wishes(elves, order, elves);
    ProposeFree(elves, order, elves[i]);
    if Lands(ws, i) {
      var c := elves[i];
      var k :| 0 <= k < |order| && Free(NeighborsOf(elves, c), order[k]) && ws[i].value == Shift(c, order[k].step);
      assert Offset(order[k].dirs[0]) == order[k].step;
    }
  }

  /** No two elves ever share a cell: targets are empty and claimed once. */
  lemma ScatterDistinct(elves: seq<Coords>, order: seq<Intent>)
    requires |order| > 0 && Sound(order) && Distinct(elves)
    ensures Distinct(Scatter(elves, order).elves)
  {
    var r := Scatter(elves, order).elves;
    var ws := Wishes(elves, order, elves);
    forall i, j | 0 <= i < j < |r| ensures r[i] != r[j] {
      ScatterMovesIff(elves, order, i);
      ScatterMovesIff(elves, order, j);
      if r[i] != elves[i] && r[j] != elves[j] {
        ClaimsOnce(ws, i);
      }
      if r[i] == elves[i] && r[j] != elves[j] {
        assert elves[i] in elves;
      }
      if r[i] != elves[i] && r[j] == elves[j] {
        assert elves[j] in elves;
      }
    }
  }

  /** A round reports no moves exactly when it leaves every elf in place,
      and otherwise reports how many elves changed cell. */
  lemma ScatterCount(elves: seq<Coords>, order: seq<Intent>)
    requires |order| > 0 && Sound(order)
    ensures Scatter(elves, order).moved
      == |set i: nat | i < |elves| && Scatter(elves, order).elves[i] != elves[i]|
    ensures Scatter(elves, order).moved == 0 <==> Scatter(elves, order).elves == elves
  {
    var ws := Wishes(elves, order, elves);
    var r := Scatter(elves, order).elves;
    MovedCountLanders(ws, |ws|);
    forall i | 0 <= i < |elves| ensures Lands(ws, i) <==> r[i] != elves[i] {
      LandsIffMoved(elves, order, i);
    }
    LandersChanged(ws, elves, r);
  }

  /** When exactly the landing elves change cell, they are the elves whose
      cell differs, and there are none of them only if no cell changed. */
  lemma LandersChanged(ws: seq<Option<Coords>>, elves: seq<Coords>, r: seq<Coords>)
    requires |ws| == |elves| == |r|
    requires forall i :: 0 <= i < |elves| ==> (Lands(ws, i) <==> r[i] != elves[i])
    ensures Landers(ws, |ws|) == set i: nat | i < |elves| && r[i] != elves[i]
    ensures |Landers(ws, |ws|)| == 0 <==> r == elves
  {
    assert Landers(ws, |ws|) == set i: nat | i < |elves| && r[i] != elves[i];
    if r != elves {
      var i :| 0 <= i < |elves| && r[i] != elves[i];
      assert i in Landers(ws, |ws|);
    }
  }

  /** An elf lands exactly when it changes cell. */
  lemma LandsIffMoved(elves: seq<Coords>, order: seq<Intent>, i: nat)
    requires |order| > 0 && Sound(order) && i < |elves|
    ensures Lands(Wishes(elves, order, elves), i) <==> Scatter(elves, order).elves[i] != elves[i]
  {
    var ws := Wishes(elves, order, elves);
    ScatterMovesIff(elves, order, i);
    if ws[i].Some? {
      ClaimsOnce(ws, i);
    }
  }

  // ----- the source's move loop -----

  /** The source's second loop: `want_to_move` visited in the order `idx`
      lists its elves by position; an elf whose target was claimed at
      most once leaves its cell for the target and is counted. */
  function ApplyMoves(s: set<Coords>, elves: seq<Coords>, ws: seq<Option<Coords>>, idx: seq<nat>): (set<Coords>, nat)
    requires |ws| == |elves|
    requires forall k :: 0 <= k < |idx| ==> idx[k] < |ws| && ws[idx[k]].Some?
    decreases |idx|
  {
    if idx == [] then (s, 0)
    else if Claims(ws, ws[idx[0]].value) > 1 then ApplyMoves(s, elves, ws, idx[1..])
    else
      var r := ApplyMoves(s - {elves[idx[0]]} + {ws[idx[0]].value}, elves, ws, idx[1..]);
      (r.0, r.1 + 1)
  }

  /** The landers among `idx`. */
  function LandersIn(ws: seq<Option<Coords>>, idx: seq<nat>): (r: set<nat>)
    requires forall k :: 0 <= k < |idx| ==> idx[k] < |ws|
    ensures forall i :: i in r <==> i in idx && Lands(ws, i)
  {
    if idx == [] then {} else (if Lands(ws, idx[0]) then {idx[0]} else {}) + LandersIn(ws, idx[1..])
  }

  function Froms(elves: seq<Coords>, movers: set<nat>): set<Coords>
    requires forall i :: i in movers ==> i < |elves|
  {
    set i | i in movers :: elves[i]
  }

  function Tos(ws: seq<Option<Coords>>, movers: set<nat>): set<Coords>
    requires forall i :: i in movers ==> i < |ws| && ws[i].Some?
  {
    set i | i in movers :: ws[i].value
  }

  /** `idx` lists every proposing elf once. */
  predicate Enumerates(idx: seq<nat>, ws: seq<Option<Coords>>)
  {
    (forall k :: 0 <= k < |idx| ==> idx[k] < |ws| && ws[idx[k]].Some?)
    && (forall k, l :: 0 <= k < l < |idx| ==> idx[k] != idx[l])
    && (forall i :: 0 <= i < |ws| && ws[i].Some? ==> i in idx)
  }

  /** One applied move, in terms of the sets of moved-from and moved-to cells. */
  lemma MoveOne(s: set<Coords>, f: Coords, t: Coords, fs: set<Coords>, ts: set<Coords>)
    requires f in s && t !in s && t !in fs && fs <= s
    ensures (s - {f} + {t}) - fs + ts == s - ({f} + fs) + ({t} + ts)
    ensures |s - {f} + {t}| == |s|
  {
    assert |s - {f}| == |s| - 1;
  }

  lemma FromsAdd(elves: seq<Coords>, ws: seq<Option<Coords>>, i: nat, movers: set<nat>)
    requires i < |elves| == |ws| && ws[i].Some?
    requires forall j :: j in movers ==> j < |ws| && ws[j].Some?
    ensures Froms(elves, {i} + movers) == {elves[i]} + Froms(elves, movers)
    ensures Tos(ws, {i} + movers) == {ws[i].value} + Tos(ws, movers)
  {
  }

  /** After the first listed move, the remaining ones still go from
      occupied cells to empty ones. */
  lemma MoveKeepsApart(s: set<Coords>, elves: seq<Coords>, ws: seq<Option<Coords>>, idx: seq<nat>)
    requires |ws| == |elves| && Distinct(elves) && |idx| > 0
    requires forall k :: 0 <= k < |idx| ==> idx[k] < |ws| && ws[idx[k]].Some?
    requires forall k, l :: 0 <= k < l < |idx| ==> idx[k] != idx[l]
    requires forall k :: 0 <= k < |idx| ==> elves[idx[k]] in s && ws[idx[k]].value !in s
    requires Claims(ws, ws[idx[0]].value) <= 1
    ensures var s' := s - {elves[idx[0]]} + {ws[idx[0]].value};
      forall k :: 1 <= k < |idx| ==> elves[idx[k]] in s' && ws[idx[k]].value !in s'
  {
    var i := idx[0];
    ClaimsOnce(ws, i);
    forall k | 1 <= k < |idx|
      ensures elves[idx[k]] != elves[i] && ws[idx[k]] != ws[i]
    {
      assert idx[k] != i;
    }
  }

  /** The listed elves are distinct, propose, sit in `s` and aim outside it. */
  predicate Apart(s: set<Coords>, elves: seq<Coords>, ws: seq<Option<Coords>>, idx: seq<nat>)
  {
    |ws| == |elves| && Distinct(elves)
    && (forall k :: 0 <= k < |idx| ==> idx[k] < |ws| && ws[idx[k]].Some?)
    && (forall k, l :: 0 <= k < l < |idx| ==> idx[k] != idx[l])
    && (forall k :: 0 <= k < |idx| ==> elves[idx[k]] in s && ws[idx[k]].value !in s)
  }

  /** Applying the listed moves one at a time ends where applying them all
      at once does, counting one per mover and keeping the number of cells. */
  predicate AtOnce(s: set<Coords>, elves: seq<Coords>, ws: seq<Option<Coords>>, idx: seq<nat>)
    requires Apart(s, elves, ws, idx)
  {
    var r := ApplyMoves(s, elves, ws, idx);
    var movers := LandersIn(ws, idx);
    r.0 == s - Froms(elves, movers) + Tos(ws, movers) && r.1 == |movers| && |r.0| == |s|
  }

  lemma {:induction false} ApplyMovesAtOnce(s: set<Coords>, elves: seq<Coords>, ws: seq<Option<Coords>>, idx: seq<nat>)
    requires Apart(s, elves, ws, idx)
    ensures AtOnce(s, elves, ws, idx)
    decreases |idx|, 2
  {
    if idx != [] {
      if Claims(ws, ws[idx[0]].value) > 1 {
        SkipFirst(s, elves, ws, idx);
      } else {
        MoveFirst(s, elves, ws, idx);
      }
    }
  }

  lemma {:induction false} SkipFirst(s: set<Coords>, elves: seq<Coords>, ws: seq<Option<Coords>>, idx: seq<nat>)
    requires Apart(s, elves, ws, idx) && idx != [] && Claims(ws, ws[idx[0]].value) > 1
    ensures AtOnce(s, elves, ws, idx)
    decreases |idx|, 0
  {
    RestApart(s, elves, ws, idx);
    ApplyMovesAtOnce(s, elves, ws, idx[1..]);
  }

  /** The remaining listed elves stay apart from `s`, and the first one
      is not among them. */
  lemma RestApart(s: set<Coords>, elves: seq<Coords>, ws: seq<Option<Coords>>, idx: seq<nat>)
    requires Apart(s, elves, ws, idx) && idx != []
    ensures Apart(s, elves, ws, idx[1..])
    ensures idx[0] !in LandersIn(ws, idx[1..])
    ensures LandersIn(ws, idx) == (if Lands(ws, idx[0]) then {idx[0]} else {}) + LandersIn(ws, idx[1..])
  {
    var rest := idx[1..];
    assert forall k :: 0 <= k < |rest| ==> rest[k] == idx[k + 1];
  }

  /** The facts about the first move that turn the rest of the loop's
      effect into the effect of the whole list. */
  lemma FirstMove(s: set<Coords>, elves: seq<Coords>, ws: seq<Option<Coords>>, idx: seq<nat>)
    requires Apart(s, elves, ws, idx) && idx != [] && Claims(ws, ws[idx[0]].value) <= 1
    ensures Lands(ws, idx[0])
    ensures Apart(s - {elves[idx[0]]} + {ws[idx[0]].value}, elves, ws, idx[1..])
    ensures elves[idx[0]] in s && ws[idx[0]].value !in s
    ensures ws[idx[0]].value !in Froms(elves, LandersIn(ws, idx[1..]))
    ensures Froms(elves, LandersIn(ws, idx[1..])) <= s
  {
    ClaimsOnce(ws, idx[0]);
    MoveKeepsApart(s, elves, ws, idx);
    RestApart(s, elves, ws, idx);
    var rest := idx[1..];
    assert forall k :: 0 <= k < |rest| ==> rest[k] == idx[k + 1];
  }

  lemma {:induction false} MoveFirst(s: set<Coords>, elves: seq<Coords>, ws: seq<Option<Coords>>, idx: seq<nat>)
    requires Apart(s, elves, ws, idx) && idx != [] && Claims(ws, ws[idx[0]].value) <= 1
    ensures AtOnce(s, elves, ws, idx)
    decreases |idx|, 1
  {
    MoveFirstCells(s, elves, ws, idx);
    MoveFirstCount(s, elves, ws, idx);
  }

  /** The first listed elf moves; the rest of the loop does the others. */
  lemma {:induction false} MoveFirstCells(s: set<Coords>, elves: seq<Coords>, ws: seq<Option<Coords>>, idx: seq<nat>)
    requires Apart(s, elves, ws, idx) && idx != [] && Claims(ws, ws[idx[0]].value) <= 1
    ensures ApplyMoves(s, elves, ws, idx).0
      == s - Froms(elves, LandersIn(ws, idx)) + Tos(ws, LandersIn(ws, idx))
    ensures |ApplyMoves(s, elves, ws, idx).0| == |s|
    decreases |idx|, 0
  {
    var i := idx[0];
    var f := elves[i];
    var t := ws[i].value;
    var s' := s - {f} + {t};
    var rest := idx[1..];
    var movers := LandersIn(ws, rest);
    FirstMove(s, elves, ws, idx);
    RestApart(s, elves, ws, idx);
    ApplyMovesAtOnce(s', elves, ws, rest);
    FromsAdd(elves, ws, i, movers);
    MoveOne(s, f, t, Froms(elves, movers), Tos(ws, movers));
  }

  /** The first listed elf is counted; the rest of the loop counts the others. */
  lemma {:induction false} MoveFirstCount(s: set<Coords>, elves: seq<Coords>, ws: seq<Option<Coords>>, idx: seq<nat>)
    requires Apart(s, elves, ws, idx) && idx != [] && Claims(ws, ws[idx[0]].value) <= 1
    ensures ApplyMoves(s, elves, ws, idx).1 == |LandersIn(ws, idx)|
    decreases |idx|, 0
  {
    var i := idx[0];
    var s' := s - {elves[i]} + {ws[i].value};
    FirstMove(s, elves, ws, idx);
    RestApart(s, elves, ws, idx);
    ApplyMovesAtOnce(s', elves, ws, idx[1..]);
  }

  function Cells(elves: seq<Coords>): set<Coords>
  {
    set c | c in elves
  }

  /** Whatever order the source visits `want_to_move` in, its loop ends
      with the elves on the cells `Scatter` gives and counts the same
      number of moves. */
  lemma ScatterAnyOrder(elves: seq<Coords>, order: seq<Intent>, idx: seq<nat>)
    requires |order| > 0 && Sound(order) && Distinct(elves)
    requires Enumerates(idx, Wishes(elves, order, elves))
    ensures ApplyMoves(Cells(elves), elves, Wishes(elves, order, elves), idx)
      == (Cells(Scatter(elves, order).elves), Scatter(elves, order).moved)
  {
    var ws := Wishes(elves, order, elves);
    forall k | 0 <= k < |idx| ensures elves[idx[k]] in Cells(elves) && ws[idx[k]].value !in Cells(elves) {
      ProposeFree(elves, order, elves[idx[k]]);
    }
    assert Apart(Cells(elves), elves, ws, idx);
    ApplyMovesAtOnce(Cells(elves), elves, ws, idx);
    var movers := LandersIn(ws, idx);
    LandersListed(ws, idx);
    MovedCountLanders(ws, |ws|);
    assert Scatter(elves, order).moved == |movers|;
    LandedCells(elves, order, ws, movers);
  }

  /** When `idx` lists every elf with a target, the landing elves among
      them are all the landing elves. */
  lemma LandersListed(ws: seq<Option<Coords>>, idx: seq<nat>)
    requires Enumerates(idx, ws)
    ensures LandersIn(ws, idx) == Landers(ws, |ws|)
  {
    assert LandersIn(ws, idx) == Landers(ws, |ws|);
  }

  /** The cells after a round: the elves that stay, and the landing
      elves on their targets. */
  lemma LandedCells(elves: seq<Coords>, order: seq<Intent>, ws: seq<Option<Coords>>, movers: set<nat>)
    requires |order| > 0 && Distinct(elves)
    requires ws == Wishes(elves, order, elves) && movers == Landers(ws, |ws|)
    ensures Cells(Scatter(elves, order).elves) == Cells(elves) - Froms(elves, movers) + Tos(ws, movers)
  {
    var r := Scatter(elves, order).elves;
    forall x | x in Cells(r) ensures x in Cells(elves) - Froms(elves, movers) + Tos(ws, movers) {
      LandedFrom(elves, ws, movers, x);
    }
    forall x | x in Cells(elves) - Froms(elves, movers) + Tos(ws, movers) ensures x in Cells(r) {
      LandedTo(elves, ws, movers, x);
    }
  }

  lemma LandedFrom(elves: seq<Coords>, ws: seq<Option<Coords>>, movers: set<nat>, x: Coords)
    requires |ws| == |elves| && Distinct(elves)
    requires movers == Landers(ws, |elves|)
    requires x in Cells(Landed(elves, ws))
    ensures x in Cells(elves) - Froms(elves, movers) + Tos(ws, movers)
  {
    var r := Landed(elves, ws);
    var i :| 0 <= i < |r| && r[i] == x;
    if i in movers {
      assert x in Tos(ws, movers);
    } else {
      assert x in Cells(elves);
      forall j | j in movers ensures elves[j] != x {
        assert j != i;
      }
    }
  }

  lemma LandedTo(elves: seq<Coords>, ws: seq<Option<Coords>>, movers: set<nat>, x: Coords)
    requires |ws| == |elves| && Distinct(elves)
    requires movers == Landers(ws, |elves|)
    requires x in Cells(elves) - Froms(elves, movers) + Tos(ws, movers)
    ensures x in Cells(Landed(elves, ws))
  {
    var r := Landed(elves, ws);
    if x in Tos(ws, movers) {
      var i :| i in movers && ws[i].value == x;
      assert r[i] == x;
    } else {
      var i :| 0 <= i < |elves| && elves[i] == x;
      assert i !in movers;
      assert r[i] == x;
    }
  }

  lemma {:induction false} EnumerationExists(ws: seq<Option<Coords>>, n: nat) returns (idx: seq<nat>)
    requires n <= |ws|
    ensures forall k :: 0 <= k < |idx| ==> idx[k] < n && ws[idx[k]].Some?
    ensures forall k, l :: 0 <= k < l < |idx| ==> idx[k] != idx[l]
    ensures forall i :: 0 <= i < n && ws[i].Some? ==> i in idx
  {
    if n == 0 {
      idx := [];
    } else {
      idx := EnumerationExists(ws, n - 1);
      if ws[n - 1].Some? {
        idx := idx + [n - 1];
      }
    }
  }

  /** A round neither creates nor loses elves, counted as distinct cells. */
  lemma ScatterKeepsCells(elves: seq<Coords>, order: seq<Intent>)
    requires |order| > 0 && Sound(order) && Distinct(elves)
    ensures |Cells(Scatter(elves, order).elves)| == |Cells(elves)|
  {
    ScatterDistinct(elves, order);
    DistinctCells(elves);
    DistinctCells(Scatter(elves, order).elves);
  }

  /** One round as a total step; the empty intent order, which the source
      never builds, is left alone. */
  function Step(p: Round): (r: Round)
    ensures |r.elves| == |p.elves|
    ensures |p.order| > 0 ==> r.order == RotateLeft(p.order)
  {
    if |p.order| > 0 then Scatter(p.elves, p.order) else p
  }

  /** `f` applied `n` times. */
  function Iterate(f: Round -> Round, p: Round, n: nat): Round
  {
    if n == 0 then p else f(Iterate(f, p, n - 1))
  }

  /** What every round keeps: a sound intent order, the number of elves
      and, when they started on distinct cells, their distinctness. */
  predicate Keeps(p: Round, len: nat, distinct: bool)
  {
    |p.order| > 0 && Sound(p.order) && |p.elves| == len && (distinct ==> Distinct(p.elves))
  }

  lemma StepKeeps(p: Round, len: nat, distinct: bool)
    requires Keeps(p, len, distinct)
    ensures Keeps(Step(p), len, distinct)
    ensures Step(p).order == RotateLeft(p.order)
  {
    RotateSound(p.order);
    if distinct {
      ScatterDistinct(p.elves, p.order);
    }
  }

  lemma {:induction false} IterateKeeps(p: Round, len: nat, distinct: bool, n: nat)
    requires Keeps(p, len, distinct)
    ensures Keeps(Iterate(Step, p, n), len, distinct)
    ensures Iterate(Step, p, n).order == Rotations(p.order, n)
  {
    if n > 0 {
      var q := Iterate(Step, p, n - 1);
      IterateKeeps(p, len, distinct, n - 1);
      StepKeeps(q, len, distinct);
      assert Iterate(Step, p, n) == Step(q);
      assert Rotations(p.order, n) == RotateLeft(Rotations(p.order, n - 1));
    }
  }

  /** `scatter` called `n` times from the given start. */
  function Rounds(elves: seq<Coords>, order: seq<Intent>, n: nat): (r: Round)
    ensures |order| > 0 && Sound(order) ==>
      |r.elves| == |elves| && r.order == Rotations(order, n) && Sound(r.order)
    ensures |order| > 0 && Sound(order) && Distinct(elves) ==> Distinct(r.elves)
  {
    if |order| > 0 && Sound(order) then
      IterateKeeps(Round(elves, order, 0), |elves|, Distinct(elves), n);
      Iterate(Step, Round(elves, order, 0), n)
    else Iterate(Step, Round(elves, order, 0), n)
  }

  // ----- the answers -----

  function Area(b: Box): nat
  {
    (Abs(b.bottom - b.top) + 1) * (Abs(b.right - b.left) + 1)
  }

  /** `b` is the tightest box around `elves`. */
  predicate Bounds(elves: seq<Coords>, b: Box)
  {
    (forall i :: 0 <= i < |elves| ==> b.top <= elves[i].0 <= b.bottom && b.left <= elves[i].1 <= b.right)
    && (exists i :: 0 <= i < |elves| && elves[i].0 == b.top)
    && (exists i :: 0 <= i < |elves| && elves[i].0 == b.bottom)
    && (exists i :: 0 <= i < |elves| && elves[i].1 == b.left)
    && (exists i :: 0 <= i < |elves| && elves[i].1 == b.right)
  }

  lemma BoundsUnique(elves: seq<Coords>, a: Box, b: Box)
    requires Bounds(elves, a) && Bounds(elves, b)
    ensures a == b
  {
    var t :| 0 <= t < |elves| && elves[t].0 == a.top;
    var t' :| 0 <= t' < |elves| && elves[t'].0 == b.top;
    var u :| 0 <= u < |elves| && elves[u].0 == a.bottom;
    var u' :| 0 <= u' < |elves| && elves[u'].0 == b.bottom;
    var l :| 0 <= l < |elves| && elves[l].1 == a.left;
    var l' :| 0 <= l' < |elves| && elves[l'].1 == b.left;
    var g :| 0 <= g < |elves| && elves[g].1 == a.right;
    var g' :| 0 <= g' < |elves| && elves[g'].1 == b.right;
  }

  /** The minima and maxima of the rows and columns. */
  function BoundingBox(elves: seq<Coords>): (b: Box)
    requires elves != []
    ensures Bounds(elves, b)
  {
    if |elves| == 1 then Box(elves[0].0, elves[0].0, elves[0].1, elves[0].1)
    else
      var init := elves[..|elves| - 1];
      var b := BoundingBox(init);
      var c := elves[|elves| - 1];
      assert forall i :: 0 <= i < |init| ==> elves[i] == init[i];
      Box(Min(b.top, c.0), Max(b.bottom, c.0), Min(b.left, c.1), Max(b.right, c.1))
  }

  /** The cells of `rows` rows from `top` and `cols` columns from `left`. */
  function Rect(top: int, rows: nat, left: int, cols: nat): set<Coords>
  {
    set r, c | top <= r < top + rows && left <= c < left + cols :: (r, c)
  }

  lemma RectLastColumn(row: int, left: int, cols: nat)
    requires cols > 0
    ensures Rect(row, 1, left, cols) == Rect(row, 1, left, cols - 1) + {(row, left + cols - 1)}
  {
  }

  lemma RectLastRow(top: int, rows: nat, left: int, cols: nat)
    requires rows > 0
    ensures Rect(top, rows, left, cols) == Rect(top, rows - 1, left, cols) + Rect(top + rows - 1, 1, left, cols)
    ensures Rect(top, rows - 1, left, cols) * Rect(top + rows - 1, 1, left, cols) == {}
  {
  }

  lemma {:induction false} RowSize(row: int, left: int, cols: nat)
    ensures |Rect(row, 1, left, cols)| == cols
  {
    if cols > 0 {
      RowSize(row, left, cols - 1);
      RectLastColumn(row, left, cols);
    } else {
      assert Rect(row, 1, left, cols) == {};
    }
  }

  lemma {:induction false} RectSize(top: int, rows: nat, left: int, cols: nat)
    ensures |Rect(top, rows, left, cols)| == rows * cols
  {
    if rows > 0 {
      RectSize(top, rows - 1, left, cols);
      RowSize(top + rows - 1, left, cols);
      RectLastRow(top, rows, left, cols);
      assert rows * cols == (rows - 1) * cols + cols;
    } else {
      assert Rect(top, rows, left, cols) == {};
    }
  }

  lemma {:induction false} SubsetSize(a: set<Coords>, b: set<Coords>)
    requires a <= b
    ensures |a| <= |b|
    decreases a
  {
    if a != {} {
      var x :| x in a;
      SubsetSize(a - {x}, b - {x});
    }
  }

  lemma {:induction false} DistinctCells(s: seq<Coords>)
    requires Distinct(s)
    ensures |Cells(s)| == |s|
  {
    if s != [] {
      var init := s[..|s| - 1];
      DistinctCells(init);
      assert Cells(s) == Cells(init) + {s[|s| - 1]};
      assert s[|s| - 1] !in Cells(init);
    } else {
      assert Cells(s) == {};
    }
  }

  /** The box holds every elf, so subtracting their number never underflows. */
  lemma BoxHoldsElves(elves: seq<Coords>, b: Box)
    requires Distinct(elves) && Bounds(elves, b)
    ensures |elves| <= Area(b)
  {
    var rows := b.bottom - b.top + 1;
    var cols := b.right - b.left + 1;
    assert rows >= 1 && cols >= 1;
    RectSize(b.top, rows, b.left, cols);
    DistinctCells(elves);
    SubsetSize(Cells(elves), Rect(b.top, rows, b.left, cols));
  }

  /** `count_empties`: the empty cells in the tightest box around the
      elves; None where the source would unwrap the minimum of no elves. */
  function CountEmpties(elves: seq<Coords>): (r: Option<nat>)
    requires Distinct(elves)
    ensures r.None? <==> elves == []
    ensures r.Some? ==> exists b :: Bounds(elves, b) && r.value + |elves| == Area(b)
  {
    if elves == [] then None
    else
      var b := BoundingBox(elves);
      BoxHoldsElves(elves, b);
      Some(Area(b) - |elves|)
  }

  /** `Elves::from_coords`: the parsed cells with repeats dropped. */
  function Dedup(s: seq<Coords>): (r: seq<Coords>)
    ensures Distinct(r)
    ensures forall c :: c in r <==> c in s
  {
    if s == [] then []
    else
      var r := Dedup(s[..|s| - 1]);
      assert forall c :: c in s <==> c in s[..|s| - 1] || c == s[|s| - 1];
      if s[|s| - 1] in r then r else r + [s[|s| - 1]]
  }

  /** The '#' cells of `line`, which is row `row`, from column `col` on. */
  function RowElves(line: string, row: int, col: int): (r: seq<Coords>)
    ensures forall p :: p in r <==> p.0 == row && col <= p.1 < col + |line| && line[p.1 - col] == '#'
  {
    if line == [] then []
    else (if line[0] == '#' then [(row, col)] else []) + RowElves(line[1..], row, col + 1)
  }

  function GridElves(lines: seq<string>, row: int): (r: seq<Coords>)
    ensures forall p :: p in r <==>
      row <= p.0 < row + |lines| && 0 <= p.1 < |lines[p.0 - row]| && lines[p.0 - row][p.1] == '#'
  {
    if lines == [] then []
    else RowElves(lines[0], row, 0) + GridElves(lines[1..], row + 1)
  }

  /** `parse_input`: the width of the first line and the elves; None for
      an input without lines, which the source unwraps. */
  function ParseInput(data: string): (r: Option<(nat, seq<Coords>)>)
    ensures r.None? <==> Lines(data) == []
    ensures r.Some? ==> (r.value.0 == |Lines(data)[0]|
      && forall p :: p in r.value.1 <==>
        0 <= p.0 < |Lines(data)| && 0 <= p.1 < |Lines(data)[p.0]| && Lines(data)[p.0][p.1] == '#')
  {
    var ls := Lines(data);
    if ls == [] then None else Some((|ls[0]|, GridElves(ls, 0)))
  }

  /** `solve_part1`: empty cells in the box after ten rounds. */
  function Part1(elves: seq<Coords>): (r: Option<nat>)
    ensures r.None? <==> elves == []
    ensures r.Some? ==> var after := Rounds(Dedup(elves), InitialOrder, 10).elves;
      exists b :: Bounds(after, b) && r.value + |after| == Area(b)
  {
    InitialSound();
    var start := Dedup(elves);
    IterateKeeps(Round(start, InitialOrder, 0), |start|, true, 10);
    if elves != [] then
      assert elves[0] in start;
      CountEmpties(Rounds(start, InitialOrder, 10).elves)
    else CountEmpties(Rounds(start, InitialOrder, 10).elves)
  }

  /** Plays rounds from `p`, the state after round `k - 1`, until one
      moves nobody; `fuel` bounds the loop the source leaves unbounded. */
  function Settle(f: Round -> Round, p: Round, k: nat, fuel: nat): Option<nat>
    decreases fuel
  {
    var q := f(p);
    if q.moved == 0 then Some(k)
    else if fuel == 0 then None
    else Settle(f, q, k + 1, fuel - 1)
  }

  /** `solve_part2`: the number of the first round, counted from 1, in
      which no elf moves; it is found whenever it comes within the fuel. */
  function Part2(elves: seq<Coords>, fuel: nat): (r: Option<nat>)
    ensures r.Some? ==>
      && r.value >= 1 && Rounds(Dedup(elves), InitialOrder, r.value).moved == 0
      && forall j :: 1 <= j < r.value ==> Rounds(Dedup(elves), InitialOrder, j).moved > 0
    ensures (exists j :: 1 <= j <= 1 + fuel && Rounds(Dedup(elves), InitialOrder, j).moved == 0) ==> r.Some?
  {
    InitialSound();
    var start := Round(Dedup(elves), InitialOrder, 0);
    assert Iterate(Step, start, 0) == start;
    SettleSound(Step, start, 1, fuel);
    Settle(Step, start, 1, fuel)
  }

  /** The search stops at the first round, counted from `k`, that moves
      nobody, and reaches it whenever it lies within the fuel. */
  lemma {:induction false} SettleSound(f: Round -> Round, start: Round, k: nat, fuel: nat)
    requires k >= 1
    requires forall j :: 1 <= j < k ==> Iterate(f, start, j).moved > 0
    ensures var r := Settle(f, Iterate(f, start, k - 1), k, fuel);
      r.Some? ==> (r.value >= k && Iterate(f, start, r.value).moved == 0
        && forall j :: 1 <= j < r.value ==> Iterate(f, start, j).moved > 0)
    ensures (exists j :: k <= j <= k + fuel && Iterate(f, start, j).moved == 0)
      ==> Settle(f, Iterate(f, start, k - 1), k, fuel).Some?
    decreases fuel
  {
    var k' := k + 1;
    assert Iterate(f, start, k' - 1) == f(Iterate(f, start, k - 1));
    if Iterate(f, start, k).moved != 0 && fuel > 0 {
      SettleSound(f, start, k', fuel - 1);
    }
  }
}
