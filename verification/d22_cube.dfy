/** The cube wrap of the monkey map as a set of closed rings: every tile
    of the six faces, in every direction, lies on a ring of `4 * Size`
    states that `WrapCube` walks around, so flying straight for
    `4 * Size` steps comes back to the start facing the same way. */
module MonkeyCube {
  import opened Common
  import opened MonkeyMap

  /** The length of every ring. */
  const Circuit: nat := 4 * Size

  /** The three families of rings: through faces 1, 2, 5, 4 (`Across`),
      through 1, 3, 5, 6 (`Down`), and through 2, 3, 4, 6 (`Around`). */
  datatype Ring = Across | Downward | Around

  /** The next place round a ring. */
  function Next(t: nat): nat
  {
    if t + 1 == Circuit then 0 else t + 1
  }

  function Turn(s: State): State
  {
    State(s.cell, Opposite(s.facing))
  }

  /** The `t`-th state of ring `k` number `p` in its forward sense. */
  function Forward(k: Ring, p: nat, t: nat): State
    requires p < Size && t < Circuit
  {
    match k
    case Across =>
      if t < 2 * Size then State(Cell(p, Size + t), Right)
      else State(Cell(3 * Size - 1 - p, 2 * Size - 1 - (t - 2 * Size)), Left)
    case Downward =>
      if t < 3 * Size then State(Cell(t, Size + p), Down)
      else State(Cell(3 * Size + p, Size - 1 - (t - 3 * Size)), Left)
    case Around =>
      if t < Size then State(Cell(t, 2 * Size + p), Down)
      else if t < 2 * Size then State(Cell(Size + p, 2 * Size - 1 - (t - Size)), Left)
      else State(Cell(t, p), Down)
  }

  /** The same ring travelled the other way. */
  function OnRing(k: Ring, p: nat, t: nat, forward: bool): State
    requires p < Size && t < Circuit
  {
    if forward then Forward(k, p, t) else Turn(Forward(k, p, Circuit - 1 - t))
  }

  lemma ForwardStep(k: Ring, p: nat, t: nat)
    requires p < Size && t < Circuit
    ensures WrapCube(Forward(k, p, t)) == Some(Forward(k, p, Next(t)))
  {
    if t == Circuit - 1 {
    }
  }

  lemma BackwardAcross(p: nat, t: nat)
    requires p < Size && t < Circuit
    ensures WrapCube(OnRing(Across, p, t, false)) == Some(OnRing(Across, p, Next(t), false))
  {
    if t == Circuit - 1 {
    }
  }

  lemma BackwardDownward(p: nat, t: nat)
    requires p < Size && t < Circuit
    ensures WrapCube(OnRing(Downward, p, t, false)) == Some(OnRing(Downward, p, Next(t), false))
  {
    if t == Circuit - 1 {
    }
  }

  lemma BackwardAround(p: nat, t: nat)
    requires p < Size && t < Circuit
    ensures WrapCube(OnRing(Around, p, t, false)) == Some(OnRing(Around, p, Next(t), false))
  {
    if t == Circuit - 1 {
    }
  }

  /** One cube step moves one place along the ring. */
  lemma RingStep(k: Ring, p: nat, t: nat, forward: bool)
    requires p < Size && t < Circuit
    ensures WrapCube(OnRing(k, p, t, forward)) == Some(OnRing(k, p, Next(t), forward))
  {
    if forward {
      ForwardStep(k, p, t);
    } else {
      match k
      case Across => BackwardAcross(p, t);
      case Downward => BackwardDownward(p, t);
      case Around => BackwardAround(p, t);
    }
  }

  /** `fly_around`: `n` cube steps straight ahead, turning only where a
      face edge turns the walker. */
  function Fly(s: State, n: nat): Option<State>
    decreases n
  {
    if n == 0 then Some(s)
    else
      match WrapCube(s)
      case None => None
      case Some(t) => Fly(t, n - 1)
  }

  /** A closed ring of states: each cube step moves to the next one, and
      from the last back to the first. */
  predicate Closed(ring: seq<State>)
  {
    |ring| > 0 &&
    (forall i :: 0 <= i < |ring| - 1 ==> WrapCube(ring[i]) == Some(ring[i + 1])) &&
    WrapCube(ring[|ring| - 1]) == Some(ring[0])
  }

  lemma ModNext(t: nat, n: nat, m: nat)
    requires 0 < m && t < m && n > 0
    ensures (if t + 1 == m then 0 else t + 1) + (n - 1) == t + n - (if t + 1 == m then m else 0)
    ensures ((if t + 1 == m then 0 else t + 1) + (n - 1)) % m == (t + n) % m
  {
    if t + 1 == m {
      ModUnique(t + n, 1 + (n - 1) / m, (n - 1) % m, m);
      ModUnique(n - 1, (n - 1) / m, (n - 1) % m, m);
    }
  }

  /** On a closed ring, `n` steps move `n` places. */
  lemma {:induction false} FlyCycle(ring: seq<State>, t: nat, n: nat)
    requires Closed(ring) && t < |ring|
    ensures Fly(ring[t], n) == Some(ring[(t + n) % |ring|])
    decreases n
  {
    if n == 0 {
      ModUnique(t, 0, t, |ring|);
    } else {
      var u := if t + 1 == |ring| then 0 else t + 1;
      assert WrapCube(ring[t]) == Some(ring[u]);
      FlyCycle(ring, u, n - 1);
      ModNext(t, n, |ring|);
    }
  }

  function RingStates(k: Ring, p: nat, forward: bool): (ring: seq<State>)
    requires p < Size
    ensures |ring| == Circuit
  {
    seq(Circuit, t requires 0 <= t < Circuit => OnRing(k, p, t, forward))
  }

  lemma RingClosed(k: Ring, p: nat, forward: bool)
    requires p < Size
    ensures Closed(RingStates(k, p, forward))
  {
    var ring := RingStates(k, p, forward);
    forall i | 0 <= i < |ring| - 1
      ensures WrapCube(ring[i]) == Some(ring[i + 1])
    {
      RingStep(k, p, i, forward);
    }
    RingStep(k, p, Circuit - 1, forward);
  }

  /** Turning round on a ring is standing on the reverse ring. */
  lemma RingTurn(k: Ring, p: nat, forward: bool, u: nat)
    requires p < Size && u < Circuit
    ensures Turn(RingStates(k, p, forward)[u]) == RingStates(k, p, !forward)[Circuit - 1 - u]
  {
  }

  /** The ring position of a state on the cube. */
  function Locate(s: State): (r: (Ring, nat, nat, bool))
    requires OnCube(s.cell)
    ensures r.1 < Size && r.2 < Circuit && OnRing(r.0, r.1, r.2, r.3) == s
  {
    var Cell(row, col) := s.cell;
    if row < Size && col < 2 * Size then
      // face 1
      match s.facing
      case Right => (Across, row, col - Size, true)
      case Left => (Across, row, Circuit - 1 - (col - Size), false)
      case Down => (Downward, col - Size, row, true)
      case Up => (Downward, col - Size, Circuit - 1 - row, false)
    else if row < Size then
      // face 2
      match s.facing
      case Right => (Across, row, col - Size, true)
      case Left => (Across, row, Circuit - 1 - (col - Size), false)
      case Down => (Around, col - 2 * Size, row, true)
      case Up => (Around, col - 2 * Size, Circuit - 1 - row, false)
    else if row < 2 * Size then
      // face 3
      match s.facing
      case Left => (Around, row - Size, 3 * Size - 1 - col, true)
      case Right => (Around, row - Size, Circuit - 1 - (3 * Size - 1 - col), false)
      case Down => (Downward, col - Size, row, true)
      case Up => (Downward, col - Size, Circuit - 1 - row, false)
    else if row < 3 * Size && col >= Size then
      // face 5
      match s.facing
      case Left => (Across, 3 * Size - 1 - row, 4 * Size - 1 - col, true)
      case Right => (Across, 3 * Size - 1 - row, Circuit - 1 - (4 * Size - 1 - col), false)
      case Down => (Downward, col - Size, row, true)
      case Up => (Downward, col - Size, Circuit - 1 - row, false)
    else if row < 3 * Size then
      // face 4
      match s.facing
      case Left => (Across, 3 * Size - 1 - row, 4 * Size - 1 - col, true)
      case Right => (Across, 3 * Size - 1 - row, Circuit - 1 - (4 * Size - 1 - col), false)
      case Down => (Around, col, row, true)
      case Up => (Around, col, Circuit - 1 - row, false)
    else
      // face 6
      match s.facing
      case Left => (Downward, row - 3 * Size, 4 * Size - 1 - col, true)
      case Right => (Downward, row - 3 * Size, Circuit - 1 - (4 * Size - 1 - col), false)
      case Down => (Around, col, row, true)
      case Up => (Around, col, Circuit - 1 - row, false)
  }

  /** Every state of the cube lies on a ring. */
  lemma FindRing(s: State) returns (k: Ring, p: nat, t: nat, forward: bool)
    requires OnCube(s.cell)
    ensures p < Size && t < Circuit && RingStates(k, p, forward)[t] == s
  {
    var r := Locate(s);
    k, p, t, forward := r.0, r.1, r.2, r.3;
  }

  lemma RingOnCube(k: Ring, p: nat, t: nat, forward: bool)
    requires p < Size && t < Circuit
    ensures OnCube(OnRing(k, p, t, forward).cell)
  {
  }

  /** Flying `4 * Size` steps from any tile of the cube, in any direction,
      returns to that tile facing the same way. */
  lemma FlyAroundReturns(s: State)
    requires OnCube(s.cell)
    ensures Fly(s, Circuit) == Some(s)
  {
    var k, p, t, forward := FindRing(s);
    var ring := RingStates(k, p, forward);
    RingClosed(k, p, forward);
    FlyCycle(ring, t, Circuit);
    ModUnique(t + Circuit, 1, t, Circuit);
  }

  /** A cube step from a tile of the cube lands on the cube, and turning
      round and stepping back undoes it: the edges are glued consistently. */
  lemma WrapCubeInverse(s: State)
    requires OnCube(s.cell)
    ensures WrapCube(s).Some? && OnCube(WrapCube(s).value.cell)
    ensures WrapCube(Turn(WrapCube(s).value)) == Some(Turn(s))
  {
    var (k, p, t, forward) := Locate(s);
    var a, b := RingStates(k, p, forward), RingStates(k, p, !forward);
    RingClosed(k, p, forward);
    RingClosed(k, p, !forward);
    assert a[t] == s;
    var u := Next(t);
    RingStep(k, p, t, forward);
    RingOnCube(k, p, u, forward);
    RingTurn(k, p, forward, u);
    RingTurn(k, p, forward, t);
    var v := Circuit - 1 - u;
    RingStep(k, p, v, !forward);
    assert Next(v) == Circuit - 1 - t;
  }

  // ----- the corner walks -----

  /** `walk_corner`: three times a cube step followed by a quarter turn. */
  function CornerWalk(s: State, clockwise: bool): Option<State>
  {
    match WrapCube(s)
    case None => None
    case Some(a) =>
      match WrapCube(State(a.cell, Rotate(a.facing, clockwise)))
      case None => None
      case Some(b) =>
        match WrapCube(State(b.cell, Rotate(b.facing, clockwise)))
        case None => None
        case Some(c) => Some(State(c.cell, Rotate(c.facing, clockwise)))
  }

  /** Walking round a corner of a face, where three faces meet, comes
      back to the start: for each of the four corners of each face
      (clockwise from the top left), leave across the corner in either of
      its two directions and turn back towards it after every step. */
  lemma Face1Corners()
    ensures CornerWalk(State(Cell(0, 50), Up), false) == Some(State(Cell(0, 50), Up))
    ensures CornerWalk(State(Cell(0, 50), Left), true) == Some(State(Cell(0, 50), Left))
    ensures CornerWalk(State(Cell(0, 99), Right), false) == Some(State(Cell(0, 99), Right))
    ensures CornerWalk(State(Cell(0, 99), Up), true) == Some(State(Cell(0, 99), Up))
    ensures CornerWalk(State(Cell(49, 99), Right), true) == Some(State(Cell(49, 99), Right))
    ensures CornerWalk(State(Cell(49, 99), Down), false) == Some(State(Cell(49, 99), Down))
    ensures CornerWalk(State(Cell(49, 50), Down), true) == Some(State(Cell(49, 50), Down))
    ensures CornerWalk(State(Cell(49, 50), Left), false) == Some(State(Cell(49, 50), Left))
  {
    Face1Top();
    Face1Bottom();
  }

  lemma Face1Top()
    ensures CornerWalk(State(Cell(0, 50), Up), false) == Some(State(Cell(0, 50), Up))
    ensures CornerWalk(State(Cell(0, 50), Left), true) == Some(State(Cell(0, 50), Left))
    ensures CornerWalk(State(Cell(0, 99), Right), false) == Some(State(Cell(0, 99), Right))
    ensures CornerWalk(State(Cell(0, 99), Up), true) == Some(State(Cell(0, 99), Up))
  {
  }

  lemma Face1Bottom()
    ensures CornerWalk(State(Cell(49, 99), Right), true) == Some(State(Cell(49, 99), Right))
    ensures CornerWalk(State(Cell(49, 99), Down), false) == Some(State(Cell(49, 99), Down))
    ensures CornerWalk(State(Cell(49, 50), Down), true) == Some(State(Cell(49, 50), Down))
    ensures CornerWalk(State(Cell(49, 50), Left), false) == Some(State(Cell(49, 50), Left))
  {
  }

  lemma Face2Corners()
    ensures CornerWalk(State(Cell(0, 100), Up), false) == Some(State(Cell(0, 100), Up))
    ensures CornerWalk(State(Cell(0, 100), Left), true) == Some(State(Cell(0, 100), Left))
    ensures CornerWalk(State(Cell(0, 149), Right), false) == Some(State(Cell(0, 149), Right))
    ensures CornerWalk(State(Cell(0, 149), Up), true) == Some(State(Cell(0, 149), Up))
    ensures CornerWalk(State(Cell(49, 149), Right), true) == Some(State(Cell(49, 149), Right))
    ensures CornerWalk(State(Cell(49, 149), Down), false) == Some(State(Cell(49, 149), Down))
    ensures CornerWalk(State(Cell(49, 100), Down), true) == Some(State(Cell(49, 100), Down))
    ensures CornerWalk(State(Cell(49, 100), Left), false) == Some(State(Cell(49, 100), Left))
  {
    Face2Top();
    Face2Bottom();
  }

  lemma Face2Top()
    ensures CornerWalk(State(Cell(0, 100), Up), false) == Some(State(Cell(0, 100), Up))
    ensures CornerWalk(State(Cell(0, 100), Left), true) == Some(State(Cell(0, 100), Left))
    ensures CornerWalk(State(Cell(0, 149), Right), false) == Some(State(Cell(0, 149), Right))
    ensures CornerWalk(State(Cell(0, 149), Up), true) == Some(State(Cell(0, 149), Up))
  {
  }

  lemma Face2Bottom()
    ensures CornerWalk(State(Cell(49, 149), Right), true) == Some(State(Cell(49, 149), Right))
    ensures CornerWalk(State(Cell(49, 149), Down), false) == Some(State(Cell(49, 149), Down))
    ensures CornerWalk(State(Cell(49, 100), Down), true) == Some(State(Cell(49, 100), Down))
    ensures CornerWalk(State(Cell(49, 100), Left), false) == Some(State(Cell(49, 100), Left))
  {
  }

  lemma Face3Corners()
    ensures CornerWalk(State(Cell(50, 50), Up), false) == Some(State(Cell(50, 50), Up))
    ensures CornerWalk(State(Cell(50, 50), Left), true) == Some(State(Cell(50, 50), Left))
    ensures CornerWalk(State(Cell(50, 99), Right), false) == Some(State(Cell(50, 99), Right))
    ensures CornerWalk(State(Cell(50, 99), Up), true) == Some(State(Cell(50, 99), Up))
    ensures CornerWalk(State(Cell(99, 99), Right), true) == Some(State(Cell(99, 99), Right))
    ensures CornerWalk(State(Cell(99, 99), Down), false) == Some(State(Cell(99, 99), Down))
    ensures CornerWalk(State(Cell(99, 50), Down), true) == Some(State(Cell(99, 50), Down))
    ensures CornerWalk(State(Cell(99, 50), Left), false) == Some(State(Cell(99, 50), Left))
  {
    Face3Top();
    Face3Bottom();
  }

  lemma Face3Top()
    ensures CornerWalk(State(Cell(50, 50), Up), false) == Some(State(Cell(50, 50), Up))
    ensures CornerWalk(State(Cell(50, 50), Left), true) == Some(State(Cell(50, 50), Left))
    ensures CornerWalk(State(Cell(50, 99), Right), false) == Some(State(Cell(50, 99), Right))
    ensures CornerWalk(State(Cell(50, 99), Up), true) == Some(State(Cell(50, 99), Up))
  {
  }

  lemma Face3Bottom()
    ensures CornerWalk(State(Cell(99, 99), Right), true) == Some(State(Cell(99, 99), Right))
    ensures CornerWalk(State(Cell(99, 99), Down), false) == Some(State(Cell(99, 99), Down))
    ensures CornerWalk(State(Cell(99, 50), Down), true) == Some(State(Cell(99, 50), Down))
    ensures CornerWalk(State(Cell(99, 50), Left), false) == Some(State(Cell(99, 50), Left))
  {
  }

  lemma Face4Corners()
    ensures CornerWalk(State(Cell(100, 0), Up), false) == Some(State(Cell(100, 0), Up))
    ensures CornerWalk(State(Cell(100, 0), Left), true) == Some(State(Cell(100, 0), Left))
    ensures CornerWalk(State(Cell(100, 49), Right), false) == Some(State(Cell(100, 49), Right))
    ensures CornerWalk(State(Cell(100, 49), Up), true) == Some(State(Cell(100, 49), Up))
    ensures CornerWalk(State(Cell(149, 49), Right), true) == Some(State(Cell(149, 49), Right))
    ensures CornerWalk(State(Cell(149, 49), Down), false) == Some(State(Cell(149, 49), Down))
    ensures CornerWalk(State(Cell(149, 0), Down), true) == Some(State(Cell(149, 0), Down))
    ensures CornerWalk(State(Cell(149, 0), Left), false) == Some(State(Cell(149, 0), Left))
  {
    Face4Top();
    Face4Bottom();
  }

  lemma Face4Top()
    ensures CornerWalk(State(Cell(100, 0), Up), false) == Some(State(Cell(100, 0), Up))
    ensures CornerWalk(State(Cell(100, 0), Left), true) == Some(State(Cell(100, 0), Left))
    ensures CornerWalk(State(Cell(100, 49), Right), false) == Some(State(Cell(100, 49), Right))
    ensures CornerWalk(State(Cell(100, 49), Up), true) == Some(State(Cell(100, 49), Up))
  {
  }

  lemma Face4Bottom()
    ensures CornerWalk(State(Cell(149, 49), Right), true) == Some(State(Cell(149, 49), Right))
    ensures CornerWalk(State(Cell(149, 49), Down), false) == Some(State(Cell(149, 49), Down))
    ensures CornerWalk(State(Cell(149, 0), Down), true) == Some(State(Cell(149, 0), Down))
    ensures CornerWalk(State(Cell(149, 0), Left), false) == Some(State(Cell(149, 0), Left))
  {
  }

  lemma Face5Corners()
    ensures CornerWalk(State(Cell(100, 50), Up), false) == Some(State(Cell(100, 50), Up))
    ensures CornerWalk(State(Cell(100, 50), Left), true) == Some(State(Cell(100, 50), Left))
    ensures CornerWalk(State(Cell(100, 99), Right), false) == Some(State(Cell(100, 99), Right))
    ensures CornerWalk(State(Cell(100, 99), Up), true) == Some(State(Cell(100, 99), Up))
    ensures CornerWalk(State(Cell(149, 99), Right), true) == Some(State(Cell(149, 99), Right))
    ensures CornerWalk(State(Cell(149, 99), Down), false) == Some(State(Cell(149, 99), Down))
    ensures CornerWalk(State(Cell(149, 50), Down), true) == Some(State(Cell(149, 50), Down))
    ensures CornerWalk(State(Cell(149, 50), Left), false) == Some(State(Cell(149, 50), Left))
  {
    Face5Top();
    Face5Bottom();
  }

  lemma Face5Top()
    ensures CornerWalk(State(Cell(100, 50), Up), false) == Some(State(Cell(100, 50), Up))
    ensures CornerWalk(State(Cell(100, 50), Left), true) == Some(State(Cell(100, 50), Left))
    ensures CornerWalk(State(Cell(100, 99), Right), false) == Some(State(Cell(100, 99), Right))
    ensures CornerWalk(State(Cell(100, 99), Up), true) == Some(State(Cell(100, 99), Up))
  {
  }

  lemma Face5Bottom()
    ensures CornerWalk(State(Cell(149, 99), Right), true) == Some(State(Cell(149, 99), Right))
    ensures CornerWalk(State(Cell(149, 99), Down), false) == Some(State(Cell(149, 99), Down))
    ensures CornerWalk(State(Cell(149, 50), Down), true) == Some(State(Cell(149, 50), Down))
    ensures CornerWalk(State(Cell(149, 50), Left), false) == Some(State(Cell(149, 50), Left))
  {
  }

  lemma Face6Corners()
    ensures CornerWalk(State(Cell(150, 0), Up), false) == Some(State(Cell(150, 0), Up))
    ensures CornerWalk(State(Cell(150, 0), Left), true) == Some(State(Cell(150, 0), Left))
    ensures CornerWalk(State(Cell(150, 49), Right), false) == Some(State(Cell(150, 49), Right))
    ensures CornerWalk(State(Cell(150, 49), Up), true) == Some(State(Cell(150, 49), Up))
    ensures CornerWalk(State(Cell(199, 49), Right), true) == Some(State(Cell(199, 49), Right))
    ensures CornerWalk(State(Cell(199, 49), Down), false) == Some(State(Cell(199, 49), Down))
    ensures CornerWalk(State(Cell(199, 0), Down), true) == Some(State(Cell(199, 0), Down))
    ensures CornerWalk(State(Cell(199, 0), Left), false) == Some(State(Cell(199, 0), Left))
  {
    Face6Top();
    Face6Bottom();
  }

  lemma Face6Top()
    ensures CornerWalk(State(Cell(150, 0), Up), false) == Some(State(Cell(150, 0), Up))
    ensures CornerWalk(State(Cell(150, 0), Left), true) == Some(State(Cell(150, 0), Left))
    ensures CornerWalk(State(Cell(150, 49), Right), false) == Some(State(Cell(150, 49), Right))
    ensures CornerWalk(State(Cell(150, 49), Up), true) == Some(State(Cell(150, 49), Up))
  {
  }

  lemma Face6Bottom()
    ensures CornerWalk(State(Cell(199, 49), Right), true) == Some(State(Cell(199, 49), Right))
    ensures CornerWalk(State(Cell(199, 49), Down), false) == Some(State(Cell(199, 49), Down))
    ensures CornerWalk(State(Cell(199, 0), Down), true) == Some(State(Cell(199, 0), Down))
    ensures CornerWalk(State(Cell(199, 0), Left), false) == Some(State(Cell(199, 0), Left))
  {
  }
}
