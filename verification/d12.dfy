/** Hill climbing: a breadth-first search over a height map stored as one
    string of rows, recording each visited cell's parent and counting the
    hops back from the finish. */
module HillClimb {
  import opened Common
  import opened Text

  /** The map's rows concatenated, and the length of the first row. */
  datatype Maze = Maze(cells: string, cols: int)

  /** `parse_input`: `None` for an input without lines, where the source's
      `unwrap` panics. */
  function ParseInput(data: string): (r: Option<Maze>)
    ensures r.Some? ==> |Lines(data)| > 0 && r.value.cols == |Lines(data)[0]|
    ensures r.Some? ==> |r.value.cells| == |Concat(Lines(data))|
  {
    var ls := Lines(data);
    if |ls| == 0 then None else Some(Maze(Concat(ls), |ls[0]|))
  }

  function Concat(ls: seq<string>): string
  {
    if |ls| == 0 then [] else Concat(ls[..|ls| - 1]) + ls[|ls| - 1]
  }

  // ----- neighbours -----

  /** `c as i8`: the low byte of the code point, read as a signed byte. */
  function I8(c: char): int
  {
    var b := (c as int) % 256;
    if b >= 128 then b - 256 else b
  }

  /** The climbing rule: at most one level up, with 'S' standing for 'a' on
      the way out and 'E' for 'z' on the way in. */
  predicate Climbable(from: char, to: char)
  {
    var from' := if from == 'S' then 'a' else from;
    var to' := if to == 'E' then 'z' else to;
    I8(to') - I8(from') <= 1
  }

  /** Whether the cell at `n` may be stepped on from `index`: inside the
      map, not the start, and climbable. */
  predicate Admits(m: Maze, index: int, n: int)
    requires 0 <= index < |m.cells|
  {
    0 <= n < |m.cells| && m.cells[n] != 'S' && Climbable(m.cells[index], m.cells[n])
  }

  /** The four candidate indices in the source's order: left, right, up,
      down, each as `index + cols * dx.signum() + dy.signum()`. */
  function CandidatesAsWritten(m: Maze, index: int): seq<int>
  {
    [index + m.cols * Sign(0) + Sign(-1), index + m.cols * Sign(0) + Sign(1),
     index + m.cols * Sign(-1) + Sign(0), index + m.cols * Sign(1) + Sign(0)]
  }

  /** The candidates that are admitted, in order. */
  function Keep(m: Maze, index: int, cs: seq<int>): (r: seq<int>)
    requires 0 <= index < |m.cells|
    ensures forall k :: 0 <= k < |r| ==> r[k] in cs && Admits(m, index, r[k])
    ensures forall k :: 0 <= k < |cs| && Admits(m, index, cs[k]) ==> cs[k] in r
  {
    if |cs| == 0 then []
    else if Admits(m, index, cs[0]) then [cs[0]] + Keep(m, index, cs[1..])
    else Keep(m, index, cs[1..])
  }

  /** `reachable_neighbors` as written: the horizontal candidates are the
      neighbouring indices in the flattened string, so the last cell of a
      row reaches the first cell of the next one. */
  function NeighborsAsWritten(m: Maze, index: int): (r: seq<int>)
    requires 0 <= index < |m.cells|
    ensures forall n :: n in r <==> n in CandidatesAsWritten(m, index) && Admits(m, index, n)
  {
    Keep(m, index, CandidatesAsWritten(m, index))
  }

  /** The row wrap: in the two-by-two map "ab" over "bc", the end of the
      first row (index 1) reaches the start of the second (index 2), a cell
      diagonal to it. */
  lemma RowWrapAsWritten()
    ensures var m := Maze("abbc", 2);
      2 in NeighborsAsWritten(m, 1) && !Adjacent(m.cols, 1, 2)
  {
    var m := Maze("abbc", 2);
    assert CandidatesAsWritten(m, 1)[1] == 2;
    assert Admits(m, 1, 2);
  }

  /** Two cells are adjacent in a grid with `cols` columns when they share a
      row and their columns differ by one, or share a column and their rows
      differ by one. */
  predicate Adjacent(cols: int, a: int, b: int)
    requires cols > 0
  {
    (a / cols == b / cols && (a % cols - b % cols == 1 || b % cols - a % cols == 1))
    || (a % cols == b % cols && (a / cols - b / cols == 1 || b / cols - a / cols == 1))
  }

  /** The intended candidates: up and down as written, left and right only
      within the same row. */
  function Candidates(m: Maze, index: int): seq<int>
    requires m.cols > 0 && index >= 0
  {
    var col := index % m.cols;
    (if col > 0 then [index - 1] else [])
    + (if col + 1 < m.cols then [index + 1] else [])
    + [index - m.cols, index + m.cols]
  }

  /** Moving one cell along a row, without leaving it. */
  lemma RowStepAdjacent(c: int, a: int, b: int)
    requires c > 0 && a >= 0 && b >= 0
    requires (b == a - 1 && a % c > 0) || (b == a + 1 && a % c + 1 < c)
    ensures Adjacent(c, a, b)
  {
    ModUnique(a, a / c, a % c, c);
    if b == a - 1 {
      ModUnique(b, a / c, a % c - 1, c);
    } else {
      ModUnique(b, a / c, a % c + 1, c);
    }
  }

  /** Moving one row up or down keeps the column. */
  lemma ColumnStepAdjacent(c: int, a: int, b: int)
    requires c > 0 && a >= 0 && b >= 0 && (b == a - c || b == a + c)
    ensures Adjacent(c, a, b)
  {
    var q, col := a / c, a % c;
    ModUnique(a, q, col, c);
    if b == a - c {
      assert b == (q - 1) * c + col;
      ModUnique(b, q - 1, col, c);
    } else {
      assert b == (q + 1) * c + col;
      ModUnique(b, q + 1, col, c);
    }
  }

  /** Every non-negative corrected candidate is adjacent in the grid. */
  lemma CandidatesAdjacent(m: Maze, index: int, n: int)
    requires m.cols > 0 && index >= 0 && n >= 0 && n in Candidates(m, index)
    ensures Adjacent(m.cols, index, n)
  {
    if n == index - m.cols || n == index + m.cols {
      ColumnStepAdjacent(m.cols, index, n);
    } else {
      RowStepAdjacent(m.cols, index, n);
    }
  }

  /** `reachable_neighbors` with the row wrap removed. */
  function Neighbors(m: Maze, index: int): (r: seq<int>)
    requires m.cols > 0 && 0 <= index < |m.cells|
    ensures forall n :: n in r <==> n in Candidates(m, index) && Admits(m, index, n)
  {
    Keep(m, index, Candidates(m, index))
  }

  /** Every neighbour is a grid-adjacent cell inside the map, not the start,
      and at most one level higher. */
  lemma NeighborsAreSteps(m: Maze, index: int, n: int)
    requires m.cols > 0 && 0 <= index < |m.cells| && n in Neighbors(m, index)
    ensures 0 <= n < |m.cells| && m.cells[n] != 'S'
    ensures Adjacent(m.cols, index, n)
    ensures Climbable(m.cells[index], m.cells[n])
  {
    CandidatesAdjacent(m, index, n);
  }

  /** Within a row the corrected candidates agree with the source's: the two
      differ only at the ends of rows. */
  lemma CandidatesAgreeInside(m: Maze, index: int)
    requires m.cols > 0 && index >= 0 && 0 < index % m.cols < m.cols - 1
    ensures Candidates(m, index) == CandidatesAsWritten(m, index)
  {
  }

  /** The steps the search takes from `index`: the source's rule as
      written, or with the row wrap removed. */
  function Moves(m: Maze, index: int, corrected: bool): (r: seq<int>)
    requires (corrected ==> m.cols > 0) && 0 <= index < |m.cells|
    ensures forall n :: n in r ==> Admits(m, index, n)
  {
    if corrected then Neighbors(m, index) else NeighborsAsWritten(m, index)
  }

  /** Every corrected step is also a step as written: removing the wrap
      only takes moves away. */
  lemma NeighborsWithinAsWritten(m: Maze, index: int, n: int)
    requires m.cols > 0 && 0 <= index < |m.cells| && n in Neighbors(m, index)
    ensures n in NeighborsAsWritten(m, index)
  {
    assert n in CandidatesAsWritten(m, index);
  }

  // ----- the search -----

  /** The visited table: (cell, parent) entries in insertion order; the
      source's hash map, of which only the key-to-parent relation matters. */
  type Visited = seq<(int, int)>

  /** The position of `key`'s entry. */
  function PosOf(v: Visited, key: int): (r: Option<nat>)
    ensures r.Some? ==> r.value < |v| && v[r.value].0 == key
    ensures r.None? <==> forall k :: 0 <= k < |v| ==> v[k].0 != key
    ensures r.Some? ==> forall k :: 0 <= k < r.value ==> v[k].0 != key
  {
    if |v| == 0 then None
    else if v[0].0 == key then Some(0)
    else
      match PosOf(v[1..], key)
      case None => None
      case Some(p) => Some(p + 1)
  }

  /** Entry `i`'s parent was entered earlier, and entry `i` is one of its
      neighbours. */
  predicate ParentOk(m: Maze, v: Visited, i: nat, corrected: bool)
    requires (corrected ==> m.cols > 0) && i < |v|
  {
    var p := PosOf(v, v[i].1);
    p.Some? && p.value < i && 0 <= v[i].1 < |m.cells| && v[i].0 in Moves(m, v[i].1, corrected)
  }

  predicate DistinctKeys(v: Visited)
  {
    forall i, j :: 0 <= i < j < |v| ==> v[i].0 != v[j].0
  }

  predicate KeysIn(v: Visited, size: nat)
  {
    forall i :: 0 <= i < |v| ==> 0 <= v[i].0 < size
  }

  /** What the search keeps true of its table: the start is first and its
      own parent; keys are distinct cells of the map; every other entry's
      parent was entered earlier and reaches it. */
  predicate Tree(m: Maze, start: int, v: Visited, corrected: bool)
    requires (corrected ==> m.cols > 0)
  {
    |v| > 0 && v[0] == (start, start) && DistinctKeys(v) && KeysIn(v, |m.cells|)
    && forall i: nat :: 0 < i < |v| ==> ParentOk(m, v, i, corrected)
  }

  /** The cells not yet visited, keeping order and repeats as the source's
      filter does. */
  function Unvisited(ns: seq<int>, v: Visited): (r: seq<int>)
    ensures forall k :: 0 <= k < |r| ==> r[k] in ns && PosOf(v, r[k]).None?
    ensures forall k :: 0 <= k < |ns| && PosOf(v, ns[k]).None? ==> ns[k] in r
  {
    if |ns| == 0 then []
    else if PosOf(v, ns[0]).None? then [ns[0]] + Unvisited(ns[1..], v)
    else Unvisited(ns[1..], v)
  }

  /** `visited.insert(n, node)` for each new cell; a repeat finds its key
      already present with the same parent, so it is skipped. */
  function Insert(v: Visited, ns: seq<int>, node: int): (r: Visited)
    ensures |v| <= |r| && r[..|v|] == v
    ensures forall k :: |v| <= k < |r| ==> r[k].1 == node && r[k].0 in ns
    ensures forall k :: 0 <= k < |ns| ==> PosOf(r, ns[k]).Some?
    decreases |ns|
  {
    if |ns| == 0 then v
    else if PosOf(v, ns[0]).Some? then Insert(v, ns[1..], node)
    else
      var r := Insert(v + [(ns[0], node)], ns[1..], node);
      assert r[|v|] == (v + [(ns[0], node)])[|v|];
      r
  }

  /** Positions before the end of a prefix are found in the prefix. */
  lemma {:induction false} PosOfPrefix(v: Visited, w: Visited, key: int)
    requires |v| <= |w| && w[..|v|] == v && PosOf(v, key).Some?
    ensures PosOf(w, key) == PosOf(v, key)
    decreases |v|
  {
    if v[0].0 != key {
      assert w[1..][..|v| - 1] == v[1..];
      PosOfPrefix(v[1..], w[1..], key);
    }
  }

  /** Entering one unvisited neighbour of a visited node keeps the tree. */
  lemma AppendKeepsTree(m: Maze, start: int, v: Visited, n: int, node: int, corrected: bool)
    requires (corrected ==> m.cols > 0) && Tree(m, start, v, corrected)
    requires PosOf(v, node).Some? && PosOf(v, n).None?
    requires 0 <= node < |m.cells| && n in Moves(m, node, corrected)
    ensures Tree(m, start, v + [(n, node)], corrected)
  {
    var v' := v + [(n, node)];
    var pn := PosOf(v, node).value;
    assert 0 <= v[pn].0 < |m.cells|;
    forall i: nat | 0 < i < |v'|
      ensures ParentOk(m, v', i, corrected)
    {
      if i < |v| {
        assert v'[i] == v[i];
        assert ParentOk(m, v, i, corrected);
        PosOfPrefix(v, v', v[i].1);
      } else {
        PosOfPrefix(v, v', node);
      }
    }
    assert DistinctKeys(v') by {
      forall i, j | 0 <= i < j < |v'|
        ensures v'[i].0 != v'[j].0
      {
        if j < |v| {
          assert v'[i] == v[i] && v'[j] == v[j];
        } else {
          assert v'[i] == v[i];
        }
      }
    }
    assert KeysIn(v', |m.cells|) by {
      forall i | 0 <= i < |v'|
        ensures 0 <= v'[i].0 < |m.cells|
      {
        if i < |v| {
          assert v'[i] == v[i];
        }
      }
    }
  }

  /** Adding the unvisited neighbours of a visited node keeps the tree. */
  lemma {:induction false} InsertKeepsTree(m: Maze, start: int, v: Visited, ns: seq<int>, node: int, corrected: bool)
    requires (corrected ==> m.cols > 0) && Tree(m, start, v, corrected)
    requires PosOf(v, node).Some?
    requires 0 <= node < |m.cells| && forall k :: 0 <= k < |ns| ==> ns[k] in Moves(m, node, corrected)
    ensures Tree(m, start, Insert(v, ns, node), corrected)
    decreases |ns|
  {
    if |ns| > 0 {
      if PosOf(v, ns[0]).Some? {
        InsertKeepsTree(m, start, v, ns[1..], node, corrected);
      } else {
        var v' := v + [(ns[0], node)];
        AppendKeepsTree(m, start, v, ns[0], node, corrected);
        PosOfPrefix(v, v', node);
        InsertKeepsTree(m, start, v', ns[1..], node, corrected);
      }
    }
  }

  /** The cells `0..n`. */
  function RangeSet(n: nat): (r: set<int>)
    ensures forall i :: i in r <==> 0 <= i < n
    ensures |r| == n
  {
    if n == 0 then {} else RangeSet(n - 1) + {n - 1}
  }

  /** A sequence without repeats has as many elements as its set. */
  lemma {:induction false} DistinctSize(s: seq<int>)
    requires forall i, j :: 0 <= i < j < |s| ==> s[i] != s[j]
    ensures |set x | x in s| == |s|
    decreases |s|
  {
    if |s| > 0 {
      var t := s[..|s| - 1];
      DistinctSize(t);
      assert (set x | x in s) == (set x | x in t) + {s[|s| - 1]};
    }
  }

  function Keys(v: Visited): seq<int>
  {
    seq(|v|, i requires 0 <= i < |v| => v[i].0)
  }

  /** Distinct cells of the map are at most as many as the map's cells. */
  lemma TableBound(m: Maze, start: int, v: Visited, corrected: bool)
    requires (corrected ==> m.cols > 0) && Tree(m, start, v, corrected)
    ensures |v| <= |m.cells|
  {
    var ks := Keys(v);
    assert forall i :: 0 <= i < |ks| ==> ks[i] == v[i].0;
    assert DistinctKeys(v) && KeysIn(v, |m.cells|);
    DistinctSize(ks);
    forall x | x in ks
      ensures x in RangeSet(|m.cells|)
    {
      var i :| 0 <= i < |ks| && ks[i] == x;
    }
    var used, all := (set x | x in ks), RangeSet(|m.cells|);
    assert used <= all;
    assert all == used + (all - used);
    assert used * (all - used) == {};
  }

  /** Every queued cell has been visited. */
  predicate Queued(v: Visited, queue: seq<int>)
  {
    forall k :: 0 <= k < |queue| ==> PosOf(v, queue[k]).Some?
  }

  /** Inserting at least one unvisited cell grows the table. */
  lemma InsertGrows(v: Visited, ns: seq<int>, node: int)
    requires forall k :: 0 <= k < |ns| ==> PosOf(v, ns[k]).None?
    ensures |ns| > 0 ==> |Insert(v, ns, node)| > |v|
  {
    if |ns| > 0 {
      var v' := Insert(v, ns, node);
      assert PosOf(v', ns[0]).Some?;
    }
  }

  /** The queue after popping and appending cells now visited. */
  lemma QueuedAfter(v: Visited, v': Visited, queue: seq<int>, ns: seq<int>)
    requires Queued(v, queue) && |queue| > 0 && |v| <= |v'| && v'[..|v|] == v
    requires forall k :: 0 <= k < |ns| ==> PosOf(v', ns[k]).Some?
    ensures Queued(v', queue[1..] + ns)
  {
    forall k | 0 <= k < |queue[1..] + ns|
      ensures PosOf(v', (queue[1..] + ns)[k]).Some?
    {
      if k < |queue| - 1 {
        PosOfPrefix(v, v', queue[k + 1]);
      }
    }
  }

  /** Entering the unvisited neighbours of `node`, each with `node` as its
      parent: the new cells and the grown table. */
  function Expand(m: Maze, start: int, v: Visited, node: int, corrected: bool): (r: (seq<int>, Visited))
    requires (corrected ==> m.cols > 0) && Tree(m, start, v, corrected) && PosOf(v, node).Some?
    ensures Tree(m, start, r.1, corrected) && |v| <= |r.1| <= |m.cells| && r.1[..|v|] == v
    ensures |r.0| > 0 ==> |r.1| > |v|
    ensures forall k :: 0 <= k < |r.0| ==> PosOf(r.1, r.0[k]).Some?
  {
    var p := PosOf(v, node).value;
    assert 0 <= v[p].0 < |m.cells| by { assert KeysIn(v, |m.cells|); }
    var unseen := Unvisited(Moves(m, v[p].0, corrected), v);
    var v' := Insert(v, unseen, node);
    InsertKeepsTree(m, start, v, unseen, node, corrected);
    TableBound(m, start, v', corrected);
    InsertGrows(v, unseen, node);
    (unseen, v')
  }

  /** The search loop: pop the front of the queue, stop at the finish,
      otherwise enter and queue the unvisited neighbours. */
  function Explore(m: Maze, start: int, finish: int, queue: seq<int>, v: Visited, corrected: bool): (r: Visited)
    requires (corrected ==> m.cols > 0) && Tree(m, start, v, corrected) && Queued(v, queue)
    ensures Tree(m, start, r, corrected) && |v| <= |r| && r[..|v|] == v
    decreases |m.cells| - |v|, |queue|
  {
    if |queue| == 0 then v
    else
      var node := queue[0];
      if node == finish then v
      else
        var expanded := Expand(m, start, v, node, corrected);
        QueuedAfter(v, expanded.1, queue, expanded.0);
        var r := Explore(m, start, finish, queue[1..] + expanded.0, expanded.1, corrected);
        PrefixOfPrefix(v, expanded.1, r);
        r
  }

  lemma PrefixOfPrefix(a: Visited, b: Visited, c: Visited)
    requires |a| <= |b| <= |c| && b[..|a|] == a && c[..|b|] == b
    ensures c[..|a|] == a
  {
    assert c[..|a|] == c[..|b|][..|a|];
  }

  /** The cells from the start to entry `p`, following parents back. */
  function Walk(m: Maze, start: int, v: Visited, p: nat, corrected: bool): (w: seq<int>)
    requires (corrected ==> m.cols > 0) && Tree(m, start, v, corrected) && p < |v|
    ensures |w| > 0 && w[0] == start && w[|w| - 1] == v[p].0
    decreases p
  {
    if p == 0 then [start]
    else
      assert ParentOk(m, v, p, corrected);
      Walk(m, start, v, PosOf(v, v[p].1).value, corrected) + [v[p].0]
  }

  /** A path of steps the climbing rule allows. */
  predicate IsPath(m: Maze, w: seq<int>, corrected: bool)
    requires (corrected ==> m.cols > 0)
  {
    (forall k :: 0 <= k < |w| ==> 0 <= w[k] < |m.cells|)
    && forall k :: 0 <= k < |w| - 1 ==> w[k + 1] in Moves(m, w[k], corrected)
  }

  /** Following parents back from any entry gives a path from the start. */
  lemma {:induction false} WalkIsPath(m: Maze, start: int, v: Visited, p: nat, corrected: bool)
    requires (corrected ==> m.cols > 0) && Tree(m, start, v, corrected) && p < |v|
    ensures IsPath(m, Walk(m, start, v, p, corrected), corrected)
    decreases p
  {
    if p > 0 {
      assert ParentOk(m, v, p, corrected);
      var q := PosOf(v, v[p].1).value;
      WalkIsPath(m, start, v, q, corrected);
    }
  }

  /** `find_bfs`: the number of hops from the finish back to the start, and
      0 when the finish was never reached. With `corrected` false the
      search steps by `reachable_neighbors` as written. A non-zero answer
      is the length of a path the rules allow from the start to the
      finish; zero means the finish was never entered, or is the start. */
  function FindBfs(m: Maze, start: int, finish: int, corrected: bool): (hops: nat)
    requires (corrected ==> m.cols > 0) && 0 <= start < |m.cells|
    ensures hops > 0 ==>
      exists w :: IsPath(m, w, corrected) && |w| == hops + 1 && w[0] == start && w[|w| - 1] == finish
  {
    var v := Explore(m, start, finish, [start], [(start, start)], corrected);
    match PosOf(v, finish)
    case None => 0
    case Some(p) =>
      WalkIsPath(m, start, v, p, corrected);
      var w := Walk(m, start, v, p, corrected);
      assert IsPath(m, w, corrected) && w[0] == start && w[|w| - 1] == finish;
      |w| - 1
  }

  /** A path under the corrected rule is a path as written. */
  lemma CorrectedPathAsWritten(m: Maze, w: seq<int>)
    requires m.cols > 0 && IsPath(m, w, true)
    ensures IsPath(m, w, false)
  {
    forall k | 0 <= k < |w| - 1
      ensures w[k + 1] in Moves(m, w[k], false)
    {
      NeighborsWithinAsWritten(m, w[k], w[k + 1]);
    }
  }

  /** `str::find`: the first position of `c`. */
  function Find(s: string, c: char): (r: Option<nat>)
    ensures r.Some? ==> r.value < |s| && s[r.value] == c
    ensures r.Some? ==> forall i :: 0 <= i < r.value ==> s[i] != c
    ensures r.None? <==> c !in s
  {
    if |s| == 0 then None
    else if s[0] == c then Some(0)
    else
      match Find(s[1..], c)
      case None => None
      case Some(i) =>
        assert s[..i + 1] == [s[0]] + s[1..][..i];
        Some(i + 1)
  }

  /** `solve_part1`: the search from the first 'S' to the first 'E';
      `None` where the source's `unwrap` on a missing 'S' or 'E' panics.
      With `corrected` false it is the source's answer. */
  function Part1(m: Maze, corrected: bool): (r: Option<nat>)
    requires (corrected ==> m.cols > 0)
    ensures r.Some? <==> 'S' in m.cells && 'E' in m.cells
    ensures r.Some? && r.value > 0 ==>
      exists w :: IsPath(m, w, corrected) && |w| == r.value + 1
        && Find(m.cells, 'S') == Some(w[0]) && Find(m.cells, 'E') == Some(w[|w| - 1])
  {
    match Find(m.cells, 'S')
    case None => None
    case Some(s) =>
      match Find(m.cells, 'E')
      case None => None
      case Some(e) =>
        Some(FindBfs(m, s, e, corrected))
  }

  /** A first line without characters gives zero columns, and the source
      still answers: the up and down candidates are then the cell itself,
      which is already visited. In "\nSbE\n" the climb from 'b' to 'E' is
      too steep, so part 1 is 0. */
  lemma NoColumnsAsWritten(data: string, m: Maze)
    requires data == "\nSbE\n" && m == Maze("SbE", 0)
    ensures ParseInput(data) == Some(m)
    ensures Part1(m, false) == Some(0)
  {
    NoColumnsParse(data, m);
    NoColumnsEnds(m);
    NoColumnsSearch(m, [(0, 0)], [(0, 0), (1, 0)]);
  }

  lemma NoColumnsParse(data: string, m: Maze)
    requires data == "\nSbE\n" && m == Maze("SbE", 0)
    ensures ParseInput(data) == Some(m)
  {
    var ls := ["", "SbE"];
    assert data == Unlines(ls);
    LinesUnlines(ls);
    assert ls[..1] == [""] && [""][..0] == [];
    assert Concat(ls) == "SbE";
  }

  lemma NoColumnsEnds(m: Maze)
    requires m == Maze("SbE", 0)
    ensures Find(m.cells, 'S') == Some(0) && Find(m.cells, 'E') == Some(2)
  {
    assert m.cells[1..][1..] == "E";
    assert Find(m.cells[1..], 'E') == Some(1);
  }

  /** From 'S' the search enters 'b'; from 'b' it finds only 'S' and 'b'
      itself, never 'E'. */
  lemma NoColumnsSearch(m: Maze, v0: Visited, v1: Visited)
    requires m == Maze("SbE", 0) && v0 == [(0, 0)] && v1 == [(0, 0), (1, 0)]
    ensures Tree(m, 0, v0, false) && Queued(v0, [0])
    ensures PosOf(Explore(m, 0, 2, [0], v0, false), 2).None?
  {
    NoColumnsExpand(m, v0, v1);
    assert PosOf(v1, 2).None?;
    SearchEnds(m, v0, v1);
  }

  /** One pass of the search loop as written, from a queue whose head is
      not the finish. */
  lemma ExploreStep(m: Maze, start: int, finish: int, queue: seq<int>, v: Visited, queued: seq<int>, v': Visited, rest: seq<int>)
    requires Tree(m, start, v, false) && Queued(v, queue)
    requires |queue| > 0 && queue[0] != finish
    requires Expand(m, start, v, queue[0], false) == (queued, v')
    requires rest == queue[1..] + queued
    ensures Tree(m, start, v', false) && Queued(v', rest)
    ensures Explore(m, start, finish, queue, v, false) == Explore(m, start, finish, rest, v', false)
  {
    QueuedAfter(v, v', queue, queued);
  }

  /** Expanding the start queues 'b', and expanding 'b' queues nothing,
      so the search ends with the table of those two entries. */
  lemma SearchEnds(m: Maze, v0: Visited, v1: Visited)
    requires Tree(m, 0, v0, false) && PosOf(v0, 0).Some? && Expand(m, 0, v0, 0, false) == ([1], v1)
    requires Tree(m, 0, v1, false) && PosOf(v1, 1).Some? && Expand(m, 0, v1, 1, false) == ([], v1)
    requires PosOf(v1, 2).None?
    ensures Queued(v0, [0]) && PosOf(Explore(m, 0, 2, [0], v0, false), 2).None?
  {
    assert Queued(v0, [0]);
    assert Queued(v1, [1]);
    assert Explore(m, 0, 2, [], v1, false) == v1;
    ExploreStep(m, 0, 2, [1], v1, [], v1, []);
    ExploreStep(m, 0, 2, [0], v0, [1], v1, [1]);
  }

  lemma NoColumnsExpand(m: Maze, v0: Visited, v1: Visited)
    requires m == Maze("SbE", 0) && v0 == [(0, 0)] && v1 == [(0, 0), (1, 0)]
    ensures Tree(m, 0, v0, false) && PosOf(v0, 0).Some?
    ensures Expand(m, 0, v0, 0, false) == ([1], v1)
    ensures Tree(m, 0, v1, false) && PosOf(v1, 1).Some?
    ensures Expand(m, 0, v1, 1, false) == ([], v1)
  {
    NoColumnsSteps(m);
    NoColumnsTable(m, v0, v1);
  }

  lemma NoColumnsTable(m: Maze, v0: Visited, v1: Visited)
    requires m == Maze("SbE", 0) && v0 == [(0, 0)] && v1 == [(0, 0), (1, 0)]
    ensures Tree(m, 0, v0, false)
    ensures PosOf(v0, 0) == Some(0) && PosOf(v0, 1).None? && PosOf(v1, 1) == Some(1)
    ensures Unvisited([1], v0) == [1] && Insert(v0, [1], 0) == v1
    ensures Unvisited([1, 1], v1) == []
  {
    assert PosOf(v0, 0) == Some(0) && PosOf(v0, 1).None? && PosOf(v1, 1) == Some(1);
    assert [1, 1][1..] == [1];
    assert Unvisited([1], v1) == [];
  }

  /** The moves as written from 'S' and from 'b'. */
  lemma NoColumnsSteps(m: Maze)
    requires m == Maze("SbE", 0)
    ensures NeighborsAsWritten(m, 0) == [1]
    ensures NeighborsAsWritten(m, 1) == [1, 1]
  {
    NoColumnsFromStart(m);
    NoColumnsFromB(m);
  }

  lemma NoColumnsFromStart(m: Maze)
    requires m == Maze("SbE", 0)
    ensures Keep(m, 0, [-1, 1, 0, 0]) == [1]
  {
    NoColumnsLevels();
    assert Admits(m, 0, 1) && !Admits(m, 0, 0) && !Admits(m, 0, -1);
    assert Keep(m, 0, [0]) == [];
    assert Keep(m, 0, [0, 0]) == [];
    assert Keep(m, 0, [1, 0, 0]) == [1];
  }

  lemma NoColumnsFromB(m: Maze)
    requires m == Maze("SbE", 0)
    ensures Keep(m, 1, [0, 2, 1, 1]) == [1, 1]
  {
    NoColumnsLevels();
    assert !Admits(m, 1, 0) && !Admits(m, 1, 2) && Admits(m, 1, 1);
    assert Keep(m, 1, [1]) == [1];
    assert Keep(m, 1, [1, 1]) == [1, 1];
    assert Keep(m, 1, [2, 1, 1]) == [1, 1];
  }

  lemma NoColumnsLevels()
    ensures I8('a') == 97 && I8('b') == 98 && I8('z') == 122
  {
  }

  /** The positions of 'a', in order. */
  function Lowest(s: string, from: nat): (r: seq<nat>)
    requires from <= |s|
    ensures forall k :: 0 <= k < |r| ==> from <= r[k] < |s| && s[r[k]] == 'a'
    ensures forall i :: from <= i < |s| && s[i] == 'a' ==> i in r
    decreases |s| - from
  {
    if from == |s| then []
    else if s[from] == 'a' then [from] + Lowest(s, from + 1)
    else Lowest(s, from + 1)
  }

  /** The smallest non-zero value, if any. */
  function MinNonZero(xs: seq<nat>): (r: Option<nat>)
    ensures r.Some? ==> r.value > 0 && r.value in xs
    ensures r.Some? ==> forall k :: 0 <= k < |xs| && xs[k] > 0 ==> r.value <= xs[k]
    ensures r.None? <==> forall k :: 0 <= k < |xs| ==> xs[k] == 0
  {
    if |xs| == 0 then None
    else
      var rest := MinNonZero(xs[1..]);
      if xs[0] == 0 then rest
      else if rest.None? || xs[0] <= rest.value then Some(xs[0])
      else rest
  }

  /** `solve_part2`: the shortest non-zero search from any 'a'; `None`
      where the source's `unwrap` on an empty minimum panics. With
      `corrected` false it is the source's answer. */
  function Part2(m: Maze, corrected: bool): (r: Option<nat>)
    requires (corrected ==> m.cols > 0)
    ensures 'E' !in m.cells ==> r.None?
    ensures r.Some? ==> r.value > 0
  {
    match Find(m.cells, 'E')
    case None => None
    case Some(e) =>
      var starts := Lowest(m.cells, 0);
      MinNonZero(seq(|starts|, k requires 0 <= k < |starts| => FindBfs(m, starts[k], e, corrected)))
  }

  /** A cell at the lowest level. */
  predicate IsLow(m: Maze, s: int)
  {
    0 <= s < |m.cells| && m.cells[s] == 'a'
  }

  /** Part 2 picks the best search over all lowest cells: it is the
      non-zero result from one of them and no non-zero result is smaller;
      it is absent exactly when every such search gives 0. */
  lemma Part2IsBest(m: Maze, e: nat, corrected: bool)
    requires (corrected ==> m.cols > 0) && Find(m.cells, 'E') == Some(e)
    ensures Part2(m, corrected).Some? ==> Part2(m, corrected).value > 0 && exists s :: IsLow(m, s) && Part2(m, corrected).value == FindBfs(m, s, e, corrected)
    ensures Part2(m, corrected).Some? ==> forall s :: IsLow(m, s) && FindBfs(m, s, e, corrected) > 0 ==> Part2(m, corrected).value <= FindBfs(m, s, e, corrected)
    ensures Part2(m, corrected).None? ==> forall s :: IsLow(m, s) ==> FindBfs(m, s, e, corrected) == 0
  {
    var starts := Lowest(m.cells, 0);
    var xs := seq(|starts|, k requires 0 <= k < |starts| => FindBfs(m, starts[k], e, corrected));
    assert Part2(m, corrected) == MinNonZero(xs);
    forall s | IsLow(m, s)
      ensures exists j :: 0 <= j < |xs| && xs[j] == FindBfs(m, s, e, corrected)
    {
      var j :| 0 <= j < |starts| && starts[j] == s;
      assert xs[j] == FindBfs(m, s, e, corrected);
    }
    if Part2(m, corrected).Some? {
      var k :| 0 <= k < |xs| && xs[k] == Part2(m, corrected).value;
      assert IsLow(m, starts[k]);
    }
  }
}
