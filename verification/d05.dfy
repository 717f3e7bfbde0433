/** Supply stacks: towers of crates rearranged by a crane that moves one
    crate at a time (part 1) or a whole block at once (part 2). Each tower
    lists its crates bottom first, so the top crate is the last element. */
module SupplyStacks {
  import opened Common
  import opened Text

  type Towers = seq<seq<char>>

  /** "move count from from to to", with 1-based tower numbers. */
  datatype Move = Move(count: nat, from: nat, to: nat)

  /** What the source needs for a move not to panic. The 9001 crane always
      indexes both towers and splits off `count` crates, so it needs both
      numbers in range and `count` crates on the source. The 9000 crane
      touches no tower when `count` is 0, and onto the same tower it pops
      and pushes back one crate each time, so there one crate is enough. */
  predicate ValidMove(t: Towers, m: Move, newCrane: bool)
  {
    if !newCrane && m.count == 0 then true
    else
      1 <= m.from <= |t| && 1 <= m.to <= |t|
      && if !newCrane && m.from == m.to then |t[m.from - 1]| > 0 else m.count <= |t[m.from - 1]|
  }

  /** Every move the 9001 crane can make, the 9000 can make too; a move of
      no crates needs no tower at all from the 9000. */
  lemma OldCraneAdmitsMore(t: Towers, m: Move)
    ensures ValidMove(t, m, true) ==> ValidMove(t, m, false)
    ensures m.count == 0 ==> ValidMove(t, m, false)
    ensures ValidMove(t, m, false) && !ValidMove(t, m, true) ==>
      m.count == 0 || (m.from == m.to && m.count > |t[m.from - 1]|)
  {
  }

  /** Total number of crates. */
  function Total(t: Towers): nat
  {
    if |t| == 0 then 0 else Total(t[..|t| - 1]) + |t[|t| - 1]|
  }

  /** Replacing one tower changes the total by the difference in height. */
  lemma {:induction false} TotalUpdate(t: Towers, i: nat, x: seq<char>)
    requires i < |t|
    ensures Total(t[i := x]) == Total(t) - |t[i]| + |x|
    decreases |t|
  {
    var u := t[i := x];
    assert u[..|u| - 1] == if i < |t| - 1 then t[..|t| - 1][i := x] else t[..|t| - 1];
    if i < |t| - 1 {
      TotalUpdate(t[..|t| - 1], i, x);
    }
  }

  /** The crate mover 9000 (`process_move`): crates go over one by one, so
      the moved block lands upside down; moving a tower onto itself pops
      and pushes the same crate and changes nothing. */
  function Mover9000(t: Towers, m: Move): (r: Towers)
    requires ValidMove(t, m, false)
    ensures |r| == |t|
    ensures forall i :: 0 <= i < |t| && i != m.from - 1 && i != m.to - 1 ==> r[i] == t[i]
    ensures m.count == 0 ==> r == t
  {
    if m.count == 0 || m.from == m.to then t
    else
      var f, d := m.from - 1, m.to - 1;
      var src := t[f];
      var h := |src|;
      t[f := src[..h - m.count]][d := t[d] + Reverse(src[h - m.count..])]
  }

  /** The crate mover 9001 (`process_move_new`): the top `count` crates are
      split off and appended to the target in their order. */
  function Mover9001(t: Towers, m: Move): (r: Towers)
    requires ValidMove(t, m, true)
    ensures |r| == |t|
    ensures forall i :: 0 <= i < |t| && i != m.from - 1 && i != m.to - 1 ==> r[i] == t[i]
  {
    var f, d := m.from - 1, m.to - 1;
    var src := t[f];
    var split := |src| - m.count;
    var carry := src[split..];
    var t1 := t[f := src[..split]];
    t1[d := t1[d] + carry]
  }

  /** `process_move`: the loop popping one crate from the source tower and
      pushing it onto the target, `count` times. */
  method ProcessMove(t: Towers, m: Move) returns (r: Towers)
    requires ValidMove(t, m, false)
    ensures r == Mover9000(t, m)
  {
    r := t;
    if m.count == 0 {
      return;
    }
    var f, d := m.from - 1, m.to - 1;
    var k := 0;
    if f != d {
      MovedNone(t, f, d);
    }
    while k < m.count
      invariant 0 <= k <= m.count
      invariant f != d ==> r == MovedSoFar(t, f, d, k)
      invariant f == d ==> r == t
    {
      var tower := r[f];
      var letter := tower[|tower| - 1];
      if f != d {
        MoveOneCrate(t, f, d, k, r);
      }
      r := r[f := tower[..|tower| - 1]];
      r := r[d := r[d] + [letter]];
      if f == d {
        assert tower[..|tower| - 1] + [letter] == tower;
      }
      k := k + 1;
    }
  }

  /** The towers once `k` crates have gone one by one from tower `f` to
      tower `d`. */
  ghost function MovedSoFar(t: Towers, f: nat, d: nat, k: nat): Towers
    requires f < |t| && d < |t| && f != d && k <= |t[f]|
  {
    var src, h := t[f], |t[f]|;
    t[f := src[..h - k]][d := t[d] + Reverse(src[h - k..])]
  }

  lemma MovedNone(t: Towers, f: nat, d: nat)
    requires f < |t| && d < |t| && f != d
    ensures MovedSoFar(t, f, d, 0) == t
  {
    var src, h := t[f], |t[f]|;
    assert src[..h - 0] == src && src[h - 0..] == [];
    assert t[d] + Reverse(src[h - 0..]) == t[d];
    assert t[f := src][d := t[d]] == t;
  }

  /** Moving the next crate takes the top of what is left of the source. */
  lemma MoveOneCrate(t: Towers, f: nat, d: nat, k: nat, r: Towers)
    requires f < |t| && d < |t| && f != d && k < |t[f]|
    requires r == MovedSoFar(t, f, d, k)
    ensures |r[f]| > 0
    ensures var tower := r[f];
      var r1 := r[f := tower[..|tower| - 1]];
      r1[d := r1[d] + [tower[|tower| - 1]]] == MovedSoFar(t, f, d, k + 1)
  {
    var src, dst, h := t[f], t[d], |t[f]|;
    var tower := r[f];
    assert tower == src[..h - k];
    var letter := src[h - k - 1];
    assert tower[|tower| - 1] == letter;
    assert src[h - k - 1..] == [letter] + src[h - k..];
    ReversePrepend(letter, src[h - k..]);
    assert dst + Reverse(src[h - k..]) + [letter] == dst + Reverse(src[h - (k + 1)..]);
    assert tower[..|tower| - 1] == src[..h - (k + 1)];
  }

  /** Both cranes keep the number of crates. */
  lemma MoversKeepTotal(t: Towers, m: Move)
    requires ValidMove(t, m, true)
    ensures Total(Mover9000(t, m)) == Total(t)
    ensures Total(Mover9001(t, m)) == Total(t)
  {
    var f, d := m.from - 1, m.to - 1;
    var src := t[f];
    var split := |src| - m.count;
    var t1 := t[f := src[..split]];
    TotalUpdate(t, f, src[..split]);
    TotalUpdate(t1, d, t1[d] + src[split..]);
    if f != d && m.count > 0 {
      TotalUpdate(t1, d, t[d] + Reverse(src[split..]));
    }
  }

  /** The 9000 crane keeps the number of crates on every move it can make. */
  lemma Mover9000KeepsTotal(t: Towers, m: Move)
    requires ValidMove(t, m, false)
    ensures Total(Mover9000(t, m)) == Total(t)
  {
    if m.count > 0 && m.from != m.to {
      MoversKeepTotal(t, m);
    }
  }

  /** With different towers, both cranes take the top `count` crates off the
      source; the 9000 puts them on the target reversed, the 9001 in order. */
  lemma MoversMoveTheBlock(t: Towers, m: Move)
    requires ValidMove(t, m, true) && m.from != m.to
    ensures var split := |t[m.from - 1]| - m.count;
      Mover9000(t, m)[m.from - 1] == t[m.from - 1][..split]
      && Mover9001(t, m)[m.from - 1] == t[m.from - 1][..split]
      && Mover9000(t, m)[m.to - 1] == t[m.to - 1] + Reverse(t[m.from - 1][split..])
      && Mover9001(t, m)[m.to - 1] == t[m.to - 1] + t[m.from - 1][split..]
  {
  }

  /** A move onto the same tower changes nothing, for either crane. */
  lemma MoveOntoItself(t: Towers, m: Move)
    requires ValidMove(t, m, true) && m.from == m.to
    ensures Mover9000(t, m) == t && Mover9001(t, m) == t
  {
    var src := t[m.from - 1];
    assert src[..|src| - m.count] + src[|src| - m.count..] == src;
  }

  /** Moving at most one crate, the two cranes agree. */
  lemma SingleCrateMoversAgree(t: Towers, m: Move)
    requires ValidMove(t, m, true) && m.count <= 1
    ensures Mover9000(t, m) == Mover9001(t, m)
  {
    var src := t[m.from - 1];
    if m.from == m.to {
      MoveOntoItself(t, m);
    } else if m.count == 0 {
      var f, d := m.from - 1, m.to - 1;
      assert src[..|src|] == src && src[|src|..] == [];
      assert t[d] + [] == t[d];
      assert t[f := src][d := t[d]] == t;
    } else {
      var block := src[|src| - m.count..];
      assert Reverse(block) == block;
    }
  }

  /** `top_crates`: the top crate of every tower; the source indexes an empty
      tower out of bounds, so every tower must hold a crate. */
  function TopCrates(t: Towers): (r: string)
    requires forall i :: 0 <= i < |t| ==> |t[i]| > 0
    ensures |r| == |t|
    ensures forall i :: 0 <= i < |t| ==> r[i] == t[i][|t[i]| - 1]
  {
    if |t| == 0 then "" else TopCrates(t[..|t| - 1]) + [t[|t| - 1][|t[|t| - 1]| - 1]]
  }

  /** Applying the moves in order with the given crane; None as soon as one
      would panic. */
  function RunMoves(t: Towers, moves: seq<Move>, newCrane: bool): (r: Option<Towers>)
    ensures r.Some? ==> |r.value| == |t| && Total(r.value) == Total(t)
    decreases |moves|
  {
    if |moves| == 0 then Some(t)
    else if !ValidMove(t, moves[0], newCrane) then None
    else
      if newCrane then
        MoversKeepTotal(t, moves[0]);
        RunMoves(Mover9001(t, moves[0]), moves[1..], newCrane)
      else
        Mover9000KeepsTotal(t, moves[0]);
        RunMoves(Mover9000(t, moves[0]), moves[1..], newCrane)
  }

  function Answer(t: Towers, moves: seq<Move>, newCrane: bool): (r: Option<string>)
    ensures r.Some? <==>
      RunMoves(t, moves, newCrane).Some? && forall i :: 0 <= i < |t| ==> |RunMoves(t, moves, newCrane).value[i]| > 0
    ensures r.Some? ==> |r.value| == |t|
    ensures r.Some? ==> var u := RunMoves(t, moves, newCrane).value;
      forall i :: 0 <= i < |t| ==> r.value[i] == u[i][|u[i]| - 1]
  {
    match RunMoves(t, moves, newCrane)
    case None => None
    case Some(u) =>
      if forall i :: 0 <= i < |u| ==> |u[i]| > 0 then Some(TopCrates(u)) else None
  }

  /** `solve_part1`: the top crates after the 9000 crane's moves. */
  function Part1(t: Towers, moves: seq<Move>): (r: Option<string>)
    ensures r.Some? ==> |r.value| == |t|
    ensures r.Some? ==> exists u :: RunMoves(t, moves, false) == Some(u) && Total(u) == Total(t)
  {
    Answer(t, moves, false)
  }

  /** `solve_part2`: the top crates after the 9001 crane's moves. */
  function Part2(t: Towers, moves: seq<Move>): (r: Option<string>)
    ensures r.Some? ==> |r.value| == |t|
    ensures r.Some? ==> exists u :: RunMoves(t, moves, true) == Some(u) && Total(u) == Total(t)
  {
    Answer(t, moves, true)
  }

  /** When every move carries at most one crate between towers that exist,
      the two cranes end with the same towers. */
  lemma {:induction false} SingleCrateRunsAgree(t: Towers, moves: seq<Move>)
    requires forall k :: 0 <= k < |moves| ==> moves[k].count <= 1
    requires forall k :: 0 <= k < |moves| ==> 1 <= moves[k].from <= |t| && 1 <= moves[k].to <= |t|
    ensures RunMoves(t, moves, false) == RunMoves(t, moves, true)
    decreases |moves|
  {
    if |moves| > 0 && ValidMove(t, moves[0], true) {
      SingleCrateMoversAgree(t, moves[0]);
      SingleCrateRunsAgree(Mover9001(t, moves[0]), moves[1..]);
    }
  }

  /** So the two parts agree on such moves. */
  lemma SingleCratePartsAgree(t: Towers, moves: seq<Move>)
    requires forall k :: 0 <= k < |moves| ==> moves[k].count <= 1
    requires forall k :: 0 <= k < |moves| ==> 1 <= moves[k].from <= |t| && 1 <= moves[k].to <= |t|
    ensures Part1(t, moves) == Part2(t, moves)
  {
    SingleCrateRunsAgree(t, moves);
  }

  // ----- parse_input -----

  predicate IsAsciiAlpha(c: char)
  {
    'a' <= c <= 'z' || 'A' <= c <= 'Z'
  }

  /** The lines of the drawing that show crates: those before the first line
      without a '['. */
  function CrateLines(lines: seq<string>): (r: seq<string>)
    ensures |r| <= |lines| && r == lines[..|r|]
    ensures forall k :: 0 <= k < |r| ==> '[' in r[k]
    ensures |r| < |lines| ==> '[' !in lines[|r|]
  {
    if |lines| == 0 || '[' !in lines[0] then []
    else [lines[0]] + CrateLines(lines[1..])
  }

  /** Whether crate line `k` shows a letter at column 4i+1. */
  predicate HasLetter(lines: seq<string>, k: nat, i: nat)
    requires k < |lines| && 4 * i + 1 < |lines[k]|
  {
    IsAsciiAlpha(lines[k][4 * i + 1])
  }

  /** The numbers of the crate lines that show a letter at column 4i+1, in
      increasing order. */
  function LetterRows(lines: seq<string>, i: nat): (ks: seq<nat>)
    requires forall k :: 0 <= k < |lines| ==> 4 * i + 1 < |lines[k]|
    ensures forall j :: 0 <= j < |ks| ==> ks[j] < |lines| && HasLetter(lines, ks[j], i)
    ensures forall j, j' :: 0 <= j < j' < |ks| ==> ks[j] < ks[j']
    ensures forall k :: 0 <= k < |lines| && HasLetter(lines, k, i) ==> k in ks
  {
    if |lines| == 0 then []
    else
      var n := |lines| - 1;
      var front := lines[..n];
      var rest := LetterRows(front, i);
      assert forall k :: 0 <= k < n ==> front[k] == lines[k];
      if HasLetter(lines, n, i) then rest + [n] else rest
  }

  /** The letters read at column 4i+1 of the crate lines, top line first:
      one for each line that shows a letter there, in line order. */
  function Column(lines: seq<string>, i: nat): (r: seq<char>)
    requires forall k :: 0 <= k < |lines| ==> 4 * i + 1 < |lines[k]|
    ensures |r| == |LetterRows(lines, i)|
    ensures forall j :: 0 <= j < |r| ==> r[j] == lines[LetterRows(lines, i)[j]][4 * i + 1]
  {
    if |lines| == 0 then []
    else
      var n := |lines| - 1;
      var front := lines[..n];
      assert forall k :: 0 <= k < n ==> front[k] == lines[k];
      Column(front, i) + if HasLetter(lines, n, i) then [lines[n][4 * i + 1]] else []
  }

  /** The tower drawing: `(len + 1) / 4` towers by the length of the first
      line, each read from the crate lines at its column and turned so that
      the bottom crate comes first. None when a crate line is too short for
      the source's indexing or there is no line at all. */
  function ParseTowers(text: string): (r: Option<Towers>)
    ensures r.Some? <==> |Lines(text)| > 0 && WideEnough(CrateLines(Lines(text)), (|Lines(text)[0]| + 1) / 4)
    ensures r.Some? ==> |r.value| == (|Lines(text)[0]| + 1) / 4
    ensures r.Some? ==> forall i :: 0 <= i < |r.value| ==> Reverse(r.value[i]) == Column(CrateLines(Lines(text)), i)
  {
    var ls := Lines(text);
    if |ls| == 0 then None
    else
      var count := (|ls[0]| + 1) / 4;
      var crates := CrateLines(ls);
      if !WideEnough(crates, count) then None
      else
        var towers := seq(count, i requires 0 <= i < count => Reverse(Column(crates, i)));
        assert forall i :: 0 <= i < count ==> Reverse(towers[i]) == Column(crates, i) by {
          forall i | 0 <= i < count
            ensures Reverse(towers[i]) == Column(crates, i)
          {
            ReverseReverse(Column(crates, i));
          }
        }
        Some(towers)
  }

  /** Every crate line is long enough for the source to read all `count`
      columns. */
  predicate WideEnough(crates: seq<string>, count: nat)
  {
    count == 0 || forall k :: 0 <= k < |crates| ==> |crates[k]| > 4 * (count - 1) + 1
  }

  /** The pieces at odd positions 1, 3, 5, ... */
  function OddPieces(ps: seq<string>): (r: seq<string>)
    ensures |r| == |ps| / 2
    ensures forall k :: 0 <= k < |r| ==> r[k] == ps[2 * k + 1]
  {
    if |ps| < 2 then [] else [ps[1]] + OddPieces(ps[2..])
  }

  /** A move line: split on single spaces, every piece at an odd position
      must be a number, and the first three are count, from and to. */
  function ParseMove(line: string): (r: Option<Move>)
    ensures r.Some? ==> (|Split(line, ' ')| >= 6
      && ParseNat(Split(line, ' ')[1]) == Some(r.value.count)
      && ParseNat(Split(line, ' ')[3]) == Some(r.value.from)
      && ParseNat(Split(line, ' ')[5]) == Some(r.value.to))
  {
    var values := ParseNats(OddPieces(Split(line, ' ')));
    if values.None? || |values.value| < 3 then None
    else Some(Move(values.value[0], values.value[1], values.value[2]))
  }

  function ParseMoves(lines: seq<string>): (r: Option<seq<Move>>)
    ensures r.Some? ==> |r.value| == |lines|
    ensures r.Some? ==> forall k :: 0 <= k < |lines| ==> ParseMove(lines[k]) == Some(r.value[k])
    ensures r.Some? <==> forall k :: 0 <= k < |lines| ==> ParseMove(lines[k]).Some?
  {
    if |lines| == 0 then Some([])
    else
      match (ParseMove(lines[0]), ParseMoves(lines[1..]))
      case (Some(m), Some(rest)) => Some([m] + rest)
      case _ => None
  }

  /** `parse_input`: the drawing and the moves, separated by a blank line. */
  function ParseInput(data: string): (r: Option<(Towers, seq<Move>)>)
    ensures var parts := SplitOnceOn(data, "\n\n");
      r.Some? <==> (parts.Some? && ParseTowers(parts.value.0).Some?
        && forall k :: 0 <= k < |Lines(parts.value.1)| ==> ParseMove(Lines(parts.value.1)[k]).Some?)
    ensures r.Some? ==> var parts := SplitOnceOn(data, "\n\n").value;
      ParseTowers(parts.0) == Some(r.value.0) && |r.value.1| == |Lines(parts.1)|
      && forall k :: 0 <= k < |r.value.1| ==> ParseMove(Lines(parts.1)[k]) == Some(r.value.1[k])
  {
    match SplitOnceOn(data, "\n\n")
    case None => None
    case Some((towerText, movesText)) =>
      match (ParseTowers(towerText), ParseMoves(Lines(movesText)))
      case (Some(t), Some(ms)) => Some((t, ms))
      case _ => None
  }
}
