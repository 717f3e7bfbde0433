/** Monkey map: a board of open tiles and walls, a path of moves and
    turns, walking with wrap-around at the board's edge (part 1) or over
    the folded cube (part 2), and the password of the final state. */
module MonkeyMap {
  import opened Common
  import opened Text

  datatype Direction = Left | Right | Up | Down

  datatype Action = Move(steps: nat) | RotateLeft | RotateRight

  datatype Cell = Cell(row: nat, col: nat)

  /** A position on the board with the direction being faced. */
  datatype State = State(cell: Cell, facing: Direction)

  /** The board as read: its lines (the open tiles and walls are their '.'
      and '#' characters), the start tile, and for every row and column the
      first and last index that belongs to the board. */
  datatype Board = Board(lines: seq<string>, topLeft: Cell,
                         rowWraps: seq<(nat, nat)>, colWraps: seq<(nat, nat)>)

  // ----- directions -----

  /** `Direction::rotate`: a quarter turn, clockwise or not. */
  function Rotate(d: Direction, clockwise: bool): Direction
  {
    match (d, clockwise)
    case (Left, true) => Up
    case (Left, false) => Down
    case (Right, true) => Down
    case (Right, false) => Up
    case (Up, true) => Right
    case (Up, false) => Left
    case (Down, true) => Left
    case (Down, false) => Right
  }

  /** `facing_score`. */
  function FacingScore(d: Direction): (s: nat)
    ensures s < 4
  {
    match d
    case Right => 0
    case Down => 1
    case Left => 2
    case Up => 3
  }

  /** Turning one way undoes turning the other, four turns the same way
      change nothing, and the scores are the four facings in clockwise
      order: a clockwise turn adds one modulo four. */
  lemma RotateLaws(d: Direction, clockwise: bool)
    ensures Rotate(Rotate(d, clockwise), !clockwise) == d
    ensures Rotate(Rotate(Rotate(Rotate(d, clockwise), clockwise), clockwise), clockwise) == d
    ensures FacingScore(Rotate(d, true)) == (FacingScore(d) + 1) % 4
    ensures FacingScore(Rotate(d, false)) == (FacingScore(d) + 3) % 4
  {
  }

  lemma FacingScoreInjective(a: Direction, b: Direction)
    ensures FacingScore(a) == FacingScore(b) <==> a == b
  {
  }

  /** The direction facing the other way. */
  function Opposite(d: Direction): Direction
  {
    match d
    case Left => Right
    case Right => Left
    case Up => Down
    case Down => Up
  }

  // ----- the path -----

  /** `Action::from`. */
  function ParseAction(s: string): Option<Action>
  {
    if s == "L" then Some(RotateLeft)
    else if s == "R" then Some(RotateRight)
    else
      match ParseNat(s)
      case None => None
      case Some(n) => Some(Move(n))
  }

  /** The path line with a space on each side of every `L` and `R`. */
  function Spaced(s: string): string
  {
    if |s| == 0 then ""
    else
      (if s[0] == 'L' then " L " else if s[0] == 'R' then " R " else [s[0]]) +
      Spaced(s[1..])
  }

  function ParseActions(words: seq<string>): (r: Option<seq<Action>>)
    ensures r.Some? ==> |r.value| == |words|
  {
    if |words| == 0 then Some([])
    else
      match (ParseAction(words[0]), ParseActions(words[1..]))
      case (Some(a), Some(rest)) => Some([a] + rest)
      case _ => None
  }

  /** The path part of `parse_input`. */
  function ParsePath(line: string): Option<seq<Action>>
  {
    ParseActions(Words(Spaced(line)))
  }

  function ShowAction(a: Action): string
  {
    match a
    case Move(n) => ShowNat(n)
    case RotateLeft => "L"
    case RotateRight => "R"
  }

  /** The path as the puzzle writes it: the actions run together. */
  function ShowPath(path: seq<Action>): string
  {
    if |path| == 0 then "" else ShowAction(path[0]) + ShowPath(path[1..])
  }

  /** No two moves in a row (their digits would run together). */
  predicate Alternating(path: seq<Action>)
  {
    forall i :: 0 <= i < |path| - 1 ==> !(path[i].Move? && path[i + 1].Move?)
  }

  lemma {:induction false} SpacedAppend(a: string, b: string)
    ensures Spaced(a + b) == Spaced(a) + Spaced(b)
    decreases |a|
  {
    if |a| > 0 {
      assert (a + b)[1..] == a[1..] + b;
      SpacedAppend(a[1..], b);
    } else {
      assert a + b == b;
    }
  }

  lemma {:induction false} SpacedDigits(s: string)
    requires AllDigits(s)
    ensures Spaced(s) == s
    decreases |s|
  {
    if |s| > 0 {
      SpacedDigits(s[1..]);
      assert [s[0]] + s[1..] == s;
    }
  }

  /** The spaced text of one action. */
  lemma SpacedAction(a: Action)
    ensures Spaced(ShowAction(a)) == (match a
      case Move(n) => ShowNat(n)
      case RotateLeft => " L "
      case RotateRight => " R ")
  {
    match a
    case Move(n) => SpacedDigits(ShowNat(n));
    case RotateLeft =>
    case RotateRight =>
  }

  lemma WordsSpace(t: string)
    ensures Words([' '] + t) == Words(t)
  {
    assert ([' '] + t)[1..] == t;
  }

  /** The actions' texts, one word each. */
  function Texts(path: seq<Action>): (ws: seq<string>)
    ensures |ws| == |path|
  {
    if |path| == 0 then [] else [ShowAction(path[0])] + Texts(path[1..])
  }

  lemma SpacedPathCons(path: seq<Action>)
    requires |path| > 0
    ensures Spaced(ShowPath(path)) == Spaced(ShowAction(path[0])) + Spaced(ShowPath(path[1..]))
  {
    SpacedAppend(ShowAction(path[0]), ShowPath(path[1..]));
  }

  /** A path starting with a turn starts, once spaced, with a space. */
  lemma LeadingSpace(path: seq<Action>)
    requires |path| > 0 && !path[0].Move?
    ensures |Spaced(ShowPath(path))| > 0 && Spaced(ShowPath(path))[0] == ' '
  {
    SpacedPathCons(path);
    SpacedAction(path[0]);
  }

  lemma ShowNatIsWord(n: nat)
    ensures IsWord(ShowNat(n))
  {
    var w := ShowNat(n);
    assert forall i :: 0 <= i < |w| ==> IsDigit(w[i]);
  }

  lemma WordsAfterWord(w: string, tail: string)
    requires IsWord(w) && |tail| > 0 && tail[0] == ' '
    ensures Words(w + tail) == [w] + Words(tail)
  {
    var t := tail[1..];
    assert w + tail == w + [' '] + t;
    WordsConsWord(w, t);
    assert tail == [' '] + t;
    WordsSpace(t);
  }

  lemma WordsAfterNumber(n: nat, tail: string)
    requires |tail| == 0 || tail[0] == ' '
    ensures Words(ShowNat(n) + tail) == [ShowNat(n)] + Words(tail)
  {
    ShowNatIsWord(n);
    if |tail| == 0 {
      WordsOfWord(ShowNat(n));
      assert ShowNat(n) + tail == ShowNat(n);
    } else {
      WordsAfterWord(ShowNat(n), tail);
    }
  }

  lemma WordsAfterTurn(c: char, tail: string)
    requires c == 'L' || c == 'R'
    ensures Words([' ', c, ' '] + tail) == [[c]] + Words(tail)
  {
    assert [' ', c, ' '] + tail == [' '] + ([c] + [' '] + tail);
    WordsSpace([c] + [' '] + tail);
    WordsConsWord([c], tail);
  }

  /** One action's spaced text contributes exactly its own word, provided
      a move is not followed directly by more digits. */
  lemma WordsStep(a: Action, tail: string)
    requires a.Move? ==> |tail| == 0 || tail[0] == ' '
    ensures Words(Spaced(ShowAction(a)) + tail) == [ShowAction(a)] + Words(tail)
  {
    SpacedAction(a);
    match a
    case Move(n) => WordsAfterNumber(n, tail);
    case RotateLeft => WordsAfterTurn('L', tail);
    case RotateRight => WordsAfterTurn('R', tail);
  }

  /** The words of the spaced path are the actions' texts. */
  lemma {:induction false} WordsOfPath(path: seq<Action>)
    requires Alternating(path)
    ensures Words(Spaced(ShowPath(path))) == Texts(path)
    decreases |path|
  {
    if |path| > 0 {
      var rest := path[1..];
      assert Alternating(rest) by {
        forall i | 0 <= i < |rest| - 1
          ensures !(rest[i].Move? && rest[i + 1].Move?)
        {
          assert rest[i] == path[i + 1] && rest[i + 1] == path[i + 2];
        }
      }
      WordsOfPath(rest);
      SpacedPathCons(path);
      if path[0].Move? && |rest| > 0 {
        assert !rest[0].Move? by {
          assert rest[0] == path[1];
        }
        LeadingSpace(rest);
      }
      WordsStep(path[0], Spaced(ShowPath(rest)));
    }
  }

  lemma ParseShowAction(a: Action)
    ensures ParseAction(ShowAction(a)) == Some(a)
  {
    if a.Move? {
      ParseShowNat(a.steps);
      assert ShowNat(a.steps)[0] != 'L' && ShowNat(a.steps)[0] != 'R';
    }
  }

  lemma {:induction false} ParseShowActions(path: seq<Action>)
    ensures ParseActions(Texts(path)) == Some(path)
    decreases |path|
  {
    if |path| > 0 {
      ParseShowActions(path[1..]);
      ParseShowAction(path[0]);
      assert Texts(path)[1..] == Texts(path[1..]);
      assert [path[0]] + path[1..] == path;
    }
  }

  /** A written path reads back as the same actions, when no two moves are
      adjacent. */
  lemma ParseShowPath(path: seq<Action>)
    requires Alternating(path)
    ensures ParsePath(ShowPath(path)) == Some(path)
  {
    WordsOfPath(path);
    ParseShowActions(path);
  }

  // ----- the board -----

  /** The first index of a character other than a space. */
  function FirstNonSpace(s: string): (r: Option<nat>)
    ensures r.Some? ==> r.value < |s| && s[r.value] != ' ' &&
                        forall j :: 0 <= j < r.value ==> s[j] == ' '
    ensures r.None? ==> forall j :: 0 <= j < |s| ==> s[j] == ' '
  {
    if |s| == 0 then None
    else if s[0] != ' ' then Some(0)
    else
      match FirstNonSpace(s[1..])
      case None => None
      case Some(i) => Some(i + 1)
  }

  /** The last index of a character other than a space. */
  function LastNonSpace(s: string): (r: Option<nat>)
    ensures r.Some? ==> r.value < |s| && s[r.value] != ' ' &&
                        forall j :: r.value < j < |s| ==> s[j] == ' '
    ensures r.None? ==> forall j :: 0 <= j < |s| ==> s[j] == ' '
  {
    if |s| == 0 then None
    else if s[|s| - 1] != ' ' then Some(|s| - 1)
    else LastNonSpace(s[..|s| - 1])
  }

  /** One row's span: its first and last non-space column (the source
      panics on a blank row). */
  function RowWrap(line: string): (r: Option<(nat, nat)>)
    ensures r.Some? ==> r.value.0 <= r.value.1 < |line|
    ensures r.None? <==> forall j :: 0 <= j < |line| ==> line[j] == ' '
  {
    match (FirstNonSpace(line), LastNonSpace(line))
    case (Some(a), Some(b)) => Some((a, b))
    case _ => None
  }

  function RowWraps(lines: seq<string>): (r: Option<seq<(nat, nat)>>)
    ensures r.Some? ==> |r.value| == |lines| &&
                        forall i :: 0 <= i < |lines| ==> RowWrap(lines[i]) == Some(r.value[i])
    ensures r.None? <==> exists i :: 0 <= i < |lines| && RowWrap(lines[i]).None?
  {
    if |lines| == 0 then Some([])
    else
      match (RowWrap(lines[0]), RowWraps(lines[1..]))
      case (Some(w), Some(rest)) =>
        assert forall i :: 1 <= i < |lines| ==> lines[i] == lines[1..][i - 1];
        Some([w] + rest)
      case (None, _) => None
      case (_, None) =>
        var i :| 0 <= i < |lines[1..]| && RowWrap(lines[1..][i]).None?;
        assert lines[i + 1] == lines[1..][i];
        None
  }

  predicate Spans(w: (nat, nat), col: nat)
  {
    w.0 <= col <= w.1
  }

  /** The first and last row whose span holds column `col` (the source
      panics when no row does). */
  function ColWrap(rowWraps: seq<(nat, nat)>, col: nat): (r: Option<(nat, nat)>)
    ensures r.Some? ==> (r.value.0 <= r.value.1 < |rowWraps| &&
                         Spans(rowWraps[r.value.0], col) && Spans(rowWraps[r.value.1], col) &&
                         (forall i :: 0 <= i < r.value.0 ==> !Spans(rowWraps[i], col)) &&
                         (forall i :: r.value.1 < i < |rowWraps| ==> !Spans(rowWraps[i], col)))
    ensures r.None? <==> forall i :: 0 <= i < |rowWraps| ==> !Spans(rowWraps[i], col)
  {
    match (FirstSpanning(rowWraps, col, 0), LastSpanning(rowWraps, col, |rowWraps|))
    case (Some(a), Some(b)) => Some((a, b))
    case _ => None
  }

  function FirstSpanning(ws: seq<(nat, nat)>, col: nat, from: nat): (r: Option<nat>)
    requires from <= |ws|
    ensures r.Some? ==> from <= r.value < |ws| && Spans(ws[r.value], col) &&
                        forall i :: from <= i < r.value ==> !Spans(ws[i], col)
    ensures r.None? ==> forall i :: from <= i < |ws| ==> !Spans(ws[i], col)
    decreases |ws| - from
  {
    if from == |ws| then None
    else if Spans(ws[from], col) then Some(from)
    else FirstSpanning(ws, col, from + 1)
  }

  /** The last spanning index below `upto`. */
  function LastSpanning(ws: seq<(nat, nat)>, col: nat, upto: nat): (r: Option<nat>)
    requires upto <= |ws|
    ensures r.Some? ==> r.value < upto && Spans(ws[r.value], col) &&
                        forall i :: r.value < i < upto ==> !Spans(ws[i], col)
    ensures r.None? ==> forall i :: 0 <= i < upto ==> !Spans(ws[i], col)
  {
    if upto == 0 then None
    else if Spans(ws[upto - 1], col) then Some(upto - 1)
    else LastSpanning(ws, col, upto - 1)
  }

  function ColWraps(rowWraps: seq<(nat, nat)>, cols: nat): (r: Option<seq<(nat, nat)>>)
    ensures r.Some? ==> |r.value| == cols &&
                        forall c :: 0 <= c < cols ==> ColWrap(rowWraps, c) == Some(r.value[c])
    ensures r.None? ==> exists c :: 0 <= c < cols && ColWrap(rowWraps, c).None?
  {
    if cols == 0 then Some([])
    else
      match (ColWraps(rowWraps, cols - 1), ColWrap(rowWraps, cols - 1))
      case (Some(init), Some(w)) => Some(init + [w])
      case _ => None
  }

  /** The longest line's length. */
  function MaxLen(lines: seq<string>): (m: nat)
    ensures forall i :: 0 <= i < |lines| ==> |lines[i]| <= m
    ensures |lines| > 0 ==> exists i :: 0 <= i < |lines| && |lines[i]| == m
  {
    if |lines| == 0 then 0
    else
      var m := MaxLen(lines[1..]);
      assert forall i :: 1 <= i < |lines| ==> lines[i] == lines[1..][i - 1];
      if |lines[0]| >= m then |lines[0]|
      else
        var i :| 0 <= i < |lines[1..]| && |lines[1..][i]| == m;
        assert lines[i + 1] == lines[1..][i];
        m
  }

  /** The column of the first '.' of a line. */
  function FirstOpen(line: string): (r: Option<nat>)
    ensures r.Some? ==> r.value < |line| && line[r.value] == '.' &&
                        forall j :: 0 <= j < r.value ==> line[j] != '.'
    ensures r.None? ==> forall j :: 0 <= j < |line| ==> line[j] != '.'
  {
    if |line| == 0 then None
    else if line[0] == '.' then Some(0)
    else
      match FirstOpen(line[1..])
      case None => None
      case Some(c) => Some(c + 1)
  }

  /** The start column: the first '.' of the first line, or 0 when it has
      none (the source's loop leaves its initial value). */
  function StartColumn(line: string): nat
  {
    match FirstOpen(line)
    case None => 0
    case Some(c) => c
  }

  /** `parse_input`: the board before the first blank line, the path after
      it; None where the source panics (no blank line, a blank board row, a
      column no row spans, or a malformed path). */
  function ParseInput(data: string): (r: Option<(Board, seq<Action>)>)
    ensures SplitOnceOn(data, "\n\n").None? ==> r.None?
    ensures SplitOnceOn(data, "\n\n").Some? ==>
      var lines := Lines(SplitOnceOn(data, "\n\n").value.0);
      (exists i :: 0 <= i < |lines| && RowWrap(lines[i]).None?) ==> r.None?
    ensures r.Some? ==>
      var (boardText, pathLine) := SplitOnceOn(data, "\n\n").value;
      var b := r.value.0;
      && b.lines == Lines(boardText) && |b.lines| > 0
      && ParsePath(pathLine) == Some(r.value.1)
      && |b.rowWraps| == |b.lines|
      && (forall i :: 0 <= i < |b.lines| ==> RowWrap(b.lines[i]) == Some(b.rowWraps[i]))
      && |b.colWraps| == MaxLen(b.lines)
      && (forall c :: 0 <= c < |b.colWraps| ==> ColWrap(b.rowWraps, c) == Some(b.colWraps[c]))
      && |Lines(data)| > 0 && b.topLeft.row == 0
      && var l, c := Lines(data)[0], b.topLeft.col;
        (c < |l| && l[c] == '.' && forall j :: 0 <= j < c ==> l[j] != '.') || (c == 0 && '.' !in l)
  {
    match SplitOnceOn(data, "\n\n")
    case None => None
    case Some((boardText, pathLine)) =>
      var lines := Lines(boardText);
      var first := Lines(data);
      if |lines| == 0 || |first| == 0 then None
      else
        match (RowWraps(lines), ParsePath(pathLine))
        case (Some(rw), Some(path)) =>
          (match ColWraps(rw, MaxLen(lines))
           case None => None
           case Some(cw) => Some((Board(lines, Cell(0, StartColumn(first[0])), rw, cw), path)))
        case _ => None
  }

  /** `spots.get`: the tile at a cell, if it is an open tile or a wall. */
  function Spot(board: Board, c: Cell): (r: Option<char>)
    ensures r.Some? ==> r.value == '.' || r.value == '#'
  {
    if c.row < |board.lines| && c.col < |board.lines[c.row]| &&
       (board.lines[c.row][c.col] == '.' || board.lines[c.row][c.col] == '#')
    then Some(board.lines[c.row][c.col])
    else None
  }

  // ----- part 1: wrapping around the flat board -----

  /** One step forward along a span, back to its start after its end. */
  function NextInSpan(x: nat, lo: nat, hi: nat): nat
  {
    if x + 1 > hi then lo else x + 1
  }

  /** One step backward, to the span's end before its start (the source
      tests `x == 0` first, so the subtraction cannot underflow). */
  function PrevInSpan(x: nat, lo: nat, hi: nat): nat
  {
    if x == 0 || x - 1 < lo then hi else x - 1
  }

  /** Inside a span the two steps are the cyclic successor and predecessor
      and undo each other. */
  lemma SpanCycle(x: nat, lo: nat, hi: nat)
    requires lo <= x <= hi
    ensures lo <= NextInSpan(x, lo, hi) <= hi && lo <= PrevInSpan(x, lo, hi) <= hi
    ensures NextInSpan(x, lo, hi) == lo + (x - lo + 1) % (hi - lo + 1)
    ensures PrevInSpan(x, lo, hi) == lo + (x - lo + (hi - lo)) % (hi - lo + 1)
    ensures PrevInSpan(NextInSpan(x, lo, hi), lo, hi) == x
    ensures NextInSpan(PrevInSpan(x, lo, hi), lo, hi) == x
  {
    var n := hi - lo + 1;
    if x == hi {
      ModUnique(x - lo + 1, 1, 0, n);
    } else {
      ModUnique(x - lo + 1, 0, x - lo + 1, n);
    }
    if x == lo {
      ModUnique(x - lo + (hi - lo), 0, hi - lo, n);
    } else {
      ModUnique(x - lo + (hi - lo), 1, x - lo - 1, n);
    }
  }

  /** `wrap_simple`: the next cell along the row or column, wrapping to the
      other end of its span; `None` where the source indexes past the
      span tables. */
  function WrapSimple(board: Board, s: State): (r: Option<State>)
    ensures r.Some? ==> r.value.facing == s.facing
  {
    var Cell(row, col) := s.cell;
    match s.facing
    case Left =>
      if row < |board.rowWraps| then
        Some(State(Cell(row, PrevInSpan(col, board.rowWraps[row].0, board.rowWraps[row].1)), Left))
      else None
    case Right =>
      if row < |board.rowWraps| then
        Some(State(Cell(row, NextInSpan(col, board.rowWraps[row].0, board.rowWraps[row].1)), Right))
      else None
    case Up =>
      if col < |board.colWraps| then
        Some(State(Cell(PrevInSpan(row, board.colWraps[col].0, board.colWraps[col].1), col), Up))
      else None
    case Down =>
      if col < |board.colWraps| then
        Some(State(Cell(NextInSpan(row, board.colWraps[col].0, board.colWraps[col].1), col), Down))
      else None
  }

  /** The cell lies inside its row's and its column's span. */
  predicate InSpans(board: Board, c: Cell)
  {
    c.row < |board.rowWraps| && c.col < |board.colWraps| &&
    Spans(board.rowWraps[c.row], c.col) && Spans(board.colWraps[c.col], c.row)
  }

  /** From a cell inside its spans, a flat step stays in the same row (or
      column) and span, and stepping back the other way returns. */
  lemma WrapSimpleInverse(board: Board, s: State)
    requires InSpans(board, s.cell)
    ensures WrapSimple(board, s).Some?
    ensures var t := WrapSimple(board, s).value;
      (s.facing in {Left, Right} ==>
         (t.cell.row == s.cell.row && Spans(board.rowWraps[s.cell.row], t.cell.col))) &&
      (s.facing in {Up, Down} ==>
         (t.cell.col == s.cell.col && Spans(board.colWraps[s.cell.col], t.cell.row))) &&
      WrapSimple(board, State(t.cell, Opposite(s.facing))) == Some(State(s.cell, Opposite(s.facing)))
  {
    var Cell(row, col) := s.cell;
    SpanCycle(col, board.rowWraps[row].0, board.rowWraps[row].1);
    SpanCycle(row, board.colWraps[col].0, board.colWraps[col].1);
  }

  // ----- part 2: wrapping over the cube -----

  /** The side of one cube face in the puzzle input. */
  const Size: nat := 50

  /** The tile lies on one of the six faces of the unfolding. */
  predicate OnCube(c: Cell)
  {
    (c.row < Size && Size <= c.col < 3 * Size) ||
    (Size <= c.row < 2 * Size && Size <= c.col < 2 * Size) ||
    (2 * Size <= c.row < 3 * Size && c.col < 2 * Size) ||
    (3 * Size <= c.row < 4 * Size && c.col < Size)
  }

  /** `wrap_cube` for the input's unfolding, with faces laid out as
        . 1 2
        . 3 .
        4 5 .
        6 . .
      of `Size` by `Size` tiles each. `None` where the source's `usize`
      subtraction would underflow, which happens only off the cube. */
  function WrapCube(s: State): (r: Option<State>)
    ensures OnCube(s.cell) ==> r.Some? && OnCube(r.value.cell)
  {
    var Cell(row, col) := s.cell;
    match s.facing
    case Left =>
      if row < Size && col == Size then Some(State(Cell(3 * Size - row - 1, 0), Right))
      else if Size <= row < 2 * Size && col == Size then Some(State(Cell(2 * Size, row - Size), Down))
      else if 2 * Size <= row < 3 * Size && col == 0 then Some(State(Cell(3 * Size - row - 1, Size), Right))
      else if 3 * Size <= row < 4 * Size && col == 0 then Some(State(Cell(0, row - 2 * Size), Down))
      else if col == 0 then None
      else Some(State(Cell(row, col - 1), Left))
    case Right =>
      if row < Size && col == 3 * Size - 1 then Some(State(Cell(3 * Size - 1 - row, 2 * Size - 1), Left))
      else if Size <= row < 2 * Size && col == 2 * Size - 1 then Some(State(Cell(Size - 1, row + Size), Up))
      else if 2 * Size <= row < 3 * Size && col == 2 * Size - 1 then Some(State(Cell(3 * Size - 1 - row, 3 * Size - 1), Left))
      else if 3 * Size <= row < 4 * Size && col == Size - 1 then Some(State(Cell(3 * Size - 1, row - 2 * Size), Up))
      else Some(State(Cell(row, col + 1), Right))
    case Up =>
      if row == 2 * Size && col < Size then Some(State(Cell(Size + col, Size), Right))
      else if row == 0 && Size <= col < 2 * Size then Some(State(Cell(col + 2 * Size, 0), Right))
      else if row == 0 && 2 * Size <= col < 3 * Size then Some(State(Cell(4 * Size - 1, col - 2 * Size), Up))
      else if row == 0 then None
      else Some(State(Cell(row - 1, col), Up))
    case Down =>
      if row == 4 * Size - 1 && col < Size then Some(State(Cell(0, col + 2 * Size), Down))
      else if row == 3 * Size - 1 && Size <= col < 2 * Size then Some(State(Cell(col + 2 * Size, Size - 1), Left))
      else if row == Size - 1 && 2 * Size <= col < 3 * Size then Some(State(Cell(col - Size, 2 * Size - 1), Left))
      else Some(State(Cell(row + 1, col), Down))
  }

  // ----- walking -----

  function Candidate(board: Board, s: State, cubeWrap: bool): Option<State>
  {
    if cubeWrap then WrapCube(s) else WrapSimple(board, s)
  }

  /** `walk`: up to `steps` steps, each onto the next open tile; a wall
      ends the walk where it stands, and anything else is the source's
      "fell off the map" panic. */
  function Walk(board: Board, s: State, steps: nat, cubeWrap: bool): (r: Option<State>)
    ensures steps == 0 ==> r == Some(s)
    ensures r.Some? && Spot(board, s.cell) == Some('.') ==> Spot(board, r.value.cell) == Some('.')
    ensures r.Some? && !cubeWrap ==> r.value.facing == s.facing
    ensures r.Some? && cubeWrap && OnCube(s.cell) ==> OnCube(r.value.cell)
    decreases steps
  {
    if steps == 0 then Some(s)
    else
      match Candidate(board, s, cubeWrap)
      case None => None
      case Some(t) =>
        match Spot(board, t.cell)
        case Some('.') => Walk(board, t, steps - 1, cubeWrap)
        case Some('#') => Some(s)
        case _ => None
  }

  /** A wall straight ahead stops every walk before it starts. */
  lemma WalkBlocked(board: Board, s: State, steps: nat, cubeWrap: bool)
    requires steps > 0 && Candidate(board, s, cubeWrap).Some?
    requires Spot(board, Candidate(board, s, cubeWrap).value.cell) == Some('#')
    ensures Walk(board, s, steps, cubeWrap) == Some(s)
  {
  }

  /** Walking `a` steps and then `b` more is walking `a + b` steps: once a
      wall stops the walk, the same wall stops the rest. */
  lemma {:induction false} WalkSplit(board: Board, s: State, a: nat, b: nat, cubeWrap: bool)
    ensures Walk(board, s, a + b, cubeWrap) ==
      (match Walk(board, s, a, cubeWrap)
       case None => None
       case Some(m) => Walk(board, m, b, cubeWrap))
    decreases a
  {
    if a > 0 {
      match Candidate(board, s, cubeWrap)
      case None =>
      case Some(t) =>
        match Spot(board, t.cell)
        case Some('.') =>
          WalkSplit(board, t, a - 1, b, cubeWrap);
        case Some('#') =>
          if b > 0 {
            WalkBlocked(board, s, b, cubeWrap);
          }
        case _ =>
    }
  }

  /** One action of the path. */
  function Act(board: Board, s: State, a: Action, cubeWrap: bool): Option<State>
  {
    match a
    case Move(n) => Walk(board, s, n, cubeWrap)
    case RotateLeft => Some(State(s.cell, Rotate(s.facing, false)))
    case RotateRight => Some(State(s.cell, Rotate(s.facing, true)))
  }

  /** The loop of `traverse_map`. */
  function Follow(board: Board, s: State, path: seq<Action>, cubeWrap: bool): (r: Option<State>)
    ensures r.Some? && Spot(board, s.cell) == Some('.') ==> Spot(board, r.value.cell) == Some('.')
    ensures r.Some? && cubeWrap && OnCube(s.cell) ==> OnCube(r.value.cell)
    decreases |path|
  {
    if |path| == 0 then Some(s)
    else
      match Act(board, s, path[0], cubeWrap)
      case None => None
      case Some(t) => Follow(board, t, path[1..], cubeWrap)
  }

  /** Following two paths in turn is following their concatenation. */
  lemma {:induction false} FollowAppend(board: Board, s: State, p: seq<Action>, q: seq<Action>, cubeWrap: bool)
    ensures Follow(board, s, p + q, cubeWrap) ==
      (match Follow(board, s, p, cubeWrap)
       case None => None
       case Some(m) => Follow(board, m, q, cubeWrap))
    decreases |p|
  {
    if |p| == 0 {
      assert p + q == q;
    } else {
      assert (p + q)[0] == p[0] && (p + q)[1..] == p[1..] + q;
      match Act(board, s, p[0], cubeWrap)
      case None =>
      case Some(t) =>
        FollowAppend(board, t, p[1..], q, cubeWrap);
    }
  }

  /** The final password. */
  function Password(s: State): nat
  {
    1000 * (s.cell.row + 1) + 4 * (s.cell.col + 1) + FacingScore(s.facing)
  }

  /** The password encodes the facing in its last two bits and, for columns
      below 249, the row and column in its thousands and the rest. */
  lemma PasswordDecodes(s: State)
    ensures Password(s) % 4 == FacingScore(s.facing)
    ensures s.cell.col < 249 ==> Password(s) / 1000 == s.cell.row + 1 &&
                                 (Password(s) % 1000) / 4 == s.cell.col + 1
  {
    var p := Password(s);
    var low := 4 * (s.cell.col + 1) + FacingScore(s.facing);
    ModUnique(p, 250 * (s.cell.row + 1) + s.cell.col + 1, FacingScore(s.facing), 4);
    if s.cell.col < 249 {
      ModUnique(p, s.cell.row + 1, low, 1000);
      ModUnique(low, s.cell.col + 1, FacingScore(s.facing), 4);
    }
  }

  /** Two final states with columns below 249 and the same password are
      the same state. */
  lemma PasswordInjective(s: State, t: State)
    requires s.cell.col < 249 && t.cell.col < 249
    ensures Password(s) == Password(t) <==> s == t
  {
    PasswordDecodes(s);
    PasswordDecodes(t);
    if Password(s) == Password(t) {
      FacingScoreInjective(s.facing, t.facing);
    }
  }

  /** `traverse_map`: from the start tile facing right. The password is
      that of a state on an open tile when the start tile is open. */
  function Traverse(board: Board, path: seq<Action>, cubeWrap: bool): (r: Option<nat>)
    ensures |path| == 0 ==> r == Some(Password(State(board.topLeft, Right)))
    ensures r.Some? ==>
      exists t: State ::
        && Password(t) == r.value
        && (Spot(board, board.topLeft) == Some('.') ==> Spot(board, t.cell) == Some('.'))
        && (cubeWrap && OnCube(board.topLeft) ==> OnCube(t.cell))
  {
    match Follow(board, State(board.topLeft, Right), path, cubeWrap)
    case None => None
    case Some(s) => Some(Password(s))
  }

  /** `solve_part1`: flat wrapping, ending on an open tile. */
  function Part1(board: Board, path: seq<Action>): (r: Option<nat>)
    ensures |path| == 0 ==> r == Some(Password(State(board.topLeft, Right)))
    ensures r.Some? && Spot(board, board.topLeft) == Some('.') ==>
      exists t: State :: Spot(board, t.cell) == Some('.') && Password(t) == r.value
  {
    Traverse(board, path, false)
  }

  /** `solve_part2`: wrapping over the cube, ending on an open tile of one
      of its faces. */
  function Part2(board: Board, path: seq<Action>): (r: Option<nat>)
    ensures |path| == 0 ==> r == Some(Password(State(board.topLeft, Right)))
    ensures r.Some? && Spot(board, board.topLeft) == Some('.') && OnCube(board.topLeft) ==>
      exists t: State :: Spot(board, t.cell) == Some('.') && OnCube(t.cell) && Password(t) == r.value
  {
    Traverse(board, path, true)
  }
}
