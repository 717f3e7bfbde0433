/** Treetop tree house: a square grid of tree heights, which trees are visible
    from outside the grid, and the best scenic score. */
module TreeGrid {
  import opened Common
  import opened Text

  /** A square grid flattened row by row: cell (row, col) is at
      `row * size + col`. */
  datatype SquareVec<T> = SquareVec(size: nat, vec: seq<T>)

  predicate Valid<T>(g: SquareVec<T>)
  {
    |g.vec| == Mul(g.size, g.size)
  }

  /** `a * n` by repeated addition, which keeps the solver away from
      non-linear arithmetic. */
  function Mul(a: nat, n: nat): nat
  {
    if a == 0 then 0 else Mul(a - 1, n) + n
  }

  lemma {:induction false} MulIsProduct(a: nat, n: nat)
    ensures Mul(a, n) == a * n
  {
    if a > 0 {
      MulIsProduct(a - 1, n);
    }
  }

  lemma {:induction false} MulMonotone(a: nat, b: nat, n: nat)
    requires a <= b
    ensures Mul(a, n) <= Mul(b, n)
    decreases b
  {
    if a < b {
      MulMonotone(a, b - 1, n);
    }
  }

  function IndexOf(size: nat, row: nat, col: nat): nat
  {
    Mul(row, size) + col
  }

  /** Inside the square the flat index is in range. */
  lemma IndexOfInRange(size: nat, row: nat, col: nat)
    ensures row < size && col < size ==> IndexOf(size, row, col) < Mul(size, size)
  {
    if row < size {
      MulMonotone(row + 1, size, size);
    }
  }

  /** Different cells of the square have different flat indices. */
  lemma IndexOfInjective(size: nat, r1: nat, c1: nat, r2: nat, c2: nat)
    requires c1 < size && c2 < size
    requires IndexOf(size, r1, c1) == IndexOf(size, r2, c2)
    ensures r1 == r2 && c1 == c2
  {
    if r1 < r2 {
      MulMonotone(r1 + 1, r2, size);
    } else if r2 < r1 {
      MulMonotone(r2 + 1, r1, size);
    }
  }

  /** `SquareVec::new`: every cell holds `init`. */
  function New<T>(size: nat, init: T): (g: SquareVec<T>)
    ensures Valid(g) && g.size == size
  {
    SquareVec(size, seq(Mul(size, size), _ => init))
  }

  lemma GetNew<T>(size: nat, init: T, row: nat, col: nat)
    requires row < size && col < size
    ensures Get(New(size, init), row, col) == init
  {
    IndexOfInRange(size, row, col);
  }

  function Get<T>(g: SquareVec<T>, row: nat, col: nat): T
    requires Valid(g) && row < g.size && col < g.size
  {
    IndexOfInRange(g.size, row, col);
    g.vec[IndexOf(g.size, row, col)]
  }

  /** `SquareVec::set`; None when the flat index falls outside the vector,
      where the source panics. A column past the row's end lands in a later
      row, as in the source. */
  function Set<T>(g: SquareVec<T>, row: nat, col: nat, value: T): (r: Option<SquareVec<T>>)
    requires Valid(g)
    ensures row < g.size && col < g.size ==> r.Some?
    ensures r.Some? ==> Valid(r.value) && r.value.size == g.size
  {
    IndexOfInRange(g.size, row, col);
    var i := IndexOf(g.size, row, col);
    if i < |g.vec| then Some(SquareVec(g.size, g.vec[i := value])) else None
  }

  /** Reading a cell after a write: the written value at that cell, the old
      value everywhere else. */
  lemma GetSet<T>(g: SquareVec<T>, row: nat, col: nat, value: T, r: nat, c: nat)
    requires Valid(g) && row < g.size && col < g.size && r < g.size && c < g.size
    ensures Get(Set(g, row, col, value).value, r, c) == if r == row && c == col then value else Get(g, r, c)
  {
    IndexOfInRange(g.size, r, c);
    IndexOfInRange(g.size, row, col);
    if IndexOf(g.size, r, c) == IndexOf(g.size, row, col) {
      IndexOfInjective(g.size, r, c, row, col);
    }
  }

  /** The height of a digit character: `ch - '0'`, which the source cannot
      compute below '0'. */
  function Height(ch: char): (h: Option<nat>)
    ensures IsDigit(ch) ==> h == Some(DigitValue(ch))
    ensures h.None? <==> ch < '0'
  {
    if ch < '0' then None else Some(ch as int - '0' as int)
  }

  function ParseRow(g: SquareVec<nat>, row: nat, line: string, col: nat): Option<SquareVec<nat>>
    requires Valid(g) && col <= |line|
    decreases |line| - col
  {
    if col == |line| then Some(g)
    else
      match Height(line[col])
      case None => None
      case Some(h) =>
        match Set(g, row, col, h)
        case None => None
        case Some(g') => ParseRow(g', row, line, col + 1)
  }

  function ParseRows(g: SquareVec<nat>, lines: seq<string>, row: nat): Option<SquareVec<nat>>
    requires Valid(g) && row <= |lines|
    decreases |lines| - row
  {
    if row == |lines| then Some(g)
    else
      match ParseRow(g, row, lines[row], 0)
      case None => None
      case Some(g') => if Valid(g') then ParseRows(g', lines, row + 1) else None
  }

  /** `parse_input` on the lines: the size is the first line's length, and
      each character is written at its row and column. */
  function ParseGrid(lines: seq<string>): Option<SquareVec<nat>>
  {
    if |lines| == 0 then None else ParseRows(New(|lines[0]|, 0), lines, 0)
  }

  /** Lines of digits, as many as each line is long. */
  predicate DigitSquare(lines: seq<string>)
  {
    |lines| > 0 && (forall k :: 0 <= k < |lines| ==> |lines[k]| == |lines|)
    && forall k, j :: 0 <= k < |lines| && 0 <= j < |lines[k]| ==> IsDigit(lines[k][j])
  }

  /** `parse_input`: no grid for an input without lines, where the
      source's `unwrap` panics; a square of digits gives the grid of their
      values. */
  function ParseInput(data: string): (r: Option<SquareVec<nat>>)
    ensures |Lines(data)| == 0 ==> r.None?
    ensures DigitSquare(Lines(data)) ==>
      && r.Some? && Valid(r.value) && r.value.size == |Lines(data)|
      && forall i: nat, j: nat :: i < |Lines(data)| && j < |Lines(data)| ==> Get(r.value, i, j) == DigitValue(Lines(data)[i][j])
  {
    var ls := Lines(data);
    if DigitSquare(ls) then ParseSquare(ls); ParseGrid(ls) else ParseGrid(ls)
  }

  lemma {:induction false} ParseRowEffect(g: SquareVec<nat>, row: nat, line: string, col: nat)
    requires Valid(g) && col <= |line| <= g.size && row < g.size
    requires forall k :: 0 <= k < |line| ==> IsDigit(line[k])
    ensures ParseRow(g, row, line, col).Some?
    ensures Valid(ParseRow(g, row, line, col).value) && ParseRow(g, row, line, col).value.size == g.size
    ensures forall r: nat, c: nat :: r < g.size && c < g.size ==>
      Get(ParseRow(g, row, line, col).value, r, c)
        == if r == row && col <= c < |line| then DigitValue(line[c]) else Get(g, r, c)
    decreases |line| - col
  {
    if col < |line| {
      var h := DigitValue(line[col]);
      var g' := Set(g, row, col, h).value;
      ParseRowEffect(g', row, line, col + 1);
      forall r: nat, c: nat | r < g.size && c < g.size
        ensures Get(g', r, c) == if r == row && c == col then h else Get(g, r, c)
      {
        GetSet(g, row, col, h, r, c);
      }
    }
  }

  lemma {:induction false} ParseRowsEffect(g: SquareVec<nat>, lines: seq<string>, row: nat)
    requires Valid(g) && row <= |lines| <= g.size
    requires forall k :: 0 <= k < |lines| ==> |lines[k]| == g.size
    requires forall k, j :: 0 <= k < |lines| && 0 <= j < |lines[k]| ==> IsDigit(lines[k][j])
    ensures ParseRows(g, lines, row).Some?
    ensures Valid(ParseRows(g, lines, row).value) && ParseRows(g, lines, row).value.size == g.size
    ensures forall r: nat, c: nat :: r < g.size && c < g.size ==>
      Get(ParseRows(g, lines, row).value, r, c)
        == if row <= r < |lines| then DigitValue(lines[r][c]) else Get(g, r, c)
    decreases |lines| - row
  {
    if row < |lines| {
      ParseRowEffect(g, row, lines[row], 0);
      var g' := ParseRow(g, row, lines[row], 0).value;
      ParseRowsEffect(g', lines, row + 1);
    }
  }

  /** A square of digit lines parses to the grid of their values. */
  lemma ParseSquare(lines: seq<string>)
    requires |lines| > 0
    requires forall k :: 0 <= k < |lines| ==> |lines[k]| == |lines|
    requires forall k, j :: 0 <= k < |lines| && 0 <= j < |lines[k]| ==> IsDigit(lines[k][j])
    ensures ParseGrid(lines).Some?
    ensures Valid(ParseGrid(lines).value) && ParseGrid(lines).value.size == |lines|
    ensures forall r: nat, c: nat :: r < |lines| && c < |lines| ==> Get(ParseGrid(lines).value, r, c) == DigitValue(lines[r][c])
  {
    ParseRowsEffect(New(|lines|, 0), lines, 0);
  }

  function Row(g: SquareVec<nat>, r: nat): (s: seq<nat>)
    requires Valid(g) && r < g.size
    ensures |s| == g.size && forall c :: 0 <= c < g.size ==> s[c] == Get(g, r, c)
  {
    seq(g.size, c requires 0 <= c < g.size => Get(g, r, c))
  }

  function Column(g: SquareVec<nat>, c: nat): (s: seq<nat>)
    requires Valid(g) && c < g.size
    ensures |s| == g.size && forall r :: 0 <= r < g.size ==> s[r] == Get(g, r, c)
  {
    seq(g.size, r requires 0 <= r < g.size => Get(g, r, c))
  }

  /** One of part 1's scans along the trees `hs` between a tree of height
      `h` and the edge: it stops at the first tree at least as tall, and
      marks the tree visible on reaching the last tree. */
  function ScanFrom(hs: seq<nat>, h: nat, i: nat): (visible: bool)
    ensures visible <==> i < |hs| && forall k :: i <= k < |hs| ==> hs[k] < h
    decreases |hs| - i
  {
    if i >= |hs| then false
    else if hs[i] >= h then false
    else if i == |hs| - 1 then true
    else ScanFrom(hs, h, i + 1)
  }

  predicate IsBorder(size: nat, r: nat, c: nat)
  {
    r == 0 || c == 0 || r == size - 1 || c == size - 1
  }

  /** Part 1's verdict for one cell: border cells are set visible; an
      interior cell is visible when one of the four scans reaches the edge. */
  predicate Visible(g: SquareVec<nat>, r: nat, c: nat)
    requires Valid(g) && r < g.size && c < g.size
  {
    var h := Get(g, r, c);
    IsBorder(g.size, r, c)
    || ScanFrom(Row(g, r)[..c], h, 0) || ScanFrom(Row(g, r)[c + 1..], h, 0)
    || ScanFrom(Column(g, c)[..r], h, 0) || ScanFrom(Column(g, c)[r + 1..], h, 0)
  }

  /** An interior tree is visible exactly when it is taller than every tree
      between it and the edge in one of the four directions. */
  lemma InteriorVisible(g: SquareVec<nat>, r: nat, c: nat)
    requires Valid(g) && 0 < r < g.size - 1 && 0 < c < g.size - 1
    ensures Visible(g, r, c) <==>
      (forall i :: 0 <= i < c ==> Get(g, r, i) < Get(g, r, c))
      || (forall i :: c < i < g.size ==> Get(g, r, i) < Get(g, r, c))
      || (forall i :: 0 <= i < r ==> Get(g, i, c) < Get(g, r, c))
      || (forall i :: r < i < g.size ==> Get(g, i, c) < Get(g, r, c))
  {
    var h := Get(g, r, c);
    var row, col := Row(g, r), Column(g, c);
    assert forall i :: 0 <= i < c ==> row[..c][i] == Get(g, r, i);
    assert forall i :: c < i < g.size ==> row[c + 1..][i - c - 1] == Get(g, r, i);
    assert forall i :: 0 <= i < r ==> col[..r][i] == Get(g, i, c);
    assert forall i :: r < i < g.size ==> col[r + 1..][i - r - 1] == Get(g, i, c);
  }

  /** The number of visible cells in columns `c..` of row `r`. */
  function CountRow(g: SquareVec<nat>, r: nat, c: nat): (n: nat)
    requires Valid(g) && r < g.size && c <= g.size
    ensures n <= g.size - c
    ensures (r == 0 || r == g.size - 1) ==> n == g.size - c
    ensures c < g.size ==> n >= 1
    ensures c == 0 && g.size >= 2 ==> n >= 2
    decreases g.size - c
  {
    if c == g.size then 0
    else (if Visible(g, r, c) then 1 else 0) + CountRow(g, r, c + 1)
  }

  /** The number of visible cells in rows `r..`. */
  function CountRows(g: SquareVec<nat>, r: nat): nat
    requires Valid(g) && r <= g.size
    decreases g.size - r
  {
    if r == g.size then 0 else CountRow(g, r, 0) + CountRows(g, r + 1)
  }

  /** Rows `r..` hold at most a full row each, and at least their two
      border cells plus the whole last row (and the first, when included). */
  lemma {:induction false} CountRowsBounds(g: SquareVec<nat>, r: nat)
    requires Valid(g) && r <= g.size
    ensures CountRows(g, r) <= (g.size - r) * g.size
    ensures g.size >= 2 && r < g.size ==> CountRows(g, r) >= 2 * (g.size - r) + g.size - 2
    ensures g.size >= 2 && 0 < r < g.size ==> CountRows(g, r) >= 2 * (g.size - r - 1) + g.size
    decreases g.size - r
  {
    if r < g.size {
      CountRowsBounds(g, r + 1);
      assert (g.size - r) * g.size == g.size + (g.size - r - 1) * g.size;
    }
  }

  /** `solve_part1`: the number of visible trees. The source computes
      `size - 1` first, so the grid must not be empty. With at least two
      rows every border tree counts, so the result lies between
      `4 * size - 4` and `size * size`. */
  function Part1(g: SquareVec<nat>): (n: nat)
    requires Valid(g) && g.size >= 1
    ensures n <= g.size * g.size
    ensures g.size >= 2 ==> n >= 4 * g.size - 4
  {
    CountRowsBounds(g, 0);
    CountRowsBounds(g, 1);
    CountRows(g, 0)
  }

  /** The position of the first tree from `k` on at least as tall as `h`,
      or `|hs|` when there is none. */
  function Blocker(hs: seq<nat>, h: nat, k: nat): (b: nat)
    requires k <= |hs|
    ensures k <= b <= |hs|
    ensures forall j :: k <= j < b ==> hs[j] < h
    ensures b < |hs| ==> hs[b] >= h
    decreases |hs| - k
  {
    if k == |hs| || hs[k] >= h then k else Blocker(hs, h, k + 1)
  }

  /** One of part 2's viewing distances along `hs`, nearest tree first: it
      counts trees up to the first one at least as tall as `h`, and counts
      that blocking tree too unless it sits at scan position `skip` (the
      source's edge adjustments). */
  function ViewFrom(hs: seq<nat>, h: nat, skip: int, k: nat): (n: nat)
    requires k <= |hs|
    ensures n <= |hs| - k
    ensures var b := Blocker(hs, h, k);
      n == if b == |hs| then |hs| - k else b - k + (if b != skip then 1 else 0)
    decreases |hs| - k
  {
    if k == |hs| then 0
    else if hs[k] >= h then (if k != skip then 1 else 0)
    else 1 + ViewFrom(hs, h, skip, k + 1)
  }

  /** The product of the four viewing distances from an interior cell. To
      the left and upwards the blocker is not counted at the edge tree; to
      the right and downwards it is not counted at the tree next to the
      edge. */
  function Score(g: SquareVec<nat>, r: nat, c: nat): nat
    requires Valid(g) && 0 < r < g.size - 1 && 0 < c < g.size - 1
  {
    var h := Get(g, r, c);
    var left := Reverse(Row(g, r)[..c]);
    var right := Row(g, r)[c + 1..];
    var top := Reverse(Column(g, c)[..r]);
    var down := Column(g, c)[r + 1..];
    Mul(Mul(Mul(ViewFrom(left, h, |left| - 1, 0), ViewFrom(right, h, |right| - 2, 0)),
            ViewFrom(top, h, |top| - 1, 0)),
        ViewFrom(down, h, |down| - 2, 0))
  }

  predicate Interior(size: nat, r: nat, c: nat)
  {
    0 < r < size - 1 && 0 < c < size - 1
  }

  /** The source's running maximum: a value replaces the best so far only
      when it is larger. */
  function MaxFrom(s: seq<nat>, best: nat): (n: nat)
    ensures n >= best
    ensures forall i :: 0 <= i < |s| ==> s[i] <= n
    ensures n == best || n in s
  {
    if |s| == 0 then best else MaxFrom(s[1..], if s[0] > best then s[0] else best)
  }

  /** The scores of the interior cells of row `r`, left to right. */
  function RowScores(g: SquareVec<nat>, r: nat): (s: seq<nat>)
    requires Valid(g) && 0 < r < g.size - 1
    ensures |s| == g.size - 2
    ensures forall j :: 0 <= j < |s| ==> s[j] == Score(g, r, j + 1)
  {
    seq(g.size - 2, j requires 0 <= j < g.size - 2 => Score(g, r, j + 1))
  }

  /** The running maximum over the rows from `r` down. */
  function BestInRows(g: SquareVec<nat>, r: nat, best: nat): nat
    requires Valid(g) && g.size >= 1 && 0 < r
    decreases g.size - r
  {
    if r >= g.size - 1 then best
    else BestInRows(g, r + 1, MaxFrom(RowScores(g, r), best))
  }

  /** No interior score from row `r` down exceeds the running maximum. */
  lemma {:induction false} BestInRowsBound(g: SquareVec<nat>, r: nat, best: nat)
    requires Valid(g) && g.size >= 1 && 0 < r
    ensures BestInRows(g, r, best) >= best
    ensures forall i, j :: r <= i && Interior(g.size, i, j) ==> Score(g, i, j) <= BestInRows(g, r, best)
    decreases g.size - r
  {
    if r < g.size - 1 {
      var scores := RowScores(g, r);
      var n := BestInRows(g, r, best);
      BestInRowsBound(g, r + 1, MaxFrom(scores, best));
      forall i, j | r <= i && Interior(g.size, i, j)
        ensures Score(g, i, j) <= n
      {
        if i == r {
          assert Score(g, r, j) == scores[j - 1];
        }
      }
    }
  }

  /** The running maximum is the starting value or some interior score. */
  lemma {:induction false} BestInRowsAchieved(g: SquareVec<nat>, r: nat, best: nat)
    requires Valid(g) && g.size >= 1 && 0 < r
    ensures var n := BestInRows(g, r, best);
      n == best || exists i, j :: r <= i && Interior(g.size, i, j) && Score(g, i, j) == n
    decreases g.size - r
  {
    if r < g.size - 1 {
      var scores := RowScores(g, r);
      var m := MaxFrom(scores, best);
      BestInRowsAchieved(g, r + 1, m);
      var n := BestInRows(g, r, best);
      if n == m && n != best {
        var j :| 0 <= j < |scores| && scores[j] == n;
        assert Interior(g.size, r, j + 1);
      }
    }
  }

  /** `solve_part2`: the highest interior scenic score, or 0 when the grid
      has no interior. */
  function Part2(g: SquareVec<nat>): (n: nat)
    requires Valid(g) && g.size >= 1
    ensures forall i, j :: Interior(g.size, i, j) ==> Score(g, i, j) <= n
    ensures n == 0 || exists i, j :: Interior(g.size, i, j) && Score(g, i, j) == n
  {
    BestInRowsBound(g, 1, 0);
    BestInRowsAchieved(g, 1, 0);
    BestInRows(g, 1, 0)
  }
}
