/** Beacon exclusion zone: each sensor covers the cells no further from it,
    in Manhattan distance, than its closest beacon. */
module SensorCoverage {
  import opened Common
  import opened Text

  /** The row part 1 asks about, and the side of part 2's search square
      (10 and 20 in the source's test configuration). */
  const RowOfInterest := 2000000
  const Limit := 4000000

  // ----- parsing -----

  /** `w[2..len - from_end].parse()`: strips the "x=" or "y=" prefix and,
      when `fromEnd` is 1, the trailing ',' or ':'; `None` where the source
      panics. */
  function Coordinate(w: string, fromEnd: nat): Option<int>
  {
    if |w| < fromEnd || |w| - fromEnd < 2 then None else ParseInt(w[2..|w| - fromEnd])
  }

  /** One line, "Sensor at x=S, y=S: closest beacon is at x=B, y=B", read
      from fixed word positions. */
  function ParseLine(line: string): (r: Option<((int, int), (int, int))>)
    ensures r.Some? ==> |Words(line)| >= 10
  {
    var ws := Words(line);
    if |ws| < 10 then None
    else
      match (Coordinate(ws[2], 1), Coordinate(ws[3], 1), Coordinate(ws[8], 1), Coordinate(ws[9], 0))
      case (Some(sx), Some(sy), Some(bx), Some(beaconY)) => Some(((sx, sy), (bx, beaconY)))
      case _ => None
  }

  function ParseLines(lines: seq<string>): (r: Option<seq<((int, int), (int, int))>>)
    ensures r.Some? ==> |r.value| == |lines|
  {
    if |lines| == 0 then Some([])
    else
      match (ParseLine(lines[0]), ParseLines(lines[1..]))
      case (Some(x), Some(rest)) => Some([x] + rest)
      case _ => None
  }

  /** `parse_input`. */
  function ParseInput(data: string): (r: Option<seq<((int, int), (int, int))>>)
    ensures r.Some? ==> |r.value| == |Lines(data)|
  {
    ParseLines(Lines(data))
  }

  /** A coordinate word such as "x=-3,". */
  function Tagged(tag: string, n: int, tail: string): string
  {
    tag + ShowInt(n) + tail
  }

  function ShowWords(sx: int, sy: int, bx: int, beaconY: int): seq<string>
  {
    ["Sensor", "at", Tagged("x=", sx, ","), Tagged("y=", sy, ":"),
      "closest", "beacon", "is", "at", Tagged("x=", bx, ","), Tagged("y=", beaconY, "")]
  }

  /** The puzzle's line for a sensor and its beacon. */
  function ShowLine(sx: int, sy: int, bx: int, beaconY: int): string
  {
    Unwords(ShowWords(sx, sy, bx, beaconY))
  }

  lemma ShowIntIsWord(n: int)
    ensures IsWord(ShowInt(n))
  {
    var s := ShowInt(n);
    assert forall i :: 0 <= i < |s| ==> IsDigit(s[i]) || s[i] == '-';
  }

  /** A word made of a two-letter prefix, a number and `tail`. */
  lemma TaggedWord(tag: string, n: int, tail: string)
    requires |tag| == 2 && IsWord(tag) && (|tail| == 0 || IsWord(tail))
    ensures IsWord(Tagged(tag, n, tail))
  {
    ShowIntIsWord(n);
  }

  /** The coordinate reads back from its word. */
  lemma TaggedCoordinate(tag: string, n: int, tail: string)
    requires |tag| == 2
    ensures Coordinate(Tagged(tag, n, tail), |tail|) == Some(n)
  {
    var w := tag + ShowInt(n) + tail;
    assert w[2..|w| - |tail|] == ShowInt(n);
    ParseShowInt(n);
  }

  lemma LiteralWords()
    ensures IsWord("Sensor") && IsWord("at") && IsWord("closest") && IsWord("beacon") && IsWord("is")
  {
    assert IsWord("Sensor") by { var w := "Sensor"; assert forall i :: 0 <= i < |w| ==> w[i] in "Senors"; }
    assert IsWord("closest") by { var w := "closest"; assert forall i :: 0 <= i < |w| ==> w[i] in "closet"; }
    assert IsWord("beacon") by { var w := "beacon"; assert forall i :: 0 <= i < |w| ==> w[i] in "beacon"; }
  }

  lemma ShowWordsAreWords(sx: int, sy: int, bx: int, beaconY: int)
    ensures forall k :: 0 <= k < |ShowWords(sx, sy, bx, beaconY)| ==> IsWord(ShowWords(sx, sy, bx, beaconY)[k])
  {
    var ws := ShowWords(sx, sy, bx, beaconY);
    forall k | 0 <= k < |ws| ensures IsWord(ws[k]) {
      if k == 2 {
        TaggedWord("x=", sx, ",");
      } else if k == 3 {
        TaggedWord("y=", sy, ":");
      } else if k == 8 {
        TaggedWord("x=", bx, ",");
      } else if k == 9 {
        TaggedWord("y=", beaconY, "");
      } else {
        LiteralWords();
      }
    }
  }

  lemma WordsShowLine(sx: int, sy: int, bx: int, beaconY: int)
    ensures Words(ShowLine(sx, sy, bx, beaconY)) == ShowWords(sx, sy, bx, beaconY)
  {
    ShowWordsAreWords(sx, sy, bx, beaconY);
    WordsUnwords(ShowWords(sx, sy, bx, beaconY));
  }

  /** Every sensor line reads back as its sensor and beacon. */
  lemma ParseShowLine(sx: int, sy: int, bx: int, beaconY: int)
    ensures ParseLine(ShowLine(sx, sy, bx, beaconY)) == Some(((sx, sy), (bx, beaconY)))
  {
    WordsShowLine(sx, sy, bx, beaconY);
    TaggedCoordinate("x=", sx, ",");
    TaggedCoordinate("y=", sy, ":");
    TaggedCoordinate("x=", bx, ",");
    TaggedCoordinate("y=", beaconY, "");
  }

  // ----- distances -----

  /** `coord_dist`: the distance between two numbers. */
  function CoordDist(x: int, y: int): (d: int)
  {
    if x > y then x - y else y - x
  }

  /** The distance is the absolute difference: never negative, and the same
      either way round. */
  lemma CoordDistIsAbs(x: int, y: int)
    ensures CoordDist(x, y) == Abs(x - y) == CoordDist(y, x)
    ensures CoordDist(x, y) >= 0 && (CoordDist(x, y) == 0 <==> x == y)
  {
  }

  function Manhattan(x: int, y: int, px: int, py: int): int
  {
    CoordDist(x, px) + CoordDist(y, py)
  }

  /** A sensor and the Manhattan distance to its closest beacon. */
  datatype Sensor = Sensor(x: int, y: int, radius: int)

  function ToSensor(pair: ((int, int), (int, int))): (s: Sensor)
    ensures s.radius >= 0
    ensures s.radius == Abs(pair.1.0 - pair.0.0) + Abs(pair.1.1 - pair.0.1)
  {
    var ((sx, sy), (bx, beaconY)) := pair;
    Sensor(sx, sy, CoordDist(bx, sx) + CoordDist(beaconY, sy))
  }

  function ToSensors(data: seq<((int, int), (int, int))>): (r: seq<Sensor>)
    ensures |r| == |data|
    ensures forall k :: 0 <= k < |r| ==> r[k] == ToSensor(data[k])
  {
    seq(|data|, k requires 0 <= k < |data| => ToSensor(data[k]))
  }

  predicate Covers(s: Sensor, x: int, y: int)
  {
    Manhattan(x, y, s.x, s.y) <= s.radius
  }

  // ----- part 1 -----

  /** The sensor's interval on row `row`, if the row is within its radius:
      the loop over `sy - r ..= sy + r` meets the row exactly once then. */
  function RowInterval(s: Sensor, row: int): (r: Option<(int, int)>)
    ensures r.Some? <==> CoordDist(row, s.y) <= s.radius
  {
    if s.y - s.radius <= row <= s.y + s.radius then
      var len := s.radius - CoordDist(row, s.y);
      Some((s.x - len, s.x + len))
    else None
  }

  /** The interval holds exactly the cells of the row the sensor covers. */
  lemma RowIntervalCovers(s: Sensor, row: int, x: int)
    ensures (RowInterval(s, row).Some? && RowInterval(s, row).value.0 <= x <= RowInterval(s, row).value.1)
      <==> Covers(s, x, row)
  {
  }

  /** The intervals of all sensors reaching the row, in order. */
  function Intervals(ss: seq<Sensor>, row: int): seq<(int, int)>
  {
    if |ss| == 0 then []
    else
      match RowInterval(ss[0], row)
      case None => Intervals(ss[1..], row)
      case Some(iv) => [iv] + Intervals(ss[1..], row)
  }

  /** The numbers from `a` to `b`. */
  function Span(a: int, b: int): (r: set<int>)
    ensures forall x :: x in r <==> a <= x <= b
    decreases b - a
  {
    if a > b then {} else {a} + Span(a + 1, b)
  }

  /** The cells of all intervals. */
  function Cells(ivs: seq<(int, int)>): set<int>
  {
    if |ivs| == 0 then {} else Span(ivs[0].0, ivs[0].1) + Cells(ivs[1..])
  }

  /** A cell of the row is collected exactly when some sensor covers it. */
  lemma {:induction false} CellsCovered(ss: seq<Sensor>, row: int, x: int)
    ensures x in Cells(Intervals(ss, row)) <==> exists k :: 0 <= k < |ss| && Covers(ss[k], x, row)
    decreases |ss|
  {
    if |ss| > 0 {
      CellsCovered(ss[1..], row, x);
      RowIntervalCovers(ss[0], row, x);
      if exists k :: 0 <= k < |ss| && Covers(ss[k], x, row) {
        var k :| 0 <= k < |ss| && Covers(ss[k], x, row);
        if k > 0 {
          assert Covers(ss[1..][k - 1], x, row);
        }
      }
      if exists k :: 0 <= k < |ss| - 1 && Covers(ss[1..][k], x, row) {
        var k :| 0 <= k < |ss| - 1 && Covers(ss[1..][k], x, row);
        assert Covers(ss[k + 1], x, row);
      }
    }
  }

  /** The collected cells are the covered cells, so there are none exactly
      when no sensor reaches the row. */
  lemma CellsOfRow(ss: seq<Sensor>, row: int)
    ensures forall x :: x in Cells(Intervals(ss, row)) <==> exists k :: 0 <= k < |ss| && Covers(ss[k], x, row)
    ensures |Cells(Intervals(ss, row))| == 0 <==> forall k, x :: 0 <= k < |ss| ==> !Covers(ss[k], x, row)
  {
    var cells := Cells(Intervals(ss, row));
    forall x
      ensures x in cells <==> exists k :: 0 <= k < |ss| && Covers(ss[k], x, row)
    {
      CellsCovered(ss, row, x);
    }
    if |cells| > 0 {
      var x :| x in cells;
      var k :| 0 <= k < |ss| && Covers(ss[k], x, row);
    }
  }

  /** `solve_part1`: the covered cells of the row, less one for the beacon
      the puzzle places there; `None` for no covered cell, where the
      unsigned subtraction underflows. */
  function Part1(ss: seq<Sensor>, row: int): (r: Option<int>)
    ensures r.None? <==> forall k, x :: 0 <= k < |ss| ==> !Covers(ss[k], x, row)
    ensures r.Some? ==> r.value >= 0 && r.value + 1 == |Cells(Intervals(ss, row))|
    ensures forall x :: x in Cells(Intervals(ss, row)) <==> exists k :: 0 <= k < |ss| && Covers(ss[k], x, row)
  {
    CellsOfRow(ss, row);
    var n := |Cells(Intervals(ss, row))|;
    if n == 0 then None else Some(n - 1)
  }

  // ----- part 2 -----

  /** The first sensor, from `k` on, that covers the cell. */
  function FirstCovering(ss: seq<Sensor>, x: int, y: int, k: nat): (r: Option<nat>)
    requires k <= |ss|
    ensures r.Some? ==> k <= r.value < |ss| && Covers(ss[r.value], x, y)
    ensures r.None? <==> forall j :: k <= j < |ss| ==> !Covers(ss[j], x, y)
    decreases |ss| - k
  {
    if k == |ss| then None
    else if Covers(ss[k], x, y) then Some(k)
    else FirstCovering(ss, x, y, k + 1)
  }

  /** A covering sensor covers the row from `x` up to the end of its
      interval, and the jump lands past `x`. */
  lemma JumpCovers(s: Sensor, x: int, y: int)
    requires Covers(s, x, y)
    ensures s.x + (s.radius - CoordDist(y, s.y)) + 1 > x
    ensures forall x' :: x <= x' <= s.x + (s.radius - CoordDist(y, s.y)) ==> Covers(s, x', y)
  {
  }

  /** Scanning one row from `x`: jump past each covering sensor's interval
      until a cell no sensor covers, or past `limit`. */
  function ScanRow(ss: seq<Sensor>, y: int, x: int, limit: int): (r: Option<int>)
    ensures r.Some? ==> x <= r.value <= limit && forall k :: 0 <= k < |ss| ==> !Covers(ss[k], r.value, y)
    decreases limit + 1 - x
  {
    if x > limit then None
    else
      match FirstCovering(ss, x, y, 0)
      case None => Some(x)
      case Some(k) =>
        var s := ss[k];
        JumpCovers(s, x, y);
        ScanRow(ss, y, s.x + (s.radius - CoordDist(y, s.y)) + 1, limit)
  }

  /** The scan skips only covered cells: everything before its answer, or
      the whole rest of the row when it finds nothing, is covered. */
  lemma {:induction false} ScanRowSkipsCovered(ss: seq<Sensor>, y: int, x: int, limit: int, x': int)
    requires x <= x' <= limit
    requires ScanRow(ss, y, x, limit).None? || x' < ScanRow(ss, y, x, limit).value
    ensures exists k :: 0 <= k < |ss| && Covers(ss[k], x', y)
    decreases limit + 1 - x
  {
    match FirstCovering(ss, x, y, 0)
    case None =>
    case Some(k) =>
      var s := ss[k];
      JumpCovers(s, x, y);
      var next := s.x + (s.radius - CoordDist(y, s.y)) + 1;
      if x' < next {
        assert Covers(ss[k], x', y);
      } else {
        ScanRowSkipsCovered(ss, y, next, limit, x');
      }
  }

  /** Scanning the rows from `y`: the first cell found. */
  function Scan(ss: seq<Sensor>, y: int, limit: int): (r: Option<(int, int)>)
    ensures r.Some? ==> 0 <= r.value.0 <= limit && y <= r.value.1 <= limit
    ensures r.Some? ==> forall k :: 0 <= k < |ss| ==> !Covers(ss[k], r.value.0, r.value.1)
    decreases limit + 1 - y
  {
    if y > limit then None
    else
      match ScanRow(ss, y, 0, limit)
      case Some(x) => Some((x, y))
      case None => Scan(ss, y + 1, limit)
  }

  /** Every cell of the square before the answer in row order is covered:
      the answer is the first free cell, row by row. */
  lemma {:induction false} ScanIsFirst(ss: seq<Sensor>, y: int, limit: int, px: int, py: int)
    requires 0 <= px <= limit && y <= py <= limit
    requires Scan(ss, y, limit).None?
      || py < Scan(ss, y, limit).value.1
      || (py == Scan(ss, y, limit).value.1 && px < Scan(ss, y, limit).value.0)
    ensures exists k :: 0 <= k < |ss| && Covers(ss[k], px, py)
    decreases limit + 1 - y
  {
    if py == y {
      ScanRowSkipsCovered(ss, y, 0, limit, px);
    } else {
      ScanIsFirst(ss, y + 1, limit, px, py);
    }
  }

  /** A cell of the search square that no sensor covers. */
  predicate Free(ss: seq<Sensor>, limit: int, x: int, y: int)
  {
    0 <= x <= limit && 0 <= y <= limit && forall k :: 0 <= k < |ss| ==> !Covers(ss[k], x, y)
  }

  /** `solve_part2`: the tuning frequency of the free cell; `None` where
      the source reaches `unreachable!()`. */
  function Part2(ss: seq<Sensor>, limit: int): (r: Option<int>)
    ensures r.Some? ==> exists x, y :: Free(ss, limit, x, y) && r.value == x * 4000000 + y
  {
    match Scan(ss, 0, limit)
    case None => None
    case Some(p) =>
      assert Free(ss, limit, p.0, p.1);
      Some(p.0 * 4000000 + p.1)
  }
}
