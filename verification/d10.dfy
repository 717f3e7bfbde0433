/** Cathode-ray tube: a CPU with one register X running `addx` and `noop`,
    the signal strength sampled at fixed cycles, and the sprite drawn on a
    40 by 6 screen. */
module CathodeRay {
  import opened Common
  import opened Text

  datatype Command = AddX(n: int) | Noop

  /** `Command::from`: "noop", or anything else as "word number"; None where
      the source panics. */
  function ParseCommand(s: string): (r: Option<Command>)
    ensures s == "noop" <==> r == Some(Noop)
    ensures r.Some? && r.value.AddX? ==>
      SplitOnce(s, ' ').Some? && ParseInt(SplitOnce(s, ' ').value.1) == Some(r.value.n)
  {
    if s == "noop" then Some(Noop)
    else
      match SplitOnce(s, ' ')
      case None => None
      case Some(halves) =>
        match ParseInt(halves.1)
        case None => None
        case Some(n) => Some(AddX(n))
  }

  /** "addx n" parses back to the command. */
  lemma ParseAddX(n: int)
    ensures ParseCommand("addx " + ShowInt(n)) == Some(AddX(n))
  {
    var s := "addx " + ShowInt(n);
    assert s[4] == ' ' && s != "noop";
    assert s == "addx" + [' '] + ShowInt(n);
    SplitOnceJoin("addx", ShowInt(n), ' ');
    ParseShowInt(n);
  }

  /** Every line parsed, or None when one of them does not parse. */
  function ParseAll(lines: seq<string>): (r: Option<seq<Command>>)
    ensures r.Some? <==> forall k :: 0 <= k < |lines| ==> ParseCommand(lines[k]).Some?
    ensures r.Some? ==> |r.value| == |lines|
    ensures r.Some? ==> forall k :: 0 <= k < |lines| ==> ParseCommand(lines[k]) == Some(r.value[k])
  {
    if |lines| == 0 then Some([])
    else
      match (ParseCommand(lines[0]), ParseAll(lines[1..]))
      case (Some(c), Some(rest)) =>
        assert forall k :: 1 <= k < |lines| ==> lines[k] == lines[1..][k - 1];
        Some([c] + rest)
      case _ =>
        assert forall k :: 1 <= k < |lines| ==> lines[k] == lines[1..][k - 1];
        None
  }

  /** `parse_input`: one command per line of the text. */
  function ParseInput(data: string): (r: Option<seq<Command>>)
    ensures r.Some? <==> forall k :: 0 <= k < |Lines(data)| ==> ParseCommand(Lines(data)[k]).Some?
    ensures r.Some? ==> |r.value| == |Lines(data)|
    ensures r.Some? ==> forall k :: 0 <= k < |r.value| ==> ParseCommand(Lines(data)[k]) == Some(r.value[k])
  {
    ParseAll(Lines(data))
  }

  /** `Command::cycles`. */
  function Cycles(c: Command): (n: nat)
    ensures n == 1 || n == 2
    ensures n == 2 <==> c.AddX?
  {
    match c
    case AddX(_) => 2
    case Noop => 1
  }

  /** The register's change. */
  function Delta(c: Command): int
  {
    match c
    case AddX(n) => n
    case Noop => 0
  }

  const Targets: seq<int> := [20, 60, 100, 140, 180, 220]

  /** The number of sample cycles below `c`. */
  function CountBelow(c: int): (k: nat)
    ensures k <= 6
    ensures c <= 20 ==> k == 0
    ensures forall i :: 0 <= i < k ==> Targets[i] < c
    ensures k < 6 ==> Targets[k] >= c
  {
    if c <= 20 then 0 else if c <= 60 then 1 else if c <= 100 then 2
    else if c <= 140 then 3 else if c <= 180 then 4 else if c <= 220 then 5 else 6
  }

  /** Part 1's loop state. `prev` is the command before the current one. */
  datatype Signal = Signal(x: int, signal: int, cycles: int, lastWasAdd: bool, checked: nat, prev: Option<Command>)

  /** What the loop keeps: `checked` counts the sample cycles already passed,
      where a cycle jumped over by the last `addx` does not count yet. */
  predicate SignalInvariant(s: Signal)
  {
    s.cycles >= 0
    && s.checked == CountBelow(if s.lastWasAdd then s.cycles - 1 else s.cycles)
    && (s.prev.None? ==> s.cycles == 0 && !s.lastWasAdd)
    && (s.prev.Some? ==> s.lastWasAdd == s.prev.value.AddX?)
  }

  /** Whether a sample is taken before running the next command: the cycle
      count is a sample cycle, or the last `addx` jumped over one. */
  predicate DoCheck(s: Signal)
  {
    s.cycles in Targets || (s.lastWasAdd && s.cycles - 1 in Targets)
  }

  /** The sample cycle `Targets[checked]` is the one just reached or jumped
      over, so the source's indexing never fails. */
  lemma CheckedTarget(s: Signal)
    requires SignalInvariant(s) && DoCheck(s)
    ensures s.checked < 6 && s.prev.Some?
    ensures Targets[s.checked] == s.cycles || (s.lastWasAdd && Targets[s.checked] == s.cycles - 1)
  {
  }

  /** One iteration of `solve_part1`'s loop. */
  function SignalStep(s: Signal, c: Command): (r: Signal)
    requires SignalInvariant(s)
    ensures SignalInvariant(r)
    ensures r.cycles == s.cycles + Cycles(c) && r.x == s.x + Delta(c)
    ensures r.checked == s.checked + (if DoCheck(s) then 1 else 0)
  {
    var update := if DoCheck(s) then
        CheckedTarget(s);
        var cycle := Targets[s.checked];
        var value := match s.prev.value case AddX(fix) => s.x - fix case Noop => s.x;
        (s.checked + 1, s.signal + value * cycle)
      else (s.checked, s.signal);
    Signal(s.x + Delta(c), update.1, s.cycles + Cycles(c), c.AddX?, update.0, Some(c))
  }

  function SignalRun(s: Signal, cmds: seq<Command>): (r: Signal)
    requires SignalInvariant(s)
    ensures SignalInvariant(r)
    ensures r.checked <= 6
    decreases |cmds|
  {
    if |cmds| == 0 then s else SignalRun(SignalStep(s, cmds[0]), cmds[1..])
  }

  /** `solve_part1`. It is total: the sample index stays below six and a
      sample never looks before the first command. Its sum is the signal
      strength over the sample cycles that begin no later than the last
      command: a sample is taken only before running a command, so one
      whose cycle falls inside the last command is not taken. */
  function Part1(cmds: seq<Command>): (r: int)
    ensures |cmds| == 0 ==> r == 0
    ensures |cmds| > 0 ==> r == Strength(cmds, CountBelow(CyclesOf(cmds[..|cmds| - 1]) + 1))
  {
    Part1IsStrength(cmds);
    SignalRun(Signal(1, 0, 0, false, 0, None), cmds).signal
  }

  // ----- the signal strength the puzzle asks for -----

  /** The register during 1-based cycle `t`: 1 plus the arguments of the
      commands completed before the cycle starts. */
  function XDuring(cmds: seq<Command>, t: int): int
    requires t >= 1
  {
    assert cmds[..0] == [];
    1 + DeltaOf(cmds[..Completed(cmds, t - 1, 0)])
  }

  /** The sum of `cycle * X` over the first `k` sample cycles. */
  function Strength(cmds: seq<Command>, k: nat): int
    requires k <= |Targets|
  {
    if k == 0 then 0 else Strength(cmds, k - 1) + Targets[k - 1] * XDuring(cmds, Targets[k - 1])
  }

  /** Later prefixes take at least one cycle per extra command. */
  lemma {:induction false} CyclesOfMono(cmds: seq<Command>, i: nat, j: nat)
    requires i <= j <= |cmds|
    ensures CyclesOf(cmds[..i]) + (j - i) <= CyclesOf(cmds[..j])
    decreases j - i
  {
    if i < j {
      CyclesOfMono(cmds, i, j - 1);
      PrefixStep(cmds, j - 1);
    }
  }

  /** The commands completed by `c` are the first `n` when the `n`-th ends
      no later than `c` and the next one ends after it. */
  lemma CompletedAt(cmds: seq<Command>, c: int, n: nat)
    requires n < |cmds| && CyclesOf(cmds[..n]) <= c < CyclesOf(cmds[..n + 1])
    ensures DoneBy(cmds, 0, c) && Completed(cmds, c, 0) == n
  {
    assert cmds[..0] == [];
    CyclesOfMono(cmds, 0, n);
    var m := Completed(cmds, c, 0);
    if m < n {
      CyclesOfMono(cmds, m + 1, n);
    } else if m > n {
      CyclesOfMono(cmds, n + 1, m);
    }
  }

  /** The loop state after the first `j` commands, as the puzzle reads it:
      the register, the cycles run, the command before, and the signal
      summed over the samples taken. */
  predicate Agrees(cmds: seq<Command>, j: nat, s: Signal)
  {
    j <= |cmds| && SignalInvariant(s)
    && s.x == 1 + DeltaOf(cmds[..j]) && s.cycles == CyclesOf(cmds[..j])
    && s.prev == (if j == 0 then None else Some(cmds[j - 1]))
    && s.checked <= |Targets| && s.signal == Strength(cmds, s.checked)
  }

  /** The register during cycle `t` when the `n`-th command is the one
      running then. */
  lemma XDuringAt(cmds: seq<Command>, n: nat, t: int)
    requires t >= 1 && n < |cmds| && CyclesOf(cmds[..n]) <= t - 1 < CyclesOf(cmds[..n + 1])
    ensures XDuring(cmds, t) == 1 + DeltaOf(cmds[..n])
  {
    CompletedAt(cmds, t - 1, n);
  }

  /** The value a sample before command `j` reads is the register during
      the sample cycle. */
  lemma SampleIsX(cmds: seq<Command>, j: nat, s: Signal)
    requires Agrees(cmds, j, s) && j < |cmds| && DoCheck(s)
    ensures s.checked < |Targets| && s.prev.Some?
    ensures XDuring(cmds, Targets[s.checked])
         == (match s.prev.value case AddX(fix) => s.x - fix case Noop => s.x)
  {
    CheckedTarget(s);
    var t := Targets[s.checked];
    assert t >= 20;
    var n := j - 1;
    PrefixStep(cmds, n);
    assert cmds[..n + 1] == cmds[..j];
    assert CyclesOf(cmds[..n]) <= t - 1 < CyclesOf(cmds[..n + 1]);
    XDuringAt(cmds, n, t);
  }

  /** What one step adds to the signal. */
  lemma StepSignal(s: Signal, c: Command)
    requires SignalInvariant(s)
    ensures !DoCheck(s) ==> SignalStep(s, c).signal == s.signal
    ensures DoCheck(s) ==>
      && s.checked < |Targets| && s.prev.Some?
      && SignalStep(s, c).signal == s.signal + Targets[s.checked] * (match s.prev.value case AddX(fix) => s.x - fix case Noop => s.x)
  {
    if DoCheck(s) {
      CheckedTarget(s);
    }
  }

  lemma StepAgrees(cmds: seq<Command>, j: nat, s: Signal)
    requires Agrees(cmds, j, s) && j < |cmds|
    ensures Agrees(cmds, j + 1, SignalStep(s, cmds[j]))
  {
    PrefixStep(cmds, j);
    StepSignal(s, cmds[j]);
    if DoCheck(s) {
      SampleIsX(cmds, j, s);
    }
  }

  lemma {:induction false} RunAgrees(cmds: seq<Command>, j: nat, s: Signal)
    requires Agrees(cmds, j, s)
    ensures Agrees(cmds, |cmds|, SignalRun(s, cmds[j..]))
    decreases |cmds| - j
  {
    if j < |cmds| {
      StepAgrees(cmds, j, s);
      assert cmds[j..][0] == cmds[j] && cmds[j..][1..] == cmds[j + 1..];
      RunAgrees(cmds, j + 1, SignalStep(s, cmds[j]));
    }
  }

  /** Part 1 sums the strength over the sample cycles no later than the
      start of the last command. */
  lemma Part1IsStrength(cmds: seq<Command>)
    ensures var r := SignalRun(Signal(1, 0, 0, false, 0, None), cmds);
      && r.checked <= |Targets|
      && (|cmds| == 0 ==> r.signal == 0)
      && (|cmds| > 0 ==> r.signal == Strength(cmds, CountBelow(CyclesOf(cmds[..|cmds| - 1]) + 1)))
  {
    var s0 := Signal(1, 0, 0, false, 0, None);
    assert cmds[..0] == [] && cmds[0..] == cmds;
    assert Agrees(cmds, 0, s0);
    RunAgrees(cmds, 0, s0);
    var r := SignalRun(s0, cmds);
    if |cmds| > 0 {
      FinalSamples(cmds, r);
    }
  }

  /** After the last command the samples taken are those of the cycles no
      later than the start of that command. */
  lemma FinalSamples(cmds: seq<Command>, r: Signal)
    requires |cmds| > 0 && Agrees(cmds, |cmds|, r)
    ensures r.checked == CountBelow(CyclesOf(cmds[..|cmds| - 1]) + 1)
  {
    var n := |cmds| - 1;
    PrefixStep(cmds, n);
    assert cmds[..n + 1] == cmds;
    assert r.lastWasAdd == cmds[n].AddX?;
  }

  /** The cursor at 0-based `cycle`, as `solve_part2`'s inner loop finds
      it: run commands, adding each `addx`, until the cycles needed exceed
      `cycle`, and undo the `addx` that did so. */
  function CursorFrom(cmds: seq<Command>, i: nat, cursor: int, needed: int, cycle: int): int
    requires i <= |cmds|
    decreases |cmds| - i
  {
    if i == |cmds| then cursor
    else
      var c := cmds[i];
      var needed' := needed + Cycles(c);
      if needed' > cycle then cursor else CursorFrom(cmds, i + 1, cursor + Delta(c), needed', cycle)
  }

  function Cursor(cmds: seq<Command>, cycle: int): int
  {
    CursorFrom(cmds, 0, 1, 0, cycle)
  }

  /** The cycles the first `k` commands take. */
  function CyclesOf(cmds: seq<Command>): (n: nat)
    ensures n >= |cmds|
  {
    if |cmds| == 0 then 0 else CyclesOf(cmds[..|cmds| - 1]) + Cycles(cmds[|cmds| - 1])
  }

  /** The sum of the `addx` arguments. */
  function DeltaOf(cmds: seq<Command>): int
  {
    if |cmds| == 0 then 0 else DeltaOf(cmds[..|cmds| - 1]) + Delta(cmds[|cmds| - 1])
  }

  /** The first `n` commands have all completed by 0-based `cycle`. */
  predicate DoneBy(cmds: seq<Command>, n: nat, cycle: int)
  {
    n <= |cmds| && CyclesOf(cmds[..n]) <= cycle
  }

  /** The number of commands that have completed by 0-based `cycle`: the
      longest prefix whose cycles do not exceed it. */
  function Completed(cmds: seq<Command>, cycle: int, k: nat): (n: nat)
    requires DoneBy(cmds, k, cycle)
    ensures k <= n <= |cmds|
    ensures DoneBy(cmds, n, cycle)
    ensures n < |cmds| ==> !DoneBy(cmds, n + 1, cycle)
    decreases |cmds| - k
  {
    if k == |cmds| then k
    else
      assert cmds[..k + 1][..k] == cmds[..k];
      if CyclesOf(cmds[..k + 1]) > cycle then k else Completed(cmds, cycle, k + 1)
  }

  lemma {:induction false} CursorFromIsPrefixSum(cmds: seq<Command>, i: nat, cycle: int)
    requires i <= |cmds| && CyclesOf(cmds[..i]) <= cycle
    ensures CursorFrom(cmds, i, 1 + DeltaOf(cmds[..i]), CyclesOf(cmds[..i]), cycle)
         == 1 + DeltaOf(cmds[..Completed(cmds, cycle, i)])
    decreases |cmds| - i
  {
    if i < |cmds| {
      if CyclesOf(cmds[..i + 1]) <= cycle {
        CursorFromIsPrefixSum(cmds, i + 1, cycle);
        CursorContinues(cmds, i, cycle);
      } else {
        CursorStops(cmds, i, cycle);
      }
    }
  }

  /** The command at `i` does not complete by `cycle`: the cursor stays. */
  lemma CursorStops(cmds: seq<Command>, i: nat, cycle: int)
    requires i < |cmds| && CyclesOf(cmds[..i]) <= cycle < CyclesOf(cmds[..i + 1])
    ensures CursorFrom(cmds, i, 1 + DeltaOf(cmds[..i]), CyclesOf(cmds[..i]), cycle)
         == 1 + DeltaOf(cmds[..Completed(cmds, cycle, i)])
  {
    PrefixStep(cmds, i);
  }

  /** The command at `i` completes by `cycle`: the cursor moves on with it. */
  lemma CursorContinues(cmds: seq<Command>, i: nat, cycle: int)
    requires i < |cmds| && CyclesOf(cmds[..i + 1]) <= cycle
    requires CursorFrom(cmds, i + 1, 1 + DeltaOf(cmds[..i + 1]), CyclesOf(cmds[..i + 1]), cycle)
         == 1 + DeltaOf(cmds[..Completed(cmds, cycle, i + 1)])
    ensures CyclesOf(cmds[..i]) <= cycle
    ensures CursorFrom(cmds, i, 1 + DeltaOf(cmds[..i]), CyclesOf(cmds[..i]), cycle)
         == 1 + DeltaOf(cmds[..Completed(cmds, cycle, i)])
  {
    PrefixStep(cmds, i);
    CompletedStep(cmds, i, cycle);
    CursorFromStep(cmds, i, 1 + DeltaOf(cmds[..i]), CyclesOf(cmds[..i]), cycle);
  }

  lemma CompletedStep(cmds: seq<Command>, i: nat, cycle: int)
    requires i < |cmds| && CyclesOf(cmds[..i + 1]) <= cycle
    ensures CyclesOf(cmds[..i]) <= cycle
    ensures Completed(cmds, cycle, i) == Completed(cmds, cycle, i + 1)
  {
    PrefixStep(cmds, i);
  }

  lemma CursorFromStep(cmds: seq<Command>, i: nat, cursor: int, needed: int, cycle: int)
    requires i < |cmds|
    ensures CursorFrom(cmds, i, cursor, needed, cycle) ==
      if needed + Cycles(cmds[i]) > cycle then cursor
      else CursorFrom(cmds, i + 1, cursor + Delta(cmds[i]), needed + Cycles(cmds[i]), cycle)
  {
  }

  /** One more command adds its cycles and its argument. */
  lemma PrefixStep(cmds: seq<Command>, i: nat)
    requires i < |cmds|
    ensures CyclesOf(cmds[..i + 1]) == CyclesOf(cmds[..i]) + Cycles(cmds[i])
    ensures DeltaOf(cmds[..i + 1]) == DeltaOf(cmds[..i]) + Delta(cmds[i])
  {
    assert cmds[..i + 1][..i] == cmds[..i];
  }

  /** The cursor at 0-based `cycle` is 1 plus the `addx` arguments of the
      commands that have completed by then. */
  lemma CursorIsCompletedSum(cmds: seq<Command>, cycle: nat)
    ensures Cursor(cmds, cycle) == 1 + DeltaOf(cmds[..Completed(cmds, cycle, 0)])
  {
    assert cmds[..0] == [];
    CursorFromIsPrefixSum(cmds, 0, cycle);
  }

  const Cols := 40
  const Rows := 6

  /** The sprite covers the cursor and its two neighbours. */
  predicate Lit(cmds: seq<Command>, cycle: nat)
  {
    Abs(cycle % Cols - Cursor(cmds, cycle)) <= 1
  }

  type Screen = seq<seq<char>>

  predicate IsScreen(screen: Screen)
  {
    |screen| == Rows && forall r :: 0 <= r < Rows ==> |screen[r]| == Cols
  }

  /** The screen before drawing: every pixel dark. */
  function Blank(): (screen: Screen)
    ensures IsScreen(screen)
    ensures forall r, c :: 0 <= r < Rows && 0 <= c < Cols ==> screen[r][c] == '.'
  {
    seq(Rows, r => seq(Cols, c => '.'))
  }

  /** `solve_part2`'s drawing loop over cycles `cycle..240`: the pixel at row
      `cycle / 40` and column `cycle % 40` is lit when the sprite covers it. */
  function DrawFrom(cmds: seq<Command>, screen: Screen, cycle: nat): (r: Screen)
    requires IsScreen(screen) && cycle <= Rows * Cols
    ensures IsScreen(r)
    ensures forall row, col :: 0 <= row < Rows && 0 <= col < Cols && row * Cols + col < cycle ==>
      r[row][col] == screen[row][col]
    decreases Rows * Cols - cycle
  {
    if cycle == Rows * Cols then screen
    else
      var row, col := cycle / Cols, cycle % Cols;
      var next := if Lit(cmds, cycle) then screen[row := screen[row][col := '#']] else screen;
      DrawFrom(cmds, next, cycle + 1)
  }

  /** Each pixel is drawn by exactly one cycle, `row * 40 + col`. */
  lemma {:induction false} DrawnPixels(cmds: seq<Command>, screen: Screen, cycle: nat, row: nat, col: nat)
    requires IsScreen(screen) && cycle <= Rows * Cols && row < Rows && col < Cols
    requires cycle <= row * Cols + col
    ensures DrawFrom(cmds, screen, cycle)[row][col]
         == if Lit(cmds, row * Cols + col) then '#' else screen[row][col]
    decreases Rows * Cols - cycle
  {
    if cycle < Rows * Cols {
      var r, c := cycle / Cols, cycle % Cols;
      var next := if Lit(cmds, cycle) then screen[r := screen[r][c := '#']] else screen;
      if cycle == row * Cols + col {
        assert r == row && c == col;
        assert next[row][col] == if Lit(cmds, cycle) then '#' else screen[row][col];
      } else {
        assert r != row || c != col;
        assert next[row][col] == screen[row][col];
        DrawnPixels(cmds, next, cycle + 1, row, col);
      }
    }
  }

  /** The picture part 2 prints. */
  function Picture(cmds: seq<Command>): (screen: Screen)
    ensures IsScreen(screen)
  {
    DrawFrom(cmds, Blank(), 0)
  }

  /** Pixel (row, col) of the picture is lit exactly when the cursor at
      cycle `row * 40 + col` is within one of `col`. */
  lemma PictureLit(cmds: seq<Command>, row: nat, col: nat)
    requires row < Rows && col < Cols
    ensures Picture(cmds)[row][col] == '#' <==> Abs(col - Cursor(cmds, row * Cols + col)) <= 1
  {
    DrawnPixels(cmds, Blank(), 0, row, col);
    PixelCycle(row, col);
  }

  lemma {:induction false} PixelCycle(row: nat, col: nat)
    requires col < Cols
    ensures (row * Cols + col) / Cols == row && (row * Cols + col) % Cols == col
  {
    if row > 0 {
      PixelCycle(row - 1, col);
      assert row * Cols + col == (row - 1) * Cols + col + Cols;
    }
  }

  /** `solve_part2`: the answer is always 0; the picture, which the source
      prints, is returned beside it. Pixel (row, col) is lit exactly when
      the cursor at cycle `row * 40 + col` is within one of `col`. */
  function Part2(cmds: seq<Command>): (r: (int, Screen))
    ensures r.0 == 0 && IsScreen(r.1)
    ensures forall row, col :: 0 <= row < Rows && 0 <= col < Cols ==>
      (r.1[row][col] == '#' <==> Abs(col - Cursor(cmds, row * Cols + col)) <= 1)
  {
    forall row: nat, col: nat | row < Rows && col < Cols
      ensures Picture(cmds)[row][col] == '#' <==> Abs(col - Cursor(cmds, row * Cols + col)) <= 1
    {
      PictureLit(cmds, row, col);
    }
    (0, Picture(cmds))
  }
}
