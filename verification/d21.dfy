/** Monkey math: monkeys that shout a number or the result of an operation
    on two other monkeys' numbers; evaluating the root, folding every
    sub-expression the human does not take part in, and solving root's
    equation for the human's number by inverting one operation at a time. */
module MonkeyMath {
  import opened Common
  import opened Text

  datatype Op = Add | Sub | Mul | Div

  datatype Job = Number(n: int) | Operation(op: Op, left: string, right: string)

  /** `MonkeyPack`: each monkey's job by name. */
  type Pack = map<string, Job>

  /** Ranks that decrease from a monkey to the two it listens to, so the
      references form no cycle; every name a job mentions is in the pack
      (the source's `unwrap` on a missing name panics). */
  type Rank = map<string, nat>

  const Root: string := "root"
  const Human: string := "humn"

  // ----- parsing -----

  /** `Operation::from`; any other text is `unreachable!`. */
  function ParseOp(s: string): Option<Op>
  {
    if s == "+" then Some(Add)
    else if s == "-" then Some(Sub)
    else if s == "*" then Some(Mul)
    else if s == "/" then Some(Div)
    else None
  }

  function OpChar(op: Op): (c: char)
    ensures c !in "()=x"
  {
    match op
    case Add => '+'
    case Sub => '-'
    case Mul => '*'
    case Div => '/'
  }

  lemma ParseOpChar(op: Op)
    ensures ParseOp([OpChar(op)]) == Some(op)
  {
  }

  /** `Monkey::from`: the name before the first ": "; a rest containing a
      space is "left op right", any other rest a signed number. */
  function ParseMonkey(line: string): (r: Option<(string, Job)>)
    ensures r.Some? ==> SplitOnceOn(line, ": ").Some? && r.value.0 == SplitOnceOn(line, ": ").value.0
    ensures r.Some? && r.value.1.Number? ==>
      var rest := SplitOnceOn(line, ": ").value.1;
      ' ' !in rest && ParseInt(rest) == Some(r.value.1.n)
    ensures r.Some? && r.value.1.Operation? ==>
      var ws := Words(SplitOnceOn(line, ": ").value.1);
      |ws| >= 3 && r.value.1.left == ws[0] && ParseOp(ws[1]) == Some(r.value.1.op) && r.value.1.right == ws[2]
    ensures SplitOnceOn(line, ": ").None? ==> r.None?
  {
    match SplitOnceOn(line, ": ")
    case None => None
    case Some((name, rest)) =>
      if ' ' in rest then
        var ws := Words(rest);
        if |ws| < 3 then None
        else
          match ParseOp(ws[1])
          case None => None
          case Some(op) => Some((name, Operation(op, ws[0], ws[2])))
      else
        match ParseInt(rest)
        case None => None
        case Some(n) => Some((name, Number(n)))
  }

  /** A monkey's line as the puzzle writes it. */
  function ShowMonkey(name: string, job: Job): string
  {
    match job
    case Number(n) => name + ": " + ShowInt(n)
    case Operation(op, l, r) => name + ": " + l + " " + [OpChar(op)] + " " + r
  }

  lemma OperationWords(l: string, c: char, r: string)
    requires IsWord(l) && IsWord(r) && !IsSpace(c)
    ensures Words(l + " " + [c] + " " + r) == [l, [c], r]
  {
    assert l + " " + [c] + " " + r == l + [' '] + ([c] + [' '] + r);
    WordsConsWord(l, [c] + [' '] + r);
    WordsConsWord([c], r);
    WordsOfWord(r);
  }

  /** Reading back a printed monkey line gives the monkey, when the name
      has no colon and the names an operation mentions are words. */
  lemma ParseShowMonkey(name: string, job: Job)
    requires ':' !in name
    requires job.Operation? ==> IsWord(job.left) && IsWord(job.right)
    ensures ParseMonkey(ShowMonkey(name, job)) == Some((name, job))
  {
    match job
    case Number(n) =>
      assert ShowMonkey(name, job) == name + ": " + ShowInt(n);
      SplitOnceOnJoin(name, ShowInt(n), ": ");
      assert ' ' !in ShowInt(n);
      ParseShowInt(n);
    case Operation(op, l, r) =>
      var rest := l + " " + [OpChar(op)] + " " + r;
      assert ShowMonkey(name, job) == name + ": " + rest;
      SplitOnceOnJoin(name, rest, ": ");
      assert rest[|l|] == ' ';
      OperationWords(l, OpChar(op), r);
      ParseOpChar(op);
  }

  /** `MonkeyPack::from_monkeys`: later monkeys of the same name replace
      earlier ones, as collecting into a `HashMap` does. */
  function FromMonkeys(ms: seq<(string, Job)>): (p: Pack)
    ensures forall k :: k in p <==> exists i :: 0 <= i < |ms| && ms[i].0 == k
  {
    if |ms| == 0 then map[]
    else
      var p := FromMonkeys(ms[..|ms| - 1]);
      assert forall i :: 0 <= i < |ms| - 1 ==> ms[..|ms| - 1][i] == ms[i];
      p[ms[|ms| - 1].0 := ms[|ms| - 1].1]
  }

  /** A name's job is the one on its last line. */
  lemma {:induction false} FromMonkeysLast(ms: seq<(string, Job)>, i: nat)
    requires i < |ms|
    requires forall j :: i < j < |ms| ==> ms[j].0 != ms[i].0
    ensures ms[i].0 in FromMonkeys(ms) && FromMonkeys(ms)[ms[i].0] == ms[i].1
    decreases |ms|
  {
    if i < |ms| - 1 {
      var init := ms[..|ms| - 1];
      FromMonkeysLast(init, i);
    }
  }

  function ParseMonkeys(lines: seq<string>): (r: Option<seq<(string, Job)>>)
    ensures r.Some? <==> forall k :: 0 <= k < |lines| ==> ParseMonkey(lines[k]).Some?
    ensures r.Some? ==> |r.value| == |lines|
    ensures r.Some? ==> forall k :: 0 <= k < |lines| ==> ParseMonkey(lines[k]) == Some(r.value[k])
  {
    if |lines| == 0 then Some([])
    else
      assert forall k :: 1 <= k < |lines| ==> lines[k] == lines[1..][k - 1];
      match (ParseMonkey(lines[0]), ParseMonkeys(lines[1..]))
      case (Some(m), Some(rest)) => Some([m] + rest)
      case _ => None
  }

  /** `parse_input`: one monkey per line. */
  function ParseInput(data: string): (r: Option<seq<(string, Job)>>)
    ensures r.Some? <==> forall k :: 0 <= k < |Lines(data)| ==> ParseMonkey(Lines(data)[k]).Some?
    ensures r.Some? ==> |r.value| == |Lines(data)|
    ensures r.Some? ==> forall k :: 0 <= k < |r.value| ==> ParseMonkey(Lines(data)[k]) == Some(r.value[k])
  {
    ParseMonkeys(Lines(data))
  }

  // ----- well-founded packs -----

  predicate ChildrenBelow(pack: Pack, rank: Rank, name: string)
    requires name in pack && name in rank
  {
    pack[name].Operation? ==>
      pack[name].left in pack && pack[name].right in pack &&
      pack[name].left in rank && pack[name].right in rank &&
      rank[pack[name].left] < rank[name] && rank[pack[name].right] < rank[name]
  }

  /** The ranked names are monkeys whose operands are ranked lower. They
      need cover only what an evaluation reaches: every name below a ranked
      one is ranked, and a monkey outside the ranks (one the root never
      reaches) may mention missing names or take part in a cycle. */
  predicate Ranked(pack: Pack, rank: Rank)
  {
    forall name :: name in rank ==> name in pack && ChildrenBelow(pack, rank, name)
  }

  // ----- evaluation -----

  /** One operation with Rust's `i64` meaning: `/` truncates toward zero
      and panics on a zero divisor. */
  function Apply(op: Op, a: int, b: int): Option<int>
  {
    match op
    case Add => Some(a + b)
    case Sub => Some(a - b)
    case Mul => Some(a * b)
    case Div => if b == 0 then None else Some(TruncDiv(a, b))
  }

  /** `monkey_shout`; None where the source divides by zero. A number job
      is shouted as it is, and an operation fails only where one of its
      operands fails or it divides by zero (see `ShoutFailsIff`). */
  function Shout(pack: Pack, rank: Rank, name: string): (v: Option<int>)
    requires Ranked(pack, rank) && name in rank
    ensures pack[name].Number? ==> v == Some(pack[name].n)
    ensures v.None? ==> pack[name].Operation?
    decreases rank[name]
  {
    match pack[name]
    case Number(n) => Some(n)
    case Operation(op, l, r) =>
      match (Shout(pack, rank, l), Shout(pack, rank, r))
      case (Some(a), Some(b)) => Apply(op, a, b)
      case _ => None
  }

  /** `solve_part1`: root's number; a root with a number job shouts it,
      and folding the human-free operations, as part 2 does first, does
      not change it. */
  function Part1(pack: Pack, rank: Rank): (r: Option<int>)
    requires Ranked(pack, rank) && Root in rank
    ensures pack[Root].Number? ==> r == Some(pack[Root].n)
    ensures HumanLeaf(pack) && Normalize(pack, rank).Some? ==> r == Shout(Normalize(pack, rank).value, rank, Root)
  {
    if HumanLeaf(pack) && Normalize(pack, rank).Some? then
      NormalizeFolds(pack, rank, Normalize(pack, rank).value);
      FoldedShout(pack, Normalize(pack, rank).value, rank, Root);
      Shout(pack, rank, Root)
    else Shout(pack, rank, Root)
  }

  /** Only what the root reaches matters: a monkey that listens to itself
      and to a name no line defines leaves part 1 alone when the root never
      asks for it. */
  lemma UnreachedIgnored(pack: Pack, rank: Rank)
    requires pack == map[Root := Operation(Add, "a", "b"), "a" := Number(2), "b" := Number(3),
                         "loop" := Operation(Mul, "loop", "gone")]
    requires rank == map[Root := 1, "a" := 0, "b" := 0]
    ensures Ranked(pack, rank) && Root in rank
    ensures "gone" !in pack && pack["loop"] == Operation(Mul, "loop", "gone")
    ensures Part1(pack, rank) == Some(5)
  {
    assert Root != "a" && Root != "b" && Root != "loop" && "a" != "b";
    assert "loop" != "a" && "loop" != "b";
    assert "gone" != Root && "gone" != "a" && "gone" != "b" && "gone" != "loop";
    assert Ranked(pack, rank);
    assert Shout(pack, rank, "a") == Some(2) && Shout(pack, rank, "b") == Some(3);
  }

  // ----- which monkeys depend on the human -----

  /** `is_human_affected`: a number job counts when its monkey is the
      human. */
  function Affected(pack: Pack, rank: Rank, name: string): (r: bool)
    requires Ranked(pack, rank) && name in rank
    ensures r ==> Human in rank && pack[Human].Number?
    ensures name == Human && pack[name].Number? ==> r
    decreases rank[name]
  {
    match pack[name]
    case Number(_) => name == Human
    case Operation(_, l, r) => Affected(pack, rank, l) || Affected(pack, rank, r)
  }

  predicate IsChild(pack: Pack, a: string, b: string)
    requires a in pack
  {
    pack[a].Operation? && (b == pack[a].left || b == pack[a].right)
  }

  /** A chain of listeners: each monkey of `p` has an operation job naming
      the next one. */
  predicate Chain(pack: Pack, p: seq<string>)
  {
    |p| >= 1 && (forall k :: 0 <= k < |p| ==> p[k] in pack) &&
    forall k :: 0 <= k < |p| - 1 ==> IsChild(pack, p[k], p[k + 1])
  }

  /** A monkey dividing a number by an operand that shouts 0, where the
      source's `/` panics. */
  predicate DividesByZero(pack: Pack, rank: Rank, name: string)
    requires Ranked(pack, rank) && name in rank
  {
    pack[name].Operation? && pack[name].op == Div &&
    Shout(pack, rank, pack[name].left).Some? && Shout(pack, rank, pack[name].right) == Some(0)
  }

  /** A monkey's shout fails exactly when a chain of listeners leads from it
      to a division by zero. */
  lemma ShoutFailsIff(pack: Pack, rank: Rank, name: string)
    requires Ranked(pack, rank) && name in rank
    ensures Shout(pack, rank, name).None? <==>
      exists p :: Chain(pack, p) && p[0] == name && p[|p| - 1] in rank && DividesByZero(pack, rank, p[|p| - 1])
  {
    if Shout(pack, rank, name).None? {
      var p := FailingChain(pack, rank, name);
    }
    if exists p :: Chain(pack, p) && p[0] == name && p[|p| - 1] in rank && DividesByZero(pack, rank, p[|p| - 1]) {
      var p :| Chain(pack, p) && p[0] == name && p[|p| - 1] in rank && DividesByZero(pack, rank, p[|p| - 1]);
      ChainFails(pack, rank, p);
    }
  }

  lemma {:induction false} FailingChain(pack: Pack, rank: Rank, name: string) returns (p: seq<string>)
    requires Ranked(pack, rank) && name in rank && Shout(pack, rank, name).None?
    ensures Chain(pack, p) && p[0] == name && p[|p| - 1] in rank && DividesByZero(pack, rank, p[|p| - 1])
    decreases rank[name]
  {
    var l, r := pack[name].left, pack[name].right;
    if Shout(pack, rank, l).None? {
      var q := FailingChain(pack, rank, l);
      p := [name] + q;
      assert forall k :: 0 < k < |p| ==> p[k] == q[k - 1];
    } else if Shout(pack, rank, r).None? {
      var q := FailingChain(pack, rank, r);
      p := [name] + q;
      assert forall k :: 0 < k < |p| ==> p[k] == q[k - 1];
    } else {
      p := [name];
    }
  }

  lemma {:induction false} ChainFails(pack: Pack, rank: Rank, p: seq<string>)
    requires Ranked(pack, rank) && Chain(pack, p) && p[0] in rank
    requires p[|p| - 1] in rank && DividesByZero(pack, rank, p[|p| - 1])
    ensures Shout(pack, rank, p[0]).None?
    decreases |p|
  {
    if |p| > 1 {
      var q := p[1..];
      assert forall k :: 0 <= k < |q| ==> q[k] == p[k + 1];
      assert IsChild(pack, p[0], p[1]) && ChildrenBelow(pack, rank, p[0]);
      ChainFails(pack, rank, q);
    }
  }

  /** The ranks only witness that the references have no cycle: two
      rankings give every monkey both rank the same shout. */
  lemma {:induction false} ShoutRankFree(pack: Pack, rank1: Rank, rank2: Rank, name: string)
    requires Ranked(pack, rank1) && Ranked(pack, rank2) && name in rank1 && name in rank2
    ensures Shout(pack, rank1, name) == Shout(pack, rank2, name)
    decreases rank1[name]
  {
    if pack[name].Operation? {
      assert ChildrenBelow(pack, rank1, name) && ChildrenBelow(pack, rank2, name);
      ShoutRankFree(pack, rank1, rank2, pack[name].left);
      ShoutRankFree(pack, rank1, rank2, pack[name].right);
    }
  }

  /** A chain of listeners ending at the human, whose job is a number. */
  predicate HumanPath(pack: Pack, p: seq<string>)
  {
    |p| >= 1 && (forall k :: 0 <= k < |p| ==> p[k] in pack) &&
    p[|p| - 1] == Human && pack[Human].Number? &&
    forall k :: 0 <= k < |p| - 1 ==> IsChild(pack, p[k], p[k + 1])
  }

  lemma {:induction false} AffectedHasPath(pack: Pack, rank: Rank, name: string) returns (p: seq<string>)
    requires Ranked(pack, rank) && name in rank && Affected(pack, rank, name)
    ensures HumanPath(pack, p) && p[0] == name
    decreases rank[name]
  {
    match pack[name]
    case Number(_) =>
      p := [name];
    case Operation(_, l, r) =>
      var c := if Affected(pack, rank, l) then l else r;
      var q := AffectedHasPath(pack, rank, c);
      p := [name] + q;
      assert forall k :: 0 < k < |p| ==> p[k] == q[k - 1];
  }

  lemma {:induction false} PathAffected(pack: Pack, rank: Rank, p: seq<string>)
    requires Ranked(pack, rank) && HumanPath(pack, p) && p[0] in rank
    ensures Affected(pack, rank, p[0])
    decreases |p|
  {
    if |p| > 1 {
      var q := p[1..];
      assert forall k :: 0 <= k < |q| ==> q[k] == p[k + 1];
      assert IsChild(pack, p[0], p[1]) && ChildrenBelow(pack, rank, p[0]);
      PathAffected(pack, rank, q);
    }
  }

  /** A monkey depends on the human exactly when a chain of listeners
      leads from it to the human. */
  lemma AffectedIffPath(pack: Pack, rank: Rank, name: string)
    requires Ranked(pack, rank) && name in rank
    ensures Affected(pack, rank, name) <==> exists p :: HumanPath(pack, p) && p[0] == name
  {
    if Affected(pack, rank, name) {
      var p := AffectedHasPath(pack, rank, name);
    }
    if exists p :: HumanPath(pack, p) && p[0] == name {
      var p :| HumanPath(pack, p) && p[0] == name;
      PathAffected(pack, rank, p);
    }
  }

  // ----- folding what the human does not affect -----

  /** The human's job is a number (true of every puzzle input). */
  predicate HumanLeaf(pack: Pack)
  {
    Human in pack ==> pack[Human].Number?
  }

  /** Giving one monkey a number job keeps the ranks valid. */
  lemma SetNumberRanked(pack: Pack, rank: Rank, name: string, v: int)
    requires Ranked(pack, rank) && name in pack
    ensures Ranked(pack[name := Number(v)], rank)
  {
    var np := pack[name := Number(v)];
    forall m | m in rank
      ensures m in np && ChildrenBelow(np, rank, m)
    {
      assert m in pack;
    }
  }

  /** The monkeys that still have an operation job. */
  function OpNames(pack: Pack): set<string>
  {
    set n | n in pack && pack[n].Operation?
  }

  /** `reduce_once`: below `name`, replace the first operation (left
      before right) whose two operands are both free of the human by the
      number it shouts; `false` when there is none. Operations with the
      human on both sides are not entered. `None` is a panic of the
      evaluation (a zero divisor). */
  function ReduceOnce(pack: Pack, rank: Rank, name: string): (r: Option<(bool, Pack)>)
    requires Ranked(pack, rank) && name in rank
    ensures r.Some? ==> Ranked(r.value.1, rank) && r.value.1.Keys == pack.Keys
    decreases rank[name]
  {
    match pack[name]
    case Number(_) => Some((false, pack))
    case Operation(_, l, r) =>
      var la := Affected(pack, rank, l);
      var ra := Affected(pack, rank, r);
      if la && ra then Some((false, pack))
      else if la || ra then
        match ReduceOnce(pack, rank, l)
        case None => None
        case Some((true, p)) => Some((true, p))
        case Some((false, p)) => ReduceOnce(p, rank, r)
      else
        match Shout(pack, rank, name)
        case None => None
        case Some(v) =>
          SetNumberRanked(pack, rank, name, v);
          Some((true, pack[name := Number(v)]))
  }

  /** A step that reports no reduction leaves the pack as it was; one that
      reports a reduction turns exactly one operation into a number. */
  lemma {:induction false} ReduceShrinks(pack: Pack, rank: Rank, name: string, b: bool, p: Pack)
    requires Ranked(pack, rank) && name in rank
    requires ReduceOnce(pack, rank, name) == Some((b, p))
    ensures !b ==> p == pack
    ensures b ==> exists n :: n in OpNames(pack) && OpNames(p) == OpNames(pack) - {n}
    ensures b ==> OpNames(p) < OpNames(pack)
    decreases rank[name]
  {
    match pack[name]
    case Number(_) =>
    case Operation(_, l, r) =>
      var la := Affected(pack, rank, l);
      var ra := Affected(pack, rank, r);
      if la && ra {
      } else if la || ra {
        var first := ReduceOnce(pack, rank, l);
        var (b1, p1) := first.value;
        ReduceShrinks(pack, rank, l, b1, p1);
        if !b1 {
          ReduceShrinks(pack, rank, r, b, p);
        }
      } else {
        var v := Shout(pack, rank, name).value;
        assert p == pack[name := Number(v)];
        assert OpNames(p) == OpNames(pack) - {name};
      }
  }

  /** The monkey `n` was an operation free of the human and now shouts the
      number that operation gave. */
  predicate FoldedAt(pack: Pack, rank: Rank, np: Pack, n: string)
    requires Ranked(pack, rank) && n in rank && n in np
  {
    pack[n].Operation? && !Affected(pack, rank, n) &&
    Shout(pack, rank, n).Some? && np[n] == Number(Shout(pack, rank, n).value)
  }

  /** `np` is `pack` with some human-free operations folded to their
      values, and every other job unchanged. */
  predicate Folded(pack: Pack, np: Pack, rank: Rank)
    requires Ranked(pack, rank)
  {
    Ranked(np, rank) && np.Keys == pack.Keys &&
    forall n :: n in pack ==> np[n] == pack[n] || (n in rank && FoldedAt(pack, rank, np, n))
  }

  lemma FoldedRefl(pack: Pack, rank: Rank)
    requires Ranked(pack, rank)
    ensures Folded(pack, pack, rank)
  {
  }

  lemma FoldedHumanLeaf(pack: Pack, np: Pack, rank: Rank)
    requires Ranked(pack, rank) && Folded(pack, np, rank) && HumanLeaf(pack)
    ensures HumanLeaf(np)
  {
    if Human in np {
      assert Human in pack;
    }
  }

  /** Folding changes no monkey's number. */
  lemma {:induction false} FoldedShout(pack: Pack, np: Pack, rank: Rank, m: string)
    requires Ranked(pack, rank) && Folded(pack, np, rank) && m in rank
    ensures Shout(np, rank, m) == Shout(pack, rank, m)
    decreases rank[m]
  {
    if np[m] == pack[m] {
      match pack[m]
      case Number(_) =>
      case Operation(_, l, r) =>
        FoldedShout(pack, np, rank, l);
        FoldedShout(pack, np, rank, r);
    }
  }

  /** Folding changes no monkey's dependence on the human. */
  lemma {:induction false} FoldedAffected(pack: Pack, np: Pack, rank: Rank, m: string)
    requires Ranked(pack, rank) && Folded(pack, np, rank) && HumanLeaf(pack) && m in rank
    ensures Affected(np, rank, m) == Affected(pack, rank, m)
    decreases rank[m]
  {
    if np[m] == pack[m] {
      match pack[m]
      case Number(_) =>
      case Operation(_, l, r) =>
        FoldedAffected(pack, np, rank, l);
        FoldedAffected(pack, np, rank, r);
    } else {
      assert FoldedAt(pack, rank, np, m);
      assert m != Human;
    }
  }

  lemma FoldedTrans(a: Pack, b: Pack, c: Pack, rank: Rank)
    requires Ranked(a, rank) && Folded(a, b, rank) && HumanLeaf(a)
    requires Folded(b, c, rank)
    ensures Folded(a, c, rank)
  {
    forall n | n in a
      ensures c[n] == a[n] || FoldedAt(a, rank, c, n)
    {
      if c[n] != b[n] {
        assert FoldedAt(b, rank, c, n);
        assert b[n] == a[n];
        FoldedAffected(a, b, rank, n);
        FoldedShout(a, b, rank, n);
      }
    }
  }

  lemma FoldedOne(pack: Pack, rank: Rank, name: string, v: int)
    requires Ranked(pack, rank) && name in rank && pack[name].Operation?
    requires !Affected(pack, rank, name) && Shout(pack, rank, name) == Some(v)
    ensures Folded(pack, pack[name := Number(v)], rank)
  {
    SetNumberRanked(pack, rank, name, v);
  }

  /** One reduction step is a folding. */
  lemma {:induction false} ReduceFolds(pack: Pack, rank: Rank, name: string, b: bool, p: Pack)
    requires Ranked(pack, rank) && name in rank
    requires ReduceOnce(pack, rank, name) == Some((b, p))
    ensures Folded(pack, p, rank)
    decreases rank[name]
  {
    match pack[name]
    case Number(_) =>
    case Operation(_, l, r) =>
      var la := Affected(pack, rank, l);
      var ra := Affected(pack, rank, r);
      if la && ra {
      } else if la || ra {
        var (b1, p1) := ReduceOnce(pack, rank, l).value;
        ReduceFolds(pack, rank, l, b1, p1);
        if !b1 {
          ReduceShrinks(pack, rank, l, b1, p1);
          ReduceFolds(pack, rank, r, b, p);
        }
      } else {
        FoldedOne(pack, rank, name, Shout(pack, rank, name).value);
      }
  }

  /** `normalize`: reduce below the root until nothing is left to fold. */
  function Normalize(pack: Pack, rank: Rank): (r: Option<Pack>)
    requires Ranked(pack, rank) && Root in rank
    ensures r.Some? ==> Ranked(r.value, rank) && r.value.Keys == pack.Keys
    decreases OpNames(pack)
  {
    match ReduceOnce(pack, rank, Root)
    case None => None
    case Some((reduced, p)) =>
      if reduced then
        ReduceShrinks(pack, rank, Root, reduced, p);
        Normalize(p, rank)
      else Some(p)
  }

  /** The normalized pack is a folding of the input, and a further
      reduction finds nothing. */
  lemma {:induction false} NormalizeFolds(pack: Pack, rank: Rank, np: Pack)
    requires Ranked(pack, rank) && Root in rank && HumanLeaf(pack)
    requires Normalize(pack, rank) == Some(np)
    ensures Folded(pack, np, rank) && HumanLeaf(np)
    ensures ReduceOnce(np, rank, Root) == Some((false, np))
    decreases OpNames(pack)
  {
    var (b, p) := ReduceOnce(pack, rank, Root).value;
    ReduceShrinks(pack, rank, Root, b, p);
    ReduceFolds(pack, rank, Root, b, p);
    FoldedHumanLeaf(pack, p, rank);
    if b {
      NormalizeFolds(p, rank, np);
      FoldedTrans(pack, p, np, rank);
    }
  }

  /** Below a fully reduced operation with the human on one side only, the
      other side is a number and the human's side is fully reduced too. */
  lemma IrreducibleSibling(pack: Pack, rank: Rank, name: string)
    requires Ranked(pack, rank) && name in rank && pack[name].Operation?
    requires ReduceOnce(pack, rank, name) == Some((false, pack))
    requires Affected(pack, rank, pack[name].left) != Affected(pack, rank, pack[name].right)
    ensures ReduceOnce(pack, rank, pack[name].left) == Some((false, pack))
    ensures ReduceOnce(pack, rank, pack[name].right) == Some((false, pack))
    ensures !Affected(pack, rank, pack[name].left) ==> pack[pack[name].left].Number?
    ensures !Affected(pack, rank, pack[name].right) ==> pack[pack[name].right].Number?
  {
    var l, r := pack[name].left, pack[name].right;
    var (b1, p1) := ReduceOnce(pack, rank, l).value;
    ReduceShrinks(pack, rank, l, b1, p1);
    if !Affected(pack, rank, l) && pack[l].Operation? {
      UnaffectedReduces(pack, rank, l);
    }
    if !Affected(pack, rank, r) && pack[r].Operation? {
      UnaffectedReduces(pack, rank, r);
    }
  }

  /** Reducing a human-free operation always folds something (or panics). */
  lemma UnaffectedReduces(pack: Pack, rank: Rank, name: string)
    requires Ranked(pack, rank) && name in rank && !Affected(pack, rank, name)
    requires pack[name].Operation?
    ensures ReduceOnce(pack, rank, name) != Some((false, pack))
  {
  }

  /** The pack with the human's number set to `x`. */
  function SetHuman(pack: Pack, x: int): Pack
  {
    pack[Human := Number(x)]
  }

  /** A monkey free of the human shouts the same whatever the human's
      number. */
  lemma {:induction false} UnaffectedIgnoresHuman(pack: Pack, rank: Rank, m: string, x: int)
    requires Ranked(pack, rank) && Human in pack && pack[Human].Number?
    requires m in rank && !Affected(pack, rank, m)
    ensures Ranked(SetHuman(pack, x), rank)
    ensures Shout(SetHuman(pack, x), rank, m) == Shout(pack, rank, m)
    decreases rank[m]
  {
    SetNumberRanked(pack, rank, Human, x);
    match pack[m]
    case Number(_) =>
    case Operation(_, l, r) =>
      UnaffectedIgnoresHuman(pack, rank, l, x);
      UnaffectedIgnoresHuman(pack, rank, r, x);
  }

  /** A folded pack agrees with the original on every monkey's number,
      whatever number the human is given. */
  lemma {:induction false} FoldedSetHuman(pack: Pack, np: Pack, rank: Rank, x: int, m: string)
    requires Ranked(pack, rank) && Folded(pack, np, rank)
    requires Human in pack && pack[Human].Number? && m in rank
    ensures Ranked(SetHuman(pack, x), rank) && Ranked(SetHuman(np, x), rank)
    ensures Shout(SetHuman(np, x), rank, m) == Shout(SetHuman(pack, x), rank, m)
    decreases rank[m]
  {
    SetNumberRanked(pack, rank, Human, x);
    SetNumberRanked(np, rank, Human, x);
    if m != Human {
      if np[m] == pack[m] {
        match pack[m]
        case Number(_) =>
        case Operation(_, l, r) =>
          FoldedSetHuman(pack, np, rank, x, l);
          FoldedSetHuman(pack, np, rank, x, r);
      } else {
        assert FoldedAt(pack, rank, np, m);
        UnaffectedIgnoresHuman(pack, rank, m, x);
      }
    }
  }

  // ----- solving for the human -----

  /** Undo `h op k == r` for the human's side `h` with the source's `i64`
      operations: `/` truncates and panics on zero. */
  function InvertLeft(op: Op, k: int, r: int): Option<int>
  {
    match op
    case Add => Some(r - k)
    case Sub => Some(r + k)
    case Mul => if k == 0 then None else Some(TruncDiv(r, k))
    case Div => Some(r * k)
  }

  /** Undo `k op h == r` for the human's side `h`. */
  function InvertRight(op: Op, k: int, r: int): Option<int>
  {
    match op
    case Add => Some(r - k)
    case Sub => Some(-r + k)
    case Mul => if k == 0 then None else Some(TruncDiv(r, k))
    case Div => if r == 0 then None else Some(TruncDiv(k, r))
  }

  /** The divisions the inversion performs leave no remainder. */
  predicate LeftExact(op: Op, k: int, r: int)
  {
    match op
    case Add => true
    case Sub => true
    case Mul => k != 0 && TruncDiv(r, k) * k == r
    case Div => k != 0
  }

  predicate RightExact(op: Op, k: int, r: int)
  {
    match op
    case Add => true
    case Sub => true
    case Mul => k != 0 && TruncDiv(r, k) * k == r
    case Div => r != 0 && k != 0 && TruncDiv(k, r) * r == k
  }

  /** An exact inversion gives a value that makes the operation yield `r`. */
  lemma InvertLeftSound(op: Op, k: int, r: int)
    ensures LeftExact(op, k, r) ==> InvertLeft(op, k, r).Some? && Apply(op, InvertLeft(op, k, r).value, k) == Some(r)
  {
    if op == Div && LeftExact(op, k, r) {
      TruncDivExact(r, k);
    }
  }

  lemma InvertRightSound(op: Op, k: int, r: int)
    ensures RightExact(op, k, r) ==> InvertRight(op, k, r).Some? && Apply(op, k, InvertRight(op, k, r).value) == Some(r)
  {
    if op == Div && RightExact(op, k, r) {
      var q := TruncDiv(k, r);
      assert q != 0;
      assert k == r * q;
      TruncDivExact(r, q);
    }
  }

  /** For `+`, `-` and `*` by a non-zero number, the inversion finds the
      one and only value that works. */
  lemma InvertLeftUnique(op: Op, h: int, k: int, r: int)
    requires op != Div && (op == Mul ==> k != 0)
    ensures Apply(op, h, k) == Some(r) <==> LeftExact(op, k, r) && InvertLeft(op, k, r) == Some(h)
  {
    if op == Mul {
      if h * k == r {
        TruncDivExact(h, k);
      }
    }
  }

  lemma InvertRightUnique(op: Op, h: int, k: int, r: int)
    requires op != Div && (op == Mul ==> k != 0)
    ensures Apply(op, k, h) == Some(r) <==> RightExact(op, k, r) && InvertRight(op, k, r) == Some(h)
  {
    if op == Mul {
      if k * h == r {
        TruncDivExact(h, k);
      }
    }
  }

  /** The loop of `solve_part2`: walk from `branch` down to the human,
      undoing one operation per step; the other operand must be a number
      (the source panics otherwise). When every step divides exactly,
      giving the human the solved number makes `branch` shout `result`. */
  function SolveDown(pack: Pack, rank: Rank, branch: string, result: int): (x: Option<int>)
    requires Ranked(pack, rank) && branch in rank
    ensures x.Some? && Human in pack && pack[Human].Number? && Invertible(pack, rank, branch, result) ==>
      Ranked(SetHuman(pack, x.value), rank) && Shout(SetHuman(pack, x.value), rank, branch) == Some(result)
    decreases rank[branch]
  {
    if branch == Human then
      SetNumberRanked(pack, rank, Human, result);
      Some(result)
    else
      match pack[branch]
      case Number(_) => None
      case Operation(op, l, r) =>
        match (pack[l], pack[r])
        case (Number(k), Operation(_, _, _)) =>
          InvertRightSound(op, k, result);
          (match InvertRight(op, k, result)
           case None => None
           case Some(v) => SolveDown(pack, rank, r, v))
        case (Operation(_, _, _), Number(k)) =>
          InvertLeftSound(op, k, result);
          (match InvertLeft(op, k, result)
           case None => None
           case Some(v) => SolveDown(pack, rank, l, v))
        case (Number(k1), Number(k2)) =>
          if l == Human then
            InvertLeftSound(op, k2, result);
            (match InvertLeft(op, k2, result)
             case None => None
             case Some(v) => SolveDown(pack, rank, l, v))
          else if r == Human then
            InvertRightSound(op, k1, result);
            (match InvertRight(op, k1, result)
             case None => None
             case Some(v) => SolveDown(pack, rank, r, v))
          else None
        case (Operation(_, _, _), Operation(_, _, _)) => None
  }

  /** Every step of the walk divides exactly, and the number it treats as
      a constant is not the human. */
  predicate Invertible(pack: Pack, rank: Rank, branch: string, result: int)
    requires Ranked(pack, rank) && branch in rank
    decreases rank[branch]
  {
    branch == Human ||
    match pack[branch]
    case Number(_) => true
    case Operation(op, l, r) =>
      match (pack[l], pack[r])
      case (Number(k), Operation(_, _, _)) =>
        l != Human && RightExact(op, k, result) &&
        Invertible(pack, rank, r, InvertRight(op, k, result).value)
      case (Operation(_, _, _), Number(k)) =>
        r != Human && LeftExact(op, k, result) &&
        Invertible(pack, rank, l, InvertLeft(op, k, result).value)
      case (Number(k1), Number(k2)) =>
        if l == Human then r != Human && LeftExact(op, k2, result)
        else if r == Human then RightExact(op, k1, result)
        else true
      case (Operation(_, _, _), Operation(_, _, _)) => true
  }

  /** Root's two operands, the one that depends on the human first. */
  function Branches(pack: Pack, rank: Rank): (r: Option<(string, string)>)
    requires Ranked(pack, rank) && Root in rank
    ensures r.Some? ==> pack[Root].Operation? && r.value.0 in pack && r.value.1 in pack
    ensures r.Some? ==> {r.value.0, r.value.1} == {pack[Root].left, pack[Root].right}
    ensures r.Some? <==> pack[Root].Operation?
    ensures r.Some? && Affected(pack, rank, pack[Root].left) ==> r.value == (pack[Root].left, pack[Root].right)
    ensures r.Some? && !Affected(pack, rank, pack[Root].left) ==> r.value == (pack[Root].right, pack[Root].left)
  {
    match pack[Root]
    case Number(_) => None
    case Operation(_, l, r) =>
      if Affected(pack, rank, l) then Some((l, r)) else Some((r, l))
  }

  /** Giving the human `x` makes root's two operands shout the same
      number. */
  predicate Balanced(pack: Pack, rank: Rank, x: int)
    requires Ranked(pack, rank) && Root in rank
  {
    pack[Root].Operation? && Ranked(SetHuman(pack, x), rank)
    && Shout(SetHuman(pack, x), rank, pack[Root].left).Some?
    && Shout(SetHuman(pack, x), rank, pack[Root].left) == Shout(SetHuman(pack, x), rank, pack[Root].right)
  }

  /** After normalizing, root's human-free side shouts a number, the walk
      down the other side divides exactly, and the human-free side is
      really free of the human. */
  predicate ExactWalk(pack: Pack, rank: Rank)
    requires Ranked(pack, rank) && Root in rank
  {
    HumanLeaf(pack) && Human in pack && Normalize(pack, rank).Some?
    && var np := Normalize(pack, rank).value;
    Branches(np, rank).Some?
    && var (hb, rb) := Branches(np, rank).value;
    Shout(np, rank, rb).Some? && Invertible(np, rank, hb, Shout(np, rank, rb).value) && !Affected(np, rank, rb)
  }

  /** `solve_part2`: normalize, evaluate the human-free side of root, and
      solve the other side down to the human. When the walk divides
      exactly, the answer balances root in the pack as given. */
  function Part2(pack: Pack, rank: Rank): (r: Option<int>)
    requires Ranked(pack, rank) && Root in rank
    ensures Normalize(pack, rank).None? ==> r.None?
    ensures r.Some? && ExactWalk(pack, rank) ==> Balanced(pack, rank, r.value)
  {
    match Normalize(pack, rank)
    case None => None
    case Some(np) =>
      match Branches(np, rank)
      case None => None
      case Some((hb, rb)) =>
        match Shout(np, rank, rb)
        case None => None
        case Some(res) =>
          var x := SolveDown(np, rank, hb, res);
          if x.Some? && ExactWalk(pack, rank) then
            SolvedBalances(pack, rank, np, hb, rb, res, x.value);
            x
          else x
  }

  /** When the walk divides exactly and only one side of root depends on
      the human, the solved number makes root's two operands shout equal
      numbers in the pack as given. */
  lemma SolvedBalances(pack: Pack, rank: Rank, np: Pack, hb: string, rb: string, res: int, x: int)
    requires Ranked(pack, rank) && Root in rank && Human in pack && pack[Human].Number?
    requires Normalize(pack, rank) == Some(np) && Branches(np, rank) == Some((hb, rb))
    requires Shout(np, rank, rb) == Some(res) && SolveDown(np, rank, hb, res) == Some(x)
    requires Invertible(np, rank, hb, res) && !Affected(np, rank, rb)
    ensures pack[Root].Operation? && {hb, rb} == {pack[Root].left, pack[Root].right}
    ensures Ranked(SetHuman(pack, x), rank)
    ensures Shout(SetHuman(pack, x), rank, hb) == Shout(SetHuman(pack, x), rank, rb) == Some(res)
    ensures Balanced(pack, rank, x)
  {
    NormalizeFolds(pack, rank, np);
    UnaffectedIgnoresHuman(np, rank, rb, x);
    FoldedSetHuman(pack, np, rank, x, hb);
    FoldedSetHuman(pack, np, rank, x, rb);
  }

  /** Every step of the walk undoes `+`, `-` or `*` by a non-zero number,
      and the walk reaches the human. */
  predicate OneToOne(pack: Pack, rank: Rank, branch: string)
    requires Ranked(pack, rank) && branch in rank
    decreases rank[branch]
  {
    branch == Human ||
    match pack[branch]
    case Number(_) => false
    case Operation(op, l, r) =>
      op != Div &&
      match (pack[l], pack[r])
      case (Number(k), Operation(_, _, _)) =>
        l != Human && (op == Mul ==> k != 0) && OneToOne(pack, rank, r)
      case (Operation(_, _, _), Number(k)) =>
        r != Human && (op == Mul ==> k != 0) && OneToOne(pack, rank, l)
      case (Number(k1), Number(k2)) =>
        if l == Human then r != Human && (op == Mul ==> k2 != 0)
        else r == Human && (op == Mul ==> k1 != 0)
      case (Operation(_, _, _), Operation(_, _, _)) => false
  }

  /** On such a walk the solved number is the only one that makes
      `branch` shout `result`. */
  lemma {:induction false} SolveComplete(pack: Pack, rank: Rank, branch: string, result: int, x: int)
    requires Ranked(pack, rank) && Human in pack && pack[Human].Number? && branch in rank
    requires OneToOne(pack, rank, branch)
    requires Ranked(SetHuman(pack, x), rank)
    requires Shout(SetHuman(pack, x), rank, branch) == Some(result)
    ensures SolveDown(pack, rank, branch, result) == Some(x)
    decreases rank[branch]
  {
    var hp := SetHuman(pack, x);
    if branch != Human {
      match pack[branch]
      case Operation(op, l, r) =>
        match (pack[l], pack[r])
        case (Number(k), Operation(_, _, _)) =>
          var v := Shout(hp, rank, r).value;
          InvertRightUnique(op, v, k, result);
          SolveComplete(pack, rank, r, v, x);
        case (Operation(_, _, _), Number(k)) =>
          var v := Shout(hp, rank, l).value;
          InvertLeftUnique(op, v, k, result);
          SolveComplete(pack, rank, l, v, x);
        case (Number(k1), Number(k2)) =>
          if l == Human {
            InvertLeftUnique(op, x, k2, result);
          } else {
            InvertRightUnique(op, x, k1, result);
          }
    }
  }

  /** On a walk of `+`, `-` and `*` by non-zero numbers, any number that
      makes root's two operands shout the same value in the pack as given
      is the answer. */
  lemma Part2Complete(pack: Pack, rank: Rank, np: Pack, hb: string, rb: string, x: int)
    requires Ranked(pack, rank) && Root in rank && Human in pack && pack[Human].Number?
    requires Normalize(pack, rank) == Some(np) && Branches(np, rank) == Some((hb, rb))
    requires OneToOne(np, rank, hb) && !Affected(np, rank, rb)
    requires Ranked(SetHuman(pack, x), rank)
    requires Shout(SetHuman(pack, x), rank, hb).Some?
    requires Shout(SetHuman(pack, x), rank, hb) == Shout(SetHuman(pack, x), rank, rb)
    ensures Part2(pack, rank) == Some(x)
  {
    NormalizeFolds(pack, rank, np);
    FoldedSetHuman(pack, np, rank, x, hb);
    FoldedSetHuman(pack, np, rank, x, rb);
    UnaffectedIgnoresHuman(np, rank, rb, x);
    SolveComplete(np, rank, hb, Shout(np, rank, rb).value, x);
  }

  // ----- printing -----

  /** `to_buffer`: the expression below `name`, parenthesised; in part 2
      the human is `x` and root's operation is `=`. */
  function ToBuffer(pack: Pack, rank: Rank, name: string, part2: bool): string
    requires Ranked(pack, rank) && name in rank
    decreases rank[name]
  {
    match pack[name]
    case Number(n) => if part2 && name == Human then "x" else ShowInt(n)
    case Operation(op, l, r) =>
      "(" + ToBuffer(pack, rank, l, part2) +
      [if name == Root && part2 then '=' else OpChar(op)] +
      ToBuffer(pack, rank, r, part2) + ")"
  }

  lemma ShowIntPlain(n: int)
    ensures '(' !in ShowInt(n) && ')' !in ShowInt(n) && 'x' !in ShowInt(n) && '=' !in ShowInt(n)
  {
  }

  /** Printing an operation around balanced parts stays balanced. */
  lemma OperationBalanced(a: string, c: char, b: string)
    requires c != '(' && c != ')'
    requires multiset(a)['('] == multiset(a)[')'] && multiset(b)['('] == multiset(b)[')']
    ensures multiset("(" + a + [c] + b + ")")['('] == multiset("(" + a + [c] + b + ")")[')']
  {
    assert "(" + a + [c] + b + ")" == ['('] + a + [c] + b + [')'];
  }

  /** A character other than the brackets and the operator is in a printed
      operation exactly when it is in one of the parts. */
  lemma OperationHas(a: string, c: char, b: string, d: char)
    requires d != '(' && d != ')' && d != c
    ensures d in "(" + a + [c] + b + ")" <==> d in a || d in b
  {
    assert "(" + a + [c] + b + ")" == ['('] + a + [c] + b + [')'];
  }

  /** The printed expression has as many closing as opening parentheses. */
  lemma {:induction false} ToBufferBalanced(pack: Pack, rank: Rank, name: string, part2: bool)
    requires Ranked(pack, rank) && name in rank
    ensures multiset(ToBuffer(pack, rank, name, part2))['('] ==
            multiset(ToBuffer(pack, rank, name, part2))[')']
    decreases rank[name]
  {
    match pack[name]
    case Number(n) =>
      ShowIntPlain(n);
      assert multiset(ShowInt(n))['('] == 0 && multiset(ShowInt(n))[')'] == 0;
    case Operation(op, l, r) =>
      var c := if name == Root && part2 then '=' else OpChar(op);
      var a, b := ToBuffer(pack, rank, l, part2), ToBuffer(pack, rank, r, part2);
      assert ToBuffer(pack, rank, name, part2) == "(" + a + [c] + b + ")";
      ToBufferBalanced(pack, rank, l, part2);
      ToBufferBalanced(pack, rank, r, part2);
      assert c != '(' && c != ')' by {
        if !(name == Root && part2) {
          assert c == OpChar(op) && c !in "()=x";
        }
      }
      OperationBalanced(a, c, b);
  }

  /** The printed expression shows `x` exactly when part 2 prints a monkey
      that depends on the human, and `=` only in part 2. */
  lemma {:induction false} ToBufferHuman(pack: Pack, rank: Rank, name: string, part2: bool)
    requires Ranked(pack, rank) && name in rank
    ensures 'x' in ToBuffer(pack, rank, name, part2) <==> part2 && Affected(pack, rank, name)
    ensures '=' in ToBuffer(pack, rank, name, part2) ==> part2
    decreases rank[name]
  {
    match pack[name]
    case Number(n) =>
      ShowIntPlain(n);
    case Operation(op, l, r) =>
      ToBufferHuman(pack, rank, l, part2);
      ToBufferHuman(pack, rank, r, part2);
      var a, b := ToBuffer(pack, rank, l, part2), ToBuffer(pack, rank, r, part2);
      var c := if name == Root && part2 then '=' else OpChar(op);
      OperationHas(a, c, b, 'x');
      if !part2 {
        OperationHas(a, c, b, '=');
      }
  }
}
