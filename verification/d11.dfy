/** Monkey in the middle: monkeys pass items around, each inspection
    changing the item's worry level, and the answer is the product of the two
    largest inspection counts. */
module MonkeyBusiness {
  import opened Common
  import opened Text

  // ----- modular arithmetic behind part 2's reduction -----

  lemma ModAdd(x: nat, y: nat, k: nat, n: nat)
    requires n > 0 && x % n == y % n
    ensures (x + k) % n == (y + k) % n
  {
    ModSplit(x + k, x / n, x % n + k, n);
    ModSplit(y + k, y / n, y % n + k, n);
  }

  lemma ModMul(x: nat, y: nat, k: nat, n: nat)
    requires n > 0 && x % n == y % n
    ensures (x * k) % n == (y * k) % n
  {
    var qx, qy, r := x / n, y / n, x % n;
    assert x * k == (qx * k) * n + r * k by {
      assert x == qx * n + r;
    }
    assert y * k == (qy * k) * n + r * k by {
      assert y == qy * n + r;
    }
    ModSplit(x * k, qx * k, r * k, n);
    ModSplit(y * k, qy * k, r * k, n);
  }

  lemma ModSquare(x: nat, y: nat, n: nat)
    requires n > 0 && x % n == y % n
    ensures (x * x) % n == (y * y) % n
  {
    ModMul(x, y, x, n);
    ModMul(x, y, y, n);
    assert y * x == x * y;
  }

  /** Numbers equal modulo `n` are equal modulo every divisor of `n`. */
  lemma ModDivisor(x: nat, y: nat, n: nat, d: nat)
    requires n > 0 && d > 0 && n % d == 0 && x % n == y % n
    ensures x % d == y % d
  {
    var m := n / d;
    assert n == m * d by { ModUnique(n, n / d, 0, d); }
    var qx, qy, r := x / n, y / n, x % n;
    assert x == (qx * m) * d + r by {
      assert qx * n == qx * (m * d) == (qx * m) * d;
    }
    assert y == (qy * m) * d + r by {
      assert qy * n == qy * (m * d) == (qy * m) * d;
    }
    ModSplit(x, qx * m, r, d);
    ModSplit(y, qy * m, r, d);
  }

  /** An item's remainder modulo `n` is congruent to the item. */
  lemma ModMod(x: nat, n: nat)
    requires n > 0
    ensures (x % n) % n == x % n
  {
    ModUnique(x % n, 0, x % n, n);
  }

  // ----- monkeys -----

  datatype Operation = Add(k: nat) | Mul(k: nat) | Pow

  /** The new worry level after an inspection. */
  function Apply(op: Operation, worry: nat): nat
  {
    match op
    case Add(k) => worry + k
    case Mul(k) => worry * k
    case Pow => worry * worry
  }

  /** The operations commute with taking remainders modulo `n`. */
  lemma ApplyCongruent(op: Operation, x: nat, y: nat, n: nat)
    requires n > 0 && x % n == y % n
    ensures Apply(op, x) % n == Apply(op, y) % n
  {
    match op
    case Add(k) => ModAdd(x, y, k, n);
    case Mul(k) => ModMul(x, y, k, n);
    case Pow => ModSquare(x, y, n);
  }

  /** What a monkey does with an item: its operation, its divisibility
      test and the two monkeys it throws to. These never change; only the
      item queues do. */
  datatype Rule = Rule(op: Operation, divisor: nat, ifTrue: nat, ifFalse: nat)

  /** What the simulation needs to terminate and stay in range: positive
      divisors, and targets that are other monkeys. A monkey throwing to
      itself would make the source's turn loop run forever. */
  predicate WellFormed(rules: seq<Rule>)
  {
    forall i :: 0 <= i < |rules| ==>
      rules[i].divisor > 0 && rules[i].ifTrue < |rules| && rules[i].ifFalse < |rules|
      && rules[i].ifTrue != i && rules[i].ifFalse != i
  }

  /** How worry is kept in check: divided by three (part 1), reduced modulo
      the product of the divisors (part 2), or left alone (the unreduced
      reference for part 2). */
  datatype Relief = Third | Reduce(modulus: nat) | Keep

  predicate ValidRelief(r: Relief)
  {
    r.Reduce? ==> r.modulus > 0
  }

  /** The worry level the test sees after an inspection. */
  function Tested(op: Operation, item: nat, relief: Relief): nat
  {
    var w := Apply(op, item);
    if relief.Third? then w / 3 else w
  }

  /** The worry level passed on: part 2 passes the remainder. */
  function Passed(op: Operation, item: nat, relief: Relief): nat
    requires ValidRelief(relief)
  {
    var w := Tested(op, item, relief);
    if relief.Reduce? then w % relief.modulus else w
  }

  /** The monkey an item goes to: `ifTrue` exactly when the worry level is
      divisible by the monkey's divisor. */
  function Target(m: Rule, worry: nat): (t: nat)
    requires m.divisor > 0
    ensures worry % m.divisor == 0 ==> t == m.ifTrue
    ensures worry % m.divisor != 0 ==> t == m.ifFalse
  {
    if worry % m.divisor == 0 then m.ifTrue else m.ifFalse
  }

  /** The item queues, one per monkey. */
  type Queues = seq<seq<nat>>

  /** Monkey `i` inspects the item at the front of its queue and throws it to
      the back of its target's queue. */
  function Throw(rules: seq<Rule>, qs: Queues, i: nat, relief: Relief): (r: Queues)
    requires WellFormed(rules) && |qs| == |rules| && i < |qs| && |qs[i]| > 0 && ValidRelief(relief)
    ensures |r| == |qs|
    ensures var m := rules[i];
      var t := Target(m, Tested(m.op, qs[i][0], relief));
      r[i] == qs[i][1..]
      && r[t] == qs[t] + [Passed(m.op, qs[i][0], relief)]
      && forall j :: 0 <= j < |qs| && j != i && j != t ==> r[j] == qs[j]
  {
    var m := rules[i];
    var item := qs[i][0];
    var t := Target(m, Tested(m.op, item, relief));
    var popped := qs[i := qs[i][1..]];
    popped[t := popped[t] + [Passed(m.op, item, relief)]]
  }

  /** The number of items held by all monkeys. */
  function TotalItems(qs: Queues): nat
  {
    if |qs| == 0 then 0 else TotalItems(qs[..|qs| - 1]) + |qs[|qs| - 1]|
  }

  lemma {:induction false} TotalItemsUpdate(qs: Queues, j: nat, q: seq<nat>)
    requires j < |qs|
    ensures TotalItems(qs[j := q]) + |qs[j]| == TotalItems(qs) + |q|
    decreases |qs|
  {
    var n := |qs|;
    if j < n - 1 {
      assert qs[j := q][..n - 1] == qs[..n - 1][j := q];
      TotalItemsUpdate(qs[..n - 1], j, q);
    } else {
      assert qs[j := q][..n - 1] == qs[..n - 1];
    }
  }

  /** A throw moves an item; no item is created or lost. */
  lemma ThrowKeepsItems(rules: seq<Rule>, qs: Queues, i: nat, relief: Relief)
    requires WellFormed(rules) && |qs| == |rules| && i < |qs| && |qs[i]| > 0 && ValidRelief(relief)
    ensures TotalItems(Throw(rules, qs, i, relief)) == TotalItems(qs)
  {
    var m := rules[i];
    var item := qs[i][0];
    var t := Target(m, Tested(m.op, item, relief));
    var popped := qs[i := qs[i][1..]];
    TotalItemsUpdate(qs, i, qs[i][1..]);
    TotalItemsUpdate(popped, t, popped[t] + [Passed(m.op, item, relief)]);
  }

  /** Monkey `i`'s turn: it throws every item it holds, front first, and
      each inspection adds one to its count. */
  function Turn(rules: seq<Rule>, qs: Queues, counts: seq<nat>, i: nat, relief: Relief): (r: (Queues, seq<nat>))
    requires WellFormed(rules) && |qs| == |rules| && i < |qs| && |counts| == |qs| && ValidRelief(relief)
    ensures |r.0| == |qs| && |r.1| == |qs|
    ensures r.0[i] == []
    ensures r.1[i] == counts[i] + |qs[i]|
    ensures forall j :: 0 <= j < |qs| && j != i ==> r.1[j] == counts[j]
    ensures TotalItems(r.0) == TotalItems(qs)
    decreases |qs[i]|
  {
    if |qs[i]| == 0 then (qs, counts)
    else
      ThrowKeepsItems(rules, qs, i, relief);
      Turn(rules, Throw(rules, qs, i, relief), counts[i := counts[i] + 1], i, relief)
  }

  /** One round: the turns of monkeys `i..` in order. */
  function Round(rules: seq<Rule>, qs: Queues, counts: seq<nat>, i: nat, relief: Relief): (r: (Queues, seq<nat>))
    requires WellFormed(rules) && |qs| == |rules| && i <= |qs| && |counts| == |qs| && ValidRelief(relief)
    ensures |r.0| == |qs| && |r.1| == |qs|
    ensures forall j :: 0 <= j < |qs| ==> r.1[j] >= counts[j]
    ensures TotalItems(r.0) == TotalItems(qs)
    decreases |qs| - i
  {
    if i == |qs| then (qs, counts)
    else
      var turned := Turn(rules, qs, counts, i, relief);
      Round(rules, turned.0, turned.1, i + 1, relief)
  }

  /** `k` rounds. */
  function Rounds(rules: seq<Rule>, qs: Queues, counts: seq<nat>, k: nat, relief: Relief): (r: (Queues, seq<nat>))
    requires WellFormed(rules) && |qs| == |rules| && |counts| == |qs| && ValidRelief(relief)
    ensures |r.0| == |qs| && |r.1| == |qs|
    ensures forall j :: 0 <= j < |qs| ==> r.1[j] >= counts[j]
    ensures TotalItems(r.0) == TotalItems(qs)
    decreases k
  {
    if k == 0 then (qs, counts)
    else
      var round := Round(rules, qs, counts, 0, relief);
      Rounds(rules, round.0, round.1, k - 1, relief)
  }

  // ----- part 2's reduction changes nothing observable -----

  /** Every divisor divides `n`. */
  predicate DividesAll(rules: seq<Rule>, n: nat)
  {
    n > 0 && forall i :: 0 <= i < |rules| ==> rules[i].divisor > 0 && n % rules[i].divisor == 0
  }

  /** Queues that match item by item modulo `n`. */
  predicate Congruent(a: Queues, b: Queues, n: nat)
    requires n > 0
  {
    |a| == |b| && forall i :: 0 <= i < |a| ==> QueueCongruent(a[i], b[i], n)
  }

  predicate QueueCongruent(x: seq<nat>, y: seq<nat>, n: nat)
    requires n > 0
  {
    |x| == |y| && forall k :: 0 <= k < |x| ==> x[k] % n == y[k] % n
  }

  /** A reduced throw and an unreduced throw from congruent queues pick the
      same target and leave congruent queues. */
  lemma ThrowCongruent(rules: seq<Rule>, a: Queues, b: Queues, i: nat, n: nat)
    requires WellFormed(rules) && |a| == |rules| && DividesAll(rules, n) && Congruent(a, b, n)
    requires i < |a| && |a[i]| > 0
    ensures Congruent(Throw(rules, a, i, Reduce(n)), Throw(rules, b, i, Keep), n)
  {
    var m := rules[i];
    var x, y := a[i][0], b[i][0];
    assert x % n == y % n;
    ApplyCongruent(m.op, x, y, n);
    var wx, wy := Apply(m.op, x), Apply(m.op, y);
    ModDivisor(wx, wy, n, m.divisor);
    assert Target(m, wx) == Target(m, wy);
    ModMod(wx, n);
    var ra, rb := Throw(rules, a, i, Reduce(n)), Throw(rules, b, i, Keep);
    var t := Target(m, wx);
    forall j | 0 <= j < |a|
      ensures QueueCongruent(ra[j], rb[j], n)
    {
      if j == i {
        assert forall k :: 0 <= k < |ra[j]| ==> ra[j][k] == a[i][k + 1];
        assert forall k :: 0 <= k < |rb[j]| ==> rb[j][k] == b[i][k + 1];
      } else if j == t {
        assert ra[j] == a[j] + [wx % n];
        assert rb[j] == b[j] + [wy];
      }
    }
  }

  /** Equal counts, and queues that match modulo `n`. */
  predicate SameOutcome(ra: (Queues, seq<nat>), rb: (Queues, seq<nat>), n: nat)
    requires n > 0
  {
    Congruent(ra.0, rb.0, n) && ra.1 == rb.1
  }

  lemma {:induction false} TurnCongruent(rules: seq<Rule>, a: Queues, b: Queues, counts: seq<nat>, i: nat, n: nat)
    requires WellFormed(rules) && |a| == |rules| && DividesAll(rules, n) && Congruent(a, b, n)
    requires i < |a| && |counts| == |a|
    ensures SameOutcome(Turn(rules, a, counts, i, Reduce(n)), Turn(rules, b, counts, i, Keep), n)
    decreases |a[i]|
  {
    if |a[i]| > 0 {
      ThrowCongruent(rules, a, b, i, n);
      TurnCongruent(rules, Throw(rules, a, i, Reduce(n)), Throw(rules, b, i, Keep), counts[i := counts[i] + 1], i, n);
    }
  }

  lemma {:induction false} RoundCongruent(rules: seq<Rule>, a: Queues, b: Queues, counts: seq<nat>, i: nat, n: nat)
    requires WellFormed(rules) && |a| == |rules| && DividesAll(rules, n) && Congruent(a, b, n)
    requires i <= |a| && |counts| == |a|
    ensures SameOutcome(Round(rules, a, counts, i, Reduce(n)), Round(rules, b, counts, i, Keep), n)
    decreases |a| - i
  {
    if i < |a| {
      TurnCongruent(rules, a, b, counts, i, n);
      var ta := Turn(rules, a, counts, i, Reduce(n));
      var tb := Turn(rules, b, counts, i, Keep);
      RoundCongruent(rules, ta.0, tb.0, ta.1, i + 1, n);
    }
  }

  /** Running part 2 with the reduction gives the same inspection counts as
      running it with unbounded worry levels. */
  lemma {:induction false} ReductionKeepsCounts(rules: seq<Rule>, a: Queues, b: Queues, counts: seq<nat>, k: nat, n: nat)
    requires WellFormed(rules) && |a| == |rules| && DividesAll(rules, n) && Congruent(a, b, n)
    requires |counts| == |a|
    ensures Rounds(rules, a, counts, k, Reduce(n)).1 == Rounds(rules, b, counts, k, Keep).1
    decreases k
  {
    if k > 0 {
      RoundCongruent(rules, a, b, counts, 0, n);
      var ra := Round(rules, a, counts, 0, Reduce(n));
      var rb := Round(rules, b, counts, 0, Keep);
      assert Congruent(ra.0, rb.0, n) && ra.1 == rb.1;
      ReductionKeepsCounts(rules, ra.0, rb.0, ra.1, k - 1, n);
    }
  }

  /** The product of the divisors. */
  function CommonDivisor(rules: seq<Rule>): nat
  {
    if |rules| == 0 then 1 else CommonDivisor(rules[..|rules| - 1]) * rules[|rules| - 1].divisor
  }

  lemma {:induction false} CommonDivisorDividesAll(rules: seq<Rule>)
    requires forall i :: 0 <= i < |rules| ==> rules[i].divisor > 0
    ensures DividesAll(rules, CommonDivisor(rules))
    decreases |rules|
  {
    if |rules| > 0 {
      var n := |rules|;
      var p := CommonDivisor(rules[..n - 1]);
      var d := rules[n - 1].divisor;
      CommonDivisorDividesAll(rules[..n - 1]);
      assert p * d > 0 by { MulSignBound(p, d); }
      ModUnique(p * d, p, 0, d);
      forall i | 0 <= i < n - 1
        ensures rules[i].divisor > 0 && (p * d) % rules[i].divisor == 0
      {
        var di := rules[..n - 1][i].divisor;
        var q := p / di;
        assert p == q * di by { ModUnique(p, p / di, 0, di); }
        assert p * d == (q * d) * di;
        ModUnique(p * d, q * d, 0, di);
      }
    }
  }

  // ----- the answer -----

  lemma MulMonotone(a: nat, b: nat, c: nat, d: nat)
    requires a <= c && b <= d
    ensures a * b <= c * d
  {
    assert a * b <= c * b;
  }

  /** Two different positions hold `x` and `y` exactly when the pair is part
      of the multiset. */
  lemma {:induction false} PairPositions(c: seq<int>, x: int, y: int)
    requires multiset{x, y} <= multiset(c)
    ensures exists i, j :: 0 <= i < |c| && 0 <= j < |c| && i != j && c[i] == x && c[j] == y
  {
    assert x in multiset(c);
    var i :| 0 <= i < |c| && c[i] == x;
    var rest := c[..i] + c[i + 1..];
    assert c == c[..i] + [c[i]] + c[i + 1..];
    assert multiset(rest) == multiset(c) - multiset{x};
    assert y in multiset(rest);
    var j' :| 0 <= j' < |rest| && rest[j'] == y;
    var j := if j' < i then j' else j' + 1;
    assert c[j] == y;
  }

  /** `sort_unstable` then the product of the last two: the largest
      product of two different monkeys' counts. */
  function Business(counts: seq<nat>): (r: int)
    requires |counts| >= 2
  {
    var s := Sort(counts);
    s[|s| - 1] * s[|s| - 2]
  }

  /** The sorted counts are counts, so none is negative. */
  lemma SortedCountsNatural(counts: seq<nat>)
    ensures forall k :: 0 <= k < |Sort(counts)| ==> Sort(counts)[k] >= 0
  {
    var s := Sort(counts);
    forall k | 0 <= k < |s|
      ensures s[k] >= 0
    {
      assert s[k] in multiset(s);
    }
  }

  /** Two different positions of a sequence form a sub-multiset of it. */
  lemma PairInMultiset(c: seq<int>, i: nat, j: nat)
    requires i < j < |c|
    ensures multiset{c[i], c[j]} <= multiset(c)
  {
    assert c == c[..i] + [c[i]] + c[i + 1..j] + [c[j]] + c[j + 1..];
  }

  /** In a sorted sequence, a pair of naturals it contains multiplies to at
      most the product of the last two elements. */
  lemma TopProduct(s: seq<int>, x: nat, y: nat)
    requires |s| >= 2 && Sorted(s) && multiset{x, y} <= multiset(s)
    ensures x * y <= s[|s| - 1] * s[|s| - 2]
  {
    var n := |s|;
    TopTwoBound(s, x, y);
    if x >= y {
      MulMonotone(x, y, s[n - 1], s[n - 2]);
    } else {
      MulMonotone(y, x, s[n - 1], s[n - 2]);
      assert x * y == y * x;
    }
  }

  /** No two different monkeys' counts multiply to more than the answer. */
  lemma PairBound(counts: seq<nat>, i: nat, j: nat)
    requires |counts| >= 2 && i < j < |counts|
    ensures counts[i] * counts[j] <= Business(counts)
  {
    var s := Sort(counts);
    PairInMultiset(counts, i, j);
    TopProduct(s, counts[i], counts[j]);
  }

  /** Two different monkeys. */
  predicate IsPair(counts: seq<nat>, i: int, j: int)
  {
    0 <= i < |counts| && 0 <= j < |counts| && i != j
  }

  /** No pair of different monkeys beats the answer. */
  lemma BusinessIsBest(counts: seq<nat>)
    requires |counts| >= 2
    ensures forall i, j :: IsPair(counts, i, j) ==> counts[i] * counts[j] <= Business(counts)
  {
    forall i, j | IsPair(counts, i, j)
      ensures counts[i] * counts[j] <= Business(counts)
    {
      if i < j {
        PairBound(counts, i, j);
      } else {
        PairBound(counts, j, i);
        assert counts[i] * counts[j] == counts[j] * counts[i];
      }
    }
  }

  /** Some pair of different monkeys reaches the answer. */
  lemma BusinessIsAchieved(counts: seq<nat>)
    requires |counts| >= 2
    ensures exists i, j :: IsPair(counts, i, j) && counts[i] * counts[j] == Business(counts)
  {
    var s := Sort(counts);
    var n := |s|;
    PairInMultiset(s, n - 2, n - 1);
    PairPositions(counts, s[n - 1], s[n - 2]);
    var i, j :| 0 <= i < |counts| && 0 <= j < |counts| && i != j
      && counts[i] == s[n - 1] && counts[j] == s[n - 2];
    assert IsPair(counts, i, j);
  }

  /** In a sorted sequence, the larger of any pair it contains is at most
      the last element and the smaller at most the one before. */
  lemma TopTwoBound(s: seq<int>, x: int, y: int)
    requires |s| >= 2 && Sorted(s) && multiset{x, y} <= multiset(s)
    ensures Max(x, y) <= s[|s| - 1] && Min(x, y) <= s[|s| - 2]
  {
    var n := |s|;
    PairPositions(s, x, y);
    var i, j :| 0 <= i < n && 0 <= j < n && i != j && s[i] == x && s[j] == y;
    if i != n - 1 {
      assert x <= s[n - 2];
    } else {
      assert y <= s[n - 2];
    }
  }

  // ----- parsing -----

  /** The number at the end of a line, as `split_ascii_whitespace().last()`
      then `parse()`; `None` where the source would panic. */
  function LastNat(line: string): Option<nat>
  {
    match LastWord(line)
    case None => None
    case Some(w) => ParseNat(w)
  }

  /** `Operation::from`: a '+' anywhere means addition of the last number;
      otherwise a line ending in "old" squares, and anything else multiplies
      by the last number. */
  function ParseOperation(line: string): (r: Option<Operation>)
    ensures r.Some? && r.value.Add? ==> '+' in line
    ensures r.Some? && r.value.Pow? ==> '+' !in line && EndsWith(line, "old")
    ensures r.Some? && r.value.Mul? ==> '+' !in line && !EndsWith(line, "old")
    ensures '+' !in line && EndsWith(line, "old") ==> r == Some(Pow)
  {
    if '+' in line then
      match LastNat(line)
      case None => None
      case Some(k) => Some(Add(k))
    else if EndsWith(line, "old") then Some(Pow)
    else
      match LastNat(line)
      case None => None
      case Some(k) => Some(Mul(k))
  }

  /** The puzzle's operation line for `op`. */
  function OperationLine(op: Operation): string
  {
    match op
    case Add(k) => "  Operation: new = old +" + [' '] + ShowNat(k)
    case Mul(k) => "  Operation: new = old *" + [' '] + ShowNat(k)
    case Pow => "  Operation: new = old *" + [' '] + "old"
  }

  /** Every operation line reads back as its operation. */
  lemma ParseOperationLine(op: Operation)
    ensures ParseOperation(OperationLine(op)) == Some(op)
  {
    match op
    case Add(k) => ParseAddLine(k);
    case Mul(k) => ParseMulLine(k);
    case Pow => ParsePowLine();
  }

  lemma ParsePowLine()
    ensures ParseOperation(OperationLine(Pow)) == Some(Pow)
  {
    var head := "  Operation: new = old *" + [' '];
    var line := head + "old";
    assert OperationLine(Pow) == line;
    assert '+' !in head;
    assert '+' !in line;
    assert line[|line| - 3..] == "old";
  }

  lemma ParseAddLine(k: nat)
    ensures ParseOperation(OperationLine(Add(k))) == Some(Add(k))
  {
    var line := OperationLine(Add(k));
    ShowNatIsWord(k);
    LastWordAfterSpace("  Operation: new = old +", ShowNat(k));
    ParseShowNat(k);
    assert line[23] == '+';
  }

  lemma ParseMulLine(k: nat)
    ensures ParseOperation(OperationLine(Mul(k))) == Some(Mul(k))
  {
    var line := OperationLine(Mul(k));
    ShowNatIsWord(k);
    LastWordAfterSpace("  Operation: new = old *", ShowNat(k));
    ParseShowNat(k);
    var head := "  Operation: new = old *" + [' '];
    var w := ShowNat(k);
    assert line == head + w;
    assert '+' !in head;
    assert '+' !in w;
    assert '+' !in line;
    assert line[|line| - 1] == w[|w| - 1];
    assert !EndsWith(line, "old");
  }

  /** What a monkey's block has set so far. */
  datatype Fields = Fields(items: seq<nat>, op: Option<Operation>, divisor: nat, ifTrue: nat, ifFalse: nat)

  /** `line[18..].split(", ")`, each piece parsed; `None` where the source
      would panic. */
  function ParseItems(line: string): Option<seq<nat>>
  {
    if |line| < 18 then None
    else
      var pieces := SplitOn(line[18..], ", ");
      if forall k :: 0 <= k < |pieces| ==> ParseNat(pieces[k]).Some? then
        Some(seq(|pieces|, k requires 0 <= k < |pieces| && ParseNat(pieces[k]).Some? => ParseNat(pieces[k]).value))
      else None
  }

  /** One line of a block. The five prefixes exclude each other, so the
      source's five independent `if`s act as one chain. */
  function ParseLine(f: Fields, line: string): Option<Fields>
  {
    if StartsWith(line, "  Starting items:") then
      match ParseItems(line)
      case None => None
      case Some(items) => Some(f.(items := items))
    else if StartsWith(line, "  Operation:") then
      match ParseOperation(line)
      case None => None
      case Some(op) => Some(f.(op := Some(op)))
    else if StartsWith(line, "  Test: divisible by ") then
      match LastNat(line)
      case None => None
      case Some(d) => Some(f.(divisor := d))
    else if StartsWith(line, "    If true") then
      match LastNat(line)
      case None => None
      case Some(t) => Some(f.(ifTrue := t))
    else if StartsWith(line, "    If false") then
      match LastNat(line)
      case None => None
      case Some(t) => Some(f.(ifFalse := t))
    else Some(f)
  }

  function ParseLines(f: Fields, lines: seq<string>): Option<Fields>
    decreases |lines|
  {
    if |lines| == 0 then Some(f)
    else
      match ParseLine(f, lines[0])
      case None => None
      case Some(f') => ParseLines(f', lines[1..])
  }

  /** One block; a block without an operation line is rejected, as the
      source's `unwrap` on the operation panics. */
  function ParseMonkey(block: string): Option<(Rule, seq<nat>)>
  {
    match ParseLines(Fields([], None, 0, 0, 0), Lines(block))
    case None => None
    case Some(f) =>
      if f.op.None? then None
      else Some((Rule(f.op.value, f.divisor, f.ifTrue, f.ifFalse), f.items))
  }

  function ParseMonkeys(blocks: seq<string>): Option<(seq<Rule>, Queues)>
    decreases |blocks|
  {
    if |blocks| == 0 then Some(([], []))
    else
      match ParseMonkey(blocks[0])
      case None => None
      case Some(m) =>
        match ParseMonkeys(blocks[1..])
        case None => None
        case Some(rest) => Some(([m.0] + rest.0, [m.1] + rest.1))
  }

  /** `parse_input`: blocks separated by a blank line. */
  function ParseInput(data: string): (r: Option<(seq<Rule>, Queues)>)
    ensures r.Some? ==> |r.value.0| == |r.value.1| == |SplitOn(data, "\n\n")|
  {
    ParseMonkeysLength(SplitOn(data, "\n\n"));
    ParseMonkeys(SplitOn(data, "\n\n"))
  }

  lemma {:induction false} ParseMonkeysLength(blocks: seq<string>)
    ensures var r := ParseMonkeys(blocks);
      r.Some? ==> |r.value.0| == |r.value.1| == |blocks|
    decreases |blocks|
  {
    if |blocks| > 0 {
      ParseMonkeysLength(blocks[1..]);
    }
  }

  /** The inspection counts before the first round: one 0 per monkey. */
  function NoCounts(n: nat): (r: seq<nat>)
    ensures |r| == n && forall i :: 0 <= i < n ==> r[i] == 0
  {
    seq(n, _ => 0)
  }

  /** `r` is the largest product of two different monkeys' counts: no pair
      beats it and some pair reaches it. */
  ghost predicate IsBusiness(counts: seq<nat>, r: int)
  {
    && (forall i, j :: IsPair(counts, i, j) ==> counts[i] * counts[j] <= r)
    && (exists i, j :: IsPair(counts, i, j) && counts[i] * counts[j] == r)
  }

  /** `solve_part1`: twenty rounds with worry divided by three. */
  function Part1(rules: seq<Rule>, qs: Queues): (r: int)
    requires WellFormed(rules) && |qs| == |rules| && |qs| >= 2
    ensures IsBusiness(Rounds(rules, qs, NoCounts(|qs|), 20, Third).1, r)
  {
    var counts := Rounds(rules, qs, NoCounts(|qs|), 20, Third).1;
    BusinessIsBest(counts);
    BusinessIsAchieved(counts);
    Business(counts)
  }

  /** `solve_part2`: ten thousand rounds with worry kept modulo the product
      of the divisors. The answer is that of the counts of ten thousand
      rounds with unbounded worry levels. */
  function Part2(rules: seq<Rule>, qs: Queues): (r: int)
    requires WellFormed(rules) && |qs| == |rules| && |qs| >= 2
    ensures IsBusiness(Rounds(rules, qs, NoCounts(|qs|), 10000, Keep).1, r)
  {
    CommonDivisorDividesAll(rules);
    ReductionKeepsCounts(rules, qs, qs, NoCounts(|qs|), 10000, CommonDivisor(rules));
    var counts := Rounds(rules, qs, NoCounts(|qs|), 10000, Reduce(CommonDivisor(rules))).1;
    BusinessIsBest(counts);
    BusinessIsAchieved(counts);
    Business(counts)
  }

  /** Part 2 is the unreduced simulation's answer. */
  lemma Part2Unreduced(rules: seq<Rule>, qs: Queues)
    requires WellFormed(rules) && |qs| == |rules| && |qs| >= 2
    ensures CommonDivisor(rules) > 0
    ensures Part2(rules, qs) == Business(Rounds(rules, qs, NoCounts(|qs|), 10000, Keep).1)
  {
    CommonDivisorDividesAll(rules);
    ReductionKeepsCounts(rules, qs, qs, NoCounts(|qs|), 10000, CommonDivisor(rules));
  }
}
