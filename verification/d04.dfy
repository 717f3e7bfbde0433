/** Camp cleanup: pairs of section ranges, and whether one range contains
    the other or the two merely overlap. */
module CampCleanup {
  import opened Common
  import opened Text

  /** The two ranges a1-a2 and b1-b2 of one line. */
  datatype Assignment = Assignment(a1: nat, a2: nat, b1: nat, b2: nat)

  predicate InRange(x: int, lo: int, hi: int)
  {
    lo <= x <= hi
  }

  /** Both ranges run from a smaller to a larger-or-equal end. */
  predicate WellFormed(a: Assignment)
  {
    a.a1 <= a.a2 && a.b1 <= a.b2
  }

  function Swap(a: Assignment): Assignment
  {
    Assignment(a.b1, a.b2, a.a1, a.a2)
  }

  /** One range "lo-hi": every piece around '-' must be a number, as the
      source unwraps each parse, and the first two are the ends; the
      source indexes the second piece, so there must be two. */
  function ParseRange(s: string): (r: Option<(nat, nat)>)
    ensures r.Some? <==> |Split(s, '-')| >= 2 && forall k :: 0 <= k < |Split(s, '-')| ==> ParseNat(Split(s, '-')[k]).Some?
    ensures r.Some? ==> ParseNat(Split(s, '-')[0]) == Some(r.value.0) && ParseNat(Split(s, '-')[1]) == Some(r.value.1)
  {
    var ps := Split(s, '-');
    match ParseNats(ps)
    case None => None
    case Some(ns) => if |ns| < 2 then None else Some((ns[0], ns[1]))
  }

  /** `parse_input` for one line "a1-a2,b1-b2". */
  function ParseLine(line: string): (r: Option<Assignment>)
    ensures r.Some? ==> (|Split(line, ',')| >= 2
      && ParseRange(Split(line, ',')[0]) == Some((r.value.a1, r.value.a2))
      && ParseRange(Split(line, ',')[1]) == Some((r.value.b1, r.value.b2)))
  {
    var elves := Split(line, ',');
    if |elves| < 2 then None
    else
      match (ParseRange(elves[0]), ParseRange(elves[1]))
      case (Some((a1, a2)), Some((b1, b2))) => Some(Assignment(a1, a2, b1, b2))
      case _ => None
  }

  /** A range as the puzzle prints it, "lo-hi". */
  function ShowRange(lo: nat, hi: nat): string
  {
    ShowNat(lo) + "-" + ShowNat(hi)
  }

  /** A line as the puzzle prints it, "a1-a2,b1-b2". */
  function ShowLine(a: Assignment): string
  {
    ShowRange(a.a1, a.a2) + "," + ShowRange(a.b1, a.b2)
  }

  /** Printing a line and parsing it back gives the assignment. */
  lemma ParseLineRoundTrip(a: Assignment)
    ensures ParseLine(ShowLine(a)) == Some(a)
  {
    ParseRangeRoundTrip(a.a1, a.a2);
    ParseRangeRoundTrip(a.b1, a.b2);
    ParseLineOf(ShowRange(a.a1, a.a2), ShowRange(a.b1, a.b2), a);
  }

  /** Two ranges free of commas, joined by one, parse as the pair. */
  lemma ParseLineOf(left: string, right: string, a: Assignment)
    requires ',' !in left && ',' !in right
    requires ParseRange(left) == Some((a.a1, a.a2)) && ParseRange(right) == Some((a.b1, a.b2))
    ensures ParseLine(left + [','] + right) == Some(a)
  {
    SplitPrefix(left, right, ',');
    SplitFree(right, ',');
  }

  /** Printing "lo-hi" and parsing it back gives the range; neither side
      holds a separator. */
  lemma ParseRangeRoundTrip(lo: nat, hi: nat)
    ensures ParseRange(ShowRange(lo, hi)) == Some((lo, hi))
    ensures ',' !in ShowRange(lo, hi)
  {
    var x, y := ShowNat(lo), ShowNat(hi);
    NoSeparators(x);
    NoSeparators(y);
    SplitPrefix(x, y, '-');
    SplitFree(y, '-');
    assert x + "-" + y == x + ['-'] + y;
    ParseShowNat(lo);
    ParseShowNat(hi);
  }

  lemma NoSeparators(s: string)
    requires AllDigits(s)
    ensures '-' !in s && ',' !in s
  {
  }

  /** `has_complete_overlap`. */
  function CompleteOverlap(a: Assignment): bool
  {
    (a.a1 >= a.b1 && a.a2 <= a.b2) || (a.b1 >= a.a1 && a.b2 <= a.a2)
  }

  /** `has_some_overlap`. */
  function SomeOverlap(a: Assignment): bool
  {
    (a.a1 >= a.b1 && a.a1 <= a.b2)
    || (a.a2 >= a.b1 && a.a2 <= a.b2)
    || (a.b1 >= a.a1 && a.b1 <= a.a2)
    || (a.b2 >= a.a1 && a.b2 <= a.a2)
  }

  /** For proper ranges, complete overlap means that one range, as a set of
      sections, contains the other. */
  lemma CompleteOverlapIsContainment(a: Assignment)
    requires WellFormed(a)
    ensures CompleteOverlap(a) <==>
      (forall x :: InRange(x, a.a1, a.a2) ==> InRange(x, a.b1, a.b2))
      || (forall x :: InRange(x, a.b1, a.b2) ==> InRange(x, a.a1, a.a2))
  {
    if (forall x :: InRange(x, a.a1, a.a2) ==> InRange(x, a.b1, a.b2)) {
      assert InRange(a.a1, a.a1, a.a2) && InRange(a.a2, a.a1, a.a2);
    }
    if (forall x :: InRange(x, a.b1, a.b2) ==> InRange(x, a.a1, a.a2)) {
      assert InRange(a.b1, a.b1, a.b2) && InRange(a.b2, a.b1, a.b2);
    }
  }

  /** For proper ranges, some overlap means a shared section, which is the
      same as max of the starts <= min of the ends. */
  lemma SomeOverlapIsIntersection(a: Assignment)
    requires WellFormed(a)
    ensures SomeOverlap(a) <==> Max(a.a1, a.b1) <= Min(a.a2, a.b2)
    ensures SomeOverlap(a) <==> exists x :: InRange(x, a.a1, a.a2) && InRange(x, a.b1, a.b2)
  {
    if Max(a.a1, a.b1) <= Min(a.a2, a.b2) {
      var x := Max(a.a1, a.b1);
      assert InRange(x, a.a1, a.a2) && InRange(x, a.b1, a.b2);
    }
  }

  /** Both predicates ignore which elf is listed first. */
  lemma OverlapsSymmetric(a: Assignment)
    ensures CompleteOverlap(Swap(a)) == CompleteOverlap(a)
    ensures SomeOverlap(Swap(a)) == SomeOverlap(a)
  {
  }

  /** For proper ranges, containment implies overlap. */
  lemma CompleteImpliesSome(a: Assignment)
    requires WellFormed(a)
    ensures CompleteOverlap(a) ==> SomeOverlap(a)
  {
  }

  /** `solve_part1`: the number of assignments with complete overlap. */
  function Part1(data: seq<Assignment>): (r: nat)
    ensures r <= |data|
    ensures r == 0 <==> forall k :: 0 <= k < |data| ==> !CompleteOverlap(data[k])
  {
    if |data| == 0 then 0
    else Part1(data[..|data| - 1]) + (if CompleteOverlap(data[|data| - 1]) then 1 else 0)
  }

  /** `solve_part2`: the number of assignments with some overlap. */
  function Part2(data: seq<Assignment>): (r: nat)
    ensures r <= |data|
    ensures r == 0 <==> forall k :: 0 <= k < |data| ==> !SomeOverlap(data[k])
  {
    if |data| == 0 then 0
    else Part2(data[..|data| - 1]) + (if SomeOverlap(data[|data| - 1]) then 1 else 0)
  }

  /** With proper ranges, part 1 never exceeds part 2. */
  lemma {:induction false} Part1AtMostPart2(data: seq<Assignment>)
    requires forall k :: 0 <= k < |data| ==> WellFormed(data[k])
    ensures Part1(data) <= Part2(data) <= |data|
    decreases |data|
  {
    if |data| > 0 {
      Part1AtMostPart2(data[..|data| - 1]);
      CompleteImpliesSome(data[|data| - 1]);
    }
  }
}
