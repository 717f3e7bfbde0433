/** Rucksack reorganisation: the item type found in both compartments of a
    rucksack, and the badge shared by each group of three elves. */
module Rucksacks {
  import opened Common
  import opened Text

  predicate IsLower(c: char)
  {
    'a' <= c <= 'z'
  }

  predicate IsUpper(c: char)
  {
    'A' <= c <= 'Z'
  }

  predicate IsLetter(c: char)
  {
    IsLower(c) || IsUpper(c)
  }

  /** `char_priority`: `to_ascii_lowercase` maps only A..Z, and the
      `u32` subtraction of 'a' underflows below it, which is `None` here.
      So a..z score 1..26, A..Z score 27..52, and any other character at or
      above 'a' scores its distance from 'a' plus one ('{' scores 27). */
  function Priority(c: char): (p: Option<nat>)
    ensures p.None? <==> c < 'a' && !IsUpper(c)
    ensures p.Some? ==> p.value >= 1
    ensures IsLower(c) ==> p == Some(c as int - 'a' as int + 1)
    ensures IsUpper(c) ==> p == Some(c as int - 'A' as int + 27)
    ensures !IsLetter(c) && p.Some? ==> p.value == c as int - 'a' as int + 1
  {
    var lower := if IsUpper(c) then (c as int - 'A' as int + 'a' as int) as char else c;
    if lower < 'a' then None
    else
      var distance := lower as int - 'a' as int;
      var offset := if IsUpper(c) then 26 else 0;
      Some(distance + 1 + offset)
  }

  /** The letter of a priority: the inverse of `Priority` on letters. */
  function PriorityLetter(p: nat): (c: char)
    requires 1 <= p <= 52
    ensures IsLetter(c)
  {
    if p <= 26 then ('a' as int + p - 1) as char else ('A' as int + p - 27) as char
  }

  /** Priorities identify letters: the letter of a letter's priority is that
      letter, and the priority of a priority's letter is that priority. */
  lemma PriorityRoundTrip(c: char, p: nat)
    requires IsLetter(c) && 1 <= p <= 52
    ensures Priority(c).Some? && PriorityLetter(Priority(c).value) == c
    ensures Priority(PriorityLetter(p)) == Some(p)
  {
  }

  predicate AllLetters(s: string)
  {
    forall i :: 0 <= i < |s| ==> IsLetter(s[i])
  }

  datatype Rucksack = Rucksack(contents: string, compA: set<char>, compB: set<char>)

  function CharSet(s: string): (r: set<char>)
    ensures forall c :: c in r <==> c in s
  {
    set i | 0 <= i < |s| :: s[i]
  }

  /** `Rucksack::from`: the first half of the characters (rounded down) is
      one compartment and the rest the other. */
  function FromLine(s: string): (r: Rucksack)
    ensures r.contents == s
    ensures forall c :: c in r.compA <==> c in s[..|s| / 2]
    ensures forall c :: c in r.compB <==> c in s[|s| / 2..]
    ensures r.compA + r.compB == CharSet(s)
  {
    assert s == s[..|s| / 2] + s[|s| / 2..];
    Rucksack(s, CharSet(s[..|s| / 2]), CharSet(s[|s| / 2..]))
  }

  /** `intersection`: the item types found in both compartments. */
  function Intersection(r: Rucksack): (i: set<char>)
    ensures forall c :: c in i <==> c in r.compA && c in r.compB
  {
    r.compA * r.compB
  }

  /** The first character of `s` that is in `t`, if any. */
  function FirstIn(s: string, t: set<char>): (r: Option<char>)
    ensures r.None? <==> forall i :: 0 <= i < |s| ==> s[i] !in t
    ensures r.Some? ==> r.value in s && r.value in t
    ensures r.Some? ==> exists i :: 0 <= i < |s| && s[i] == r.value && forall j :: 0 <= j < i ==> s[j] !in t
  {
    if |s| == 0 then None
    else if s[0] in t then Some(s[0])
    else FirstIn(s[1..], t)
  }

  /** `common_char`: an element of the intersection, which must not be
      empty. The source takes whichever element its hash set yields first;
      this model takes the first such character of the first compartment. */
  function CommonChar(r: Rucksack): (c: char)
    requires r == FromLine(r.contents)
    requires Intersection(r) != {}
    ensures c in Intersection(r)
  {
    var s := r.contents;
    var x :| x in Intersection(r);
    assert x in s[..|s| / 2];
    match FirstIn(s[..|s| / 2], r.compB)
    case Some(c) => c
  }

  /** When the compartments share exactly one item type, as the puzzle
      promises, the choice of element does not matter. */
  lemma CommonCharUnique(r: Rucksack, c: char)
    requires r == FromLine(r.contents)
    requires Intersection(r) == {c}
    ensures CommonChar(r) == c
  {
  }

  /** Every rucksack is split as `Rucksack::from` splits its line. */
  predicate WellFormed(sacks: seq<Rucksack>)
  {
    forall k :: 0 <= k < |sacks| ==> sacks[k] == FromLine(sacks[k].contents)
  }

  /** `parse_input`: one rucksack per line. */
  function ParseInput(data: string): (r: seq<Rucksack>)
    ensures |r| == |Lines(data)| && WellFormed(r)
    ensures forall k :: 0 <= k < |r| ==> r[k].contents == Lines(data)[k]
  {
    var ls := Lines(data);
    seq(|ls|, k requires 0 <= k < |ls| => FromLine(ls[k]))
  }

  /** A rucksack part 1 can score: `common_char` finds an item, where the
      source's `unwrap` would panic otherwise, and its priority does not
      underflow. */
  predicate Scorable(r: Rucksack)
    requires r == FromLine(r.contents)
  {
    Intersection(r) != {} && Priority(CommonChar(r)).Some?
  }

  /** The priority part 1 adds for a rucksack it can score. */
  function Score(r: Rucksack): (p: nat)
    requires r == FromLine(r.contents) && Scorable(r)
    ensures p >= 1
    ensures AllLetters(r.contents) ==> p <= 52
  {
    var c := CommonChar(r);
    assert c in r.contents;
    Priority(c).value
  }

  /** `solve_part1`: the sum of the priorities of the shared item types;
      `None` where the source panics on some rucksack. */
  function Part1(sacks: seq<Rucksack>): (r: Option<nat>)
    requires WellFormed(sacks)
    ensures r.None? <==> exists k :: 0 <= k < |sacks| && !Scorable(sacks[k])
    ensures r.Some? ==> |sacks| <= r.value
    ensures r.Some? && (forall k :: 0 <= k < |sacks| ==> AllLetters(sacks[k].contents)) ==>
              r.value <= 52 * |sacks|
  {
    if |sacks| == 0 then Some(0)
    else
      var n := |sacks|;
      var init := sacks[..n - 1];
      ScorablePrefix(sacks, init);
      if !Scorable(sacks[n - 1]) then None
      else
        match Part1(init)
        case None => None
        case Some(v) => Some(v + Score(sacks[n - 1]))
  }

  /** A rucksack the source cannot score is the last one or one before it. */
  lemma ScorablePrefix(sacks: seq<Rucksack>, init: seq<Rucksack>)
    requires WellFormed(sacks) && |sacks| > 0 && init == sacks[..|sacks| - 1]
    ensures WellFormed(init)
    ensures (exists k :: 0 <= k < |sacks| && !Scorable(sacks[k])) <==>
            !Scorable(sacks[|sacks| - 1]) || exists k :: 0 <= k < |init| && !Scorable(init[k])
  {
    assert forall k :: 0 <= k < |init| ==> init[k] == sacks[k];
  }

  /** A sack whose second half holds a digit still scores its shared
      letter: "ab1b" shares only 'b', which scores 2. */
  lemma NonLetterSack(r: Rucksack)
    requires r == FromLine("ab1b")
    ensures Intersection(r) == {'b'} && !AllLetters(r.contents)
    ensures Part1([r]) == Some(2)
  {
    assert "ab1b"[..2] == "ab" && "ab1b"[2..] == "1b";
    assert r.compA == {'a', 'b'} && r.compB == {'1', 'b'};
    assert r.contents[2] == '1';
    CommonCharUnique(r, 'b');
    assert [r][..0] == [];
  }

  /** The badge of a group: the first character of the first sack that the
      other two also contain, if there is one. */
  function Badge(a: Rucksack, b: Rucksack, c: Rucksack): (r: Option<char>)
    ensures r.Some? ==> r.value in a.contents && r.value in b.contents && r.value in c.contents
    ensures r.None? ==> forall x :: x in a.contents ==> x !in b.contents || x !in c.contents
  {
    FirstIn(a.contents, CharSet(b.contents) * CharSet(c.contents))
  }

  /** The priority a group adds to part 2: nothing when no badge is found,
      `None` where the badge's priority underflows. */
  function BadgePriority(a: Rucksack, b: Rucksack, c: Rucksack): (p: Option<nat>)
    ensures p == Some(0) <==> Badge(a, b, c).None?
    ensures p.None? <==> Badge(a, b, c).Some? && Priority(Badge(a, b, c).value).None?
    ensures AllLetters(a.contents) ==> p.Some? && p.value <= 52
  {
    match Badge(a, b, c)
    case None => Some(0)
    case Some(x) => Priority(x)
  }

  /** The priority group `g` (sacks 3g, 3g+1 and 3g+2) adds. */
  function GroupPriority(sacks: seq<Rucksack>, g: nat): Option<nat>
    requires 3 * g + 2 < |sacks|
  {
    BadgePriority(sacks[3 * g], sacks[3 * g + 1], sacks[3 * g + 2])
  }

  /** `solve_part2`: the rucksacks in consecutive groups of three, each
      adding the priority of its badge. `None` where the source panics:
      it indexes past the end unless the count is a multiple of three, and
      a badge's priority may underflow. */
  function Part2(sacks: seq<Rucksack>): (r: Option<nat>)
    ensures r.None? <==> |sacks| % 3 != 0 || exists g: nat :: 3 * g + 2 < |sacks| && GroupPriority(sacks, g).None?
    ensures r.Some? && (forall k :: 0 <= k < |sacks| ==> AllLetters(sacks[k].contents)) ==>
              r.value <= 52 * (|sacks| / 3)
  {
    if |sacks| % 3 != 0 then None else Groups(sacks)
  }

  /** The group sum over a whole number of groups, the last group last. */
  function Groups(sacks: seq<Rucksack>): (r: Option<nat>)
    requires |sacks| % 3 == 0
    ensures r.None? <==> exists g: nat :: 3 * g + 2 < |sacks| && GroupPriority(sacks, g).None?
    ensures r.Some? && (forall k :: 0 <= k < |sacks| ==> AllLetters(sacks[k].contents)) ==>
              r.value <= 52 * (|sacks| / 3)
  {
    if |sacks| == 0 then Some(0)
    else
      var n := |sacks|;
      var init := sacks[..n - 3];
      assert forall g: nat :: 3 * g + 2 < n - 3 ==> GroupPriority(init, g) == GroupPriority(sacks, g);
      var last := GroupPriority(sacks, (n - 3) / 3);
      match (Groups(init), last)
      case (Some(v), Some(p)) => Some(v + p)
      case _ => None
  }
}
