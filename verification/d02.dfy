/** Rock, paper, scissors: the strategy guide's scoring under the two
    readings of the second column. */
module RockPaperScissors {
  import opened Common
  import opened Text

  datatype Hand = Rock | Paper | Scissors

  datatype HandResult = Win | Draw | Loss

  /** Points for the shape played. */
  function HandScore(h: Hand): (r: nat)
    ensures 1 <= r <= 3
    ensures r == 1 <==> h == Rock
    ensures r == 2 <==> h == Paper
  {
    match h
    case Rock => 1
    case Paper => 2
    case Scissors => 3
  }

  /** Points for the outcome of the round. */
  function ResultScore(res: HandResult): (r: nat)
    ensures r == 0 <==> res == Loss
    ensures r == 3 <==> res == Draw
    ensures r == 6 <==> res == Win
  {
    match res
    case Win => 6
    case Draw => 3
    case Loss => 0
  }

  /** `Hand::from`: A/X rock, B/Y paper, C/Z scissors; anything else is
      unreachable in the source (None here). */
  function ParseHand(s: string): (r: Option<Hand>)
    ensures r == Some(Rock) <==> s == "A" || s == "X"
    ensures r == Some(Paper) <==> s == "B" || s == "Y"
    ensures r == Some(Scissors) <==> s == "C" || s == "Z"
  {
    if s == "A" || s == "X" then Some(Rock)
    else if s == "B" || s == "Y" then Some(Paper)
    else if s == "C" || s == "Z" then Some(Scissors)
    else None
  }

  /** One line of the guide: the first two whitespace-separated words. */
  function ParseRound(line: string): (r: Option<(Hand, Hand)>)
    ensures r.Some? <==> (|Words(line)| >= 2
      && ParseHand(Words(line)[0]).Some? && ParseHand(Words(line)[1]).Some?)
    ensures r.Some? ==> (ParseHand(Words(line)[0]) == Some(r.value.0)
      && ParseHand(Words(line)[1]) == Some(r.value.1))
  {
    var ws := Words(line);
    if |ws| < 2 then None
    else
      match (ParseHand(ws[0]), ParseHand(ws[1]))
      case (Some(a), Some(b)) => Some((a, b))
      case _ => None
  }

  /** `parse_input`: one round per line; a line without two hand letters
      makes the source panic (None). */
  function ParseInput(data: string): (r: Option<seq<(Hand, Hand)>>)
    ensures r.Some? <==> forall k :: 0 <= k < |Lines(data)| ==> ParseRound(Lines(data)[k]).Some?
    ensures r.Some? ==> |r.value| == |Lines(data)|
    ensures r.Some? ==> forall k :: 0 <= k < |r.value| ==> ParseRound(Lines(data)[k]) == Some(r.value[k])
  {
    ParseRounds(Lines(data))
  }

  function ParseRounds(lines: seq<string>): (r: Option<seq<(Hand, Hand)>>)
    ensures r.Some? ==> |r.value| == |lines|
    ensures r.Some? ==> forall k :: 0 <= k < |lines| ==> ParseRound(lines[k]) == Some(r.value[k])
    ensures r.Some? <==> forall k :: 0 <= k < |lines| ==> ParseRound(lines[k]).Some?
  {
    if |lines| == 0 then Some([])
    else
      match (ParseRound(lines[0]), ParseRounds(lines[1..]))
      case (Some(x), Some(rest)) => Some([x] + rest)
      case _ => None
  }

  /** The outcome for `me` playing against `other`: rock beats scissors,
      scissors beat paper, paper beats rock. */
  function Against(me: Hand, other: Hand): (r: HandResult)
    ensures r == Draw <==> me == other
  {
    match (me, other)
    case (Rock, Rock) => Draw
    case (Rock, Paper) => Loss
    case (Rock, Scissors) => Win
    case (Paper, Rock) => Win
    case (Paper, Paper) => Draw
    case (Paper, Scissors) => Loss
    case (Scissors, Rock) => Loss
    case (Scissors, Paper) => Win
    case (Scissors, Scissors) => Draw
  }

  /** A win for one side is a loss for the other. */
  lemma AgainstSwap(a: Hand, b: Hand)
    ensures Against(a, b) == Win <==> Against(b, a) == Loss
    ensures Against(a, b) == Draw <==> Against(b, a) == Draw
  {
  }

  /** `opponents_hand`: the hand that achieves `wanted` against `enemy`. */
  function OpponentsHand(enemy: Hand, wanted: HandResult): (r: Hand)
    ensures Against(r, enemy) == wanted
    ensures wanted == Draw ==> r == enemy
  {
    match wanted
    case Loss => (match enemy
      case Rock => Scissors
      case Paper => Rock
      case Scissors => Paper)
    case Draw => enemy
    case Win => (match enemy
      case Rock => Paper
      case Paper => Scissors
      case Scissors => Rock)
  }

  /** The hand achieving a result is unique, so `OpponentsHand` is the only
      answer: it inverts `Against` in its first argument. */
  lemma OpponentsHandUnique(enemy: Hand, me: Hand)
    ensures OpponentsHand(enemy, Against(me, enemy)) == me
  {
  }

  /** `HandResult::from_hand`: the second column read as a wanted result. */
  function FromHand(h: Hand): (r: HandResult)
    ensures r == Loss <==> h == Rock
    ensures r == Draw <==> h == Paper
    ensures r == Win <==> h == Scissors
  {
    match h
    case Rock => Loss
    case Paper => Draw
    case Scissors => Win
  }

  /** The score of one round from my hand: between 1 and 9. */
  function RoundScore(enemy: Hand, me: Hand): (r: nat)
    ensures 1 <= r <= 9
    ensures r % 3 == HandScore(me) % 3
  {
    HandScore(me) + ResultScore(Against(me, enemy))
  }

  /** `solve_part1`: the second column is my hand. */
  function Part1(rounds: seq<(Hand, Hand)>): (r: nat)
    ensures |rounds| <= r <= 9 * |rounds|
  {
    if |rounds| == 0 then 0
    else
      var (enemy, me) := rounds[|rounds| - 1];
      Part1(rounds[..|rounds| - 1]) + RoundScore(enemy, me)
  }

  /** `solve_part2`: the second column is the wanted result. */
  function Part2(rounds: seq<(Hand, Hand)>): (r: nat)
    ensures |rounds| <= r <= 9 * |rounds|
  {
    if |rounds| == 0 then 0
    else
      var (enemy, col) := rounds[|rounds| - 1];
      Part2(rounds[..|rounds| - 1]) + RoundScore(enemy, OpponentsHand(enemy, FromHand(col)))
  }

  /** In part 2 each round's result score is exactly the one the second
      column asks for. */
  lemma Part2RoundScore(enemy: Hand, col: Hand)
    ensures RoundScore(enemy, OpponentsHand(enemy, FromHand(col)))
         == HandScore(OpponentsHand(enemy, FromHand(col))) + ResultScore(FromHand(col))
  {
  }

  /** The sample guide: A Y, B X, C Z scores 15 and 12. */
  lemma SampleAnswers()
    ensures Part1([(Rock, Paper), (Paper, Rock), (Scissors, Scissors)]) == 15
    ensures Part2([(Rock, Paper), (Paper, Rock), (Scissors, Scissors)]) == 12
  {
    var g := [(Rock, Paper), (Paper, Rock), (Scissors, Scissors)];
    assert g[..2] == [(Rock, Paper), (Paper, Rock)];
    assert g[..2][..1] == [(Rock, Paper)];
  }
}
