/** The string handling the solvers share: Rust's `str::split` on one
    character, `split_once`, `split_ascii_whitespace`, `lines`, and the
    decimal `parse`/`format!` pair for integers. Each splitter comes with the
    printer it inverts. */
module Text {
  import opened Common

  predicate IsDigit(c: char)
  {
    '0' <= c <= '9'
  }

  /** The ASCII whitespace characters `split_ascii_whitespace` separates on. */
  predicate IsSpace(c: char)
  {
    c == ' ' || c == '\t' || c == '\n' || c == '\r' || c == '\U{000C}'
  }

  predicate AllDigits(s: string)
  {
    forall i :: 0 <= i < |s| ==> IsDigit(s[i])
  }

  function DigitValue(c: char): nat
    requires IsDigit(c)
  {
    c as int - '0' as int
  }

  function DigitChar(d: nat): (c: char)
    requires d < 10
    ensures IsDigit(c) && DigitValue(c) == d
  {
    ('0' as int + d) as char
  }

  /** The value of a string of decimal digits, most significant first. */
  function DigitsValue(s: string): nat
    requires AllDigits(s)
  {
    if |s| == 0 then 0 else DigitsValue(s[..|s| - 1]) * 10 + DigitValue(s[|s| - 1])
  }

  /** `str::parse::<usize>()`: one or more digits (an optional leading `+`
      is accepted, as Rust does); anything else is an error. */
  function ParseNat(s: string): (r: Option<nat>)
    ensures r.Some? ==> |s| > 0
  {
    var t := if |s| > 0 && s[0] == '+' then s[1..] else s;
    if |t| > 0 && AllDigits(t) then Some(DigitsValue(t)) else None
  }

  /** Parsing every piece as a number, as a `map(parse).unwrap()` chain
      does: `None` as soon as one piece is not a number. */
  function ParseNats(ws: seq<string>): (r: Option<seq<nat>>)
    ensures r.Some? <==> forall k :: 0 <= k < |ws| ==> ParseNat(ws[k]).Some?
    ensures r.Some? ==> |r.value| == |ws|
    ensures r.Some? ==> forall k :: 0 <= k < |ws| ==> ParseNat(ws[k]) == Some(r.value[k])
  {
    if |ws| == 0 then Some([])
    else
      match (ParseNat(ws[0]), ParseNats(ws[1..]))
      case (Some(n), Some(rest)) => Some([n] + rest)
      case (None, _) => None
      case (_, None) => None
  }

  /** `str::parse::<i64>()`: an optional sign followed by digits. */
  function ParseInt(s: string): (r: Option<int>)
    ensures r.Some? ==> |s| > 0
  {
    if |s| > 0 && s[0] == '-' then
      var t := s[1..];
      if |t| > 0 && AllDigits(t) then Some(-(DigitsValue(t) as int)) else None
    else
      match ParseNat(s)
      case Some(n) => Some(n as int)
      case None => None
  }

  /** `format!("{n}")` for a non-negative number. */
  function ShowNat(n: nat): (s: string)
    ensures |s| > 0 && AllDigits(s)
    ensures s[0] != '+' && s[0] != '-'
  {
    if n < 10 then [DigitChar(n)] else ShowNat(n / 10) + [DigitChar(n % 10)]
  }

  /** `format!("{n}")` for any integer. */
  function ShowInt(n: int): (s: string)
    ensures |s| > 0
    ensures forall i :: 0 <= i < |s| ==> IsDigit(s[i]) || s[i] == '-'
  {
    if n < 0 then "-" + ShowNat(-n) else ShowNat(n)
  }

  lemma {:induction false} DigitsValueShowNat(n: nat)
    ensures DigitsValue(ShowNat(n)) == n
    decreases n
  {
    if n >= 10 {
      DigitsValueShowNat(n / 10);
      var s := ShowNat(n);
      assert s[..|s| - 1] == ShowNat(n / 10);
    }
  }

  /** Printing a number and parsing it back gives the number. */
  lemma ParseShowNat(n: nat)
    ensures ParseNat(ShowNat(n)) == Some(n)
  {
    DigitsValueShowNat(n);
  }

  lemma ParseShowInt(n: int)
    ensures ParseInt(ShowInt(n)) == Some(n)
  {
    if n < 0 {
      DigitsValueShowNat(-n);
      assert ShowInt(n)[1..] == ShowNat(-n);
    } else {
      ParseShowNat(n);
    }
  }

  // ----- str::split(c) and its inverse, join -----

  /** `s.split(c)`: the pieces between occurrences of `c`; always at least one
      piece, and n occurrences give n + 1 pieces. */
  function Split(s: string, c: char): (r: seq<string>)
    ensures |r| >= 1
  {
    if |s| == 0 then [""]
    else if s[0] == c then [""] + Split(s[1..], c)
    else
      var rest := Split(s[1..], c);
      [[s[0]] + rest[0]] + rest[1..]
  }

  /** `pieces.join(c)`. */
  function Join(pieces: seq<string>, c: char): string
    requires |pieces| >= 1
  {
    if |pieces| == 1 then pieces[0] else pieces[0] + [c] + Join(pieces[1..], c)
  }

  lemma {:induction false} JoinSplit(s: string, c: char)
    ensures Join(Split(s, c), c) == s
    decreases |s|
  {
    if |s| == 0 {
    } else if s[0] == c {
      JoinSplit(s[1..], c);
      assert Split(s, c)[1..] == Split(s[1..], c);
    } else {
      JoinSplit(s[1..], c);
      var rest := Split(s[1..], c);
      if |rest| == 1 {
      } else {
        assert rest[1..][0] == rest[1];
        assert Split(s, c)[1..] == rest[1..];
      }
      assert [s[0]] + s[1..] == s;
    }
  }

  lemma {:induction false} SplitPiecesFree(s: string, c: char)
    ensures forall k :: 0 <= k < |Split(s, c)| ==> c !in Split(s, c)[k]
    decreases |s|
  {
    if |s| > 0 {
      SplitPiecesFree(s[1..], c);
    }
  }

  /** Splitting a joined sequence of `c`-free pieces gives the pieces back. */
  lemma {:induction false} SplitJoin(pieces: seq<string>, c: char)
    requires |pieces| >= 1
    requires forall k :: 0 <= k < |pieces| ==> c !in pieces[k]
    ensures Split(Join(pieces, c), c) == pieces
    decreases |pieces|
  {
    if |pieces| == 1 {
      SplitFree(pieces[0], c);
    } else {
      SplitJoin(pieces[1..], c);
      SplitPrefix(pieces[0], Join(pieces[1..], c), c);
      assert Join(pieces, c) == pieces[0] + [c] + Join(pieces[1..], c);
      assert [pieces[0]] + pieces[1..] == pieces;
    }
  }

  lemma {:induction false} SplitFree(s: string, c: char)
    requires c !in s
    ensures Split(s, c) == [s]
    decreases |s|
  {
    if |s| > 0 {
      SplitFree(s[1..], c);
      assert [s[0]] + s[1..] == s;
    }
  }

  lemma {:induction false} SplitPrefix(x: string, y: string, c: char)
    requires c !in x
    ensures Split(x + [c] + y, c) == [x] + Split(y, c)
    decreases |x|
  {
    var s := x + [c] + y;
    if |x| == 0 {
      assert s[1..] == y;
    } else {
      assert s[1..] == x[1..] + [c] + y;
      SplitPrefix(x[1..], y, c);
      assert [x[0]] + x[1..] == x;
    }
  }

  /** `s.split_once(c)`: the text before and after the first `c`. */
  function SplitOnce(s: string, c: char): (r: Option<(string, string)>)
    ensures r.None? <==> c !in s
    ensures r.Some? ==> s == r.value.0 + [c] + r.value.1 && c !in r.value.0
  {
    if |s| == 0 then None
    else if s[0] == c then Some(([], s[1..]))
    else
      match SplitOnce(s[1..], c)
      case None => None
      case Some((a, b)) => Some(([s[0]] + a, b))
  }

  /** Splitting at the first separator recovers the two sides when the left
      side has none. */
  lemma {:induction false} SplitOnceJoin(x: string, y: string, c: char)
    requires c !in x
    ensures SplitOnce(x + [c] + y, c) == Some((x, y))
    decreases |x|
  {
    var s := x + [c] + y;
    if |x| > 0 {
      assert s[0] == x[0] != c;
      assert s[1..] == x[1..] + [c] + y;
      SplitOnceJoin(x[1..], y, c);
      assert [x[0]] + x[1..] == x;
    } else {
      assert s[1..] == y;
    }
  }

  // ----- str::split_ascii_whitespace and its inverse -----

  /** Length of the run of non-space characters that starts `s`. */
  function RunLength(s: string): (k: nat)
    ensures k <= |s|
    ensures forall i :: 0 <= i < k ==> !IsSpace(s[i])
    ensures k < |s| ==> IsSpace(s[k])
  {
    if |s| == 0 || IsSpace(s[0]) then 0 else 1 + RunLength(s[1..])
  }

  predicate IsWord(w: string)
  {
    |w| > 0 && forall i :: 0 <= i < |w| ==> !IsSpace(w[i])
  }

  /** `s.split_ascii_whitespace()`: the maximal runs of non-space characters. */
  function Words(s: string): (r: seq<string>)
    ensures forall k :: 0 <= k < |r| ==> IsWord(r[k])
    decreases |s|
  {
    if |s| == 0 then []
    else if IsSpace(s[0]) then Words(s[1..])
    else
      var k := RunLength(s);
      [s[..k]] + Words(s[k..])
  }

  /** The words joined by single spaces. */
  function Unwords(ws: seq<string>): string
    requires |ws| >= 1
  {
    Join(ws, ' ')
  }

  lemma {:induction false} RunLengthOfWord(w: string, rest: string)
    requires IsWord(w)
    requires |rest| == 0 || IsSpace(rest[0])
    ensures RunLength(w + rest) == |w|
    decreases |w|
  {
    if |w| > 1 {
      assert (w + rest)[1..] == w[1..] + rest;
      RunLengthOfWord(w[1..], rest);
    }
  }

  /** Splitting words joined by single spaces gives the words back. */
  lemma {:induction false} WordsUnwords(ws: seq<string>)
    requires |ws| >= 1
    requires forall k :: 0 <= k < |ws| ==> IsWord(ws[k])
    ensures Words(Unwords(ws)) == ws
    decreases |ws|
  {
    if |ws| == 1 {
      WordsOfWord(ws[0]);
    } else {
      assert Unwords(ws) == ws[0] + [' '] + Unwords(ws[1..]);
      WordsConsWord(ws[0], Unwords(ws[1..]));
      WordsUnwords(ws[1..]);
      assert [ws[0]] + ws[1..] == ws;
    }
  }

  /** A word on its own is the only word. */
  lemma WordsOfWord(w: string)
    requires IsWord(w)
    ensures Words(w) == [w]
  {
    RunLengthOfWord(w, []);
    assert w + [] == w;
    assert RunLength(w) == |w|;
    assert w[..|w|] == w && w[|w|..] == [];
    assert Words(w) == [w] + Words([]);
  }

  /** A word followed by a space starts the words. */
  lemma WordsConsWord(w: string, tail: string)
    requires IsWord(w)
    ensures Words(w + [' '] + tail) == [w] + Words(tail)
  {
    var s := w + [' '] + tail;
    assert s == w + ([' '] + tail);
    RunLengthOfWord(w, [' '] + tail);
    assert s[..|w|] == w;
    assert s[|w|..] == [' '] + tail;
    assert Words([' '] + tail) == Words(tail) by {
      assert ([' '] + tail)[1..] == tail;
    }
  }

  // ----- str::lines -----

  /** A line ending "\r\n" loses its carriage return as well. */
  function StripCr(l: string): (r: string)
    ensures r <= l
  {
    if |l| > 0 && l[|l| - 1] == '\r' then l[..|l| - 1] else l
  }

  /** `s.lines()`: the pieces between line feeds, without the empty piece a
      final line feed leaves; a piece ended by a line feed also drops one
      carriage return before it, while a last piece without a line feed
      keeps its own. */
  function Lines(s: string): (r: seq<string>)
    ensures forall k :: 0 <= k < |r| ==> '\n' !in r[k]
  {
    SplitPiecesFree(s, '\n');
    var parts := Split(s, '\n');
    var n := |parts| - 1;
    var ended := seq(n, k requires 0 <= k < n => StripCr(parts[k]));
    assert forall k :: 0 <= k < n ==> '\n' !in ended[k] by {
      forall k | 0 <= k < n
        ensures '\n' !in ended[k]
      {
        assert forall j :: 0 <= j < |ended[k]| ==> ended[k][j] == parts[k][j];
      }
    }
    if parts[n] == "" then ended else ended + [parts[n]]
  }

  /** Each line followed by a line feed. */
  function Unlines(ls: seq<string>): string
  {
    if |ls| == 0 then "" else ls[0] + "\n" + Unlines(ls[1..])
  }

  lemma {:induction false} SplitUnlines(ls: seq<string>)
    requires forall k :: 0 <= k < |ls| ==> '\n' !in ls[k]
    ensures Split(Unlines(ls), '\n') == ls + [""]
    decreases |ls|
  {
    if |ls| > 0 {
      SplitUnlines(ls[1..]);
      SplitPrefix(ls[0], Unlines(ls[1..]), '\n');
      assert [ls[0]] + (ls[1..] + [""]) == ls + [""];
    }
  }

  /** Reading back lines that were each written with a line feed; a line
      ending in a carriage return would lose it. */
  lemma LinesUnlines(ls: seq<string>)
    requires forall k :: 0 <= k < |ls| ==> '\n' !in ls[k] && (|ls[k]| == 0 || ls[k][|ls[k]| - 1] != '\r')
    ensures Lines(Unlines(ls)) == ls
  {
    SplitUnlines(ls);
    var parts := ls + [""];
    forall k | 0 <= k < |ls|
      ensures StripCr(parts[k]) == ls[k]
    {
      assert parts[k] == ls[k];
    }
  }

  /** Reading back lines that were each written with "\r\n": the carriage
      returns go, and only one per line. */
  lemma LinesCrLf(ls: seq<string>)
    requires forall k :: 0 <= k < |ls| ==> '\n' !in ls[k]
    ensures Lines(Unlines(seq(|ls|, k requires 0 <= k < |ls| => ls[k] + "\r"))) == ls
  {
    var crs := seq(|ls|, k requires 0 <= k < |ls| => ls[k] + "\r");
    assert forall k :: 0 <= k < |crs| ==> '\n' !in crs[k] by {
      forall k | 0 <= k < |crs|
        ensures '\n' !in crs[k]
      {
        assert forall j :: 0 <= j < |ls[k]| ==> crs[k][j] == ls[k][j];
      }
    }
    SplitUnlines(crs);
    forall k | 0 <= k < |ls|
      ensures StripCr(crs[k]) == ls[k]
    {
      assert crs[k][..|crs[k]| - 1] == ls[k];
    }
  }

  // ----- str::split(&str) with a multi-character separator -----

  /** `s.split(sep)` for a non-empty separator: occurrences are found left to
      right without overlap; n occurrences give n + 1 pieces. */
  function SplitOn(s: string, sep: string): (r: seq<string>)
    requires |sep| > 0
    ensures |r| >= 1
    decreases |s|
  {
    if |s| < |sep| then [s]
    else if s[..|sep|] == sep then [""] + SplitOn(s[|sep|..], sep)
    else
      var rest := SplitOn(s[1..], sep);
      [[s[0]] + rest[0]] + rest[1..]
  }

  /** `pieces.join(sep)`. */
  function JoinOn(pieces: seq<string>, sep: string): string
    requires |pieces| >= 1
  {
    if |pieces| == 1 then pieces[0] else pieces[0] + sep + JoinOn(pieces[1..], sep)
  }

  /** Prefixing a character to the first piece prefixes it to the join. */
  lemma JoinOnConsHead(c: char, pieces: seq<string>, sep: string)
    requires |pieces| >= 1
    ensures JoinOn([[c] + pieces[0]] + pieces[1..], sep) == [c] + JoinOn(pieces, sep)
  {
    var p := [[c] + pieces[0]] + pieces[1..];
    if |pieces| > 1 {
      assert p[1..] == pieces[1..];
    }
  }

  lemma JoinOnCons(p: string, pieces: seq<string>, sep: string)
    requires |pieces| >= 1
    ensures JoinOn([p] + pieces, sep) == p + sep + JoinOn(pieces, sep)
  {
    assert ([p] + pieces)[1..] == pieces;
  }

  /** Joining the pieces with the separator restores the text. */
  lemma {:induction false} JoinSplitOn(s: string, sep: string)
    requires |sep| > 0
    ensures JoinOn(SplitOn(s, sep), sep) == s
    decreases |s|
  {
    if |s| < |sep| {
    } else if s[..|sep|] == sep {
      JoinSplitOn(s[|sep|..], sep);
      SplitOnSep(s, sep);
      assert s[..|sep|] + s[|sep|..] == s;
    } else {
      JoinSplitOn(s[1..], sep);
      SplitOnNoSep(s, sep);
      assert [s[0]] + s[1..] == s;
    }
  }

  /** A separator at the front closes an empty first piece. */
  lemma SplitOnSep(s: string, sep: string)
    requires |sep| > 0 && |s| >= |sep| && s[..|sep|] == sep
    ensures JoinOn(SplitOn(s, sep), sep) == sep + JoinOn(SplitOn(s[|sep|..], sep), sep)
  {
    JoinOnCons("", SplitOn(s[|sep|..], sep), sep);
  }

  /** Without a separator at the front, the first character joins the first
      piece of the rest. */
  lemma SplitOnNoSep(s: string, sep: string)
    requires |sep| > 0 && |s| >= |sep| && s[..|sep|] != sep
    ensures JoinOn(SplitOn(s, sep), sep) == [s[0]] + JoinOn(SplitOn(s[1..], sep), sep)
  {
    JoinOnConsHead(s[0], SplitOn(s[1..], sep), sep);
  }

  /** `s.split_once(sep)` for a non-empty separator: the text before and
      after the first occurrence. */
  function SplitOnceOn(s: string, sep: string): (r: Option<(string, string)>)
    requires |sep| > 0
    ensures r.Some? ==> s == r.value.0 + sep + r.value.1
    ensures r.None? <==> |SplitOn(s, sep)| == 1
  {
    var ps := SplitOn(s, sep);
    if |ps| < 2 then None
    else
      JoinSplitOn(s, sep);
      Some((ps[0], JoinOn(ps[1..], sep)))
  }

  /** With no separator character in the left part, splitting a joined
      text finds the left part as the first piece. */
  lemma {:induction false} SplitOnPrefix(x: string, y: string, sep: string)
    requires |sep| > 0 && sep[0] !in x
    ensures SplitOn(x + sep + y, sep) == [x] + SplitOn(y, sep)
    decreases |x|
  {
    var s := x + sep + y;
    if |x| == 0 {
      assert s == sep + y;
      assert s[..|sep|] == sep && s[|sep|..] == y;
    } else {
      assert s[0] == x[0] != sep[0];
      assert s[..|sep|] != sep;
      assert s[1..] == x[1..] + sep + y;
      SplitOnPrefix(x[1..], y, sep);
      assert [x[0]] + x[1..] == x;
    }
  }

  /** `split_once` recovers both sides of a separator when the left side
      cannot start one. */
  lemma SplitOnceOnJoin(x: string, y: string, sep: string)
    requires |sep| > 0 && sep[0] !in x
    ensures SplitOnceOn(x + sep + y, sep) == Some((x, y))
  {
    SplitOnPrefix(x, y, sep);
    var ps := SplitOn(x + sep + y, sep);
    assert ps[1..] == SplitOn(y, sep);
    JoinSplitOn(y, sep);
  }

  /** `s.starts_with(p)`. */
  predicate StartsWith(s: string, p: string)
  {
    |p| <= |s| && s[..|p|] == p
  }

  /** `s.ends_with(p)`. */
  predicate EndsWith(s: string, p: string)
  {
    |p| <= |s| && s[|s| - |p|..] == p
  }

  /** `s.split_ascii_whitespace().last()`. */
  function LastWord(s: string): Option<string>
  {
    var ws := Words(s);
    if |ws| == 0 then None else Some(ws[|ws| - 1])
  }

  /** The run at the start of `s` stops where it would stop in `s + t`,
      when `s` already ends it or `t` starts with a space. */
  lemma {:induction false} RunLengthAppend(s: string, t: string)
    requires RunLength(s) < |s| || (|t| > 0 && IsSpace(t[0]))
    ensures RunLength(s + t) == RunLength(s)
    decreases |s|
  {
    if |s| > 0 && !IsSpace(s[0]) {
      assert (s + t)[1..] == s[1..] + t;
      RunLengthAppend(s[1..], t);
    }
  }

  /** A word written after a space is the last of the words. */
  lemma {:induction false} WordsAppendWord(s: string, w: string)
    requires IsWord(w)
    ensures Words(s + [' '] + w) == Words(s) + [w]
    decreases |s|
  {
    var full := s + [' '] + w;
    if |s| == 0 {
      assert full == [' '] + w;
      WordsOfSpacedWord(w);
    } else if IsSpace(s[0]) {
      assert full[1..] == s[1..] + [' '] + w;
      WordsAppendWord(s[1..], w);
    } else {
      var k := RunLength(s);
      WordsAppendWordAfterRun(s, w, k);
      WordsAppendWord(s[k..], w);
    }
  }

  /** A single word after a space is the only word. */
  lemma WordsOfSpacedWord(w: string)
    requires IsWord(w)
    ensures Words([' '] + w) == [w]
  {
    assert ([' '] + w)[1..] == w;
    WordsOfWord(w);
  }

  /** The first run of `s` is also the first word of `s + " " + w`. */
  lemma WordsAppendWordAfterRun(s: string, w: string, k: nat)
    requires |s| > 0 && !IsSpace(s[0]) && k == RunLength(s)
    ensures Words(s + [' '] + w) == [s[..k]] + Words(s[k..] + [' '] + w)
  {
    var full := s + [' '] + w;
    RunLengthAppend(s, [' '] + w);
    assert full == s + ([' '] + w);
    assert full[0] == s[0] && RunLength(full) == k;
    assert full[..k] == s[..k];
    assert full[k..] == s[k..] + [' '] + w;
  }

  /** The last word of a line ending in a space and a word is that word. */
  lemma LastWordAfterSpace(s: string, w: string)
    requires IsWord(w)
    ensures LastWord(s + [' '] + w) == Some(w)
  {
    WordsAppendWord(s, w);
  }

  /** Printed numbers are words. */
  lemma ShowNatIsWord(n: nat)
    ensures IsWord(ShowNat(n))
  {
  }
}
