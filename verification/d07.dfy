/** No space left on device: directory sizes accumulated from a terminal log
    of `cd` and `ls` commands. Directory keys are the path components joined
    by '/', with the root written "/". */
module DirectorySizes {
  import opened Common
  import opened Text

  /** The size table, one entry per directory key in order of first use (the
      source's hash map; only its set of entries matters). */
  type Sizes = seq<(string, nat)>

  predicate UniqueKeys(m: Sizes)
  {
    forall i, j :: 0 <= i < j < |m| ==> m[i].0 != m[j].0
  }

  predicate HasKey(m: Sizes, k: string)
  {
    exists i :: 0 <= i < |m| && m[i].0 == k
  }

  /** The size stored under `k`, 0 when there is none (`or_default`). */
  function Get(m: Sizes, k: string): nat
  {
    if |m| == 0 then 0 else if m[0].0 == k then m[0].1 else Get(m[1..], k)
  }

  /** Store `v` under `k`, replacing an entry or adding one at the end. */
  function Put(m: Sizes, k: string, v: nat): (r: Sizes)
    ensures Get(r, k) == v
    ensures forall k' :: k' != k ==> Get(r, k') == Get(m, k')
  {
    if |m| == 0 then [(k, v)]
    else if m[0].0 == k then [(k, v)] + m[1..]
    else [m[0]] + Put(m[1..], k, v)
  }

  /** `Put` adds no key but `k`, and keeps keys unique. */
  lemma {:induction false} PutKeys(m: Sizes, k: string, v: nat)
    ensures forall i :: 0 <= i < |Put(m, k, v)| && Put(m, k, v)[i].0 != k ==> HasKey(m, Put(m, k, v)[i].0)
    ensures UniqueKeys(m) ==> UniqueKeys(Put(m, k, v))
    decreases |m|
  {
    if |m| > 0 && m[0].0 != k {
      PutKeys(m[1..], k, v);
      var rest := Put(m[1..], k, v);
      var r := Put(m, k, v);
      assert r == [m[0]] + rest;
      forall i | 1 <= i < |r| && r[i].0 != k
        ensures HasKey(m, r[i].0)
      {
        var j :| 0 <= j < |m[1..]| && m[1..][j].0 == r[i].0;
        assert m[j + 1].0 == r[i].0;
      }
    }
  }

  /** A stored entry's value is what `Get` finds, when keys are unique. */
  lemma {:induction false} GetEntry(m: Sizes, i: nat)
    requires UniqueKeys(m) && i < |m|
    ensures Get(m, m[i].0) == m[i].1
    decreases i
  {
    if i > 0 {
      GetEntry(m[1..], i - 1);
    }
  }

  /** The key of the directory `pwd[..i + 1]`: the components joined by '/',
      and "/" for the root itself, whose component is empty. */
  function KeyOf(pwd: seq<string>, i: nat): string
    requires i < |pwd|
  {
    var k := JoinOn(pwd[..i + 1], "/");
    if k == "" then "/" else k
  }

  lemma JoinOnAppend(p: seq<string>, x: string, sep: string)
    requires |p| >= 1
    ensures JoinOn(p + [x], sep) == JoinOn(p, sep) + sep + x
    decreases |p|
  {
    if |p| > 1 {
      assert (p + [x])[1..] == p[1..] + [x];
      JoinOnAppend(p[1..], x, sep);
    }
  }

  /** A working directory whose first component is the root and whose other
      components are non-empty names. */
  predicate RootedPath(pwd: seq<string>)
  {
    |pwd| >= 1 && pwd[0] == "" && forall i :: 1 <= i < |pwd| ==> |pwd[i]| > 0
  }

  /** In a rooted path, the key of a deeper directory is longer, and the root's
      key is "/". */
  lemma {:induction false} KeyLength(pwd: seq<string>, i: nat)
    requires RootedPath(pwd) && i < |pwd|
    ensures i == 0 ==> KeyOf(pwd, i) == "/"
    ensures i > 0 ==> |KeyOf(pwd, i)| >= i + 1 && |KeyOf(pwd, i)| == |JoinOn(pwd[..i + 1], "/")|
    ensures i > 0 ==> |KeyOf(pwd, i)| > |KeyOf(pwd, i - 1)|
    decreases i
  {
    if i > 0 {
      KeyLength(pwd, i - 1);
      assert pwd[..i + 1] == pwd[..i] + [pwd[i]];
      JoinOnAppend(pwd[..i], pwd[i], "/");
    } else {
      assert pwd[..1] == [""];
    }
  }

  /** The ancestor keys of a rooted path are pairwise different. */
  lemma KeysDistinct(pwd: seq<string>, i: nat, j: nat)
    requires RootedPath(pwd) && i < j < |pwd|
    ensures KeyOf(pwd, i) != KeyOf(pwd, j)
    decreases j - i
  {
    KeyLength(pwd, j);
    if i < j - 1 {
      KeysDistinct(pwd, i, j - 1);
      KeyLengthMonotone(pwd, i, j);
    }
  }

  lemma {:induction false} KeyLengthMonotone(pwd: seq<string>, i: nat, j: nat)
    requires RootedPath(pwd) && i < j < |pwd|
    ensures |KeyOf(pwd, i)| < |KeyOf(pwd, j)|
    decreases j - i
  {
    KeyLength(pwd, j);
    if i < j - 1 {
      KeyLengthMonotone(pwd, i, j - 1);
    }
  }

  /** Add `size` under the keys of the first `n` directories of `pwd`. */
  function AddAncestors(m: Sizes, pwd: seq<string>, size: nat, n: nat): Sizes
    requires n <= |pwd|
  {
    if n == 0 then m
    else
      var r := AddAncestors(m, pwd, size, n - 1);
      var key := KeyOf(pwd, n - 1);
      Put(r, key, Get(r, key) + size)
  }

  lemma {:induction false} AddAncestorsUnique(m: Sizes, pwd: seq<string>, size: nat, n: nat)
    requires n <= |pwd| && UniqueKeys(m)
    ensures UniqueKeys(AddAncestors(m, pwd, size, n))
    decreases n
  {
    if n > 0 {
      AddAncestorsUnique(m, pwd, size, n - 1);
      var r := AddAncestors(m, pwd, size, n - 1);
      PutKeys(r, KeyOf(pwd, n - 1), Get(r, KeyOf(pwd, n - 1)) + size);
    }
  }

  /** Whether `k` is the key of one of the first `n` directories of `pwd`. */
  predicate IsAncestorKey(pwd: seq<string>, n: nat, k: string)
    requires n <= |pwd|
  {
    n > 0 && (KeyOf(pwd, n - 1) == k || IsAncestorKey(pwd, n - 1, k))
  }

  /** A deeper directory's key is not among the keys of its ancestors. */
  lemma {:induction false} DeeperKeyIsNew(pwd: seq<string>, n: nat, j: nat)
    requires RootedPath(pwd) && n <= j < |pwd|
    ensures !IsAncestorKey(pwd, n, KeyOf(pwd, j))
    decreases n
  {
    if n > 0 {
      KeysDistinct(pwd, n - 1, j);
      DeeperKeyIsNew(pwd, n - 1, j);
    }
  }

  /** The root is an ancestor of every directory of a rooted path. */
  lemma {:induction false} RootIsAncestor(pwd: seq<string>, n: nat)
    requires RootedPath(pwd) && 1 <= n <= |pwd|
    ensures IsAncestorKey(pwd, n, "/")
    decreases n
  {
    if n == 1 {
      KeyLength(pwd, 0);
    } else {
      RootIsAncestor(pwd, n - 1);
    }
  }

  /** In a rooted path each ancestor key gains `size` exactly once and every
      other key is unchanged. */
  lemma {:induction false} AddAncestorsEffect(m: Sizes, pwd: seq<string>, size: nat, n: nat, k: string)
    requires RootedPath(pwd) && n <= |pwd|
    ensures Get(AddAncestors(m, pwd, size, n), k)
         == Get(m, k) + (if IsAncestorKey(pwd, n, k) then size else 0)
    decreases n
  {
    if n > 0 {
      AddAncestorsEffect(m, pwd, size, n - 1, k);
      var r := AddAncestors(m, pwd, size, n - 1);
      var key := KeyOf(pwd, n - 1);
      var v := Get(r, key) + size;
      assert AddAncestors(m, pwd, size, n) == Put(r, key, v);
      if key == k {
        DeeperKeyIsNew(pwd, n - 1, n - 1);
      }
      PutOnce(m, r, key, k, size, IsAncestorKey(pwd, n - 1, k), IsAncestorKey(pwd, n, k));
    }
  }

  /** Adding `size` under `key` to a map that already holds `k`'s total
      plus `size` once if `before` holds gives `k`'s total plus `size` once
      if `after` holds, provided `key` is new to the count. */
  lemma PutOnce(m: Sizes, r: Sizes, key: string, k: string, size: nat, before: bool, after: bool)
    requires Get(r, k) == Get(m, k) + (if before then size else 0)
    requires after == (key == k || before) && (key == k ==> !before)
    ensures Get(Put(r, key, Get(r, key) + size), k) == Get(m, k) + (if after then size else 0)
  {
  }

  /** The effect of a `cd` on the working directory: ".." pops (nothing
      happens on an empty path), "/" resets to the root, any other name is
      pushed. */
  function ChangeDir(pwd: seq<string>, name: string): seq<string>
  {
    if name == ".." then (if |pwd| == 0 then pwd else pwd[..|pwd| - 1])
    else if name == "/" then [""]
    else pwd + [name]
  }

  /** The target of a "$ cd" line: its last word. */
  function CdTarget(line: string): string
  {
    var ws := Words(line);
    if |ws| == 0 then "" else ws[|ws| - 1]
  }

  predicate IsSkipped(line: string)
  {
    StartsWith(line, "$ ls") || StartsWith(line, "dir ")
  }

  predicate IsCd(line: string)
  {
    !IsSkipped(line) && StartsWith(line, "$ cd")
  }

  /** The size of a file line, "size name": the text before the first space
      must be a number. */
  function FileSize(line: string): Option<nat>
  {
    match SplitOnce(line, ' ')
    case None => None
    case Some((sizeText, _)) => ParseNat(sizeText)
  }

  datatype State = State(pwd: seq<string>, sizes: Sizes)

  /** One line of the log; None where the source's `unwrap` panics. */
  function Step(s: State, line: string): (r: Option<State>)
    ensures r.Some? && IsSkipped(line) ==> r.value == s
    ensures r.Some? && IsCd(line) ==> r.value == State(ChangeDir(s.pwd, CdTarget(line)), s.sizes)
    ensures r.None? <==> !IsSkipped(line) && !IsCd(line) && FileSize(line).None?
  {
    if IsSkipped(line) then Some(s)
    else if StartsWith(line, "$ cd") then Some(State(ChangeDir(s.pwd, CdTarget(line)), s.sizes))
    else
      match FileSize(line)
      case None => None
      case Some(size) => Some(State(s.pwd, AddAncestors(s.sizes, s.pwd, size, |s.pwd|)))
  }

  /** A line the source cannot take: neither a command nor a directory
      entry, and without a size in front. */
  predicate BadLine(line: string)
  {
    !IsSkipped(line) && !IsCd(line) && FileSize(line).None?
  }

  /** A line that leaves the table alone. */
  predicate Quiet(line: string)
  {
    IsSkipped(line) || IsCd(line)
  }

  /** The log's lines in order. The run fails exactly when some line is
      bad, whatever the state, and a log of commands and directory entries
      only leaves the table as it was. */
  function Run(s: State, lines: seq<string>): (r: Option<State>)
    ensures r.None? <==> exists k :: 0 <= k < |lines| && BadLine(lines[k])
    ensures (forall k :: 0 <= k < |lines| ==> Quiet(lines[k])) ==> r.Some? && r.value.sizes == s.sizes
    decreases |lines|
  {
    if |lines| == 0 then Some(s)
    else
      assert forall k :: 0 < k < |lines| ==> lines[1..][k - 1] == lines[k];
      match Step(s, lines[0])
      case None => None
      case Some(next) => Run(next, lines[1..])
  }

  /** `parse_input`: the log run from the root with an empty table. */
  function ParseInput(data: string): (r: Option<Sizes>)
    ensures r.None? <==> exists k :: 0 <= k < |Lines(data)| && BadLine(Lines(data)[k])
    ensures (forall k :: 0 <= k < |Lines(data)| ==> Quiet(Lines(data)[k])) ==> r == Some([])
  {
    match Run(State([""], []), Lines(data))
    case None => None
    case Some(s) => Some(s.sizes)
  }

  /** A log never leaves the root with "cd ..", so the working directory stays
      rooted. */
  predicate WellNested(pwd: seq<string>, lines: seq<string>)
    decreases |lines|
  {
    |lines| == 0 ||
    (var line := lines[0];
     if IsSkipped(line) then WellNested(pwd, lines[1..])
     else if IsCd(line) then
       !(CdTarget(line) == ".." && |pwd| <= 1) && WellNested(ChangeDir(pwd, CdTarget(line)), lines[1..])
     else WellNested(pwd, lines[1..]))
  }

  /** The sizes of all file lines of a log. */
  function FileTotal(lines: seq<string>): nat
    decreases |lines|
  {
    if |lines| == 0 then 0
    else
      var here := if IsSkipped(lines[0]) || IsCd(lines[0]) then 0
                  else match FileSize(lines[0]) case Some(n) => n case None => 0;
      here + FileTotal(lines[1..])
  }

  /** What a well-nested log keeps: a rooted working directory, unique keys,
      and no entry larger than the root's. */
  ghost predicate RootInvariant(s: State)
  {
    RootedPath(s.pwd) && UniqueKeys(s.sizes)
    && forall k :: Get(s.sizes, k) <= Get(s.sizes, "/")
  }

  lemma StepKeepsRoot(s: State, line: string)
    requires RootInvariant(s)
    requires !(IsCd(line) && CdTarget(line) == ".." && |s.pwd| <= 1)
    ensures Step(s, line).Some? ==> RootInvariant(Step(s, line).value)
    ensures Step(s, line).Some? && !IsSkipped(line) && !IsCd(line) ==>
      Get(Step(s, line).value.sizes, "/") == Get(s.sizes, "/") + FileSize(line).value
    ensures Step(s, line).Some? && (IsSkipped(line) || IsCd(line)) ==>
      Get(Step(s, line).value.sizes, "/") == Get(s.sizes, "/")
  {
    if !IsSkipped(line) && !IsCd(line) && FileSize(line).Some? {
      var size := FileSize(line).value;
      var m := AddAncestors(s.sizes, s.pwd, size, |s.pwd|);
      RootIsAncestor(s.pwd, |s.pwd|);
      AddAncestorsUnique(s.sizes, s.pwd, size, |s.pwd|);
      AddAncestorsEffect(s.sizes, s.pwd, size, |s.pwd|, "/");
      forall k
        ensures Get(m, k) <= Get(m, "/")
      {
        AddAncestorsEffect(s.sizes, s.pwd, size, |s.pwd|, k);
      }
    } else if IsCd(line) {
      var name := CdTarget(line);
      var p := ChangeDir(s.pwd, name);
      if name != ".." && name != "/" {
        assert |name| > 0 by {
          var ws := Words(line);
          if |ws| > 0 {
            assert |ws[|ws| - 1]| > 0;
          }
        }
        assert RootedPath(p);
      }
    }
  }

  /** For a well-nested log run from a rooted state, the root entry grows by
      exactly the total of the file sizes, and stays the largest entry. */
  lemma {:induction false} RunRootTotal(s: State, lines: seq<string>)
    requires RootInvariant(s) && WellNested(s.pwd, lines)
    ensures Run(s, lines).Some? ==>
      (RootInvariant(Run(s, lines).value)
       && Get(Run(s, lines).value.sizes, "/") == Get(s.sizes, "/") + FileTotal(lines))
    decreases |lines|
  {
    if |lines| > 0 {
      StepKeepsRoot(s, lines[0]);
      match Step(s, lines[0])
      case None =>
      case Some(next) =>
        RunRootTotal(next, lines[1..]);
    }
  }

  /** Parsing a well-nested log: the root's entry is the total size of all
      files, and no directory is larger. */
  lemma ParseRootTotal(data: string)
    requires WellNested([""], Lines(data))
    ensures ParseInput(data).Some? ==>
      (Get(ParseInput(data).value, "/") == FileTotal(Lines(data))
       && UniqueKeys(ParseInput(data).value)
       && forall i :: 0 <= i < |ParseInput(data).value| ==>
            ParseInput(data).value[i].1 <= FileTotal(Lines(data)))
  {
    var start := State([""], []);
    assert RootInvariant(start);
    RunRootTotal(start, Lines(data));
    if ParseInput(data).Some? {
      var m := ParseInput(data).value;
      forall i | 0 <= i < |m|
        ensures m[i].1 <= FileTotal(Lines(data))
      {
        GetEntry(m, i);
      }
    }
  }

  /** The largest entry (`values().max()`), for a non-empty table. */
  function MaxValue(m: Sizes): (r: nat)
    requires |m| > 0
    ensures exists i :: 0 <= i < |m| && m[i].1 == r
    ensures forall i :: 0 <= i < |m| ==> m[i].1 <= r
  {
    if |m| == 1 then m[0].1 else Max(m[0].1, MaxValue(m[1..])) as nat
  }

  /** Under the root invariant the largest entry is the root's. */
  lemma MaxIsRoot(m: Sizes)
    requires UniqueKeys(m) && HasKey(m, "/")
    requires forall k :: Get(m, k) <= Get(m, "/")
    ensures MaxValue(m) == Get(m, "/")
  {
    var i :| 0 <= i < |m| && m[i].0 == "/";
    GetEntry(m, i);
    var j :| 0 <= j < |m| && m[j].1 == MaxValue(m);
    GetEntry(m, j);
    assert Get(m, m[j].0) <= Get(m, "/");
  }

  /** `solve_part1`: the sum of the sizes below 100000. */
  function Part1(m: Sizes): (r: nat)
    ensures r <= 99999 * |m|
    ensures forall i :: 0 <= i < |m| && m[i].1 < 100000 ==> m[i].1 <= r
    ensures (forall i :: 0 <= i < |m| ==> m[i].1 >= 100000) ==> r == 0
  {
    if |m| == 0 then 0
    else (if m[0].1 < 100000 then m[0].1 else 0) + Part1(m[1..])
  }

  const DiskSpace: nat := 70000000
  const UnusedSpace: nat := 30000000
  const MaxTaken: nat := DiskSpace - UnusedSpace

  /** The smallest entry that is at least `need`, if there is one. */
  function MinAtLeast(m: Sizes, need: nat): (r: Option<nat>)
    ensures r.None? <==> forall i :: 0 <= i < |m| ==> m[i].1 < need
    ensures r.Some? ==> r.value >= need && exists i :: 0 <= i < |m| && m[i].1 == r.value
    ensures r.Some? ==> forall i :: 0 <= i < |m| && m[i].1 >= need ==> r.value <= m[i].1
  {
    if |m| == 0 then None
    else
      var rest := MinAtLeast(m[1..], need);
      if m[0].1 < need then rest
      else match rest
        case None => Some(m[0].1)
        case Some(v) => Some(Min(m[0].1, v) as nat)
  }

  /** `solve_part2`: the smallest directory whose deletion brings the used
      space down to 40000000. The source subtracts without a check, so the
      largest entry must be at least that much; the largest entry itself
      always qualifies. */
  function Part2(m: Sizes): (r: nat)
    requires |m| > 0 && MaxValue(m) >= MaxTaken
    ensures r >= MaxValue(m) - MaxTaken
    ensures exists i :: 0 <= i < |m| && m[i].1 == r
    ensures forall i :: 0 <= i < |m| && m[i].1 >= MaxValue(m) - MaxTaken ==> r <= m[i].1
  {
    var need := MaxValue(m) - MaxTaken;
    var j :| 0 <= j < |m| && m[j].1 == MaxValue(m);
    assert m[j].1 >= need;
    MinAtLeast(m, need).value
  }
}
