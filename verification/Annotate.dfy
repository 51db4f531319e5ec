/** Line annotation of a source file (`cvc annotate`): each line of the newest
    file is attributed to the version that introduced it, by walking the history
    from the newest version to the oldest and following matching blocks. */
module Annotate {
  import opened Text

  type VersionId = string

  /** One matching block of `SequenceMatcher(None).set_seqs(old, new)`. */
  datatype Block = Block(startOld: nat, startNew: nat, size: nat)

  /** One version of the source trove: when it was committed, by whom, and, if the
      trove holds the file, the version in which the file last changed. */
  datatype Commit = Commit(version: VersionId, timeStamp: nat, contact: string, file: Option<VersionId>)

  /** A line of the newest file and, once known, who introduced it. */
  datatype Line = Line(text: string, who: Option<(VersionId, string)>)

  type Contents = VersionId -> seq<string>
  type Matcher = (seq<string>, seq<string>) -> seq<Block>

  // ---------------------------------------------------------------- matching blocks

  predicate Covers(b: Block, i: int)
  {
    b.startNew <= i < b.startNew + b.size
  }

  /** What `get_matching_blocks` documents: blocks increase in both files, each
      block holds equal lines, and the last one is the dummy (len(old), len(new), 0). */
  ghost predicate ValidBlocks(old_: seq<string>, new_: seq<string>, blocks: seq<Block>)
  {
    && |blocks| > 0
    && blocks[|blocks| - 1] == Block(|old_|, |new_|, 0)
    && (forall b :: 0 <= b < |blocks| ==>
          blocks[b].startOld + blocks[b].size <= |old_| && blocks[b].startNew + blocks[b].size <= |new_|)
    && (forall b, c :: 0 <= b < c < |blocks| ==>
          && blocks[b].startOld + blocks[b].size <= blocks[c].startOld
          && blocks[b].startNew + blocks[b].size <= blocks[c].startNew)
    && (forall b, i :: 0 <= b < |blocks| && Covers(blocks[b], i) ==>
          old_[blocks[b].startOld + (i - blocks[b].startNew)] == new_[i])
  }

  ghost predicate ValidMatcher(matcher: Matcher)
  {
    forall old_, new_ :: ValidBlocks(old_, new_, matcher(old_, new_))
  }

  /** The line of the old file which line `i` of the new file is matched with. */
  ghost function OldLine(blocks: seq<Block>, i: int): Option<int>
  {
    if exists b :: 0 <= b < |blocks| && Covers(blocks[b], i) then
      var b :| 0 <= b < |blocks| && Covers(blocks[b], i);
      Some(blocks[b].startOld + (i - blocks[b].startNew))
    else
      None
  }

  lemma CoverUnique(old_: seq<string>, new_: seq<string>, blocks: seq<Block>, b: int, c: int, i: int)
    requires ValidBlocks(old_, new_, blocks)
    requires 0 <= b < |blocks| && 0 <= c < |blocks| && Covers(blocks[b], i) && Covers(blocks[c], i)
    ensures b == c
  {
  }

  lemma OldLineInBlock(old_: seq<string>, new_: seq<string>, blocks: seq<Block>, b: int, t: nat)
    requires ValidBlocks(old_, new_, blocks)
    requires 0 <= b < |blocks| && t < blocks[b].size
    ensures OldLine(blocks, blocks[b].startNew + t) == Some(blocks[b].startOld + t)
  {
    var i := blocks[b].startNew + t;
    assert Covers(blocks[b], i);
    var c :| 0 <= c < |blocks| && Covers(blocks[c], i)
             && OldLine(blocks, i) == Some(blocks[c].startOld + (i - blocks[c].startNew));
    CoverUnique(old_, new_, blocks, b, c, i);
  }

  /** A matched pair of lines is inside both files and has the same text. */
  lemma OldLineSameText(old_: seq<string>, new_: seq<string>, blocks: seq<Block>, i: int)
    requires ValidBlocks(old_, new_, blocks)
    requires OldLine(blocks, i).Some?
    ensures 0 <= i < |new_| && 0 <= OldLine(blocks, i).value < |old_|
    ensures old_[OldLine(blocks, i).value] == new_[i]
  {
    var b :| 0 <= b < |blocks| && Covers(blocks[b], i)
             && OldLine(blocks, i) == Some(blocks[b].startOld + (i - blocks[b].startNew));
    assert Covers(blocks[b], i);
  }

  /** No two lines of the new file are matched with the same line of the old one. */
  lemma OldLineInjective(old_: seq<string>, new_: seq<string>, blocks: seq<Block>, i: int, j: int)
    requires ValidBlocks(old_, new_, blocks)
    requires OldLine(blocks, i).Some? && OldLine(blocks, i) == OldLine(blocks, j)
    ensures i == j
  {
    var b :| 0 <= b < |blocks| && Covers(blocks[b], i)
             && OldLine(blocks, i) == Some(blocks[b].startOld + (i - blocks[b].startNew));
    var c :| 0 <= c < |blocks| && Covers(blocks[c], j)
             && OldLine(blocks, j) == Some(blocks[c].startOld + (j - blocks[c].startNew));
    assert b == c;
  }

  // ---------------------------------------------------------------- the history that is walked

  /** The versions of one branch that are not after the current one. */
  function NotAfter(vers: seq<Commit>, now: nat): seq<Commit>
  {
    if vers == [] then []
    else if vers[0].timeStamp > now then NotAfter(vers[1..], now)
    else [vers[0]] + NotAfter(vers[1..], now)
  }

  function Reverse<T>(s: seq<T>): (r: seq<T>)
    ensures |r| == |s|
  {
    if s == [] then [] else Reverse(s[1..]) + [s[0]]
  }

  /** All versions the walk would pop: the newest of the current branch first, then
      each parent branch in turn, up to the first branch that offers nothing. */
  function Walk(branches: seq<seq<Commit>>, level: nat, now: nat): seq<Commit>
    requires level < |branches|
    decreases |branches| - level, 1
  {
    var here := Reverse(NotAfter(branches[level], now));
    if here == [] then [] else here + Parents(branches, level, now)
  }

  /** What the walk visits once the versions of one branch are exhausted. */
  function Parents(branches: seq<seq<Commit>>, level: nat, now: nat): seq<Commit>
    requires level < |branches|
    decreases |branches| - level, 0
  {
    if level + 1 < |branches| then Walk(branches, level + 1, now) else []
  }

  /** The walk stops at the first version of the trove that lacks the file. */
  function UpToMissing(walk: seq<Commit>): seq<Commit>
  {
    if walk == [] then []
    else if walk[0].file.None? then [walk[0]]
    else [walk[0]] + UpToMissing(walk[1..])
  }

  function Visited(branches: seq<seq<Commit>>, now: nat): seq<Commit>
    requires |branches| > 0
  {
    UpToMissing(Walk(branches, 0, now))
  }

  /** `at` are the places in `vers` of the versions not after the current one, in order. */
  ghost predicate PlacesNotAfter(vers: seq<Commit>, now: nat, at: seq<nat>)
  {
    && (forall i, j :: 0 <= i < j < |at| ==> at[i] < at[j])
    && (forall i :: 0 <= i < |at| ==> at[i] < |vers|)
    && (forall k :: 0 <= k < |vers| ==> (vers[k].timeStamp <= now <==> k in at))
  }

  /** What is left of a branch are exactly these, each as often as it is there, in the same order. */
  lemma {:induction false} NotAfterKeeps(vers: seq<Commit>, now: nat) returns (at: seq<nat>)
    ensures PlacesNotAfter(vers, now, at)
    ensures |NotAfter(vers, now)| == |at| && forall i :: 0 <= i < |at| ==> NotAfter(vers, now)[i] == vers[at[i]]
  {
    if vers == [] {
      at := [];
    } else {
      var rest := NotAfterKeeps(vers[1..], now);
      at := PlacesOneMore(vers, now, rest);
      KeptOneMore(vers, now, rest, at);
    }
  }

  lemma KeptOneMore(vers: seq<Commit>, now: nat, rest: seq<nat>, at: seq<nat>)
    requires vers != [] && |NotAfter(vers[1..], now)| == |rest| && forall i :: 0 <= i < |at| ==> at[i] < |vers|
    requires forall i :: 0 <= i < |rest| ==> rest[i] < |vers| - 1 && NotAfter(vers[1..], now)[i] == vers[1..][rest[i]]
    requires if vers[0].timeStamp > now then |at| == |rest| && forall i :: 0 <= i < |rest| ==> at[i] == rest[i] + 1
             else |at| == |rest| + 1 && at[0] == 0 && forall i :: 0 <= i < |rest| ==> at[i + 1] == rest[i] + 1
    ensures |NotAfter(vers, now)| == |at| && forall i :: 0 <= i < |at| ==> NotAfter(vers, now)[i] == vers[at[i]]
  {
    var later := NotAfter(vers[1..], now);
    if vers[0].timeStamp > now {
      forall i | 0 <= i < |at|
        ensures later[i] == vers[at[i]]
      {
        assert vers[1..][rest[i]] == vers[at[i]];
      }
    } else {
      forall i | 0 <= i < |at|
        ensures ([vers[0]] + later)[i] == vers[at[i]]
      {
        if i > 0 {
          assert at[i - 1 + 1] == rest[i - 1] + 1;
          assert vers[1..][rest[i - 1]] == vers[at[i]];
        }
      }
    }
  }

  lemma PlacesOneMore(vers: seq<Commit>, now: nat, rest: seq<nat>) returns (at: seq<nat>)
    requires vers != [] && PlacesNotAfter(vers[1..], now, rest)
    ensures PlacesNotAfter(vers, now, at)
    ensures if vers[0].timeStamp > now then |at| == |rest| && forall i :: 0 <= i < |rest| ==> at[i] == rest[i] + 1
            else |at| == |rest| + 1 && at[0] == 0 && forall i :: 0 <= i < |rest| ==> at[i + 1] == rest[i] + 1
  {
    var later := seq(|rest|, i requires 0 <= i < |rest| => rest[i] + 1);
    at := if vers[0].timeStamp > now then later else [0] + later;
    forall k | 0 <= k < |vers|
      ensures vers[k].timeStamp <= now <==> k in at
    {
      assert k in at <==> k in later || (k == 0 && vers[0].timeStamp <= now);
      if k > 0 {
        assert vers[k] == vers[1..][k - 1];
        LaterPlaces(rest, later, k);
      }
    }
  }

  lemma LaterPlaces(rest: seq<nat>, later: seq<nat>, k: nat)
    requires k > 0 && |later| == |rest| && forall i :: 0 <= i < |rest| ==> later[i] == rest[i] + 1
    ensures k in later <==> k - 1 in rest
  {
    if k - 1 in rest {
      var i :| 0 <= i < |rest| && rest[i] == k - 1;
      assert later[i] == k;
    }
  }

  lemma NotAfterMembers(vers: seq<Commit>, now: nat, c: Commit)
    ensures c in NotAfter(vers, now) <==> c in vers && c.timeStamp <= now
  {
    var at := NotAfterKeeps(vers, now);
    if c in vers && c.timeStamp <= now {
      var k :| 0 <= k < |vers| && vers[k] == c;
      var i :| 0 <= i < |at| && at[i] == k;
      assert NotAfter(vers, now)[i] == c;
    }
    if c in NotAfter(vers, now) {
      var i :| 0 <= i < |at| && vers[at[i]] == c;
      assert at[i] in at;
    }
  }

  lemma {:induction false} ReverseAt<T>(s: seq<T>, k: nat)
    requires k < |s|
    ensures Reverse(s)[k] == s[|s| - 1 - k]
  {
    if k < |s| - 1 {
      ReverseAt(s[1..], k);
    }
  }

  /** Version `i` of a branch is the last one which is not after the current one. */
  ghost predicate LastNotAfter(vers: seq<Commit>, now: nat, i: int)
  {
    0 <= i < |vers| && vers[i].timeStamp <= now && forall k :: i < k < |vers| ==> vers[k].timeStamp > now
  }

  lemma {:induction false} LastNotAfterIs(vers: seq<Commit>, now: nat, i: int)
    requires LastNotAfter(vers, now, i)
    ensures NotAfter(vers, now) != [] && NotAfter(vers, now)[|NotAfter(vers, now)| - 1] == vers[i]
  {
    var rest := vers[1..];
    if i > 0 {
      assert forall k :: 0 < k < |vers| ==> vers[k] == rest[k - 1];
      LastNotAfterIs(rest, now, i - 1);
    } else {
      AllAfter(rest, now);
    }
  }

  lemma {:induction false} AllAfter(vers: seq<Commit>, now: nat)
    ensures (forall k :: 0 <= k < |vers| ==> vers[k].timeStamp > now) <==> NotAfter(vers, now) == []
  {
    if vers != [] {
      AllAfter(vers[1..], now);
      assert forall k :: 0 < k < |vers| ==> vers[k] == vers[1..][k - 1];
    }
  }

  lemma {:induction false} SomeLast(vers: seq<Commit>, now: nat) returns (i: int)
    requires NotAfter(vers, now) != []
    ensures LastNotAfter(vers, now, i)
  {
    var rest := vers[1..];
    assert forall k :: 0 < k < |vers| ==> vers[k] == rest[k - 1];
    if NotAfter(rest, now) != [] {
      i := SomeLast(rest, now);
      i := i + 1;
    } else {
      AllAfter(rest, now);
      i := 0;
    }
  }

  /** The walk starts with the last version of the current branch that is not after the current one. */
  lemma FirstVisited(branches: seq<seq<Commit>>, now: nat)
    requires |branches| > 0
    ensures (forall i :: !LastNotAfter(branches[0], now, i)) ==> Visited(branches, now) == []
    ensures forall i :: LastNotAfter(branches[0], now, i) ==>
              Visited(branches, now) != [] && Visited(branches, now)[0] == branches[0][i]
  {
    var vers := branches[0];
    if NotAfter(vers, now) != [] {
      ReverseAt(NotAfter(vers, now), 0);
      var i := SomeLast(vers, now);
      assert LastNotAfter(vers, now, i);
    }
    forall i | LastNotAfter(vers, now, i)
      ensures Visited(branches, now) != [] && Visited(branches, now)[0] == vers[i]
    {
      LastNotAfterIs(vers, now, i);
    }
  }

  /** The first `m` branches, each from its newest version to its oldest. */
  ghost function NewestFirst(branches: seq<seq<Commit>>, m: nat, now: nat): seq<Commit>
    requires m <= |branches|
  {
    if m == 0 then [] else NewestFirst(branches, m - 1, now) + Reverse(NotAfter(branches[m - 1], now))
  }

  /** The walk takes one branch after the other, up to the first one that offers nothing. */
  lemma WalkIsNewestFirst(branches: seq<seq<Commit>>, now: nat) returns (m: nat)
    requires |branches| > 0
    ensures m <= |branches| && Walk(branches, 0, now) == NewestFirst(branches, m, now)
    ensures forall l :: 0 <= l < m ==> NotAfter(branches[l], now) != []
    ensures m < |branches| ==> NotAfter(branches[m], now) == []
  {
    m := WalkFrom(branches, 0, now);
    assert NewestFirst(branches, 0, now) + Walk(branches, 0, now) == Walk(branches, 0, now);
  }

  lemma {:induction false} WalkFrom(branches: seq<seq<Commit>>, level: nat, now: nat) returns (m: nat)
    requires level < |branches|
    ensures level <= m <= |branches|
    ensures NewestFirst(branches, level, now) + Walk(branches, level, now) == NewestFirst(branches, m, now)
    ensures forall l :: level <= l < m ==> NotAfter(branches[l], now) != []
    ensures m < |branches| ==> NotAfter(branches[m], now) == []
    decreases |branches| - level
  {
    var before, here := NewestFirst(branches, level, now), Reverse(NotAfter(branches[level], now));
    if here == [] {
      m := level;
    } else if level + 1 < |branches| {
      m := WalkFrom(branches, level + 1, now);
      assert before + (here + Walk(branches, level + 1, now)) == before + here + Walk(branches, level + 1, now);
    } else {
      m := level + 1;
      assert before + (here + []) == before + here;
    }
  }

  /** Only the last visited version can lack the file. */
  ghost predicate History(hist: seq<Commit>)
  {
    && |hist| > 0
    && hist[0].file.Some?
    && forall k :: 0 <= k < |hist| - 1 ==> hist[k].file.Some?
  }

  lemma {:induction false} UpToMissingHistory(walk: seq<Commit>)
    ensures forall k :: 0 <= k < |UpToMissing(walk)| - 1 ==> UpToMissing(walk)[k].file.Some?
    ensures UpToMissing(walk) <= walk
    ensures |UpToMissing(walk)| < |walk| ==> |UpToMissing(walk)| > 0 && UpToMissing(walk)[|UpToMissing(walk)| - 1].file.None?
  {
    if walk != [] && walk[0].file.Some? {
      UpToMissingHistory(walk[1..]);
    }
  }

  // ---------------------------------------------------------------- the reference answer

  ghost function LinesAt(hist: seq<Commit>, contents: Contents, k: nat): seq<string>
    requires k < |hist| && hist[k].file.Some?
  {
    contents(hist[k].file.value)
  }

  /** Where line `j` of the newest file stands in the `k`-th visited version, following
      matching blocks back; None once some version has no counterpart of it. */
  ghost function Trace(hist: seq<Commit>, contents: Contents, matcher: Matcher, k: nat, j: nat): (t: Option<int>)
    requires k < |hist|
    ensures t.Some? ==> 0 <= t.value
  {
    if hist[k].file.None? then None
    else if k == 0 then (if j < |LinesAt(hist, contents, 0)| then Some(j) else None)
    else
      match Trace(hist, contents, matcher, k - 1, j)
      case None => None
      case Some(i) =>
        if hist[k].file == hist[k - 1].file then Some(i)
        else if hist[k - 1].file.None? then None
        else OldLine(matcher(LinesAt(hist, contents, k), LinesAt(hist, contents, k - 1)), i)
  }

  /** The first of the run of visited versions, ending in `k`, which share one file. */
  ghost function RunStart(hist: seq<Commit>, k: nat): (r: nat)
    requires k < |hist|
    ensures r <= k && hist[r].file == hist[k].file
  {
    if k > 0 && hist[k].file == hist[k - 1].file then RunStart(hist, k - 1) else k
  }

  /** The version `annotate` blames for line `j`, looking from the `k`-th visited one on. */
  ghost function Blamed(hist: seq<Commit>, contents: Contents, matcher: Matcher, k: nat, j: nat): (o: nat)
    requires k < |hist|
    ensures k <= o < |hist|
    decreases |hist| - k
  {
    if k + 1 == |hist| then k
    else if hist[k + 1].file.Some? && Trace(hist, contents, matcher, k + 1, j).None? then k
    else Blamed(hist, contents, matcher, k + 1, j)
  }

  /** What the code writes next to the line: a line that lasted to the end of the walk gets
      the contact of that last version, any other line the contact of the version whose
      commit brought the file in (the newest of a run of versions sharing it). */
  ghost function Credit(hist: seq<Commit>, contents: Contents, matcher: Matcher, j: nat): (VersionId, string)
    requires |hist| > 0
  {
    var k := Blamed(hist, contents, matcher, 0, j);
    (hist[k].version,
     if k + 1 == |hist| then hist[k].contact else hist[RunStart(hist, k)].contact)
  }

  // ---------------------------------------------------------------- the line map

  /** A sparse map from line numbers of some version to line numbers of the newest one;
      a dead entry is present but None. */
  type LineMap = map<int, Option<int>>

  predicate Live(lineMap: LineMap, i: int)
  {
    i in lineMap && lineMap[i].Some?
  }

  predicate Dead(lineMap: LineMap, i: int)
  {
    i in lineMap && lineMap[i].None?
  }

  function Unattributed(lines: seq<Line>): nat
  {
    if lines == [] then 0
    else (if lines[0].who.None? then 1 else 0) + Unattributed(lines[1..])
  }

  lemma {:induction false} UnattributedUpdate(lines: seq<Line>, j: nat, line: Line)
    requires j < |lines| && lines[j].who.None? && line.who.Some?
    ensures Unattributed(lines[j := line]) == Unattributed(lines) - 1
  {
    if j == 0 {
      assert lines[0 := line][1..] == lines[1..];
    } else {
      assert lines[j := line][1..] == lines[1..][j - 1 := line];
      UnattributedUpdate(lines[1..], j - 1, line);
    }
  }

  lemma {:induction false} UnattributedZero(lines: seq<Line>)
    ensures Unattributed(lines) == 0 <==> forall j :: 0 <= j < |lines| ==> lines[j].who.Some?
  {
    if lines != [] {
      UnattributedZero(lines[1..]);
      assert forall j :: 1 <= j < |lines| ==> lines[j] == lines[1..][j - 1];
      assert forall j :: 0 <= j < |lines[1..]| ==> lines[1..][j] == lines[j + 1];
    }
  }

  /** A live entry lies in the current file and points to an unattributed line of equal text. */
  ghost predicate EntryFits(lineMap: LineMap, current: seq<string>, final: seq<Line>, i: int)
  {
    Live(lineMap, i) ==>
      && 0 <= i < |current|
      && 0 <= lineMap[i].value < |final|
      && final[lineMap[i].value].text == current[i]
      && final[lineMap[i].value].who.None?
  }

  ghost predicate EntriesDiffer(lineMap: LineMap, i: int, k: int)
  {
    Live(lineMap, i) && Live(lineMap, k) && lineMap[i] == lineMap[k] ==> i == k
  }

  /** The invariant `annotate` asserts over and over. */
  ghost predicate MapInvariant(lineMap: LineMap, current: seq<string>, final: seq<Line>)
  {
    && (forall i: int :: EntryFits(lineMap, current, final, i))
    && (forall i: int, k: int :: EntriesDiffer(lineMap, i, k))
  }

  /** Entry `i` is about a line before `cur` which no block covers. */
  ghost predicate Claims(blocks: seq<Block>, cur: int, map0: LineMap, i: int)
  {
    Live(map0, i) && i < cur && OldLine(blocks, i).None?
  }

  /** An entry that makes such a claim dies and its line goes to `who`; others stay. */
  ghost predicate EntryMarked(blocks: seq<Block>, cur: int, who: (VersionId, string),
                              map0: LineMap, final: seq<Line>, lineMap: LineMap, i: int)
  {
    if Claims(blocks, cur, map0, i) then
      !Live(lineMap, i) && (0 <= map0[i].value < |final| ==> final[map0[i].value].who == Some(who))
    else
      (Live(lineMap, i) <==> Live(map0, i)) && (Live(map0, i) ==> lineMap[i] == map0[i])
  }

  /** A line keeps its text, and changes only if some entry claimed it. */
  ghost predicate LineMarked(blocks: seq<Block>, cur: int, final0: seq<Line>, map0: LineMap, final: seq<Line>, j: int)
  {
    0 <= j < |final| && j < |final0| ==>
      && final[j].text == final0[j].text
      && (final[j] == final0[j] || exists i: int :: Claims(blocks, cur, map0, i) && map0[i].value == j)
  }

  /** Lines of the newer file that no block covers, up to line `cur`, are marked as `who`'s. */
  ghost predicate MarkedUpTo(blocks: seq<Block>, cur: int, who: (VersionId, string),
                             final0: seq<Line>, map0: LineMap, final: seq<Line>, lineMap: LineMap)
  {
    && |final| == |final0|
    && (forall i: int :: EntryMarked(blocks, cur, who, map0, final, lineMap, i))
    && (forall j: int :: LineMarked(blocks, cur, final0, map0, final, j))
  }

  lemma NothingMarked(blocks: seq<Block>, who: (VersionId, string), newLines: seq<string>,
                      final: seq<Line>, lineMap: LineMap)
    requires MapInvariant(lineMap, newLines, final)
    ensures MarkedUpTo(blocks, 0, who, final, lineMap, final, lineMap)
  {
    forall i: int
      ensures EntryMarked(blocks, 0, who, lineMap, final, lineMap, i)
    {
      assert EntryFits(lineMap, newLines, final, i);
    }
  }

  /** A line which is matched, or already dead, changes nothing. */
  lemma PassLine(blocks: seq<Block>, cur: int, who: (VersionId, string),
                 final0: seq<Line>, map0: LineMap, final: seq<Line>, lineMap: LineMap)
    requires MarkedUpTo(blocks, cur, who, final0, map0, final, lineMap)
    requires OldLine(blocks, cur).Some? || !Live(map0, cur)
    ensures MarkedUpTo(blocks, cur + 1, who, final0, map0, final, lineMap)
  {
    var next := cur + 1;
    forall i: int
      ensures EntryMarked(blocks, next, who, map0, final, lineMap, i)
    {
      assert EntryMarked(blocks, cur, who, map0, final, lineMap, i);
    }
    forall j: int
      ensures LineMarked(blocks, next, final0, map0, final, j)
    {
      assert LineMarked(blocks, cur, final0, map0, final, j);
      forall i: int | Claims(blocks, cur, map0, i)
        ensures Claims(blocks, next, map0, i)
      {
      }
    }
  }

  /** Marking one unmatched live line. */
  lemma MarkLine(newLines: seq<string>, blocks: seq<Block>, cur: int, who: (VersionId, string),
                 final0: seq<Line>, map0: LineMap, final: seq<Line>, lineMap: LineMap)
    requires MarkedUpTo(blocks, cur, who, final0, map0, final, lineMap)
    requires MapInvariant(lineMap, newLines, final)
    requires OldLine(blocks, cur).None? && Live(lineMap, cur)
    requires 0 <= lineMap[cur].value < |final|
    ensures var j := lineMap[cur].value;
            var marked := final[j := Line(final[j].text, Some(who))];
            && MarkedUpTo(blocks, cur + 1, who, final0, map0, marked, lineMap[cur := None])
            && MapInvariant(lineMap[cur := None], newLines, marked)
  {
    var next, j0, map1 := cur + 1, lineMap[cur].value, lineMap[cur := None];
    var marked := final[j0 := Line(final[j0].text, Some(who))];
    assert EntryMarked(blocks, cur, who, map0, final, lineMap, cur);
    assert Claims(blocks, next, map0, cur) && map0[cur].value == j0;
    forall i: int
      ensures EntryMarked(blocks, next, who, map0, marked, map1, i)
    {
      assert EntryMarked(blocks, cur, who, map0, final, lineMap, i);
    }
    forall j: int
      ensures LineMarked(blocks, next, final0, map0, marked, j)
    {
      assert LineMarked(blocks, cur, final0, map0, final, j);
      forall i: int | Claims(blocks, cur, map0, i)
        ensures Claims(blocks, next, map0, i)
      {
      }
    }
    forall i: int
      ensures EntryFits(map1, newLines, marked, i)
    {
      assert EntryFits(lineMap, newLines, final, i);
      assert EntriesDiffer(lineMap, i, cur);
    }
    forall i: int, k: int
      ensures EntriesDiffer(map1, i, k)
    {
      assert EntriesDiffer(lineMap, i, k);
    }
  }

  method MarkChanged(ghost oldLines: seq<string>, newLines: seq<string>, blocks: seq<Block>,
                     who: (VersionId, string), final0: seq<Line>, map0: LineMap, unmatched0: nat)
    returns (final: seq<Line>, lineMap: LineMap, unmatched: nat)
    requires ValidBlocks(oldLines, newLines, blocks)
    requires MapInvariant(map0, newLines, final0)
    requires unmatched0 == Unattributed(final0)
    ensures MarkedUpTo(blocks, |newLines|, who, final0, map0, final, lineMap)
    ensures MapInvariant(lineMap, newLines, final)
    ensures unmatched == Unattributed(final)
  {
    final, lineMap, unmatched := final0, map0, unmatched0;
    NothingMarked(blocks, who, newLines, final, lineMap);
    var lastStartNew := 0;
    for b := 0 to |blocks|
      invariant lastStartNew == if b == 0 then 0 else blocks[b - 1].startNew + blocks[b - 1].size
      invariant MarkedUpTo(blocks, lastStartNew, who, final0, map0, final, lineMap)
      invariant MapInvariant(lineMap, newLines, final)
      invariant unmatched == Unattributed(final)
    {
      assert lastStartNew <= blocks[b].startNew;
      for i := lastStartNew to blocks[b].startNew
        invariant MarkedUpTo(blocks, i, who, final0, map0, final, lineMap)
        invariant MapInvariant(lineMap, newLines, final)
        invariant unmatched == Unattributed(final)
      {
        GapUnmatched(oldLines, newLines, blocks, b, i);
        if Live(lineMap, i) {
          var j := lineMap[i].value;
          assert EntryFits(lineMap, newLines, final, i);
          assert newLines[i] == final[j].text;
          assert final[j].who.None?;
          MarkLine(newLines, blocks, i, who, final0, map0, final, lineMap);
          UnattributedUpdate(final, j, Line(final[j].text, Some(who)));
          final := final[j := Line(final[j].text, Some(who))];
          lineMap := lineMap[i := None];
          unmatched := unmatched - 1;
        } else {
          assert EntryMarked(blocks, i, who, map0, final, lineMap, i);
          PassLine(blocks, i, who, final0, map0, final, lineMap);
        }
      }
      SkipBlock(oldLines, newLines, blocks, b, blocks[b].size, who, final0, map0, final, lineMap);
      lastStartNew := blocks[b].startNew + blocks[b].size;
    }
  }

  lemma {:induction false} SkipBlock(oldLines: seq<string>, newLines: seq<string>, blocks: seq<Block>, b: nat, n: nat,
                  who: (VersionId, string), final0: seq<Line>, map0: LineMap, final: seq<Line>, lineMap: LineMap)
    requires ValidBlocks(oldLines, newLines, blocks)
    requires b < |blocks| && n <= blocks[b].size
    requires MarkedUpTo(blocks, blocks[b].startNew, who, final0, map0, final, lineMap)
    ensures MarkedUpTo(blocks, blocks[b].startNew + n, who, final0, map0, final, lineMap)
  {
    if n > 0 {
      SkipBlock(oldLines, newLines, blocks, b, n - 1, who, final0, map0, final, lineMap);
      OldLineInBlock(oldLines, newLines, blocks, b, n - 1);
      PassLine(blocks, blocks[b].startNew + n - 1, who, final0, map0, final, lineMap);
    }
  }

  lemma GapUnmatched(oldLines: seq<string>, newLines: seq<string>, blocks: seq<Block>, b: nat, i: int)
    requires ValidBlocks(oldLines, newLines, blocks)
    requires b < |blocks| && i < blocks[b].startNew
    requires b > 0 ==> blocks[b - 1].startNew + blocks[b - 1].size <= i
    ensures OldLine(blocks, i).None?
  {
    forall c | 0 <= c < |blocks|
      ensures !Covers(blocks[c], i)
    {
      if c < b - 1 {
        assert blocks[c].startNew + blocks[c].size <= blocks[b - 1].startNew;
      } else if c > b {
        assert blocks[b].startNew + blocks[b].size <= blocks[c].startNew;
      }
    }
  }

  // ---------------------------------------------------------------- moving the map to the older file

  ghost predicate Moved(blocks: seq<Block>, map0: LineMap, i: int)
  {
    Live(map0, i) && OldLine(blocks, i).Some? && OldLine(blocks, i).value != i
  }

  /** Entry `i`, about a line before `cur`, moves to `q`. */
  ghost predicate MovesTo(blocks: seq<Block>, map0: LineMap, cur: int, i: int, q: int)
  {
    Moved(blocks, map0, i) && i < cur && OldLine(blocks, i) == Some(q)
  }

  ghost predicate NewPlaceSet(blocks: seq<Block>, map0: LineMap, cur: int, changes: LineMap, i: int)
  {
    Moved(blocks, map0, i) && i < cur ==>
      && i in changes
      && OldLine(blocks, i).value in changes
      && changes[OldLine(blocks, i).value] == map0[i]
  }

  ghost predicate ChangeJustified(blocks: seq<Block>, map0: LineMap, cur: int, changes: LineMap, q: int)
  {
    && (Live(changes, q) ==> exists i: int :: MovesTo(blocks, map0, cur, i, q) && changes[q] == map0[i])
    && (Dead(changes, q) ==> Moved(blocks, map0, q) && q < cur)
  }

  /** `changes` holds what lines before `cur` contribute: the new place of every moved
      entry, and a dead entry at its former place unless another entry moved there. */
  ghost predicate ChangesUpTo(blocks: seq<Block>, map0: LineMap, cur: int, changes: LineMap)
  {
    && (forall i: int :: NewPlaceSet(blocks, map0, cur, changes, i))
    && (forall q: int :: ChangeJustified(blocks, map0, cur, changes, q))
  }

  lemma NothingMoves(blocks: seq<Block>, map0: LineMap, cur: int, next: int, changes: LineMap)
    requires ChangesUpTo(blocks, map0, cur, changes)
    requires cur <= next
    requires forall i: int :: cur <= i < next ==> !Moved(blocks, map0, i)
    ensures ChangesUpTo(blocks, map0, next, changes)
  {
    forall i: int
      ensures NewPlaceSet(blocks, map0, next, changes, i)
    {
      assert NewPlaceSet(blocks, map0, cur, changes, i);
    }
    forall q: int
      ensures ChangeJustified(blocks, map0, next, changes, q)
    {
      assert ChangeJustified(blocks, map0, cur, changes, q);
      forall i: int | MovesTo(blocks, map0, cur, i, q)
        ensures MovesTo(blocks, map0, next, i, q)
      {
      }
    }
  }

  /** What the loop does to `changes` for one matched pair of lines. */
  function Move(map0: LineMap, i: int, p: int, changes: LineMap): LineMap
  {
    if Live(map0, i) then
      var moved := changes[p := map0[i]];
      if i in moved then moved else moved[i := None]
    else
      changes
  }

  lemma OneMoves(blocks: seq<Block>, map0: LineMap, i: int, changes: LineMap)
    requires ChangesUpTo(blocks, map0, i, changes)
    requires Moved(blocks, map0, i)
    requires forall k: int :: Moved(blocks, map0, k) && k < i ==> OldLine(blocks, k) != OldLine(blocks, i)
    ensures ChangesUpTo(blocks, map0, i + 1, Move(map0, i, OldLine(blocks, i).value, changes))
  {
    var cur, p := i + 1, OldLine(blocks, i).value;
    var next := Move(map0, i, p, changes);
    assert MovesTo(blocks, map0, cur, i, p);
    forall k: int
      ensures NewPlaceSet(blocks, map0, cur, next, k)
    {
      assert NewPlaceSet(blocks, map0, i, changes, k);
    }
    forall q: int
      ensures ChangeJustified(blocks, map0, cur, next, q)
    {
      assert ChangeJustified(blocks, map0, i, changes, q);
      forall k: int | MovesTo(blocks, map0, i, k, q)
        ensures MovesTo(blocks, map0, cur, k, q)
      {
      }
    }
  }

  /** A live entry of the newer file ends up exactly where its line is in the older file. */
  ghost predicate Shifted(blocks: seq<Block>, map0: LineMap, lineMap: LineMap)
  {
    && (forall i: int :: EntryShifted(blocks, map0, lineMap, i))
    && (forall p: int :: CameFromNewer(blocks, map0, lineMap, p))
  }

  ghost predicate EntryShifted(blocks: seq<Block>, map0: LineMap, lineMap: LineMap, i: int)
  {
    Live(map0, i) && OldLine(blocks, i).Some? ==>
      Live(lineMap, OldLine(blocks, i).value) && lineMap[OldLine(blocks, i).value] == map0[i]
  }

  ghost predicate CameFromNewer(blocks: seq<Block>, map0: LineMap, lineMap: LineMap, p: int)
  {
    Live(lineMap, p) ==> exists i: int :: Live(map0, i) && OldLine(blocks, i) == Some(p) && lineMap[p] == map0[i]
  }

  lemma ChangesShift(oldLines: seq<string>, newLines: seq<string>, blocks: seq<Block>, map0: LineMap, cur: int,
                     changes: LineMap)
    requires ValidBlocks(oldLines, newLines, blocks)
    requires forall i: int :: Live(map0, i) ==> i < cur && OldLine(blocks, i).Some?
    requires ChangesUpTo(blocks, map0, cur, changes)
    ensures Shifted(blocks, map0, map0 + changes)
  {
    var lineMap := map0 + changes;
    forall i: int
      ensures EntryShifted(blocks, map0, lineMap, i)
    {
      assert NewPlaceSet(blocks, map0, cur, changes, i);
      assert ChangeJustified(blocks, map0, cur, changes, i);
      if Live(map0, i) && OldLine(blocks, i) == Some(i) && Live(changes, i) {
        var k: int :| MovesTo(blocks, map0, cur, k, i) && changes[i] == map0[k];
        OldLineInjective(oldLines, newLines, blocks, k, i);
      }
    }
    forall p: int
      ensures CameFromNewer(blocks, map0, lineMap, p)
    {
      assert ChangeJustified(blocks, map0, cur, changes, p);
      assert NewPlaceSet(blocks, map0, cur, changes, p);
      if Live(lineMap, p) {
        if p in changes {
          var i: int :| MovesTo(blocks, map0, cur, i, p) && changes[p] == map0[i];
          assert Live(map0, i);
        } else {
          assert Live(map0, p) && !Moved(blocks, map0, p);
        }
      }
    }
  }

  lemma PlacesDiffer(oldLines: seq<string>, newLines: seq<string>, blocks: seq<Block>, map0: LineMap, i: int)
    requires ValidBlocks(oldLines, newLines, blocks)
    ensures forall k: int :: Moved(blocks, map0, k) && k < i ==> OldLine(blocks, k) != OldLine(blocks, i)
  {
    forall k: int | Moved(blocks, map0, k) && k < i
      ensures OldLine(blocks, k) != OldLine(blocks, i)
    {
      if OldLine(blocks, k) == OldLine(blocks, i) {
        OldLineInjective(oldLines, newLines, blocks, k, i);
      }
    }
  }

  lemma MoveLine(oldLines: seq<string>, newLines: seq<string>, blocks: seq<Block>, b: nat, t: nat,
                 map0: LineMap, changes: LineMap)
    requires ValidBlocks(oldLines, newLines, blocks)
    requires b < |blocks| && blocks[b].startOld != blocks[b].startNew && t < blocks[b].size
    requires ChangesUpTo(blocks, map0, blocks[b].startNew + t, changes)
    ensures ChangesUpTo(blocks, map0, blocks[b].startNew + t + 1,
                        Move(map0, blocks[b].startNew + t, blocks[b].startOld + t, changes))
  {
    var i := blocks[b].startNew + t;
    OldLineInBlock(oldLines, newLines, blocks, b, t);
    if Live(map0, i) {
      PlacesDiffer(oldLines, newLines, blocks, map0, i);
      OneMoves(blocks, map0, i, changes);
    } else {
      NothingMoves(blocks, map0, i, i + 1, changes);
    }
  }

  method ShiftBlock(ghost oldLines: seq<string>, ghost newLines: seq<string>, blocks: seq<Block>, b: nat,
                    map0: LineMap, changes0: LineMap)
    returns (changes: LineMap)
    requires ValidBlocks(oldLines, newLines, blocks)
    requires b < |blocks| && blocks[b].startOld != blocks[b].startNew
    requires ChangesUpTo(blocks, map0, blocks[b].startNew, changes0)
    ensures ChangesUpTo(blocks, map0, blocks[b].startNew + blocks[b].size, changes)
  {
    var block := blocks[b];
    changes := changes0;
    for t := 0 to block.size
      invariant ChangesUpTo(blocks, map0, block.startNew + t, changes)
    {
      MoveLine(oldLines, newLines, blocks, b, t, map0, changes);
      changes := Move(map0, block.startNew + t, block.startOld + t, changes);
    }
  }

  lemma GapMovesNothing(oldLines: seq<string>, newLines: seq<string>, blocks: seq<Block>, b: nat, cur: int,
                        map0: LineMap, changes: LineMap)
    requires ValidBlocks(oldLines, newLines, blocks) && b < |blocks|
    requires cur == if b == 0 then 0 else blocks[b - 1].startNew + blocks[b - 1].size
    requires ChangesUpTo(blocks, map0, cur, changes)
    ensures ChangesUpTo(blocks, map0, blocks[b].startNew, changes)
  {
    assert cur <= blocks[b].startNew;
    forall i: int | cur <= i < blocks[b].startNew
      ensures !Moved(blocks, map0, i)
    {
      GapUnmatched(oldLines, newLines, blocks, b, i);
    }
    NothingMoves(blocks, map0, cur, blocks[b].startNew, changes);
  }

  lemma AlignedBlockMovesNothing(oldLines: seq<string>, newLines: seq<string>, blocks: seq<Block>, b: nat,
                                 map0: LineMap, changes: LineMap)
    requires ValidBlocks(oldLines, newLines, blocks)
    requires b < |blocks| && blocks[b].startOld == blocks[b].startNew
    requires ChangesUpTo(blocks, map0, blocks[b].startNew, changes)
    ensures ChangesUpTo(blocks, map0, blocks[b].startNew + blocks[b].size, changes)
  {
    forall i: int | blocks[b].startNew <= i < blocks[b].startNew + blocks[b].size
      ensures !Moved(blocks, map0, i)
    {
      OldLineInBlock(oldLines, newLines, blocks, b, i - blocks[b].startNew);
    }
    NothingMoves(blocks, map0, blocks[b].startNew, blocks[b].startNew + blocks[b].size, changes);
  }

  method ShiftMap(ghost oldLines: seq<string>, ghost newLines: seq<string>, blocks: seq<Block>, map0: LineMap)
    returns (lineMap: LineMap)
    requires ValidBlocks(oldLines, newLines, blocks)
    requires forall i: int :: Live(map0, i) ==> 0 <= i < |newLines| && OldLine(blocks, i).Some?
    ensures Shifted(blocks, map0, lineMap)
  {
    var changes: LineMap := map[];
    ghost var cur := 0;
    for b := 0 to |blocks|
      invariant cur == if b == 0 then 0 else blocks[b - 1].startNew + blocks[b - 1].size
      invariant ChangesUpTo(blocks, map0, cur, changes)
    {
      GapMovesNothing(oldLines, newLines, blocks, b, cur, map0, changes);
      cur := blocks[b].startNew + blocks[b].size;
      if blocks[b].startOld == blocks[b].startNew {
        AlignedBlockMovesNothing(oldLines, newLines, blocks, b, map0, changes);
        continue;
      }
      changes := ShiftBlock(oldLines, newLines, blocks, b, map0, changes);
    }
    ChangesShift(oldLines, newLines, blocks, map0, cur, changes);
    lineMap := map0 + changes;
  }

  // ---------------------------------------------------------------- the walk and the reference answer agree

  /** A traced line is inside the older file and has the text of the final line. */
  lemma {:induction false} TraceSameText(hist: seq<Commit>, contents: Contents, matcher: Matcher, k: nat, j: nat)
    requires ValidMatcher(matcher)
    requires k < |hist| && hist[0].file.Some?
    requires Trace(hist, contents, matcher, k, j).Some?
    ensures hist[k].file.Some?
    ensures j < |LinesAt(hist, contents, 0)|
    ensures Trace(hist, contents, matcher, k, j).value < |LinesAt(hist, contents, k)|
    ensures LinesAt(hist, contents, k)[Trace(hist, contents, matcher, k, j).value] == LinesAt(hist, contents, 0)[j]
  {
    if k > 0 {
      TraceSameText(hist, contents, matcher, k - 1, j);
      if hist[k].file != hist[k - 1].file {
        var old_, new_ := LinesAt(hist, contents, k), LinesAt(hist, contents, k - 1);
        assert ValidBlocks(old_, new_, matcher(old_, new_));
        OldLineSameText(old_, new_, matcher(old_, new_), Trace(hist, contents, matcher, k - 1, j).value);
      }
    }
  }

  /** A line traced to version `k` was traced to every newer visited version. */
  lemma {:induction false} TraceEarlier(hist: seq<Commit>, contents: Contents, matcher: Matcher, m: nat, k: nat, j: nat)
    requires m <= k < |hist|
    requires Trace(hist, contents, matcher, k, j).Some?
    ensures Trace(hist, contents, matcher, m, j).Some?
  {
    if m < k {
      TraceEarlier(hist, contents, matcher, m, k - 1, j);
    }
  }

  /** Blame falls on version `k` when the trace gets exactly that far. */
  lemma {:induction false} BlamedWhereTraceStops(hist: seq<Commit>, contents: Contents, matcher: Matcher,
                                                 m: nat, k: nat, j: nat)
    requires m <= k < |hist|
    requires Trace(hist, contents, matcher, k, j).Some?
    requires k + 1 == |hist| || (hist[k + 1].file.Some? && Trace(hist, contents, matcher, k + 1, j).None?)
    ensures Blamed(hist, contents, matcher, m, j) == k
    decreases k - m
  {
    if m < k {
      TraceEarlier(hist, contents, matcher, m + 1, k, j);
      BlamedWhereTraceStops(hist, contents, matcher, m + 1, k, j);
    }
  }

  /** If the walk ended at a version without the file, lines that lasted are blamed on it. */
  lemma {:induction false} BlamedOnMissing(hist: seq<Commit>, contents: Contents, matcher: Matcher, m: nat, j: nat)
    requires |hist| >= 2 && m <= |hist| - 2
    requires hist[|hist| - 1].file.None?
    requires Trace(hist, contents, matcher, |hist| - 2, j).Some?
    ensures Blamed(hist, contents, matcher, m, j) == |hist| - 1
    decreases |hist| - m
  {
    if m < |hist| - 2 {
      TraceEarlier(hist, contents, matcher, m + 1, |hist| - 2, j);
      BlamedOnMissing(hist, contents, matcher, m + 1, j);
    }
  }

  /** Final line `j` says, about the versions up to `k`, what the reference answer says. */
  ghost predicate LineRight(hist: seq<Commit>, contents: Contents, matcher: Matcher, k: nat, final: seq<Line>, j: nat)
    requires k < |hist| && hist[0].file.Some? && |final| == |LinesAt(hist, contents, 0)|
  {
    j < |final| ==>
      final[j] == Line(LinesAt(hist, contents, 0)[j],
                       if Trace(hist, contents, matcher, k, j).Some? then None
                       else Some(Credit(hist, contents, matcher, j)))
  }

  ghost predicate Annotated(hist: seq<Commit>, contents: Contents, matcher: Matcher, k: nat, final: seq<Line>)
    requires k < |hist| && hist[0].file.Some?
  {
    && |final| == |LinesAt(hist, contents, 0)|
    && forall j: nat :: LineRight(hist, contents, matcher, k, final, j)
  }

  /** If line `j` is traced to version `k`, the map has its live entry. */
  ghost predicate TracedIsLive(hist: seq<Commit>, contents: Contents, matcher: Matcher, k: nat, lineMap: LineMap, j: nat)
    requires k < |hist|
  {
    var t := Trace(hist, contents, matcher, k, j);
    t.Some? ==> Live(lineMap, t.value) && lineMap[t.value] == Some(j)
  }

  /** If entry `i` of the map is live, it is the trace of the line it points to. */
  ghost predicate LiveIsTraced(hist: seq<Commit>, contents: Contents, matcher: Matcher, k: nat, lineMap: LineMap, i: int)
    requires k < |hist|
  {
    Live(lineMap, i) ==> 0 <= lineMap[i].value && Trace(hist, contents, matcher, k, lineMap[i].value) == Some(i)
  }

  /** The line map is the inverse of the trace to version `k`. */
  ghost predicate MapIsTrace(hist: seq<Commit>, contents: Contents, matcher: Matcher, k: nat, lineMap: LineMap)
    requires k < |hist|
  {
    && (forall j: nat :: TracedIsLive(hist, contents, matcher, k, lineMap, j))
    && (forall i: int :: LiveIsTraced(hist, contents, matcher, k, lineMap, i))
  }

  /** The live entries of the map. */
  function LiveEntries(lineMap: LineMap): set<int>
  {
    set i | i in lineMap && lineMap[i].Some?
  }

  function OpenLines(lines: seq<Line>): set<int>
  {
    set j | 0 <= j < |lines| && lines[j].who.None?
  }

  lemma OneMoreOpen(lines: seq<Line>, line: Line)
    ensures OpenLines(lines + [line]) == OpenLines(lines) + if line.who.None? then {|lines|} else {}
  {
  }

  lemma {:induction false} OpenLinesCounted(lines: seq<Line>)
    ensures |OpenLines(lines)| == Unattributed(lines)
  {
    if lines != [] {
      var before, last := lines[..|lines| - 1], lines[|lines| - 1];
      OpenLinesCounted(before);
      UnattributedAppend(before, last);
      assert lines == before + [last];
      OneMoreOpen(before, last);
    }
  }

  ghost predicate Hit<K, V>(f: map<K, V>, keys: set<K>, v: V)
  {
    exists k :: k in keys && k in f && f[k] == v
  }

  /** `f` takes `keys` one to one onto `values`. */
  lemma {:induction false} OneToOneCount<K, V>(f: map<K, V>, keys: set<K>, values: set<V>)
    requires forall k :: k in keys ==> k in f && f[k] in values
    requires forall k, m :: k in keys && m in keys && f[k] == f[m] ==> k == m
    requires forall v :: v in values ==> Hit(f, keys, v)
    ensures |keys| == |values|
  {
    if keys == {} {
      forall v
        ensures v !in values
      {
        assert v in values ==> Hit(f, keys, v);
      }
      assert values == {};
    } else {
      var k :| k in keys;
      forall v | v in values - {f[k]}
        ensures Hit(f, keys - {k}, v)
      {
        assert Hit(f, keys, v);
        var m :| m in keys && m in f && f[m] == v;
        assert m in keys - {k};
      }
      OneToOneCount(f, keys - {k}, values - {f[k]});
    }
  }

  /** The live entries are as many as the lines not annotated yet. */
  lemma LiveAreOpen(hist: seq<Commit>, contents: Contents, matcher: Matcher, k: nat, final: seq<Line>, lineMap: LineMap)
    requires ValidMatcher(matcher)
    requires k < |hist| && hist[0].file.Some? && hist[k].file.Some?
    requires Annotated(hist, contents, matcher, k, final)
    requires MapIsTrace(hist, contents, matcher, k, lineMap)
    ensures |LiveEntries(lineMap)| == Unattributed(final)
  {
    var f := map i | i in LiveEntries(lineMap) :: lineMap[i].value;
    forall i | i in LiveEntries(lineMap)
      ensures i in f && f[i] in OpenLines(final) && Trace(hist, contents, matcher, k, f[i]) == Some(i)
    {
      assert LiveIsTraced(hist, contents, matcher, k, lineMap, i);
      TraceSameText(hist, contents, matcher, k, lineMap[i].value);
      assert LineRight(hist, contents, matcher, k, final, lineMap[i].value);
    }
    forall j | j in OpenLines(final)
      ensures Hit(f, LiveEntries(lineMap), j)
    {
      assert LineRight(hist, contents, matcher, k, final, j);
      assert TracedIsLive(hist, contents, matcher, k, lineMap, j);
      assert Trace(hist, contents, matcher, k, j).value in LiveEntries(lineMap);
    }
    OneToOneCount(f, LiveEntries(lineMap), OpenLines(final));
    OpenLinesCounted(final);
  }

  /** So every assertion of the code about the line map holds, and the count of lines not annotated yet
      is the number of its live entries. */
  lemma TraceGivesInvariant(hist: seq<Commit>, contents: Contents, matcher: Matcher, k: nat,
                            final: seq<Line>, lineMap: LineMap)
    requires ValidMatcher(matcher)
    requires k < |hist| && hist[0].file.Some? && hist[k].file.Some?
    requires Annotated(hist, contents, matcher, k, final)
    requires MapIsTrace(hist, contents, matcher, k, lineMap)
    ensures MapInvariant(lineMap, LinesAt(hist, contents, k), final)
    ensures |LiveEntries(lineMap)| == Unattributed(final)
  {
    LiveAreOpen(hist, contents, matcher, k, final, lineMap);
    forall i: int
      ensures EntryFits(lineMap, LinesAt(hist, contents, k), final, i)
    {
      assert LiveIsTraced(hist, contents, matcher, k, lineMap, i);
      if Live(lineMap, i) {
        TraceSameText(hist, contents, matcher, k, lineMap[i].value);
        assert LineRight(hist, contents, matcher, k, final, lineMap[i].value);
      }
    }
    forall i: int, m: int
      ensures EntriesDiffer(lineMap, i, m)
    {
      assert LiveIsTraced(hist, contents, matcher, k, lineMap, i);
      assert LiveIsTraced(hist, contents, matcher, k, lineMap, m);
    }
  }

  /** Marking what the next older version lacks brings the final lines up to that version. */
  lemma MarkingAnnotates(hist: seq<Commit>, contents: Contents, matcher: Matcher, k: nat, who: (VersionId, string),
                         final0: seq<Line>, map0: LineMap, final: seq<Line>, map1: LineMap)
    requires ValidMatcher(matcher)
    requires k + 1 < |hist| && hist[0].file.Some? && hist[k].file.Some? && hist[k + 1].file.Some?
    requires hist[k].file != hist[k + 1].file
    requires Annotated(hist, contents, matcher, k, final0)
    requires MapIsTrace(hist, contents, matcher, k, map0)
    requires who == (hist[k].version, hist[RunStart(hist, k)].contact)
    requires MarkedUpTo(matcher(LinesAt(hist, contents, k + 1), LinesAt(hist, contents, k)),
                        |LinesAt(hist, contents, k)|, who, final0, map0, final, map1)
    ensures Annotated(hist, contents, matcher, k + 1, final)
  {
    var blocks := matcher(LinesAt(hist, contents, k + 1), LinesAt(hist, contents, k));
    var older := k + 1;
    forall j: nat
      ensures LineRight(hist, contents, matcher, older, final, j)
    {
      assert LineRight(hist, contents, matcher, k, final0, j);
      assert TracedIsLive(hist, contents, matcher, k, map0, j);
      assert LineMarked(blocks, |LinesAt(hist, contents, k)|, final0, map0, final, j);
      var t := Trace(hist, contents, matcher, k, j);
      if j < |final| && t.Some? {
        TraceSameText(hist, contents, matcher, k, j);
        assert EntryMarked(blocks, |LinesAt(hist, contents, k)|, who, map0, final, map1, t.value);
        if OldLine(blocks, t.value).None? {
          BlamedWhereTraceStops(hist, contents, matcher, 0, k, j);
        }
      }
      if j < |final| && final[j] != final0[j] {
        var i: int :| Claims(blocks, |LinesAt(hist, contents, k)|, map0, i) && map0[i].value == j;
        assert LiveIsTraced(hist, contents, matcher, k, map0, i);
      }
    }
  }


  lemma ShiftedTracedIsLive(hist: seq<Commit>, contents: Contents, matcher: Matcher, k: nat,
                            who: (VersionId, string), final: seq<Line>,
                            map0: LineMap, map1: LineMap, lineMap: LineMap, j: nat)
    requires ValidMatcher(matcher)
    requires k + 1 < |hist| && hist[0].file.Some? && hist[k].file.Some? && hist[k + 1].file.Some?
    requires hist[k].file != hist[k + 1].file
    requires TracedIsLive(hist, contents, matcher, k, map0, j)
    requires var blocks := matcher(LinesAt(hist, contents, k + 1), LinesAt(hist, contents, k));
             && (forall i: int :: EntryMarked(blocks, |LinesAt(hist, contents, k)|, who, map0, final, map1, i))
             && Shifted(blocks, map1, lineMap)
    ensures TracedIsLive(hist, contents, matcher, k + 1, lineMap, j)
  {
    if Trace(hist, contents, matcher, k + 1, j).Some? {
      var i := Trace(hist, contents, matcher, k, j).value;
      assert EntryMarked(matcher(LinesAt(hist, contents, k + 1), LinesAt(hist, contents, k)),
                         |LinesAt(hist, contents, k)|, who, map0, final, map1, i);
      assert EntryShifted(matcher(LinesAt(hist, contents, k + 1), LinesAt(hist, contents, k)), map1, lineMap, i);
    }
  }

  lemma ShiftedLiveIsTraced(hist: seq<Commit>, contents: Contents, matcher: Matcher, k: nat,
                            who: (VersionId, string), final: seq<Line>,
                            map0: LineMap, map1: LineMap, lineMap: LineMap, p: int)
    requires ValidMatcher(matcher)
    requires k + 1 < |hist| && hist[0].file.Some? && hist[k].file.Some? && hist[k + 1].file.Some?
    requires hist[k].file != hist[k + 1].file
    requires forall i: int :: LiveIsTraced(hist, contents, matcher, k, map0, i)
    requires var blocks := matcher(LinesAt(hist, contents, k + 1), LinesAt(hist, contents, k));
             && (forall i: int :: EntryMarked(blocks, |LinesAt(hist, contents, k)|, who, map0, final, map1, i))
             && Shifted(blocks, map1, lineMap)
    ensures LiveIsTraced(hist, contents, matcher, k + 1, lineMap, p)
  {
    var blocks := matcher(LinesAt(hist, contents, k + 1), LinesAt(hist, contents, k));
    assert CameFromNewer(blocks, map1, lineMap, p);
    if Live(lineMap, p) {
      var i: int :| Live(map1, i) && OldLine(blocks, i) == Some(p) && lineMap[p] == map1[i];
      assert EntryMarked(blocks, |LinesAt(hist, contents, k)|, who, map0, final, map1, i);
      assert LiveIsTraced(hist, contents, matcher, k, map0, i);
    }
  }

  /** Shifting the map brings it up to the next older version. */
  lemma ShiftingTraces(hist: seq<Commit>, contents: Contents, matcher: Matcher, k: nat,
                       who: (VersionId, string), final: seq<Line>,
                       map0: LineMap, map1: LineMap, lineMap: LineMap)
    requires ValidMatcher(matcher)
    requires k + 1 < |hist| && hist[0].file.Some? && hist[k].file.Some? && hist[k + 1].file.Some?
    requires hist[k].file != hist[k + 1].file
    requires MapIsTrace(hist, contents, matcher, k, map0)
    requires var blocks := matcher(LinesAt(hist, contents, k + 1), LinesAt(hist, contents, k));
             && (forall i: int :: EntryMarked(blocks, |LinesAt(hist, contents, k)|, who, map0, final, map1, i))
             && Shifted(blocks, map1, lineMap)
    ensures MapIsTrace(hist, contents, matcher, k + 1, lineMap)
  {
    var older := k + 1;
    forall j: nat
      ensures TracedIsLive(hist, contents, matcher, older, lineMap, j)
    {
      assert TracedIsLive(hist, contents, matcher, k, map0, j);
      ShiftedTracedIsLive(hist, contents, matcher, k, who, final, map0, map1, lineMap, j);
    }
    forall p: int
      ensures LiveIsTraced(hist, contents, matcher, older, lineMap, p)
    {
      ShiftedLiveIsTraced(hist, contents, matcher, k, who, final, map0, map1, lineMap, p);
    }
  }

  // ---------------------------------------------------------------- the loop of annotate

  lemma {:induction false} UpToMissingAt(walk: seq<Commit>, n: nat)
    requires n < |walk| && forall m :: 0 <= m < n ==> walk[m].file.Some?
    ensures n < |UpToMissing(walk)|
    ensures UpToMissing(walk)[..n + 1] == walk[..n + 1]
    ensures walk[n].file.None? ==> |UpToMissing(walk)| == n + 1
    ensures n + 1 == |walk| ==> UpToMissing(walk) == walk
  {
    if n > 0 {
      UpToMissingAt(walk[1..], n - 1);
      assert UpToMissing(walk) == [walk[0]] + UpToMissing(walk[1..]);
      assert walk[..n + 1] == [walk[0]] + walk[1..][..n];
      assert UpToMissing(walk)[..n + 1] == [walk[0]] + UpToMissing(walk[1..])[..n];
    }
  }

  lemma {:induction false} ReverseLast<T>(s: seq<T>)
    requires s != []
    ensures Reverse(s) == [s[|s| - 1]] + Reverse(s[..|s| - 1])
  {
    if |s| > 1 {
      ReverseLast(s[1..]);
      assert s[1..][..|s| - 2] == s[..|s| - 1][1..];
      assert s[..|s| - 1][0] == s[0];
    }
  }

  /** What is left of the walk when `verList` is still to be popped on branch `level`. */
  ghost function Remaining(branches: seq<seq<Commit>>, level: nat, now: nat, verList: seq<Commit>): seq<Commit>
    requires level < |branches|
  {
    if verList == [] then [] else Reverse(verList) + Parents(branches, level, now)
  }

  lemma WalkRemaining(branches: seq<seq<Commit>>, level: nat, now: nat)
    requires level < |branches|
    ensures Walk(branches, level, now) == Remaining(branches, level, now, NotAfter(branches[level], now))
  {
    var here := NotAfter(branches[level], now);
    assert |Reverse(here)| == |here|;
  }

  lemma ConsAppend<T>(x: T, s: seq<T>, t: seq<T>)
    ensures [x] + s + t == [x] + (s + t)
    ensures ([x] + (s + t))[1..] == s + t
  {
  }

  lemma PopRemaining(branches: seq<seq<Commit>>, level: nat, now: nat, verList: seq<Commit>)
    requires level < |branches| && verList != []
    ensures Remaining(branches, level, now, verList) ==
              [verList[|verList| - 1]] + (Reverse(verList[..|verList| - 1]) + Parents(branches, level, now))
  {
    ReverseLast(verList);
    ConsAppend(verList[|verList| - 1], Reverse(verList[..|verList| - 1]), Parents(branches, level, now));
  }

  /** Lines still unattributed when the walk is over go to the last version looked at. */
  method AttributeRest(final0: seq<Line>, who: (VersionId, string)) returns (final: seq<Line>)
    ensures |final| == |final0|
    ensures forall j :: 0 <= j < |final| ==>
              final[j] == if final0[j].who.None? then Line(final0[j].text, Some(who)) else final0[j]
  {
    final := final0;
    for j := 0 to |final0|
      invariant |final| == |final0|
      invariant forall i :: 0 <= i < |final| ==>
                  final[i] == if i < j && final0[i].who.None? then Line(final0[i].text, Some(who)) else final0[i]
    {
      if final[j].who.None? {
        final := final[j := Line(final[j].text, Some(who))];
      }
    }
  }

  /** The first version visited sets up the final lines and the identity line map. */
  method Initialise(ghost hist: seq<Commit>, ghost contents: Contents, ghost matcher: Matcher, oldLines: seq<string>)
    returns (final: seq<Line>, lineMap: LineMap, unmatched: nat)
    requires |hist| > 0 && hist[0].file.Some? && oldLines == LinesAt(hist, contents, 0)
    ensures Annotated(hist, contents, matcher, 0, final)
    ensures MapIsTrace(hist, contents, matcher, 0, lineMap)
    ensures unmatched == Unattributed(final)
  {
    final, lineMap := [], map[];
    var index := 0;
    for i := 0 to |oldLines|
      invariant index == i == |final| == Unattributed(final)
      invariant forall j :: 0 <= j < i ==> final[j] == Line(oldLines[j], None)
      invariant forall j: int :: j in lineMap <==> 0 <= j < i
      invariant forall j: int :: j in lineMap ==> lineMap[j] == Some(j)
    {
      UnattributedAppend(final, Line(oldLines[i], None));
      final := final + [Line(oldLines[i], None)];
      lineMap := lineMap[index := Some(index)];
      index := index + 1;
    }
    unmatched := index;
    assert forall j: nat :: TracedIsLive(hist, contents, matcher, 0, lineMap, j);
    assert forall i: int :: LiveIsTraced(hist, contents, matcher, 0, lineMap, i);
  }

  lemma {:induction false} UnattributedAppend(lines: seq<Line>, line: Line)
    ensures Unattributed(lines + [line]) == Unattributed(lines) + (if line.who.None? then 1 else 0)
  {
    if lines == [] {
      assert lines + [line] == [line];
    } else {
      assert (lines + [line])[1..] == lines[1..] + [line];
      UnattributedAppend(lines[1..], line);
    }
  }

  /** Comparing the file with an older one: mark what is newer, then move the line map. */
  method Compare(ghost hist: seq<Commit>, ghost contents: Contents, matcher: Matcher, ghost k: nat,
                 oldLines: seq<string>, newLines: seq<string>, who: (VersionId, string),
                 final0: seq<Line>, map0: LineMap, unmatched0: nat)
    returns (final: seq<Line>, lineMap: LineMap, unmatched: nat)
    requires ValidMatcher(matcher)
    requires k + 1 < |hist| && hist[0].file.Some? && hist[k].file.Some? && hist[k + 1].file.Some?
    requires hist[k].file != hist[k + 1].file
    requires newLines == LinesAt(hist, contents, k) && oldLines == LinesAt(hist, contents, k + 1)
    requires who == (hist[k].version, hist[RunStart(hist, k)].contact)
    requires Annotated(hist, contents, matcher, k, final0)
    requires MapIsTrace(hist, contents, matcher, k, map0)
    requires unmatched0 == Unattributed(final0)
    ensures Annotated(hist, contents, matcher, k + 1, final)
    ensures unmatched == Unattributed(final)
    ensures unmatched != 0 ==> MapIsTrace(hist, contents, matcher, k + 1, lineMap)
  {
    TraceGivesInvariant(hist, contents, matcher, k, final0, map0);
    forall i: int | 0 <= i < |newLines| && Live(map0, i)
      ensures 0 <= map0[i].value < |final0| && newLines[i] == final0[map0[i].value].text
    {
      assert EntryFits(map0, newLines, final0, i);
    }
    var blocks := matcher(oldLines, newLines);
    final, lineMap, unmatched := MarkChanged(oldLines, newLines, blocks, who, final0, map0, unmatched0);
    MarkingAnnotates(hist, contents, matcher, k, who, final0, map0, final, lineMap);
    if unmatched == 0 {
      return;
    }
    ghost var map1 := lineMap;
    forall i: int | Live(map1, i)
      ensures 0 <= i < |newLines| && OldLine(blocks, i).Some?
    {
      assert EntryFits(map1, newLines, final, i);
      assert EntryMarked(blocks, |newLines|, who, map0, final, map1, i);
      assert !Claims(blocks, |newLines|, map0, i);
    }
    lineMap := ShiftMap(oldLines, newLines, blocks, lineMap);
    ShiftingTraces(hist, contents, matcher, k, who, final, map0, map1, lineMap);
  }

  /** The variables of the loop once the first `n` versions of `hist` have been visited. */
  ghost predicate InStep(hist: seq<Commit>, contents: Contents, matcher: Matcher, n: nat,
                         newCommit: Option<Commit>, newContact: string, newLines: seq<string>,
                         final: seq<Line>, lineMap: LineMap, unmatched: nat)
  {
    && n <= |hist|
    && newCommit == (if n == 0 then None else Some(hist[n - 1]))
    && (n > 0 ==>
          && hist[0].file.Some? && hist[n - 1].file.Some?
          && newLines == LinesAt(hist, contents, n - 1)
          && newContact == hist[RunStart(hist, n - 1)].contact
          && Annotated(hist, contents, matcher, n - 1, final)
          && MapIsTrace(hist, contents, matcher, n - 1, lineMap)
          && MapInvariant(lineMap, newLines, final)
          && unmatched == Unattributed(final) == |LiveEntries(lineMap)|)
  }

  /** Once the loop is over: the final lines are right about the versions up to `k`, and any
      line they leave open lasted to the last version looked at. */
  ghost predicate Settled(hist: seq<Commit>, contents: Contents, matcher: Matcher, k: nat,
                          oldCommit: Option<Commit>, final: seq<Line>, unmatched: nat)
  {
    && k < |hist| && hist[0].file.Some? && oldCommit.Some?
    && Annotated(hist, contents, matcher, k, final)
    && unmatched == Unattributed(final)
    && (unmatched > 0 ==> AtTheEnd(hist, k) && oldCommit == Some(hist[|hist| - 1]))
  }

  /** One round of the loop. `stop` is one of the two early exits: a version without the file,
      or no line left to attribute. */
  method Visit(ghost hist: seq<Commit>, contents: Contents, matcher: Matcher, ghost n: nat, old_: Commit,
               newCommit0: Option<Commit>, newContact0: string, newLines0: seq<string>,
               final0: seq<Line>, map0: LineMap, unmatched0: nat)
    returns (stop: bool, newCommit: Option<Commit>, newContact: string, newLines: seq<string>,
             final: seq<Line>, lineMap: LineMap, unmatched: nat)
    requires ValidMatcher(matcher)
    requires n < |hist| && hist[n] == old_ && (old_.file.None? ==> |hist| == n + 1)
    requires InStep(hist, contents, matcher, n, newCommit0, newContact0, newLines0, final0, map0, unmatched0)
    ensures newCommit.Some? <==> hist[0].file.Some?
    ensures !stop ==>
              && old_.file.Some? && newCommit.Some?
              && InStep(hist, contents, matcher, n + 1, newCommit, newContact, newLines, final, lineMap, unmatched)
    ensures stop && newCommit.Some? ==>
              exists k: nat :: Settled(hist, contents, matcher, k, Some(old_), final, unmatched)
  {
    stop, newCommit, newContact, newLines := false, newCommit0, newContact0, newLines0;
    final, lineMap, unmatched := final0, map0, unmatched0;
    if old_.file.None? {
      assert n > 0 ==> Settled(hist, contents, matcher, n - 1, Some(old_), final, unmatched);
      stop := true;
      return;
    }
    var oldLines, oldContact := newLines, newContact;
    if newCommit.None? || old_.file != newCommit.value.file {
      oldLines := contents(old_.file.value);
      oldContact := old_.contact;
      if newCommit.None? {
        final, lineMap, unmatched := Initialise(hist, contents, matcher, oldLines);
      } else {
        final, lineMap, unmatched :=
          Compare(hist, contents, matcher, n - 1, oldLines, newLines, (newCommit.value.version, newContact),
                  final, lineMap, unmatched);
        if unmatched == 0 {
          assert Settled(hist, contents, matcher, n, Some(old_), final, unmatched);
          stop := true;
          return;
        }
      }
    } else {
      UnchangedFile(hist, contents, matcher, n - 1, final, lineMap);
    }
    newCommit, newContact, newLines := Some(old_), oldContact, oldLines;
    TraceGivesInvariant(hist, contents, matcher, n, final, lineMap);
  }

  /** `n` versions, all holding the file, have been visited and `rest` is still to come. */
  ghost predicate WalkedTo(walk: seq<Commit>, n: nat, rest: seq<Commit>)
  {
    n <= |walk| && walk[n..] == rest && forall m :: 0 <= m < n ==> walk[m].file.Some?
  }

  lemma WalkStep(walk: seq<Commit>, n: nat, rest: seq<Commit>, old_: Commit)
    requires WalkedTo(walk, n, rest) && |rest| > 0 && rest[0] == old_
    ensures n < |UpToMissing(walk)| && UpToMissing(walk)[n] == old_
    ensures old_.file.None? ==> |UpToMissing(walk)| == n + 1
    ensures old_.file.Some? ==> WalkedTo(walk, n + 1, rest[1..])
    ensures old_.file.Some? && rest[1..] == [] ==> |UpToMissing(walk)| == n + 1
  {
    assert walk[n] == walk[n..][0] && walk[n + 1..] == walk[n..][1..];
    UpToMissingAt(walk, n);
    assert UpToMissing(walk)[n] == UpToMissing(walk)[..n + 1][n] == walk[..n + 1][n];
  }

  lemma PopFirst(branches: seq<seq<Commit>>, level: nat, now: nat, verList: seq<Commit>)
    requires level < |branches| && verList != []
    ensures |Remaining(branches, level, now, verList)| > 0
    ensures Remaining(branches, level, now, verList)[0] == verList[|verList| - 1]
  {
    PopRemaining(branches, level, now, verList);
  }

  /** What is left to pop after `verList` lost its last element, once an exhausted branch has
      been replaced by its parent. */
  method NextBranch(branches: seq<seq<Commit>>, level0: nat, now: nat, verList0: seq<Commit>, ghost popped: seq<Commit>)
    returns (level: nat, verList: seq<Commit>)
    requires level0 < |branches| && popped != [] && verList0 == popped[..|popped| - 1]
    ensures level < |branches|
    ensures |Remaining(branches, level0, now, popped)| > 0
    ensures Remaining(branches, level0, now, popped)[1..] == Remaining(branches, level, now, verList)
    ensures level > level0 || (level == level0 && verList == verList0)
  {
    level, verList := level0, verList0;
    PopRemaining(branches, level, now, popped);
    ConsAppend(popped[|popped| - 1], Reverse(verList0), Parents(branches, level0, now));
    assert verList0 == [] ==> Reverse(verList0) + Parents(branches, level0, now) == Parents(branches, level0, now);
    if verList == [] && level + 1 < |branches| {
      level := level + 1;
      verList := NotAfter(branches[level], now);
      WalkRemaining(branches, level, now);
    }
  }

  /** What follows the loop. */
  method Finish(ghost hist: seq<Commit>, ghost contents: Contents, ghost matcher: Matcher,
                oldCommit: Commit, final0: seq<Line>, unmatched: nat)
    returns (final: seq<Line>)
    requires exists k: nat :: Settled(hist, contents, matcher, k, Some(oldCommit), final0, unmatched)
    ensures hist != [] && hist[0].file.Some? && Credited(hist, contents, matcher, final)
  {
    ghost var k: nat :| Settled(hist, contents, matcher, k, Some(oldCommit), final0, unmatched);
    UnattributedZero(final0);
    final := final0;
    if unmatched > 0 {
      RestIsCredited(hist, contents, matcher, k, final0);
      final := AttributeRest(final0, (oldCommit.version, oldCommit.contact));
    }
    forall j: nat
      ensures LineCredited(hist, contents, matcher, final, j)
    {
      assert LineRight(hist, contents, matcher, k, final0, j);
    }
  }

  /** The finished annotation of line `j`. */
  ghost predicate LineCredited(hist: seq<Commit>, contents: Contents, matcher: Matcher, final: seq<Line>, j: nat)
    requires hist != [] && hist[0].file.Some? && |final| == |LinesAt(hist, contents, 0)|
  {
    j < |final| ==> final[j] == Line(LinesAt(hist, contents, 0)[j], Some(Credit(hist, contents, matcher, j)))
  }

  ghost predicate Credited(hist: seq<Commit>, contents: Contents, matcher: Matcher, final: seq<Line>)
    requires hist != [] && hist[0].file.Some?
  {
    && |final| == |LinesAt(hist, contents, 0)|
    && forall j: nat :: LineCredited(hist, contents, matcher, final, j)
  }

  /** The loop invariant: `n` versions visited, all holding the file, and everything `annotate`
      keeps about them is right. */
  ghost predicate LoopInvariant(branches: seq<seq<Commit>>, now: nat, contents: Contents, matcher: Matcher, n: nat,
                                level: nat, verList: seq<Commit>,
                                newCommit: Option<Commit>, newContact: string, newLines: seq<string>,
                                final: seq<Line>, lineMap: LineMap, unmatched: nat)
  {
    && level < |branches|
    && var hist := Visited(branches, now);
    && WalkedTo(Walk(branches, 0, now), n, Remaining(branches, level, now, verList))
    && (Remaining(branches, level, now, verList) == [] ==> n == |hist|)
    && InStep(hist, contents, matcher, n, newCommit, newContact, newLines, final, lineMap, unmatched)
  }

  /** One round of the loop, with the `break`s as `stop`. */
  method Round(branches: seq<seq<Commit>>, now: nat, contents: Contents, matcher: Matcher, ghost n: nat,
               level0: nat, verList0: seq<Commit>,
               newCommit0: Option<Commit>, newContact0: string, newLines0: seq<string>,
               final0: seq<Line>, map0: LineMap, unmatched0: nat)
    returns (stop: bool, level: nat, verList: seq<Commit>, oldCommit: Commit,
             newCommit: Option<Commit>, newContact: string, newLines: seq<string>,
             final: seq<Line>, lineMap: LineMap, unmatched: nat)
    requires ValidMatcher(matcher) && verList0 != []
    requires LoopInvariant(branches, now, contents, matcher, n, level0, verList0, newCommit0, newContact0, newLines0,
                           final0, map0, unmatched0)
    ensures Visited(branches, now) != [] && (newCommit.Some? <==> Visited(branches, now)[0].file.Some?)
    ensures stop && newCommit.Some? ==>
              exists k: nat :: Settled(Visited(branches, now), contents, matcher, k, Some(oldCommit), final, unmatched)
    ensures !stop ==>
              && newCommit == Some(oldCommit)
              && LoopInvariant(branches, now, contents, matcher, n + 1, level, verList, newCommit, newContact, newLines,
                               final, lineMap, unmatched)
              && (level > level0 || (level == level0 && |verList| < |verList0|))
  {
    ghost var hist := Visited(branches, now);
    level, verList := level0, verList0[..|verList0| - 1];
    oldCommit := verList0[|verList0| - 1];
    PopFirst(branches, level0, now, verList0);
    WalkStep(Walk(branches, 0, now), n, Remaining(branches, level0, now, verList0), oldCommit);
    stop, newCommit, newContact, newLines, final, lineMap, unmatched :=
      Visit(hist, contents, matcher, n, oldCommit, newCommit0, newContact0, newLines0, final0, map0, unmatched0);
    if stop {
      return;
    }
    level, verList := NextBranch(branches, level, now, verList, verList0);
  }

  /** The lines are those of the file in this version; there are none if it lacks the file. */
  ghost predicate HoldsFileOf(c: Commit, contents: Contents, r: Option<seq<Line>>)
  {
    if c.file.None? then r.None?
    else
      && r.Some? && |r.value| == |contents(c.file.value)|
      && forall j :: 0 <= j < |r.value| ==> r.value[j].text == contents(c.file.value)[j]
  }

  /** The lines that are credited are those of the newest visited version. */
  lemma CreditedTexts(hist: seq<Commit>, contents: Contents, matcher: Matcher, final: seq<Line>)
    requires hist != [] && hist[0].file.Some? && Credited(hist, contents, matcher, final)
    ensures HoldsFileOf(hist[0], contents, Some(final))
  {
    forall j | 0 <= j < |final|
      ensures final[j].text == contents(hist[0].file.value)[j]
    {
      assert LineCredited(hist, contents, matcher, final, j);
    }
  }

  /** `annotate`, with the repository given as the versions of the current branch and of each
      of its parent branches. None stands for the unbound `unmatchedLines` that ends a run in
      which no version, or no version holding the file, was visited. */
  method Annotate(branches: seq<seq<Commit>>, now: nat, contents: Contents, matcher: Matcher)
    returns (r: Option<seq<Line>>)
    requires |branches| > 0
    requires ValidMatcher(matcher)
    ensures var hist := Visited(branches, now);
            if hist == [] || hist[0].file.None? then r.None?
            else r.Some? && History(hist) && Credited(hist, contents, matcher, r.value)
    ensures (forall i :: !LastNotAfter(branches[0], now, i)) ==> r.None?
    ensures forall i :: LastNotAfter(branches[0], now, i) ==> HoldsFileOf(branches[0][i], contents, r)
  {
    ghost var n: nat := 0;
    FirstVisited(branches, now);
    var level: nat, verList := 0, NotAfter(branches[0], now);
    WalkRemaining(branches, 0, now);
    var final: seq<Line>, lineMap: LineMap, unmatched := [], map[], 0;
    var newCommit: Option<Commit>, newLines: seq<string>, newContact: string := None, [], "";
    var oldCommit := newCommit;
    var stop := false;
    while verList != []
      invariant !stop && oldCommit == newCommit
      invariant newCommit.None? <==> n == 0
      invariant LoopInvariant(branches, now, contents, matcher, n, level, verList, newCommit, newContact, newLines,
                              final, lineMap, unmatched)
      decreases |branches| - level, |verList|
    {
      var popped: Commit;
      stop, level, verList, popped, newCommit, newContact, newLines, final, lineMap, unmatched :=
        Round(branches, now, contents, matcher, n, level, verList, newCommit, newContact, newLines,
              final, lineMap, unmatched);
      oldCommit := Some(popped);
      if stop {
        break;
      }
      n := n + 1;
    }
    if newCommit.None? {
      return None;
    }
    if !stop {
      assert Settled(Visited(branches, now), contents, matcher, n - 1, oldCommit, final, unmatched);
    }
    final := Finish(Visited(branches, now), contents, matcher, oldCommit.value, final, unmatched);
    UpToMissingHistory(Walk(branches, 0, now));
    CreditedTexts(Visited(branches, now), contents, matcher, final);
    r := Some(final);
  }

  /** `k` is the last visited version which holds the file. */
  ghost predicate AtTheEnd(hist: seq<Commit>, k: nat)
  {
    && k < |hist| && hist[k].file.Some?
    && (k + 1 == |hist| || (k + 2 == |hist| && hist[k + 1].file.None?))
  }

  /** A line still unattributed at the end of the walk belongs to its last version. */
  lemma RestIsCredited(hist: seq<Commit>, contents: Contents, matcher: Matcher, k: nat, final: seq<Line>)
    requires k < |hist| && hist[0].file.Some? && AtTheEnd(hist, k)
    requires Annotated(hist, contents, matcher, k, final)
    ensures forall j: nat :: j < |final| && final[j].who.None? ==>
              Credit(hist, contents, matcher, j) == (hist[|hist| - 1].version, hist[|hist| - 1].contact)
  {
    forall j: nat | j < |final| && final[j].who.None?
      ensures Credit(hist, contents, matcher, j) == (hist[|hist| - 1].version, hist[|hist| - 1].contact)
    {
      assert LineRight(hist, contents, matcher, k, final, j);
      if k + 1 == |hist| {
        BlamedWhereTraceStops(hist, contents, matcher, 0, k, j);
      } else {
        BlamedOnMissing(hist, contents, matcher, 0, j);
      }
    }
  }

  /** A version that leaves the file unchanged leaves the line map and the final lines right. */
  lemma UnchangedFile(hist: seq<Commit>, contents: Contents, matcher: Matcher, k: nat,
                      final: seq<Line>, lineMap: LineMap)
    requires k + 1 < |hist| && hist[0].file.Some? && hist[k].file.Some? && hist[k + 1].file == hist[k].file
    requires Annotated(hist, contents, matcher, k, final)
    requires MapIsTrace(hist, contents, matcher, k, lineMap)
    ensures Annotated(hist, contents, matcher, k + 1, final)
    ensures MapIsTrace(hist, contents, matcher, k + 1, lineMap)
  {
    var older := k + 1;
    forall j: nat
      ensures TracedIsLive(hist, contents, matcher, older, lineMap, j)
    {
      assert TracedIsLive(hist, contents, matcher, k, lineMap, j);
    }
    forall i: int
      ensures LiveIsTraced(hist, contents, matcher, older, lineMap, i)
    {
      assert LiveIsTraced(hist, contents, matcher, k, lineMap, i);
    }
    forall j: nat
      ensures LineRight(hist, contents, matcher, older, final, j)
    {
      assert LineRight(hist, contents, matcher, k, final, j);
    }
  }

  // ---------------------------------------------------------------- what the annotation means

  /** Version `o` is the oldest one that following matching blocks back from line `j` of the newest
      version reaches, and it holds the line; unless the walk ended at a version without the file and
      the line lasted until then, which is exactly when `o` is that version. */
  ghost predicate OldestReached(hist: seq<Commit>, contents: Contents, matcher: Matcher, o: nat, j: nat)
    requires o < |hist| && hist[0].file.Some? && j < |LinesAt(hist, contents, 0)|
  {
    && (hist[o].file.None? <==>
          |hist| > 1 && hist[|hist| - 1].file.None? && Trace(hist, contents, matcher, |hist| - 2, j).Some?)
    && (hist[o].file.Some? ==>
          && (forall k: nat :: k < |hist| ==> (Trace(hist, contents, matcher, k, j).Some? <==> k <= o))
          && Trace(hist, contents, matcher, o, j).Some?
          && Trace(hist, contents, matcher, o, j).value < |LinesAt(hist, contents, o)|
          && LinesAt(hist, contents, o)[Trace(hist, contents, matcher, o, j).value] == LinesAt(hist, contents, 0)[j])
  }

  lemma BlamesOldestReached(hist: seq<Commit>, contents: Contents, matcher: Matcher, j: nat)
    requires ValidMatcher(matcher) && History(hist)
    requires j < |LinesAt(hist, contents, 0)|
    ensures OldestReached(hist, contents, matcher, Blamed(hist, contents, matcher, 0, j), j)
  {
    var k := LastReached(hist, contents, matcher, 0, j);
    if k + 2 == |hist| && hist[k + 1].file.None? {
      BlamedOnMissing(hist, contents, matcher, 0, j);
    } else {
      BlamedWhereTraceStops(hist, contents, matcher, 0, k, j);
      TraceSameText(hist, contents, matcher, k, j);
      forall m: nat | m < |hist|
        ensures Trace(hist, contents, matcher, m, j).Some? <==> m <= k
      {
        if m <= k {
          TraceEarlier(hist, contents, matcher, m, k, j);
        } else if Trace(hist, contents, matcher, m, j).Some? {
          TraceEarlier(hist, contents, matcher, k + 1, m, j);
        }
      }
    }
  }

  /** So what `annotate` prints next to a line of the newest file is that version. */
  lemma PrintsOldestReached(branches: seq<seq<Commit>>, now: nat, contents: Contents, matcher: Matcher,
                            final: seq<Line>, j: nat)
    requires |branches| > 0 && ValidMatcher(matcher)
    requires Visited(branches, now) != [] && Visited(branches, now)[0].file.Some?
    requires Credited(Visited(branches, now), contents, matcher, final) && j < |final|
    ensures var hist := Visited(branches, now);
            && final[j].text == LinesAt(hist, contents, 0)[j] && final[j].who.Some?
            && exists o: nat :: o < |hist| && hist[o].version == final[j].who.value.0
                 && OldestReached(hist, contents, matcher, o, j)
  {
    var hist := Visited(branches, now);
    UpToMissingHistory(Walk(branches, 0, now));
    assert LineCredited(hist, contents, matcher, final, j);
    BlamesOldestReached(hist, contents, matcher, j);
  }

  lemma {:induction false} LastReached(hist: seq<Commit>, contents: Contents, matcher: Matcher, m: nat, j: nat)
    returns (k: nat)
    requires m < |hist| && Trace(hist, contents, matcher, m, j).Some?
    ensures m <= k < |hist| && Trace(hist, contents, matcher, k, j).Some?
    ensures k + 1 < |hist| ==> Trace(hist, contents, matcher, k + 1, j).None?
    decreases |hist| - m
  {
    if m + 1 < |hist| && Trace(hist, contents, matcher, m + 1, j).Some? {
      k := LastReached(hist, contents, matcher, m + 1, j);
    } else {
      k := m;
    }
  }

  /** If version `k` is the oldest of those that share its file, and an older one holds another file, then it
      was committed by the same person as the newest of them. */
  ghost predicate RunEndAgrees(hist: seq<Commit>, k: nat)
  {
    k + 1 < |hist| && hist[k + 1].file.Some? && hist[k + 1].file != hist[k].file ==>
      hist[RunStart(hist, k)].contact == hist[k].contact
  }

  ghost predicate RunEndsAgree(hist: seq<Commit>)
  {
    forall k: nat :: RunEndAgrees(hist, k)
  }

  /** The name printed next to line `j` is that of who committed the blamed version. */
  ghost predicate NamesCommitter(hist: seq<Commit>, contents: Contents, matcher: Matcher, j: nat)
    requires |hist| > 0
  {
    var o := Blamed(hist, contents, matcher, 0, j);
    Credit(hist, contents, matcher, j) == (hist[o].version, hist[o].contact)
  }

  /** Every name that can be printed for a history is right exactly if its runs of versions sharing a
      file agree on the contact at both ends. */
  lemma CreditsCommitter(hist: seq<Commit>)
    requires History(hist)
    ensures RunEndsAgree(hist) <==>
              forall contents: Contents, matcher: Matcher, j: nat
                | ValidMatcher(matcher) && j < |LinesAt(hist, contents, 0)| :: NamesCommitter(hist, contents, matcher, j)
  {
    if RunEndsAgree(hist) {
      forall contents: Contents, matcher: Matcher, j: nat | ValidMatcher(matcher) && j < |LinesAt(hist, contents, 0)|
        ensures NamesCommitter(hist, contents, matcher, j)
      {
        NameIsRight(hist, contents, matcher, j);
      }
    } else {
      var k: nat :| !RunEndAgrees(hist, k);
      var n := Changes(hist, k) + 1;
      ShiftingIsValid(n);
      LosesLineAt(hist, n, k);
      assert |LinesAt(hist, Same(n), 0)| == n;
      assert !NamesCommitter(hist, Same(n), Shifting(n), 0);
    }
  }

  lemma NameIsRight(hist: seq<Commit>, contents: Contents, matcher: Matcher, j: nat)
    requires History(hist) && RunEndsAgree(hist) && ValidMatcher(matcher) && j < |LinesAt(hist, contents, 0)|
    ensures NamesCommitter(hist, contents, matcher, j)
  {
    var o := Blamed(hist, contents, matcher, 0, j);
    BlamesOldestReached(hist, contents, matcher, j);
    if o + 1 < |hist| {
      assert Trace(hist, contents, matcher, o, j).Some?;
      assert Trace(hist, contents, matcher, o + 1, j).None?;
      BlamedBeforeFile(hist, contents, matcher, 0, j);
      assert RunEndAgrees(hist, o);
    }
  }

  /** A version that is blamed before the walk ends is followed by one holding the file. */
  lemma {:induction false} BlamedBeforeFile(hist: seq<Commit>, contents: Contents, matcher: Matcher, k: nat, j: nat)
    requires k < |hist|
    ensures var o := Blamed(hist, contents, matcher, k, j); o + 1 < |hist| ==> hist[o + 1].file.Some?
    decreases |hist| - k
  {
    if k + 1 < |hist| && !(hist[k + 1].file.Some? && Trace(hist, contents, matcher, k + 1, j).None?) {
      BlamedBeforeFile(hist, contents, matcher, k + 1, j);
    }
  }

  // Any version that ends a run can be the one that is blamed: let every file hold `n` equal lines, and match
  // each of them with the next one, so that the first line of the newest file is lost at the `n`-th change.

  function Copies(n: nat): (r: seq<string>)
    ensures |r| == n && forall i :: 0 <= i < n ==> r[i] == "x"
  {
    seq(n, i => "x")
  }

  function Same(n: nat): Contents
  {
    v => Copies(n)
  }

  function ShiftBlocks(n: nat, old_: seq<string>, new_: seq<string>): seq<Block>
  {
    if n > 0 && old_ == Copies(n) && new_ == Copies(n) then [Block(1, 0, n - 1), Block(n, n, 0)] else NoMatches(old_, new_)
  }

  function Shifting(n: nat): Matcher
  {
    (old_, new_) => ShiftBlocks(n, old_, new_)
  }

  lemma ShiftIsValid(n: nat)
    requires n > 0
    ensures ValidBlocks(Copies(n), Copies(n), [Block(1, 0, n - 1), Block(n, n, 0)])
  {
  }

  lemma ShiftingIsValid(n: nat)
    ensures ValidMatcher(Shifting(n))
  {
    forall old_, new_
      ensures ValidBlocks(old_, new_, Shifting(n)(old_, new_))
    {
      if n > 0 && old_ == Copies(n) && new_ == Copies(n) {
        ShiftIsValid(n);
      }
    }
  }

  lemma ShiftedOldLine(n: nat, i: nat)
    requires i < n
    ensures OldLine(ShiftBlocks(n, Copies(n), Copies(n)), i) == if i + 1 < n then Some(i + 1) else None
  {
    var blocks := ShiftBlocks(n, Copies(n), Copies(n));
    ShiftingIsValid(n);
    assert ValidBlocks(Copies(n), Copies(n), Shifting(n)(Copies(n), Copies(n)));
    if i + 1 < n {
      OldLineInBlock(Copies(n), Copies(n), blocks, 0, i);
    }
  }

  /** How often the file changed on the way to version `k`. */
  ghost function Changes(hist: seq<Commit>, k: nat): nat
    requires k < |hist|
  {
    if k == 0 then 0 else Changes(hist, k - 1) + if hist[k].file == hist[k - 1].file then 0 else 1
  }

  lemma {:induction false} FirstLineAt(hist: seq<Commit>, n: nat, k: nat)
    requires History(hist) && k < |hist| && hist[k].file.Some? && Changes(hist, k) < n
    ensures Trace(hist, Same(n), Shifting(n), k, 0) == Some(Changes(hist, k))
  {
    if k > 0 {
      FirstLineAt(hist, n, k - 1);
      if hist[k].file != hist[k - 1].file {
        ShiftedOldLine(n, Changes(hist, k - 1));
      }
    }
  }

  lemma LostAtNext(hist: seq<Commit>, n: nat, k: nat)
    requires History(hist) && k + 1 < |hist| && hist[k + 1].file.Some? && hist[k + 1].file != hist[k].file
    requires n > 0 && Trace(hist, Same(n), Shifting(n), k, 0) == Some(n - 1)
    ensures Trace(hist, Same(n), Shifting(n), k + 1, 0).None?
  {
    ShiftedOldLine(n, n - 1);
  }

  lemma LosesLineAt(hist: seq<Commit>, n: nat, k: nat)
    requires History(hist) && k + 1 < |hist| && hist[k + 1].file.Some? && hist[k + 1].file != hist[k].file
    requires n == Changes(hist, k) + 1
    ensures Blamed(hist, Same(n), Shifting(n), 0, 0) == k
  {
    FirstLineAt(hist, n, k);
    LostAtNext(hist, n, k);
    BlamedWhereTraceStops(hist, Same(n), Shifting(n), 0, k, 0);
  }

  function NoMatches(old_: seq<string>, new_: seq<string>): seq<Block>
  {
    [Block(|old_|, |new_|, 0)]
  }

  // The same with a matcher that finds whole files equal or nothing, for files that do not come back.

  function EqualOrNothing(old_: seq<string>, new_: seq<string>): seq<Block>
  {
    if old_ == new_ != [] then [Block(0, 0, |old_|), Block(|old_|, |old_|, 0)] else NoMatches(old_, new_)
  }

  /** A file version that is not in version `k + 1` any more is not in an older one either. */
  ghost predicate NoReturn(hist: seq<Commit>)
  {
    forall m, k :: 0 <= m <= k < |hist| - 1 && hist[k].file != hist[k + 1].file && hist[k + 1].file.Some? ==>
      hist[m].file != hist[k + 1].file
  }

  function EmptyIn(v: VersionId): Contents
  {
    u => if u == v then [] else ["x"]
  }

  lemma EqualOrNothingIsValid()
    ensures ValidMatcher(EqualOrNothing)
  {
    forall old_, new_
      ensures ValidBlocks(old_, new_, EqualOrNothing(old_, new_))
    {
    }
  }

  lemma OneLineMatched()
    ensures OldLine(EqualOrNothing(["x"], ["x"]), 0) == Some(0)
  {
    EqualOrNothingIsValid();
    OldLineInBlock(["x"], ["x"], EqualOrNothing(["x"], ["x"]), 0, 0);
  }

  lemma {:induction false} FirstLineStays(hist: seq<Commit>, v: VersionId, k: nat)
    requires History(hist) && k < |hist| && forall m :: 0 <= m <= k ==> hist[m].file.Some? && hist[m].file.value != v
    ensures Trace(hist, EmptyIn(v), EqualOrNothing, k, 0) == Some(0)
  {
    if k > 0 {
      FirstLineStays(hist, v, k - 1);
      OneLineMatched();
    }
  }

  lemma EmptyLosesLine(hist: seq<Commit>, k: nat)
    requires History(hist) && NoReturn(hist)
    requires k + 1 < |hist| && hist[k + 1].file.Some? && hist[k + 1].file != hist[k].file
    ensures var v := hist[k + 1].file.value;
            |LinesAt(hist, EmptyIn(v), 0)| == 1 && Blamed(hist, EmptyIn(v), EqualOrNothing, 0, 0) == k
  {
    var v := hist[k + 1].file.value;
    assert forall m :: 0 <= m <= k ==> hist[m].file != hist[k + 1].file;
    FirstLineStays(hist, v, 0);
    FirstLineStays(hist, v, k);
    BlamedWhereTraceStops(hist, EmptyIn(v), EqualOrNothing, 0, k, 0);
  }

  /** So it does not take a matcher that prefers odd matches to print a wrong name. */
  lemma CreditsCommitterByEquals(hist: seq<Commit>)
    requires History(hist) && NoReturn(hist)
    ensures RunEndsAgree(hist) <==>
              forall contents: Contents, j: nat | j < |LinesAt(hist, contents, 0)| ::
                NamesCommitter(hist, contents, EqualOrNothing, j)
  {
    if RunEndsAgree(hist) {
      EqualOrNothingIsValid();
      forall contents: Contents, j: nat | j < |LinesAt(hist, contents, 0)|
        ensures NamesCommitter(hist, contents, EqualOrNothing, j)
      {
        NameIsRight(hist, contents, EqualOrNothing, j);
      }
    } else {
      var k: nat :| !RunEndAgrees(hist, k);
      var v := hist[k + 1].file.value;
      EmptyLosesLine(hist, k);
      assert !NamesCommitter(hist, EmptyIn(v), EqualOrNothing, 0);
    }
  }

  /** In a history whose runs do not agree: alice's line is credited to bob, whose later version left the
      file alone. */
  lemma CreditsWrongCommitter(contents: Contents)
    requires contents("1.0-2") == ["line"]
    ensures var hist := [Commit("1.0-3", 3, "bob", Some("1.0-2")), Commit("1.0-2", 2, "alice", Some("1.0-2")),
                         Commit("1.0-1", 1, "dave", Some("1.0-1"))];
            && History(hist) && ValidMatcher(NoMatches)
            && Blamed(hist, contents, NoMatches, 0, 0) == 1
            && Credit(hist, contents, NoMatches, 0) == ("1.0-2", "bob")
  {
    var hist := [Commit("1.0-3", 3, "bob", Some("1.0-2")), Commit("1.0-2", 2, "alice", Some("1.0-2")),
                 Commit("1.0-1", 1, "dave", Some("1.0-1"))];
    assert Trace(hist, contents, NoMatches, 0, 0) == Some(0);
    assert Trace(hist, contents, NoMatches, 1, 0) == Some(0);
    assert Trace(hist, contents, NoMatches, 2, 0) == None;
    assert Blamed(hist, contents, NoMatches, 1, 0) == 1;
    assert RunStart(hist, 1) == 0;
  }

  /** And a file that was not always in the trove gets its oldest lines blamed on a version
      that did not have it. */
  lemma BlamesVersionWithoutFile(contents: Contents)
    requires contents("1.0-2") == ["line"]
    ensures var hist := [Commit("1.0-2", 2, "alice", Some("1.0-2")), Commit("1.0-1", 1, "dave", None)];
            && History(hist)
            && Credit(hist, contents, NoMatches, 0) == ("1.0-1", "dave")
  {
    var hist := [Commit("1.0-2", 2, "alice", Some("1.0-2")), Commit("1.0-1", 1, "dave", None)];
    BlamedOnMissing(hist, contents, NoMatches, 0, 0);
  }
}
