/** What survives a power failure: a fetch returns the last whole commit or the one being
    written, never a mixture (littlefs/lfs.cpp, lfs_dir_fetchmatch over a pair of blocks). */
module DirRecovery {
  import opened Words
  import opened Tags
  import opened DirLog
  import opened DirLookup
  import opened DirScan
  import opened DirCommit
  import opened Wrappers
  import C = Crc

  /** The log a scan promotes is the log that lookups walk backwards. */
  lemma {:induction false} ScannedLogAt(block: seq<byte>, prog: nat, s: State, last: Option<State>)
    requires prog > 0 && s.off <= |block| && LogAt(block, s.off, Low(s.ptag), s.log)
    requires last.Some? ==> LogAt(block, last.value.off, Low(last.value.ptag), last.value.log)
    ensures var r := Scan(block, prog, s, last).last;
            r.Some? ==> LogAt(block, r.value.off, Low(r.value.ptag), r.value.log)
    decreases |block| - s.off
  {
    match StepAt(block, prog, s, last)
    case Stop(_) =>
    case Next(n) =>
      StepExtendsLog(block, prog, s, last, n);
      ScannedLogAt(block, prog, n, last);
    case Commits(n) =>
      StepExtendsLog(block, prog, s, last, n);
      ScannedLogAt(block, prog, n, Some(n));
  }

  // What a step reads: one record, and the tag word in force after it.
  lemma StepReads(block: seq<byte>, prog: nat, s: State, last: Option<State>, n: State)
    requires prog > 0 && s.off <= |block|
    requires StepAt(block, prog, s, last) == Next(n) || StepAt(block, prog, s, last) == Commits(n)
    ensures s.off + 4 <= |block|
    ensures var word := Xor32(FromBe32(block[s.off..s.off + 4]), s.ptag);
            && word < 0x8000_0000 && Low(n.ptag) == word
            && n.off == s.off + Size(Unpack(word)) <= |block|
            && n.log == s.log + [Record(Unpack(word), block[s.off + 4..n.off])]
  {
    hide C.Crc, Pack, Unpack, FromBe32, FromLe32, Xor32;
  }

  lemma LogExtends(block: seq<byte>, at: nat, before: nat, log: seq<Record>, word: uint32)
    requires LogAt(block, at, before, log) && word < 0x8000_0000
    requires at + Size(Unpack(word)) <= |block| && PreviousTag(block, at, word) == before
    ensures var end := at + Size(Unpack(word));
            LogAt(block, end, word, log + [Record(Unpack(word), block[at + 4..end])])
  {
    hide Pack, Unpack, PreviousTag, ValidTag;
    PackUnpacked(word);
    LogStartsLate(block, at, before, log);
    var r := Record(Unpack(word), block[at + 4..at + Size(Unpack(word))]);
    var longer := log + [r];
    assert longer[|longer| - 1] == r && longer[..|longer| - 1] == log;
  }

  lemma StepExtendsLog(block: seq<byte>, prog: nat, s: State, last: Option<State>, n: State)
    requires prog > 0 && s.off <= |block| && LogAt(block, s.off, Low(s.ptag), s.log)
    requires StepAt(block, prog, s, last) == Next(n) || StepAt(block, prog, s, last) == Commits(n)
    ensures LogAt(block, n.off, Low(n.ptag), n.log)
  {
    hide C.Crc, Pack, Unpack, FromBe32, FromLe32, Xor32, StepAt, LogAt;
    StepReads(block, prog, s, last, n);
    var raw := FromBe32(block[s.off..s.off + 4]);
    XorGivesBack(raw, s.ptag);
    LogExtends(block, s.off, Low(s.ptag), s.log, Xor32(raw, s.ptag));
  }

  lemma XorGivesBack(a: uint32, p: uint32)
    ensures Xor32(a, Xor32(a, p)) == p
  {
    XorCancels(p, a);
    XorCommutes(a, p);
  }

  lemma {:induction false} LogStartsLate(block: seq<byte>, end: nat, etag: nat, log: seq<Record>)
    requires LogAt(block, end, etag, log)
    ensures end >= 4
  {
  }

  lemma FetchedLogAt(block: seq<byte>, prog: nat)
    requires prog > 0 && |block| >= 4
    ensures var r := FetchBlock(block, prog).last;
            r.Some? ==> LogAt(block, r.value.off, Low(r.value.ptag), r.value.log)
  {
    hide C.Crc, Scan;
    ScannedLogAt(block, prog, Initial(block), None);
  }

  /* Scans that agree */

  // Records long enough that reading them stays inside them.
  ghost predicate Readable(r: Record) {
    (Class(r.tag.ty) == CRC ==> |r.data| >= 4) && (Class(r.tag.ty) == TAIL ==> |r.data| >= 8)
  }

  ghost predicate ReadableLog(log: seq<Record>) {
    forall i :: 0 <= i < |log| ==> Readable(log[i])
  }

  lemma {:induction false} ScanGrows(b: seq<byte>, prog: nat, s: State, last: Option<State>)
    requires prog > 0
    ensures var r := Scan(b, prog, s, last).last;
            r == last || (r.Some? && s.off + 4 <= r.value.off <= |b| && s.log <= r.value.log)
    decreases |b| - s.off
  {
    hide C.Crc, Unpack, FromBe32, FromLe32, Xor32;
    match StepAt(b, prog, s, last)
    case Stop(_) =>
    case Next(n) =>
      assert s.log <= n.log;
      ScanGrows(b, prog, n, last);
    case Commits(n) =>
      assert s.log <= n.log;
      ScanGrows(b, prog, n, Some(n));
  }

  // A step only depends on the bytes it passes over.
  lemma StepAgrees(b: seq<byte>, d: seq<byte>, prog: nat, s: State, last: Option<State>, n: State)
    requires prog > 0 && |b| == |d| && n.off <= |b| && b[..n.off] == d[..n.off]
    requires StepAt(b, prog, s, last) == Next(n) || StepAt(b, prog, s, last) == Commits(n)
    requires Readable(n.log[|n.log| - 1])
    ensures StepAt(d, prog, s, last) == StepAt(b, prog, s, last)
  {
    hide C.Crc, Unpack, FromBe32, FromLe32, Xor32;
    SameSlice(b, d, n.off, s.off, s.off + 4);
    SameSlice(b, d, n.off, s.off + 4, n.off);
    var t := Unpack(Xor32(FromBe32(b[s.off..s.off + 4]), s.ptag));
    if Class(t.ty) == CRC {
      SameSlice(b, d, n.off, s.off + 4, s.off + 8);
    } else if Class(t.ty) == TAIL {
      SameSlice(b, d, n.off, s.off + 4, s.off + 12);
    }
  }

  lemma SameSlice(b: seq<byte>, d: seq<byte>, upto: nat, from: nat, to: nat)
    requires from <= to <= upto <= |b| && upto <= |d| && b[..upto] == d[..upto]
    ensures b[from..to] == d[from..to]
  {
    assert b[from..to] == b[..upto][from..to];
    assert d[from..to] == d[..upto][from..to];
  }

  /** A block that repeats another up to the end of its last commit is scanned past that commit
      in the same state. */
  lemma {:induction false} ScanResumes(b: seq<byte>, d: seq<byte>, prog: nat, s: State, last: Option<State>, c: State)
    requires prog > 0 && |b| == |d| && Scan(b, prog, s, last).last == Some(c) && c.off > s.off && last != Some(c)
    requires c.off <= |b| && b[..c.off] == d[..c.off] && ReadableLog(c.log)
    ensures Scan(d, prog, s, last) == Scan(d, prog, c, Some(c))
    decreases |b| - s.off
  {
    hide C.Crc, Unpack, FromBe32, FromLe32, Xor32;
    match StepAt(b, prog, s, last)
    case Next(n) =>
      ScanGrows(b, prog, n, last);
      StepLogs(b, prog, s, last, n);
      SameSlice(b, d, c.off, 0, n.off);
      assert b[..n.off] == b[0..n.off] && d[..n.off] == d[0..n.off];
      StepAgrees(b, d, prog, s, last, n);
      ScanResumes(b, d, prog, n, last, c);
    case Commits(n) =>
      ScanGrows(b, prog, n, Some(n));
      StepLogs(b, prog, s, last, n);
      SameSlice(b, d, c.off, 0, n.off);
      assert b[..n.off] == b[0..n.off] && d[..n.off] == d[0..n.off];
      StepAgrees(b, d, prog, s, last, n);
      if n != c {
        ScanResumes(b, d, prog, n, Some(n), c);
      }
  }

  lemma StepLogs(b: seq<byte>, prog: nat, s: State, last: Option<State>, n: State)
    requires prog > 0
    requires StepAt(b, prog, s, last) == Next(n) || StepAt(b, prog, s, last) == Commits(n)
    ensures |n.log| == |s.log| + 1 && s.log <= n.log && n.off >= s.off + 4
  {
    hide C.Crc, Unpack, FromBe32, FromLe32, Xor32;
  }

  // The whole block: bytes behind the last commit play no part in finding it.
  lemma FetchResumes(b: seq<byte>, d: seq<byte>, prog: nat, c: State)
    requires prog > 0 && |b| == |d| && |b| >= 4 && FetchBlock(b, prog).last == Some(c)
    requires c.off <= |b| && b[..c.off] == d[..c.off] && ReadableLog(c.log)
    ensures FetchBlock(d, prog) == Scan(d, prog, c, Some(c))
  {
    hide C.Crc;
    ScanGrows(b, prog, Initial(b), None);
    SameSlice(b, d, c.off, 0, 4);
    assert b[..4] == b[0..4] && d[..4] == d[0..4];
    ScanResumes(b, d, prog, Initial(b), None, c);
  }

  /* What the records of a log add up to */

  function Summary(log: seq<Record>): (int, seq<byte>, bool) {
    if log == [] then (0, NULL_TAIL, false) else
      var r, sum := log[|log| - 1], Summary(log[..|log| - 1]);
      if Class(r.tag.ty) == TAIL then
        (CountAfter(sum.0, r.tag), if |r.data| >= 8 then r.data[..8] else sum.1, r.tag.ty % 2 == 1)
      else (CountAfter(sum.0, r.tag), sum.1, sum.2)
  }

  /** The last tail among the records is the one that counts; without any the directory leads nowhere. */
  ghost predicate LastTail(log: seq<Record>, tail: seq<byte>, split: bool) {
    && (forall i :: 0 <= i < |log| && Class(log[i].tag.ty) == TAIL && NoTailBehind(log, i) ==>
          |log[i].data| >= 8 && log[i].data[..8] == tail
          && (split <==> log[i].tag.ty % 2 == TYPE_HARDTAIL % 2))
    && ((forall i :: 0 <= i < |log| ==> Class(log[i].tag.ty) != TAIL) ==> tail == NULL_TAIL && !split)
  }

  ghost predicate NoTailBehind(log: seq<Record>, i: nat) {
    forall j :: i < j < |log| ==> Class(log[j].tag.ty) != TAIL
  }

  lemma OnlyLast(log: seq<Record>, i: nat)
    requires i < |log| && NoTailBehind(log, i) && Class(log[|log| - 1].tag.ty) == TAIL
    ensures i == |log| - 1
  {
  }

  lemma {:induction false} SummaryTail(log: seq<Record>)
    requires ReadableLog(log)
    ensures LastTail(log, Summary(log).1, Summary(log).2)
  {
    if log != [] {
      var rest, r := log[..|log| - 1], log[|log| - 1];
      assert ReadableLog(rest) && Readable(r);
      hide ReadableLog;
      SummaryTail(rest);
      if Class(r.tag.ty) == TAIL {
        forall i | 0 <= i < |log| && Class(log[i].tag.ty) == TAIL && NoTailBehind(log, i)
          ensures i == |log| - 1
        {
          OnlyLast(log, i);
        }
      } else {
        forall i | 0 <= i < |log| && Class(log[i].tag.ty) == TAIL && NoTailBehind(log, i)
          ensures i < |rest| && rest[i] == log[i] && NoTailBehind(rest, i)
        {
          assert forall j :: i < j < |rest| ==> rest[j] == log[j];
        }
        if forall i :: 0 <= i < |log| ==> Class(log[i].tag.ty) != TAIL {
          assert forall i :: 0 <= i < |rest| ==> rest[i] == log[i];
        }
      }
    }
  }

  ghost predicate Summed(s: State) {
    (s.count, s.tail, s.split) == Summary(s.log)
  }

  // The state of the directory a log describes: entries, their number, the link onwards, and what
  // it stores of the global state.
  ghost predicate SameDirectory(s: State, t: State) {
    && Replay(s.log) == Replay(t.log) && (s.count, s.tail, s.split) == (t.count, t.tail, t.split)
    && LastOfType(s.log, TYPE_MOVESTATE) == LastOfType(t.log, TYPE_MOVESTATE)
  }

  // Logs that differ at most in the padding behind checksums.
  ghost predicate AlikeLogs(a: seq<Record>, b: seq<Record>) {
    |a| == |b| && forall i :: 0 <= i < |a| ==> a[i].tag == b[i].tag && (Class(a[i].tag.ty) == CRC || a[i] == b[i])
  }

  ghost predicate Alike(s: State, t: State) {
    AlikeLogs(s.log, t.log) && s.(log := []) == t.(log := [])
  }

  lemma {:induction false} AlikeReplay(a: seq<Record>, b: seq<Record>)
    requires AlikeLogs(a, b)
    ensures Replay(a) == Replay(b) && LastOfType(a, TYPE_MOVESTATE) == LastOfType(b, TYPE_MOVESTATE)
  {
    if a != [] {
      AlikeReplay(a[..|a| - 1], b[..|b| - 1]);
    }
  }

  // Checksum records change neither the entries nor the summary nor the state.
  lemma ChecksumAddsNothing(log: seq<Record>, r: Record)
    requires Class(r.tag.ty) == CRC
    ensures Replay(log + [r]) == Replay(log) && Summary(log + [r]) == Summary(log)
    ensures LastOfType(log + [r], TYPE_MOVESTATE) == LastOfType(log, TYPE_MOVESTATE)
  {
    assert (log + [r])[..|log|] == log;
  }

  lemma {:induction false} ChecksumsAddNothing(log: seq<Record>, sums: seq<Record>)
    requires forall i :: 0 <= i < |sums| ==> Class(sums[i].tag.ty) == CRC
    ensures Replay(log + sums) == Replay(log) && Summary(log + sums) == Summary(log)
    ensures LastOfType(log + sums, TYPE_MOVESTATE) == LastOfType(log, TYPE_MOVESTATE)
  {
    if sums == [] {
      assert log + sums == log;
    } else {
      var rest, r := sums[..|sums| - 1], sums[|sums| - 1];
      assert log + sums == (log + rest) + [r];
      hide *;
      ChecksumsAddNothing(log, rest);
      ChecksumAddsNothing(log + rest, r);
    }
  }

  lemma StepSums(b: seq<byte>, prog: nat, s: State, last: Option<State>, n: State)
    requires prog > 0 && Summed(s)
    requires StepAt(b, prog, s, last) == Next(n) || StepAt(b, prog, s, last) == Commits(n)
    requires Readable(n.log[|n.log| - 1])
    ensures Summed(n)
  {
    hide C.Crc, Unpack, FromBe32, FromLe32, Xor32;
    assert n.log[..|n.log| - 1] == s.log;
    var r := n.log[|n.log| - 1];
    if Class(r.tag.ty) == TAIL {
      assert r.data[..8] == b[s.off + 4..s.off + 12];
    }
  }

  /* Runs: the records from one checksum to the next */

  // The state before the next accepted checksum, and the state it promotes.
  function RunEnd(b: seq<byte>, prog: nat, s: State, last: Option<State>): (r: Option<(State, State)>)
    requires prog > 0
    ensures r.Some? ==> s.off <= r.value.0.off && r.value.0.off + 4 <= r.value.1.off <= |b|
    decreases |b| - s.off
  {
    match StepAt(b, prog, s, last)
    case Stop(_) => None
    case Next(n) => RunEnd(b, prog, n, last)
    case Commits(n) => Some((s, n))
  }

  lemma {:induction false} ScanByRuns(b: seq<byte>, prog: nat, s: State, last: Option<State>)
    requires prog > 0
    ensures var e := RunEnd(b, prog, s, last);
            if e.None? then Scan(b, prog, s, last).last == last
            else Scan(b, prog, s, last) == Scan(b, prog, e.value.1, Some(e.value.1))
    decreases |b| - s.off
  {
    match StepAt(b, prog, s, last)
    case Next(n) => ScanByRuns(b, prog, n, last);
    case _ =>
  }

  // Both blocks hold the same bytes where the step at s reads, so it reads the same.
  lemma StepFollows(b: seq<byte>, w: seq<byte>, prog: nat, s: State, u: State, last: Option<State>,
                    lastU: Option<State>, from: nat, upto: nat, n: State)
    requires prog > 0 && |b| == |w| && Alike(s, u) && from <= s.off
    requires from <= upto <= |b| && b[from..upto] == w[from..upto]
    ensures StepAt(b, prog, s, last) == Next(n) && n.off + 8 <= upto ==>
              StepAt(w, prog, u, lastU).Next? && Alike(n, StepAt(w, prog, u, lastU).s)
    ensures StepAt(b, prog, s, last) == Commits(n) && s.off + 8 <= upto ==>
              StepAt(w, prog, u, lastU).Commits? && Alike(n, StepAt(w, prog, u, lastU).s)
  {
    hide StepAt, Alike;
    StepEnds(b, prog, s, last);
    if s.off + 8 <= upto {
      Within(b, w, from, upto, s.off, s.off + 4);
      Within(b, w, from, upto, s.off + 4, s.off + 8);
      StepCommitsSame(b, w, prog, s, u, last, lastU);
    }
    if StepAt(b, prog, s, last) == Next(n) && n.off + 8 <= upto {
      Within(b, w, from, upto, s.off + 4, n.off);
      Within(b, w, from, upto, s.off + 4, s.off + 12);
      StepNextSame(b, w, prog, s, u, last, lastU);
    }
  }

  lemma StepEnds(b: seq<byte>, prog: nat, s: State, last: Option<State>)
    requires prog > 0
    ensures StepAt(b, prog, s, last).Next? ==> s.off + 4 <= StepAt(b, prog, s, last).s.off <= |b|
  {
    hide C.Crc, Unpack, FromBe32, FromLe32, Xor32, CountAfter, Erased;
  }

  lemma StepNextSame(b: seq<byte>, w: seq<byte>, prog: nat, s: State, u: State, last: Option<State>,
                     lastU: Option<State>)
    requires prog > 0 && |b| == |w| && Alike(s, u) && StepAt(b, prog, s, last).Next? && s.off + 12 <= |b|
    requires var end := StepAt(b, prog, s, last).s.off;
             && s.off + 4 <= end <= |b| && b[s.off..s.off + 4] == w[s.off..s.off + 4]
             && b[s.off + 4..end] == w[s.off + 4..end] && b[s.off + 4..s.off + 12] == w[s.off + 4..s.off + 12]
    ensures StepAt(w, prog, u, lastU).Next? && Alike(StepAt(b, prog, s, last).s, StepAt(w, prog, u, lastU).s)
  {
    hide C.Crc, Unpack, FromBe32, FromLe32, Xor32, CountAfter, Erased;
  }

  lemma StepCommitsSame(b: seq<byte>, w: seq<byte>, prog: nat, s: State, u: State, last: Option<State>,
                        lastU: Option<State>)
    requires prog > 0 && |b| == |w| && Alike(s, u) && s.off + 8 <= |b|
    requires b[s.off..s.off + 4] == w[s.off..s.off + 4] && b[s.off + 4..s.off + 8] == w[s.off + 4..s.off + 8]
    ensures StepAt(b, prog, s, last).Commits? ==>
              StepAt(w, prog, u, lastU).Commits? && Alike(StepAt(b, prog, s, last).s, StepAt(w, prog, u, lastU).s)
  {
    hide C.Crc, Unpack, FromBe32, FromLe32, Xor32, CountAfter, Erased;
  }

  lemma Within(b: seq<byte>, w: seq<byte>, from: nat, upto: nat, i: nat, j: nat)
    requires from <= i <= j <= upto <= |b| && upto <= |w| && b[from..upto] == w[from..upto]
    ensures b[i..j] == w[i..j]
  {
    forall k | i <= k < j
      ensures b[k] == w[k]
    {
      assert b[k] == b[from..upto][k - from] && w[k] == w[from..upto][k - from];
    }
  }

  lemma {:induction false} RunFollows(b: seq<byte>, w: seq<byte>, prog: nat, s: State, u: State,
                                      last: Option<State>, lastU: Option<State>, from: nat)
    requires prog > 0 && |b| == |w| && Alike(s, u) && from <= s.off
    requires var e := RunEnd(b, prog, s, last);
             e.Some? && e.value.0.off + 8 <= |b| && b[from..e.value.0.off + 8] == w[from..e.value.0.off + 8]
    ensures var e, f := RunEnd(b, prog, s, last), RunEnd(w, prog, u, lastU);
            f.Some? && Alike(e.value.1, f.value.1)
    decreases |b| - s.off
  {
    hide StepAt, Alike;
    var step := StepAt(b, prog, s, last);
    var upto := RunEnd(b, prog, s, last).value.0.off + 8;
    StepFollows(b, w, prog, s, u, last, lastU, from, upto, step.s);
    if step.Next? {
      RunFollows(b, w, prog, step.s, StepAt(w, prog, u, lastU).s, last, lastU, from);
    }
  }

  /** The one assumption about torn bytes: every checksum that a scan of b accepts covers only
      bytes that the finished block w holds in the same places. */
  ghost predicate Trusted(b: seq<byte>, w: seq<byte>, prog: nat, s: State, last: Option<State>, from: nat)
    requires prog > 0
    decreases |b| - s.off
  {
    var e := RunEnd(b, prog, s, last);
    e.Some? ==>
      && from <= e.value.0.off + 8 <= |b| && e.value.0.off + 8 <= |w|
      && b[from..e.value.0.off + 8] == w[from..e.value.0.off + 8]
      && Trusted(b, w, prog, e.value.1, Some(e.value.1), e.value.1.off)
  }

  // The finished block itself, and a block in which nothing new is accepted, are trusted.
  lemma {:induction false} WholeIsTrusted(w: seq<byte>, prog: nat, s: State, last: Option<State>, from: nat)
    requires prog > 0 && from <= s.off + 8
    ensures Trusted(w, w, prog, s, last, from)
    decreases |w| - s.off
  {
    hide StepAt;
    var e := RunEnd(w, prog, s, last);
    if e.Some? {
      RunFits(w, prog, s, last);
      WholeIsTrusted(w, prog, e.value.1, Some(e.value.1), e.value.1.off);
    }
  }

  // An accepted checksum lies within the block.
  lemma {:induction false} RunFits(w: seq<byte>, prog: nat, s: State, last: Option<State>)
    requires prog > 0
    ensures var e := RunEnd(w, prog, s, last);
            e.Some? ==> e.value.0.off + 8 <= |w|
    decreases |w| - s.off
  {
    hide C.Crc, Unpack, FromBe32, FromLe32, Xor32;
    match StepAt(w, prog, s, last)
    case Next(n) => RunFits(w, prog, n, last);
    case _ =>
  }

  lemma NothingNewIsTrusted(b: seq<byte>, w: seq<byte>, prog: nat, s: State, last: Option<State>, from: nat)
    requires prog > 0 && Scan(b, prog, s, last).last == last && (last.Some? ==> last.value.off <= s.off)
    ensures Trusted(b, w, prog, s, last, from)
  {
    hide StepAt;
    ScanByRuns(b, prog, s, last);
    var e := RunEnd(b, prog, s, last);
    if e.Some? {
      ScanGrows(b, prog, e.value.1, Some(e.value.1));
    }
  }

  // The states a scan promotes on its way.
  ghost predicate Promotes(w: seq<byte>, prog: nat, s: State, last: Option<State>, n: State)
    requires prog > 0
    decreases |w| - s.off
  {
    var e := RunEnd(w, prog, s, last);
    e.Some? && (n == e.value.1 || Promotes(w, prog, e.value.1, Some(e.value.1), n))
  }

  /** Whatever a scan of torn bytes ends with is nothing new, or a state that the finished block promotes. */
  lemma {:induction false} TornScan(b: seq<byte>, w: seq<byte>, prog: nat, s: State, u: State,
                                    last: Option<State>, lastU: Option<State>, from: nat)
    returns (n: State)
    requires prog > 0 && |b| == |w| && Alike(s, u) && from <= s.off && Trusted(b, w, prog, s, last, from)
    ensures var r := Scan(b, prog, s, last).last;
            r == last || (r.Some? && Promotes(w, prog, u, lastU, n) && Alike(r.value, n))
    decreases |b| - s.off
  {
    hide StepAt, Alike;
    n := u;
    ScanByRuns(b, prog, s, last);
    var e := RunEnd(b, prog, s, last);
    if e.Some? {
      RunFollows(b, w, prog, s, u, last, lastU, from);
      var f := RunEnd(w, prog, u, lastU).value.1;
      n := TornScan(b, w, prog, e.value.1, f, Some(e.value.1), Some(f), e.value.1.off);
      if Scan(b, prog, e.value.1, Some(e.value.1)).last == Some(e.value.1) {
        n := f;
      }
    }
  }

  lemma {:induction false} RunGrows(w: seq<byte>, prog: nat, s: State, last: Option<State>)
    requires prog > 0
    ensures var e := RunEnd(w, prog, s, last);
            e.Some? ==>
              && s.log <= e.value.1.log && |s.log| < |e.value.1.log|
              && Class(e.value.1.log[|e.value.1.log| - 1].tag.ty) == CRC
    decreases |w| - s.off
  {
    hide C.Crc, Unpack, FromBe32, FromLe32, Xor32;
    match StepAt(w, prog, s, last)
    case Stop(_) =>
    case Next(n) =>
      assert s.log <= n.log;
      RunGrows(w, prog, n, last);
    case Commits(n) =>
  }

  lemma {:induction false} RunSums(w: seq<byte>, prog: nat, s: State, last: Option<State>)
    requires prog > 0 && Summed(s)
    ensures var e := RunEnd(w, prog, s, last);
            e.Some? && ReadableLog(e.value.1.log) ==> Summed(e.value.1)
    decreases |w| - s.off
  {
    hide C.Crc, Unpack, FromBe32, FromLe32, Xor32, Summary;
    RunGrows(w, prog, s, last);
    match StepAt(w, prog, s, last)
    case Stop(_) =>
    case Next(n) =>
      RunGrows(w, prog, n, last);
      var e := RunEnd(w, prog, n, last);
      if e.Some? && ReadableLog(e.value.1.log) {
        assert e.value.1.log[|n.log| - 1] == n.log[|n.log| - 1];
        StepSums(w, prog, s, last, n);
        RunSums(w, prog, n, last);
      }
    case Commits(n) =>
      if Readable(n.log[|n.log| - 1]) {
        StepSums(w, prog, s, last, n);
      }
  }

  // Promoted states lie between the one the scan began with and the one it ends with.
  lemma {:induction false} PromotedBetween(w: seq<byte>, prog: nat, s: State, last: Option<State>, n: State)
    requires prog > 0 && Promotes(w, prog, s, last, n)
    ensures var r := Scan(w, prog, s, last).last;
            r.Some? && s.log <= n.log <= r.value.log && |s.log| < |n.log|
            && Class(n.log[|n.log| - 1].tag.ty) == CRC
            && (Summed(s) && ReadableLog(r.value.log) ==> Summed(n) && Summed(r.value))
    decreases |w| - s.off
  {
    hide StepAt, Summed;
    ScanByRuns(w, prog, s, last);
    RunGrows(w, prog, s, last);
    var m := RunEnd(w, prog, s, last).value.1;
    var r := Scan(w, prog, m, Some(m)).last;
    ScanGrows(w, prog, m, Some(m));
    assert r.Some? && m.log <= r.value.log;
    if Summed(s) && ReadableLog(r.value.log) {
      assert forall i :: 0 <= i < |m.log| ==> m.log[i] == r.value.log[i];
      RunSums(w, prog, s, last);
    }
    if n != m {
      PromotedBetween(w, prog, m, Some(m), n);
    } else if r != Some(m) {
      LastIsPromoted(w, prog, m, Some(m));
      PromotedBetween(w, prog, m, Some(m), r.value);
    }
  }

  lemma {:induction false} LastIsPromoted(w: seq<byte>, prog: nat, s: State, last: Option<State>)
    requires prog > 0
    ensures var r := Scan(w, prog, s, last).last;
            r == last || (r.Some? && Promotes(w, prog, s, last, r.value))
    decreases |w| - s.off
  {
    hide StepAt;
    ScanByRuns(w, prog, s, last);
    var e := RunEnd(w, prog, s, last);
    if e.Some? {
      LastIsPromoted(w, prog, e.value.1, Some(e.value.1));
    }
  }

  /* Torn commits */

  // A log carried on by records that are not checksums, and then checksums.
  ghost predicate Appends(before: seq<Record>, recs: seq<Record>, after: seq<Record>) {
    && before + recs <= after
    && (forall i :: 0 <= i < |recs| ==> Class(recs[i].tag.ty) != CRC)
    && forall i :: |before| + |recs| <= i < |after| ==> Class(after[i].tag.ty) == CRC
  }

  lemma AppendsMeans(before: seq<Record>, recs: seq<Record>, after: seq<Record>)
    requires Appends(before, recs, after)
    ensures Replay(after) == Replay(before + recs) && Summary(after) == Summary(before + recs)
    ensures LastOfType(after, TYPE_MOVESTATE) == LastOfType(before + recs, TYPE_MOVESTATE)
  {
    hide Replay, Summary, LastOfType;
    var sums := after[|before + recs|..];
    assert after == before + recs + sums;
    ChecksumsAddNothing(before + recs, sums);
  }

  lemma NoChecksumWithin(before: seq<Record>, recs: seq<Record>, after: seq<Record>)
    requires Appends(before, recs, after)
    ensures forall k :: |before| <= k < |before| + |recs| ==> Class(after[k].tag.ty) != CRC
  {
    forall k | |before| <= k < |before| + |recs|
      ensures Class(after[k].tag.ty) != CRC
    {
      assert after[k] == (before + recs)[k] == recs[k - |before|];
    }
  }

  // A scan of the finished block cannot stop inside the records of one commit.
  lemma PromotedIsWhole(w: seq<byte>, prog: nat, s: State, last: Option<State>, n: State, recs: seq<Record>)
    requires prog > 0 && Promotes(w, prog, s, last, n) && Summed(s)
    requires var r := Scan(w, prog, s, last).last;
             r.Some? ==> Appends(s.log, recs, r.value.log) && ReadableLog(r.value.log)
    ensures var r := Scan(w, prog, s, last).last;
            r.Some? && SameDirectory(n, r.value)
  {
    hide Scan, Promotes, Replay, Summary, LastOfType;
    PromotedBetween(w, prog, s, last, n);
    var r := Scan(w, prog, s, last).last.value;
    NoChecksumWithin(s.log, recs, r.log);
    assert n.log[|n.log| - 1] == r.log[|n.log| - 1];
    assert s.log + recs <= n.log;
    AppendsMeans(s.log, recs, n.log);
    AppendsMeans(s.log, recs, r.log);
  }

  lemma FetchedSums(b: seq<byte>, prog: nat)
    requires prog > 0 && |b| >= 4
    ensures var r := FetchBlock(b, prog).last;
            r.Some? ==> r.value.crc == C.ONES && r.value.off <= |b| && (ReadableLog(r.value.log) ==> Summed(r.value))
  {
    hide C.Crc, Scan, Promotes;
    ScanInside(b, prog, Initial(b), None);
    LastIsPromoted(b, prog, Initial(b), None);
    var r := FetchBlock(b, prog).last;
    if r.Some? {
      PromotedBetween(b, prog, Initial(b), None, r.value);
      PromotedClears(b, prog, Initial(b), None, r.value);
    }
  }

  lemma {:induction false} PromotedClears(w: seq<byte>, prog: nat, s: State, last: Option<State>, n: State)
    requires prog > 0 && Promotes(w, prog, s, last, n)
    ensures n.crc == C.ONES
    decreases |w| - s.off
  {
    RunClears(w, prog, s, last);
    var m := RunEnd(w, prog, s, last).value.1;
    if n != m {
      PromotedClears(w, prog, m, Some(m), n);
    }
  }

  lemma {:induction false} RunClears(w: seq<byte>, prog: nat, s: State, last: Option<State>)
    requires prog > 0
    ensures var e := RunEnd(w, prog, s, last);
            e.Some? ==> e.value.1.crc == C.ONES
    decreases |w| - s.off
  {
    hide C.Crc, Unpack, FromBe32, FromLe32, Xor32;
    match StepAt(w, prog, s, last)
    case Next(n) => RunClears(w, prog, n, last);
    case _ =>
  }

  /** Power lost while a commit is appended: whatever the bytes behind the last whole commit have
      become, a fetch finds that commit, or a directory that equals the finished one. */
  lemma TornAppend(block: seq<byte>, w: seq<byte>, b: seq<byte>, prog: nat, c: State, done: State, recs: seq<Record>)
    requires prog > 0 && |block| == |w| == |b| && |block| >= 4
    requires FetchBlock(block, prog).last == Some(c) && c.off <= |block|
    requires w[..c.off] == block[..c.off] && b[..c.off] == block[..c.off]
    requires FetchBlock(w, prog).last == Some(done) && Appends(c.log, recs, done.log) && ReadableLog(done.log)
    requires Trusted(b, w, prog, c, Some(c), c.off)
    ensures var f := FetchBlock(b, prog).last;
            f == Some(c) || (f.Some? && SameDirectory(f.value, done))
    ensures var f := FetchBlock(b, prog);
            f.erased <==> Appendable(b, prog, f.last.value)
  {
    hide C.Crc, Scan, Promotes, Replay, Summary, Trusted, LastOfType, Appendable;
    ErasedExactly(b, prog);
    assert ReadableLog(c.log) by {
      assert forall i :: 0 <= i < |c.log| ==> c.log[i] == (c.log + recs)[i] == done.log[i];
    }
    FetchedSums(block, prog);
    FetchResumes(block, w, prog, c);
    FetchResumes(block, b, prog, c);
    var n := TornScan(b, w, prog, c, c, Some(c), Some(c), c.off);
    var f := FetchBlock(b, prog).last;
    if f != Some(c) {
      PromotedIsWhole(w, prog, c, Some(c), n, recs);
      AlikeReplay(f.value.log, n.log);
    }
  }

  /* A pair of blocks */

  // lfs_scmp on revision counts, which wrap around.
  function Scmp(a: uint32, b: uint32): int {
    var d := (a - b) % 0x1_0000_0000;
    if d < 0x8000_0000 then d else d - 0x1_0000_0000
  }

  function Revision(block: seq<byte>): uint32
    requires |block| >= 4
  {
    FromLe32(block[..4])
  }

  datatype FoundDir = FoundDir(pair: (nat, nat), rev: uint32, state: State, erased: bool)

  predicate Device(disk: seq<seq<byte>>, bs: nat) {
    bs >= 4 && forall i :: 0 <= i < |disk| ==> |disk[i]| == bs
  }

  /** What a fetch of a pair finds: the newer block if it holds a commit, or else the older one. */
  function FetchPair(disk: seq<seq<byte>>, bs: nat, pair: (nat, nat), prog: nat): Result<FoundDir>
    requires prog > 0 && Device(disk, bs)
  {
    if pair.0 >= |disk| || pair.1 >= |disk| then Err(Corrupt) else
      var (x, y) := if Scmp(Revision(disk[pair.1]), Revision(disk[pair.0])) > 0 then (pair.1, pair.0) else pair;
      var fx, fy := FetchBlock(disk[x], prog), FetchBlock(disk[y], prog);
      if fx.last.Some? then Ok(FoundDir((x, y), Revision(disk[x]), fx.last.value, fx.erased))
      else if fy.last.Some? then Ok(FoundDir((y, x), Revision(disk[y]), fy.last.value, fy.erased))
      else Err(Corrupt)
  }

  /** lfs_dir_fetchmatch over both blocks, without a name to match. */
  method Fetch(disk: seq<seq<byte>>, bs: nat, pair: (nat, nat), prog: nat) returns (r: Result<FoundDir>)
    requires prog > 0 && Device(disk, bs)
    ensures r == FetchPair(disk, bs, pair, prog)
  {
    hide C.Crc, Scan, FromLe32, Scmp;
    // blocks that are not on the device
    if pair.0 >= |disk| || pair.1 >= |disk| {
      return Err(Corrupt);
    }
    // the newer of the two
    var revs: seq<uint32> := [0, 0];
    var first := 0;
    var blocks := [pair.0, pair.1];
    for i := 0 to 2
      invariant |revs| == 2 && (i == 0 ==> first == 0) && (i == 1 ==> first == 0)
      invariant forall k :: 0 <= k < i ==> revs[k] == Revision(disk[blocks[k]])
      invariant i == 2 ==> first == if Scmp(revs[1], revs[0]) > 0 then 1 else 0
    {
      revs := revs[i := Revision(disk[blocks[i]])];
      if Scmp(revs[i], revs[(i + 1) % 2]) > 0 {
        first := i;
      }
    }
    // the newer first
    for i := 0 to 2
      invariant i >= 1 ==> FetchBlock(disk[blocks[first]], prog).last.None?
      invariant i >= 2 ==> FetchBlock(disk[blocks[1 - first]], prog).last.None?
    {
      var at := if i == 0 then first else 1 - first;
      var last, erased := DirScan.Fetch(disk[blocks[at]], prog);
      if last.Some? {
        return Ok(FoundDir((blocks[at], blocks[1 - at]), revs[at], last.value, erased));
      }
      // nothing there: the older
    }
    return Err(Corrupt);
  }

  lemma NewerOneWay(a: uint32, b: uint32)
    ensures Scmp(a, b) > 0 ==> Scmp(b, a) < 0
    ensures b == (a + 1) % 0x1_0000_0000 ==> Scmp(b, a) > 0
  {
  }

  /** Power lost while a directory is compacted into the other block of its pair: a fetch finds the
      directory as it was, or one that equals the finished compaction. All that is assumed of the
      torn block is that, unless its revision is the older one, its checksums cover only bytes of
      the finished block. */
  lemma TornCompaction(disk: seq<seq<byte>>, torn: seq<seq<byte>>, bs: nat, pair: (nat, nat), prog: nat,
                       was: FoundDir, w: seq<byte>, done: State, recs: seq<Record>)
    requires prog > 0 && Device(disk, bs) && Device(torn, bs) && |disk| == |torn| && |w| == bs && pair.0 != pair.1
    requires FetchPair(disk, bs, pair, prog) == Ok(was)
    requires torn[was.pair.0] == disk[was.pair.0]
    requires Revision(w) == (was.rev + 1) % 0x1_0000_0000
    requires FetchBlock(w, prog).last == Some(done) && Appends([], recs, done.log) && ReadableLog(done.log)
    requires var b := torn[was.pair.1];
             Scmp(was.rev, Revision(b)) <= 0 ==> Trusted(b, w, prog, Initial(b), None, 0)
    ensures var f := FetchPair(torn, bs, pair, prog);
            f.Ok? && (f.value.state == was.state || SameDirectory(f.value.state, done))
    ensures torn[was.pair.1] == w ==> FetchPair(torn, bs, pair, prog).value.state == done
  {
    hide FetchBlock, Trusted, Initial, Scmp, Revision, SameDirectory, ReadableLog, Appends;
    var b := torn[was.pair.1];
    NewerOneWay(was.rev, Revision(b));
    NewerOneWay(Revision(b), was.rev);
    if Scmp(was.rev, Revision(b)) <= 0 && FetchBlock(b, prog).last.Some? {
      TornBlock(b, w, prog, done, recs);
    }
  }

  lemma NothingSums(w: seq<byte>)
    requires |w| >= 4
    ensures Summed(Initial(w))
  {
  }

  lemma TornBlock(b: seq<byte>, w: seq<byte>, prog: nat, done: State, recs: seq<Record>)
    requires prog > 0 && |b| == |w| && |w| >= 4 && Trusted(b, w, prog, Initial(b), None, 0)
    requires FetchBlock(w, prog).last == Some(done) && Appends([], recs, done.log) && ReadableLog(done.log)
    ensures var f := FetchBlock(b, prog).last;
            f.Some? ==> SameDirectory(f.value, done)
  {
    hide C.Crc, Scan, StepAt, RunEnd, Promotes, Replay, Summary, LastOfType;
    ScanByRuns(b, prog, Initial(b), None);
    var e := RunEnd(b, prog, Initial(b), None);
    if e.Some? {
      Within(b, w, 0, e.value.0.off + 8, 0, 4);
      assert b[..4] == b[0..4] && w[..4] == w[0..4];
      hide Trusted;
      var n := TornScan(b, w, prog, Initial(b), Initial(w), None, None, 0);
      var f := FetchBlock(b, prog).last;
      if f.Some? {
        NothingSums(w);
        PromotedIsWhole(w, prog, Initial(w), None, n, recs);
        AlikeReplay(f.value.log, n.log);
      }
    }
  }
}