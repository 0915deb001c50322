/** Committing to a directory: appended to its block, or compacted into the other block of
    the pair (littlefs/lfs.cpp, lfs_dir_commit and the write loop of lfs_dir_compact). */
module DirUpdate {
  import opened Words
  import opened Tags
  import opened DirLog
  import opened DirLookup
  import opened DirScan
  import opened DirCommit
  import opened DirRecovery
  import opened Wrappers
  import C = Crc

  // What memory keeps of a directory (lfs_mdir_t, without its blocks and revision).
  datatype Mdir = Mdir(off: nat, etag: uint32, count: int, tail: seq<byte>, split: bool)

  function InRam(s: State): Mdir {
    Mdir(s.off, s.ptag, s.count, s.tail, s.split)
  }

  function Total(recs: seq<Record>): nat {
    if recs == [] then 0 else Total(recs[..|recs| - 1]) + Size(recs[|recs| - 1].tag)
  }

  ghost predicate AllCommittable(recs: seq<Record>) {
    forall i :: 0 <= i < |recs| ==> Committable(recs[i])
  }

  lemma {:induction false} AfterAllLogs(s: State, recs: seq<Record>)
    requires AllCommittable(recs)
    ensures AfterAll(s, recs).log == s.log + recs
    ensures AfterAll(s, recs).off == s.off + Total(recs) && (recs == [] ==> Total(recs) == 0)
  {
    if recs != [] {
      AfterAllLogs(s, recs[..|recs| - 1]);
    }
  }

  lemma {:induction false} TotalGrows(recs: seq<Record>, k: nat)
    requires k <= |recs|
    ensures Total(recs[..k]) <= Total(recs)
    ensures k < |recs| ==> Total(recs[..k]) + Size(recs[k].tag) <= Total(recs)
    decreases |recs| - k
  {
    if k < |recs| {
      TotalGrows(recs, k + 1);
      assert recs[..k + 1][..k] == recs[..k];
    } else {
      assert recs[..k] == recs;
    }
  }

  lemma TotalOfNone()
    ensures Total([]) == 0
  {
  }

  lemma TotalStep(recs: seq<Record>, k: nat)
    requires k < |recs|
    ensures Total(recs[..k + 1]) == Total(recs[..k]) + Size(recs[k].tag) && recs[..k + 1][..k] == recs[..k]
  {
    assert recs[..k + 1][..k] == recs[..k];
  }

  // The attributes of a commit, one after the other.
  method CommitAll(w: Writer, recs: seq<Record>) returns (ok: Result<()>)
    requires w.Open() && AllCommittable(recs)
    modifies w
    ensures w.Open() && |w.block| == |old(w.block)| && w.block[..old(w.off)] == old(w.block)[..old(w.off)]
    ensures ok.Ok? <==> recs == [] || old(w.off) + Total(recs) + 8 <= |w.block|
    ensures ok.Ok? ==> w.cur == AfterAll(old(w.cur), recs) && w.off == old(w.off) + Total(recs)
    ensures ok.Err? ==> ok.error == NoSpace
  {
    hide C.Crc, Leads, Encode, Pack, Size, Total;
    assert recs[..0] == [] && Total([]) == 0 by { TotalOfNone(); }
    for i := 0 to |recs|
      invariant w.Open() && |w.block| == |old(w.block)| && old(w.off) <= w.off
      invariant w.block[..old(w.off)] == old(w.block)[..old(w.off)]
      invariant w.off == old(w.off) + Total(recs[..i]) && (i > 0 ==> w.off + 8 <= |w.block|)
      invariant w.cur == AfterAll(old(w.cur), recs[..i])
    {
      ghost var before, at := w.block, w.off;
      AfterAllLogs(old(w.cur), recs[..i]);
      TotalGrows(recs, i);
      TotalStep(recs, i);
      ok := w.CommitAttr(recs[i]);
      assert w.block[..old(w.off)] == w.block[..at][..old(w.off)] == before[..at][..old(w.off)];
      if ok.Err? {
        return;
      }
    }
    assert recs[..|recs|] == recs;
    return Ok(());
  }

  // The in-memory count follows creates and deletes only.
  function RamCount(count: int, recs: seq<Record>): int {
    if recs == [] then count else
      var before, ty := RamCount(count, recs[..|recs| - 1]), recs[|recs| - 1].tag.ty;
      if ty == TYPE_CREATE then before + 1 else if ty == TYPE_DELETE then before - 1 else before
  }

  function RamTail(tail: seq<byte>, split: bool, recs: seq<Record>): (seq<byte>, bool) {
    if recs == [] then (tail, split) else
      var r := recs[|recs| - 1];
      if Class(r.tag.ty) == TAIL then (r.data, r.tag.ty % 2 == 1) else RamTail(tail, split, recs[..|recs| - 1])
  }

  // Names are only written to entries that exist.
  ghost predicate NamesCreated(count: int, recs: seq<Record>) {
    forall i :: 0 <= i < |recs| && Class(recs[i].tag.ty) == NAME ==> recs[i].tag.id < RamCount(count, recs[..i])
  }

  /** Records that carry a directory on: they create entries next to existing ones, delete entries while they exist
      and write to entries that exist. */
  ghost predicate CarriesOn(log: seq<Record>, recs: seq<Record>) {
    recs == [] ||
    var rest, r := recs[..|recs| - 1], recs[|recs| - 1];
    var n := |Replay(log + rest)|;
    && CarriesOn(log, rest) && Proper(r)
    && (r.tag.ty == TYPE_CREATE ==> r.tag.id <= n)
    && (r.tag.ty == TYPE_DELETE || IsAttr(r.tag.ty) ==> r.tag.id < n)
  }

  /** The count kept in memory is the number of entries that replaying the records leaves. */
  lemma {:induction false} RamCountsEntries(log: seq<Record>, recs: seq<Record>)
    requires CarriesOn(log, recs)
    ensures RamCount(|Replay(log)|, recs) == |Replay(log + recs)|
    ensures NamesCreated(|Replay(log)|, recs)
  {
    if recs == [] {
      assert log + recs == log;
    } else {
      var rest, r := recs[..|recs| - 1], recs[|recs| - 1];
      RamCountsEntries(log, rest);
      assert (log + recs)[..|log + recs| - 1] == log + rest && (log + recs)[|log + recs| - 1] == r;
      OneCounted(Replay(log + rest), r);
      hide Replay, Apply, Proper;
      forall i | 0 <= i < |recs| && Class(recs[i].tag.ty) == NAME
        ensures recs[i].tag.id < RamCount(|Replay(log)|, recs[..i])
      {
        if i < |rest| {
          assert rest[..i] == recs[..i] && rest[i] == recs[i];
        }
      }
    }
  }

  lemma OneCounted(es: seq<History>, r: Record)
    requires Proper(r) && (r.tag.ty == TYPE_CREATE ==> r.tag.id <= |es|)
    requires r.tag.ty == TYPE_DELETE || IsAttr(r.tag.ty) ==> r.tag.id < |es|
    ensures |Apply(es, r)| ==
              if r.tag.ty == TYPE_CREATE then |es| + 1 else if r.tag.ty == TYPE_DELETE then |es| - 1 else |es|
  {
  }

  lemma OneScanned(s: State, rest: seq<Record>, r: Record)
    requires AllCommittable(rest) && AllCommittable(rest + [r]) && Proper(r) && Committable(r)
    requires Class(r.tag.ty) == NAME ==> r.tag.id < RamCount(s.count, rest)
    requires AfterAll(s, rest).count == RamCount(s.count, rest)
    requires (AfterAll(s, rest).tail, AfterAll(s, rest).split) == RamTail(s.tail, s.split, rest)
    ensures AfterAll(s, rest + [r]).count == RamCount(s.count, rest + [r])
    ensures (AfterAll(s, rest + [r]).tail, AfterAll(s, rest + [r]).split) == RamTail(s.tail, s.split, rest + [r])
  {
    hide C.Crc, Encode;
    assert (rest + [r])[..|rest|] == rest;
  }

  // The commit loop's view of the directory is what a scan makes of the records.
  lemma {:induction false} RamIsScanned(s: State, recs: seq<Record>)
    requires AllCommittable(recs) && ProperLog(recs) && NamesCreated(s.count, recs)
    ensures AfterAll(s, recs).count == RamCount(s.count, recs)
    ensures (AfterAll(s, recs).tail, AfterAll(s, recs).split) == RamTail(s.tail, s.split, recs)
  {
    if recs != [] {
      var n := |recs| - 1;
      var rest := recs[..n];
      assert Proper(recs[n]) && Committable(recs[n]) && recs == rest + [recs[n]];
      assert Class(recs[n].tag.ty) == NAME ==> recs[n].tag.id < RamCount(s.count, rest);
      hide Proper, Committable, AfterAll, RamTail;
      forall i | 0 <= i < n && Class(rest[i].tag.ty) == NAME
        ensures rest[i].tag.id < RamCount(s.count, rest[..i])
      {
        assert rest[..i] == recs[..i];
      }
      RamIsScanned(s, rest);
      hide *;
      OneScanned(s, rest, recs[n]);
    }
  }

  lemma AppendsAndReads(before: seq<Record>, recs: seq<Record>, after: seq<Record>)
    requires ReadableLog(before) && AllCommittable(recs) && before + recs <= after
    requires forall i :: |before + recs| <= i < |after| ==> Checksum(after[i])
    ensures Appends(before, recs, after) && ReadableLog(after)
    ensures ProperLog(before) && ProperLog(recs) ==> ProperLog(after)
  {
    forall i | 0 <= i < |after|
      ensures Readable(after[i]) && (ProperLog(before) && ProperLog(recs) ==> Proper(after[i]))
    {
      if i < |before| {
        assert after[i] == (before + recs)[i] == before[i];
      } else if i < |before| + |recs| {
        assert after[i] == (before + recs)[i] == recs[i - |before|];
        assert Committable(recs[i - |before|]);
      } else {
        assert Checksum(after[i]);
      }
    }
  }

  // What the count and the tail of the fetched directory mean.
  lemma AppendCounts(w: seq<byte>, prog: nat, before: seq<Record>, recs: seq<Record>)
    requires prog > 0 && |w| >= 4
    requires var n := FetchBlock(w, prog).last;
             n.Some? && Appends(before, recs, n.value.log) && ReadableLog(n.value.log)
    ensures var n := FetchBlock(w, prog).last.value;
            LastTail(before + recs, n.tail, n.split) && |Replay(n.log)| == |Replay(before + recs)|
    ensures CarriesOn(before, recs) ==> RamCount(|Replay(before)|, recs) == |Replay(before + recs)|
  {
    hide FetchBlock, Summary, Replay, LastTail, LastOfType, CarriesOn, RamCount;
    var n := FetchBlock(w, prog).last.value;
    FetchedSums(w, prog);
    AppendsMeans(before, recs, n.log);
    ReadableFront(before + recs, n.log);
    SummaryTail(before + recs);
    if CarriesOn(before, recs) {
      RamCountsEntries(before, recs);
    }
  }

  lemma ReadableFront(a: seq<Record>, b: seq<Record>)
    requires a <= b && ReadableLog(b)
    ensures ReadableLog(a)
  {
    assert forall i :: 0 <= i < |a| ==> a[i] == b[i];
  }

  /** lfs_dir_commit while the block has room: a fetch of the block then finds the directory
      just as memory has it, and the records behind those it had. When there is no room the
      last whole commit is still intact. */
  method AppendCommit(block: seq<byte>, prog: nat, dir: Mdir, recs: seq<Record>, ghost c: State)
    returns (ok: Result<Mdir>, w: seq<byte>)
    requires prog > 0 && |block| % prog == 0 && |block| >= 4
    requires FetchBlock(block, prog).last == Some(c) && ReadableLog(c.log) && dir == InRam(c)
    requires AllCommittable(recs) && ProperLog(recs) && NamesCreated(dir.count, recs)
    ensures |w| == |block| && dir.off <= |block| && w[..dir.off] == block[..dir.off]
    ensures ok.Ok? <==> dir.off + Total(recs) + 8 <= |block|
    ensures ok.Ok? ==>
              && ok.value.count == RamCount(dir.count, recs)
              && (dir.count == |Replay(c.log)| && CarriesOn(c.log, recs) ==> ok.value.count == |Replay(c.log + recs)|)
              && (ok.value.tail, ok.value.split) == RamTail(dir.tail, dir.split, recs)
              && LastTail(c.log + recs, ok.value.tail, ok.value.split)
              && var f := FetchBlock(w, prog);
                 && f.last.Some? && InRam(f.last.value) == ok.value
                 && f.erased == (ok.value.off + 4 <= |block|)
                 && Appends(c.log, recs, f.last.value.log) && ReadableLog(f.last.value.log)
                 && (ProperLog(c.log) ==> ProperLog(f.last.value.log))
    ensures ok.Err? ==> ok.error == NoSpace
  {
    hide C.Crc, Scan, Leads, AfterAll, RamCount, RamTail, Total, CarriesOn, LastTail, Replay;
    FetchedSums(block, prog);
    // what the records make of the directory
    var count, tail, split := dir.count, dir.tail, dir.split;
    count, tail, split := CountChanges(dir, recs);
    var commit := new Writer.Append(block, prog, dir.off, dir.etag, c);
    var sent := CommitAll(commit, recs);
    if sent.Err? {
      return Err(NoSpace), commit.block;
    }
    ghost var full := commit.cur;
    AfterAllLogs(c, recs);
    RamIsScanned(c, recs);
    ghost var partial, reached := commit.block, commit.off;
    var sealed := commit.CommitCrc();
    w := commit.block;
    if sealed.Err? {
      return Err(NoSpace), w;
    }
    assert w[..c.off] == w[..reached][..c.off] == partial[..reached][..c.off] == partial[..c.off];
    FetchResumes(block, w, prog, c);
    AppendsAndReads(c.log, recs, commit.cur.log);
    AppendCounts(w, prog, c.log, recs);
    ok := Ok(Mdir(commit.off, commit.ptag, count, tail, split));
  }

  /** What lookups in a fetched block walk through is the log as it was, carried on by the commit. */
  lemma CommitIsVisible(w: seq<byte>, prog: nat, before: seq<Record>, recs: seq<Record>, n: State)
    requires prog > 0 && |w| >= 4 && FetchBlock(w, prog).last == Some(n) && Appends(before, recs, n.log)
    ensures LogAt(w, n.off, Low(n.ptag), n.log) && Replay(n.log) == Replay(before + recs)
    ensures LastOfType(n.log, TYPE_MOVESTATE) == LastOfType(before + recs, TYPE_MOVESTATE)
  {
    hide FetchBlock, LogAt, Low, Replay, Summary, Appends, LastOfType;
    FetchedLogAt(w, prog);
    AppendsMeans(before, recs, n.log);
  }

  // The loop over attributes at the head of lfs_dir_commit.
  method CountChanges(dir: Mdir, recs: seq<Record>) returns (count: int, tail: seq<byte>, split: bool)
    ensures count == RamCount(dir.count, recs) && (tail, split) == RamTail(dir.tail, dir.split, recs)
  {
    count, tail, split := dir.count, dir.tail, dir.split;
    assert recs[..0] == [];
    for i := 0 to |recs|
      invariant count == RamCount(dir.count, recs[..i]) && (tail, split) == RamTail(dir.tail, dir.split, recs[..i])
    {
      assert recs[..i + 1][..i] == recs[..i];
      if recs[i].tag.ty == TYPE_CREATE {
        count := count + 1;
      } else if recs[i].tag.ty == TYPE_DELETE {
        count := count - 1;
      } else if Class(recs[i].tag.ty) == TAIL {
        tail, split := recs[i].data, recs[i].tag.ty % 2 == 1;
      }
    }
    assert recs[..|recs|] == recs;
  }

  /** The write loop of lfs_dir_compact: the other block becomes a directory of just these records. */
  method CompactBlock(stale: seq<byte>, prog: nat, rev: uint32, recs: seq<Record>)
    returns (ok: Result<(nat, uint32)>, w: seq<byte>)
    requires prog > 0 && |stale| % prog == 0 && |stale| >= 4
    requires AllCommittable(recs)
    ensures |w| == |stale| && Revision(w) == rev
    ensures ok.Ok? <==> 4 + Total(recs) + 8 <= |stale|
    ensures ok.Ok? ==>
              var f := FetchBlock(w, prog);
              && f.last.Some? && f.erased == (f.last.value.off + 4 <= |stale|)
              && InRam(f.last.value) == Mdir(ok.value.0, ok.value.1, Summary(recs).0, Summary(recs).1, Summary(recs).2)
              && Appends([], recs, f.last.value.log) && ReadableLog(f.last.value.log)
              && (ProperLog(recs) ==> ProperLog(f.last.value.log))
    ensures ok.Err? ==> ok.error == NoSpace
  {
    hide C.Crc, Scan, Leads, AfterAll, Total, Summary, Le32, FromLe32;
    // erase leaves the block as it was
    var commit := new Writer.Begin(stale, prog, rev);
    ghost var blank := commit.block;
    assert blank[..4] == Le32(rev);
    ByteOrderRoundTrip(rev);
    var sent := CommitAll(commit, recs);
    if sent.Err? {
      return Err(NoSpace), commit.block;
    }
    AfterAllLogs(commit.start, recs);
    ghost var partial, reached := commit.block, commit.off;
    var sealed := commit.CommitCrc();
    w := commit.block;
    if sealed.Err? {
      return Err(NoSpace), w;
    }
    assert w[..4] == w[..reached][..4] == partial[..reached][..4] == partial[..4] == blank[..4];
    assert Initial(w) == commit.start;
    AppendsAndReads([], recs, commit.cur.log);
    FetchedSums(w, prog);
    AppendsMeans([], recs, commit.cur.log);
    assert [] + recs == recs;
    ok := Ok((commit.off, commit.ptag));
  }
}
