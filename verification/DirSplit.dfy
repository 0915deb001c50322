/** Compaction into as many pairs of blocks as it takes
    (littlefs/lfs.cpp, lfs_dir_compact and lfs_dir_split). */
module DirSplit {
  import opened Words
  import opened Aligned
  import opened Tags
  import opened DirLog
  import opened DirLookup
  import opened DirScan
  import opened DirCommit
  import opened DirRecovery
  import opened DirUpdate
  import opened DirCompact
  import opened GlobalState
  import opened Blocks
  import opened Allocator
  import opened Wrappers

  // A pair of blocks as eight bytes, the form in which tails name it.
  type Link = s: seq<byte> | |s| == 8 witness NULL_TAIL

  predicate IsNull(t: Link) {
    t[..4] == NULL_TAIL[..4] || t[4..] == NULL_TAIL[..4]
  }

  // Where a directory lies: the block it was last written to, and the other of its pair.
  type Site = p: (nat, nat) | p.0 < 0xffff_ffff && p.1 < 0xffff_ffff witness (0, 0)

  // lfs_pair_cmp: pairs are taken for the same if they share a block.
  predicate Same(a: Site, b: Site) {
    a.0 == b.0 || a.1 == b.1 || a.0 == b.1 || a.1 == b.0
  }

  function LinkTo(at: Site): Link {
    Le32(at.0) + Le32(at.1)
  }

  function PairOf(t: Link): (nat, nat) {
    (FromLe32(t[..4]), FromLe32(t[4..]))
  }

  lemma LinkRoundTrip(at: Site)
    ensures PairOf(LinkTo(at)) == at && !IsNull(LinkTo(at))
  {
    var t := LinkTo(at);
    assert t[..4] == Le32(at.0) && t[4..] == Le32(at.1);
    ByteOrderRoundTrip(at.0);
    ByteOrderRoundTrip(at.1);
    assert FromLe32(NULL_TAIL[..4]) == 0xffff_ffff;
  }

  // Only pairs and the null pair itself occur as tails.
  predicate TailOk(t: Link, split: bool) {
    IsNull(t) ==> t == NULL_TAIL && !split
  }

  function TailRecords(t: Link, split: bool): seq<Record> {
    if IsNull(t) then [] else [Record(Tag(if split then TYPE_HARDTAIL else TYPE_SOFTTAIL, NO_ID, 8), t)]
  }

  function StateRecords(g: GState): seq<Record> {
    if g == ZERO then [] else [StateRecord(g)]
  }

  // Everything a compaction writes into one block.
  function Written(source: seq<Record>, begin: nat, end: nat, t: Link, split: bool, g: GState): seq<Record>
    requires ProperLog(source)
  {
    Compacted(source, begin, end) + TailRecords(t, split) + StateRecords(g)
  }

  /* What a block of such records means */

  lemma {:induction false} EntriesOnly(out: seq<Record>, n: nat)
    requires AboutEntries(out, n)
    ensures forall j :: j >= n ==> Nth(Replay(out), j) == []
    ensures 0 <= Summary(out).0 <= n && Summary(out).1 == NULL_TAIL && !Summary(out).2
    ensures LastOfType(out, TYPE_MOVESTATE) == None
    ensures AllCommittable(out)
  {
    if out != [] {
      var rest, r := out[..|out| - 1], out[|out| - 1];
      assert AboutEntries(rest, n) && Proper(r);
      EntriesOnly(rest, n);
      forall j | j >= n
        ensures Nth(Replay(out), j) == []
      {
        NthOfApply(Replay(rest), r, j);
      }
    }
  }

  // A name written to an entry counts it.
  lemma {:induction false} NamedIsCounted(out: seq<Record>, n: nat, j: nat)
    requires AboutEntries(out, n) && LastMatch(Nth(Replay(out), j), 256, TYPE_REG).Some?
    ensures Summary(out).0 > j
  {
    if out != [] {
      var rest, r := out[..|out| - 1], out[|out| - 1];
      assert AboutEntries(rest, n) && Proper(r);
      EntriesOnly(rest, n);
      NthOfApply(Replay(rest), r, j);
      LastMatchOfAppend(Nth(Replay(rest), j), r, 256, TYPE_REG);
      if LastMatch(Nth(Replay(rest), j), 256, TYPE_REG).Some? {
        NamedIsCounted(rest, n, j);
      }
    }
  }

  lemma TailAdds(out: seq<Record>, r: Record)
    requires Committable(r) && Class(r.tag.ty) == TAIL
    ensures var all := out + [r];
            Replay(all) == Replay(out) && Summary(all) == (Summary(out).0, r.data, r.tag.ty % 2 == 1)
            && LastOfType(all, TYPE_MOVESTATE) == LastOfType(out, TYPE_MOVESTATE)
  {
    assert (out + [r])[..|out|] == out;
    assert r.data[..8] == r.data;
  }

  lemma AppendTail(out: seq<Record>, t: Link, split: bool)
    requires TailOk(t, split) && Summary(out).1 == NULL_TAIL && !Summary(out).2
    requires LastOfType(out, TYPE_MOVESTATE) == None && AllCommittable(out)
    ensures var all := out + TailRecords(t, split);
            Replay(all) == Replay(out) && Summary(all) == (Summary(out).0, t, split)
            && LastOfType(all, TYPE_MOVESTATE) == None && AllCommittable(all)
  {
    hide Summary, Replay, LastOfType, IsNull;
    if IsNull(t) {
      assert out + TailRecords(t, split) == out;
    } else {
      TailAdds(out, TailRecords(t, split)[0]);
    }
  }

  lemma AppendState(out: seq<Record>, g: GState)
    requires LastOfType(out, TYPE_MOVESTATE) == None && AllCommittable(out)
    ensures var all := out + StateRecords(g);
            Replay(all) == Replay(out) && Summary(all) == Summary(out) && StoredIn(all) == g && AllCommittable(all)
  {
    hide FromLe32, Le32, LastOfType, ToBytes, FromBytes;
    var all := out + StateRecords(g);
    if g == ZERO {
      assert all == out;
    } else {
      assert all[..|out|] == out;
      StoredAfter(out, g);
    }
  }

  /** A block that is one piece of a compacted directory: its entries are the entries
      [begin, end) of the original, and it carries the link onwards and a state difference. */
  ghost predicate IsPiece(source: seq<Record>, block: seq<byte>, prog: nat, p: Piece, t: Link, split: bool)
    requires prog > 0 && ProperLog(source)
  {
    && |block| >= 4 && p.begin <= p.end
    && var f := FetchBlock(block, prog).last;
       && f.Some?
       && (forall j, ty :: 0 <= j < p.end - p.begin && IsAttr(ty) ==>
             Value(f.value.log, j, ty) == Value(source, p.begin + j, ty))
       && (forall j :: j >= p.end - p.begin ==> Nth(Replay(f.value.log), j) == [])
       && 0 <= f.value.count <= p.end - p.begin
       && (p.begin < p.end && Value(source, p.end - 1, TYPE_REG).Some? ==> f.value.count == p.end - p.begin)
       && f.value.tail == t && f.value.split == split
       && StoredIn(f.value.log) == p.g
  }

  datatype Piece = Piece(at: Site, begin: nat, end: nat, g: GState)

  // The first block of the pair is the newer.
  ghost predicate Newest(disk: seq<seq<byte>>, at: Site) {
    && at.0 < |disk| && at.1 < |disk| && |disk[at.0]| >= 4 && |disk[at.1]| >= 4
    && Scmp(Revision(disk[at.0]), Revision(disk[at.1])) > 0
  }

  /** A pair that holds a piece. */
  ghost predicate PieceAt(source: seq<Record>, disk: seq<seq<byte>>, prog: nat, p: Piece, t: Link, split: bool)
    requires prog > 0 && ProperLog(source)
  {
    Newest(disk, p.at) && IsPiece(source, disk[p.at.0], prog, p, t, split)
  }

  /** A fetch of the pair, named in either order, finds the piece, whatever its other block holds. */
  lemma PieceIsFetched(source: seq<Record>, disk: seq<seq<byte>>, bs: nat, prog: nat, p: Piece, t: Link, split: bool)
    requires prog > 0 && ProperLog(source) && Device(disk, bs) && PieceAt(source, disk, prog, p, t, split)
    ensures var f := FetchBlock(disk[p.at.0], prog);
            && f.last.Some?
            && FetchPair(disk, bs, p.at, prog) == Ok(FoundDir(p.at, Revision(disk[p.at.0]), f.last.value, f.erased))
            && FetchPair(disk, bs, (p.at.1, p.at.0), prog) == FetchPair(disk, bs, p.at, prog)
  {
    hide FetchBlock, Revision, Scmp, Value, StoredIn;
    NewerOneWay(Revision(disk[p.at.0]), Revision(disk[p.at.1]));
  }

  lemma WrittenIsPiece(source: seq<Record>, block: seq<byte>, prog: nat, p: Piece, t: Link, split: bool, n: State)
    requires prog > 0 && ProperLog(source) && |block| >= 4 && p.begin <= p.end <= NO_ID && TailOk(t, split)
    requires var recs := Written(source, p.begin, p.end, t, split, p.g);
             FetchBlock(block, prog).last == Some(n) && Appends([], recs, n.log)
             && (n.count, n.tail, n.split) == Summary(recs)
    ensures IsPiece(source, block, prog, p, t, split)
  {
    hide FetchBlock, Summary, Replay, LastOfType, Compacted, LastMatch;
    var out := Compacted(source, p.begin, p.end);
    var recs := Written(source, p.begin, p.end, t, split, p.g);
    WrittenMeans(source, p.begin, p.end, t, split, p.g);
    AppendsMeans([], recs, n.log);
    assert [] + recs == recs;
    forall j, ty | 0 <= j < p.end - p.begin && IsAttr(ty)
      ensures Value(n.log, j, ty) == Value(source, p.begin + j, ty)
    {
      CompactionKeepsMeaning(source, p.begin, p.end, j, ty);
    }
    if p.begin < p.end && Value(source, p.end - 1, TYPE_REG).Some? {
      CompactionKeepsMeaning(source, p.begin, p.end, p.end - p.begin - 1, TYPE_REG);
      NamedIsCounted(out, p.end - p.begin, p.end - p.begin - 1);
    }
  }

  lemma WrittenMeans(source: seq<Record>, begin: nat, end: nat, t: Link, split: bool, g: GState)
    requires ProperLog(source) && begin <= end <= NO_ID && TailOk(t, split)
    ensures var out, recs := Compacted(source, begin, end), Written(source, begin, end, t, split, g);
            && Replay(recs) == Replay(out) && Summary(recs) == (Summary(out).0, t, split) && StoredIn(recs) == g
            && AboutEntries(out, end - begin) && AllCommittable(recs) && 0 <= Summary(out).0 <= end - begin
            && forall j :: j >= end - begin ==> Nth(Replay(out), j) == []
  {
    hide Replay, Summary, LastOfType, AboutEntries, AllCommittable, TailRecords, StateRecords, StoredIn;
    var out := Compacted(source, begin, end);
    EmittedProper(source, |source|, begin, end);
    EntriesOnly(out, end - begin);
    AppendTail(out, t, split);
    AppendState(out + TailRecords(t, split), g);
  }

  /* Chains of pieces */

  function NextTail(chain: seq<Piece>, i: nat, t: Link): Link {
    if i < |chain| then LinkTo(chain[i].at) else t
  }

  function NextSplit(chain: seq<Piece>, i: nat, split: bool): bool {
    i < |chain| || split
  }

  /** The pieces, linked as one split directory, hold the entries [begin, end) in order, and the
      last of them links to where the directory led before. */
  ghost predicate Covers(source: seq<Record>, disk: seq<seq<byte>>, prog: nat, chain: seq<Piece>,
                         begin: nat, end: nat, t: Link, split: bool)
    requires prog > 0 && ProperLog(source)
  {
    && (if |chain| == 0 then begin == end else chain[0].begin == begin && chain[|chain| - 1].end == end)
    && (forall i :: 0 <= i < |chain| - 1 ==> chain[i].end == chain[i + 1].begin)
    && forall i :: 0 <= i < |chain| ==>
         PieceAt(source, disk, prog, chain[i], NextTail(chain, i + 1, t), NextSplit(chain, i + 1, split))
  }

  function States(chain: seq<Piece>): seq<GState> {
    seq(|chain|, i requires 0 <= i < |chain| => chain[i].g)
  }

  function SizeOf(source: seq<Record>, begin: nat, end: nat): nat
    requires ProperLog(source)
  {
    Total(Compacted(source, begin, end))
  }

  lemma {:induction false} TotalConcat(a: seq<Record>, b: seq<Record>)
    ensures Total(a + b) == Total(a) + Total(b)
  {
    if b == [] {
      assert a + b == a;
    } else {
      assert (a + b)[..|a + b| - 1] == a + b[..|b| - 1];
      TotalConcat(a, b[..|b| - 1]);
    }
  }

  // Fewer entries take no more room.
  lemma {:induction false} SizeMonotone(source: seq<Record>, k: nat, b: nat, e: nat, b': nat, e': nat)
    requires ProperLog(source) && k <= |source| && b <= b' <= e' <= e
    ensures Total(Emitted(source, k, b', e')) <= Total(Emitted(source, k, b, e))
  {
    hide EmittedAt, ProperLog;
    if k == 0 {
      assert Emitted(source, 0, b, e) == [] == Emitted(source, 0, b', e');
    } else {
      hide *;
      SizeMonotone(source, k - 1, b, e, b', e');
      EmittedTotal(source, k, b, e);
      EmittedTotal(source, k, b', e');
      PartMonotone(source, k - 1, b, e, b', e');
    }
  }

  // What record k adds to the size.
  function Part(source: seq<Record>, k: nat, b: nat, e: nat): nat
    requires ProperLog(source) && k < |source|
  {
    var r := EmittedAt(source, k, b, e);
    if r.Some? then Size(r.value.tag) else 0
  }

  lemma PartMonotone(source: seq<Record>, k: nat, b: nat, e: nat, b': nat, e': nat)
    requires ProperLog(source) && k < |source| && b <= b' <= e' <= e
    ensures Part(source, k, b', e') <= Part(source, k, b, e)
  {
    hide Fate, Proper;
  }

  lemma SizeOfMonotone(source: seq<Record>, b: nat, e: nat, b': nat, e': nat)
    requires ProperLog(source) && b <= b' <= e' <= e
    ensures SizeOf(source, b', e') <= SizeOf(source, b, e)
  {
    SizeMonotone(source, |source|, b, e, b', e');
  }

  lemma SizeOfNothing(source: seq<Record>, b: nat)
    requires ProperLog(source) && b <= NO_ID
    ensures SizeOf(source, b, b) == 0
  {
    EmittedProper(source, |source|, b, b);
    var out := Compacted(source, b, b);
    assert out != [] ==> out[0].tag.id < 0;
  }

  lemma EmittedTotal(source: seq<Record>, k: nat, b: nat, e: nat)
    requires ProperLog(source) && 0 < k <= |source|
    ensures Total(Emitted(source, k, b, e)) == Total(Emitted(source, k - 1, b, e)) + Part(source, k - 1, b, e)
  {
    hide EmittedAt;
    var rest, r := Emitted(source, k - 1, b, e), EmittedAt(source, k - 1, b, e);
    if r.Some? {
      assert (rest + [r.value])[..|rest|] == rest;
    }
  }

  lemma WrittenTotal(source: seq<Record>, begin: nat, end: nat, t: Link, split: bool, g: GState)
    requires ProperLog(source)
    ensures Total(Written(source, begin, end, t, split, g))
            == SizeOf(source, begin, end) + (if IsNull(t) then 0 else 12) + if g == ZERO then 0 else 16
  {
    hide Compacted, Total, ToBytes, IsNull;
    var out := Compacted(source, begin, end);
    TotalConcat(out + TailRecords(t, split), StateRecords(g));
    TotalConcat(out, TailRecords(t, split));
    TotalOne(TailRecords(t, split));
    TotalOne(StateRecords(g));
  }

  lemma TotalOne(rs: seq<Record>)
    requires |rs| <= 1
    ensures Total(rs) == if rs == [] then 0 else Size(rs[0].tag)
  {
    if rs != [] {
      assert rs[..0] == [];
    }
  }

  /** The guard's 36 bytes cannot hold a revision count, a tail, a state difference and a checksum:
      those take 40. Entries that pass the guard fit in the block exactly if they leave what is needed. */
  lemma GuardIsShort(source: seq<Record>, bs: nat, begin: nat, end: nat, t: Link, split: bool, g: GState)
    requires ProperLog(source) && SizeOf(source, begin, end) + 36 <= bs
    ensures 4 + Total(Written(source, begin, end, t, split, g)) + 8 <= bs <==>
              IsNull(t) || g == ZERO || SizeOf(source, begin, end) + 40 <= bs
  {
    WrittenTotal(source, begin, end, t, split, g);
  }

  function Min(a: int, b: int): int {
    if a < b then a else b
  }

  /** How many pairs the compaction of entries draws, one for each time it splits. */
  function Pairs(source: seq<Record>, bs: nat, prog: nat, begin: nat, end: nat): nat
    requires prog > 0 && ProperLog(source)
    decreases end - begin
  {
    if end - begin <= 1 || (end - begin < 0xff && SizeOf(source, begin, end) <= Min(bs - 36, AlignUp(bs / 2, prog)))
    then 0
    else
      var mid := begin + (end - begin) / 2;
      1 + Pairs(source, bs, prog, mid, end) + Pairs(source, bs, prog, begin, mid)
  }

  // Putting a new first piece before a chain.
  lemma Prepend(source: seq<Record>, disk: seq<seq<byte>>, prog: nat, p: Piece, rest: seq<Piece>,
                end: nat, t: Link, split: bool)
    requires prog > 0 && ProperLog(source) && Covers(source, disk, prog, rest, p.end, end, t, split)
    requires PieceAt(source, disk, prog, p, NextTail(rest, 0, t), NextSplit(rest, 0, split))
    ensures Covers(source, disk, prog, [p] + rest, p.begin, end, t, split)
  {
    hide PieceAt;
    var chain := [p] + rest;
    forall i | 0 <= i < |chain|
      ensures PieceAt(source, disk, prog, chain[i], NextTail(chain, i + 1, t), NextSplit(chain, i + 1, split))
    {
      if i > 0 {
        assert chain[i] == rest[i - 1];
        assert NextTail(chain, i + 1, t) == NextTail(rest, i, t);
      }
    }
  }

  lemma PrependStates(p: Piece, rest: seq<Piece>)
    ensures XorAll(States([p] + rest)) == GXor(p.g, XorAll(States(rest)))
  {
    hide XorAll, GXor;
    assert States([p] + rest) == [p.g] + States(rest);
    XorAllConcat([p.g], States(rest));
    XorAllOne(p.g);
  }

  // A chain in front of a chain.
  lemma Join(source: seq<Record>, disk: seq<seq<byte>>, prog: nat, a: seq<Piece>, b: seq<Piece>,
             begin: nat, mid: nat, end: nat, t: Link, split: bool)
    requires prog > 0 && ProperLog(source) && |a| > 0
    requires Covers(source, disk, prog, a, begin, mid, NextTail(b, 0, t), NextSplit(b, 0, split))
    requires Covers(source, disk, prog, b, mid, end, t, split)
    ensures Covers(source, disk, prog, a + b, begin, end, t, split)
  {
    hide PieceAt, ProperLog;
    var chain := a + b;
    forall i | 0 <= i < |chain|
      ensures PieceAt(source, disk, prog, chain[i], NextTail(chain, i + 1, t), NextSplit(chain, i + 1, split))
      ensures i + 1 < |chain| ==> chain[i].end == chain[i + 1].begin
    {
      JoinAt(source, disk, prog, a, b, begin, mid, end, t, split, i);
    }
    assert chain[0] == a[0] && chain[|chain| - 1] == if b == [] then a[|a| - 1] else b[|b| - 1];
  }

  lemma JoinStates(a: seq<Piece>, b: seq<Piece>)
    ensures XorAll(States(a + b)) == GXor(XorAll(States(a)), XorAll(States(b)))
  {
    hide XorAll, GXor;
    assert States(a + b) == States(a) + States(b);
    XorAllConcat(States(a), States(b));
  }

  lemma JoinAt(source: seq<Record>, disk: seq<seq<byte>>, prog: nat, a: seq<Piece>, b: seq<Piece>,
               begin: nat, mid: nat, end: nat, t: Link, split: bool, i: nat)
    requires prog > 0 && ProperLog(source) && |a| > 0 && i < |a + b|
    requires Covers(source, disk, prog, a, begin, mid, NextTail(b, 0, t), NextSplit(b, 0, split))
    requires Covers(source, disk, prog, b, mid, end, t, split)
    ensures var chain := a + b;
            && PieceAt(source, disk, prog, chain[i], NextTail(chain, i + 1, t), NextSplit(chain, i + 1, split))
            && (i + 1 < |chain| ==> chain[i].end == chain[i + 1].begin)
  {
    hide PieceAt;
    var chain := a + b;
    if i < |a| {
      assert chain[i] == a[i];
      assert NextTail(chain, i + 1, t) == NextTail(a, i + 1, NextTail(b, 0, t));
    } else {
      assert chain[i] == b[i - |a|];
      assert NextTail(chain, i + 1, t) == NextTail(b, i - |a| + 1, t);
    }
  }

  /* Which blocks a chain is in */

  function BlocksOf(chain: seq<Piece>): seq<nat> {
    if chain == [] then [] else [chain[0].at.0, chain[0].at.1] + BlocksOf(chain[1..])
  }

  lemma {:induction false} BlocksOfConcat(a: seq<Piece>, b: seq<Piece>)
    ensures BlocksOf(a + b) == BlocksOf(a) + BlocksOf(b)
  {
    if a == [] {
      assert a + b == b;
    } else {
      assert (a + b)[1..] == a[1..] + b;
      BlocksOfConcat(a[1..], b);
    }
  }

  lemma {:induction false} BlocksOfAt(chain: seq<Piece>, i: nat)
    requires i < |chain|
    ensures |BlocksOf(chain)| == 2 * |chain|
    ensures BlocksOf(chain)[2 * i] == chain[i].at.0 && BlocksOf(chain)[2 * i + 1] == chain[i].at.1
  {
    if i > 0 {
      BlocksOfAt(chain[1..], i - 1);
    } else if |chain| > 1 {
      BlocksOfAt(chain[1..], 0);
    }
  }

  /** Each piece has a pair of its own of these blocks. */
  ghost predicate From(chain: seq<Piece>, blocks: seq<nat>) {
    multiset(BlocksOf(chain)) <= multiset(blocks)
  }

  lemma FromIn(chain: seq<Piece>, blocks: seq<nat>, i: nat)
    requires From(chain, blocks) && i < |chain|
    ensures chain[i].at.0 in blocks && chain[i].at.1 in blocks
  {
    BlocksOfAt(chain, i);
    assert chain[i].at.0 in multiset(BlocksOf(chain)) && chain[i].at.1 in multiset(BlocksOf(chain));
  }

  lemma FromJoin(a: seq<Piece>, b: seq<Piece>, mine: seq<nat>, before: seq<nat>, after: seq<nat>)
    requires From(a, mine) && From(b, before) && after == before + mine
    ensures From(a + b, after)
  {
    BlocksOfConcat(a, b);
  }

  lemma FromNothing(blocks: seq<nat>)
    ensures From([], blocks)
  {
  }

  lemma FromFirst(p: Piece, rest: seq<Piece>, blocks: seq<nat>)
    requires From(rest, blocks)
    ensures From([p] + rest, [p.at.0, p.at.1] + blocks)
  {
    assert ([p] + rest)[1..] == rest;
  }

  lemma {:induction false} OnceInSeq(s: seq<nat>)
    ensures NoRepeats(s) <==> forall b :: multiset(s)[b] <= 1
  {
    if s != [] {
      var rest, last := s[..|s| - 1], s[|s| - 1];
      assert s == rest + [last];
      OnceInSeq(rest);
      if NoRepeats(s) {
        assert last !in multiset(rest);
      } else if NoRepeats(rest) {
        assert last in rest;
        assert multiset(s)[last] >= 2;
      } else {
        var b :| multiset(rest)[b] > 1;
        assert multiset(s)[b] > 1;
      }
    }
  }

  lemma FromMembers(chain: seq<Piece>, blocks: seq<nat>)
    requires From(chain, blocks)
    ensures forall b :: b in BlocksOf(chain) ==> b in blocks
  {
    forall b | b in BlocksOf(chain)
      ensures b in blocks
    {
      assert b in multiset(BlocksOf(chain));
    }
  }

  lemma TwoInFront(a: nat, b: nat, rest: seq<nat>)
    requires NoRepeats(rest) && a != b && a !in rest && b !in rest
    ensures NoRepeats([a, b] + rest)
  {
  }

  // Pairs taken from blocks without repeats share none.
  lemma FromNoRepeats(chain: seq<Piece>, blocks: seq<nat>)
    requires From(chain, blocks) && NoRepeats(blocks)
    ensures NoRepeats(BlocksOf(chain))
  {
    OnceInSeq(blocks);
    OnceInSeq(BlocksOf(chain));
  }

  // Blocks that stay the same keep a chain.
  lemma CoversKept(source: seq<Record>, disk: seq<seq<byte>>, disk': seq<seq<byte>>, prog: nat, chain: seq<Piece>,
                   begin: nat, end: nat, t: Link, split: bool)
    requires prog > 0 && ProperLog(source) && Covers(source, disk, prog, chain, begin, end, t, split)
    requires |disk'| == |disk|
    requires forall i :: 0 <= i < |chain| ==>
               chain[i].at.0 < |disk| && chain[i].at.1 < |disk|
               && disk'[chain[i].at.0] == disk[chain[i].at.0] && disk'[chain[i].at.1] == disk[chain[i].at.1]
    ensures Covers(source, disk', prog, chain, begin, end, t, split)
  {
    hide IsPiece;
  }

  /** Two pieces in the same two blocks never make a chain: each block is the newer of its pair and the
      older, or each piece is followed by what follows the other, and the chain has no end. */
  lemma {:induction false} SharedPairsDoNotCover(source: seq<Record>, disk: seq<seq<byte>>, prog: nat,
                                                 chain: seq<Piece>, begin: nat, end: nat, t: Link, split: bool,
                                                 i: nat, j: nat)
    requires prog > 0 && ProperLog(source) && i < j < |chain|
    requires chain[i].at == chain[j].at || chain[i].at == (chain[j].at.1, chain[j].at.0)
    requires forall k :: i < k < |chain| ==> LinkTo(chain[k].at) != t
    ensures !Covers(source, disk, prog, chain, begin, end, t, split)
    decreases |chain| - j
  {
    hide Covers, PieceAt, IsNull, LinkTo, PairOf;
    if Covers(source, disk, prog, chain, begin, end, t, split) {
      CoversAt(source, disk, prog, chain, begin, end, t, split, i);
      CoversAt(source, disk, prog, chain, begin, end, t, split, j);
      SameSite(source, disk, prog, chain[i], chain[j], NextTail(chain, i + 1, t), NextTail(chain, j + 1, t),
               NextSplit(chain, i + 1, split), NextSplit(chain, j + 1, split));
      if j + 1 < |chain| {
        LinkRoundTrip(chain[i + 1].at);
        LinkRoundTrip(chain[j + 1].at);
        SharedPairsDoNotCover(source, disk, prog, chain, begin, end, t, split, i + 1, j + 1);
      }
    }
  }

  lemma CoversAt(source: seq<Record>, disk: seq<seq<byte>>, prog: nat, chain: seq<Piece>,
                 begin: nat, end: nat, t: Link, split: bool, i: nat)
    requires prog > 0 && ProperLog(source) && i < |chain| && Covers(source, disk, prog, chain, begin, end, t, split)
    ensures PieceAt(source, disk, prog, chain[i], NextTail(chain, i + 1, t), NextSplit(chain, i + 1, split))
  {
    hide PieceAt;
  }

  lemma SameSite(source: seq<Record>, disk: seq<seq<byte>>, prog: nat, p: Piece, q: Piece, tp: Link, tq: Link,
                 sp: bool, sq: bool)
    requires prog > 0 && ProperLog(source)
    requires PieceAt(source, disk, prog, p, tp, sp) && PieceAt(source, disk, prog, q, tq, sq)
    requires p.at == q.at || p.at == (q.at.1, q.at.0)
    ensures p.at == q.at && tp == tq
  {
    hide FetchBlock, Value, StoredIn, Replay, Scmp, Revision;
    NewerOneWay(Revision(disk[p.at.0]), Revision(disk[p.at.1]));
  }

  // So two pieces taken from the same two blocks do not.
  lemma TwoBlocksDoNotCover(source: seq<Record>, disk: seq<seq<byte>>, prog: nat, chain: seq<Piece>,
                            begin: nat, end: nat, t: Link, split: bool, those: set<nat>)
    requires prog > 0 && ProperLog(source) && |chain| > 2 && |those| == 2
    requires forall k :: 0 < k < |chain| ==>
               chain[k].at.0 in those && chain[k].at.1 in those && LinkTo(chain[k].at) != t
    ensures !Covers(source, disk, prog, chain, begin, end, t, split)
  {
    hide Covers, PieceAt, LinkTo;
    if Covers(source, disk, prog, chain, begin, end, t, split) {
      TwoAt(source, disk, prog, chain, begin, end, t, split, 1);
      TwoAt(source, disk, prog, chain, begin, end, t, split, 2);
      OnlyTwo(those, chain[1].at, chain[2].at);
      SharedPairsDoNotCover(source, disk, prog, chain, begin, end, t, split, 1, 2);
    }
  }

  lemma TwoAt(source: seq<Record>, disk: seq<seq<byte>>, prog: nat, chain: seq<Piece>,
              begin: nat, end: nat, t: Link, split: bool, i: nat)
    requires prog > 0 && ProperLog(source) && i < |chain| && Covers(source, disk, prog, chain, begin, end, t, split)
    ensures chain[i].at.0 != chain[i].at.1
  {
    hide Covers, IsPiece, Revision;
    CoversAt(source, disk, prog, chain, begin, end, t, split, i);
  }

  lemma OnlyTwo(those: set<nat>, a: Site, b: Site)
    requires |those| == 2 && a.0 in those && a.1 in those && b.0 in those && b.1 in those && a.0 != a.1 && b.0 != b.1
    ensures a == b || a == (b.1, b.0)
  {
    assert |those - {a.0, a.1}| == 0;
  }

  // No blocks but those drawn from n on, and perhaps one other, are written.
  ghost predicate Keeps(was: seq<seq<byte>>, now: seq<seq<byte>>, drawn: seq<nat>, n: nat, own: int)
    requires n <= |drawn|
  {
    |now| == |was| && forall b :: 0 <= b < |was| && b != own && b !in drawn[n..] ==> now[b] == was[b]
  }

  /** Nothing but drawn blocks was written, now and at any moment since: power may fail wherever it likes, and
      whatever does not lie in those blocks is as it was. */
  ghost predicate OnlyDrawn(was: seq<seq<byte>>, now: seq<seq<byte>>, before: seq<nat>, drawn: seq<nat>,
                            earlier: seq<seq<seq<byte>>>, moments: seq<seq<seq<byte>>>)
  {
    && before <= drawn && earlier <= moments && Keeps(was, now, drawn, |before|, -1)
    && forall k :: |earlier| <= k < |moments| ==> Keeps(was, moments[k], drawn, |before|, -1)
  }

  lemma OnlyDrawnNothing(disk: seq<seq<byte>>, drawn: seq<nat>, drawn': seq<nat>, moments: seq<seq<seq<byte>>>)
    requires drawn <= drawn'
    ensures OnlyDrawn(disk, disk, drawn, drawn', moments, moments)
  {
  }

  lemma OnlyDrawnOn(a: seq<seq<byte>>, b: seq<seq<byte>>, c: seq<seq<byte>>, first: seq<nat>, drawn: seq<nat>,
                    drawn': seq<nat>, earlier: seq<seq<seq<byte>>>, moments: seq<seq<seq<byte>>>,
                    moments': seq<seq<seq<byte>>>)
    requires OnlyDrawn(a, b, first, drawn, earlier, moments) && OnlyDrawn(b, c, drawn, drawn', moments, moments')
    ensures OnlyDrawn(a, c, first, drawn', earlier, moments')
  {
    DrawnLater(drawn, drawn', |first|);
    hide Keeps;
    KeepsOn(a, b, c, drawn, drawn', |first|, -1);
    forall k | |earlier| <= k < |moments'|
      ensures Keeps(a, moments'[k], drawn', |first|, -1)
    {
      if k < |moments| {
        assert moments'[k] == moments[k];
        KeepsOn(a, moments[k], moments[k], drawn, drawn', |first|, -1);
      } else {
        KeepsOn(a, b, moments'[k], drawn, drawn', |first|, -1);
      }
    }
  }

  lemma OnlyDrawnSize(was: seq<seq<byte>>, now: seq<seq<byte>>, before: seq<nat>, drawn: seq<nat>,
                      earlier: seq<seq<seq<byte>>>, moments: seq<seq<seq<byte>>>)
    requires OnlyDrawn(was, now, before, drawn, earlier, moments)
    ensures |now| == |was| && before <= drawn && earlier <= moments
  {
  }

  lemma DrawnLater(drawn: seq<nat>, drawn': seq<nat>, n: nat)
    requires drawn <= drawn' && n <= |drawn|
    ensures drawn'[n..] == drawn[n..] + drawn'[|drawn|..]
  {
  }

  lemma KeepsOn(a: seq<seq<byte>>, b: seq<seq<byte>>, c: seq<seq<byte>>, drawn: seq<nat>, drawn': seq<nat>, n: nat,
                own: int)
    requires drawn <= drawn' && n <= |drawn| && Keeps(a, b, drawn, n, -1)
    requires c == b || Keeps(b, c, drawn', |drawn|, own)
    ensures Keeps(a, c, drawn', n, own)
  {
    DrawnLater(drawn, drawn', n);
  }

  // A block written as a whole: its revision, and records under a checksum.
  ghost predicate WrittenWhole(block: seq<byte>, prog: nat, rev: uint32)
    requires prog > 0
  {
    && |block| >= 4 && Revision(block) == rev
    && var f := FetchBlock(block, prog).last;
       f.Some? && ReadableLog(f.value.log) && exists recs :: Appends([], recs, f.value.log)
  }

  // The entries of a piece as records in a block, then the tail and the difference.
  method WriteBlock(stale: seq<byte>, prog: nat, rev: uint32, source: seq<Record>, p: Piece, t: Link, split: bool)
    returns (ok: Result<()>, w: seq<byte>)
    requires prog > 0 && |stale| % prog == 0 && |stale| >= 4 && ProperLog(source)
    requires p.begin <= p.end <= NO_ID && TailOk(t, split)
    ensures |w| == |stale| && (ok.Err? ==> ok.error == NoSpace)
    ensures ok.Ok? ==> IsPiece(source, w, prog, p, t, split) && WrittenWhole(w, prog, rev)
    ensures ok.Ok? <==>
              SizeOf(source, p.begin, p.end) + (if IsNull(t) then 0 else 12) + (if p.g == ZERO then 0 else 16) + 12
              <= |stale|
  {
    hide Summary, Total, Compacted, TailRecords, StateRecords, IsNull, IsPiece, AllCommittable, FetchBlock, ReadableLog,
         Appends, AboutEntries, ProperLog, Replay, Nth, TailOk, StoredIn;
    var entries := Traverse(source, p.begin, p.end);
    var recs := entries + TailRecords(t, split) + StateRecords(p.g);
    WrittenMeans(source, p.begin, p.end, t, split, p.g);
    WrittenTotal(source, p.begin, p.end, t, split, p.g);
    var done;
    done, w := CompactBlock(stale, prog, rev, recs);
    if done.Err? {
      return Err(NoSpace), w;
    }
    WrittenIsPiece(source, w, prog, p, t, split, FetchBlock(w, prog).last.value);
    return Ok(()), w;
  }

  class Compactor {
    const bs: nat
    const prog: nat
    const source: seq<Record> // the directory's log, and the pending attributes
    const visits: seq<nat>    // the blocks in use, which new pairs are not before the end
    const alloc: Allocator
    var disk: seq<seq<byte>>
    var gstate: GState
    var gdisk: GState
    var gdelta: GState
    var root: Site
    ghost const sure: set<nat> // blocks that are neither in use nor marked from earlier
    ghost var drawn: seq<nat>  // drawn by this compaction so far
    ghost var moments: seq<seq<seq<byte>>> // the device after each block written

    constructor (bs: nat, prog: nat, source: seq<Record>, visits: seq<nat>, alloc: Allocator, disk: seq<seq<byte>>,
                 gstate: GState, gdisk: GState, root: Site, ghost sure: set<nat>)
      requires prog > 0 && bs % prog == 0 && bs >= 40 && ProperLog(source) && Device(disk, bs) && |disk| == alloc.bc
      requires alloc.Valid() && alloc.Drawing(visits, [], sure)
      ensures Valid() && drawn == [] && this.bs == bs && this.prog == prog && this.source == source && this.disk == disk
      ensures this.visits == visits && this.alloc == alloc && this.sure == sure && this.root == root
    {
      this.bs, this.prog, this.source, this.visits, this.alloc, this.disk := bs, prog, source, visits, alloc, disk;
      this.gstate, this.gdisk, gdelta, this.root, this.sure, drawn, moments := gstate, gdisk, ZERO, root, sure, [], [];
    }

    ghost predicate Setting() {
      prog > 0 && bs % prog == 0 && bs >= 40 && ProperLog(source)
    }

    ghost predicate Valid()
      reads this`disk, this`drawn, alloc, alloc.buffer
    {
      && Setting() && Device(disk, bs) && |disk| == alloc.bc
      && alloc.Valid() && alloc.Drawing(visits, drawn, sure)
    }

    function Owed(): GState
      reads this
    {
      Clear(GXor(GXor(gstate, gdisk), gdelta))
    }

    // A pair in use, or drawn, to whose second block the given revision is next.
    ghost predicate Ours(at: Site)
      reads this
    {
      && at.0 != at.1 && at.0 < |disk| && at.1 < |disk|
      && (at.0 in visits || at.0 in drawn) && (at.1 in visits || at.1 in drawn)
    }

    ghost predicate Next(at: Site, rev: uint32)
      reads this
    {
      at.0 < |disk| && |disk[at.0]| >= 4 && Scmp((rev + 1) % 0x1_0000_0000, Revision(disk[at.0])) > 0
    }

    // Write the entries [begin, end) to the second block of a pair (lfs.cpp:1589-1690).
    method Write(at: Site, rev: uint32, own: GState, begin: nat, end: nat, t: Link, split: bool)
      returns (ok: Result<()>, ghost p: Piece)
      requires Valid() && at.1 < |disk| && begin <= end <= NO_ID && TailOk(t, split)
      modifies this`disk, this`gdisk, this`gdelta, this`moments
      ensures Valid() && p == Piece((at.1, at.0), begin, end, GXor(old(Owed()), own))
      ensures ok.Ok? ==>
                && disk == old(disk)[at.1 := disk[at.1]] && IsPiece(source, disk[at.1], prog, p, t, split)
                && WrittenWhole(disk[at.1], prog, rev) && moments == old(moments) + [disk]
      ensures ok.Ok? ==> gdisk == gstate && gdelta == ZERO
      ensures ok.Err? ==>
                && ok.error == NoSpace && disk == old(disk) && moments == old(moments)
                && gdisk == old(gdisk) && gdelta == old(gdelta)
      ensures ok.Ok? <==>
                SizeOf(source, begin, end) + (if IsNull(t) then 0 else 12) + (if p.g == ZERO then 0 else 16) + 12 <= bs
    {
      hide GXor, Clear, IsNull, IsPiece, WrittenWhole, SizeOf, ProperLog;
      // what is owed, and what the pair stored
      var g := GXor(Owed(), own);
      var piece := Piece((at.1, at.0), begin, end, g);
      p := piece;
      var done, w := WriteBlock(disk[at.1], prog, rev, source, piece, t, split);
      if done.Err? {
        return Err(NoSpace), p;
      }
      disk := disk[at.1 := w];
      moments := moments + [disk];
      gdelta, gdisk := ZERO, gstate;
      return Ok(()), p;
    }

    // Reaching a chain of split-off pieces, in pairs drawn from m on, through a tail.
    ghost predicate Leads(rest: seq<Piece>, t: Link, split: bool, e: nat, end: nat, t0: Link, split0: bool, m: nat)
      requires prog > 0 && ProperLog(source)
      reads this
    {
      && t == NextTail(rest, 0, t0) && split == NextSplit(rest, 0, split0) && TailOk(t, split)
      && m <= |drawn| && From(rest, drawn[m..])
      && (NoRepeats(drawn) ==> Covers(source, disk, prog, rest, e, end, t0, split0))
    }

    // Entries that a block has room for under the guard, or that cannot be split any more.
    predicate Roomy(begin: nat, end: nat)
      requires ProperLog(source)
    {
      end - begin <= 1 || SizeOf(source, begin, end) + 36 <= bs
    }

    // Entries each of which fits in a block, with whatever goes along, on a device with two blocks to spare.
    ghost predicate Smooth(begin: nat, end: nat)
      requires prog > 0 && ProperLog(source)
    {
      && |sure| >= 2 && AlignUp(bs / 2, prog) + 40 <= bs
      && forall j :: begin <= j < end ==> FitsAlone(j)
    }

    predicate FitsAlone(j: nat)
      requires ProperLog(source)
    {
      SizeOf(source, j, j + 1) + 40 <= bs
    }

    // What is stored in the pieces, and what is still owed.
    ghost function Sum(rest: seq<Piece>): GState
      reads this
    {
      GXor(XorAll(States(rest)), Owed())
    }

    lemma PaidUp()
      requires gdisk == gstate && gdelta == ZERO
      ensures Owed() == ZERO
    {
      hide GXor;
      GXorLaws(gstate, ZERO, ZERO);
      GXorLaws(ZERO, ZERO, ZERO);
    }

    // lfs_dir_alloc: a pair, and the revision its first block is taken to have.
    method Draw() returns (r: Result<(Site, uint32)>)
      requires Setting() && Valid()
      modifies this`drawn, alloc, alloc.buffer
      ensures Valid()
      ensures r.Ok? ==>
                var at := r.value.0;
                drawn == old(drawn) + [at.1, at.0] && Ours(at) && Next(at, r.value.1)
      ensures r.Err? ==> r.error == NoSpace && drawn == old(drawn) && |sure| < 2
    {
      hide Revision, Scmp;
      var pair := alloc.AllocPair(visits, drawn, sure);
      if pair.Err? {
        return Err(NoSpace);
      }
      drawn := drawn + [pair.value.1, pair.value.0];
      assert pair.value.0 in drawn && pair.value.1 in drawn;
      // whatever the first block holds, the revision is made even and counts as the newer
      var rev: int := Revision(disk[pair.value.0]);
      RevisionIsNext(rev);
      return Ok((pair.value, (rev + rev % 2) % 0x1_0000_0000));
    }

    lemma RevisionIsNext(rev: int)
      requires 0 <= rev < 0x1_0000_0000
      ensures Scmp(((rev + rev % 2) % 0x1_0000_0000 + 1) % 0x1_0000_0000, rev) > 0
    {
    }

    // What a step of a compaction leaves of the global state, if it fails.
    ghost predicate Unpaid(wasDisk: GState, wasDelta: GState)
      reads this
    {
      (gdisk == wasDisk && gdelta == wasDelta) || (gdisk == gstate && gdelta == ZERO)
    }

    /** lfs_dir_split: the entries [from, end) of the pair move to a new pair, or as many as they need. */
    method Split(dir: Site, from: nat, end: nat, t: Link, split: bool)
      returns (ok: Result<Link>, ghost chain: seq<Piece>)
      requires Setting() && Valid() && from <= end <= NO_ID && TailOk(t, split)
      modifies this`disk, this`drawn, this`moments, this`gdisk, this`gdelta, this`root, alloc, alloc.buffer
      ensures Valid()
      ensures OnlyDrawn(old(disk), disk, old(drawn), drawn, old(moments), moments)
      ensures |drawn| <= |old(drawn)| + 2 * (1 + Pairs(source, bs, prog, from, end))
      ensures ok.Ok? ==>
                && chain != [] && From(chain, drawn[|old(drawn)|..]) && gdisk == gstate && gdelta == ZERO
                && (NoRepeats(drawn) ==> Covers(source, disk, prog, chain, from, end, t, split))
                && ok.value == LinkTo(chain[0].at) && XorAll(States(chain)) == old(Owed())
      ensures root == if ok.Ok? && from == 0 && Same(dir, old(root)) then chain[0].at else old(root)
      ensures ok.Err? ==> ok.error == NoSpace && Unpaid(old(gdisk), old(gdelta))
      ensures ok.Err? && Roomy(from, end) ==> gdisk == old(gdisk) && gdelta == old(gdelta)
      ensures Smooth(from, end) ==>
                && ok.Ok? && |drawn| == |old(drawn)| + 2 * (1 + Pairs(source, bs, prog, from, end))
                && |chain| == 1 + Pairs(source, bs, prog, from, end)
      decreases end - from, 0, 3
    {
      hide Valid, ProperLog, Next, OnlyDrawn, WrittenWhole, Roomy, LinkTo, States, FitsAlone;
      hide Covers, XorAll, GXor, Clear, Compacted, Total, Same, Pairs, NoRepeats, Keeps, From, Newest, Revision, Scmp;
      chain := [];
      var pair := Draw();
      OnlyDrawnNothing(disk, old(drawn), drawn, moments);
      if pair.Err? {
        return Err(NoSpace), chain;
      }
      var (at, rev) := pair.value;
      ghost var mine := drawn;
      GXorLaws(Owed(), ZERO, ZERO);
      var done;
      ghost var prev;
      done, chain, prev := Compact(at, rev, ZERO, from, end, t, split, false);
      SplitFrame(old(disk), disk, prev, old(drawn), mine, drawn, at, old(moments), moments, done.Ok?);
      if done.Err? {
        return Err(NoSpace), chain;
      }
      FromFirst(chain[0], chain[1..], drawn[|mine|..]);
      assert chain == [chain[0]] + chain[1..];
      assert drawn[|old(drawn)|..] == [at.1, at.0] + drawn[|mine|..];
      // a root whose first entry moves away moves with it
      if Same(dir, root) && from == 0 {
        root := (at.1, at.0);
      }
      ok := Ok(LinkTo((at.1, at.0)));
    }

    // The entries [mid, e) move away, in front of what was split off before.
    method SplitOff(dir: Site, mid: nat, e: nat, tail: Link, splits: bool, ghost rest: seq<Piece>, ghost end: nat,
                    ghost t: Link, ghost split: bool, ghost m: nat)
      returns (part: Result<Link>, ghost rest': seq<Piece>)
      requires Setting() && Valid() && mid <= e <= end <= NO_ID && Leads(rest, tail, splits, e, end, t, split, m)
      modifies this`disk, this`drawn, this`moments, this`gdisk, this`gdelta, this`root, alloc, alloc.buffer
      ensures Valid()
      ensures OnlyDrawn(old(disk), disk, old(drawn), drawn, old(moments), moments)
      ensures |drawn| <= |old(drawn)| + 2 * (1 + Pairs(source, bs, prog, mid, e))
      ensures part.Ok? ==>
                && rest' != [] && Leads(rest', part.value, true, mid, end, t, split, m)
                && gdisk == gstate && gdelta == ZERO && Sum(rest') == old(Sum(rest))
      ensures root == if part.Ok? && mid == 0 && Same(dir, old(root)) then rest'[0].at else old(root)
      ensures part.Err? ==>
                && part.error == NoSpace && Leads(rest, tail, splits, e, end, t, split, m)
                && Unpaid(old(gdisk), old(gdelta))
      ensures part.Err? && Roomy(mid, e) ==> gdisk == old(gdisk) && gdelta == old(gdelta)
      ensures Smooth(mid, e) ==>
                && part.Ok? && |drawn| == |old(drawn)| + 2 * (1 + Pairs(source, bs, prog, mid, e))
                && |rest'| == |rest| + 1 + Pairs(source, bs, prog, mid, e)
      decreases e - mid, 0, 4
    {
      hide Valid, ProperLog;
      hide Covers, XorAll, GXor, Clear, Compacted, Total, States, Fate, IsPiece, Same, Pairs, NoRepeats, Keeps, From;
      ghost var was, before, owed := disk, drawn, Owed();
      ghost var more;
      part, more := Split(dir, mid, e, tail, splits);
      LeadsKept(was, before, rest, tail, splits, e, end, t, split, m);
      assert drawn[m..|before|] == before[m..];
      rest' := rest;
      if part.Ok? {
        rest' := more + rest;
        LeadsJoin(more, rest, tail, splits, mid, e, end, t, split, m, |before|);
        JoinStates(more, rest);
        PaidUp();
        GXorLaws(owed, XorAll(States(rest)), ZERO);
        GXorLaws(XorAll(States(rest')), ZERO, ZERO);
      }
    }

    // A chain stays what it is while only other blocks are drawn and written.
    lemma LeadsKept(was: seq<seq<byte>>, before: seq<nat>, rest: seq<Piece>, tail: Link, splits: bool,
                    e: nat, end: nat, t: Link, split: bool, m: nat)
      requires prog > 0 && ProperLog(source) && before <= drawn && m <= |before| && TailOk(tail, splits)
      requires tail == NextTail(rest, 0, t) && splits == NextSplit(rest, 0, split) && From(rest, before[m..])
      requires NoRepeats(before) ==> Covers(source, was, prog, rest, e, end, t, split)
      requires Keeps(was, disk, drawn, |before|, -1)
      ensures Leads(rest, tail, splits, e, end, t, split, m)
    {
      hide PieceAt, TailOk;
      DrawnLater(before, drawn, m);
      if NoRepeats(drawn) {
        NoRepeatsPrefix(drawn, |before|);
        hide NoRepeats, From, Covers;
        BlocksKept(was, before, rest, e, end, t, split, m);
      }
    }

    lemma BlocksKept(was: seq<seq<byte>>, before: seq<nat>, rest: seq<Piece>, e: nat, end: nat, t: Link, split: bool,
                     m: nat)
      requires prog > 0 && ProperLog(source) && before <= drawn && m <= |before| && From(rest, before[m..])
      requires NoRepeats(drawn) && Covers(source, was, prog, rest, e, end, t, split)
      requires Keeps(was, disk, drawn, |before|, -1)
      ensures Covers(source, disk, prog, rest, e, end, t, split)
    {
      hide IsPiece, From;
      forall i | 0 <= i < |rest|
        ensures rest[i].at.0 < |was| && rest[i].at.1 < |was|
        ensures disk[rest[i].at.0] == was[rest[i].at.0] && disk[rest[i].at.1] == was[rest[i].at.1]
      {
        CoversAt(source, was, prog, rest, e, end, t, split, i);
        FromIn(rest, before[m..], i);
        NotLater(before, drawn, rest[i].at.0);
        NotLater(before, drawn, rest[i].at.1);
      }
      hide Covers;
      CoversKept(source, was, disk, prog, rest, e, end, t, split);
    }

    lemma LeadsJoin(more: seq<Piece>, rest: seq<Piece>, tail: Link, splits: bool, mid: nat, e: nat, end: nat,
                    t: Link, split: bool, m: nat, n: nat)
      requires prog > 0 && ProperLog(source) && more != [] && Leads(rest, tail, splits, e, end, t, split, m)
      requires m <= n <= |drawn| && From(more, drawn[n..]) && From(rest, drawn[m..n])
      requires NoRepeats(drawn) ==> Covers(source, disk, prog, more, mid, e, tail, splits)
      ensures Leads(more + rest, LinkTo(more[0].at), true, mid, end, t, split, m)
    {
      hide Covers, From, NoRepeats, IsNull;
      FromJoin(more, rest, drawn[n..], drawn[m..n], drawn[m..]);
      LinkRoundTrip(more[0].at);
      if NoRepeats(drawn) {
        Join(source, disk, prog, more, rest, mid, e, end, t, split);
      }
    }

    /** lfs_dir_compact: the entries [begin, end) of the source, over as many pairs as needed, the first of them the
        pair given. The state differences of all pairs add up to what was owed and what the pair itself stored. A
        superblock that is worn may hand all its entries on, and with them the root. The pairs hold the entries if the
        allocator has drawn no block twice. Until the last write, which is to the pair itself, nothing but drawn
        blocks is written. */
    method Compact(dir: Site, rev: uint32, own: GState, begin: nat, end: nat, t: Link, split: bool, worn: bool)
      returns (ok: Result<()>, ghost chain: seq<Piece>, ghost prev: seq<seq<byte>>)
      requires Setting() && Valid() && begin <= end <= NO_ID && TailOk(t, split) && Ours(dir) && Next(dir, rev)
      modifies this`disk, this`drawn, this`moments, this`gdisk, this`gdelta, this`root, alloc, alloc.buffer
      ensures Valid()
      ensures ok.Ok? ==>
                && |moments| > |old(moments)|
                && OnlyDrawn(old(disk), prev, old(drawn), drawn, old(moments), moments[..|moments| - 1])
                && moments[|moments| - 1] == disk && |prev| == |disk| && disk == prev[dir.1 := disk[dir.1]]
                && WrittenWhole(disk[dir.1], prog, (rev + 1) % 0x1_0000_0000)
      ensures ok.Err? ==> OnlyDrawn(old(disk), disk, old(drawn), drawn, old(moments), moments)
      ensures var n := Pairs(source, bs, prog, begin, end);
              |drawn| <= |old(drawn)| + 2 * if worn then 1 + 2 * n else n
      ensures ok.Ok? ==>
                && chain != [] && chain[0].at == (dir.1, dir.0) && From(chain[1..], drawn[|old(drawn)|..])
                && gdisk == gstate && gdelta == ZERO && XorAll(States(chain)) == GXor(old(Owed()), own)
                && (NoRepeats(drawn) ==>
                      && Covers(source, disk, prog, chain, begin, end, t, split)
                      && Covers(source, prev, prog, chain[1..], chain[0].end, end, t, split))
      ensures ok.Ok? && begin == 0 && worn && Same(dir, old(root)) && |chain| > 1 && chain[0].end == 0 ==>
                root == chain[1].at
      ensures root == old(root)
              || (begin == 0 && worn && Same(dir, old(root)) && (ok.Ok? ==> |chain| > 1 && chain[0].end == 0))
      // what was owed still is, or it has gone into pieces that nothing leads to
      ensures ok.Err? ==> ok.error == NoSpace && Unpaid(old(gdisk), old(gdelta))
      ensures ok.Err? && own == ZERO && Roomy(begin, end) ==> gdisk == old(gdisk) && gdelta == old(gdelta)
      ensures Smooth(begin, end) ==>
                && ok.Ok? && |chain| == 1 + Pairs(source, bs, prog, begin, end) + (if worn then 1 else 0)
                && |drawn| == |old(drawn)| + 2 * (Pairs(source, bs, prog, begin, end) + if worn then 1 else 0)
      decreases end - begin, if worn then 1 else 0, 2
    {
      hide Valid, ProperLog, Covers, XorAll, GXor, Clear, States, Same, Leads, SizeOf, IsNull, Pairs, NoRepeats, Keeps,
           From, OnlyDrawn, WrittenWhole, Next, Smooth, TailOk, Owed, Sum, Scmp, Revision;
      NextMeans(dir, rev);
      var done, e, tail, splits;
      ghost var rest;
      done, e, tail, splits, rest := SplitAll(dir, begin, end, t, split, worn);
      prev := disk;
      OnlyDrawnSize(old(disk), disk, old(drawn), drawn, old(moments), moments);
      if done.Err? {
        return done, [], prev;
      }
      StillNext(old(disk), old(drawn), dir, rev, old(moments));
      LeadsMeans(rest, tail, splits, e, end, t, split, |old(drawn)|);
      ok, chain := WriteFirst(dir, rev, own, begin, e, tail, splits, rest, end, t, split, |old(drawn)|);
      assert ok.Ok? ==> chain[1..] == rest;
    }

    /** The compaction of a directory in use, from a window of the allocator that is as a traversal would mark it:
        the pairs share no block exactly if the device has two unvisited blocks for each that is drawn, and then
        they hold the entries. Yet it succeeds with no more than two, whatever it splits; with two splits the
        chain is then broken. */
    method CompactDirectory(dir: Site, rev: uint32, own: GState, begin: nat, end: nat, t: Link, split: bool, worn: bool)
      returns (ok: Result<()>, ghost chain: seq<Piece>, ghost prev: seq<seq<byte>>)
      requires Setting() && Valid() && begin <= end <= NO_ID && TailOk(t, split) && Ours(dir) && Next(dir, rev)
      requires drawn == [] && sure == alloc.Unvisited(visits) && dir.0 in visits && dir.1 in visits
      requires !IsNull(t) ==> PairOf(t).0 in visits
      modifies this`disk, this`drawn, this`moments, this`gdisk, this`gdelta, this`root, alloc, alloc.buffer
      ensures Valid() && (NoRepeats(drawn) <==> |drawn| <= |sure|)
      ensures var n := Pairs(source, bs, prog, begin, end);
              |drawn| <= 2 * if worn then 1 + 2 * n else n
      ensures ok.Ok? && NoRepeats(drawn) ==>
                Covers(source, disk, prog, chain, begin, end, t, split) && NoRepeats(BlocksOf(chain))
      ensures ok.Ok? && |sure| == 2 && |chain| > 2 ==> !Covers(source, disk, prog, chain, begin, end, t, split)
      ensures Smooth(begin, end) ==>
                && ok.Ok? && |chain| == 1 + Pairs(source, bs, prog, begin, end) + (if worn then 1 else 0)
                && |drawn| == 2 * (|chain| - 1)
      ensures ok.Ok? ==> XorAll(States(chain)) == GXor(old(Owed()), own)
    {
      hide ProperLog, XorAll, GXor, Covers, Pairs, NoRepeats, Keeps, From, OnlyDrawn, WrittenWhole, Next, Smooth,
           States, Same, IsNull, Clear, Scmp, Revision, PairOf;
      ok, chain, prev := Compact(dir, rev, own, begin, end, t, split, worn);
      alloc.DrawnExactly(visits, drawn);
      if ok.Ok? {
        assert chain == [chain[0]] + chain[1..] && drawn[0..] == drawn;
        Separate(chain, dir);
        if |sure| == 2 && |chain| > 2 {
          Astray(chain, t);
          TwoBlocksDoNotCover(source, disk, prog, chain, begin, end, t, split, sure);
        }
      }
    }

    lemma Separate(chain: seq<Piece>, dir: Site)
      requires Setting() && Valid() && chain != [] && chain[0].at == (dir.1, dir.0) && From(chain[1..], drawn)
      requires dir.0 in visits && dir.1 in visits && dir.0 != dir.1
      ensures NoRepeats(drawn) ==> NoRepeats(BlocksOf(chain))
    {
      hide NoRepeats, From;
      if NoRepeats(drawn) {
        FromNoRepeats(chain[1..], drawn);
        var rest := BlocksOf(chain[1..]);
        FromMembers(chain[1..], drawn);
        assert BlocksOf(chain) == [dir.1, dir.0] + rest;
        TwoInFront(dir.1, dir.0, rest);
      }
    }

    lemma Astray(chain: seq<Piece>, t: Link)
      requires Setting() && Valid() && chain != [] && From(chain[1..], drawn) && sure == alloc.Unvisited(visits)
      requires !IsNull(t) ==> PairOf(t).0 in visits
      ensures forall k :: 0 < k < |chain| ==>
                chain[k].at.0 in sure && chain[k].at.1 in sure && LinkTo(chain[k].at) != t
    {
      hide From, LinkTo, PairOf, IsNull;
      forall k | 0 < k < |chain|
        ensures chain[k].at.0 in sure && chain[k].at.1 in sure && LinkTo(chain[k].at) != t
      {
        FromIn(chain[1..], drawn, k - 1);
        LinkRoundTrip(chain[k].at);
      }
    }

    lemma LeadsMeans(rest: seq<Piece>, t: Link, split: bool, e: nat, end: nat, t0: Link, split0: bool, m: nat)
      requires Setting() && Leads(rest, t, split, e, end, t0, split0, m)
      ensures m <= |drawn| && From(rest, drawn[m..]) && TailOk(t, split)
      ensures NoRepeats(drawn) ==> Covers(source, disk, prog, rest, e, end, t0, split0)
    {
    }

    lemma NextMeans(at: Site, rev: uint32)
      requires Next(at, rev)
      ensures at.0 < |disk| && |disk[at.0]| >= 4 && Scmp((rev + 1) % 0x1_0000_0000, Revision(disk[at.0])) > 0
    {
    }

    // The first block of our pair is not drawn, so its revision stays what it is.
    lemma StillNext(was: seq<seq<byte>>, before: seq<nat>, dir: Site, rev: uint32, earlier: seq<seq<seq<byte>>>)
      requires Setting() && Valid() && OnlyDrawn(was, disk, before, drawn, earlier, moments)
      requires dir.0 < |was| && (dir.0 in visits || dir.0 in before) && |was[dir.0]| >= 4
      requires Scmp((rev + 1) % 0x1_0000_0000, Revision(was[dir.0])) > 0
      ensures NoRepeats(drawn) ==> Next(dir, rev)
    {
      hide Scmp, Revision;
      if NoRepeats(drawn) {
        if dir.0 in before {
          NotLater(before, drawn, dir.0);
        }
        assert dir.0 !in drawn[|before|..];
      }
    }

    // Everything of a compaction but its last write.
    method SplitAll(dir: Site, begin: nat, end: nat, t: Link, split: bool, worn: bool)
      returns (ok: Result<()>, e: nat, tail: Link, splits: bool, ghost rest: seq<Piece>)
      requires Setting() && Valid() && begin <= end <= NO_ID && TailOk(t, split)
      modifies this`disk, this`drawn, this`moments, this`gdisk, this`gdelta, this`root, alloc, alloc.buffer
      ensures Valid() && begin <= e <= end
      ensures OnlyDrawn(old(disk), disk, old(drawn), drawn, old(moments), moments)
      ensures var n := Pairs(source, bs, prog, begin, end);
              |drawn| <= |old(drawn)| + 2 * if worn then 1 + 2 * n else n
      ensures ok.Ok? ==>
                && Leads(rest, tail, splits, e, end, t, split, |old(drawn)|) && Sum(rest) == old(Owed())
                && (if rest == [] then gdisk == old(gdisk) && gdelta == old(gdelta)
                   else gdisk == gstate && gdelta == ZERO)
                && (Roomy(begin, end) && rest != [] ==> SizeOf(source, begin, e) + 36 <= bs)
                && root == if e == 0 && rest != [] && worn && Same(dir, old(root)) then rest[0].at else old(root)
      ensures ok.Err? ==>
                && ok.error == NoSpace && !Roomy(begin, end) && root == old(root) && Unpaid(old(gdisk), old(gdelta))
      ensures Smooth(begin, end) ==>
                && ok.Ok? && |rest| == Pairs(source, bs, prog, begin, end) + (if worn then 1 else 0)
                && |drawn| == |old(drawn)| + 2 * |rest| && SizeOf(source, begin, e) + 40 <= bs
      decreases end - begin, if worn then 1 else 0, 1
    {
      hide Valid, ProperLog;
      hide Covers, XorAll, GXor, Clear, Compacted, Total, States, Fate, IsPiece, Same, Leads, SizeOf, IsNull, Pairs,
           NoRepeats, Keeps, From, OnlyDrawn, Smooth;
      ok, e, tail, splits, rest := SplitLoop(dir, begin, end, t, split);
      SizeOfMonotone(source, begin, end, begin, e);
      if ok.Ok? && worn {
        SmoothPart(begin, end, e);
        ghost var b, before, m := disk, drawn, moments;
        var moved, tail';
        ghost var rest';
        moved, tail', rest' := HandOn(dir, begin, e, tail, splits, rest, end, t, split, |old(drawn)|);
        OnlyDrawnOn(old(disk), b, disk, old(drawn), before, drawn, old(moments), m, moments);
        if moved {
          e, tail, splits, rest := begin, tail', true, rest';
        }
      }
    }

    lemma SmoothPart(begin: nat, end: nat, e: nat)
      requires Setting() && begin <= e <= end
      ensures Smooth(begin, end) ==> Smooth(begin, e)
    {
      hide FitsAlone, ProperLog;
    }

    // All entries that are left move away too, if there is room for that.
    method HandOn(dir: Site, begin: nat, e: nat, tail: Link, splits: bool, ghost rest: seq<Piece>,
                  ghost end: nat, ghost t: Link, ghost split: bool, ghost m: nat)
      returns (moved: bool, tail': Link, ghost rest': seq<Piece>)
      requires Setting() && Valid() && begin <= e <= end <= NO_ID && Roomy(begin, e)
      requires Pairs(source, bs, prog, begin, e) == 0 || !Smooth(begin, e)
      requires Leads(rest, tail, splits, e, end, t, split, m)
      modifies this`disk, this`drawn, this`moments, this`gdisk, this`gdelta, this`root, alloc, alloc.buffer
      ensures Valid()
      ensures OnlyDrawn(old(disk), disk, old(drawn), drawn, old(moments), moments)
      ensures |drawn| <= |old(drawn)| + 2 * (1 + Pairs(source, bs, prog, begin, e))
      ensures if moved then
                && rest' != [] && Leads(rest', tail', true, begin, end, t, split, m)
                && Sum(rest') == old(Sum(rest)) && gdisk == gstate && gdelta == ZERO
                && SizeOf(source, begin, begin) == 0
                && root == if begin == 0 && Same(dir, old(root)) then rest'[0].at else old(root)
              else
                && Leads(rest, tail, splits, e, end, t, split, m) && root == old(root)
                && gdisk == old(gdisk) && gdelta == old(gdelta)
      ensures Smooth(begin, e) ==> moved && |drawn| == |old(drawn)| + 2 && |rest'| == |rest| + 1
      decreases e - begin, 1, 0
    {
      hide Valid, ProperLog;
      hide Covers, XorAll, GXor, Clear, Compacted, Total, States, Fate, IsPiece, Same, Pairs, NoRepeats, Keeps, From,
           OnlyDrawn, Leads;
      var part;
      part, rest' := SplitOff(dir, begin, e, tail, splits, rest, end, t, split, m);
      moved := part.Ok?;
      tail' := if moved then part.value else tail;
      SizeOfNothing(source, begin);
    }

    // The loop that splits: upper halves of the entries move away until the rest is small enough.
    method SplitLoop(dir: Site, begin: nat, end: nat, t: Link, split: bool)
      returns (ok: Result<()>, e: nat, tail: Link, splits: bool, ghost rest: seq<Piece>)
      requires Setting() && Valid() && begin <= end <= NO_ID && TailOk(t, split)
      modifies this`disk, this`drawn, this`moments, this`gdisk, this`gdelta, this`root, alloc, alloc.buffer
      ensures Valid() && root == old(root) && begin <= e <= end
      ensures OnlyDrawn(old(disk), disk, old(drawn), drawn, old(moments), moments)
      ensures (begin < end ==> begin < e) && (end - begin <= 1 ==> rest == [] && e == end)
      ensures Leads(rest, tail, splits, e, end, t, split, |old(drawn)|)
      ensures |drawn| <= |old(drawn)| + 2 * Pairs(source, bs, prog, begin, end)
      ensures Pairs(source, bs, prog, begin, e) <= Pairs(source, bs, prog, begin, end)
      ensures ok.Ok? ==>
                && Sum(rest) == old(Owed()) && Roomy(begin, e)
                && (Smooth(begin, e) ==> Pairs(source, bs, prog, begin, e) == 0)
                && if rest == [] then gdisk == old(gdisk) && gdelta == old(gdelta)
                   else gdisk == gstate && gdelta == ZERO
      ensures ok.Err? ==> ok.error == NoSpace && !Roomy(begin, end)
      ensures Unpaid(old(gdisk), old(gdelta))
      ensures Smooth(begin, end) ==>
                && ok.Ok? && |rest| == Pairs(source, bs, prog, begin, end) && |drawn| == |old(drawn)| + 2 * |rest|
                && Pairs(source, bs, prog, begin, e) == 0 && SizeOf(source, begin, e) + 40 <= bs
      decreases end - begin, 0, 0
    {
      hide Valid, ProperLog;
      hide Covers, XorAll, GXor, Clear, Compacted, Total, States, Fate, IsPiece, Same, Leads, NoRepeats, Keeps, From,
           OnlyDrawn, Pairs, Smooth, SizeOf;
      ok, e, tail, splits, rest := Ok(()), end, t, split, [];
      NothingLeads(end, t, split);
      OnlyDrawnNothing(disk, drawn, drawn, moments);
      GXorLaws(Owed(), ZERO, ZERO);
      while e - begin > 1
        invariant begin <= e <= end && (begin < end ==> begin < e) && (end - begin <= 1 ==> rest == [] && e == end)
        invariant Valid() && root == old(root)
        invariant OnlyDrawn(old(disk), disk, old(drawn), drawn, old(moments), moments)
        invariant Leads(rest, tail, splits, e, end, t, split, |old(drawn)|) && Sum(rest) == old(Owed())
        invariant if rest == [] then gdisk == old(gdisk) && gdelta == old(gdelta) else gdisk == gstate && gdelta == ZERO
        invariant |drawn| + 2 * Pairs(source, bs, prog, begin, e)
                  <= |old(drawn)| + 2 * Pairs(source, bs, prog, begin, end)
        invariant Pairs(source, bs, prog, begin, e) <= Pairs(source, bs, prog, begin, end)
        invariant Smooth(begin, end) ==>
                    && |drawn| == |old(drawn)| + 2 * |rest|
                    && |rest| + Pairs(source, bs, prog, begin, e) == Pairs(source, bs, prog, begin, end)
      {
        var size := SizeOf(source, begin, e);
        // room for a tail, a state and a checksum, and half the block for what is to come
        if e - begin < 0xff && size <= Min(bs - 36, AlignUp(bs / 2, prog)) {
          LoopEnds(begin, end, e);
          break;
        }
        PairsSplit(begin, end, e);
        PairsSplit(begin, e, e);
        var mid := begin + (e - begin) / 2;
        SizeOfMonotone(source, begin, end, begin, e);
        SizeOfMonotone(source, begin, e, mid, e);
        ghost var b, before, m := disk, drawn, moments;
        var part;
        ghost var more;
        part, more := SplitOff(dir, mid, e, tail, splits, rest, end, t, split, |old(drawn)|);
        OnlyDrawnOn(old(disk), b, disk, old(drawn), before, drawn, old(moments), m, moments);
        if part.Err? {
          // without another pair, the block may be filled beyond its half
          if size + 36 > bs {
            ok := Err(NoSpace);
          }
          return;
        }
        e, tail, splits, rest := mid, part.value, true, more;
      }
      if e - begin <= 1 {
        LoopEnds(begin, end, e);
      }
    }

    // Where the loop ends, what is left fits.
    lemma LoopEnds(begin: nat, end: nat, e: nat)
      requires Setting() && begin <= e <= end <= NO_ID
      requires e - begin <= 1
               || (e - begin < 0xff && SizeOf(source, begin, e) <= Min(bs - 36, AlignUp(bs / 2, prog)))
      ensures Pairs(source, bs, prog, begin, e) == 0 && Roomy(begin, e)
      ensures Smooth(begin, end) ==> SizeOf(source, begin, e) + 40 <= bs
    {
      hide SizeOf, ProperLog, AlignUp;
      SizeOfNothing(source, begin);
      if Smooth(begin, end) && e == begin + 1 {
        assert FitsAlone(begin);
      }
    }

    // Where it goes on, the entries that move away are among those that fit.
    lemma PairsSplit(begin: nat, end: nat, e: nat)
      requires Setting() && begin <= e <= end && e - begin > 1
      requires !(e - begin < 0xff && SizeOf(source, begin, e) <= Min(bs - 36, AlignUp(bs / 2, prog)))
      ensures var mid := begin + (e - begin) / 2;
              Pairs(source, bs, prog, begin, e)
                == 1 + Pairs(source, bs, prog, mid, e) + Pairs(source, bs, prog, begin, mid)
      ensures Smooth(begin, end) ==> Smooth(begin + (e - begin) / 2, e)
    {
      hide SizeOf, ProperLog, AlignUp;
    }

    lemma NothingLeads(end: nat, t: Link, split: bool)
      requires prog > 0 && ProperLog(source) && TailOk(t, split)
      ensures Leads([], t, split, end, end, t, split, |drawn|) && XorAll(States([])) == ZERO
    {
      FromNothing(drawn[|drawn|..]);
    }

    // The last write of a compaction, in front of what was split off.
    method WriteFirst(dir: Site, rev: uint32, own: GState, begin: nat, e: nat, tail: Link, splits: bool,
                      ghost rest: seq<Piece>, ghost end: nat, ghost t: Link, ghost split: bool, ghost m: nat)
      returns (ok: Result<()>, ghost chain: seq<Piece>)
      requires Setting() && Valid() && begin <= e <= end <= NO_ID && Leads(rest, tail, splits, e, end, t, split, m)
      requires rest != [] ==> gdisk == gstate && gdelta == ZERO
      requires dir.0 != dir.1 && dir.0 < |disk| && dir.1 < |disk| && (NoRepeats(drawn) ==> Next(dir, rev))
      requires m <= |drawn| && (dir.1 in visits || dir.1 in drawn[..m])
      modifies this`disk, this`moments, this`gdisk, this`gdelta
      ensures Valid()
      ensures ok.Ok? ==>
                && chain != [] && chain[0].at == (dir.1, dir.0) && chain == [chain[0]] + rest && chain[0].end == e
                && disk == old(disk)[dir.1 := disk[dir.1]] && moments == old(moments) + [disk]
                && WrittenWhole(disk[dir.1], prog, (rev + 1) % 0x1_0000_0000)
                && (NoRepeats(drawn) ==> Covers(source, disk, prog, chain, begin, end, t, split))
                && gdisk == gstate && gdelta == ZERO && XorAll(States(chain)) == GXor(old(Sum(rest)), own)
      ensures ok.Err? ==>
                && ok.error == NoSpace && disk == old(disk) && moments == old(moments)
                && gdisk == old(gdisk) && gdelta == old(gdelta)
      ensures ok.Err? && own == ZERO && SizeOf(source, begin, e) + 36 <= bs ==> rest == []
      ensures SizeOf(source, begin, e) + 40 <= bs ==> ok.Ok?
    {
      hide Covers, XorAll, GXor, Clear, Compacted, Total, States, Fate, IsPiece, From, NoRepeats, Scmp, Revision,
           FetchBlock, ReadableLog, Appends, IsNull;
      ghost var owed, before := Owed(), disk;
      if rest != [] {
        PaidUp();
        GXorLaws(ZERO, ZERO, ZERO);
      }
      ghost var p;
      ok, p := Write(dir, (rev + 1) % 0x1_0000_0000, own, begin, e, tail, splits);
      chain := [p] + rest;
      if ok.Ok? {
        if NoRepeats(drawn) {
          Finished(before, p, dir, begin, e, tail, splits, rest, end, t, split, m);
        }
        PrependStates(p, rest);
        GXorLaws(owed, own, XorAll(States(rest)));
        GXorLaws(GXor(owed, own), XorAll(States(rest)), ZERO);
        GXorLaws(XorAll(States(rest)), owed, own);
      }
    }

    lemma Finished(before: seq<seq<byte>>, p: Piece, dir: Site, begin: nat, e: nat, tail: Link, splits: bool,
                   rest: seq<Piece>, end: nat, t: Link, split: bool, m: nat)
      requires Setting() && Valid() && Device(before, bs) && NoRepeats(drawn) && m <= |drawn| && From(rest, drawn[m..])
      requires dir.0 != dir.1 && dir.0 < |before| == |disk| && dir.1 < |disk|
               && (dir.1 in visits || dir.1 in drawn[..m])
      requires disk == before[dir.1 := disk[dir.1]] && p.at == (dir.1, dir.0) && p.begin == begin && p.end == e
      requires tail == NextTail(rest, 0, t) && splits == NextSplit(rest, 0, split)
      requires Covers(source, before, prog, rest, e, end, t, split)
               && IsPiece(source, disk[dir.1], prog, p, tail, splits)
      requires Scmp(Revision(disk[dir.1]), Revision(before[dir.0])) > 0
      ensures Covers(source, disk, prog, [p] + rest, begin, end, t, split)
    {
      hide IsPiece, From, Scmp, Revision;
      forall i | 0 <= i < |rest|
        ensures rest[i].at.0 < |before| && rest[i].at.1 < |before|
        ensures disk[rest[i].at.0] == before[rest[i].at.0] && disk[rest[i].at.1] == before[rest[i].at.1]
      {
        CoversAt(source, before, prog, rest, e, end, t, split, i);
        FromIn(rest, drawn[m..], i);
        NotEarlier(drawn, m, rest[i].at.0);
        NotEarlier(drawn, m, rest[i].at.1);
      }
      hide Covers;
      CoversKept(source, before, disk, prog, rest, e, end, t, split);
      Prepend(source, disk, prog, p, rest, end, t, split);
    }
  }

  /** Power lost before the last write of a compaction: nothing but drawn blocks differs, so a fetch of the pair finds
      what it found before. */
  lemma TornBeforeLast(was: seq<seq<byte>>, torn: seq<seq<byte>>, bs: nat, prog: nat, pair: (nat, nat),
                       drawn: seq<nat>, n: nat)
    requires prog > 0 && Device(was, bs) && Device(torn, bs) && n <= |drawn| && Keeps(was, torn, drawn, n, -1)
    requires pair.0 !in drawn && pair.1 !in drawn
    ensures FetchPair(torn, bs, pair, prog) == FetchPair(was, bs, pair, prog)
  {
    hide FetchBlock, Revision, Scmp;
  }

  ghost predicate TrustedIfNewer(b: seq<byte>, w: seq<byte>, prog: nat, rev: uint32)
    requires prog > 0 && |b| == |w| && |b| >= 4
  {
    Scmp(rev, Revision(b)) <= 0 ==> Trusted(b, w, prog, Initial(b), None, 0)
  }

  ghost predicate OldOrDone(f: Result<FoundDir>, was: State, done: Option<State>) {
    f.Ok? && done.Some? && (f.value.state == was || SameDirectory(f.value.state, done.value))
  }

  /** Power lost during the last write: a fetch of the pair finds the directory as it was, or one that equals the
      finished piece; and what was split off is in place for it. */
  lemma TornLastWrite(source: seq<Record>, was: seq<seq<byte>>, prev: seq<seq<byte>>, disk: seq<seq<byte>>,
                      torn: seq<seq<byte>>, bs: nat, prog: nat, dir: Site, found: FoundDir, drawn: seq<nat>, n: nat,
                      rest: seq<Piece>, e: nat, end: nat, t: Link, split: bool)
    requires prog > 0 && ProperLog(source) && n <= |drawn|
    requires Device(was, bs) && Device(prev, bs) && Device(disk, bs) && Device(torn, bs)
    requires |was| == |prev| == |disk| == |torn| && dir.0 < |was| && dir.1 < |was| && dir.0 != dir.1
    requires FetchPair(was, bs, dir, prog) == Ok(found) && found.pair == dir
    // what the compaction promises
    requires Keeps(was, prev, drawn, n, -1) && dir.0 !in drawn && dir.1 !in drawn && disk == prev[dir.1 := disk[dir.1]]
    requires WrittenWhole(disk[dir.1], prog, (found.rev + 1) % 0x1_0000_0000)
    requires Covers(source, prev, prog, rest, e, end, t, split)
    requires forall i :: 0 <= i < |rest| ==> rest[i].at.0 != dir.1 && rest[i].at.1 != dir.1
    // the block may have become anything that its checksums do not give away
    requires forall b :: 0 <= b < |was| && b != dir.1 ==> torn[b] == prev[b]
    requires TrustedIfNewer(torn[dir.1], disk[dir.1], prog, found.rev)
    ensures OldOrDone(FetchPair(torn, bs, dir, prog), found.state, FetchBlock(disk[dir.1], prog).last)
    ensures torn[dir.1] == disk[dir.1] ==>
              && FetchBlock(disk[dir.1], prog).last.Some?
              && FetchPair(torn, bs, dir, prog).value.state == FetchBlock(disk[dir.1], prog).last.value
    ensures Covers(source, torn, prog, rest, e, end, t, split)
  {
    TornBeforeLast(was, prev, bs, prog, dir, drawn, n);
    RestKept(source, prev, torn, prog, rest, e, end, t, split, dir.1);
    hide FetchBlock, Scmp, Trusted, Initial, SameDirectory, ReadableLog, Covers, Revision, FetchPair;
    var w := disk[dir.1];
    var done := FetchBlock(w, prog).last.value;
    var recs :| Appends([], recs, done.log);
    TornCompaction(prev, torn, bs, dir, prog, found, w, done, recs);
  }

  lemma RestKept(source: seq<Record>, prev: seq<seq<byte>>, torn: seq<seq<byte>>, prog: nat, rest: seq<Piece>,
                 e: nat, end: nat, t: Link, split: bool, own: nat)
    requires prog > 0 && ProperLog(source) && Covers(source, prev, prog, rest, e, end, t, split)
    requires |torn| == |prev| && forall b :: 0 <= b < |prev| && b != own ==> torn[b] == prev[b]
    requires forall i :: 0 <= i < |rest| ==> rest[i].at.0 != own && rest[i].at.1 != own
    ensures Covers(source, torn, prog, rest, e, end, t, split)
  {
    hide IsPiece, Revision, Scmp;
    forall i | 0 <= i < |rest|
      ensures rest[i].at.0 < |prev| && rest[i].at.1 < |prev|
    {
      CoversAt(source, prev, prog, rest, e, end, t, split, i);
    }
    hide Covers;
    CoversKept(source, prev, torn, prog, rest, e, end, t, split);
  }

  lemma NotEarlier(drawn: seq<nat>, m: nat, b: nat)
    requires m <= |drawn| && NoRepeats(drawn) && b in drawn[m..]
    ensures b in drawn && b !in drawn[..m]
  {
  }

  lemma NotLater(before: seq<nat>, drawn: seq<nat>, b: nat)
    requires before <= drawn && NoRepeats(drawn) && b in before
    ensures b !in drawn[|before|..]
  {
  }

  // Writing to a pair that was just drawn is writing to drawn blocks.
  lemma SplitFrame(was: seq<seq<byte>>, now: seq<seq<byte>>, prev: seq<seq<byte>>, known: seq<nat>, mine: seq<nat>,
                   drawn: seq<nat>, at: Site, earlier: seq<seq<seq<byte>>>, moments: seq<seq<seq<byte>>>, ok: bool)
    requires mine == known + [at.1, at.0] && at.1 < |was|
    requires if ok then
               && |moments| > |earlier| && OnlyDrawn(was, prev, mine, drawn, earlier, moments[..|moments| - 1])
               && moments[|moments| - 1] == now && |prev| == |now| && now == prev[at.1 := now[at.1]]
             else OnlyDrawn(was, now, mine, drawn, earlier, moments)
    ensures OnlyDrawn(was, now, known, drawn, earlier, moments) && mine <= drawn
  {
    DrawnLater(mine, drawn, |known|);
    assert mine[|known|..] == [at.1, at.0];
    assert at.1 in drawn[|known|..];
    forall k | |earlier| <= k < |moments|
      ensures Keeps(was, moments[k], drawn, |known|, -1)
    {
      if k < |moments| - 1 || !ok {
        assert ok ==> moments[..|moments| - 1][k] == moments[k];
      }
    }
  }
}
