/** Directories of files, in order as any the file system writes, at which compaction goes wrong
    (littlefs/lfs.cpp:1433-1540). */
module DirInputs {
  import opened Words
  import opened Aligned
  import opened Tags
  import opened DirLog
  import opened DirScan
  import opened DirUpdate
  import opened DirRecovery
  import opened DirCompact
  import opened DirFind
  import opened DirOrder
  import opened DirSplit
  import opened GlobalState
  import opened Blocks
  import opened Allocator
  import opened Wrappers

  const TYPE_CTZSTRUCT := 0x202

  // A file with a name of one letter, the head and size of its data, and a user attribute.
  datatype File = File(letter: byte, ctz: seq<byte>, attr: seq<byte>)

  predicate Plain(f: File) {
    |f.ctz| == 8 && |f.attr| < REMOVED
  }

  function FileRecords(id: nat, f: File): seq<Record> {
    [NameRecord(TYPE_REG, id, [f.letter])] + [Record(Tag(TYPE_CTZSTRUCT, id, |f.ctz|), f.ctz)]
    + [Record(Tag(TYPE_USERATTR, id, |f.attr|), f.attr)]
  }

  function Files(fs: seq<File>): seq<Record> {
    if fs == [] then [] else Files(fs[..|fs| - 1]) + FileRecords(|fs| - 1, fs[|fs| - 1])
  }

  // Sorted by their letters.
  predicate Listed(fs: seq<File>) {
    |fs| < NO_ID && (forall i :: 0 <= i < |fs| ==> Plain(fs[i]))
    && forall i, j :: 0 <= i < j < |fs| ==> fs[i].letter < fs[j].letter
  }

  /* They are in order */

  // Entries with one letter each, all before c.
  ghost predicate LettersBelow(es: seq<History>, c: int) {
    forall i :: 0 <= i < |es| ==>
      NameOf(es[i]).Some? && |NameOf(es[i]).value| == 1 && NameOf(es[i]).value[0] < c
  }

  lemma AddName(log: seq<Record>, f: File)
    requires Orderly(log) && Unspliced(log) && |Replay(log)| < NO_ID && LettersBelow(Replay(log), f.letter)
    ensures var r := NameRecord(TYPE_REG, |Replay(log)|, [f.letter]);
            && Orderly(log + [r]) && Replay(log + [r]) == Replay(log) + [[r]]
            && LettersBelow(Replay(log + [r]), f.letter + 1)
  {
    hide Title, Apply, Replay, Orderly, Tidy, Fitting, LettersBelow, Sorted;
    var es, r := Replay(log), NameRecord(TYPE_REG, |Replay(log)|, [f.letter]);
    OrderlyIsTidy(log);
    NameFits(es, r, f.letter);
    TidySnoc(log, r);
    OrderlySnoc(log, r);
  }

  lemma NameFits(es: seq<History>, r: Record, c: byte)
    requires Sorted(es) && LettersBelow(es, c) && r == NameRecord(TYPE_REG, |es|, [c])
    ensures Apply(es, r) == es + [[r]] && Fitting(es, r) && LettersBelow(Apply(es, r), c + 1)
  {
    assert Apply(es, r) == es + [[] + [r]] && [] + [r] == [r];
    TitleOfAppend([], r);
    CreatedEntries([], CreateRecord(0));
    hide Title, Apply, LettersBelow, Sorted, Settled, IsSuper;
    LettersSorted(es, r, c);
  }

  lemma LettersSorted(es: seq<History>, r: Record, c: byte)
    requires LettersBelow(es, c) && NameOf([r]) == Some([c])
    ensures LettersBelow(es + [[r]], c + 1)
    ensures Sorted(es) ==> Sorted(es + [[r]])
  {
    hide Title;
    var after := es + [[r]];
    forall i, j | 0 <= i < j < |after| && Sorted(es)
      ensures Compare(NameOf(after[i]).value, NameOf(after[j]).value) == LT
    {
      if j < |es| {
        assert after[i] == es[i] && after[j] == es[j];
      }
    }
  }

  lemma AddOther(log: seq<Record>, r: Record, c: int)
    requires Orderly(log) && Unspliced(log) && LettersBelow(Replay(log), c) && Proper(r)
    requires IsAttr(r.tag.ty) && Class(r.tag.ty) != NAME && r.tag.id < |Replay(log)|
    ensures Orderly(log + [r]) && |Replay(log + [r])| == |Replay(log)| && LettersBelow(Replay(log + [r]), c)
  {
    OtherKeepsOrderly(log, r);
    ReplayMore(log, r);
    SameTitles(Replay(log), r);
    hide Title, Apply, Replay, Orderly;
  }

  lemma AddFile(log: seq<Record>, f: File)
    requires Orderly(log) && Unspliced(log) && |Replay(log)| < NO_ID && LettersBelow(Replay(log), f.letter) && Plain(f)
    ensures var longer := log + FileRecords(|Replay(log)|, f);
            && Orderly(longer) && Unspliced(longer) && |Replay(longer)| == |Replay(log)| + 1
            && LettersBelow(Replay(longer), f.letter + 1)
  {
    hide Orderly, Replay, Title, LettersBelow;
    var id := |Replay(log)|;
    var a := NameRecord(TYPE_REG, id, [f.letter]);
    var b := Record(Tag(TYPE_CTZSTRUCT, id, |f.ctz|), f.ctz);
    var c := Record(Tag(TYPE_USERATTR, id, |f.attr|), f.attr);
    AddName(log, f);
    AddOther(log + [a], b, f.letter + 1);
    AddOther(log + [a] + [b], c, f.letter + 1);
    assert log + FileRecords(id, f) == log + [a] + [b] + [c];
  }

  lemma NoFiles()
    ensures Orderly([]) && ProperLog([]) && Unspliced([]) && Replay([]) == [] && Settled([]) && LettersBelow([], 0)
  {
  }

  /** Listed files make an orderly directory, in which every entry has its name. */
  lemma {:induction false} FilesAreOrderly(fs: seq<File>)
    requires Listed(fs)
    ensures var log := Files(fs);
            && Orderly(log) && ProperLog(log) && Unspliced(log) && |Replay(log)| == |fs| && Settled(Replay(log))
            && LettersBelow(Replay(log), if fs == [] then 0 else fs[|fs| - 1].letter + 1)
  {
    hide Orderly, Replay, LettersBelow, Settled, FileRecords, Unspliced, ProperLog, Plain;
    if fs == [] {
      NoFiles();
    } else {
      var rest, f, id := Files(fs[..|fs| - 1]), fs[|fs| - 1], |fs| - 1;
      FilesAreOrderly(fs[..|fs| - 1]);
      LettersRise(Replay(rest), if id == 0 then 0 else fs[id - 1].letter + 1, f.letter);
      AddFile(rest, f);
      OrderlyIsTidy(Files(fs));
      TidyIsProper(Files(fs));
      LettersSettle(Replay(Files(fs)), f.letter + 1);
    }
  }

  lemma LettersRise(es: seq<History>, c: int, d: int)
    requires LettersBelow(es, c) && c <= d
    ensures LettersBelow(es, d)
  {
  }

  lemma LettersSettle(es: seq<History>, c: int)
    requires LettersBelow(es, c)
    ensures Settled(es)
  {
  }

  /* How much room they take */

  // Records none of which replaces another.
  ghost predicate Unreplaced(log: seq<Record>) {
    && ProperLog(log) && (forall i :: 0 <= i < |log| ==> IsAttr(log[i].tag.ty) && log[i].tag.len != REMOVED)
    && forall i, j :: 0 <= i < j < |log| && log[i].tag.id == log[j].tag.id ==> !SameKey(log[j].tag.ty, log[i].tag.ty)
  }

  lemma {:induction false} KeptAsItIs(f: Tag, later: seq<Record>)
    requires ProperLog(later) && f.len != REMOVED
    requires forall j :: 0 <= j < |later| ==>
               IsAttr(later[j].tag.ty) && (later[j].tag.id == f.id ==> !SameKey(later[j].tag.ty, f.ty))
    ensures Fate(f, later) == Some(f)
  {
    if later != [] {
      assert Proper(later[|later| - 1]);
      KeptAsItIs(f, later[..|later| - 1]);
    }
  }

  // The sizes of the records of some entries.
  function SizeIn(log: seq<Record>, begin: nat, end: nat): nat {
    if log == [] then 0 else
      var r := log[|log| - 1].tag;
      SizeIn(log[..|log| - 1], begin, end) + if begin <= r.id < end then Size(r) else 0
  }

  lemma {:induction false} SizeUnreplaced(log: seq<Record>, k: nat, begin: nat, end: nat)
    requires Unreplaced(log) && k <= |log|
    ensures Total(Emitted(log, k, begin, end)) == SizeIn(log[..k], begin, end)
  {
    hide Total;
    if k == 0 {
      TotalOfNone();
    } else {
      var r, later := log[k - 1], log[k..];
      assert log[..k][..k - 1] == log[..k - 1] && log[..k][k - 1] == r && Proper(r);
      SizeUnreplaced(log, k - 1, begin, end);
      EmittedTotal(log, k, begin, end);
      KeptAsItIs(r.tag, later);
    }
  }

  lemma {:induction false} SizeInConcat(a: seq<Record>, b: seq<Record>, begin: nat, end: nat)
    ensures SizeIn(a + b, begin, end) == SizeIn(a, begin, end) + SizeIn(b, begin, end)
  {
    if b == [] {
      assert a + b == a;
    } else {
      assert (a + b)[..|a + b| - 1] == a + b[..|b| - 1];
      SizeInConcat(a, b[..|b| - 1], begin, end);
    }
  }

  function FileSize(f: File): nat {
    4 + 1 + 4 + |f.ctz| + 4 + |f.attr|
  }

  lemma SizeOfFile(id: nat, f: File, begin: nat, end: nat)
    requires Plain(f)
    ensures SizeIn(FileRecords(id, f), begin, end) == if begin <= id < end then FileSize(f) else 0
  {
    var a := [NameRecord(TYPE_REG, id, [f.letter])];
    var b := [Record(Tag(TYPE_CTZSTRUCT, id, |f.ctz|), f.ctz)];
    var c := [Record(Tag(TYPE_USERATTR, id, |f.attr|), f.attr)];
    SizeInConcat(a + b, c, begin, end);
    SizeInConcat(a, b, begin, end);
    assert a[..0] == [] && b[..0] == [] && c[..0] == [] && SizeIn([], begin, end) == 0;
  }

  function FileSizes(fs: seq<File>, begin: nat, end: nat): nat {
    if fs == [] then 0 else
      FileSizes(fs[..|fs| - 1], begin, end) + if begin <= |fs| - 1 < end then FileSize(fs[|fs| - 1]) else 0
  }

  lemma {:induction false} FilesUnreplaced(fs: seq<File>, begin: nat, end: nat)
    requires Listed(fs)
    ensures var log := Files(fs);
            && Unreplaced(log) && (forall i :: 0 <= i < |log| ==> log[i].tag.id < |fs|)
            && SizeIn(log, begin, end) == FileSizes(fs, begin, end)
  {
    if fs != [] {
      var rest, f, id := Files(fs[..|fs| - 1]), fs[|fs| - 1], |fs| - 1;
      FilesUnreplaced(fs[..|fs| - 1], begin, end);
      SizeInConcat(rest, FileRecords(id, f), begin, end);
      SizeOfFile(id, f, begin, end);
      hide SizeIn;
      OneFileMore(rest, id, f);
    }
  }

  lemma OneFileMore(rest: seq<Record>, id: nat, f: File)
    requires Unreplaced(rest) && (forall i :: 0 <= i < |rest| ==> rest[i].tag.id < id) && Plain(f) && id < NO_ID
    ensures Unreplaced(rest + FileRecords(id, f))
    ensures forall i :: 0 <= i < |rest + FileRecords(id, f)| ==> (rest + FileRecords(id, f))[i].tag.id < id + 1
  {
    var mine, log := FileRecords(id, f), rest + FileRecords(id, f);
    assert forall i :: 0 <= i < 3 ==> Proper(mine[i]) && IsAttr(mine[i].tag.ty) && mine[i].tag.id == id;
    assert forall i :: 0 <= i < |log| ==> log[i] == if i < |rest| then rest[i] else mine[i - |rest|];
  }

  /** The room that a range of listed files takes. */
  lemma SizeOfFiles(fs: seq<File>, begin: nat, end: nat)
    requires Listed(fs)
    ensures ProperLog(Files(fs)) && SizeOf(Files(fs), begin, end) == FileSizes(fs, begin, end)
  {
    FilesUnreplaced(fs, begin, end);
    SizeUnreplaced(Files(fs), |Files(fs)|, begin, end);
    assert Files(fs)[..|Files(fs)|] == Files(fs);
  }

  /* Where the guard lets through what does not fit */

  /** Two files with attributes of 217 bytes: a block of 512 bytes holds them with a tail, they pass every test of the
      size, and they do not fit with a tail and a state difference. */
  lemma GuardPassesTooMuch(fs: seq<File>, t: Link, split: bool, g: GState)
    requires |fs| == 2 && Listed(fs) && |fs[0].attr| == |fs[1].attr| == 217 && !IsNull(t) && g != ZERO
    ensures var log := Files(fs);
            && Orderly(log) && Settled(Replay(log)) && |Replay(log)| == 2 && ProperLog(log)
            && 4 + Total(Written(log, 0, 2, t, split, ZERO)) + 8 <= 512
            && SizeOf(log, 0, 2) <= Min(512 - 36, AlignUp(512 / 2, 512))
            && 4 + Total(Written(log, 0, 2, t, split, g)) + 8 > 512
  {
    FilesAreOrderly(fs);
    SizeOfFiles(fs, 0, 2);
    TwoSizes(fs);
    hide Files, Orderly, Settled, Replay, SizeOf, Written;
    AlignedFits(0, 256, 512, 512);
    WrittenTotal(Files(fs), 0, 2, t, split, ZERO);
    WrittenTotal(Files(fs), 0, 2, t, split, g);
  }

  lemma TwoSizes(fs: seq<File>)
    requires |fs| == 2
    ensures FileSizes(fs, 0, 2) == FileSize(fs[0]) + FileSize(fs[1])
  {
    assert fs[..1][..0] == [] && fs[..1][0] == fs[0] && FileSizes([], 0, 2) == 0;
    assert FileSizes(fs[..1], 0, 2) == FileSize(fs[0]);
  }

  /* Where the allocator comes back to blocks it has handed out */

  lemma ThreeSizes(fs: seq<File>, begin: nat, end: nat)
    requires |fs| == 3
    ensures FileSizes(fs, begin, end) ==
              (if begin <= 0 < end then FileSize(fs[0]) else 0) + (if begin <= 1 < end then FileSize(fs[1]) else 0)
              + if begin <= 2 < end then FileSize(fs[2]) else 0
  {
    assert fs[..1][..0] == [] && fs[..1][0] == fs[0] && fs[..2][..1] == fs[..1] && fs[..2][1] == fs[1];
    assert FileSizes([], begin, end) == 0;
    assert FileSizes(fs[..1], begin, end) == if begin <= 0 < end then FileSize(fs[0]) else 0;
    assert FileSizes(fs[..2], begin, end)
           == FileSizes(fs[..1], begin, end) + if begin <= 1 < end then FileSize(fs[1]) else 0;
  }

  // Three files of 140 bytes each fill a block of 512 bytes to more than its half.
  ghost predicate ThreeFiles(fs: seq<File>) {
    |fs| == 3 && Listed(fs) && |fs[0].attr| == |fs[1].attr| == |fs[2].attr| == 119
  }

  lemma SizeOfThree(fs: seq<File>, begin: nat, end: nat)
    requires ThreeFiles(fs) && begin <= end <= 3
    ensures ProperLog(Files(fs)) && SizeOf(Files(fs), begin, end) == 140 * (end - begin)
  {
    SizeOfFiles(fs, begin, end);
    ThreeSizes(fs, begin, end);
  }

  lemma ThreeFilesSplitTwice(fs: seq<File>)
    requires ThreeFiles(fs)
    ensures var log := Files(fs);
            && Orderly(log) && ProperLog(log) && Settled(Replay(log)) && |Replay(log)| == 3
            && 4 + SizeOf(log, 0, 3) + 8 <= 512 && Pairs(log, 512, 16, 0, 3) == 2
            && AlignUp(512 / 2, 16) == 256
            && SizeOf(log, 0, 1) == SizeOf(log, 1, 2) == SizeOf(log, 2, 3) == 140
  {
    var log := Files(fs);
    FilesAreOrderly(fs);
    hide Files, Orderly, Settled, Replay, SizeOf, Listed;
    SizeOfThree(fs, 0, 3);
    SizeOfThree(fs, 1, 3);
    AlignedFits(0, 256, 256, 16);
    SizeOfThree(fs, 0, 1);
    SizeOfThree(fs, 1, 2);
    SizeOfThree(fs, 2, 3);
    assert Pairs(log, 512, 16, 0, 1) == Pairs(log, 512, 16, 1, 2) == Pairs(log, 512, 16, 2, 3) == 0;
    assert Pairs(log, 512, 16, 1, 3) == 1;
  }

  // Blocks 0 and 1 hold the directory, and nothing else is in use.
  method Spare(source: seq<Record>, disk: seq<seq<byte>>) returns (c: Compactor)
    requires |disk| == 4 && Device(disk, 512) && ProperLog(source)
    ensures c.Setting() && c.Valid() && c.drawn == [] && c.source == source && c.disk == disk
    ensures c.bs == 512 && c.prog == 16 && c.visits == [0, 1] && c.sure == c.alloc.Unvisited(c.visits) == {2, 3}
    ensures fresh(c) && fresh(c.alloc) && fresh(c.alloc.buffer)
  {
    hide ProperLog;
    var alloc := new Allocator(4, 32);
    NothingMarked(alloc);
    alloc.DrawingBegins([0, 1]);
    assert alloc.Unvisited([0, 1]) == {2, 3};
    c := new Compactor(512, 16, source, [0, 1], alloc, disk, ZERO, ZERO, (0, 1), alloc.Unvisited([0, 1]));
  }

  lemma NothingMarked(alloc: Allocator)
    requires alloc.Valid() && alloc.size == 0
    ensures alloc.Safe([0, 1]) && forall b :: alloc.Marked(b) ==> b in [0, 1]
  {
  }

  /** On a device with two blocks to spare the compaction of these files succeeds, and both pieces that it splits off
      are in those two blocks: the chain does not hold the files. */
  method TwoBlocksToSpare(fs: seq<File>, disk: seq<seq<byte>>)
    returns (c: Compactor, ok: Result<()>, ghost chain: seq<Piece>)
    requires ThreeFiles(fs) && |disk| == 4 && Device(disk, 512)
    ensures c.Setting() && c.source == Files(fs) && c.prog == 16 && c.alloc.Unvisited(c.visits) == {2, 3}
    ensures ok.Ok? && |chain| == 3 && !NoRepeats(c.drawn)
    ensures !Covers(Files(fs), c.disk, 16, chain, 0, 3, NULL_TAIL, false)
  {
    hide Files, Orderly, Settled, Replay, SizeOf, Listed, NoRepeats, Covers, Pairs, ThreeFiles, ProperLog, IsNull;
    ThreeFilesSplitTwice(fs);
    c := Spare(Files(fs), disk);
    var rev := Revision(disk[0]);
    BeginsSmoothly(c, rev);
    NullTail();
    ghost var prev;
    ok, chain, prev := c.CompactDirectory((0, 1), rev, ZERO, 0, 3, NULL_TAIL, false, false);
  }

  lemma BeginsSmoothly(c: Compactor, rev: uint32)
    requires c.Setting() && c.bs == 512 && c.prog == 16 && |c.sure| == 2 && AlignUp(512 / 2, 16) == 256
    requires SizeOf(c.source, 0, 1) == SizeOf(c.source, 1, 2) == SizeOf(c.source, 2, 3) == 140
    requires |c.disk| == 4 && |c.disk[0]| >= 4 && rev == Revision(c.disk[0]) && c.visits == [0, 1]
    ensures c.Smooth(0, 3) && c.Ours((0, 1)) && c.Next((0, 1), rev)
  {
    hide SizeOf, ProperLog, Scmp, Revision, AlignUp;
    OneNewer(rev);
    ThreeAlone(c);
  }

  lemma OneNewer(rev: uint32)
    ensures Scmp((rev + 1) % 0x1_0000_0000, rev) > 0
  {
    NewerOneWay(rev, (rev + 1) % 0x1_0000_0000);
  }

  lemma ThreeAlone(c: Compactor)
    requires c.Setting() && c.bs == 512
    requires SizeOf(c.source, 0, 1) == SizeOf(c.source, 1, 2) == SizeOf(c.source, 2, 3) == 140
    ensures forall j :: 0 <= j < 3 ==> c.FitsAlone(j)
  {
    hide SizeOf, ProperLog;
    forall j | 0 <= j < 3
      ensures c.FitsAlone(j)
    {
      assert j == 0 || j == 1 || j == 2;
    }
  }

  lemma NullTail()
    ensures IsNull(NULL_TAIL) && TailOk(NULL_TAIL, false)
  {
  }
}
