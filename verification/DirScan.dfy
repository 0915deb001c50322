/** Reading a directory block forwards: records are believed only up to the last
    checksum that matches (littlefs/lfs.cpp, lfs_dir_fetchmatch). */
module DirScan {
  import opened Words
  import opened Tags
  import opened DirLog
  import opened DirLookup
  import opened Wrappers
  import C = Crc

  // Where the scan stands: the next tag's offset, the tag and checksum so far, and what the
  // records read so far add up to. tail holds the eight raw bytes of the last tail record.
  datatype State = State(off: nat, ptag: uint32, crc: uint32, count: int, tail: seq<byte>, split: bool,
    log: seq<Record>)

  datatype Step = Next(s: State) | Commits(s: State) | Stop(erased: bool)

  // What a fetch of one block finds: the last whole commit, and whether the block may be appended to.
  datatype Fetched = Fetched(last: Option<State>, erased: bool)

  const NULL_TAIL: seq<byte> := [0xff, 0xff, 0xff, 0xff, 0xff, 0xff, 0xff, 0xff]

  function Initial(block: seq<byte>): State
    requires |block| >= 4
  {
    State(4, C.ONES, C.Crc(C.ONES, block[..4]), 0, NULL_TAIL, false, [])
  }

  // Signed view of a splice's lower type byte (lfs_tag_splice).
  function Splice(ty: nat): int {
    if ty % 256 >= 128 then ty % 256 - 256 else ty % 256
  }

  // Entries that come and go.
  function CountAfter(count: int, t: Tag): int {
    if Class(t.ty) == NAME then (if t.id >= count then t.id + 1 else count)
    else if Class(t.ty) == SPLICE then count + Splice(t.ty)
    else count
  }

  function Erased(prog: nat, ptag: uint32, last: Option<State>): bool
    requires prog > 0
  {
    Class(Unpack(ptag).ty) == CRC && (if last.Some? then last.value.off else 0) % prog == 0
  }

  // One turn of the scan.
  function StepAt(block: seq<byte>, prog: nat, s: State, last: Option<State>): (r: Step)
    requires prog > 0
    ensures !r.Stop? ==> s.off + 4 <= r.s.off <= |block|
  {
    var bs := |block|;
    if s.off + 4 > bs then Stop(false) else
      var raw := block[s.off..s.off + 4];
      var crc := C.Crc(s.crc, raw);
      var word := Xor32(FromBe32(raw), s.ptag);
      if word >= 0x8000_0000 then Stop(Erased(prog, s.ptag, last)) else
        var t := Unpack(word);
        var end := s.off + Size(t);
        if end > bs then Stop(false) else
          var data := block[s.off + 4..end];
          if Class(t.ty) == CRC then
            if s.off + 8 > bs || crc != FromLe32(block[s.off + 4..s.off + 8]) then Stop(false)
            else Commits(s.(off := end, ptag := word + 0x8000_0000 * (t.ty % 2), crc := C.ONES,
                            log := s.log + [Record(t, data)]))
          else if Class(t.ty) == TAIL && s.off + 12 > bs then Stop(false)
          else
            Next(State(end, word, C.Crc(crc, data), CountAfter(s.count, t),
                       if Class(t.ty) == TAIL then block[s.off + 4..s.off + 12] else s.tail,
                       if Class(t.ty) == TAIL then t.ty % 2 == 1 else s.split,
                       s.log + [Record(t, data)]))
  }

  /** The whole scan. */
  function Scan(block: seq<byte>, prog: nat, s: State, last: Option<State>): Fetched
    requires prog > 0
    decreases |block| - s.off
  {
    match StepAt(block, prog, s, last)
    case Stop(erased) => Fetched(last, erased)
    case Next(n) => Scan(block, prog, n, last)
    case Commits(n) => Scan(block, prog, n, Some(n))
  }

  function FetchBlock(block: seq<byte>, prog: nat): Fetched
    requires prog > 0 && |block| >= 4
  {
    Scan(block, prog, Initial(block), None)
  }

  // A commit that counts lies within its block.
  lemma {:induction false} ScanInside(block: seq<byte>, prog: nat, s: State, last: Option<State>)
    requires prog > 0 && (last.Some? ==> last.value.off <= |block|)
    ensures var r := Scan(block, prog, s, last).last;
            r.Some? ==> r.value.off <= |block|
    decreases |block| - s.off
  {
    hide StepAt;
    match StepAt(block, prog, s, last)
    case Stop(_) =>
    case Next(n) => ScanInside(block, prog, n, last);
    case Commits(n) => ScanInside(block, prog, n, Some(n));
  }

  /** A block that may be appended to behind a commit: whole program units from there on, and no record was begun. */
  predicate Appendable(block: seq<byte>, prog: nat, c: State)
    requires prog > 0
  {
    && c.off % prog == 0 && c.off + 4 <= |block|
    && Xor32(FromBe32(block[c.off..c.off + 4]), c.ptag) >= 0x8000_0000
  }

  // Where a scan stands: at its last commit, or behind a record that was begun after it.
  ghost predicate Under(block: seq<byte>, s: State, last: Option<State>) {
    && (last == Some(s) <==> Class(Unpack(s.ptag).ty) == CRC) && (last.Some? ==> last.value.off <= s.off)
    && (last.Some? && last != Some(s) ==>
          && last.value.off + 4 <= |block|
          && Xor32(FromBe32(block[last.value.off..last.value.off + 4]), last.value.ptag) < 0x8000_0000)
  }

  lemma {:induction false} ScanErased(block: seq<byte>, prog: nat, s: State, last: Option<State>)
    requires prog > 0 && Under(block, s, last)
    ensures var f := Scan(block, prog, s, last);
            f.erased <==> f.last.Some? && Appendable(block, prog, f.last.value)
    decreases |block| - s.off
  {
    hide C.Crc, Unpack, FromBe32, FromLe32, Xor32, CountAfter;
    StepUnder(block, prog, s, last);
    match StepAt(block, prog, s, last)
    case Stop(_) =>
    case Next(n) => ScanErased(block, prog, n, last);
    case Commits(n) => ScanErased(block, prog, n, Some(n));
  }

  lemma StepUnder(block: seq<byte>, prog: nat, s: State, last: Option<State>)
    requires prog > 0 && Under(block, s, last)
    ensures match StepAt(block, prog, s, last)
            case Stop(_) => true
            case Next(n) => Under(block, n, last)
            case Commits(n) => Under(block, n, Some(n))
  {
    hide C.Crc, FromBe32, FromLe32, Xor32, CountAfter;
    if s.off + 4 <= |block| {
      TopBitOff(Xor32(FromBe32(block[s.off..s.off + 4]), s.ptag));
    }
  }

  lemma TopBitOff(w: uint32)
    ensures w < 0x8000_0000 ==> Unpack(w + 0x8000_0000).ty == Unpack(w).ty
  {
  }

  /** A fetched block is reported erased exactly if there is a commit that it may be appended to: nothing that
      was begun behind the last commit, whole or torn, is taken for erased. */
  lemma ErasedExactly(block: seq<byte>, prog: nat)
    requires prog > 0 && |block| >= 4
    ensures var f := FetchBlock(block, prog);
            f.erased <==> f.last.Some? && Appendable(block, prog, f.last.value)
  {
    hide C.Crc, Scan;
    ScanErased(block, prog, Initial(block), None);
  }

  /** Up to here the block is in parts, each of them under a checksum of its own: marks says where the checksum tags
      are and where the parts end. */
  ghost predicate UnderChecksums(block: seq<byte>, marks: seq<(nat, nat)>, upto: nat) {
    if marks == [] then upto == 0 else
      var rest, (m, end) := marks[..|marks| - 1], marks[|marks| - 1];
      var from := if rest == [] then 0 else rest[|rest| - 1].1;
      && end == upto && from <= m && m + 4 <= end <= |block| && m + 8 <= |block| && UnderChecksums(block, rest, from)
      && C.Crc(C.ONES, block[from..m + 4]) == FromLe32(block[m + 4..m + 8])
  }

  // What a scan goes by: the sum of all bytes since the last part.
  ghost predicate Summing(block: seq<byte>, s: State, last: Option<State>, marks: seq<(nat, nat)>) {
    var from := if last.Some? then last.value.off else 0;
    && from <= s.off <= |block| && s.crc == C.Crc(C.ONES, block[from..s.off])
    && UnderChecksums(block, marks, from) && (last.Some? <==> marks != [])
  }

  lemma {:induction false} ScanUnderChecksums(block: seq<byte>, prog: nat, s: State, last: Option<State>,
                                              marks: seq<(nat, nat)>)
    returns (all: seq<(nat, nat)>)
    requires prog > 0 && Summing(block, s, last, marks)
    ensures var r := Scan(block, prog, s, last).last;
            if r.Some? then all != [] && UnderChecksums(block, all, r.value.off) else all == []
    decreases |block| - s.off
  {
    hide C.Crc, Unpack, FromBe32, FromLe32, Xor32, CountAfter, UnderChecksums, StepAt;
    match StepAt(block, prog, s, last)
    case Stop(_) => all := marks;
    case Next(n) =>
      NextSums(block, prog, s, last, n, marks);
      all := ScanUnderChecksums(block, prog, n, last, marks);
    case Commits(n) =>
      CommitSums(block, prog, s, last, n, marks);
      all := ScanUnderChecksums(block, prog, n, Some(n), marks + [(s.off, n.off)]);
  }

  lemma NextSums(block: seq<byte>, prog: nat, s: State, last: Option<State>, n: State, marks: seq<(nat, nat)>)
    requires prog > 0 && Summing(block, s, last, marks) && StepAt(block, prog, s, last) == Next(n)
    ensures Summing(block, n, last, marks)
  {
    hide C.Crc, Unpack, FromBe32, FromLe32, Xor32, CountAfter, UnderChecksums;
    var from := if last.Some? then last.value.off else 0;
    C.CrcAppend(C.ONES, block[from..s.off], block[s.off..s.off + 4]);
    C.CrcAppend(C.ONES, block[from..s.off + 4], block[s.off + 4..n.off]);
    assert block[from..s.off] + block[s.off..s.off + 4] == block[from..s.off + 4];
    assert block[from..s.off + 4] + block[s.off + 4..n.off] == block[from..n.off];
  }

  lemma CommitSums(block: seq<byte>, prog: nat, s: State, last: Option<State>, n: State, marks: seq<(nat, nat)>)
    requires prog > 0 && Summing(block, s, last, marks) && StepAt(block, prog, s, last) == Commits(n)
    ensures Summing(block, n, Some(n), marks + [(s.off, n.off)])
  {
    hide C.Crc, Unpack, FromBe32, FromLe32, Xor32, CountAfter;
    var from := if last.Some? then last.value.off else 0;
    var more := marks + [(s.off, n.off)];
    C.CrcAppend(C.ONES, block[from..s.off], block[s.off..s.off + 4]);
    C.CrcNothing(C.ONES);
    assert block[from..s.off] + block[s.off..s.off + 4] == block[from..s.off + 4] && block[n.off..n.off] == [];
    assert more[..|more| - 1] == marks && more[|more| - 1] == (s.off, n.off);
    assert marks != [] ==> marks[|marks| - 1].1 == from;
  }

  /** Nothing is believed that no checksum covers: up to its last commit a fetched block is in such parts. */
  lemma FetchedUnderChecksums(block: seq<byte>, prog: nat) returns (marks: seq<(nat, nat)>)
    requires prog > 0 && |block| >= 4
    ensures var c := FetchBlock(block, prog).last;
            c.Some? ==> marks != [] && UnderChecksums(block, marks, c.value.off)
  {
    hide C.Crc, Scan;
    assert block[0..4] == block[..4];
    marks := ScanUnderChecksums(block, prog, Initial(block), None, []);
  }

  // The entries a tag makes for.
  method Count(tempcount: int, t: Tag) returns (count: int)
    ensures count == CountAfter(tempcount, t)
  {
    count := tempcount;
    if Class(t.ty) == NAME {
      // a name beyond the last entry
      if t.id >= count {
        count := t.id + 1;
      }
    } else if Class(t.ty) == SPLICE {
      count := count + Splice(t.ty);
    }
  }

  /** The tag loop of lfs_dir_fetchmatch over one block. */
  method Fetch(block: seq<byte>, prog: nat) returns (last: Option<State>, erased: bool)
    requires prog > 0 && |block| >= 4
    ensures Fetched(last, erased) == FetchBlock(block, prog)
    ensures erased <==> last.Some? && Appendable(block, prog, last.value)
  {
    hide C.Crc, Unpack, FromBe32, FromLe32, Xor32, CountAfter, Appendable;
    ErasedExactly(block, prog);
    var off := 0;
    var ptag: uint32 := C.ONES;
    var tempcount, temptail, tempsplit := 0, NULL_TAIL, false;
    var templog: seq<Record> := [];
    var crc := C.LfsCrc(C.ONES, block[..4]);
    last := None;
    var step := 4;
    while true
      invariant step >= 4 && off + step <= |block|
      invariant FetchBlock(block, prog) ==
                Scan(block, prog, State(off + step, ptag, crc, tempcount, temptail, tempsplit, templog), last)
      decreases |block| - off
    {
      // the next word
      off := off + step;
      if off + 4 > |block| {
        return last, false;
      }
      var raw := block[off..off + 4];
      crc := C.LfsCrc(crc, raw);
      var tag := Xor32(FromBe32(raw), ptag);
      // nothing was written here, or it runs out of the block
      if tag >= 0x8000_0000 {
        return last, Class(Unpack(ptag).ty) == CRC && (if last.Some? then last.value.off else 0) % prog == 0;
      }
      var t := Unpack(tag);
      step := Size(t);
      if off + step > |block| {
        return last, false;
      }
      ptag := tag;
      var data := block[off + 4..off + step];
      if Class(t.ty) == CRC {
        if off + 8 > |block| {
          return last, false;
        }
        // the stored sum
        var dcrc := FromLe32(block[off + 4..off + 8]);
        if crc != dcrc {
          return last, false;
        }
        // the bit that says how the next word begins
        ptag := tag + 0x8000_0000 * (t.ty % 2);
        // all up to here counts
        templog := templog + [Record(t, data)];
        crc := C.ONES;
        last := Some(State(off + step, ptag, crc, tempcount, temptail, tempsplit, templog));
        continue;
      }
      // the sum goes on over the data
      crc := C.LfsCrc(crc, data);
      templog := templog + [Record(t, data)];
      tempcount := Count(tempcount, t);
      if Class(t.ty) == TAIL {
        tempsplit := t.ty % 2 == 1;
        if off + 12 > |block| {
          return last, false;
        }
        temptail := block[off + 4..off + 12];
      }
    }
  }
}
