/** Writing a commit, and what a fetch then finds
    (littlefs/lfs.cpp, lfs_dir_commitattr and lfs_dir_commitcrc). */
module DirCommit {
  import opened Words
  import opened Tags
  import opened DirLog
  import opened DirLookup
  import opened DirScan
  import opened Wrappers
  import opened Aligned
  import C = Crc

  // A record as it is stored after the tag word ptag.
  function Encode(r: Record, ptag: uint32): (s: seq<byte>)
    requires ValidRecord(r)
    ensures |s| == Size(r.tag)
  {
    Be32(Xor32(Pack(r.tag), ptag)) + r.data
  }

  // Records a commit carries between its checksums.
  predicate Committable(r: Record) {
    ValidRecord(r) && Class(r.tag.ty) != CRC && (Class(r.tag.ty) == TAIL ==> |r.data| == 8)
  }

  function AfterRecord(s: State, r: Record): State
    requires Committable(r)
  {
    State(s.off + Size(r.tag), Pack(r.tag), C.Crc(s.crc, Encode(r, s.ptag)), CountAfter(s.count, r.tag),
          if Class(r.tag.ty) == TAIL then r.data else s.tail,
          if Class(r.tag.ty) == TAIL then r.tag.ty % 2 == 1 else s.split,
          s.log + [r])
  }

  function AfterAll(s: State, rs: seq<Record>): State
    requires forall i :: 0 <= i < |rs| ==> Committable(rs[i])
  {
    if rs == [] then s else AfterRecord(AfterAll(s, rs[..|rs| - 1]), rs[|rs| - 1])
  }

  /** Every scan over a block of bs bytes that begins with prefix may be resumed further on. */
  ghost predicate Leads(prefix: seq<byte>, bs: nat, prog: nat, s: State, sl: Option<State>, t: State, tl: Option<State>)
    requires prog > 0
  {
    |prefix| <= bs &&
    forall b: seq<byte> {:trigger Scan(b, prog, s, sl)} ::
      |b| == bs && b[..|prefix|] == prefix ==> Scan(b, prog, s, sl) == Scan(b, prog, t, tl)
  }

  lemma LeadsNowhere(prefix: seq<byte>, bs: nat, prog: nat, s: State, sl: Option<State>)
    requires prog > 0 && |prefix| <= bs
    ensures Leads(prefix, bs, prog, s, sl, s, sl)
  {
  }

  lemma LeadsOn(p: seq<byte>, q: seq<byte>, bs: nat, prog: nat,
                s: State, sl: Option<State>, t: State, tl: Option<State>, u: State, ul: Option<State>)
    requires prog > 0 && Leads(p, bs, prog, s, sl, t, tl) && Leads(q, bs, prog, t, tl, u, ul)
    requires |p| <= |q| && q[..|p|] == p
    ensures Leads(q, bs, prog, s, sl, u, ul)
  {
    forall b: seq<byte> | |b| == bs && b[..|q|] == q
      ensures Scan(b, prog, s, sl) == Scan(b, prog, u, ul)
    {
      assert b[..|p|] == b[..|q|][..|p|];
      assert Scan(b, prog, t, tl) == Scan(b, prog, u, ul);
    }
  }

  lemma XorBack(w: uint32, p: uint32)
    ensures Xor32(Xor32(w, p), p) == w
  {
    XorCancels(w, p);
  }

  lemma SplitSlice(b: seq<byte>, from: nat, mid: nat, to: nat)
    requires from <= mid <= to <= |b|
    ensures b[from..mid] == b[from..to][..mid - from]
    ensures b[mid..to] == b[from..to][mid - from..]
  {
  }

  // A stored record is read as it was written.
  lemma StepOverRecord(block: seq<byte>, prog: nat, s: State, last: Option<State>, r: Record)
    requires prog > 0 && Committable(r) && s.off + Size(r.tag) <= |block|
    requires block[s.off..s.off + Size(r.tag)] == Encode(r, s.ptag)
    ensures StepAt(block, prog, s, last) == Next(AfterRecord(s, r))
  {
    hide C.Crc, Pack, Unpack, Be32, FromBe32, Xor32;
    var end := s.off + Size(r.tag);
    var enc := Encode(r, s.ptag);
    var word := Xor32(Pack(r.tag), s.ptag);
    SplitSlice(block, s.off, s.off + 4, end);
    assert enc[..4] == Be32(word) && enc[4..] == r.data;
    ByteOrderRoundTrip(word);
    XorBack(Pack(r.tag), s.ptag);
    UnpackPacked(r.tag);
    C.CrcAppend(s.crc, Be32(word), r.data);
    if Class(r.tag.ty) == TAIL {
      assert block[s.off + 4..s.off + 12] == r.data;
    }
  }

  lemma LeadsOverRecord(prefix: seq<byte>, bs: nat, prog: nat, s: State, last: Option<State>, r: Record)
    requires prog > 0 && Committable(r) && |prefix| == s.off && s.off + Size(r.tag) <= bs
    ensures Leads(prefix + Encode(r, s.ptag), bs, prog, s, last, AfterRecord(s, r), last)
  {
    hide C.Crc, Pack, Be32, Xor32, StepAt;
    var longer := prefix + Encode(r, s.ptag);
    forall b: seq<byte> | |b| == bs && b[..|longer|] == longer
      ensures Scan(b, prog, s, last) == Scan(b, prog, AfterRecord(s, r), last)
    {
      assert b[s.off..s.off + Size(r.tag)] == b[..|longer|][s.off..] == Encode(r, s.ptag);
      StepOverRecord(b, prog, s, last, r);
    }
  }

  // A checksum tag with its checksum.
  function Footer(t: Tag, s: State): (f: seq<byte>)
    requires ValidTag(t)
    ensures |f| == 8
  {
    var head := Be32(Xor32(Pack(t), s.ptag));
    head + Le32(C.Crc(s.crc, head))
  }

  predicate CrcTag(t: Tag) {
    ValidTag(t) && (t.ty == TYPE_CRC || t.ty == TYPE_CRC + 1) && t.id == NO_ID && 4 <= t.len < REMOVED
  }

  // The committed state; padding becomes the checksum record's data.
  function AfterFooter(s: State, t: Tag, data: seq<byte>): State
    requires CrcTag(t)
  {
    s.(off := s.off + 4 + t.len, ptag := Pack(t) + 0x8000_0000 * (t.ty - TYPE_CRC), crc := C.ONES,
       log := s.log + [Record(t, data)])
  }

  lemma StepOverFooter(block: seq<byte>, prog: nat, s: State, last: Option<State>, t: Tag)
    requires prog > 0 && CrcTag(t) && s.off + 4 + t.len <= |block|
    requires block[s.off..s.off + 8] == Footer(t, s)
    ensures StepAt(block, prog, s, last) == Commits(AfterFooter(s, t, block[s.off + 4..s.off + 4 + t.len]))
  {
    hide C.Crc, Pack, Unpack, Be32, FromBe32, Le32, FromLe32, Xor32;
    var word := Xor32(Pack(t), s.ptag);
    var f := Footer(t, s);
    SplitSlice(block, s.off, s.off + 4, s.off + 8);
    assert f[..4] == Be32(word) && f[4..] == Le32(C.Crc(s.crc, Be32(word)));
    ByteOrderRoundTrip(word);
    ByteOrderRoundTrip(C.Crc(s.crc, Be32(word)));
    XorBack(Pack(t), s.ptag);
    UnpackPacked(t);
  }

  lemma LeadsOverFooter(prefix: seq<byte>, bs: nat, prog: nat, s: State, last: Option<State>, t: Tag, pad: seq<byte>)
    requires prog > 0 && CrcTag(t) && |prefix| == s.off && s.off + 4 + t.len <= bs && |pad| == t.len - 4
    ensures var data := Footer(t, s)[4..] + pad;
            var next := AfterFooter(s, t, data);
            Leads(prefix + Footer(t, s) + pad, bs, prog, s, last, next, Some(next))
  {
    hide C.Crc, Pack, Be32, Xor32, StepAt, Le32;
    var f := Footer(t, s);
    var longer := prefix + f + pad;
    var data := f[4..] + pad;
    forall b: seq<byte> | |b| == bs && b[..|longer|] == longer
      ensures Scan(b, prog, s, last) == Scan(b, prog, AfterFooter(s, t, data), Some(AfterFooter(s, t, data)))
    {
      assert b[s.off..s.off + 8] == b[..|longer|][s.off..s.off + 8] == f;
      assert b[s.off + 4..s.off + 4 + t.len] == b[..|longer|][s.off + 4..] == data;
      StepOverFooter(b, prog, s, last, t);
    }
  }

  // Checksum records say nothing about entries.
  ghost predicate Checksum(r: Record) {
    CrcTag(r.tag) && |r.data| == r.tag.len
  }

  lemma SameTop(a: seq<byte>, b: seq<byte>, from: nat, at: nat)
    requires from <= at && |a| == |b| && from <= |a| && a[from..] == b[from..]
    ensures TopClear(a, at) == TopClear(b, at)
  {
    if at + 4 <= |a| {
      assert a[at..at + 4] == a[from..][at - from..at + 4 - from];
      assert b[at..at + 4] == b[from..][at - from..at + 4 - from];
    }
  }

  // Where the checksum tag at m ends: at most 0x3fe bytes on, leaving room for another.
  function NextMark(m: nat, end: nat): (n: nat)
    requires m + 8 <= end
    ensures n == end || n + 8 <= end
    ensures m + 8 <= n && n - (m + 4) < REMOVED
  {
    var o := m + 4;
    var n := (if end - o < 0x3fe then end - o else 0x3fe) + o;
    if n < end then (if n < end - 8 then n else end - 8) else n
  }

  // Whether the word on the disk would be taken for a tag: its top bit is clear.
  function TopClear(block: seq<byte>, at: nat): bool {
    at + 4 <= |block| && FromBe32(block[at..at + 4]) < 0x8000_0000
  }

  function MarkTag(block: seq<byte>, m: nat, n: nat): (t: Tag)
    requires m + 8 <= n && n - (m + 4) < REMOVED
    ensures CrcTag(t)
  {
    Tag(TYPE_CRC + (if TopClear(block, n) then 1 else 0), NO_ID, n - (m + 4))
  }

  // A run of bytes that ends in its own checksum.
  ghost predicate Sealed(block: seq<byte>, from: nat, m: nat) {
    from <= m && m + 8 <= |block| && C.Crc(C.ONES, block[from..m + 8]) == 0
  }

  lemma FooterSeals(block: seq<byte>, from: nat, m: nat, t: Tag, s: State)
    requires from <= m && m + 8 <= |block| && ValidTag(t)
    requires s.crc == C.Crc(C.ONES, block[from..m]) && block[m..m + 8] == Footer(t, s)
    ensures Sealed(block, from, m)
  {
    hide C.Crc, Pack, Be32, Le32, Xor32;
    var head := Be32(Xor32(Pack(t), s.ptag));
    var data := block[from..m];
    C.CrcAppend(C.ONES, data, head);
    C.CrcOfSealed(C.ONES, data + head);
    assert block[from..m + 8] == data + block[m..m + 8] == data + head + Le32(C.Crc(s.crc, head));
  }

  // The checksum tags of one commit: the first covers the commit from begin, each later one itself.
  ghost predicate Marked(block: seq<byte>, begin: nat, end: nat, marks: seq<nat>) {
    forall k :: 0 <= k < |marks| ==>
      && marks[k] + 8 <= end
      && Sealed(block, if k == 0 then begin else marks[k], marks[k])
      && (k + 1 < |marks| ==> marks[k + 1] == NextMark(marks[k], end))
  }

  lemma NoMarks(block: seq<byte>, begin: nat, end: nat)
    ensures Marked(block, begin, end, [])
  {
  }

  lemma MarkedKept(a: seq<byte>, b: seq<byte>, begin: nat, end: nat, marks: seq<nat>, upto: nat)
    requires Marked(a, begin, end, marks) && |a| == |b| && upto <= |a| && a[..upto] == b[..upto]
    requires forall k :: 0 <= k < |marks| ==> marks[k] + 8 <= upto
    ensures Marked(b, begin, end, marks)
  {
    hide C.Crc, NextMark;
    forall k | 0 <= k < |marks|
      ensures Sealed(b, if k == 0 then begin else marks[k], marks[k])
    {
      var from := if k == 0 then begin else marks[k];
      assert Sealed(a, from, marks[k]);
      assert a[from..marks[k] + 8] == a[..upto][from..marks[k] + 8];
      assert b[from..marks[k] + 8] == b[..upto][from..marks[k] + 8];
    }
  }

  // Exclusive or with the chosen top bit makes the next word on the disk no tag.
  lemma NextWordInvalid(word: uint32, tag: uint32)
    requires tag < 0x8000_0000
    ensures word < 0x8000_0000 ==> Xor32(word, tag + 0x8000_0000) >= 0x8000_0000
    ensures word >= 0x8000_0000 ==> Xor32(word, tag) >= 0x8000_0000
  {
    Pow2Of32();
    if word < 0x8000_0000 {
      C.XorTop(word, tag, 31);
    } else {
      C.XorTop(tag, word - 0x8000_0000, 31);
      XorCommutes(word, tag);
    }
  }

  // After a checksum tag whose bit was chosen so, a scan stops.
  lemma ScanStops(block: seq<byte>, prog: nat, s: State, t: Tag)
    requires prog > 0 && CrcTag(t) && s.off % prog == 0
    requires s.ptag == Pack(t) + if TopClear(block, s.off) then 0x8000_0000 else 0
    ensures Scan(block, prog, s, Some(s)) == Fetched(Some(s), s.off + 4 <= |block|)
  {
    hide Pack, C.Crc, FromBe32, Xor32;
    if s.off + 4 <= |block| {
      NextWordInvalid(FromBe32(block[s.off..s.off + 4]), Pack(t));
      TopBitIgnored(Pack(t));
      hide Unpack;
      UnpackPacked(t);
    }
  }

  lemma TopBitIgnored(w: uint32)
    requires w < 0x8000_0000
    ensures Unpack(w + 0x8000_0000).ty == Unpack(w).ty
  {
    var a := w / 1048576;
    assert (w + 0x8000_0000) / 1048576 == a + 2048;
  }

  /** A commit being written to a block (struct lfs_commit). The ghost fields say what a scan
      from the commit's start makes of the bytes written so far. */
  class Writer {
    const prog: nat
    const begin: nat
    var block: seq<byte>
    var off: nat
    var ptag: uint32
    var crc: uint32
    ghost const start: State
    ghost const startLast: Option<State>
    ghost var cur: State
    ghost var curLast: Option<State>

    ghost predicate Valid()
      reads this
    {
      && prog > 0 && |block| % prog == 0 && begin <= off <= |block|
      && cur.off == off && cur.ptag == ptag && cur.crc == crc
      && Leads(block[..off], |block|, prog, start, startLast, cur, curLast)
    }

    // Before the first checksum tag, everything since begin is summed.
    ghost predicate Open()
      reads this
    {
      Valid() && crc == C.Crc(C.ONES, block[begin..off]) && curLast == startLast
    }

    // Append after the last whole commit of a block.
    constructor Append(block: seq<byte>, prog: nat, off: nat, etag: uint32, ghost last: State)
      requires prog > 0 && |block| % prog == 0 && last.off <= |block| && last.crc == C.ONES
      requires off == last.off && etag == last.ptag
      ensures Open() && this.block == block && this.prog == prog && begin == this.off == last.off
      ensures start == cur == last && startLast == Some(last)
    {
      this.block, this.prog, begin, this.off, ptag, crc := block, prog, off, off, etag, C.ONES;
      start, startLast, cur, curLast := last, Some(last), last, Some(last);
      LeadsNowhere(block[..last.off], |block|, prog, last, Some(last));
    }

    // Begin a block with its revision count.
    constructor Begin(erased: seq<byte>, prog: nat, rev: uint32)
      requires prog > 0 && |erased| % prog == 0 && |erased| >= 4
      ensures Open() && this.prog == prog && begin == 0 && off == 4 && block == Le32(rev) + erased[4..]
      ensures start == cur == Initial(block) && startLast == None
    {
      var fill := Le32(rev) + erased[4..];
      block, this.prog, begin, off, ptag, crc := fill, prog, 0, 4, C.ONES, C.Crc(C.ONES, Le32(rev));
      assert fill[..4] == fill[0..4] == Le32(rev);
      start, startLast, cur, curLast := Initial(fill), None, Initial(fill), None;
      LeadsNowhere(fill[..4], |fill|, prog, Initial(fill), None);
    }

    /** lfs_dir_commitattr */
    method CommitAttr(r: Record) returns (ok: Result<()>)
      requires Open() && Committable(r)
      modifies this
      ensures Open() && |block| == |old(block)| && block[..old(off)] == old(block)[..old(off)]
      ensures ok.Ok? <==> old(off) + Size(r.tag) + 8 <= |block|
      ensures ok.Ok? ==> cur == AfterRecord(old(cur), r) && off == old(off) + Size(r.tag)
      ensures ok.Err? ==> ok.error == NoSpace && cur == old(cur) && block == old(block)
    {
      hide C.Crc, Pack, Leads;
      var dsize := Size(r.tag);
      if off + dsize > |block| - 8 {
        return Err(NoSpace);
      }
      ghost var before := block[..off];
      var bytes := Encode(r, ptag);
      LeadsOverRecord(block[..off], |block|, prog, cur, curLast, r);
      C.CrcAppend(C.ONES, block[begin..off], bytes);
      var written := block[..off] + bytes + block[off + dsize..];
      assert written[..off + dsize] == before + bytes;
      assert written[begin..off + dsize] == block[begin..off] + bytes;
      LeadsOn(before, before + bytes, |block|, prog, start, startLast, cur, curLast, AfterRecord(cur, r), curLast);
      crc := C.LfsCrc(crc, bytes);
      block, off, ptag := written, off + dsize, Pack(r.tag);
      cur := AfterRecord(cur, r);
      return Ok(());
    }

    // One checksum tag of lfs_dir_commitcrc.
    method WriteFooter(n: nat)
      requires Valid() && off + 8 <= n <= |block| && n - (off + 4) < REMOVED
      modifies this
      ensures Valid() && off == n && |block| == |old(block)|
      ensures block[..old(off)] == old(block)[..old(off)] && block[old(off) + 8..] == old(block)[old(off) + 8..]
      ensures block[old(off)..old(off) + 8] == Footer(MarkTag(old(block), old(off), n), old(cur))
      ensures ptag == Pack(MarkTag(old(block), old(off), n)) + (if TopClear(old(block), n) then 0x8000_0000 else 0)
      ensures cur == AfterFooter(old(cur), MarkTag(old(block), old(off), n), block[old(off) + 4..n])
              && curLast == Some(cur)
    {
      hide C.Crc, Pack, Leads, Be32, Le32, Xor32;
      // the top bit of the word behind, as it is before programming
      var t := MarkTag(block, off, n);
      var reset := TopClear(block, n);
      ghost var before, pad := block[..off], block[off + 8..n];
      var head := Be32(Xor32(Pack(t), ptag));
      crc := C.LfsCrc(crc, head);
      var footer := head + Le32(crc);
      var written := block[..off] + footer + block[off + 8..];
      LeadsOverFooter(before, |block|, prog, cur, curLast, t, pad);
      ghost var next := AfterFooter(cur, t, footer[4..] + pad);
      LeadsOn(before, before + footer + pad, |block|, prog, start, startLast, cur, curLast, next, Some(next));
      assert written[..n] == before + footer + pad;
      assert written[off + 4..n] == footer[4..] + pad;
      assert written[off..off + 8] == footer;
      block, off := written, n;
      ptag := Pack(t) + if reset then 0x8000_0000 else 0;
      crc := C.ONES;
      cur, curLast := next, Some(next);
    }

    // Between checksum tags: those at marks are written, the last of them t.
    ghost predicate Marking(off1: nat, end: nat, marks: seq<nat>, t: Tag)
      reads this
    {
      && Valid() && off1 <= off && (off == end || off + 8 <= end)
      && Marked(block, begin, end, marks) && (forall k :: 0 <= k < |marks| ==> marks[k] + 8 <= off)
      && (marks == [] ==> off == off1 && Open())
      && (marks != [] ==>
            && curLast == Some(cur) && crc == C.ONES && CrcTag(t)
            && marks[0] == off1 && marks[|marks| - 1] + 8 <= end && off == NextMark(marks[|marks| - 1], end)
            && ptag == Pack(t) + if TopClear(block, off) then 0x8000_0000 else 0)
    }

    method WriteMark(ghost off1: nat, end: nat, ghost marks: seq<nat>, ghost t: Tag)
      returns (ghost marks': seq<nat>, ghost t': Tag)
      requires Marking(off1, end, marks, t) && off < end <= |block|
      modifies this
      ensures Marking(off1, end, marks', t') && marks' != [] && off > old(off)
      ensures |block| == |old(block)| && block[..off1] == old(block)[..off1]
      ensures cur.count == old(cur).count && cur.tail == old(cur).tail && cur.split == old(cur).split
      ensures |cur.log| == |old(cur).log| + 1 && old(cur).log <= cur.log && Checksum(cur.log[|cur.log| - 1])
    {
      hide C.Crc, Pack, Leads, FromBe32, Footer, NextMark;
      ghost var m, was, s, from := off, block, cur, if marks == [] then begin else off;
      t' := MarkTag(block, off, NextMark(off, end));
      WriteFooter(NextMark(off, end));
      assert was[..off1] == was[..m][..off1] && block[..off1] == block[..m][..off1];
      assert block[from..m] == block[..m][from..m] && was[from..m] == was[..m][from..m];
      C.CrcNothing(C.ONES);
      assert from == m ==> block[from..m] == [];
      FooterSeals(block, from, m, t', s);
      MarkedKept(was, block, begin, end, marks, m);
      SameTop(was, block, m + 8, off);
      marks' := marks + [m];
    }

    // The checksum tags of lfs_dir_commitcrc, up to the end of the program unit.
    method WriteFooters(end: nat) returns (ghost marks: seq<nat>, ghost t: Tag)
      requires Open() && off + 8 <= end <= |block|
      modifies this
      ensures off == end && marks != [] && Marking(old(off), end, marks, t)
      ensures |block| == |old(block)| && block[..old(off)] == old(block)[..old(off)]
      ensures cur.count == old(cur).count && cur.tail == old(cur).tail && cur.split == old(cur).split
      ensures old(cur).log <= cur.log && forall i :: |old(cur).log| <= i < |cur.log| ==> Checksum(cur.log[i])
    {
      hide C.Crc, Pack, Leads, FromBe32, Footer, NextMark, Marked;
      marks, t := [], Tag(TYPE_CRC, NO_ID, 4);
      assert Marked(block, begin, end, []) by { NoMarks(block, begin, end); }
      while off < end
        invariant Marking(old(off), end, marks, t) && (off == end ==> marks != [])
        invariant |block| == |old(block)| && block[..old(off)] == old(block)[..old(off)]
        invariant cur.count == old(cur).count && cur.tail == old(cur).tail && cur.split == old(cur).split
        invariant old(cur).log <= cur.log && forall i :: |old(cur).log| <= i < |cur.log| ==> Checksum(cur.log[i])
        decreases end - off
      {
        marks, t := WriteMark(old(off), end, marks, t);
      }
    }

    // What was written is read again and summed. On a device that keeps what it is
    // given this never fails: data followed by its checksum sums to zero.
    method CheckFooters(off1: nat, crc1: uint32, end: nat, ghost marks: seq<nat>) returns (ok: Result<()>)
      requires prog > 0 && begin <= off1 && off1 + 8 <= end <= |block|
      requires |marks| > 0 && marks[0] == off1 && marks[|marks| - 1] + 8 <= end
               && NextMark(marks[|marks| - 1], end) == end
      requires Marked(block, begin, end, marks) && crc1 == C.Crc(C.ONES, block[begin..off1])
      ensures ok.Ok?
    {
      hide C.Crc, NextMark, FromBe32;
      var from, noff := begin, off1 + 4;
      ghost var k := 0;
      while from < end
        invariant 0 <= k <= |marks|
        invariant k < |marks| ==> noff == marks[k] + 4 && from == (if k == 0 then begin else marks[k])
        invariant k > 0 ==> from > off1
        invariant k == |marks| ==> from == end
        decreases |marks| - k
      {
        var sum: uint32 := C.ONES;
        var i := from;
        C.CrcNothing(C.ONES);
        assert block[from..from] == [];
        while i < noff + 4
          invariant from <= i <= noff + 4 <= |block| && sum == C.Crc(C.ONES, block[from..i])
        {
          // the sum over the records, as it was when they were written
          if i == off1 && sum != crc1 {
            return Err(Corrupt);
          }
          assert block[from..i + 1] == block[from..i] + [block[i]];
          C.CrcAppend(C.ONES, block[from..i], [block[i]]);
          sum := C.LfsCrc(sum, [block[i]]);
          i := i + 1;
        }
        assert Sealed(block, from, marks[k]);
        // a sealed part sums to zero
        if sum != 0 {
          return Err(Corrupt);
        }
        // skip padding
        from := NextMark(noff - 4, end);
        noff := from + 4;
        k := k + 1;
      }
      return Ok(());
    }

    /** lfs_dir_commitcrc: the sealed commit is what every later scan ends with; the block may
        be appended to again unless it is full. It fails, before anything is written, exactly if there is no room. */
    method CommitCrc() returns (ok: Result<()>)
      requires Open()
      modifies this
      ensures Valid() && |block| == |old(block)| && block[..old(off)] == old(block)[..old(off)]
      ensures ok.Ok? <==> old(off) + 8 <= |block|
      ensures ok.Err? ==> ok.error == NoSpace && block == old(block)
      ensures ok.Ok? ==>
                && off == AlignUp(old(off) + 8, prog) && cur.crc == C.ONES
                && Scan(block, prog, start, startLast) == Fetched(Some(cur), off + 4 <= |block|)
                && cur.count == old(cur).count && cur.tail == old(cur).tail && cur.split == old(cur).split
                && old(cur).log <= cur.log && forall i :: |old(cur).log| <= i < |cur.log| ==> Checksum(cur.log[i])
    {
      hide C.Crc, Pack, FromBe32, NextMark;
      var off1, crc1 := off, crc;
      if off1 + 8 > |block| {
        // the first tag does not fit
        return Err(NoSpace);
      }
      // whole program units
      var end := AlignUp(off1 + 8, prog);
      Multiple(0, prog);
      AlignedFits(0, off1 + 8, |block|, prog);
      ghost var marks, t;
      marks, t := WriteFooters(end);
      ScanStops(block, prog, cur, t);
      assert block[..|block[..off]|] == block[..off];
      assert Scan(block, prog, start, startLast) == Scan(block, prog, cur, curLast);
      assert block[begin..off1] == block[..off1][begin..off1] == old(block)[..off1][begin..off1]
             == old(block)[begin..off1];
      ok := CheckFooters(off1, crc1, end, marks);
    }
  }
}
