/** Lookups in a directory block: the tag chain read backwards from its end
    (littlefs/lfs.cpp, lfs_dir_getslice and lfs_dir_get). */
module DirLookup {
  import opened Words
  import opened Tags
  import opened DirLog
  import opened Wrappers

  /** The records of a log as they lie in a block, last record first: each stored word is the
      exclusive or of its tag and the tag before, so the tag before comes out of it. */
  ghost predicate LogAt(block: seq<byte>, end: nat, etag: nat, log: seq<Record>)
    decreases |log|
  {
    if log == [] then end == 4 && etag == 0x7fff_ffff
    else
      var r := log[|log| - 1];
      && ValidRecord(r) && etag == Pack(r.tag)
      && Size(r.tag) + 4 <= end <= |block|
      && var start := end - Size(r.tag);
         && block[start + 4..end] == r.data
         && LogAt(block, start, PreviousTag(block, start, etag), log[..|log| - 1])
  }

  // A tag word without its valid bit, which no lookup examines.
  function Low(w: uint32): (v: uint32)
    ensures v < 0x8000_0000
  {
    w % 0x8000_0000
  }

  function PreviousTag(block: seq<byte>, at: nat, tag: uint32): (p: uint32)
    requires at + 4 <= |block|
    ensures p < 0x8000_0000
  {
    Low(Xor32(FromBe32(block[at..at + 4]), tag))
  }

  // What a buffer of n bytes receives: the data cut short, or filled with zeros.
  function Fit(data: seq<byte>, n: nat): seq<byte> {
    if |data| >= n then data[..n] else data + seq(n - |data|, _ => 0)
  }

  // The masks lookups use: the whole type, 0x780 and 0x700.
  predicate Grain(g: nat) {
    g == 1 || g == 128 || g == 256
  }

  // The last record of a type that carries no entry id.
  function LastOfType(log: seq<Record>, ty: nat): Option<Record> {
    if log == [] then None
    else if log[|log| - 1].tag.ty == ty then Some(log[|log| - 1])
    else LastOfType(log[..|log| - 1], ty)
  }

  // A lookup's answer: removed records count as missing, and the tag names the id asked for.
  function Answer(found: Option<Record>, id: nat, n: nat): Result<(Tag, seq<byte>)> {
    if found.None? || found.value.tag.len == REMOVED then Err(NoEnt)
    else Ok((found.value.tag.(id := id), Fit(found.value.data, n)))
  }

  /** When it is an answer, and what it is byte by byte. */
  lemma AnswerIs(found: Option<Record>, id: nat, n: nat)
    ensures var r := Answer(found, id, n);
            && (r.Err? <==> found.None? || found.value.tag.len == 0x3ff) && (r.Err? ==> r.error == NoEnt)
            && (r.Ok? ==>
                  && r.value.0 == Tag(found.value.tag.ty, id, found.value.tag.len) && |r.value.1| == n
                  && forall i :: 0 <= i < n ==>
                       r.value.1[i] == if i < |found.value.data| then found.value.data[i] else 0)
  {
  }

  lemma MatchesClass(r: Record, grain: nat, ty: nat)
    requires Grain(grain) && Matches(r, grain, ty)
    ensures Class(r.tag.ty) == Class(ty)
  {
    var a, b := r.tag.ty, ty;
    if grain == 128 {
      assert a / 128 / 2 == a / 256 && b / 128 / 2 == b / 256;
    }
  }

  /** lfs_dir_get for an entry's record, past a pending move of an earlier entry (or this one):
      exactly what replaying the log, and then the move's DELETE, leaves in the entry. */
  method Get(block: seq<byte>, dirOff: nat, etag: uint32, move: Option<nat>,
             grain: nat, gty: nat, gid: nat, gsize: nat, ghost log: seq<Record>)
    returns (r: Result<(Tag, seq<byte>)>)
    requires LogAt(block, dirOff, Low(etag), log) && Tidy(log)
    requires Grain(grain) && gty < 0x800 && IsAttr(gty)
    requires gid <= |Replay(log)| && (move.Some? ==> move.value < |Replay(log)| && gid < |Replay(log)|)
    ensures move.None? ==> r == Answer(LastMatch(Nth(Replay(log), gid), grain, gty), gid, gsize)
    ensures move.Some? ==>
              var hidden := log + [DeleteRecord(move.value)];
              r == Answer(LastMatch(Nth(Replay(hidden), gid), grain, gty), gid, gsize)
  {
    hide Low, Unpack, Pack, PreviousTag, Replay, LastMatch, LogAt, WalkBack, Matches, Tidy, Reaches, Apply;
    TidyIsProper(log);
    var off, ntag := dirOff, Low(etag);
    var gdiff := 0;
    if move.Some? && move.value <= gid {
      // synthetic moves
      gdiff := gdiff - 1;
    }
    ghost var start: nat := gid - gdiff;
    if move.Some? {
      PendingMoveIsDelete(log, move.value, gid, grain, gty);
    } else {
      BackwardIsForward(log, gid, grain, gty);
    }
    ghost var n := |log|;
    assert log[..n] == log;
    ReachesExisting(log, gid - gdiff);
    while off >= 4 + Size(Unpack(ntag))
      invariant 0 <= n <= |log| && 0 <= off && ntag < 0x8000_0000 && LogAt(block, off, ntag, log[..n])
      invariant 0 <= gid - gdiff && Tidy(log[..n]) && Reaches(log[..n], gid - gdiff)
      invariant WalkBack(log, start, grain, gty) == WalkBack(log[..n], gid - gdiff, grain, gty)
      decreases off
    {
      OneBack(block, off, ntag, log[..n], gid - gdiff, grain, gty);
      assert log[..n][..n - 1] == log[..n - 1] && log[..n][n - 1] == log[n - 1];
      var tag := Unpack(ntag);
      off := off - Size(tag);
      ntag := PreviousTag(block, off, ntag);
      n := n - 1;
      // the id sum below stays within its ten bits
      assert gid - gdiff <= NO_ID;
      if Class(tag.ty) == SPLICE && tag.id <= gid - gdiff {
        if tag == Tag(TYPE_CREATE, gid - gdiff, 0) {
          // the entry begins here
          return Err(NoEnt);
        }
        // before this record the id was another
        gdiff := gdiff + if tag.ty == TYPE_CREATE then 1 else -1;
      }
      if tag.ty / grain == gty / grain && tag.id == gid - gdiff {
        if tag.len == REMOVED {
          return Err(NoEnt);
        }
        return Ok((tag.(id := tag.id + gdiff), Fit(block[off + 4..off + 4 + tag.len], gsize)));
      }
    }
    LogStart(block, off, ntag, log[..n]);
    assert WalkBack([], gid - gdiff, grain, gty) == At(gid - gdiff) by { NothingToWalk(gid - gdiff, grain, gty); }
    return Err(NoEnt);
  }

  lemma NothingToWalk(id: nat, grain: nat, ty: nat)
    requires grain > 0
    ensures WalkBack([], id, grain, ty) == At(id)
  {
  }

  // One turn of the walk, in the loop's terms.
  lemma WalkStep(log: seq<Record>, id: nat, grain: nat, gty: nat)
    requires |log| > 0 && Proper(log[|log| - 1]) && Grain(grain) && IsAttr(gty)
    ensures var r, rest := log[|log| - 1], log[..|log| - 1];
            if Class(r.tag.ty) == SPLICE && r.tag.id <= id then
              if r.tag == Tag(TYPE_CREATE, id, 0) then WalkBack(log, id, grain, gty) == Born
              else
                && r.tag.ty / grain != gty / grain
                && (r.tag.ty == TYPE_CREATE ==>
                      id > 0 && WalkBack(log, id, grain, gty) == WalkBack(rest, id - 1, grain, gty))
                && (r.tag.ty != TYPE_CREATE ==> WalkBack(log, id, grain, gty) == WalkBack(rest, id + 1, grain, gty))
            else if r.tag.ty / grain == gty / grain && r.tag.id == id then WalkBack(log, id, grain, gty) == Found(r)
            else WalkBack(log, id, grain, gty) == WalkBack(rest, id, grain, gty)
  {
    var r := log[|log| - 1];
    if Matches(r, grain, gty) {
      MatchesClass(r, grain, gty);
    }
  }

  // One turn of the loop: where it gets to in the block, and what it means for the walk.
  lemma OneBack(block: seq<byte>, off: nat, ntag: uint32, log: seq<Record>, id: nat, grain: nat, gty: nat)
    requires ntag < 0x8000_0000 && LogAt(block, off, ntag, log) && off >= 4 + Size(Unpack(ntag))
    requires Tidy(log) && Reaches(log, id) && Grain(grain) && IsAttr(gty)
    ensures |log| > 0 && id <= NO_ID
    ensures var r, rest := log[|log| - 1], log[..|log| - 1];
            var start := off - Size(r.tag);
            && Unpack(ntag) == r.tag && 4 <= start && off <= |block|
            && block[start + 4..off] == r.data && |r.data| == DataLen(r.tag)
            && LogAt(block, start, PreviousTag(block, start, ntag), rest) && Tidy(rest)
            && if Class(r.tag.ty) == SPLICE && r.tag.id <= id then
                 if r.tag == Tag(TYPE_CREATE, id, 0) then WalkBack(log, id, grain, gty) == Born
                 else
                   var before := if r.tag.ty == TYPE_CREATE then id - 1 else id + 1;
                   && r.tag.ty / grain != gty / grain && before >= 0 && Reaches(rest, before)
                   && WalkBack(log, id, grain, gty) == WalkBack(rest, before, grain, gty)
               else if r.tag.ty / grain == gty / grain && r.tag.id == id then WalkBack(log, id, grain, gty) == Found(r)
               else Reaches(rest, id) && WalkBack(log, id, grain, gty) == WalkBack(rest, id, grain, gty)
  {
    hide Unpack, Pack, PreviousTag, Replay, LogAt, WalkBack, Matches, Tidy, Reaches, Apply;
    TidyIsProper(log);
    LastRecord(block, off, ntag, log);
    WalkStays(log, id);
    WalkStep(log, id, grain, gty);
  }

  // While the walk has room the log has a record, its tag is the one in hand, and what
  // precedes it is a log again.
  lemma LastRecord(block: seq<byte>, off: nat, ntag: uint32, log: seq<Record>)
    requires ntag < 0x8000_0000 && LogAt(block, off, ntag, log) && off >= 4 + Size(Unpack(ntag))
    ensures |log| > 0
    ensures var r := log[|log| - 1];
            var start := off - Size(r.tag);
            && Unpack(ntag) == r.tag && 4 <= start && off <= |block|
            && block[start + 4..off] == r.data && |r.data| == DataLen(r.tag)
            && LogAt(block, start, PreviousTag(block, start, ntag), log[..|log| - 1])
  {
    hide Pack, Unpack;
    if log != [] {
      UnpackPacked(log[|log| - 1].tag);
    }
  }

  // When it has not, the log is used up.
  lemma LogStart(block: seq<byte>, off: nat, ntag: uint32, log: seq<Record>)
    requires ntag < 0x8000_0000 && LogAt(block, off, ntag, log) && off < 4 + Size(Unpack(ntag))
    ensures log == []
  {
    hide Pack, Unpack;
    if log != [] {
      UnpackPacked(log[|log| - 1].tag);
    }
  }

  /** lfs_dir_get with no id in the mask, as the global state is read: the last record of the type. */
  method GetGlobal(block: seq<byte>, dirOff: nat, etag: uint32, gty: nat, gsize: nat, ghost log: seq<Record>)
    returns (r: Result<(Tag, seq<byte>)>)
    requires LogAt(block, dirOff, Low(etag), log)
    ensures r == var found := LastOfType(log, gty);
                 Answer(found, if found.Some? then found.value.tag.id else 0, gsize)
  {
    hide Low, Unpack, Pack, PreviousTag, LogAt;
    var off, ntag := dirOff, Low(etag);
    ghost var n := |log|;
    assert log[..n] == log;
    while off >= 4 + Size(Unpack(ntag))
      invariant 0 <= n <= |log| && 0 <= off && ntag < 0x8000_0000 && LogAt(block, off, ntag, log[..n])
      invariant LastOfType(log, gty) == LastOfType(log[..n], gty)
      decreases off
    {
      LastRecord(block, off, ntag, log[..n]);
      assert log[..n][..n - 1] == log[..n - 1];
      var tag := Unpack(ntag);
      off := off - Size(tag);
      ntag := PreviousTag(block, off, ntag);
      n := n - 1;
      if tag.ty == gty {
        if tag.len == REMOVED {
          return Err(NoEnt);
        }
        return Ok((tag, Fit(block[off + 4..off + 4 + tag.len], gsize)));
      }
    }
    LogStart(block, off, ntag, log[..n]);
    return Err(NoEnt);
  }
}
