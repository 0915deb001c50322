/** Which records a compaction keeps, and why that is enough
    (littlefs/lfs.cpp, lfs_dir_traverse and lfs_dir_traverse_filter). */
module DirCompact {
  import opened Words
  import opened Tags
  import opened DirLog
  import opened DirScan
  import opened DirUpdate
  import opened Wrappers

  // Names and structs replace any of their class; user attributes only those of their type.
  function KeyGrain(ty: nat): (g: nat)
    ensures g > 0
  {
    if Class(ty) % 2 == 1 then 1 else 256
  }

  // What one later tag does to a record's tag: drops it (None), or moves its id.
  function FilterStep(f: Tag, r: Record): Option<Tag>
    requires Proper(r)
  {
    var t := r.tag;
    if (SameKey(t.ty, f.ty) && t.id == f.id) || f.len == REMOVED || (t.ty == TYPE_DELETE && t.id == f.id) then None
    else if Class(t.ty) == SPLICE && t.id <= f.id then Some(f.(id := f.id + Splice(t.ty)))
    else Some(f)
  }

  // The comparison under the mask that the later tag selects.
  predicate SameKey(t: nat, f: nat) {
    if Class(t) % 2 == 1 then t == f else Class(t) == Class(f)
  }

  /** What becomes of a record under the records that follow it. */
  function Fate(f: Tag, later: seq<Record>): Option<Tag>
    requires ProperLog(later)
  {
    if later == [] then Some(f) else
      var before := Fate(f, later[..|later| - 1]);
      if before.None? then None else FilterStep(before.value, later[|later| - 1])
  }

  /** The inner traversal of lfs_dir_traverse with its filter. */
  method Filter(tag: Tag, later: seq<Record>) returns (r: Option<Tag>)
    requires ProperLog(later)
    ensures r == Fate(tag, later)
  {
    var f := tag;
    assert later[..0] == [];
    for i := 0 to |later|
      invariant Fate(tag, later[..i]) == Some(f)
    {
      assert later[..i + 1][..i] == later[..i];
      var t := later[i].tag;
      // attributes are compared by type, names and structs by class
      var same := if Class(t.ty) % 2 == 1 then t.ty == f.ty else Class(t.ty) == Class(f.ty);
      // replaced, removed or deleted
      if (same && t.id == f.id) || f.len == REMOVED || (t.ty == TYPE_DELETE && t.id == f.id) {
        FateStaysNone(tag, later, i + 1);
        return None;
      }
      // an entry in front came or went
      if Class(t.ty) == SPLICE && t.id <= f.id {
        f := f.(id := f.id + Splice(t.ty));
      }
    }
    assert later[..|later|] == later;
    return Some(f);
  }

  lemma {:induction false} FateStaysNone(f: Tag, later: seq<Record>, k: nat)
    requires k <= |later| && ProperLog(later) && Fate(f, later[..k]).None?
    ensures Fate(f, later).None?
    decreases |later|
  {
    if k == |later| {
      assert later[..k] == later;
    } else {
      assert later[..|later| - 1][..k] == later[..k];
      FateStaysNone(f, later[..|later| - 1], k);
    }
  }

  lemma SameKeyMatches(r: Record, f: nat)
    ensures SameKey(r.tag.ty, f) <==> Matches(r, KeyGrain(f), f)
    ensures SameKey(r.tag.ty, f) ==> Class(r.tag.ty) == Class(f)
  {
  }

  // One step of the filter undoes one step of the walk: here is where the tag can have come from.
  lemma StepIsWalk(f: Tag, g: Option<Tag>, r: Record, rest: seq<Record>, J: nat, grain: nat)
    requires Proper(r) && IsAttr(f.ty) && f.len != REMOVED && grain > 0
    requires SameKey(r.tag.ty, f.ty) <==> Matches(r, grain, f.ty)
    requires SameKey(r.tag.ty, f.ty) ==> Class(r.tag.ty) == Class(f.ty)
    requires g.Some? ==> g.value == f.(id := g.value.id)
    requires g == Some(f.(id := J)) <==> WalkBack(rest, J, grain, f.ty) == At(f.id)
    requires g == Some(f.(id := J + 1)) <==> WalkBack(rest, J + 1, grain, f.ty) == At(f.id)
    requires J > 0 ==> (g == Some(f.(id := J - 1)) <==> WalkBack(rest, J - 1, grain, f.ty) == At(f.id))
    ensures (g.Some? && FilterStep(g.value, r) == Some(f.(id := J)))
            <==> WalkBack(rest + [r], J, grain, f.ty) == At(f.id)
  {
    hide Matches, SameKey;
    assert (rest + [r])[..|rest|] == rest;
    var t := r.tag;
    if t.ty == TYPE_CREATE {
    } else if t.ty == TYPE_DELETE {
    } else {
      assert Class(t.ty) != SPLICE;
    }
  }

  /** The filter is the backward walk run forwards: a record survives under id J exactly if a walk
      for its kind from id J gets past everything that follows it, to the id it was written under. */
  lemma {:induction false} FateIsWalk(f: Tag, later: seq<Record>, J: nat)
    requires ProperLog(later) && IsAttr(f.ty) && f.len != REMOVED
    ensures Fate(f, later) == Some(f.(id := J)) <==> WalkBack(later, J, KeyGrain(f.ty), f.ty) == At(f.id)
    decreases |later|
  {
    if later != [] {
      var r, rest := later[|later| - 1], later[..|later| - 1];
      assert later == rest + [r];
      SameKeyMatches(r, f.ty);
      FateKeepsKind(f, rest);
      FateIsWalk(f, rest, J);
      FateIsWalk(f, rest, J + 1);
      if J > 0 {
        FateIsWalk(f, rest, J - 1);
      }
      StepIsWalk(f, Fate(f, rest), r, rest, J, KeyGrain(f.ty));
    }
  }

  lemma {:induction false} FateKeepsKind(f: Tag, later: seq<Record>)
    requires ProperLog(later)
    ensures Fate(f, later).Some? ==> Fate(f, later).value == f.(id := Fate(f, later).value.id)
    ensures f.len == REMOVED && later != [] ==> Fate(f, later).None?
  {
    if later != [] {
      FateKeepsKind(f, later[..|later| - 1]);
    }
  }

  /* What a compaction writes */

  // The record at k as it is written for the entries [begin, end), if it is.
  function EmittedAt(log: seq<Record>, k: nat, begin: nat, end: nat): Option<Record>
    requires ProperLog(log) && k < |log|
  {
    var r := log[k];
    if r.tag.ty >= 0x400 then None else
      var fate := Fate(r.tag, log[k + 1..]);
      if fate.None? || !(begin <= fate.value.id < end) then None
      else Some(Record(fate.value.(id := fate.value.id - begin), r.data))
  }

  // What the first k records of a log contribute.
  function Emitted(log: seq<Record>, k: nat, begin: nat, end: nat): seq<Record>
    requires ProperLog(log) && k <= |log|
  {
    if k == 0 then [] else
      var rest, e := Emitted(log, k - 1, begin, end), EmittedAt(log, k - 1, begin, end);
      if e.None? then rest else rest + [e.value]
  }

  function Compacted(log: seq<Record>, begin: nat, end: nat): seq<Record>
    requires ProperLog(log)
  {
    Emitted(log, |log|, begin, end)
  }

  /** lfs_dir_traverse as lfs_dir_compact calls it: all records it hands to its callback. */
  method Traverse(log: seq<Record>, begin: nat, end: nat) returns (out: seq<Record>)
    requires ProperLog(log)
    ensures out == Compacted(log, begin, end)
  {
    hide Fate, Proper;
    out := [];
    for k := 0 to |log|
      invariant out == Emitted(log, k, begin, end)
    {
      var tag := log[k].tag;
      // names, structs and attributes only
      if tag.ty < 0x400 {
        // what the later records leave of it
        var kept := Filter(tag, log[k + 1..]);
        // among the entries asked for?
        if kept.Some? && begin <= kept.value.id < end {
          out := out + [Record(kept.value.(id := kept.value.id - begin), log[k].data)];
        }
      }
    }
  }

  // What a lookup makes of a record: removals count as missing, and ids are the caller's.
  function Means(found: Option<Record>): Option<(nat, seq<byte>)> {
    if found.None? || found.value.tag.len == REMOVED then None else Some((found.value.tag.ty, found.value.data))
  }

  // The value an entry has for a kind of record.
  function Value(log: seq<Record>, id: nat, ty: nat): Option<(nat, seq<byte>)> {
    Means(LastMatch(Nth(Replay(log), id), KeyGrain(ty), ty))
  }

  lemma {:induction false} WalkSameKey(log: seq<Record>, id: nat, grain: nat, ty: nat, ty': nat)
    requires grain > 0 && ty / grain == ty' / grain
    ensures WalkBack(log, id, grain, ty) == WalkBack(log, id, grain, ty')
    decreases |log|
  {
    if log != [] {
      var rest := log[..|log| - 1];
      WalkSameKey(rest, id, grain, ty, ty');
      WalkSameKey(rest, id + 1, grain, ty, ty');
      if id > 0 {
        WalkSameKey(rest, id - 1, grain, ty, ty');
      }
    }
  }

  lemma KeyOfMatch(r: Record, ty: nat)
    requires Matches(r, KeyGrain(ty), ty) && IsAttr(ty)
    ensures KeyGrain(r.tag.ty) == KeyGrain(ty) && IsAttr(r.tag.ty)
  {
  }

  // Records about the first n entries.
  ghost predicate AboutEntries(out: seq<Record>, n: int) {
    forall i :: 0 <= i < |out| ==> Proper(out[i]) && IsAttr(out[i].tag.ty) && out[i].tag.id < n
  }

  lemma {:induction false} EmittedProper(log: seq<Record>, k: nat, begin: nat, end: nat)
    requires ProperLog(log) && k <= |log| && end <= NO_ID
    ensures AboutEntries(Emitted(log, k, begin, end), end - begin)
  {
    if k > 0 {
      EmittedProper(log, k - 1, begin, end);
      OneEmittedProper(log, k - 1, begin, end);
      var e := EmittedAt(log, k - 1, begin, end);
      if e.Some? {
        OneMore(Emitted(log, k - 1, begin, end), e.value, end - begin);
      }
    }
  }

  lemma OneMore(rest: seq<Record>, r: Record, n: int)
    requires AboutEntries(rest, n) && Proper(r) && IsAttr(r.tag.ty) && r.tag.id < n
    ensures AboutEntries(rest + [r], n)
  {
  }

  lemma OneEmittedProper(log: seq<Record>, k: nat, begin: nat, end: nat)
    requires ProperLog(log) && k < |log| && end <= NO_ID
    ensures var e := EmittedAt(log, k, begin, end);
            e.Some? ==> Proper(e.value) && IsAttr(e.value.tag.ty) && e.value.tag.id < end - begin
  {
    hide Fate;
    assert Proper(log[k]);
    FateKeepsKind(log[k].tag, log[k + 1..]);
  }

  // A record reaches the compacted log, as the newest of its kind in its entry, exactly when
  // the walk from that entry finds it.
  lemma EmittedIsFound(log: seq<Record>, k: nat, begin: nat, end: nat, j: nat, ty: nat)
    requires ProperLog(log) && k < |log| && begin + j < end && IsAttr(ty)
    ensures var grain, r, later, e := KeyGrain(ty), log[k], log[k + 1..], EmittedAt(log, k, begin, end);
            var onward := WalkBack(later, begin + j, grain, ty);
            var hit := onward == At(r.tag.id) && IsAttr(r.tag.ty) && Matches(r, grain, ty);
            var kept := e.Some? && e.value.tag.id == j && Matches(e.value, grain, ty);
            && (e.Some? ==> e.value.tag.ty == r.tag.ty && e.value.tag.len == r.tag.len && e.value.data == r.data)
            && (r.tag.len != REMOVED ==> (kept <==> hit)) && (kept ==> hit)
  {
    var grain, r, later, e := KeyGrain(ty), log[k], log[k + 1..], EmittedAt(log, k, begin, end);
    assert Proper(r);
    FateKeepsKind(r.tag, later);
    if Matches(r, grain, ty) {
      KeyOfMatch(r, ty);
      if r.tag.len != REMOVED {
        FateIsWalk(r.tag, later, begin + j);
        WalkSameKey(later, begin + j, grain, ty, r.tag.ty);
      }
    }
  }

  // What the walk finds in the first part of a log, coming from its end.
  function SoFar(before: seq<Record>, later: seq<Record>, id: nat, grain: nat, ty: nat): Option<(nat, seq<byte>)>
    requires grain > 0
  {
    var onward := WalkBack(later, id, grain, ty);
    if onward.At? then Means(Outcome(WalkBack(before, onward.id, grain, ty))) else None
  }

  lemma {:induction false} CompactedSoFar(log: seq<Record>, k: nat, begin: nat, end: nat, j: nat, ty: nat)
    requires ProperLog(log) && k <= |log| && begin + j < end <= NO_ID && IsAttr(ty)
    ensures Value(Emitted(log, k, begin, end), j, ty) == SoFar(log[..k], log[k..], begin + j, KeyGrain(ty), ty)
  {
    hide *;
    if k == 0 {
      NothingSoFar(log, begin, end, j, ty);
    } else {
      CompactedSoFar(log, k - 1, begin, end, j, ty);
      EmittedValue(log, k, begin, end, j, ty);
      OneMoreSoFar(log, k, begin, end, j, ty);
    }
  }

  lemma NothingSoFar(log: seq<Record>, begin: nat, end: nat, j: nat, ty: nat)
    requires ProperLog(log)
    ensures Value(Emitted(log, 0, begin, end), j, ty) == None == SoFar(log[..0], log[0..], begin + j, KeyGrain(ty), ty)
  {
    hide KeyGrain, ProperLog;
    assert log[..0] == [];
  }

  lemma OneMoreSoFar(log: seq<Record>, k: nat, begin: nat, end: nat, j: nat, ty: nat)
    requires ProperLog(log) && 0 < k <= |log| && begin + j < end && IsAttr(ty)
    ensures var e := EmittedAt(log, k - 1, begin, end);
            SoFar(log[..k], log[k..], begin + j, KeyGrain(ty), ty)
            == if e.Some? && e.value.tag.id == j && Matches(e.value, KeyGrain(ty), ty) then Means(e)
               else SoFar(log[..k - 1], log[k - 1..], begin + j, KeyGrain(ty), ty)
  {
    var r, e := log[k - 1], EmittedAt(log, k - 1, begin, end);
    assert Proper(r);
    hide *;
    EmittedIsFound(log, k - 1, begin, end, j, ty);
    CutBefore(log, k);
    CompactedStep(log[..k - 1], r, log[k..], begin + j, j, KeyGrain(ty), ty, e);
  }

  lemma CutBefore(log: seq<Record>, k: nat)
    requires 0 < k <= |log|
    ensures log[k - 1..] == [log[k - 1]] + log[k..] && log[..k] == log[..k - 1] + [log[k - 1]]
  {
  }

  lemma CompactedStep(before: seq<Record>, r: Record, later: seq<Record>, id: nat, j: nat, grain: nat, ty: nat,
                      e: Option<Record>)
    requires Proper(r) && grain > 0
    requires var hit := WalkBack(later, id, grain, ty) == At(r.tag.id) && IsAttr(r.tag.ty) && Matches(r, grain, ty);
             var kept := e.Some? && e.value.tag.id == j && Matches(e.value, grain, ty);
             && (e.Some? ==> e.value.tag.ty == r.tag.ty && e.value.tag.len == r.tag.len && e.value.data == r.data)
             && (r.tag.len != REMOVED ==> (kept <==> hit)) && (kept ==> hit)
    ensures SoFar(before + [r], later, id, grain, ty)
            == if e.Some? && e.value.tag.id == j && Matches(e.value, grain, ty) then Means(e)
               else SoFar(before, [r] + later, id, grain, ty)
  {
    hide WalkBack, Matches, IsAttr, Proper;
    var onward := WalkBack(later, id, grain, ty);
    WalkInParts([r], later, id, grain, ty);
    if onward.At? {
      WalkInParts(before, [r], onward.id, grain, ty);
      WalkOne(r, onward.id, grain, ty);
    }
  }

  // One more emitted record, as lookups see it.
  lemma EmittedValue(log: seq<Record>, k: nat, begin: nat, end: nat, j: nat, ty: nat)
    requires ProperLog(log) && 0 < k <= |log| && end <= NO_ID
    ensures var e, rest := EmittedAt(log, k - 1, begin, end), Emitted(log, k - 1, begin, end);
            Value(Emitted(log, k, begin, end), j, ty)
            == if e.Some? && e.value.tag.id == j && Matches(e.value, KeyGrain(ty), ty) then Means(e)
              else Value(rest, j, ty)
  {
    var e, rest := EmittedAt(log, k - 1, begin, end), Emitted(log, k - 1, begin, end);
    EmittedProper(log, k, begin, end);
    if e.Some? {
      var out := rest + [e.value];
      assert out == Emitted(log, k, begin, end) && out[..|out| - 1] == rest && out[|out| - 1] == e.value;
      NthOfApply(Replay(rest), e.value, j);
      LastMatchOfAppend(Nth(Replay(rest), j), e.value, KeyGrain(ty), ty);
    }
  }

  lemma WalkOne(r: Record, id: nat, grain: nat, ty: nat)
    requires grain > 0 && Proper(r)
    ensures var v := WalkBack([r], id, grain, ty);
            (v.Found? <==> IsAttr(r.tag.ty) && r.tag.id == id && Matches(r, grain, ty)) && (v.Found? ==> v.r == r)
  {
    assert [r][..0] == [];
  }

  /** Compaction keeps what a directory means: entry j of the compacted log has, for every kind of
      record, the value that entry begin + j of the original has. */
  lemma CompactionKeepsMeaning(log: seq<Record>, begin: nat, end: nat, j: nat, ty: nat)
    requires ProperLog(log) && begin + j < end <= NO_ID && IsAttr(ty)
    ensures Value(Compacted(log, begin, end), j, ty) == Value(log, begin + j, ty)
  {
    hide Emitted, Value, WalkBack, LastMatch, Means, Nth, Replay, ProperLog, KeyGrain, IsAttr;
    CompactedSoFar(log, |log|, begin, end, j, ty);
    SoFarAtEnd(log, begin + j, ty);
  }

  /** So lookups by class for names and structs, and by type for user attributes, find what they found. */
  lemma CompactionKeepsLookups(log: seq<Record>, begin: nat, end: nat, j: nat, ty: nat)
    requires ProperLog(log) && begin + j < end <= NO_ID
    ensures var was, now := Nth(Replay(log), begin + j), Nth(Replay(Compacted(log, begin, end)), j);
            && (ty < 0x100 || 0x200 <= ty < 0x300 ==>
                  Means(LastMatch(now, 0x100, ty)) == Means(LastMatch(was, 0x100, ty)))
            && (0x300 <= ty < 0x400 ==> Means(LastMatch(now, 1, ty)) == Means(LastMatch(was, 1, ty)))
  {
    hide Compacted, LastMatch, Nth, Replay, Means;
    if IsAttr(ty) {
      CompactionKeepsMeaning(log, begin, end, j, ty);
    }
  }

  // With nothing to come, the value so far is the value.
  lemma SoFarAtEnd(log: seq<Record>, id: nat, ty: nat)
    requires ProperLog(log)
    ensures SoFar(log[..|log|], log[|log|..], id, KeyGrain(ty), ty) == Value(log, id, ty)
  {
    hide KeyGrain, LastMatch, Replay, Nth;
    assert log[|log|..] == [] && log[..|log|] == log;
    BackwardIsForward(log, id, KeyGrain(ty), ty);
  }
}