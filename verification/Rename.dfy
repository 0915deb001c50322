/** Renaming between and within directories, cut short anywhere
    (littlefs/lfs.cpp:3372-3403, 4398-4434; hiding at 542-547 and 986-996). */
module Rename {
  import opened Words
  import opened Tags
  import opened DirLog
  import opened DirCompact
  import opened Wrappers

  // Structs and user attributes move, names do not (the mask 0x600 of lfs.cpp:757-762).
  predicate Moves(r: Record) {
    Class(r.tag.ty) == STRUCT || Class(r.tag.ty) == USERATTR
  }

  function Readdress(rs: seq<Record>, id: nat): seq<Record> {
    if rs == [] then [] else
      var rest, r := Readdress(rs[..|rs| - 1], id), rs[|rs| - 1];
      if Moves(r) then rest + [r.(tag := r.tag.(id := id))] else rest
  }

  /** What LFS_FROM_MOVE stands for: the records that make up an entry, under another id. */
  function FromMove(log: seq<Record>, fromId: nat, toId: nat): seq<Record>
    requires ProperLog(log)
  {
    Readdress(Compacted(log, fromId, fromId + 1), toId)
  }

  // A history given records of its own entry.
  lemma {:induction false} ReplayOwn(log: seq<Record>, rs: seq<Record>, id: nat)
    requires AboutOne(rs, id) && id < |Replay(log)|
    ensures Replay(log + rs) == Replay(log)[id := Replay(log)[id] + rs]
  {
    hide Replay, Apply;
    if rs == [] {
      assert log + rs == log && Replay(log)[id] + rs == Replay(log)[id];
    } else {
      var rest, r := rs[..|rs| - 1], rs[|rs| - 1];
      assert AboutOne(rest, id) && IsAttr(r.tag.ty) && r.tag.id == id && rs == rest + [r];
      hide *;
      ReplayOwn(log, rest, id);
      OneMoreOwn(log, rest, r, id);
    }
  }

  ghost predicate AboutOne(rs: seq<Record>, id: nat) {
    forall i :: 0 <= i < |rs| ==> IsAttr(rs[i].tag.ty) && rs[i].tag.id == id
  }

  lemma OneMoreOwn(log: seq<Record>, rest: seq<Record>, r: Record, id: nat)
    requires IsAttr(r.tag.ty) && r.tag.id == id < |Replay(log)|
    requires Replay(log + rest) == Replay(log)[id := Replay(log)[id] + rest]
    ensures Replay(log + (rest + [r])) == Replay(log)[id := Replay(log)[id] + (rest + [r])]
  {
    ReplaySnoc(log + rest, r);
    ApplyOwn(Replay(log + rest), r);
    hide Replay, Apply, IsAttr;
    var h := Replay(log)[id];
    assert log + rest + [r] == log + (rest + [r]) && h + rest + [r] == h + (rest + [r]);
  }

  lemma ApplyOwn(es: seq<History>, r: Record)
    requires IsAttr(r.tag.ty) && r.tag.id < |es|
    ensures Apply(es, r) == es[r.tag.id := es[r.tag.id] + [r]]
  {
  }

  lemma {:induction false} ReaddressOwn(rs: seq<Record>, id: nat)
    ensures forall i :: 0 <= i < |Readdress(rs, id)| ==>
              Moves(Readdress(rs, id)[i]) && Readdress(rs, id)[i].tag.id == id
    ensures id < NO_ID && (forall i :: 0 <= i < |rs| ==> Proper(rs[i])) ==>
              forall i :: 0 <= i < |Readdress(rs, id)| ==> Proper(Readdress(rs, id)[i])
  {
    if rs != [] {
      ReaddressOwn(rs[..|rs| - 1], id);
      assert (forall i :: 0 <= i < |rs| ==> Proper(rs[i])) ==> Proper(rs[|rs| - 1]);
    }
  }

  // Moving keeps the newest record of every kind that moves.
  lemma {:induction false} ReaddressKeeps(rs: seq<Record>, id: nat, head: seq<Record>, ty: nat)
    requires AboutEntries(rs, 1) && (Class(ty) == STRUCT || Class(ty) == USERATTR)
    requires forall i :: 0 <= i < |head| ==> Class(head[i].tag.ty) == NAME
    ensures Means(LastMatch(head + Readdress(rs, id), KeyGrain(ty), ty)) == Value(rs, 0, ty)
  {
    if rs == [] {
      assert head + Readdress(rs, id) == head;
      NamesDoNotMatch(head, ty);
    } else {
      var rest, r := rs[..|rs| - 1], rs[|rs| - 1];
      assert AboutEntries(rest, 1) && Proper(r) && IsAttr(r.tag.ty) && r.tag.id == 0 && rs == rest + [r];
      hide AboutEntries, Replay, LastMatch, KeyGrain, Means, Value, Moves, Class;
      ReaddressKeeps(rest, id, head, ty);
      OneMoved(rest, r, id, head, ty);
    }
  }

  lemma OneMoved(rest: seq<Record>, r: Record, id: nat, head: seq<Record>, ty: nat)
    requires Proper(r) && IsAttr(r.tag.ty) && r.tag.id == 0 && (Class(ty) == STRUCT || Class(ty) == USERATTR)
    requires Means(LastMatch(head + Readdress(rest, id), KeyGrain(ty), ty)) == Value(rest, 0, ty)
    ensures Means(LastMatch(head + Readdress(rest + [r], id), KeyGrain(ty), ty)) == Value(rest + [r], 0, ty)
  {
    hide Replay, LastMatch, KeyGrain, Means, Proper, Apply, Nth;
    ReplaySnoc(rest, r);
    NthOfApply(Replay(rest), r, 0);
    LastMatchOfAppend(Nth(Replay(rest), 0), r, KeyGrain(ty), ty);
    var moved := r.(tag := r.tag.(id := id));
    LastMatchOfAppend(head + Readdress(rest, id), moved, KeyGrain(ty), ty);
    MovedMatches(r, moved, ty);
    ReaddressSnoc(rest, r, id);
    hide Matches, Readdress;
    assert Moves(r) ==> head + (Readdress(rest, id) + [moved]) == head + Readdress(rest, id) + [moved];
    OneMeans(r, moved);
  }

  lemma OneMeans(r: Record, moved: Record)
    requires moved == r.(tag := r.tag.(id := moved.tag.id))
    ensures Means(Some(moved)) == Means(Some(r))
  {
  }

  lemma MovedMatches(r: Record, moved: Record, ty: nat)
    requires (Class(ty) == STRUCT || Class(ty) == USERATTR) && moved == r.(tag := r.tag.(id := moved.tag.id))
    requires IsAttr(r.tag.ty)
    ensures Matches(moved, KeyGrain(ty), ty) == Matches(r, KeyGrain(ty), ty)
    ensures Matches(r, KeyGrain(ty), ty) ==> Moves(r)
  {
    SameKeyMatches(r, ty);
  }

  lemma ReaddressSnoc(rest: seq<Record>, r: Record, id: nat)
    ensures Readdress(rest + [r], id) == Readdress(rest, id) + if Moves(r) then [r.(tag := r.tag.(id := id))] else []
  {
    assert (rest + [r])[..|rest|] == rest;
  }

  lemma {:induction false} NamesDoNotMatch(head: seq<Record>, ty: nat)
    requires Class(ty) == STRUCT || Class(ty) == USERATTR
    requires forall i :: 0 <= i < |head| ==> Class(head[i].tag.ty) == NAME
    ensures LastMatch(head, KeyGrain(ty), ty) == None
  {
    if head != [] {
      SameKeyMatches(head[|head| - 1], ty);
      NamesDoNotMatch(head[..|head| - 1], ty);
    }
  }

  /* The file system as the disk has it: directory logs, and the pending move */

  datatype Fs = Fs(dirs: map<nat, seq<Record>>, move: Option<(nat, nat)>)

  // A directory as lookups see it: past the pending move's DELETE.
  function Visible(fs: Fs, p: nat): seq<Record>
    requires p in fs.dirs
  {
    fs.dirs[p] + if fs.move.Some? && fs.move.value.0 == p then [DeleteRecord(fs.move.value.1)] else []
  }

  /** The visible tree: the entries of every directory. */
  function Tree(fs: Fs): map<nat, seq<History>> {
    map p | p in fs.dirs :: Replay(Visible(fs, p))
  }

  // What kind of entry it is, a file or a directory, is in the type of its name.
  ghost predicate HasType(log: seq<Record>, id: nat, ty: nat) {
    Value(log, id, TYPE_REG).Some? && Value(log, id, TYPE_REG).value.0 == ty
  }

  lemma TypeIsName(log: seq<Record>, id: nat, ty: nat)
    requires HasType(log, id, ty)
    ensures Class(ty) == NAME
  {
    LastMatchMatches(Nth(Replay(log), id), KeyGrain(TYPE_REG), TYPE_REG);
  }

  lemma {:induction false} LastMatchMatches(h: History, grain: nat, ty: nat)
    requires grain > 0
    ensures LastMatch(h, grain, ty).Some? ==> Matches(LastMatch(h, grain, ty).value, grain, ty)
  {
    if h != [] && !Matches(h[|h| - 1], grain, ty) {
      LastMatchMatches(h[..|h| - 1], grain, ty);
    }
  }

  // An entry renamed: the new name, the type it had, and everything else it had.
  ghost predicate IsRenamed(h: History, name: seq<byte>, log: seq<Record>, id: nat)
    requires ProperLog(log)
  {
    && h != [] && HasType(log, id, h[0].tag.ty) && h[0].data == name
    && (forall i :: 1 <= i < |h| ==> Class(h[i].tag.ty) != NAME)
    && forall ty :: Class(ty) == STRUCT || Class(ty) == USERATTR ==>
         Means(LastMatch(h, KeyGrain(ty), ty)) == Value(log, id, ty)
  }

  // Into another directory: the entry takes its place there, or over what had the name.
  function Inserted(es: seq<History>, id: nat, h: History, over: bool): seq<History>
    requires id + (if over then 1 else 0) <= |es|
  {
    es[..id] + [h] + es[id + if over then 1 else 0..]
  }

  function Without(es: seq<History>, id: nat): seq<History>
    requires id < |es|
  {
    es[..id] + es[id + 1..]
  }

  /** Entry by entry: the new one has its place, and the others stay in order. */
  lemma InsertedEntries(es: seq<History>, id: nat, h: History, over: bool)
    requires id + (if over then 1 else 0) <= |es|
    ensures var r := Inserted(es, id, h, over);
            && |r| == |es| + (if over then 0 else 1) && r[id] == h && (forall i :: 0 <= i < id ==> r[i] == es[i])
            && forall i :: id < i < |r| ==> r[i] == es[if over then i else i - 1]
  {
  }

  lemma WithoutEntries(es: seq<History>, id: nat)
    requires id < |es|
    ensures var r := Without(es, id);
            |r| == |es| - 1 && forall i :: 0 <= i < |r| ==> r[i] == es[if i < id then i else i + 1]
  {
  }

  // Within one directory: the old place closes up.
  function Reordered(es: seq<History>, oldId: nat, newId: nat, h: History, over: bool): seq<History>
    requires oldId < |es| && newId + (if over then 1 else 0) <= |es| && (over ==> newId != oldId)
  {
    var skip := if over then 1 else 0;
    if newId <= oldId then es[..newId] + [h] + es[newId + skip..oldId] + es[oldId + 1..]
    else es[..oldId] + es[oldId + 1..newId] + [h] + es[newId + skip..]
  }

  // The commit to the new directory (lfs.cpp:3377-3385).
  function NewAttrs(log: seq<Record>, oldId: nat, newId: nat, ty: nat, name: seq<byte>, over: bool,
                    alsoDelete: Option<nat>): seq<Record>
    requires ProperLog(log)
  {
    (if over then [DeleteRecord(newId)] else []) + [CreateRecord(newId)] + [NameRecord(ty, newId, name)]
    + FromMove(log, oldId, newId) + (if alsoDelete.Some? then [DeleteRecord(alsoDelete.value)] else [])
  }

  // The entry that the commit makes.
  function NewEntry(log: seq<Record>, oldId: nat, newId: nat, ty: nat, name: seq<byte>): History
    requires ProperLog(log)
  {
    [NameRecord(ty, newId, name)] + FromMove(log, oldId, newId)
  }

  lemma NewEntryIsRenamed(log: seq<Record>, oldId: nat, newId: nat, ty: nat, name: seq<byte>)
    requires ProperLog(log) && oldId < NO_ID && HasType(log, oldId, ty)
    ensures IsRenamed(NewEntry(log, oldId, newId, ty, name), name, log, oldId)
  {
    hide Value, Emitted, Readdress, LastMatch, Means, ProperLog, HasType;
    TypeIsName(log, oldId, ty);
    var head, rs := [NameRecord(ty, newId, name)], Compacted(log, oldId, oldId + 1);
    EmittedProper(log, |log|, oldId, oldId + 1);
    ReaddressOwn(rs, newId);
    forall t | Class(t) == STRUCT || Class(t) == USERATTR
      ensures Means(LastMatch(head + Readdress(rs, newId), KeyGrain(t), t)) == Value(log, oldId, t)
    {
      ReaddressKeeps(rs, newId, head, t);
      CompactionKeepsMeaning(log, oldId, oldId + 1, 0, t);
    }
  }

  lemma ReplaySnoc(log: seq<Record>, r: Record)
    ensures Replay(log + [r]) == Apply(Replay(log), r)
  {
    assert (log + [r])[..|log|] == log;
  }

  lemma ReplayDelete(log: seq<Record>, id: nat)
    requires id < |Replay(log)|
    ensures Replay(log + [DeleteRecord(id)]) == Without(Replay(log), id)
  {
    ReplaySnoc(log, DeleteRecord(id));
  }

  // Create, name and move: one new entry.
  lemma ReplayInsert(log: seq<Record>, id: nat, h: History)
    requires id <= |Replay(log)| && AboutOne(h, id)
    ensures Replay(log + [CreateRecord(id)] + h) == Inserted(Replay(log), id, h, false)
  {
    hide Replay, Apply, AboutOne;
    ReplaySnoc(log, CreateRecord(id));
    CreatedAt(Replay(log), id);
    ReplayOwn(log + [CreateRecord(id)], h, id);
    PutIn(Replay(log), id, h);
  }

  lemma CreatedAt(es: seq<History>, id: nat)
    requires id <= |es|
    ensures Apply(es, CreateRecord(id)) == es[..id] + [[]] + es[id..]
  {
  }

  lemma PutIn(es: seq<History>, id: nat, h: History)
    requires id <= |es|
    ensures var with := es[..id] + [[]] + es[id..];
            id < |with| && with[id := with[id] + h] == Inserted(es, id, h, false)
  {
    assert [] + h == h;
  }

  lemma NewEntryOwn(log: seq<Record>, oldId: nat, newId: nat, ty: nat, name: seq<byte>)
    requires ProperLog(log) && Class(ty) == NAME
    ensures var h := NewEntry(log, oldId, newId, ty, name);
            AboutOne(h, newId)
  {
    hide Readdress, Compacted;
    ReaddressOwn(Compacted(log, oldId, oldId + 1), newId);
  }

  // What the commit to the new directory makes of it.
  lemma ReplayNewAttrs(log: seq<Record>, source: seq<Record>, oldId: nat, newId: nat, ty: nat, name: seq<byte>,
                       over: bool)
    requires ProperLog(source) && Class(ty) == NAME && newId + (if over then 1 else 0) <= |Replay(log)|
    ensures Replay(log + NewAttrs(source, oldId, newId, ty, name, over, None))
            == Inserted(Replay(log), newId, NewEntry(source, oldId, newId, ty, name), over)
  {
    hide Replay, FromMove;
    var h := NewEntry(source, oldId, newId, ty, name);
    NewEntryOwn(source, oldId, newId, ty, name);
    var attrs := NewAttrs(source, oldId, newId, ty, name, over, None);
    if over {
      var cleared := log + [DeleteRecord(newId)];
      ReplayDelete(log, newId);
      ReplayInsert(cleared, newId, h);
      assert log + attrs == cleared + [CreateRecord(newId)] + h;
    } else {
      ReplayInsert(log, newId, h);
      assert log + attrs == log + [CreateRecord(newId)] + h;
    }
  }

  lemma InsertThenRemove(es: seq<History>, oldId: nat, newId: nat, h: History, over: bool)
    requires oldId < |es| && newId + (if over then 1 else 0) <= |es| && (over ==> newId != oldId)
    ensures var at := if !over && newId <= oldId then oldId + 1 else oldId;
            Without(Inserted(es, newId, h, over), at) == Reordered(es, oldId, newId, h, over)
  {
  }

  // Within one directory the same commit also takes the old entry out, under the id it then has.
  lemma ReplaySamePair(log: seq<Record>, oldId: nat, newId: nat, ty: nat, name: seq<byte>, over: bool)
    requires ProperLog(log) && Class(ty) == NAME && oldId < |Replay(log)|
    requires newId + (if over then 1 else 0) <= |Replay(log)| && (over ==> newId != oldId)
    ensures var newOldId := if !over && newId <= oldId then oldId + 1 else oldId;
            Replay(log + NewAttrs(log, oldId, newId, ty, name, over, Some(newOldId)))
            == Reordered(Replay(log), oldId, newId, NewEntry(log, oldId, newId, ty, name), over)
  {
    hide Replay, FromMove;
    var newOldId := if !over && newId <= oldId then oldId + 1 else oldId;
    var most := NewAttrs(log, oldId, newId, ty, name, over, None);
    ReplayNewAttrs(log, log, oldId, newId, ty, name, over);
    ReplayDelete(log + most, newOldId);
    InsertThenRemove(Replay(log), oldId, newId, NewEntry(log, oldId, newId, ty, name), over);
    hide Inserted, Without, Reordered;
    assert log + NewAttrs(log, oldId, newId, ty, name, over, Some(newOldId)) == log + most + [DeleteRecord(newOldId)];
  }

  function Entries(dirs: map<nat, seq<Record>>): map<nat, seq<History>> {
    map p | p in dirs :: Replay(dirs[p])
  }

  /** The tree a rename should lead to. */
  function Renamed(was: map<nat, seq<History>>, oldPair: nat, oldId: nat, newPair: nat, newId: nat, h: History,
                   over: bool)
      : map<nat, seq<History>>
    requires oldPair in was && newPair in was && oldId < |was[oldPair]|
    requires newId + (if over then 1 else 0) <= |was[newPair]| && !(oldPair == newPair && over && newId == oldId)
  {
    if oldPair == newPair then was[oldPair := Reordered(was[oldPair], oldId, newId, h, over)]
    else was[newPair := Inserted(was[newPair], newId, h, over)][oldPair := Without(was[oldPair], oldId)]
  }

  // Both commits of a rename across directories, as changes of the entries.
  lemma EntriesAcross(dirs: map<nat, seq<Record>>, oldPair: nat, oldId: nat, newPair: nat, newId: nat, ty: nat,
                      name: seq<byte>, over: bool)
    requires oldPair in dirs && newPair in dirs && oldPair != newPair
    requires ProperLog(dirs[oldPair]) && oldId < |Replay(dirs[oldPair])| && Class(ty) == NAME
    requires newId + (if over then 1 else 0) <= |Replay(dirs[newPair])|
    ensures var attrs, h := NewAttrs(dirs[oldPair], oldId, newId, ty, name, over, None),
            NewEntry(dirs[oldPair], oldId, newId, ty, name);
            Entries(dirs[newPair := dirs[newPair] + attrs][oldPair := dirs[oldPair] + [DeleteRecord(oldId)]])
            == Renamed(Entries(dirs), oldPair, oldId, newPair, newId, h, over)
  {
    hide Replay, NewAttrs, NewEntry, Inserted, Without;
    ReplayNewAttrs(dirs[newPair], dirs[oldPair], oldId, newId, ty, name, over);
    ReplayDelete(dirs[oldPair], oldId);
  }

  class Volume {
    var dirs: map<nat, seq<Record>>
    var gdisk: Option<(nat, nat)>   // the pending move on the disk
    var gstate: Option<(nat, nat)>  // and in memory
    ghost var seen: seq<map<nat, seq<History>>> // the visible tree after every commit so far

    function OnDisk(): Fs
      reads this
    {
      Fs(dirs, gdisk)
    }

    // A commit is atomic, and the change of global state goes with it (TornAppend and TornCompaction, with
    // the stored difference); or it fails and leaves everything as it was.
    method Commit(p: nat, attrs: seq<Record>, fails: bool) returns (ok: bool)
      requires p in dirs
      modifies this
      ensures ok == !fails && gstate == old(gstate)
      ensures ok ==>
                dirs == old(dirs)[p := old(dirs)[p] + attrs] && gdisk == gstate
                && seen == old(seen) + [Tree(OnDisk())]
      ensures !ok ==> dirs == old(dirs) && gdisk == old(gdisk) && seen == old(seen)
    {
      ok := !fails;
      if ok {
        dirs := dirs[p := dirs[p] + attrs];
        gdisk := gstate;
        seen := seen + [Tree(OnDisk())];
      }
    }

    /** lfs_rename from its first commit on, each commit of which may fail. Power may be lost between any two
        commits: whatever is on the disk then, the visible tree is the old one or the new one. A first commit
        that fails leaves the move prepared in memory, a second one leaves it pending on the disk. */
    method Rename(oldPair: nat, oldId: nat, newPair: nat, newId: nat, ty: nat, name: seq<byte>, over: bool,
                  fails1: bool, fails2: bool)
      returns (ok: bool, ghost h: History)
      requires oldPair in dirs && newPair in dirs && gdisk == gstate == None
      requires ProperLog(dirs[oldPair]) && oldId < |Replay(dirs[oldPair])| && oldId < NO_ID
      requires HasType(dirs[oldPair], oldId, ty)
      requires newId + (if over then 1 else 0) <= |Replay(dirs[newPair])|
      modifies this
      ensures IsRenamed(h, name, old(dirs[oldPair]), oldId) && Tree(old(OnDisk())) == Entries(old(dirs))
      ensures var self := oldPair == newPair && over && newId == oldId;
              && ok == (self || (!fails1 && (oldPair == newPair || !fails2)))
              && gdisk == (if !fails1 && fails2 && oldPair != newPair then Some((oldPair, oldId)) else None)
              && gstate == (if fails1 && oldPair != newPair then Some((oldPair, oldId)) else None)
              && if self || fails1 then dirs == old(dirs) && seen == old(seen)
                 else
                   var renamed := Renamed(Entries(old(dirs)), oldPair, oldId, newPair, newId, h, over);
                   && Tree(OnDisk()) == renamed && dirs.Keys == old(dirs.Keys)
                   && |seen| > |old(seen)| && seen[..|old(seen)|] == old(seen)
                   && forall k :: |old(seen)| <= k < |seen| ==> seen[k] == renamed
    {
      hide Replay, NewAttrs, NewEntry, IsRenamed, Tree, Renamed, Entries, HasType;
      NewEntryIsRenamed(dirs[oldPair], oldId, newId, ty, name);
      h := NewEntry(dirs[oldPair], oldId, newId, ty, name);
      NoDelete(dirs);
      var samePair := oldPair == newPair;
      if samePair && over && newId == oldId {
        // the entry has the name already
        return true, h;
      }
      if samePair {
        ok := RenameWithin(oldPair, oldId, newId, ty, name, over, fails1);
      } else {
        ok := RenameAcross(oldPair, oldId, newPair, newId, ty, name, over, fails1, fails2);
      }
    }

    method RenameWithin(pair: nat, oldId: nat, newId: nat, ty: nat, name: seq<byte>, over: bool, fails: bool)
      returns (ok: bool)
      requires pair in dirs && gdisk == gstate == None && !(over && newId == oldId)
      requires ProperLog(dirs[pair]) && oldId < |Replay(dirs[pair])| && oldId < NO_ID
      requires HasType(dirs[pair], oldId, ty)
      requires newId + (if over then 1 else 0) <= |Replay(dirs[pair])|
      modifies this
      ensures gdisk == gstate == None && ok == !fails && (!ok ==> dirs == old(dirs) && seen == old(seen))
      ensures var h := NewEntry(old(dirs[pair]), oldId, newId, ty, name);
              ok ==> Tree(OnDisk()) == Renamed(Entries(old(dirs)), pair, oldId, pair, newId, h, over)
      ensures dirs.Keys == old(dirs.Keys) && (ok ==> seen == old(seen) + [Tree(OnDisk())])
    {
      hide Replay, NewAttrs, NewEntry, HasType;
      TypeIsName(dirs[pair], oldId, ty);
      // a new entry in front moves the old one on
      var newOldId := if !over && newId <= oldId then oldId + 1 else oldId;
      ReplaySamePair(dirs[pair], oldId, newId, ty, name, over);
      var attrs := NewAttrs(dirs[pair], oldId, newId, ty, name, over, Some(newOldId));
      // the old entry goes with the same commit
      ok := Commit(pair, attrs, fails);
      NoDelete(dirs);
    }

    method RenameAcross(oldPair: nat, oldId: nat, newPair: nat, newId: nat, ty: nat, name: seq<byte>, over: bool,
                        fails1: bool, fails2: bool)
      returns (ok: bool)
      requires oldPair in dirs && newPair in dirs && gdisk == gstate == None && oldPair != newPair
      requires ProperLog(dirs[oldPair]) && oldId < |Replay(dirs[oldPair])| && oldId < NO_ID
      requires HasType(dirs[oldPair], oldId, ty)
      requires newId + (if over then 1 else 0) <= |Replay(dirs[newPair])|
      modifies this
      ensures ok == (!fails1 && !fails2)
      ensures gdisk == if !fails1 && fails2 then Some((oldPair, oldId)) else None
      ensures gstate == if fails1 then Some((oldPair, oldId)) else None
      ensures fails1 ==> dirs == old(dirs) && seen == old(seen)
      ensures var h := NewEntry(old(dirs[oldPair]), oldId, newId, ty, name);
              !fails1 ==> Tree(OnDisk()) == Renamed(Entries(old(dirs)), oldPair, oldId, newPair, newId, h, over)
      ensures dirs.Keys == old(dirs.Keys)
      ensures !fails1 ==> seen == old(seen) + (if fails2 then [Tree(OnDisk())] else [Tree(OnDisk()), Tree(OnDisk())])
    {
      hide Replay, NewAttrs, NewEntry, Tree, Entries, Renamed, HasType;
      TypeIsName(dirs[oldPair], oldId, ty);
      gstate := Some((oldPair, oldId));
      var attrs := NewAttrs(dirs[oldPair], oldId, newId, ty, name, over, None);
      EntriesAcross(dirs, oldPair, oldId, newPair, newId, ty, name, over);
      ok := Commit(newPair, attrs, fails1);
      if ok {
        ghost var between := OnDisk();
        // the same commit that deletes the old entry clears the move
        gstate := None;
        ok := Commit(oldPair, [DeleteRecord(oldId)], fails2);
        CarriedOut(between);
        NoDelete(between.dirs[oldPair := between.dirs[oldPair] + [DeleteRecord(oldId)]]);
      }
    }

    /** After a rename whose first commit failed, the next commit of anything stores the prepared move along with
        it: the tree is then what it should be exactly if the rename stayed in its directory, or the old place
        has gone. */
    method FirstFailsThenCommit(oldPair: nat, oldId: nat, newPair: nat, newId: nat, ty: nat, name: seq<byte>,
                                over: bool, p: nat, attrs: seq<Record>)
      requires oldPair in dirs && newPair in dirs && gdisk == gstate == None && p in dirs
      requires ProperLog(dirs[oldPair]) && oldId < |Replay(dirs[oldPair])| && oldId < NO_ID
      requires HasType(dirs[oldPair], oldId, ty)
      requires newId + (if over then 1 else 0) <= |Replay(dirs[newPair])|
      modifies this
      ensures dirs == old(dirs)[p := old(dirs)[p] + attrs]
      ensures Tree(OnDisk()) == Entries(dirs) <==> oldPair == newPair || oldId >= |Replay(dirs[oldPair])|
    {
      hide Replay, NewAttrs, NewEntry, IsRenamed, Tree, Renamed, Entries, HasType;
      var _, _ := Rename(oldPair, oldId, newPair, newId, ty, name, over, true, false);
      var _ := Commit(p, attrs, false);
      NoDelete(dirs);
      StrayMove(dirs, oldPair, oldId);
    }

    /** After one whose second commit failed, a commit that does not carry the pending move out first, as syncing a
        file does not, clears it: the old entry is back, unless its place has gone. */
    method SecondFailsThenCommit(oldPair: nat, oldId: nat, newPair: nat, newId: nat, ty: nat, name: seq<byte>,
                                 over: bool, p: nat, attrs: seq<Record>)
      requires oldPair in dirs && newPair in dirs && gdisk == gstate == None && p in dirs && oldPair != newPair
      requires ProperLog(dirs[oldPair]) && oldId < |Replay(dirs[oldPair])| && oldId < NO_ID
      requires HasType(dirs[oldPair], oldId, ty)
      requires newId + (if over then 1 else 0) <= |Replay(dirs[newPair])|
      modifies this
      ensures Tree(OnDisk()) == Entries(dirs) && oldPair in dirs
      ensures Tree(OnDisk()) == Tree(Fs(dirs, Some((oldPair, oldId)))) <==> oldId >= |Replay(dirs[oldPair])|
    {
      hide Replay, NewAttrs, NewEntry, IsRenamed, Tree, Renamed, Entries, HasType;
      var _, _ := Rename(oldPair, oldId, newPair, newId, ty, name, over, false, true);
      var _ := Commit(p, attrs, false);
      NoDelete(dirs);
      StrayMove(dirs, oldPair, oldId);
    }

    /** lfs_fs_demove, the first thing done after a mount: what was pending is carried out, and nothing
        that can be seen changes. */
    method Demove()
      requires gdisk.Some? ==> gdisk.value.0 in dirs
      modifies this
      ensures gdisk.None? && Tree(OnDisk()) == Tree(old(OnDisk()))
      ensures old(gdisk).Some? ==> dirs == old(dirs)[old(gdisk).value.0 := Visible(old(OnDisk()), old(gdisk).value.0)]
      ensures forall k :: |old(seen)| <= k < |seen| ==> seen[k] == Tree(old(OnDisk()))
      ensures |seen| >= |old(seen)|
    {
      if gdisk.None? {
        return;
      }
      hide Replay;
      var pair, moveId := gdisk.value.0, gdisk.value.1;
      gstate := None;
      CarriedOut(OnDisk());
      var _ := Commit(pair, [DeleteRecord(moveId)], false);
    }
  }

  // A pending move that should not be there, or is missing, is seen exactly if there is an entry in the place.
  lemma StrayMove(dirs: map<nat, seq<Record>>, p: nat, id: nat)
    requires p in dirs
    ensures Tree(Fs(dirs, Some((p, id)))) == Tree(Fs(dirs, None)) <==> id >= |Replay(dirs[p])|
  {
    var with, without, d := Fs(dirs, Some((p, id))), Fs(dirs, None), DeleteRecord(id);
    ReplaySnoc(dirs[p], d);
    assert Visible(with, p) == dirs[p] + [d] && Visible(without, p) == dirs[p];
    if id < |Replay(dirs[p])| {
      assert |Replay(Visible(with, p))| == |Replay(dirs[p])| - 1;
      assert Tree(with)[p] != Tree(without)[p];
    } else {
      hide Replay;
      forall q | q in dirs
        ensures Tree(with)[q] == Tree(without)[q]
      {
        assert q != p ==> Visible(with, q) == Visible(without, q);
      }
    }
  }

  // Carrying out a pending move changes nothing that can be seen.
  lemma CarriedOut(fs: Fs)
    requires fs.move.Some? && fs.move.value.0 in fs.dirs
    ensures var p := fs.move.value.0;
            Tree(Fs(fs.dirs[p := fs.dirs[p] + [DeleteRecord(fs.move.value.1)]], None)) == Tree(fs)
  {
    var p := fs.move.value.0;
    var after := Fs(fs.dirs[p := fs.dirs[p] + [DeleteRecord(fs.move.value.1)]], None);
    forall q | q in fs.dirs
      ensures Visible(after, q) == Visible(fs, q)
    {
    }
  }

  lemma NoDelete(dirs: map<nat, seq<Record>>)
    ensures Tree(Fs(dirs, None)) == Entries(dirs)
  {
    forall p | p in dirs
      ensures Visible(Fs(dirs, None), p) == dirs[p]
    {
    }
  }
}