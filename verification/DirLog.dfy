/** What a directory log means: its records replayed forwards into entries, and
    the backward walk that lookups take instead (littlefs/lfs.cpp, lfs_dir_getslice). */
module DirLog {
  import opened Words
  import opened Tags
  import opened Wrappers

  // Everything written to one entry, oldest first.
  type History = seq<Record>

  // Records about entries: names, structs and attributes.
  predicate IsAttr(ty: nat) {
    Class(ty) == NAME || Class(ty) == STRUCT || Class(ty) == USERATTR
  }

  predicate IsGlobal(ty: nat) {
    Class(ty) == CRC || Class(ty) == TAIL || Class(ty) == GLOBALS
  }

  // What commits write: splices without data, attributes with an id, and the rest without.
  predicate Proper(r: Record) {
    && ValidRecord(r)
    && (Class(r.tag.ty) == SPLICE ==> (r.tag.ty == TYPE_CREATE || r.tag.ty == TYPE_DELETE) && r.tag.len == 0)
    && (Class(r.tag.ty) == SPLICE || IsAttr(r.tag.ty) ==> r.tag.id != NO_ID)
    && Class(r.tag.ty) != FROM
    && (IsGlobal(r.tag.ty) ==> r.tag.id == NO_ID)
  }

  ghost predicate ProperLog(log: seq<Record>) {
    forall i :: 0 <= i < |log| ==> Proper(log[i])
  }

  /* Forward replay */

  // Make sure entry n - 1 exists; ids may be used before they are created (compacted logs
  // have no CREATE records).
  function Pad(es: seq<History>, n: nat): seq<History> {
    if |es| < n then es + seq(n - |es|, _ => []) else es
  }

  function Apply(es: seq<History>, r: Record): seq<History> {
    var id := r.tag.id;
    if r.tag.ty == TYPE_CREATE then
      var p := Pad(es, id);
      p[..id] + [[]] + p[id..]
    else if r.tag.ty == TYPE_DELETE then
      if id < |es| then es[..id] + es[id + 1..] else es
    else if IsAttr(r.tag.ty) then
      var p := Pad(es, id + 1);
      p[id := p[id] + [r]]
    else es
  }

  /** The entries a log describes. */
  function Replay(log: seq<Record>): seq<History> {
    if log == [] then [] else Apply(Replay(log[..|log| - 1]), log[|log| - 1])
  }

  // Entry id, empty beyond the end.
  function Nth(es: seq<History>, id: nat): History {
    if id < |es| then es[id] else []
  }

  /* Lookups compare types up to a grain: 1 for the whole type, 128 and 256 for masks 0x780 and 0x700. */

  predicate Matches(r: Record, grain: nat, ty: nat)
    requires grain > 0
  {
    r.tag.ty / grain == ty / grain
  }

  // The last write of a kind, if any.
  function LastMatch(h: History, grain: nat, ty: nat): Option<Record>
    requires grain > 0
  {
    if h == [] then None
    else if Matches(h[|h| - 1], grain, ty) then Some(h[|h| - 1])
    else LastMatch(h[..|h| - 1], grain, ty)
  }

  /* The backward walk */

  // Where a walk for entry id ends: at a record, where the entry was created, or at the
  // start of the log under the id it had there.
  datatype Walk = Found(r: Record) | Born | At(id: nat)

  function WalkBack(log: seq<Record>, id: nat, grain: nat, ty: nat): Walk
    requires grain > 0
  {
    if log == [] then At(id) else
      var r, rest := log[|log| - 1], log[..|log| - 1];
      if r.tag.ty == TYPE_CREATE && r.tag.id == id then Born
      else if r.tag.ty == TYPE_CREATE && r.tag.id < id then WalkBack(rest, id - 1, grain, ty)
      else if r.tag.ty == TYPE_DELETE && r.tag.id <= id then WalkBack(rest, id + 1, grain, ty)
      else if r.tag.id == id && IsAttr(r.tag.ty) && Matches(r, grain, ty) then Found(r)
      else WalkBack(rest, id, grain, ty)
  }

  function Outcome(w: Walk): Option<Record> {
    if w.Found? then Some(w.r) else None
  }

  lemma NthOfApply(es: seq<History>, r: Record, id: nat)
    requires Proper(r)
    ensures r.tag.ty == TYPE_CREATE ==>
              Nth(Apply(es, r), id) == if id == r.tag.id then [] else if id > r.tag.id then Nth(es, id - 1)
                else Nth(es, id)
    ensures r.tag.ty == TYPE_DELETE ==> Nth(Apply(es, r), id) == if id >= r.tag.id then Nth(es, id + 1) else Nth(es, id)
    ensures IsAttr(r.tag.ty) ==> Nth(Apply(es, r), id) == if id == r.tag.id then Nth(es, id) + [r] else Nth(es, id)
    ensures IsGlobal(r.tag.ty) ==> Nth(Apply(es, r), id) == Nth(es, id)
  {
  }

  lemma LastMatchOfAppend(h: History, r: Record, grain: nat, ty: nat)
    requires grain > 0
    ensures LastMatch(h + [r], grain, ty) == if Matches(r, grain, ty) then Some(r) else LastMatch(h, grain, ty)
  {
    assert (h + [r])[..|h|] == h;
  }

  /** Walking backwards finds exactly what replaying forwards leaves: for every log,
      entry and kind of record. */
  lemma {:induction false} BackwardIsForward(log: seq<Record>, id: nat, grain: nat, ty: nat)
    requires ProperLog(log) && grain > 0
    ensures Outcome(WalkBack(log, id, grain, ty)) == LastMatch(Nth(Replay(log), id), grain, ty)
    decreases |log|
  {
    if log != [] {
      var r, rest := log[|log| - 1], log[..|log| - 1];
      NthOfApply(Replay(rest), r, id);
      assert Replay(log) == Apply(Replay(rest), r);
      hide Apply, Nth, LastMatch;
      if r.tag.ty == TYPE_CREATE {
        if r.tag.id != id {
          BackwardIsForward(rest, if id > r.tag.id then id - 1 else id, grain, ty);
        }
      } else if r.tag.ty == TYPE_DELETE {
        BackwardIsForward(rest, if id >= r.tag.id then id + 1 else id, grain, ty);
      } else {
        BackwardIsForward(rest, id, grain, ty);
        if IsAttr(r.tag.ty) && r.tag.id == id {
          LastMatchOfAppend(Nth(Replay(rest), id), r, grain, ty);
        }
      }
    }
  }

  // A pending move hides its source: looking past it is looking in the log with the DELETE appended.
  lemma PendingMoveIsDelete(log: seq<Record>, moved: nat, id: nat, grain: nat, ty: nat)
    requires ProperLog(log) && grain > 0 && moved < NO_ID
    ensures var d := DeleteRecord(moved);
            Outcome(WalkBack(log, if moved <= id then id + 1 else id, grain, ty))
            == LastMatch(Nth(Replay(log + [d]), id), grain, ty)
  {
    var d := DeleteRecord(moved);
    assert (log + [d])[..|log|] == log;
    BackwardIsForward(log + [d], id, grain, ty);
  }

  // A walk can be taken in two parts.
  lemma {:induction false} WalkInParts(a: seq<Record>, b: seq<Record>, id: nat, grain: nat, ty: nat)
    requires grain > 0
    ensures var w := WalkBack(b, id, grain, ty);
            WalkBack(a + b, id, grain, ty) == if w.At? then WalkBack(a, w.id, grain, ty) else w
    decreases |b|
  {
    if b == [] {
      assert a + b == a;
    } else {
      var r, rest := b[|b| - 1], b[..|b| - 1];
      assert (a + b)[..|a + b| - 1] == a + rest;
      WalkInParts(a, rest, id, grain, ty);
      WalkInParts(a, rest, id + 1, grain, ty);
      if id > 0 {
        WalkInParts(a, rest, id - 1, grain, ty);
      }
    }
  }

  /* Ids that exist */

  ghost predicate Unspliced(log: seq<Record>) {
    forall i :: 0 <= i < |log| ==> Class(log[i].tag.ty) != SPLICE
  }

  /** Logs as the file system writes them: entries are created next to existing ones, deleted while they
      exist, and written to once they exist; only the compacted beginning of a log, which has no creates,
      names entries in any order. */
  ghost predicate Tidy(log: seq<Record>) {
    log == [] ||
    var rest, r := log[..|log| - 1], log[|log| - 1];
    var n := |Replay(rest)|;
    && Tidy(rest) && Proper(r) && |Replay(log)| <= NO_ID
    && (r.tag.ty == TYPE_CREATE ==> r.tag.id <= n)
    && (r.tag.ty == TYPE_DELETE ==> r.tag.id < n)
    && (IsAttr(r.tag.ty) ==> r.tag.id < n || Unspliced(rest))
  }

  lemma {:induction false} TidyIsProper(log: seq<Record>)
    requires Tidy(log)
    ensures ProperLog(log) && |Replay(log)| <= NO_ID
  {
    if log != [] {
      TidyIsProper(log[..|log| - 1]);
    }
  }

  // An id that a walk from an existing entry, or from just behind the last, can come to.
  ghost predicate Reaches(log: seq<Record>, id: nat) {
    id <= |Replay(log)| || (id <= NO_ID && Unspliced(log))
  }

  lemma ReachesExisting(log: seq<Record>, id: nat)
    requires id <= |Replay(log)|
    ensures Reaches(log, id)
  {
  }

  /** On its way back a walk never leaves the ids that fit a tag. */
  lemma WalkStays(log: seq<Record>, id: nat)
    requires log != [] && Tidy(log) && Reaches(log, id)
    ensures id <= NO_ID
    ensures var r, rest := log[|log| - 1], log[..|log| - 1];
            Tidy(rest) &&
            if r.tag.ty == TYPE_CREATE && r.tag.id < id then Reaches(rest, id - 1)
            else if r.tag.ty == TYPE_DELETE && r.tag.id <= id then Reaches(rest, id + 1)
            else (Class(r.tag.ty) == SPLICE && r.tag.id == id) || Reaches(rest, id)
  {
    var rest, r := log[..|log| - 1], log[|log| - 1];
    assert Replay(log) == Apply(Replay(rest), r) && Proper(r);
    assert Unspliced(log) ==> Unspliced(rest);
  }
}
