/** Finding a name while a directory is scanned: the id follows the entry through creates and deletes,
    and a name that is not there leaves the place where it belongs
    (littlefs/lfs.cpp:940-996 and 1088-1110). */
module DirFind {
  import opened Words
  import opened Tags
  import opened DirLog
  import opened DirScan
  import opened Wrappers

  /* Comparing names */

  /** How names are ordered: byte by byte, and a name comes after those it begins. */
  function Compare(disk: seq<byte>, name: seq<byte>): Order {
    if disk == [] && name == [] then EQ
    else if disk == [] then GT
    else if name == [] then LT
    else if disk[0] < name[0] then LT
    else if disk[0] > name[0] then GT
    else Compare(disk[1..], name[1..])
  }

  lemma {:induction false} CompareEqual(a: seq<byte>, b: seq<byte>)
    ensures Compare(a, b) == EQ <==> a == b
  {
    if a != [] && b != [] {
      CompareEqual(a[1..], b[1..]);
      assert a == [a[0]] + a[1..] && b == [b[0]] + b[1..];
    }
  }

  lemma {:induction false} CompareTurns(a: seq<byte>, b: seq<byte>)
    ensures Compare(a, b) == LT <==> Compare(b, a) == GT
  {
    if a != [] && b != [] {
      CompareTurns(a[1..], b[1..]);
    }
  }

  lemma {:induction false} CompareChains(a: seq<byte>, b: seq<byte>, c: seq<byte>)
    requires Compare(a, b) == LT && Compare(b, c) == LT
    ensures Compare(a, c) == LT
  {
    if a != [] && b != [] && c != [] && a[0] == b[0] == c[0] {
      CompareChains(a[1..], b[1..], c[1..]);
    }
  }

  /** The first place of difference decides; without one, a name comes after those it begins. */
  lemma {:induction false} FirstDifference(disk: seq<byte>, name: seq<byte>, p: nat)
    requires p <= |disk| && p <= |name| && forall i :: 0 <= i < p ==> disk[i] == name[i]
    ensures p < |disk| && p < |name| && disk[p] < name[p] ==> Compare(disk, name) == LT
    ensures p < |disk| && p < |name| && disk[p] > name[p] ==> Compare(disk, name) == GT
    ensures p == |name| < |disk| ==> Compare(disk, name) == LT
    ensures p == |disk| < |name| ==> Compare(disk, name) == GT
    ensures p == |disk| == |name| ==> Compare(disk, name) == EQ
  {
    if p > 0 {
      FirstDifference(disk[1..], name[1..], p - 1);
    }
  }

  /** lfs_dir_find_match: the bytes both have, then the lengths. */
  method FindMatch(disk: seq<byte>, name: seq<byte>) returns (r: Order)
    ensures r == Compare(disk, name)
  {
    var diff := if |name| < |disk| then |name| else |disk|;
    for i := 0 to diff
      invariant Compare(disk, name) == Compare(disk[i..], name[i..])
    {
      if disk[i] != name[i] {
        return if disk[i] < name[i] then LT else GT;
      }
      assert disk[i..][1..] == disk[i + 1..] && name[i..][1..] == name[i + 1..];
    }
    // a name is not its own prefix
    if |name| != |disk| {
      return if |name| < |disk| then LT else GT;
    }
    return EQ;
  }

  /* What the scan keeps in mind: nothing yet, the entry, or where it would have to be */

  datatype Best = Nothing | Hit(tag: Tag) | Before(tag: Tag)

  function IdOf(b: Best): nat {
    if b.Nothing? then NO_ID else b.tag.id
  }

  function Renumbered(b: Best, id: nat): Best {
    match b
    case Nothing => Nothing
    case Hit(t) => Hit(t.(id := id))
    case Before(t) => Before(t.(id := id))
  }

  // The types that the mask 0x780 lets through when names are looked for: not the superblock's.
  predicate IsName(ty: nat) {
    ty / 128 == 0
  }

  // One record of the scan.
  function Match(b: Best, r: Record, name: seq<byte>): Best
    requires Proper(r)
  {
    var t := r.tag;
    if Class(t.ty) == SPLICE then
      if t.ty == TYPE_DELETE && !b.Nothing? && t.id == b.tag.id then Before(b.tag)
      else if !b.Nothing? && t.id <= b.tag.id then Renumbered(b, b.tag.id + Splice(t.ty))
      else b
    else if IsName(t.ty) then
      var order := Compare(r.data, name);
      if order == EQ then Hit(t)
      else if !b.Nothing? && t.ty == b.tag.ty && t.id == b.tag.id then Nothing
      else if order == GT && t.id <= IdOf(b) then Before(t)
      else b
    else b
  }

  function MatchAll(log: seq<Record>, name: seq<byte>): Best
    requires ProperLog(log)
  {
    if log == [] then Nothing else Match(MatchAll(log[..|log| - 1], name), log[|log| - 1], name)
  }

  /* Orderly directories */

  // The name record of an entry, if it has one yet; the superblock's entry has one too.
  function Title(h: History): Option<Record> {
    LastMatch(h, 256, TYPE_REG)
  }

  function NameOf(h: History): Option<seq<byte>> {
    var t := Title(h);
    if t.Some? && IsName(t.value.tag.ty) then Some(t.value.data) else None
  }

  predicate IsSuper(h: History) {
    Title(h).Some? && !IsName(Title(h).value.tag.ty)
  }

  ghost predicate Sorted(es: seq<History>) {
    forall i, j :: 0 <= i < j < |es| && NameOf(es[i]).Some? && NameOf(es[j]).Some? ==>
      Compare(NameOf(es[i]).value, NameOf(es[j]).value) == LT
  }

  // Every entry is named, but perhaps for a superblock in front.
  ghost predicate Settled(es: seq<History>) {
    forall i :: 0 <= i < |es| ==> NameOf(es[i]).Some? || (i == 0 && IsSuper(es[i]))
  }

  // What a record may do to a directory in order.
  ghost predicate Fitting(es: seq<History>, r: Record) {
    && Sorted(Apply(es, r))
    && (r.tag.ty == TYPE_CREATE && r.tag.id == 0 && es != [] ==> !IsSuper(es[0]))
    && (r.tag.ty == TYPE_DELETE ==> Settled(es) && r.tag.id < |es| && NameOf(es[r.tag.id]).Some?)
    && (Class(r.tag.ty) == NAME ==>
          Title(Nth(es, r.tag.id)).None? && r.tag.len != REMOVED && (IsName(r.tag.ty) || r.tag.id == 0))
  }

  /** Tidy logs whose names stay sorted: each entry is named once, a superblock stays in front, and when an
      entry is deleted all have their names. */
  ghost predicate Orderly(log: seq<Record>) {
    log == [] ||
    var rest, r := log[..|log| - 1], log[|log| - 1];
    Orderly(rest) && Tidy(log) && Fitting(Replay(rest), r)
  }

  // What the scan's memory says about the entries.
  ghost predicate Right(es: seq<History>, b: Best, name: seq<byte>, unspliced: bool) {
    if b.Hit? then b.tag.id < |es| && NameOf(es[b.tag.id]) == Some(name)
    else
      && (forall j :: 0 <= j < |es| && NameOf(es[j]).Some? ==>
            Compare(NameOf(es[j]).value, name) == if j < IdOf(b) then LT else GT)
      && (b.Nothing? || if IdOf(b) < |es| then NameOf(es[IdOf(b)]).Some? else !unspliced)
  }

  lemma OrderlyIsTidy(log: seq<Record>)
    requires Orderly(log)
    ensures Tidy(log) && ProperLog(log) && Sorted(Replay(log)) && |Replay(log)| <= NO_ID
  {
    TidyIsProper(log);
  }

  // Two names in order, and the one looked for.
  lemma Sides(a: seq<byte>, b: seq<byte>, name: seq<byte>)
    requires Compare(a, b) == LT
    ensures Compare(a, name) != LT ==> Compare(b, name) == GT
    ensures Compare(b, name) != GT ==> Compare(a, name) == LT
  {
    CompareTurns(name, a);
    CompareTurns(name, b);
    CompareTurns(b, name);
    CompareTurns(a, name);
    CompareEqual(a, name);
    CompareEqual(b, name);
    if Compare(name, a) == LT {
      CompareChains(name, a, b);
    }
    if Compare(b, name) == LT {
      CompareChains(a, b, name);
    }
  }

  lemma TitleOfAppend(h: History, r: Record)
    ensures Title(h + [r]) == if Class(r.tag.ty) == NAME then Some(r) else Title(h)
    ensures Class(r.tag.ty) == NAME ==> NameOf(h + [r]) == if IsName(r.tag.ty) then Some(r.data) else None
    ensures Class(r.tag.ty) != NAME ==> NameOf(h + [r]) == NameOf(h)
  {
    LastMatchOfAppend(h, r, 256, TYPE_REG);
  }

  // In sorted entries, a name that is there has the smaller before it and the greater behind.
  lemma HitHasSides(es: seq<History>, id: nat, name: seq<byte>)
    requires Sorted(es) && id < |es| && NameOf(es[id]) == Some(name)
    ensures forall j :: 0 <= j < |es| && j != id && NameOf(es[j]).Some? ==>
              Compare(NameOf(es[j]).value, name) == if j < id then LT else GT
  {
    hide Compare;
    forall j | 0 <= j < |es| && j != id && NameOf(es[j]).Some?
      ensures Compare(NameOf(es[j]).value, name) == if j < id then LT else GT
    {
      if j > id {
        CompareTurns(name, NameOf(es[j]).value);
      }
    }
  }

  // The entries after a create: one more, which is empty.
  lemma CreatedEntries(es: seq<History>, r: Record)
    requires r.tag.ty == TYPE_CREATE && r.tag.id <= |es|
    ensures |Apply(es, r)| == |es| + 1 && NameOf([]) == None && Title([]) == None
    ensures forall j :: 0 <= j < |es| + 1 ==>
              Apply(es, r)[j] == if j < r.tag.id then es[j] else if j == r.tag.id then [] else es[j - 1]
  {
  }

  lemma RightAfterCreate(es: seq<History>, b: Best, r: Record, name: seq<byte>, unspliced: bool)
    requires Right(es, b, name, unspliced) && Proper(r) && r.tag.ty == TYPE_CREATE && r.tag.id <= |es| < NO_ID
    ensures Right(Apply(es, r), Match(b, r, name), name, false)
  {
    CreatedEntries(es, r);
    hide Compare, Apply, NameOf;
    var id, es', b' := r.tag.id, Apply(es, r), Match(b, r, name);
    if !b.Hit? {
      forall j | 0 <= j < |es'| && NameOf(es'[j]).Some?
        ensures Compare(NameOf(es'[j]).value, name) == if j < IdOf(b') then LT else GT
      {
        assert es'[j] == es[if j < id then j else j - 1];
      }
    }
  }

  // The entries after a delete.
  lemma DeletedEntries(es: seq<History>, r: Record)
    requires r.tag.ty == TYPE_DELETE && r.tag.id < |es|
    ensures |Apply(es, r)| == |es| - 1
    ensures forall j :: 0 <= j < |es| - 1 ==> Apply(es, r)[j] == es[if j < r.tag.id then j else j + 1]
  {
  }

  lemma RightAfterDelete(es: seq<History>, b: Best, r: Record, name: seq<byte>, unspliced: bool)
    requires Right(es, b, name, unspliced) && Proper(r) && r.tag.ty == TYPE_DELETE && r.tag.id < |es| <= NO_ID
    requires Settled(es) && Sorted(es)
    ensures Right(Apply(es, r), Match(b, r, name), name, false)
  {
    DeletedEntries(es, r);
    hide Compare, Apply, NameOf;
    var id, es', b' := r.tag.id, Apply(es, r), Match(b, r, name);
    if b.Hit? {
      HitHasSides(es, b.tag.id, name);
    }
    if !b'.Hit? {
      forall j | 0 <= j < |es'| && NameOf(es'[j]).Some?
        ensures Compare(NameOf(es'[j]).value, name) == if j < IdOf(b') then LT else GT
      {
        assert es'[j] == es[if j < id then j else j + 1];
      }
    }
  }

  // Structs, attributes and the superblock's name.
  lemma RightAfterAttr(es: seq<History>, b: Best, r: Record, name: seq<byte>, unspliced: bool)
    requires Right(es, b, name, unspliced) && Proper(r) && IsAttr(r.tag.ty) && !IsName(r.tag.ty)
    requires r.tag.id < |es| || unspliced
    requires Class(r.tag.ty) == NAME ==> Title(Nth(es, r.tag.id)).None?
    ensures Right(Apply(es, r), Match(b, r, name), name, unspliced)
  {
    hide Compare;
    var es' := Apply(es, r);
    forall j | 0 <= j < |es'|
      ensures NameOf(es'[j]) == if j < |es| then NameOf(es[j]) else None
    {
      TitleOfAppend(Nth(es, j), r);
      assert es'[j] == if j == r.tag.id then Nth(es, j) + [r] else Nth(es, j);
    }
  }

  lemma RightAfterName(es: seq<History>, b: Best, r: Record, name: seq<byte>, unspliced: bool)
    requires Right(es, b, name, unspliced) && Proper(r) && IsName(r.tag.ty) && Sorted(Apply(es, r))
    requires NameOf(Nth(es, r.tag.id)).None? && (r.tag.id < |es| || unspliced) && |Apply(es, r)| <= NO_ID
    ensures Right(Apply(es, r), Match(b, r, name), name, unspliced)
  {
    hide Compare;
    var id, es', b' := r.tag.id, Apply(es, r), Match(b, r, name);
    forall j | 0 <= j < |es'|
      ensures NameOf(es'[j]) == if j == id then Some(r.data) else if j < |es| then NameOf(es[j]) else None
      ensures j < id && NameOf(es'[j]).Some? ==> Compare(NameOf(es'[j]).value, r.data) == LT
      ensures j > id && NameOf(es'[j]).Some? ==> Compare(r.data, NameOf(es'[j]).value) == LT
    {
      TitleOfAppend(Nth(es, id), r);
      assert es'[j] == if j == id then Nth(es, j) + [r] else Nth(es, j);
      assert NameOf(es'[id]) == Some(r.data);
    }
    CompareEqual(r.data, name);
    if b.Hit? {
      CompareEqual(NameOf(es[b.tag.id]).value, name);
    }
    forall j | 0 <= j < |es'| && NameOf(es'[j]).Some? && j != id
      ensures j < id && Compare(r.data, name) != GT ==> Compare(NameOf(es'[j]).value, name) == LT
      ensures j > id && Compare(r.data, name) != LT ==> Compare(NameOf(es'[j]).value, name) == GT
      ensures j < id && Compare(NameOf(es'[j]).value, name) != LT ==> Compare(r.data, name) == GT
      ensures j > id && Compare(NameOf(es'[j]).value, name) != GT ==> Compare(r.data, name) == LT
    {
      if j < id {
        Sides(NameOf(es'[j]).value, r.data, name);
      } else {
        Sides(r.data, NameOf(es'[j]).value, name);
      }
    }
  }

  lemma RightAfter(es: seq<History>, b: Best, r: Record, name: seq<byte>, unspliced: bool)
    requires Right(es, b, name, unspliced) && Proper(r) && Sorted(es) && Fitting(es, r)
    requires |es| <= NO_ID && |Apply(es, r)| <= NO_ID
    requires r.tag.ty == TYPE_CREATE ==> r.tag.id <= |es|
    requires IsAttr(r.tag.ty) ==> r.tag.id < |es| || unspliced
    ensures Right(Apply(es, r), Match(b, r, name), name, unspliced && Class(r.tag.ty) != SPLICE)
  {
    hide Right, Match, Apply, Sorted, Title, Settled;
    if r.tag.ty == TYPE_CREATE {
      CreatedEntries(es, r);
      RightAfterCreate(es, b, r, name, unspliced);
    } else if r.tag.ty == TYPE_DELETE {
      RightAfterDelete(es, b, r, name, unspliced);
    } else if IsName(r.tag.ty) {
      RightAfterName(es, b, r, name, unspliced);
    } else if IsAttr(r.tag.ty) {
      RightAfterAttr(es, b, r, name, unspliced);
    } else {
      RightAfterOther(es, b, r, name, unspliced);
    }
  }

  lemma {:induction false} MatchIsRight(log: seq<Record>, name: seq<byte>)
    requires Orderly(log) && ProperLog(log)
    ensures Right(Replay(log), MatchAll(log, name), name, Unspliced(log))
  {
    if log != [] {
      var rest, r := log[..|log| - 1], log[|log| - 1];
      assert Tidy(log) && Proper(r) && Replay(log) == Apply(Replay(rest), r);
      assert Unspliced(log) <==> Unspliced(rest) && Class(r.tag.ty) != SPLICE;
      hide Right, Match, Apply, Fitting, Replay;
      OrderlyIsTidy(rest);
      OrderlyIsTidy(log);
      MatchIsRight(rest, name);
      RightAfter(Replay(rest), MatchAll(rest, name), r, name, Unspliced(rest));
    }
  }

  lemma RightAfterOther(es: seq<History>, b: Best, r: Record, name: seq<byte>, unspliced: bool)
    requires Right(es, b, name, unspliced) && Proper(r) && IsGlobal(r.tag.ty)
    ensures Right(Apply(es, r), Match(b, r, name), name, unspliced)
  {
  }

  // The smaller names are before the place, the greater from there on.
  ghost predicate Parts(es: seq<History>, place: nat, name: seq<byte>) {
    forall j :: 0 <= j < |es| && NameOf(es[j]).Some? ==>
      Compare(NameOf(es[j]).value, name) == if j < place then LT else GT
  }

  function Place(es: seq<History>, b: Best): (p: nat)
    ensures p <= |es|
  {
    if IdOf(b) < |es| then IdOf(b) else |es|
  }

  /** In an orderly directory the scan finds the entry of a name if there is one, and otherwise the place
      that keeps the names sorted. */
  lemma FoundOrPlaced(log: seq<Record>, name: seq<byte>)
    requires Orderly(log) && ProperLog(log)
    ensures var es, b := Replay(log), MatchAll(log, name);
            && (b.Hit? <==> exists j :: 0 <= j < |es| && NameOf(es[j]) == Some(name))
            && (b.Hit? ==> b.tag.id < |es| && NameOf(es[b.tag.id]) == Some(name))
            && (!b.Hit? ==> Parts(es, Place(es, b), name) && (es != [] && IsSuper(es[0]) ==> Place(es, b) > 0))
  {
    hide Compare;
    MatchIsRight(log, name);
    CompareEqual(name, name);
  }

  datatype Lookup = Present(id: nat) | Absent(place: nat)

  /** The matching of lfs_dir_fetchmatch, over the records it goes through, and past a pending move. */
  method FindName(log: seq<Record>, count: nat, name: seq<byte>, move: Option<nat>) returns (r: Lookup)
    requires ProperLog(log) && (move.Some? ==> move.value < NO_ID)
    requires move.None? ==> Orderly(log) && count == |Replay(log)|
    requires move.Some? ==> var hidden := log + [DeleteRecord(move.value)];
                            Orderly(hidden) && count == |Replay(log)|
    ensures var seen := if move.None? then log else log + [DeleteRecord(move.value)];
            match r
            case Present(id) => id < |Replay(seen)| && NameOf(Replay(seen)[id]) == Some(name)
            case Absent(place) => place <= count && Parts(Replay(seen), place, name)
  {
    hide Replay, Sorted, Compare, Orderly, Match;
    var best := ScanNames(log, name);
    if move.Some? {
      // synthetic move
      ghost var d := DeleteRecord(move.value);
      best := HideMoved(best, move.value, name);
      MatchSnoc(log, d, name);
      OrderlyIsTidy(log + [d]);
      FoundOrPlaced(log + [d], name);
      FewerEntries(log, d);
    } else {
      FoundOrPlaced(log, name);
    }
    // the entry, or the place for it
    return if best.Hit? then Present(best.tag.id) else Absent(if IdOf(best) < count then IdOf(best) else count);
  }

  method ScanNames(log: seq<Record>, name: seq<byte>) returns (best: Best)
    requires ProperLog(log)
    ensures best == MatchAll(log, name)
  {
    hide Match;
    best := Nothing;
    assert log[..0] == [];
    for i := 0 to |log|
      invariant best == MatchAll(log[..i], name)
    {
      assert log[..i + 1][..i] == log[..i];
      assert Proper(log[i]);
      best := MatchOne(best, log[i], name);
    }
    assert log[..|log|] == log;
  }

  // A pending move counts as one more DELETE.
  method HideMoved(best: Best, moved: nat, ghost name: seq<byte>) returns (next: Best)
    requires moved < NO_ID
    ensures next == Match(best, DeleteRecord(moved), name)
  {
    next := best;
    if !best.Nothing? {
      if moved == best.tag.id {
        next := Before(best.tag);
      } else if moved < best.tag.id {
        next := Renumbered(best, best.tag.id - 1);
      }
    }
  }

  lemma MatchSnoc(log: seq<Record>, r: Record, name: seq<byte>)
    requires ProperLog(log) && Proper(r)
    ensures ProperLog(log + [r]) && MatchAll(log + [r], name) == Match(MatchAll(log, name), r, name)
  {
    assert (log + [r])[..|log|] == log;
  }

  lemma FewerEntries(log: seq<Record>, d: Record)
    requires d.tag.ty == TYPE_DELETE && Orderly(log + [d])
    ensures |Replay(log + [d])| == |Replay(log)| - 1
  {
    assert (log + [d])[..|log|] == log;
  }

  // The matching done for one record.
  method MatchOne(best: Best, r: Record, name: seq<byte>) returns (next: Best)
    requires Proper(r)
    ensures next == Match(best, r, name)
  {
    hide Compare;
    var t := r.tag;
    next := best;
    if Class(t.ty) == SPLICE {
      if t.ty == TYPE_DELETE && !best.Nothing? && t.id == best.tag.id {
        next := Before(best.tag);
      } else if !best.Nothing? && t.id <= best.tag.id {
        next := Renumbered(best, best.tag.id + Splice(t.ty));
      }
    }
    // a name to compare
    if IsName(t.ty) {
      var res := FindMatch(r.data, name);
      if res == EQ {
        // the name itself
        next := Hit(t);
      } else if !best.Nothing? && t.ty == best.tag.ty && t.id == best.tag.id {
        // the entry that was kept has another name now
        next := Nothing;
      } else if res == GT && t.id <= IdOf(best) {
        // a greater name in front of those seen so far
        next := Before(t);
      }
    }
  }
}
