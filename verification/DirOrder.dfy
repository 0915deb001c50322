/** What keeps a directory in order: formatting, creating, deleting, writing and compacting
    (littlefs/lfs.cpp:965-973, 1611-1639 and 3706-3727). */
module DirOrder {
  import opened Words
  import opened Tags
  import opened DirLog
  import opened DirScan
  import opened DirRecovery
  import opened DirFind
  import opened DirCompact
  import opened DirSplit
  import opened Wrappers

  lemma TidySnoc(log: seq<Record>, r: Record)
    requires Tidy(log) && Proper(r) && |Apply(Replay(log), r)| <= NO_ID
    requires r.tag.ty == TYPE_CREATE ==> r.tag.id <= |Replay(log)|
    requires r.tag.ty == TYPE_DELETE ==> r.tag.id < |Replay(log)|
    requires IsAttr(r.tag.ty) ==> r.tag.id < |Replay(log)| || Unspliced(log)
    ensures Tidy(log + [r]) && Replay(log + [r]) == Apply(Replay(log), r)
  {
    assert (log + [r])[..|log|] == log;
  }

  lemma OrderlySnoc(log: seq<Record>, r: Record)
    requires Orderly(log) && Tidy(log + [r]) && Fitting(Replay(log), r)
    ensures Orderly(log + [r])
  {
    assert (log + [r])[..|log|] == log;
  }

  /* Creating */

  /** Putting a new name where the search says keeps the directory orderly, and all entries named. */
  lemma InsertKeepsOrderly(log: seq<Record>, name: seq<byte>, ty: nat)
    requires Orderly(log) && ProperLog(log) && !MatchAll(log, name).Hit? && |Replay(log)| < NO_ID
    requires IsName(ty) && |name| < REMOVED
    ensures var place := Place(Replay(log), MatchAll(log, name));
            var longer := log + [CreateRecord(place)] + [NameRecord(ty, place, name)];
            Orderly(longer) && (Settled(Replay(log)) ==> Settled(Replay(longer)))
              && |Replay(longer)| == |Replay(log)| + 1
  {
    hide Parts, Orderly, Replay, MatchAll, IsSuper, Settled;
    FoundOrPlaced(log, name);
    InsertAt(log, name, ty, Place(Replay(log), MatchAll(log, name)));
  }

  lemma InsertAt(log: seq<Record>, name: seq<byte>, ty: nat, place: nat)
    requires Orderly(log) && |Replay(log)| < NO_ID && IsName(ty) && |name| < REMOVED
    requires place <= |Replay(log)| && Parts(Replay(log), place, name)
    requires Replay(log) != [] && IsSuper(Replay(log)[0]) ==> place > 0
    ensures var longer := log + [CreateRecord(place)] + [NameRecord(ty, place, name)];
            Orderly(longer) && (Settled(Replay(log)) ==> Settled(Replay(longer)))
              && |Replay(longer)| == |Replay(log)| + 1
  {
    hide Apply, Orderly, Replay, Parts, Settled, Tidy, IsSuper, Fitting;
    var es, c, r := Replay(log), CreateRecord(place), NameRecord(ty, place, name);
    OrderlyIsTidy(log);
    InsertFits(es, c, r, name);
    TidySnoc(log, c);
    OrderlySnoc(log, c);
    TidySnoc(log + [c], r);
    OrderlySnoc(log + [c], r);
    CreatedSettled(es, c, r);
  }

  lemma InsertFits(es: seq<History>, c: Record, r: Record, name: seq<byte>)
    requires Sorted(es) && |es| < NO_ID && c == CreateRecord(r.tag.id) && IsName(r.tag.ty) && r.data == name
    requires r.tag.id <= |es| && Parts(es, r.tag.id, name) && r.tag.len != REMOVED
    requires es != [] && IsSuper(es[0]) ==> r.tag.id > 0
    ensures Fitting(es, c) && Fitting(Apply(es, c), r)
    ensures |Apply(es, c)| == |es| + 1 && |Apply(Apply(es, c), r)| == |es| + 1
  {
    hide Apply, Sorted, Parts, Settled, IsSuper, Title;
    CreatedSorted(es, c, name);
    NamedPlace(Apply(es, c), r, name);
  }

  lemma CreatedSorted(es: seq<History>, r: Record, name: seq<byte>)
    requires Sorted(es) && r.tag.ty == TYPE_CREATE && r.tag.id <= |es| && Parts(es, r.tag.id, name)
    ensures Sorted(Apply(es, r)) && Parts(Apply(es, r), r.tag.id, name)
    ensures |Apply(es, r)| == |es| + 1 && Apply(es, r)[r.tag.id] == [] && Title([]) == None
  {
    CreatedEntries(es, r);
    hide Apply, NameOf, Compare, Title;
    var after := Apply(es, r);
    forall i, j | 0 <= i < j < |after| && NameOf(after[i]).Some? && NameOf(after[j]).Some?
      ensures Compare(NameOf(after[i]).value, NameOf(after[j]).value) == LT
    {
      assert after[i] == es[if i < r.tag.id then i else i - 1] && after[j] == es[if j < r.tag.id then j else j - 1];
    }
  }

  lemma NamedPlace(es: seq<History>, r: Record, name: seq<byte>)
    requires Sorted(es) && r.tag.id < |es| && IsName(r.tag.ty) && r.data == name
    requires Parts(es, r.tag.id, name) && es[r.tag.id] == []
    ensures Sorted(Apply(es, r)) && |Apply(es, r)| == |es| && Nth(es, r.tag.id) == []
  {
    hide Compare;
    var after := Apply(es, r);
    assert after == es[r.tag.id := [] + [r]];
    TitleOfAppend([], r);
    forall i, j | 0 <= i < j < |after| && NameOf(after[i]).Some? && NameOf(after[j]).Some?
      ensures Compare(NameOf(after[i]).value, NameOf(after[j]).value) == LT
    {
      CompareTurns(name, NameOf(after[j]).value);
    }
  }

  lemma CreatedSettled(es: seq<History>, c: Record, r: Record)
    requires c.tag.ty == TYPE_CREATE && c.tag.id == r.tag.id <= |es| && IsName(r.tag.ty)
    requires es != [] && IsSuper(es[0]) ==> r.tag.id > 0
    ensures Settled(es) ==> Settled(Apply(Apply(es, c), r))
  {
    NamedEntries(es, c, r);
    hide Title, Apply;
    var after := Apply(Apply(es, c), r);
    if Settled(es) {
      forall i | 0 <= i < |after|
        ensures NameOf(after[i]).Some? || (i == 0 && IsSuper(after[i]))
      {
        if i != r.tag.id {
          var j := if i < r.tag.id then i else i - 1;
          assert NameOf(es[j]).Some? || (j == 0 && IsSuper(es[j]));
        }
      }
    }
  }

  lemma NamedEntries(es: seq<History>, c: Record, r: Record)
    requires c.tag.ty == TYPE_CREATE && c.tag.id == r.tag.id <= |es| && IsName(r.tag.ty)
    ensures var after := Apply(Apply(es, c), r);
            && |after| == |es| + 1 && NameOf(after[r.tag.id]).Some?
            && forall i :: 0 <= i < |after| && i != r.tag.id ==> after[i] == es[if i < r.tag.id then i else i - 1]
  {
    CreatedEntries(es, c);
    WrittenEntry(Apply(es, c), r);
    hide Apply, Title;
    TitleOfAppend([], r);
    assert Title([] + [r]) == Some(r);
  }

  lemma WrittenEntry(es: seq<History>, r: Record)
    requires IsAttr(r.tag.ty) && r.tag.id < |es|
    ensures Apply(es, r) == es[r.tag.id := es[r.tag.id] + [r]]
  {
  }

  /* Deleting, and writing to entries */

  /** Deleting a named entry keeps the directory orderly, and the others named. */
  lemma DeleteKeepsOrderly(log: seq<Record>, id: nat)
    requires Orderly(log) && Settled(Replay(log)) && id < |Replay(log)| && NameOf(Replay(log)[id]).Some?
    ensures Orderly(log + [DeleteRecord(id)]) && Settled(Replay(log + [DeleteRecord(id)]))
  {
    hide Orderly, Replay, Title, Compare, Tidy;
    var es, d := Replay(log), DeleteRecord(id);
    OrderlyIsTidy(log);
    DeletedEntries(es, d);
    var after := Apply(es, d);
    forall i, j | 0 <= i < j < |after| && NameOf(after[i]).Some? && NameOf(after[j]).Some?
      ensures Compare(NameOf(after[i]).value, NameOf(after[j]).value) == LT
    {
      assert after[i] == es[if i < id then i else i + 1] && after[j] == es[if j < id then j else j + 1];
    }
    TidySnoc(log, d);
    OrderlySnoc(log, d);
  }

  /** So does writing structs, attributes, tails, states and checksums. */
  lemma OtherKeepsOrderly(log: seq<Record>, r: Record)
    requires Orderly(log) && Proper(r) && (IsGlobal(r.tag.ty) || (IsAttr(r.tag.ty) && Class(r.tag.ty) != NAME))
    requires IsAttr(r.tag.ty) ==> r.tag.id < |Replay(log)|
    ensures Orderly(log + [r]) && (Settled(Replay(log)) ==> Settled(Replay(log + [r])))
  {
    hide Orderly, Replay, Tidy, Fitting, Settled;
    OrderlyIsTidy(log);
    OtherFits(Replay(log), r);
    TidySnoc(log, r);
    OrderlySnoc(log, r);
  }

  lemma OtherFits(es: seq<History>, r: Record)
    requires Sorted(es) && (IsGlobal(r.tag.ty) || (IsAttr(r.tag.ty) && Class(r.tag.ty) != NAME && r.tag.id < |es|))
    ensures Fitting(es, r) && |Apply(es, r)| == |es| && (Settled(es) ==> Settled(Apply(es, r)))
  {
    SameTitles(es, r);
    hide Title, Apply, Compare;
    var after := Apply(es, r);
    assert forall j :: 0 <= j < |es| ==> NameOf(after[j]) == NameOf(es[j]);
  }

  lemma SameTitles(es: seq<History>, r: Record)
    requires IsGlobal(r.tag.ty) || (IsAttr(r.tag.ty) && Class(r.tag.ty) != NAME && r.tag.id < |es|)
    ensures |Apply(es, r)| == |es| && forall j :: 0 <= j < |es| ==> Title(Apply(es, r)[j]) == Title(es[j])
  {
    forall j | 0 <= j < |es|
      ensures Title(Apply(es, r)[j]) == Title(es[j])
    {
      TitleOfAppend(es[j], r);
    }
  }

  /* How many entries there are */

  // The count of a scan never says too much, and is right while the last entry has its name.
  ghost predicate Counted(es: seq<History>, count: int) {
    count <= |es| && (es == [] || Title(es[|es| - 1]).Some? ==> count == |es|)
  }

  /** The number of entries that a scan of an orderly directory counts is the number of those that replaying
      leaves, unless the last has been created and not named. */
  lemma {:induction false} ScanCountsEntries(log: seq<Record>)
    requires Orderly(log)
    ensures Counted(Replay(log), Summary(log).0)
  {
    if log == [] {
      assert Replay(log) == [];
    } else {
      var rest, r := log[..|log| - 1], log[|log| - 1];
      assert Orderly(rest) && Tidy(log) && Fitting(Replay(rest), r) && Proper(r);
      assert Replay(log) == Apply(Replay(rest), r);
      assert Summary(log).0 == CountAfter(Summary(rest).0, r.tag);
      assert r.tag.ty == TYPE_CREATE ==> r.tag.id <= |Replay(rest)|;
      hide Orderly, Tidy, Fitting, Replay, Summary, Proper, Apply, CountAfter;
      ScanCountsEntries(rest);
      ScanCountsOne(Replay(rest), Summary(rest).0, r);
    }
  }

  lemma ScanCountsOne(es: seq<History>, count: int, r: Record)
    requires Counted(es, count) && Proper(r) && Fitting(es, r) && (r.tag.ty == TYPE_CREATE ==> r.tag.id <= |es|)
    ensures Counted(Apply(es, r), CountAfter(count, r.tag))
  {
    hide Sorted, Title;
    var after := Apply(es, r);
    NothingUntitled();
    if after != [] {
      var last := |after| - 1;
      NthOfApply(es, r, last);
      TitleOfAppend(Nth(es, last), r);
    }
    if r.tag.ty == TYPE_DELETE {
      assert NameOf(es[|es| - 1]).Some? || IsSuper(es[|es| - 1]);
    }
  }

  /** So the fetched count of a block is what a search of it asks for. */
  lemma FetchCountsEntries(block: seq<byte>, prog: nat)
    requires prog > 0 && |block| >= 4
    requires var n := FetchBlock(block, prog).last;
             n.Some? && ReadableLog(n.value.log) && Orderly(n.value.log) && Settled(Replay(n.value.log))
    ensures var n := FetchBlock(block, prog).last.value;
            n.count == |Replay(n.log)|
  {
    hide FetchBlock, Replay, Orderly, Title;
    var n := FetchBlock(block, prog).last.value;
    FetchedSums(block, prog);
    ScanCountsEntries(n.log);
    var es := Replay(n.log);
    if es != [] {
      assert NameOf(es[|es| - 1]).Some? || IsSuper(es[|es| - 1]);
    }
  }

  /* The root */

  const TYPE_SUPERBLOCK := 0x0ff
  const TYPE_INLINESTRUCT := 0x201
  const LITTLEFS: seq<byte> := [108, 105, 116, 116, 108, 101, 102, 115]

  // What lfs_format commits first.
  function FormatRecords(superblock: seq<byte>): seq<Record> {
    [CreateRecord(0)] + [NameRecord(TYPE_SUPERBLOCK, 0, LITTLEFS)]
    + [Record(Tag(TYPE_INLINESTRUCT, 0, |superblock|), superblock)]
  }

  /** A formatted root is orderly; no name is found in it, and the place of every name is behind the superblock. */
  lemma FormattedRoot(superblock: seq<byte>, name: seq<byte>)
    requires |superblock| < REMOVED
    ensures var log := FormatRecords(superblock);
            && Orderly(log) && ProperLog(log) && |Replay(log)| == 1 && IsSuper(Replay(log)[0]) && Settled(Replay(log))
            && MatchAll(log, name) == Nothing && Place(Replay(log), MatchAll(log, name)) == 1
  {
    var c, t, s := CreateRecord(0), NameRecord(TYPE_SUPERBLOCK, 0, LITTLEFS),
        Record(Tag(TYPE_INLINESTRUCT, 0, |superblock|), superblock);
    var log1, log2, log3 := [c], [c] + [t], FormatRecords(superblock);
    assert [] + [c] == log1 && log2 == log1 + [t] && log3 == log2 + [s];
    FormattedNamed(c, t);
    TitleOfAppend([t], s);
    assert Apply([[t]], s) == [[t] + [s]];
    OtherKeepsOrderly(log2, s);
    OrderlyIsTidy(log3);
    ReplayMore(log2, s);
    assert log1[..0] == [] && log2[..1] == log1 && log3[..2] == log2;
    assert Proper(c) && Proper(t) && log1[0] == c && log2[0] == c && log2[1] == t;
    hide Orderly, Apply, Title, Tidy;
    assert MatchAll(log1, name) == Nothing && MatchAll(log2, name) == Nothing;
  }

  lemma CreatedFirst()
    ensures var log := [CreateRecord(0)];
            Orderly(log) && Tidy(log) && Replay(log) == [[]]
  {
    var c := CreateRecord(0);
    assert Replay([]) == [] && Apply([], c) == [[]] && [] + [c] == [c];
    TidySnoc([], c);
    OrderlySnoc([], c);
  }

  // The first two records.
  lemma FormattedNamed(c: Record, t: Record)
    requires c == CreateRecord(0) && t.tag.ty == TYPE_SUPERBLOCK && t.tag.id == 0 && t.tag.len != REMOVED && Proper(t)
    ensures Orderly([c] + [t]) && Replay([c] + [t]) == [[t]]
  {
    CreatedFirst();
    WrittenEntry([[]], t);
    assert Apply([[]], t) == [[t]] by {
      assert [] + [t] == [t];
    }
    TitleOfAppend([], t);
    assert [] + [t] == [t] && Title([]) == None;
    hide Orderly, Tidy, Replay, Apply, Title;
    TidySnoc([c], t);
    OrderlySnoc([c], t);
  }

  /* Compacting */

  // What a search through the first part of a log finds, a search of the whole finds.
  lemma SoFarIsFinal(log: seq<Record>, k: nat, id: nat, ty: nat)
    requires ProperLog(log) && k <= |log|
    ensures var found := SoFar(log[..k], log[k..], id, KeyGrain(ty), ty);
            found.Some? ==> Value(log, id, ty) == found
  {
    hide WalkBack, KeyGrain, LastMatch;
    WalkInParts(log[..k], log[k..], id, KeyGrain(ty), ty);
    assert log[..k] + log[k..] == log;
    BackwardIsForward(log, id, KeyGrain(ty), ty);
  }

  // Only the first entry may be the superblock's, and names are not removals.
  ghost predicate SuperFirst(es: seq<History>) {
    forall i :: 0 <= i < |es| ==>
      && (i > 0 ==> !IsSuper(es[i]))
      && (Title(es[i]).Some? ==> Title(es[i]).value.tag.len != REMOVED)
  }

  lemma {:induction false} OrderlySuperFirst(log: seq<Record>)
    requires Orderly(log)
    ensures SuperFirst(Replay(log)) && NamesStay(log)
  {
    if log != [] {
      var rest, r := log[..|log| - 1], log[|log| - 1];
      OrderlySuperFirst(rest);
      assert Tidy(log) && Fitting(Replay(rest), r) && Proper(r) && Replay(log) == Apply(Replay(rest), r);
      hide Orderly, Tidy, Replay, Sorted, Settled;
      SuperStays(Replay(rest), r);
    }
  }

  ghost predicate NamesStay(log: seq<Record>) {
    forall i :: 0 <= i < |log| && Class(log[i].tag.ty) == NAME ==> log[i].tag.len != REMOVED
  }

  lemma SuperStays(es: seq<History>, r: Record)
    requires SuperFirst(es) && Proper(r) && Fitting(es, r)
    ensures SuperFirst(Apply(es, r))
  {
    hide Sorted, Settled;
    var after := Apply(es, r);
    assert Title([]) == None;
    forall i | 0 <= i < |after|
      ensures i > 0 ==> !IsSuper(after[i])
      ensures Title(after[i]).Some? ==> Title(after[i]).value.tag.len != REMOVED
    {
      NthOfApply(es, r, i);
      TitleOfAppend(Nth(es, i), r);
      hide Apply, Title;
    }
  }

  lemma {:induction false} FewEntries(out: seq<Record>, n: nat)
    requires AboutEntries(out, n)
    ensures |Replay(out)| <= n && Unspliced(out)
  {
    if out != [] {
      assert Proper(out[|out| - 1]) && AboutEntries(out[..|out| - 1], n);
      FewEntries(out[..|out| - 1], n);
    }
  }

  // What the first records of a compaction name an entry is what the original names it.
  lemma TitleAgrees(log: seq<Record>, k: nat, begin: nat, end: nat, j: nat)
    requires ProperLog(log) && k <= |log| && begin + j < end <= NO_ID
    requires var t := Title(Nth(Replay(Emitted(log, k, begin, end)), j));
             t.Some? && t.value.tag.len != REMOVED
    ensures var t, was := Title(Nth(Replay(Emitted(log, k, begin, end)), j)), Title(Nth(Replay(log), begin + j));
            was.Some? && was.value.tag.ty == t.value.tag.ty && was.value.data == t.value.data
  {
    hide Emitted, Replay, LastMatch, SoFar, ProperLog;
    CompactedSoFar(log, k, begin, end, j, TYPE_REG);
    SoFarIsFinal(log, k, begin + j, TYPE_REG);
  }

  // A name that is kept is the first its entry gets.
  lemma KeptNameIsFirst(log: seq<Record>, k: nat, begin: nat, end: nat)
    requires ProperLog(log) && k < |log| && end <= NO_ID
    requires var e := EmittedAt(log, k, begin, end);
             e.Some? && Class(e.value.tag.ty) == NAME && begin + e.value.tag.id < end
    ensures var j := EmittedAt(log, k, begin, end).value.tag.id;
            Value(Emitted(log, k, begin, end), j, TYPE_REG) == None
  {
    hide Emitted, Fate, WalkBack, Value;
    var e := EmittedAt(log, k, begin, end).value;
    var r, later, j := log[k], log[k + 1..], e.tag.id;
    assert Matches(e, 256, TYPE_REG) && KeyGrain(TYPE_REG) == 256 && Proper(r);
    EmittedIsFound(log, k, begin, end, j, TYPE_REG);
    CompactedSoFar(log, k, begin, end, j, TYPE_REG);
    hide EmittedAt;
    NameIsHit(log[..k], r, later, begin + j);
    assert log[k..] == [r] + later;
  }

  lemma NameIsHit(before: seq<Record>, r: Record, later: seq<Record>, id: nat)
    requires WalkBack(later, id, 256, TYPE_REG) == At(r.tag.id) && IsAttr(r.tag.ty) && Matches(r, 256, TYPE_REG)
    requires Proper(r)
    ensures SoFar(before, [r] + later, id, 256, TYPE_REG) == None
  {
    hide WalkBack, Matches, Proper;
    WalkInParts([r], later, id, 256, TYPE_REG);
    WalkOne(r, r.tag.id, 256, TYPE_REG);
  }

  lemma SortedSoFar(log: seq<Record>, k: nat, begin: nat, end: nat)
    requires ProperLog(log) && Sorted(Replay(log)) && k <= |log| && begin <= end <= NO_ID
    requires var es := Replay(Emitted(log, k, begin, end));
             |es| <= end - begin && forall i :: 0 <= i < |es| && Title(es[i]).Some? ==>
               Title(es[i]).value.tag.len != REMOVED
    ensures Sorted(Replay(Emitted(log, k, begin, end)))
  {
    hide Emitted, Replay, Title, Compare, ProperLog;
    var es, was := Replay(Emitted(log, k, begin, end)), Replay(log);
    forall i, j | 0 <= i < j < |es| && NameOf(es[i]).Some? && NameOf(es[j]).Some?
      ensures Compare(NameOf(es[i]).value, NameOf(es[j]).value) == LT
    {
      TitleAgrees(log, k, begin, end, i);
      TitleAgrees(log, k, begin, end, j);
      NothingUntitled();
      assert begin + i < |was| && begin + j < |was|;
      assert NameOf(was[begin + i]) == NameOf(es[i]) && NameOf(was[begin + j]) == NameOf(es[j]);
    }
  }

  lemma NothingUntitled()
    ensures Title([]) == None
  {
  }

  // One record of the compaction more.
  ghost predicate Grows(log: seq<Record>, k: nat, begin: nat, end: nat, e: Record) {
    && Orderly(log) && ProperLog(log) && k < |log| && begin <= end <= NO_ID
    && EmittedAt(log, k, begin, end) == Some(e) && Orderly(Emitted(log, k, begin, end))
  }

  lemma GrownRecord(log: seq<Record>, k: nat, begin: nat, end: nat, e: Record)
    requires Grows(log, k, begin, end, e)
    ensures Emitted(log, k + 1, begin, end) == Emitted(log, k, begin, end) + [e]
    ensures Proper(e) && IsAttr(e.tag.ty) && begin + e.tag.id < end
            && (Class(e.tag.ty) == NAME ==> e.tag.len != REMOVED)
  {
    hide Orderly, Fate;
    OneEmittedProper(log, k, begin, end);
    OrderlySuperFirst(log);
    EmittedIsFound(log, k, begin, end, e.tag.id, TYPE_REG);
    hide EmittedAt;
  }

  lemma GrownTidy(log: seq<Record>, k: nat, begin: nat, end: nat, e: Record)
    requires Grows(log, k, begin, end, e)
    ensures var rest := Emitted(log, k, begin, end);
            Tidy(rest + [e]) && Replay(rest + [e]) == Apply(Replay(rest), e) && |Replay(rest + [e])| <= end - begin
  {
    hide Emitted, EmittedAt, Fate, Orderly, Tidy, Replay, Apply, AboutEntries, ProperLog, Unspliced;
    var rest := Emitted(log, k, begin, end);
    GrownRecord(log, k, begin, end, e);
    EmittedProper(log, k, begin, end);
    EmittedProper(log, k + 1, begin, end);
    OrderlyIsTidy(rest);
    GrownInRange(rest, e, end - begin);
  }

  lemma GrownInRange(rest: seq<Record>, e: Record, n: nat)
    requires AboutEntries(rest, n) && AboutEntries(rest + [e], n) && n <= NO_ID && Tidy(rest) && Proper(e)
    requires IsAttr(e.tag.ty)
    ensures Tidy(rest + [e]) && Replay(rest + [e]) == Apply(Replay(rest), e) && |Replay(rest + [e])| <= n
  {
    hide Tidy, Replay, Apply, AboutEntries, Unspliced;
    FewEntries(rest, n);
    FewEntries(rest + [e], n);
    ReplayMore(rest, e);
    TidySnoc(rest, e);
  }

  lemma GrownTitles(log: seq<Record>, k: nat, begin: nat, end: nat, e: Record)
    requires Grows(log, k, begin, end, e)
    ensures var after := Apply(Replay(Emitted(log, k, begin, end)), e);
            && (forall i :: 0 <= i < |after| && Title(after[i]).Some? ==> Title(after[i]).value.tag.len != REMOVED)
            && (Class(e.tag.ty) == NAME ==> Title(Nth(after, e.tag.id)) == Some(e))
  {
    GrownRecord(log, k, begin, end, e);
    OrderlySuperFirst(Emitted(log, k, begin, end));
    hide Orderly, Emitted, EmittedAt, Replay, Apply, Title, SuperFirst, NamesStay, ProperLog, Nth;
    TitlesStay(Replay(Emitted(log, k, begin, end)), e);
  }

  lemma GrownSorted(log: seq<Record>, k: nat, begin: nat, end: nat, e: Record)
    requires Grows(log, k, begin, end, e)
    ensures Sorted(Apply(Replay(Emitted(log, k, begin, end)), e))
  {
    hide Orderly, Tidy, Emitted, EmittedAt, Replay, Apply, Sorted, Title, ProperLog, Nth;
    GrownRecord(log, k, begin, end, e);
    GrownTidy(log, k, begin, end, e);
    GrownTitles(log, k, begin, end, e);
    OrderlyIsTidy(log);
    SortedSoFar(log, k + 1, begin, end);
  }

  lemma GrownUntitled(log: seq<Record>, k: nat, begin: nat, end: nat, e: Record)
    requires Grows(log, k, begin, end, e) && Class(e.tag.ty) == NAME
    ensures Title(Nth(Replay(Emitted(log, k, begin, end)), e.tag.id)).None?
  {
    GrownRecord(log, k, begin, end, e);
    OrderlySuperFirst(Emitted(log, k, begin, end));
    hide Orderly, Emitted, EmittedAt, Replay, SuperFirst, NamesStay, Title;
    KeptNameIsFirst(log, k, begin, end);
    UntitledHasNoValue(Emitted(log, k, begin, end), e.tag.id);
  }

  // A name outside the names that are searched is the superblock's, in front.
  lemma GrownSuper(log: seq<Record>, k: nat, begin: nat, end: nat, e: Record)
    requires Grows(log, k, begin, end, e) && Class(e.tag.ty) == NAME
    ensures IsName(e.tag.ty) || e.tag.id == 0
  {
    GrownRecord(log, k, begin, end, e);
    GrownTidy(log, k, begin, end, e);
    GrownTitles(log, k, begin, end, e);
    OrderlySuperFirst(log);
    hide Orderly, Tidy, Emitted, EmittedAt, Replay, Apply, Sorted, Title;
    TitleAgrees(log, k + 1, begin, end, e.tag.id);
    NothingUntitled();
  }

  lemma EmittedFits(log: seq<Record>, k: nat, begin: nat, end: nat, e: Record)
    requires Grows(log, k, begin, end, e)
    ensures Orderly(Emitted(log, k + 1, begin, end))
  {
    GrownRecord(log, k, begin, end, e);
    GrownTidy(log, k, begin, end, e);
    GrownSorted(log, k, begin, end, e);
    if Class(e.tag.ty) == NAME {
      GrownUntitled(log, k, begin, end, e);
      GrownSuper(log, k, begin, end, e);
    }
    hide Orderly, Tidy, Emitted, EmittedAt, Replay, Apply, Sorted, Title, Nth, Settled, IsSuper;
    OrderlySnoc(Emitted(log, k, begin, end), e);
  }

  lemma ReplayMore(rest: seq<Record>, e: Record)
    ensures Replay(rest + [e]) == Apply(Replay(rest), e)
  {
    assert (rest + [e])[..|rest|] == rest;
  }

  lemma UntitledHasNoValue(log: seq<Record>, id: nat)
    requires Value(log, id, TYPE_REG) == None && SuperFirst(Replay(log))
    ensures Title(Nth(Replay(log), id)).None?
  {
    assert KeyGrain(TYPE_REG) == 256;
    NothingUntitled();
  }

  lemma TitlesStay(es: seq<History>, e: Record)
    requires SuperFirst(es) && Proper(e) && IsAttr(e.tag.ty) && (Class(e.tag.ty) == NAME ==> e.tag.len != REMOVED)
    ensures forall i :: 0 <= i < |Apply(es, e)| && Title(Apply(es, e)[i]).Some? ==>
              Title(Apply(es, e)[i]).value.tag.len != REMOVED
    ensures Class(e.tag.ty) == NAME ==> Title(Nth(Apply(es, e), e.tag.id)) == Some(e)
  {
    var after := Apply(es, e);
    forall i | 0 <= i < |after| && Title(after[i]).Some?
      ensures Title(after[i]).value.tag.len != REMOVED
    {
      NthOfApply(es, e, i);
      TitleOfAppend(Nth(es, i), e);
      NothingUntitled();
    }
    NthOfApply(es, e, e.tag.id);
    TitleOfAppend(Nth(es, e.tag.id), e);
  }

  lemma OneMoreOrderly(log: seq<Record>, k: nat, begin: nat, end: nat)
    requires Orderly(log) && ProperLog(log) && k < |log| && begin <= end <= NO_ID
             && Orderly(Emitted(log, k, begin, end))
    ensures Orderly(Emitted(log, k + 1, begin, end))
  {
    hide Orderly, ProperLog, EmittedAt;
    var e := EmittedAt(log, k, begin, end);
    if e.Some? {
      hide Emitted;
      EmittedFits(log, k, begin, end, e.value);
    }
  }

  lemma {:induction false} EmittedOrderly(log: seq<Record>, k: nat, begin: nat, end: nat)
    requires Orderly(log) && ProperLog(log) && k <= |log| && begin <= end <= NO_ID
    ensures Orderly(Emitted(log, k, begin, end))
  {
    hide *;
    if k == 0 {
      NothingEmitted(log, begin, end);
    } else {
      EmittedOrderly(log, k - 1, begin, end);
      OneMoreOrderly(log, k - 1, begin, end);
    }
  }

  lemma NothingEmitted(log: seq<Record>, begin: nat, end: nat)
    requires ProperLog(log)
    ensures Orderly(Emitted(log, 0, begin, end))
  {
    assert Emitted(log, 0, begin, end) == [];
  }

  // What survives to the end of a log is about an entry that exists there.
  lemma {:induction false} SurvivorExists(log: seq<Record>, k: nat)
    requires ProperLog(log) && k < |log| && IsAttr(log[k].tag.ty)
    ensures var fate := Fate(log[k].tag, log[k + 1..]);
            fate.Some? ==> fate.value.id < |Replay(log)|
    decreases |log|
  {
    var shorter, r, later := log[..|log| - 1], log[|log| - 1], log[k + 1..];
    assert Replay(log) == Apply(Replay(shorter), r) && Proper(r);
    hide Replay, Apply, FilterStep;
    if k + 1 < |log| {
      assert later[..|later| - 1] == shorter[k + 1..] && later[|later| - 1] == r;
      SurvivorExists(shorter, k);
      var before := Fate(log[k].tag, shorter[k + 1..]);
      if before.Some? {
        SurvivorStep(Replay(shorter), before.value, r);
      }
    } else {
      SurvivorStep(Replay(shorter), r.tag, r);
    }
  }

  lemma SurvivorStep(es: seq<History>, f: Tag, r: Record)
    requires Proper(r)
    ensures f.id < |es| && FilterStep(f, r).Some? ==> FilterStep(f, r).value.id < |Apply(es, r)|
    ensures IsAttr(r.tag.ty) ==> r.tag.id < |Apply(es, r)|
  {
    hide SameKey;
  }

  lemma {:induction false} EmittedExist(log: seq<Record>, k: nat, begin: nat, end: nat)
    requires ProperLog(log) && k <= |log| && end <= NO_ID
    ensures forall i :: 0 <= i < |Emitted(log, k, begin, end)| ==>
              begin + Emitted(log, k, begin, end)[i].tag.id < |Replay(log)|
  {
    hide Replay, Fate;
    if k > 0 {
      EmittedExist(log, k - 1, begin, end);
      assert Proper(log[k - 1]);
      if IsAttr(log[k - 1].tag.ty) {
        SurvivorExists(log, k - 1);
      }
    }
  }

  lemma CompactedCount(log: seq<Record>, begin: nat, end: nat)
    requires ProperLog(log) && begin <= end <= NO_ID
    ensures var n := |Replay(Compacted(log, begin, end))|;
            n <= end - begin && (n == 0 || begin + n <= |Replay(log)|)
  {
    var out, n := Compacted(log, begin, end), |Replay(log)| - begin;
    EmittedProper(log, |log|, begin, end);
    EmittedExist(log, |log|, begin, end);
    hide Emitted, ProperLog;
    FewEntries(out, end - begin);
    if n >= 0 {
      FewEntries(out, n);
    } else {
      assert out == [] && Replay(out) == [];
    }
  }

  // What is named stays named by the compaction, and the superblock stays in front.
  lemma CompactedSettled(log: seq<Record>, begin: nat, end: nat)
    requires Orderly(log) && ProperLog(log) && begin <= end <= NO_ID && Settled(Replay(log))
    ensures Settled(Replay(Compacted(log, begin, end)))
  {
    CompactedCount(log, begin, end);
    OrderlySuperFirst(log);
    hide Compacted, Replay, Orderly, ProperLog, Title, Nth;
    var es, was := Replay(Compacted(log, begin, end)), Replay(log);
    forall i | 0 <= i < |es|
      ensures NameOf(es[i]).Some? || (i == 0 && IsSuper(es[i]))
    {
      CompactedTitle(log, begin, end, i);
      var h := was[begin + i];
      assert NameOf(h).Some? || (begin + i == 0 && IsSuper(h));
    }
  }

  lemma CompactedTitle(log: seq<Record>, begin: nat, end: nat, i: nat)
    requires ProperLog(log) && begin <= end <= NO_ID && begin + i < end
    requires i < |Replay(Compacted(log, begin, end))| && begin + i < |Replay(log)| && SuperFirst(Replay(log))
    ensures var t, was := Title(Replay(Compacted(log, begin, end))[i]), Title(Replay(log)[begin + i]);
            was.Some? ==> t.Some? && t.value.tag.ty == was.value.tag.ty
  {
    CompactionKeepsMeaning(log, begin, end, i, TYPE_REG);
    assert KeyGrain(TYPE_REG) == 256;
    hide Compacted, Replay, ProperLog, LastMatch;
  }

  /** Compacting any range of an orderly directory leaves an orderly directory, and its entries named. */
  lemma CompactedKeepsOrderly(log: seq<Record>, begin: nat, end: nat)
    requires Orderly(log) && ProperLog(log) && begin <= end <= NO_ID
    ensures Orderly(Compacted(log, begin, end))
    ensures Settled(Replay(log)) ==> Settled(Replay(Compacted(log, begin, end)))
  {
    EmittedOrderly(log, |log|, begin, end);
    hide Orderly;
    if Settled(Replay(log)) {
      CompactedSettled(log, begin, end);
    }
  }
}
