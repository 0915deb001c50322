/** The global state: kept in memory, stored as differences spread over all directories
    (littlefs/lfs.cpp:358-362, 1030-1046, 1414-1431, 1641-1687, 1814-1856, 3845-3866). */
module GlobalState {
  import opened Words
  import opened Tags
  import opened DirLog
  import opened DirLookup
  import opened Wrappers
  import Arith

  // lfs_gstate_t: the pending move (or the orphan flag and count) and the pair it is about.
  datatype GState = GState(tag: uint32, p0: uint32, p1: uint32)

  const ZERO := GState(0, 0, 0)

  function GXor(a: GState, b: GState): GState {
    GState(Xor32(a.tag, b.tag), Xor32(a.p0, b.p0), Xor32(a.p1, b.p1))
  }

  // The part that goes to the disk: all but the ten bits that count orphans.
  function Clear(g: GState): GState {
    g.(tag := g.tag - g.tag % 1024)
  }

  lemma ClearedIs(g: GState)
    ensures Clear(g).p0 == g.p0 && Clear(g).p1 == g.p1
    ensures Unpack(Clear(g).tag) == Unpack(g.tag).(len := 0)
    ensures Clear(g).tag >= 0x8000_0000 <==> g.tag >= 0x8000_0000
  {
    var m := g.tag / 1024;
    assert Clear(g).tag == m * 1024 && m * 1024 / 1024 == m;
    assert g.tag / 1048576 == m / 1024 == m * 1024 / 1048576;
  }

  lemma GXorLaws(a: GState, b: GState, c: GState)
    ensures GXor(a, b) == GXor(b, a)
    ensures GXor(GXor(a, b), c) == GXor(a, GXor(b, c))
    ensures GXor(a, ZERO) == a && GXor(ZERO, a) == a && GXor(a, a) == ZERO
  {
    hide Xor;
    XorCommutes(a.tag, b.tag);
    XorCommutes(a.p0, b.p0);
    XorCommutes(a.p1, b.p1);
    XorAssociates(a.tag, b.tag, c.tag);
    XorAssociates(a.p0, b.p0, c.p0);
    XorAssociates(a.p1, b.p1, c.p1);
    XorZero(a.tag);
    XorZero(a.p0);
    XorZero(a.p1);
    XorSelf(a.tag);
    XorSelf(a.p0);
    XorSelf(a.p1);
  }

  function Halves(a: nat, k: nat): nat {
    if k == 0 then a else Halves(a / 2, k - 1)
  }

  function Doubles(a: nat, k: nat): nat {
    if k == 0 then a else 2 * Doubles(a, k - 1)
  }

  lemma {:induction false} XorDown(a: nat, b: nat, k: nat)
    ensures Xor(Halves(a, k), Halves(b, k)) == Halves(Xor(a, b), k)
    decreases k
  {
    hide Xor;
    if k > 0 {
      XorHalves(a, b);
      XorDown(a / 2, b / 2, k - 1);
    }
  }

  lemma {:induction false} XorUp(a: nat, b: nat, k: nat)
    ensures Xor(Doubles(a, k), Doubles(b, k)) == Doubles(Xor(a, b), k)
    decreases k
  {
    if k > 0 {
      hide Xor;
      XorUp(a, b, k - 1);
      XorDouble(Doubles(a, k - 1), Doubles(b, k - 1));
    }
  }

  lemma XorDouble(x: nat, y: nat)
    ensures Xor(2 * x, 2 * y) == 2 * Xor(x, y)
  {
    hide Xor;
    XorHalves(2 * x, 2 * y);
    SameHalves(Xor(2 * x, 2 * y), 2 * Xor(x, y));
  }

  lemma TenBits(a: nat)
    ensures Halves(a, 10) == a / 1024 && Doubles(a, 10) == a * 1024
  {
    FiveBits(a);
    FiveBits(a / 32);
    HalvesTwice(a, 5, 5);
    FiveBits(32 * a);
    DoublesTwice(a, 5, 5);
  }

  lemma FiveBits(a: nat)
    ensures Halves(a, 5) == a / 32 && Doubles(a, 5) == a * 32
  {
    var b, c, d, e := a / 2, a / 2 / 2, a / 2 / 2 / 2, a / 2 / 2 / 2 / 2;
    assert Halves(a, 5) == Halves(b, 4) == Halves(c, 3) == Halves(d, 2) == Halves(e, 1) == e / 2;
    assert a / 32 == e / 2;
    assert Doubles(a, 1) == 2 * a;
    assert Doubles(a, 3) == 8 * a;
    assert Doubles(a, 5) == 32 * a;
  }

  lemma {:induction false} HalvesTwice(a: nat, j: nat, k: nat)
    ensures Halves(a, j + k) == Halves(Halves(a, j), k)
  {
    if j > 0 {
      HalvesTwice(a / 2, j - 1, k);
    }
  }

  lemma {:induction false} DoublesTwice(a: nat, j: nat, k: nat)
    ensures Doubles(a, j + k) == Doubles(Doubles(a, j), k)
  {
    if k > 0 {
      DoublesTwice(a, j, k - 1);
    }
  }

  lemma ClearWord(a: uint32, b: uint32)
    ensures Xor(a - a % 1024, b - b % 1024) == Xor(a, b) - Xor(a, b) % 1024
  {
    hide Xor, Halves, Doubles;
    TenBits(a);
    TenBits(b);
    TenBits(Xor(a, b));
    XorDown(a, b, 10);
    XorUp(a / 1024, b / 1024, 10);
    TenBits(a / 1024);
    TenBits(b / 1024);
    TenBits(Xor(a, b) / 1024);
  }

  lemma ClearIsLinear(a: GState, b: GState)
    ensures Clear(GXor(a, b)) == GXor(Clear(a), Clear(b))
  {
    hide Xor;
    ClearWord(a.tag, b.tag);
  }

  /* On the disk */

  function ToBytes(g: GState): (s: seq<byte>)
    ensures |s| == 12
  {
    Le32(g.tag) + Le32(g.p0) + Le32(g.p1)
  }

  function FromBytes(s: seq<byte>): GState
    requires |s| == 12
  {
    GState(FromLe32(s[..4]), FromLe32(s[4..8]), FromLe32(s[8..]))
  }

  lemma BytesRoundTrip(g: GState)
    ensures FromBytes(ToBytes(g)) == g
    ensures var s := ToBytes(g);
            forall i :: 0 <= i < 4 ==> s[i] == Le32(g.tag)[i] && s[4 + i] == Le32(g.p0)[i] && s[8 + i] == Le32(g.p1)[i]
  {
    hide Le32, FromLe32;
    ByteOrderRoundTrip(g.tag);
    ByteOrderRoundTrip(g.p0);
    ByteOrderRoundTrip(g.p1);
    var s := ToBytes(g);
    assert s[..4] == Le32(g.tag) && s[4..8] == Le32(g.p0) && s[8..] == Le32(g.p1);
  }

  function StateRecord(g: GState): Record {
    Record(Tag(TYPE_MOVESTATE, NO_ID, 12), ToBytes(g))
  }

  // The difference a directory stores.
  function StoredIn(log: seq<Record>): GState {
    var found := LastOfType(log, TYPE_MOVESTATE);
    if found.None? || found.value.tag.len == REMOVED then ZERO else FromBytes(Fit(found.value.data, 12))
  }

  lemma StoredAfter(log: seq<Record>, g: GState)
    ensures StoredIn(log + [StateRecord(g)]) == g
  {
    var r := StateRecord(g);
    assert (log + [r])[..|log|] == log;
    assert Fit(r.data, 12) == r.data;
    BytesRoundTrip(g);
  }

  /** lfs_dir_getgstate */
  method GetGState(block: seq<byte>, dirOff: nat, etag: uint32, g: GState, ghost log: seq<Record>) returns (h: GState)
    requires LogAt(block, dirOff, Low(etag), log)
    ensures h == GXor(g, StoredIn(log))
  {
    hide Xor, LogAt, LastOfType, FromLe32;
    GXorLaws(g, g, g);
    var temp := GetGlobal(block, dirOff, etag, TYPE_MOVESTATE, 12, log);
    h := g;
    if temp.Ok? {
      // differences add up
      h := GXor(g, FromBytes(temp.value.1));
    }
  }

  /* Over all directories on the tail list */

  function XorAll(ds: seq<GState>): GState {
    if ds == [] then ZERO else GXor(XorAll(ds[..|ds| - 1]), ds[|ds| - 1])
  }

  lemma {:induction false} XorAllConcat(a: seq<GState>, b: seq<GState>)
    ensures XorAll(a + b) == GXor(XorAll(a), XorAll(b))
    decreases |b|
  {
    hide GXor;
    if b == [] {
      assert a + b == a;
      GXorLaws(XorAll(a), ZERO, ZERO);
    } else {
      var rest, d := b[..|b| - 1], b[|b| - 1];
      assert (a + b)[..|a + b| - 1] == a + rest;
      XorAllConcat(a, rest);
      GXorLaws(XorAll(a), XorAll(rest), d);
    }
  }

  lemma XorAllOne(d: GState)
    ensures XorAll([d]) == d
  {
    assert [d][..0] == [];
    GXorLaws(d, d, d);
  }

  lemma XorAllNone()
    ensures XorAll([]) == ZERO
  {
  }

  lemma XorAllInsert(ds: seq<GState>, i: nat, parts: seq<GState>)
    requires i <= |ds|
    ensures XorAll(ds[..i] + parts + ds[i..]) == GXor(XorAll(ds), XorAll(parts))
  {
    hide GXor, XorAll;
    XorAllConcat(ds[..i] + parts, ds[i..]);
    XorAllConcat(ds[..i], parts);
    XorAllConcat(ds[..i], ds[i..]);
    assert ds[..i] + ds[i..] == ds;
    GXorSwap(XorAll(ds[..i]), XorAll(parts), XorAll(ds[i..]));
  }

  lemma GXorSwap(a: GState, b: GState, c: GState)
    ensures GXor(GXor(a, b), c) == GXor(GXor(a, c), b)
  {
    hide GXor;
    GXorLaws(a, b, c);
    GXorLaws(a, c, b);
    GXorLaws(b, c, a);
  }

  lemma XorAllMiddle(a: seq<GState>, d: GState, b: seq<GState>)
    ensures XorAll(a + [d] + b) == GXor(XorAll(a + b), d)
  {
    XorAllOne(d);
    hide GXor, XorAll;
    XorAllConcat(a + [d], b);
    XorAllConcat(a, [d]);
    XorAllConcat(a, b);
    GXorSwap(XorAll(a), d, XorAll(b));
  }

  // One directory's difference, picked out of the sum.
  lemma XorAllAt(ds: seq<GState>, i: nat)
    requires i < |ds|
    ensures XorAll(ds) == GXor(XorAll(ds[..i] + ds[i + 1..]), ds[i])
  {
    hide GXor, XorAll;
    XorAllMiddle(ds[..i], ds[i], ds[i + 1..]);
    assert ds == ds[..i] + [ds[i]] + ds[i + 1..];
  }

  lemma XorAllUpdate(ds: seq<GState>, i: nat, x: GState)
    requires i < |ds|
    ensures XorAll(ds[i := GXor(x, ds[i])]) == GXor(XorAll(ds), x)
  {
    hide GXor, XorAll;
    var es := ds[i := GXor(x, ds[i])];
    var rest := XorAll(ds[..i] + ds[i + 1..]);
    assert es[..i] + es[i + 1..] == ds[..i] + ds[i + 1..];
    XorAllAt(ds, i);
    XorAllAt(es, i);
    GXorLaws(x, ds[i], x);
    GXorLaws(rest, ds[i], x);
  }

  lemma XorAllLast(rest: seq<GState>, d: GState)
    ensures XorAll(rest + [d]) == GXor(XorAll(rest), d)
  {
    assert (rest + [d])[..|rest|] == rest;
  }

  lemma TakenOut(rest: seq<GState>, d: GState, b: seq<GState>, i: nat)
    requires multiset(rest + [d]) == multiset(b) && i < |b| && b[i] == d
    ensures multiset(rest) == multiset(b[..i] + b[i + 1..])
  {
    var others := b[..i] + b[i + 1..];
    assert b == b[..i] + [d] + b[i + 1..];
    assert multiset(b) == multiset(others) + multiset{d};
    assert multiset(rest + [d]) == multiset(rest) + multiset{d};
    assert multiset(rest) == multiset(b) - multiset{d} == multiset(others);
  }

  /** The sum does not depend on the order of the list. */
  lemma {:induction false} XorAllInAnyOrder(a: seq<GState>, b: seq<GState>)
    requires multiset(a) == multiset(b)
    ensures XorAll(a) == XorAll(b)
    decreases |a|
  {
    hide GXor;
    if a == [] {
      assert |multiset(b)| == |b| == 0;
    } else {
      var d, rest := a[|a| - 1], a[..|a| - 1];
      assert a == rest + [d];
      assert d in multiset(b);
      var i :| 0 <= i < |b| && b[i] == d;
      TakenOut(rest, d, b, i);
      hide XorAll;
      XorAllInAnyOrder(rest, b[..i] + b[i + 1..]);
      XorAllAt(b, i);
      XorAllLast(rest, d);
    }
  }

  // No directory stores orphan counts.
  ghost predicate Masked(ds: seq<GState>) {
    forall i :: 0 <= i < |ds| ==> Clear(ds[i]) == ds[i]
  }

  class Globals {
    var gstate: GState  // as memory has it
    var gdisk: GState   // as the disk has it
    var gdelta: GState  // taken over from dropped directories
    var dirs: seq<GState> // the differences of the directories on the tail list, in order

    constructor (gstate: GState, gdisk: GState, dirs: seq<GState>)
      ensures this.gstate == gstate && this.gdisk == gdisk && this.dirs == dirs && gdelta == ZERO
    {
      this.gstate, this.gdisk, this.gdelta, this.dirs := gstate, gdisk, ZERO, dirs;
    }

    /** What a mount adds up is what memory believes the disk to hold. */
    ghost predicate Conserved()
      reads this
    {
      XorAll(dirs) == Clear(gdisk) && gdelta == ZERO && Masked(dirs)
    }

    // What a commit has to store (lfs.cpp:1661-1668 and 1814-1822).
    function Owed(): GState
      reads this
    {
      Clear(GXor(GXor(gstate, gdisk), gdelta))
    }

    lemma PaidOff()
      ensures GXor(GXor(Clear(gdisk), Owed()), Clear(gdelta)) == Clear(gstate)
    {
      hide GXor, Clear;
      var s, d, e := gstate, gdisk, gdelta;
      ClearIsLinear(GXor(s, d), e);
      ClearIsLinear(s, d);
      GXorLaws(Clear(s), Clear(d), Clear(e));
      GXorLaws(Clear(d), Clear(d), Clear(s));
      GXorLaws(Clear(d), Clear(e), Clear(e));
      GXorLaws(Clear(e), Clear(e), Clear(s));
      GXorLaws(Clear(d), GXor(Clear(s), Clear(d)), Clear(e));
      GXorLaws(GXor(Clear(d), GXor(Clear(s), Clear(d))), Clear(e), Clear(e));
      GXorLaws(Clear(s), Clear(e), Clear(e));
    }

    // A commit appended to directory i, whatever else it holds.
    method Store(i: nat)
      requires i < |dirs| && Masked(dirs)
      modifies this
      ensures Masked(dirs)
      ensures XorAll(dirs) == GXor(XorAll(old(dirs)), old(Owed()))
      ensures |dirs| == |old(dirs)| && gstate == gdisk == old(gstate) && gdelta == ZERO
      ensures dirs == old(dirs)[i := dirs[i]]
    {
      hide GXor, Clear, XorAll;
      var delta := Owed();
      GXorLaws(XorAll(dirs), ZERO, ZERO);
      if delta != ZERO {
        XorAllUpdate(dirs, i, delta);
        ClearIsLinear(delta, dirs[i]);
        ClearTwice(GXor(GXor(gstate, gdisk), gdelta));
        dirs := dirs[i := GXor(delta, dirs[i])];
      }
      // the disk has now what memory has
      gdisk, gdelta := gstate, ZERO;
    }

    /** lfs_dir_commit to directory i. */
    method Commit(i: nat)
      requires Conserved() && i < |dirs|
      modifies this
      ensures Conserved() && gstate == gdisk == old(gstate)
      ensures |dirs| == |old(dirs)| && dirs == old(dirs)[i := dirs[i]]
    {
      hide GXor, Clear, XorAll;
      PaidOff();
      ClearZero();
      GXorLaws(GXor(Clear(gdisk), Owed()), ZERO, ZERO);
      Store(i);
    }

    // A new directory is written, which nothing leads to yet; it stores what is owed.
    method WriteApart() returns (d: GState)
      requires gdelta == ZERO
      modifies this`gdisk, this`gdelta
      ensures d == old(Owed()) && Clear(d) == d && gdisk == gstate && gdelta == ZERO && Owed() == ZERO
    {
      hide GXor, Clear;
      d := Owed();
      ClearTwice(GXor(GXor(gstate, gdisk), gdelta));
      ClearZero();
      GXorLaws(gstate, gstate, gstate);
      GXorLaws(ZERO, ZERO, ZERO);
      gdisk, gdelta := gstate, ZERO;
    }

    /** lfs_dir_compact of directory i, which splits off new directories, the last of them written first, and
        then writes its own block, if it fits: that links the new ones. A compaction that fails keeps the sum
        right exactly if it had split nothing off or owed nothing. */
    method Compact(i: nat, splits: nat, fits: bool) returns (ok: bool)
      requires Conserved() && i < |dirs|
      modifies this
      ensures ok == fits && gstate == old(gstate)
      ensures ok ==> Conserved() && gdisk == gstate && |dirs| == |old(dirs)| + splits
      ensures ok ==> dirs[..i] == old(dirs)[..i] && dirs[i + 1 + splits..] == old(dirs)[i + 1..]
      ensures !ok ==> dirs == old(dirs) && (Conserved() <==> splits == 0 || old(Owed()) == ZERO)
    {
      hide GXor, Clear, XorAll;
      var parts: seq<GState> := [];
      ghost var owed, was := Owed(), gdisk;
      GXorLaws(owed, ZERO, ZERO);
      PaidOff();
      OwesNothing();
      XorAllNone();
      for k := 0 to splits
        invariant dirs == old(dirs) && gstate == old(gstate) && gdelta == ZERO && |parts| == k && Masked(parts)
        invariant GXor(XorAll(parts), Owed()) == owed && gdisk == if k == 0 then was else gstate
      {
        ghost var sum, more := XorAll(parts), Owed();
        var d := WriteApart();
        XorAllConcat([d], parts);
        XorAllOne(d);
        GXorLaws(sum, d, d);
        GXorLaws(owed, ZERO, ZERO);
        parts := [d] + parts;
      }
      ok := fits;
      if fits {
        ghost var before, due := XorAll(dirs), Owed();
        Store(i);
        XorAllInsert(dirs, i + 1, parts);
        GXorLaws(before, due, XorAll(parts));
        GXorLaws(due, XorAll(parts), ZERO);
        ClearZero();
        GXorLaws(GXor(Clear(was), owed), ZERO, ZERO);
        dirs := dirs[..i + 1] + parts + dirs[i + 1..];
      }
    }

    // With nothing taken over, nothing is owed exactly if memory and disk agree.
    lemma OwesNothing()
      requires gdelta == ZERO
      ensures Owed() == ZERO <==> Clear(gstate) == Clear(gdisk)
    {
      hide GXor, Clear;
      GXorLaws(GXor(gstate, gdisk), ZERO, ZERO);
      ClearIsLinear(gstate, gdisk);
      GXorLaws(Clear(gstate), Clear(gstate), Clear(gdisk));
      GXorLaws(Clear(gstate), Clear(gdisk), Clear(gdisk));
      GXorLaws(Clear(gdisk), Clear(gdisk), Clear(gdisk));
      GXorLaws(Clear(gstate), ZERO, ZERO);
    }

    // Take the tail's difference over before it is dropped (lfs.cpp:1415-1419).
    method Steal(i: nat)
      requires Conserved() && i + 1 < |dirs|
      modifies this`gdelta
      ensures gdelta == dirs[i + 1]
    {
      hide Xor;
      GXorLaws(dirs[i + 1], ZERO, ZERO);
      gdelta := GXor(gdelta, dirs[i + 1]);
    }

    /** lfs_dir_drop of the directory behind i: one commit stores the difference and unlinks it. */
    method Drop(i: nat)
      requires Conserved() && i + 1 < |dirs|
      modifies this
      ensures Conserved() && gstate == gdisk == old(gstate) && |dirs| == |old(dirs)| - 1
      ensures dirs[..i] == old(dirs)[..i] && dirs[i + 1..] == old(dirs)[i + 2..]
    {
      hide GXor, Clear, XorAll;
      Steal(i);
      PaidOff();
      ghost var was, owed, d := XorAll(dirs), Owed(), gdelta;
      ghost var g := Clear(gdisk);
      Store(i);
      XorAllAt(dirs, i + 1);
      ghost var rest := XorAll(dirs[..i + 1] + dirs[i + 2..]);
      assert XorAll(dirs) == GXor(g, owed) == GXor(rest, d);
      GXorLaws(rest, d, d);
      GXorLaws(d, d, d);
      GXorLaws(rest, ZERO, ZERO);
      assert rest == GXor(GXor(g, owed), d) == Clear(gstate);
      dirs := dirs[..i + 1] + dirs[i + 2..];
    }

    /** A drop whose commit fails leaves the tail's difference behind in memory, and the next
        commit stores it a second time: the sum is then wrong, unless the difference was nothing. */
    method FailedDropThenCommit(i: nat, j: nat)
      requires Conserved() && i + 1 < |dirs| && j < |dirs|
      modifies this
      ensures Conserved() <==> old(dirs[i + 1]) == ZERO
    {
      hide GXor, Clear, XorAll;
      Steal(i);
      PaidOff();
      ghost var owed, d := Owed(), gdelta;
      ghost var g := Clear(gdisk);
      Store(j);
      var now := GXor(g, owed);
      GXorLaws(now, d, d);
      GXorLaws(now, ZERO, ZERO);
      GXorLaws(now, now, d);
      GXorLaws(d, d, d);
    }

    lemma ClearTwice(g: GState)
      ensures Clear(Clear(g)) == Clear(g)
    {
    }

    lemma ClearZero()
      ensures Clear(ZERO) == ZERO
    {
    }

    // lfs_fs_prepmove and lfs_fs_preporphans only change memory.
    method Prepare(g: GState)
      requires Conserved()
      modifies this`gstate
      ensures Conserved() && gstate == g
    {
      gstate := g;
    }

    /** Mounting after a power failure, over the list in any order: the state is what the disk was
        given last, with the orphan count reduced to whether there were any. */
    method Remount(found: seq<GState>) returns (g: GState)
      requires Conserved() && multiset(found) == multiset(dirs)
      ensures g == Recovered(gdisk)
    {
      hide GXor, Clear;
      g := ZERO;
      assert found[..0] == [];
      for i := 0 to |found|
        invariant g == XorAll(found[..i])
      {
        assert found[..i + 1][..i] == found[..i];
        g := GXor(g, found[i]);
      }
      assert found[..|found|] == found;
      XorAllInAnyOrder(found, dirs);
      g := g.(tag := (g.tag + if g.tag >= 0x8000_0000 then 1 else 0) % 0x1_0000_0000);
      RecoveredTag(gdisk);
    }
  }

  /** So it happens: any difference held by two directories is lost to a drop that fails, */
  method DropThatLoses(d: GState) returns (g: Globals)
    requires d != ZERO && Masked([d])
    ensures !g.Conserved()
  {
    hide GXor, Clear, XorAll;
    var gdisk := ZERO;
    g := new Globals(gdisk, gdisk, [d, d]);
    assert [d, d] == [d] + [d] && [d][0] == d;
    XorAllConcat([d], [d]);
    XorAllOne(d);
    GXorLaws(d, d, d);
    g.ClearZero();
    g.FailedDropThenCommit(0, 1);
  }

  /** and any new state to a compaction that splits and then fails. */
  method SplitThatLoses(d: GState) returns (g: Globals)
    requires d != ZERO && Clear(d) == d
    ensures !g.Conserved()
  {
    hide GXor, Clear, XorAll;
    g := new Globals(d, ZERO, [ZERO]);
    XorAllOne(ZERO);
    g.ClearZero();
    GXorLaws(d, ZERO, ZERO);
    var _ := g.Compact(0, 1, false);
  }

  // The tag's flag for orphans is its top bit; lfs_fs_preporphans keeps it set exactly while the
  // count in the low ten bits is not zero.
  function Recovered(g: GState): GState {
    g.(tag := g.tag - g.tag % 1024 + if g.tag >= 0x8000_0000 then 1 else 0)
  }

  lemma RecoveredTag(g: GState)
    ensures Clear(g).tag % 1024 == 0 && Clear(g).tag + 1 < 0x1_0000_0000
    ensures Clear(g).tag >= 0x8000_0000 <==> g.tag >= 0x8000_0000
    ensures Recovered(g) == Clear(g).(tag := Clear(g).tag + if Clear(g).tag >= 0x8000_0000 then 1 else 0)
  {
  }
}
