/** Repairing the list of all directories after a power failure: directories without a parent are
    dropped, and links that a relocation left behind are corrected
    (littlefs/lfs.cpp:4436-4511, 1414-1431, 265-281). */
module Orphans {
  import opened Wrappers

  datatype Pair = Pair(a: nat, b: nat)

  // lfs_pair_cmp finds two pairs alike if they share a block; lfs_pair_sync asks for both.
  predicate Shares(p: Pair, q: Pair) {
    p.a == q.a || p.b == q.b || p.a == q.b || p.b == q.a
  }

  predicate Sync(p: Pair, q: Pair) {
    (p.a == q.a && p.b == q.b) || (p.a == q.b && p.b == q.a)
  }

  // One directory block pair on the list: how the link to it names it, whether the link out of it
  // stays within the directory, and the directories its entries name.
  datatype Dir = Dir(pair: Pair, split: bool, entries: seq<Pair>)

  // The entry a scan of one directory ends with.
  function LastShare(entries: seq<Pair>, pair: Pair): (r: Option<Pair>)
    ensures r.Some? <==> exists e :: e in entries && Shares(e, pair)
    ensures r.Some? ==> r.value in entries && Shares(r.value, pair)
  {
    if entries == [] then None
    else if Shares(entries[|entries| - 1], pair) then Some(entries[|entries| - 1])
    else LastShare(entries[..|entries| - 1], pair)
  }

  // lfs_fs_parent: the first directory on the list with such an entry.
  function Parent(list: seq<Dir>, pair: Pair): Option<Pair> {
    if list == [] then None else
      var here := LastShare(list[0].entries, pair);
      if here.Some? then here else Parent(list[1..], pair)
  }

  // All entries that name directories, in list order.
  function Children(list: seq<Dir>): seq<Pair> {
    if list == [] then [] else list[0].entries + Children(list[1..])
  }

  /* What the repair should leave */

  // The heads of directories are those reached by a soft link; the rest belong to the one before.
  predicate IsHead(list: seq<Dir>, i: nat)
    requires i < |list|
  {
    i > 0 && !list[i - 1].split
  }

  predicate IsOrphan(list: seq<Dir>, i: nat)
    requires i < |list|
  {
    IsHead(list, i) && Parent(list, list[i].pair).None?
  }

  // A kept directory, its link corrected to what its parent says.
  function Mended(list: seq<Dir>, i: nat): Dir
    requires i < |list|
  {
    var named := Parent(list, list[i].pair);
    if IsHead(list, i) && named.Some? && !Sync(named.value, list[i].pair) then list[i].(pair := named.value)
      else list[i]
  }

  function Repaired(list: seq<Dir>, n: nat): seq<Dir>
    requires n <= |list|
  {
    if n == 0 then []
    else if IsOrphan(list, n - 1) then Repaired(list, n - 1)
    else Repaired(list, n - 1) + [Mended(list, n - 1)]
  }

  // Different entries name different blocks.
  ghost predicate Distinct(es: seq<Pair>) {
    forall i, j :: 0 <= i < j < |es| ==> !Shares(es[i], es[j])
  }

  /** What an interrupted operation can leave: orphans are empty and of one block pair. */
  ghost predicate Sound(list: seq<Dir>) {
    && list != [] && Distinct(Children(list))
    && forall i :: 0 <= i < |list| && IsOrphan(list, i) ==> list[i].entries == [] && !list[i].split
  }

  lemma {:induction false} ParentOfConcat(a: seq<Dir>, b: seq<Dir>, pair: Pair)
    ensures Parent(a + b, pair) == if Parent(a, pair).Some? then Parent(a, pair) else Parent(b, pair)
  {
    if a == [] {
      assert a + b == b;
    } else {
      assert (a + b)[1..] == a[1..] + b;
      ParentOfConcat(a[1..], b, pair);
    }
  }

  lemma {:induction false} ChildrenOfConcat(a: seq<Dir>, b: seq<Dir>)
    ensures Children(a + b) == Children(a) + Children(b)
  {
    if a == [] {
      assert a + b == b;
    } else {
      assert (a + b)[1..] == a[1..] + b;
      ChildrenOfConcat(a[1..], b);
    }
  }

  lemma {:induction false} ParentIsEntry(list: seq<Dir>, pair: Pair)
    ensures Parent(list, pair).Some? ==>
              Parent(list, pair).value in Children(list) && Shares(Parent(list, pair).value, pair)
    ensures Parent(list, pair).None? ==> forall e :: e in Children(list) ==> !Shares(e, pair)
  {
    if list != [] {
      ParentIsEntry(list[1..], pair);
    }
  }

  /** What is found is in the first directory with an entry that shares a block, and the last such entry there. */
  lemma {:induction false} ParentIsFirst(list: seq<Dir>, pair: Pair) returns (i: nat, k: nat)
    requires Parent(list, pair).Some?
    ensures i < |list| && k < |list[i].entries| && Parent(list, pair).value == list[i].entries[k]
    ensures Shares(list[i].entries[k], pair)
    ensures forall n :: k < n < |list[i].entries| ==> !Shares(list[i].entries[n], pair)
    ensures forall m, n :: 0 <= m < i && 0 <= n < |list[m].entries| ==> !Shares(list[m].entries[n], pair)
  {
    if LastShare(list[0].entries, pair).Some? {
      i := 0;
      k := LastShareAt(list[0].entries, pair);
    } else {
      i, k := ParentIsFirst(list[1..], pair);
      i := i + 1;
      forall m, n | 0 <= m < i && 0 <= n < |list[m].entries|
        ensures !Shares(list[m].entries[n], pair)
      {
        if m > 0 {
          assert list[m] == list[1..][m - 1];
        }
      }
    }
  }

  lemma {:induction false} LastShareAt(entries: seq<Pair>, pair: Pair) returns (k: nat)
    requires LastShare(entries, pair).Some?
    ensures k < |entries| && LastShare(entries, pair).value == entries[k] && Shares(entries[k], pair)
    ensures forall n :: k < n < |entries| ==> !Shares(entries[n], pair)
  {
    k := |entries| - 1;
    if !Shares(entries[k], pair) {
      var front := entries[..k];
      k := LastShareAt(front, pair);
      assert forall n :: 0 <= n < |front| ==> front[n] == entries[n];
    }
  }

  // An entry is found under its own name.
  lemma ParentOfEntry(list: seq<Dir>, e: Pair)
    requires Distinct(Children(list)) && e in Children(list)
    ensures Parent(list, e) == Some(e)
  {
    ParentIsEntry(list, e);
    assert Shares(e, e);
    var found := Parent(list, e).value;
    var i :| 0 <= i < |Children(list)| && Children(list)[i] == e;
    var j :| 0 <= j < |Children(list)| && Children(list)[j] == found;
    assert Shares(Children(list)[i], Children(list)[j]) && Shares(Children(list)[j], Children(list)[i]);
    assert i == j;
  }

  // Mending changes no entry, and dropped directories have none: parents stay what they were.
  lemma {:induction false} RepairKeepsParents(list: seq<Dir>, n: nat, pair: Pair)
    requires Sound(list) && n <= |list|
    ensures Parent(Repaired(list, n), pair) == Parent(list[..n], pair)
    ensures Children(Repaired(list, n)) == Children(list[..n])
  {
    if n == 0 {
      assert list[..0] == [];
    } else {
      RepairKeepsParents(list, n - 1, pair);
      var d, rest := list[n - 1], Repaired(list, n - 1);
      assert list[..n] == list[..n - 1] + [d];
      ParentOfConcat(list[..n - 1], [d], pair);
      ChildrenOfConcat(list[..n - 1], [d]);
      assert [d][1..] == [] && d.entries + [] == d.entries;
      if !IsOrphan(list, n - 1) {
        var m := Mended(list, n - 1);
        ParentOfConcat(rest, [m], pair);
        ChildrenOfConcat(rest, [m]);
        assert [m][1..] == [] && m.entries == d.entries;
      } else {
        assert Children(list[..n - 1]) + [] == Children(list[..n - 1]);
      }
    }
  }

  /** The repaired list: every head's link names exactly the pair of an entry on the list, no entry is lost
      or changed, and everything that had a parent, and everything behind a hard link, is still there. */
  lemma RepairIsRight(list: seq<Dir>)
    requires Sound(list)
    ensures var done := Repaired(list, |list|);
            && Children(done) == Children(list)
            && (forall i :: 0 <= i < |done| && IsHead(done, i) ==>
               exists e :: e in Children(done) && Sync(e, done[i].pair))
            && (forall i :: 0 <= i < |list| && !IsOrphan(list, i) ==> Mended(list, i) in done)
  {
    assert list[..|list|] == list;
    RepairKeepsParents(list, |list|, Pair(0, 0));
    HeadsAreNamed(list, |list|);
    KeptStays(list, |list|);
  }

  /** Place by place: the directories with a parent, and those behind hard links, in their order, each with its entries
      and its way on, and its link left alone unless the parent names other blocks. */
  lemma {:induction false} RepairKeepsOrder(list: seq<Dir>, n: nat) returns (places: seq<nat>)
    requires n <= |list|
    ensures var done := Repaired(list, n);
            && |places| == |done| && (forall k :: 0 <= k < n ==> (k in places <==> !IsOrphan(list, k)))
            && (forall i :: 0 <= i < |done| ==> places[i] < n && IsKept(list, places[i], done[i]))
            && forall i, j :: 0 <= i < j < |places| ==> places[i] < places[j]
  {
    places := [];
    if n > 0 {
      places := RepairKeepsOrder(list, n - 1);
      if !IsOrphan(list, n - 1) {
        places := places + [n - 1];
      }
    }
  }

  ghost predicate IsKept(list: seq<Dir>, k: nat, d: Dir)
    requires k < |list|
  {
    && d.entries == list[k].entries && d.split == list[k].split
    && var named := Parent(list, list[k].pair);
       if k > 0 && !list[k - 1].split && named.Some? then
         if Sync(named.value, list[k].pair) then d.pair == list[k].pair else d.pair == named.value
       else d.pair == list[k].pair
  }

  // Hard links are only kept from the directory they belong to.
  lemma {:induction false} HeadsAreNamed(list: seq<Dir>, n: nat)
    requires Sound(list) && n <= |list|
    ensures var done := Repaired(list, n);
            && (forall i :: 0 <= i < |done| && IsHead(done, i) ==>
               exists e :: e in Children(list) && Sync(e, done[i].pair))
            && (n > 0 ==> done != [] && done[|done| - 1].split == list[n - 1].split)
  {
    if n > 0 {
      HeadsAreNamed(list, n - 1);
      var rest, done := Repaired(list, n - 1), Repaired(list, n);
      ParentIsEntry(list, list[n - 1].pair);
      hide Parent, Children, Sync, Shares;
      if n == 1 {
        assert rest == [];
      } else if IsOrphan(list, n - 1) {
        assert !list[n - 2].split;
      } else {
        forall i | 0 <= i < |done| && IsHead(done, i)
          ensures exists e :: e in Children(list) && Sync(e, done[i].pair)
        {
          if i < |rest| {
            assert done[i] == rest[i] && done[i - 1] == rest[i - 1];
            assert IsHead(rest, i);
          } else {
            assert done[i] == Mended(list, n - 1) && done[i - 1] == rest[|rest| - 1];
            assert Sync(Parent(list, list[n - 1].pair).value, done[i].pair);
          }
        }
      }
    }
  }

  lemma {:induction false} KeptStays(list: seq<Dir>, n: nat)
    requires n <= |list|
    ensures forall i :: 0 <= i < n && !IsOrphan(list, i) ==> Mended(list, i) in Repaired(list, n)
  {
    if n > 0 {
      KeptStays(list, n - 1);
      forall i | 0 <= i < n && !IsOrphan(list, i)
        ensures Mended(list, i) in Repaired(list, n)
      {
        if i < n - 1 {
          assert Mended(list, i) in Repaired(list, n - 1);
        }
      }
    }
  }

  /* Different heads */

  // The links to the heads among the first n directories.
  function Links(list: seq<Dir>, n: nat): seq<Pair>
    requires n <= |list|
  {
    if n == 0 then []
    else if IsHead(list, n - 1) then Links(list, n - 1) + [list[n - 1].pair]
    else Links(list, n - 1)
  }

  // The entries their parents name them by, where they have parents.
  function FoundBy(list: seq<Dir>, n: nat): seq<Pair>
    requires n <= |list|
  {
    if n == 0 then []
    else if IsHead(list, n - 1) && Parent(list, list[n - 1].pair).Some? then
      FoundBy(list, n - 1) + [Parent(list, list[n - 1].pair).value]
    else FoundBy(list, n - 1)
  }

  ghost predicate AllDifferent(es: seq<Pair>) {
    forall i, j :: 0 <= i < j < |es| ==> es[i] != es[j]
  }

  lemma {:induction false} LinksOfPrefix(a: seq<Dir>, d: Dir, n: nat)
    requires n <= |a|
    ensures Links(a + [d], n) == Links(a, n)
  {
    if n > 0 {
      LinksOfPrefix(a, d, n - 1);
      assert (a + [d])[n - 1] == a[n - 1] && (n > 1 ==> (a + [d])[n - 2] == a[n - 2]);
    }
  }

  lemma LinksOfMore(a: seq<Dir>, d: Dir)
    ensures Links(a + [d], |a + [d]|) == Links(a, |a|) + if a != [] && !a[|a| - 1].split then [d.pair] else []
  {
    LinksOfPrefix(a, d, |a|);
    assert (a + [d])[|a|] == d && (a != [] ==> (a + [d])[|a| - 1] == a[|a| - 1]);
  }

  // Repaired links are the entries' own, but perhaps for the order of the two blocks.
  ghost predicate InStep(es: seq<Pair>, links: seq<Pair>) {
    |es| == |links| && forall i :: 0 <= i < |es| ==> Sync(es[i], links[i])
  }

  lemma {:induction false} RepairedLinks(list: seq<Dir>, n: nat)
    requires Sound(list) && n <= |list|
    ensures InStep(FoundBy(list, n), Links(Repaired(list, n), |Repaired(list, n)|))
  {
    if n > 0 {
      RepairedLinks(list, n - 1);
      HeadsAreNamed(list, n - 1);
      hide Parent, Sound, Sync, LastShare;
      var rest, m := Repaired(list, n - 1), Mended(list, n - 1);
      if !IsOrphan(list, n - 1) {
        LinksOfMore(rest, m);
        MendedInStep(list, n - 1);
        assert Repaired(list, n) == rest + [m];
        hide Repaired, Links, Mended;
      }
    }
  }

  lemma MendedInStep(list: seq<Dir>, i: nat)
    requires i < |list|
    ensures var named := Parent(list, list[i].pair);
            IsHead(list, i) && named.Some? ==> Sync(named.value, Mended(list, i).pair)
  {
  }

  lemma {:induction false} NamedFrom(list: seq<Dir>, n: nat)
    requires n <= |list|
    ensures forall e :: e in FoundBy(list, n) ==>
              e in Children(list) && exists i :: 0 <= i < n && IsHead(list, i) && Parent(list, list[i].pair) == Some(e)
  {
    if n > 0 {
      NamedFrom(list, n - 1);
      ParentIsEntry(list, list[n - 1].pair);
    }
  }

  /** After the repair no two heads share a block exactly if before it no two found the same entry for a parent. */
  lemma HeadsApart(list: seq<Dir>)
    requires Sound(list)
    ensures var done := Repaired(list, |list|);
            Distinct(Links(done, |done|)) <==> AllDifferent(FoundBy(list, |list|))
  {
    var done := Repaired(list, |list|);
    var es, links := FoundBy(list, |list|), Links(done, |done|);
    RepairedLinks(list, |list|);
    NamedFrom(list, |list|);
    hide Repaired, Links, FoundBy, Sync, Shares;
    forall i, j | 0 <= i < j < |es|
      ensures Shares(links[i], links[j]) <==> es[i] == es[j]
    {
      OneEntry(Children(list), es[i], es[j], links[i], links[j]);
    }
  }

  lemma OneEntry(es: seq<Pair>, e: Pair, f: Pair, p: Pair, q: Pair)
    requires Distinct(es) && e in es && f in es && Sync(e, p) && Sync(f, q)
    ensures Shares(p, q) <==> e == f
  {
    var i :| 0 <= i < |es| && es[i] == e;
    var j :| 0 <= j < |es| && es[j] == f;
    assert Shares(es[i], es[j]) <==> Shares(es[j], es[i]);
  }

  // Some entry shares a block with both links.
  ghost predicate Contested(es: seq<Pair>, p: Pair, q: Pair) {
    exists e :: e in es && Shares(e, p) && Shares(e, q)
  }

  /** It is enough that no entry shares a block with the links to two heads, */
  lemma {:induction false} OneLinkEach(list: seq<Dir>, n: nat)
    requires n <= |list|
    requires forall i, j :: 0 <= i < j < |list| && IsHead(list, i) && IsHead(list, j) ==>
               !Contested(Children(list), list[i].pair, list[j].pair)
    ensures AllDifferent(FoundBy(list, n))
  {
    if n > 0 {
      OneLinkEach(list, n - 1);
      if IsHead(list, n - 1) && Parent(list, list[n - 1].pair).Some? {
        NewName(list, n - 1, FoundBy(list, n - 1));
      }
    }
  }

  lemma NewName(list: seq<Dir>, n: nat, named: seq<Pair>)
    requires n < |list| && IsHead(list, n) && Parent(list, list[n].pair).Some? && named == FoundBy(list, n)
    requires forall i :: 0 <= i < n && IsHead(list, i) ==> !Contested(Children(list), list[i].pair, list[n].pair)
    ensures Parent(list, list[n].pair).value !in named
  {
    var mine := Parent(list, list[n].pair).value;
    NamedFrom(list, n);
    if mine in named {
      var i :| 0 <= i < n && IsHead(list, i) && Parent(list, list[i].pair) == Some(mine);
      ParentIsEntry(list, list[i].pair);
      ParentIsEntry(list, list[n].pair);
      assert false;
    }
  }

  lemma AstrayParents(list: seq<Dir>)
    requires |list| == 3 && list[1].entries == list[2].entries == [] && list[0].entries == [Pair(5, 6), Pair(2, 7)]
    ensures Children(list) == list[0].entries
    ensures Parent(list, Pair(5, 2)) == Some(Pair(2, 7)) == Parent(list, Pair(2, 7))
  {
    var entries := list[0].entries;
    assert list[1..][1..] == [list[2]];
    assert Children([list[2]]) == [] + Children([]) == [];
    assert Children(list[1..]) == [] + Children(list[1..][1..]) == [];
    assert Children(list) == entries + [] == entries;
    hide Children;
    assert LastShare(entries, Pair(5, 2)) == Some(Pair(2, 7)) == LastShare(entries, Pair(2, 7));
  }

  /** and a stale link that shares blocks with two entries can be led astray, to where another link leads. */
  lemma AstrayLink()
    ensures var root := Dir(Pair(0, 1), false, [Pair(5, 6), Pair(2, 7)]);
            var list := [root, Dir(Pair(5, 2), false, []), Dir(Pair(2, 7), false, [])];
            && Sound(list) && !AllDifferent(FoundBy(list, 3))
            && Repaired(list, 3) == [root, Dir(Pair(2, 7), false, []), Dir(Pair(2, 7), false, [])]
  {
    var entries := [Pair(5, 6), Pair(2, 7)];
    var list := [Dir(Pair(0, 1), false, entries), Dir(Pair(5, 2), false, []), Dir(Pair(2, 7), false, [])];
    AstrayParents(list);
    hide LastShare, Parent, Children;
    assert FoundBy(list, 1) == [] && FoundBy(list, 2) == [] + [Pair(2, 7)]
           && FoundBy(list, 3) == FoundBy(list, 2) + [Pair(2, 7)];
    assert FoundBy(list, 3)[0] == FoundBy(list, 3)[1];
    assert Repaired(list, 0) == [];
    assert Repaired(list, 1) == [] + [list[0]];
    assert Repaired(list, 2) == Repaired(list, 1) + [Mended(list, 1)];
    assert Repaired(list, 3) == Repaired(list, 2) + [Mended(list, 2)];
  }

  // With the directories before k repaired, and k itself perhaps: what the loop sees there.
  lemma Standing(was: seq<Dir>, k: nat, list: seq<Dir>, d: Dir)
    requires Sound(was) && k < |was| && list == Repaired(was, k) + [d] + was[k + 1..]
    requires d == was[k] || d == Mended(was, k)
    ensures var at := |Repaired(was, k)|;
            && (at > 0 && !list[at - 1].split <==> IsHead(was, k))
            && Parent(list, d.pair) == Parent(was, d.pair)
            && (d != was[k] ==> IsHead(was, k) && Parent(was, d.pair) == Some(d.pair))
            && (IsOrphan(was, k) ==> d == was[k] && !d.split)
  {
    hide Sound, Repaired, Parent, Mended, IsOrphan, Sync;
    HeadsAreNamed(was, k);
    RepairKeepsParents(was, k, d.pair);
    var done := Repaired(was, k);
    NothingBefore(was);
    MendedIs(was, k);
    assert was == was[..k] + [was[k]] + was[k + 1..];
    assert k > 0 ==> list[|done| - 1] == done[|done| - 1];
    ParentPiecewise(was[..k], done, was[k], d, was[k + 1..], d.pair);
  }

  lemma NothingBefore(was: seq<Dir>)
    ensures Repaired(was, 0) == []
  {
  }

  lemma MendedIs(was: seq<Dir>, k: nat)
    requires Sound(was) && k < |was|
    ensures var d := Mended(was, k);
            && d.entries == was[k].entries
            && (d != was[k] ==> IsHead(was, k) && Parent(was, d.pair) == Some(d.pair))
            && (IsOrphan(was, k) ==> d == was[k] && !d.split)
  {
    ParentIsEntry(was, was[k].pair);
    var d := Mended(was, k);
    if d != was[k] {
      ParentOfEntry(was, d.pair);
    }
  }

  // A list in three parts, of which two may differ without changing a parent.
  lemma ParentPiecewise(a: seq<Dir>, b: seq<Dir>, d: Dir, e: Dir, rest: seq<Dir>, pair: Pair)
    requires Parent(a, pair) == Parent(b, pair) && d.entries == e.entries
    ensures Parent(a + [d] + rest, pair) == Parent(b + [e] + rest, pair)
  {
    ParentOfConcat(a + [d], rest, pair);
    ParentOfConcat(a, [d], pair);
    ParentOfConcat(b + [e], rest, pair);
    ParentOfConcat(b, [e], pair);
    assert [d][1..] == [] && [e][1..] == [];
  }

  // The loop stands at directory k: those before are repaired, and its own link perhaps.
  ghost predicate Stands(was: seq<Dir>, k: nat, list: seq<Dir>, pdir: int)
    requires k <= |was|
  {
    && pdir + 1 == |Repaired(was, k)|
    && if k == |was| then list == Repaired(was, k)
       else
         && pdir + 1 < |list| && (list[pdir + 1] == was[k] || list[pdir + 1] == Mended(was, k))
         && list == Repaired(was, k) + [list[pdir + 1]] + was[k + 1..]
  }

  lemma StandsAt(was: seq<Dir>, k: nat, list: seq<Dir>)
    requires k <= |was| && list == Repaired(was, k) + was[k..]
    ensures Stands(was, k, list, |Repaired(was, k)| - 1)
  {
    if k < |was| {
      assert was[k..] == [was[k]] + was[k + 1..];
    }
  }

  // The three ways on.
  lemma Dropped(was: seq<Dir>, k: nat, list: seq<Dir>, pdir: nat)
    requires Sound(was) && k < |was| && Stands(was, k, list, pdir) && IsOrphan(was, k) && !list[pdir].split
    ensures var next := list[..pdir] + [list[pdir].(split := list[pdir + 1].split)] + list[pdir + 2..];
            Stands(was, k + 1, next, pdir)
  {
    Standing(was, k, list, list[pdir + 1]);
    var done := Repaired(was, k);
    assert list[pdir].(split := list[pdir + 1].split) == done[pdir];
    assert list[..pdir] + [done[pdir]] + list[pdir + 2..] == done + was[k + 1..];
    StandsAt(was, k + 1, list[..pdir] + [done[pdir]] + list[pdir + 2..]);
  }

  lemma Corrected(was: seq<Dir>, k: nat, list: seq<Dir>, pdir: nat, named: Pair)
    requires Sound(was) && k < |was| && Stands(was, k, list, pdir) && IsHead(was, k)
    requires list[pdir + 1] == was[k] && Parent(was, was[k].pair) == Some(named) && !Sync(named, was[k].pair)
    ensures var next := list[pdir + 1 := list[pdir + 1].(pair := named)];
            Stands(was, k, next, pdir) && next[pdir + 1] == Mended(was, k) != was[k]
  {
    hide Repaired, Parent;
    ReplaceMiddle(Repaired(was, k), was[k], was[k + 1..], was[k].(pair := named));
  }

  lemma ReplaceMiddle(a: seq<Dir>, d: Dir, b: seq<Dir>, e: Dir)
    ensures (a + [d] + b)[|a| := e] == a + [e] + b
  {
  }

  lemma PassedOver(was: seq<Dir>, k: nat, list: seq<Dir>, pdir: int)
    requires k < |was| && Stands(was, k, list, pdir) && !IsOrphan(was, k) && list[pdir + 1] == Mended(was, k)
    ensures Stands(was, k + 1, list, pdir + 1)
  {
    assert list == Repaired(was, k + 1) + was[k + 1..];
    StandsAt(was, k + 1, list);
  }

  class TailList {
    var list: seq<Dir>

    // lfs_fs_parent, and the pair it finds in the parent's entry.
    method FindParent(pair: Pair) returns (named: Option<Pair>)
      ensures named == Parent(list, pair)
    {
      var i := 0;
      assert list[0..] == list;
      while i < |list|
        invariant 0 <= i <= |list| && Parent(list, pair) == Parent(list[i..], pair)
      {
        var here := LastShare(list[i].entries, pair);
        if here.Some? {
          return here;
        }
        assert list[i..][1..] == list[i + 1..];
        i := i + 1;
      }
      return None;
    }

    /** lfs_fs_deorphan. */
    method Deorphan()
      requires Sound(list)
      modifies this
      ensures list == Repaired(old(list), |old(list)|)
    {
      hide Repaired, Parent, Sound, Stands, Mended, IsOrphan, Sync;
      ghost var was, k := list, 0;
      var pdir := -1; // where the directory before the one looked at is on the list
      Beginning(was);
      // iterate over all directory entries
      while pdir + 1 < |list|
        invariant 0 <= k <= |was| && Stands(was, k, list, pdir) && pdir >= -1
        decreases |was| - k, if k < |was| && pdir + 1 < |list| && list[pdir + 1] == was[k] then 1 else 0
      {
        Looking(was, k, list, pdir);
        var dir := list[pdir + 1];
        // a soft link leads to another directory
        if pdir >= 0 && !list[pdir].split {
          // which some entry should name
          var named := FindParent(dir.pair);
          if named.None? {
            // we are an orphan: the one before takes over where we led
            Dropped(was, k, list, pdir);
            list := list[..pdir] + [list[pdir].(split := dir.split)] + list[pdir + 2..];
            k := k + 1;
            continue;
          }
          if !Sync(named.value, dir.pair) {
            // the entry names other blocks
            Corrected(was, k, list, pdir, named.value);
            list := list[pdir + 1 := dir.(pair := named.value)];
            continue;
          }
        }
        PassedOver(was, k, list, pdir);
        pdir := pdir + 1;
        k := k + 1;
      }
      Ending(was, k, list, pdir);
    }
  }

  lemma Beginning(was: seq<Dir>)
    ensures Stands(was, 0, was, -1)
  {
    assert was == Repaired(was, 0) + was[0..];
    StandsAt(was, 0, was);
  }

  lemma Ending(was: seq<Dir>, k: nat, list: seq<Dir>, pdir: int)
    requires k <= |was| && Stands(was, k, list, pdir) && pdir + 1 >= |list|
    ensures k == |was| && list == Repaired(was, |was|)
  {
  }

  // What one turn finds, in terms of the list as it was.
  lemma Looking(was: seq<Dir>, k: nat, list: seq<Dir>, pdir: int)
    requires Sound(was) && k <= |was| && Stands(was, k, list, pdir) && -1 <= pdir < |list| - 1
    ensures k < |was| && (pdir >= 0 && !list[pdir].split <==> IsHead(was, k))
    ensures var d := list[pdir + 1];
            if !IsHead(was, k) then !IsOrphan(was, k) && d == Mended(was, k)
            else
              && (Parent(list, d.pair).None? <==> IsOrphan(was, k))
              && (Parent(list, d.pair).Some? && !Sync(Parent(list, d.pair).value, d.pair) ==>
                    d == was[k] && Parent(was, was[k].pair) == Parent(list, d.pair))
              && (Parent(list, d.pair).Some? && Sync(Parent(list, d.pair).value, d.pair) ==>
                    !IsOrphan(was, k) && d == Mended(was, k))
  {
    Standing(was, k, list, list[pdir + 1]);
    hide Repaired, Parent;
    var d := list[pdir + 1];
    assert Sync(d.pair, d.pair);
  }
}
