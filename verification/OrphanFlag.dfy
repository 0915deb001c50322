/** Making, removing and replacing directories in several commits, each of which may fail: the list after every
    commit, and whether the disk is marked for repair when it needs it
    (littlefs/lfs.cpp:1920-2018, 3200-3279, 3346-3424 and 4391-4396). */
module OrphanFlag {
  import opened Orphans

  ghost predicate NoOrphans(list: seq<Dir>) {
    forall i :: 0 <= i < |list| ==> !IsOrphan(list, i)
  }

  /** What must hold whenever power may fail: the repair is right, and it is called for if it is needed. */
  ghost predicate Kept(list: seq<Dir>, flag: bool) {
    Sound(list) && (flag || NoOrphans(list))
  }

  /** A list with nothing to repair: every head is named by an entry as exactly that pair, and different heads and
      different entries have different blocks. */
  ghost predicate Consistent(list: seq<Dir>) {
    && list != [] && Distinct(Children(list))
    && (forall i :: 0 <= i < |list| && IsHead(list, i) ==> Called(list, list[i].pair))
    && forall i, j :: 0 <= i < j < |list| && IsHead(list, i) && IsHead(list, j) ==> !Shares(list[i].pair, list[j].pair)
  }

  ghost predicate Called(list: seq<Dir>, pair: Pair) {
    exists e :: e in Children(list) && Sync(e, pair)
  }

  lemma OrphanIs(list: seq<Dir>, i: nat)
    requires i < |list|
    ensures IsOrphan(list, i) <==> IsHead(list, i) && forall e :: e in Children(list) ==> !Shares(e, list[i].pair)
  {
    ParentIsEntry(list, list[i].pair);
  }

  lemma ConsistentIsKept(list: seq<Dir>)
    requires Consistent(list)
    ensures NoOrphans(list) && Kept(list, false)
  {
    forall i | 0 <= i < |list|
      ensures !IsOrphan(list, i)
    {
      if IsHead(list, i) {
        CalledIsNone(list, i);
      }
    }
  }

  lemma CalledIsNone(list: seq<Dir>, i: nat)
    requires i < |list| && Called(list, list[i].pair)
    ensures !IsOrphan(list, i)
  {
    OrphanIs(list, i);
    var e :| e in Children(list) && Sync(e, list[i].pair);
    assert Shares(e, list[i].pair);
  }

  /* What the commits make of the list */

  function Inserted(list: seq<Dir>, p: nat, d: Dir): seq<Dir>
    requires p < |list|
  {
    list[..p + 1] + [d] + list[p + 1..]
  }

  function Without(list: seq<Dir>, i: nat): seq<Dir>
    requires i < |list|
  {
    list[..i] + list[i + 1..]
  }

  function WithEntries(list: seq<Dir>, j: nat, es: seq<Pair>): seq<Dir>
    requires j < |list|
  {
    list[j := list[j].(entries := es)]
  }

  function Put(es: seq<Pair>, k: nat, e: Pair): seq<Pair>
    requires k <= |es|
  {
    es[..k] + [e] + es[k..]
  }

  function Taken(es: seq<Pair>, k: nat): seq<Pair>
    requires k < |es|
  {
    es[..k] + es[k + 1..]
  }

  /* What that means, place by place */

  // The same with x at place k.
  ghost predicate OneMore<T>(before: seq<T>, after: seq<T>, k: nat, x: T) {
    && k <= |before| && |after| == |before| + 1 && after[k] == x
    && forall i :: 0 <= i < |before| ==> before[i] == after[if i < k then i else i + 1]
  }

  // Directory j has one entry more, and nothing else is different.
  ghost predicate OneEntryMore(was: seq<Dir>, now: seq<Dir>, j: nat, k: nat, e: Pair) {
    && j < |was| == |now| && now[j].pair == was[j].pair && now[j].split == was[j].split
    && OneMore(was[j].entries, now[j].entries, k, e)
    && forall m :: 0 <= m < |was| && m != j ==> now[m] == was[m]
  }

  // The last pair of a directory.
  ghost predicate EndsAt(list: seq<Dir>, first: nat, p: nat) {
    first <= p < |list| && !list[p].split && forall m :: first <= m < p ==> list[m].split
  }

  // A new directory is on the list behind pair p and named by entry k of directory j.
  ghost predicate Made(was: seq<Dir>, now: seq<Dir>, p: nat, j: nat, k: nat, e: Pair) {
    exists linked: seq<Dir> :: OneMore(was, linked, p + 1, Dir(e, false, [])) && OneEntryMore(linked, now, j, k, e)
  }

  // Entry k of directory j is gone, and with gone also directory i.
  ghost predicate Removed(was: seq<Dir>, now: seq<Dir>, i: nat, j: nat, k: nat, gone: bool)
    requires i < |was| && j < |was| && k < |was[j].entries|
  {
    exists unnamed: seq<Dir> :: OneEntryMore(unnamed, was, j, k, was[j].entries[k]) &&
                      if gone then OneMore(now, unnamed, i, was[i]) else now == unnamed
  }

  // And an entry of directory j2 has come in its place.
  ghost predicate Replaced(was: seq<Dir>, now: seq<Dir>, i: nat, j: nat, k: nat, j2: nat, k2: nat, gone: bool)
    requires i < |was| && j < |was| && k < |was[j].entries|
  {
    exists unnamed: seq<Dir>, without: seq<Dir>, moved: seq<Dir> ::
      && OneEntryMore(unnamed, was, j, k, was[j].entries[k])
      && j2 < |unnamed| && k2 < |unnamed[j2].entries|
      && OneEntryMore(without, unnamed, j2, k2, unnamed[j2].entries[k2])
      && OneEntryMore(without, moved, j, Place(j, k, j2, k2), unnamed[j2].entries[k2])
      && if gone then OneMore(now, moved, i, was[i]) else now == moved
  }

  // Where in directory j the entry ends up: at k, unless its own going moves that down.
  function Place(j: nat, k: nat, j2: nat, k2: nat): nat {
    if j2 == j && k2 < k then k - 1 else k
  }

  lemma PutIsOneMore(list: seq<Dir>, j: nat, k: nat, e: Pair)
    requires j < |list| && k <= |list[j].entries|
    ensures OneEntryMore(list, WithEntries(list, j, Put(list[j].entries, k, e)), j, k, e)
  {
  }

  lemma TakenIsOneLess(list: seq<Dir>, j: nat, k: nat)
    requires j < |list| && k < |list[j].entries|
    ensures OneEntryMore(WithEntries(list, j, Taken(list[j].entries, k)), list, j, k, list[j].entries[k])
  {
  }

  lemma InsertedIsOneMore(list: seq<Dir>, p: nat, d: Dir)
    requires p < |list|
    ensures OneMore(list, Inserted(list, p, d), p + 1, d)
  {
  }

  lemma WithoutIsOneLess(list: seq<Dir>, i: nat)
    requires i < |list|
    ensures OneMore(Without(list, i), list, i, list[i])
  {
  }

  lemma OneLessKeeps(now: seq<Dir>, was: seq<Dir>, j: nat, k: nat, i: nat)
    requires i < |was| && was[i].entries == [] && j < |was| && k < |was[j].entries|
    requires OneEntryMore(now, was, j, k, was[j].entries[k])
    ensures |now| == |was| && now[i] == was[i]
  {
  }

  lemma Around(list: seq<Dir>, j: nat, d: Dir)
    requires j < |list|
    ensures list[j := d] == list[..j] + [d] + list[j + 1..]
  {
  }

  lemma ChildrenAround(a: seq<Dir>, d: Dir, b: seq<Dir>)
    ensures Children(a + [d] + b) == Children(a) + d.entries + Children(b)
  {
    ChildrenOfConcat(a + [d], b);
    ChildrenOfConcat(a, [d]);
    assert [d][1..] == [] && d.entries + [] == d.entries;
  }

  // Where the entries of one directory are among all.
  lemma ChildrenOfOne(list: seq<Dir>, j: nat, es: seq<Pair>)
    requires j < |list|
    ensures var a, b := Children(list[..j]), Children(list[j + 1..]);
            Children(list) == a + list[j].entries + b && Children(WithEntries(list, j, es)) == a + es + b
  {
    hide Children;
    Around(list, j, list[j]);
    Around(list, j, list[j].(entries := es));
    assert list[j := list[j]] == list;
    ChildrenAround(list[..j], list[j], list[j + 1..]);
    ChildrenAround(list[..j], list[j].(entries := es), list[j + 1..]);
  }

  lemma InsertedChildren(list: seq<Dir>, p: nat, d: Dir)
    requires p < |list| && d.entries == []
    ensures Children(Inserted(list, p, d)) == Children(list)
  {
    hide Children;
    ChildrenAround(list[..p + 1], d, list[p + 1..]);
    ChildrenOfConcat(list[..p + 1], list[p + 1..]);
    assert list == list[..p + 1] + list[p + 1..];
    assert Children(list[..p + 1]) + [] == Children(list[..p + 1]);
  }

  lemma WithoutChildren(list: seq<Dir>, i: nat)
    requires i < |list| && list[i].entries == []
    ensures Children(Without(list, i)) == Children(list)
  {
    hide Children;
    ChildrenAround(list[..i], list[i], list[i + 1..]);
    ChildrenOfConcat(list[..i], list[i + 1..]);
    assert list == list[..i] + [list[i]] + list[i + 1..];
    assert Children(list[..i]) + [] == Children(list[..i]);
  }

  // One entry more, or one less.
  lemma PutChild(list: seq<Dir>, j: nat, k: nat, e: Pair)
    requires j < |list| && k <= |list[j].entries| && Distinct(Children(list))
    requires forall x :: x in Children(list) ==> !Shares(x, e)
    ensures var longer := WithEntries(list, j, Put(list[j].entries, k, e));
            && Distinct(Children(longer)) && (forall x :: x in Children(longer) <==> x == e || x in Children(list))
  {
    hide Children, WithEntries, Distinct, Shares;
    var es := list[j].entries;
    ChildrenOfOne(list, j, Put(es, k, e));
    var front, behind := Children(list[..j]), Children(list[j + 1..]);
    PutAround(front, es, behind, k, e);
    PutDistinct(front + es[..k], e, es[k..] + behind);
  }

  lemma PutAround(front: seq<Pair>, es: seq<Pair>, behind: seq<Pair>, k: nat, e: Pair)
    requires k <= |es|
    ensures front + es + behind == (front + es[..k]) + (es[k..] + behind)
    ensures front + Put(es, k, e) + behind == (front + es[..k]) + [e] + (es[k..] + behind)
  {
  }

  lemma TakenAround(front: seq<Pair>, es: seq<Pair>, behind: seq<Pair>, k: nat)
    requires k < |es|
    ensures front + es + behind == (front + es[..k]) + [es[k]] + (es[k + 1..] + behind)
    ensures front + Taken(es, k) + behind == (front + es[..k]) + (es[k + 1..] + behind)
  {
  }

  lemma PutDistinct(a: seq<Pair>, e: Pair, b: seq<Pair>)
    requires Distinct(a + b) && forall x :: x in a + b ==> !Shares(x, e)
    ensures Distinct(a + [e] + b) && forall x :: x in a + [e] + b <==> x == e || x in a + b
  {
    var es, rest := a + [e] + b, a + b;
    forall i, j | 0 <= i < j < |es|
      ensures !Shares(es[i], es[j])
    {
      var m, n := if i < |a| then i else i - 1, if j < |a| then j else j - 1;
      if i == |a| {
        assert es[j] == rest[n] && es[j] in rest;
      } else if j == |a| {
        assert es[i] == rest[i] && es[i] in rest;
      } else {
        assert es[i] == rest[m] && es[j] == rest[n];
      }
    }
  }

  lemma TakenChild(list: seq<Dir>, j: nat, k: nat)
    requires j < |list| && k < |list[j].entries| && Distinct(Children(list))
    ensures var shorter, e := WithEntries(list, j, Taken(list[j].entries, k)), list[j].entries[k];
            && Distinct(Children(shorter)) && e in Children(list)
            && (forall x :: x in Children(list) <==> x == e || x in Children(shorter))
            && (forall x :: x in Children(shorter) ==> !Shares(x, e))
  {
    hide Children, WithEntries, Distinct, Shares;
    var es := list[j].entries;
    ChildrenOfOne(list, j, Taken(es, k));
    var front, behind := Children(list[..j]), Children(list[j + 1..]);
    TakenAround(front, es, behind, k);
    TakenDistinct(front + es[..k], es[k], es[k + 1..] + behind);
  }

  lemma TakenDistinct(a: seq<Pair>, e: Pair, b: seq<Pair>)
    requires Distinct(a + [e] + b)
    ensures Distinct(a + b) && forall x :: x in a + b ==> !Shares(x, e)
    ensures forall x :: x in a + [e] + b <==> x == e || x in a + b
  {
    var es, rest := a + [e] + b, a + b;
    assert forall i :: 0 <= i < |rest| ==> rest[i] == es[if i < |a| then i else i + 1];
    assert es[|a|] == e;
    forall x | x in rest
      ensures !Shares(x, e)
    {
      var i :| 0 <= i < |rest| && rest[i] == x;
      assert Shares(x, e) <==> Shares(e, x);
    }
  }

  /* Making a directory */

  // A new pair has blocks of its own.
  ghost predicate NewPair(list: seq<Dir>, e: Pair) {
    && (forall x :: x in Children(list) ==> !Shares(x, e))
    && forall i :: 0 <= i < |list| ==> !Shares(list[i].pair, e)
  }

  // Linked, but not named yet, the new directory is the one orphan.
  lemma LinkedIsKept(list: seq<Dir>, p: nat, e: Pair)
    requires Consistent(list) && p < |list| && !list[p].split && NewPair(list, e)
    ensures var longer := Inserted(list, p, Dir(e, false, []));
            Kept(longer, true) && IsOrphan(longer, p + 1)
  {
    var longer := Inserted(list, p, Dir(e, false, []));
    InsertedChildren(list, p, Dir(e, false, []));
    forall i | 0 <= i < |longer| && IsOrphan(longer, i)
      ensures i == p + 1
    {
      OrphanIs(longer, i);
      InsertedHeads(list, p, Dir(e, false, []), i);
    }
    OrphanIs(longer, p + 1);
    forall x | x in Children(longer)
      ensures !Shares(x, longer[p + 1].pair)
    {
    }
  }

  // Both steps, and what they do to the list.
  lemma LinkedThenNamed(list: seq<Dir>, p: nat, j: nat, k: nat, e: Pair)
    requires Consistent(list) && EndsAt(list, j, p) && NewPair(list, e) && k <= |list[j].entries|
    ensures var linked := Inserted(list, p, Dir(e, false, []));
            && |linked| == |list| + 1 && linked[j] == list[j]
            && Kept(linked, true) && !NoOrphans(linked) && OneMore(list, linked, p + 1, Dir(e, false, []))
            && var named := WithEntries(linked, j, Put(linked[j].entries, k, e));
               Consistent(named) && Made(list, named, p, j, k, e)
  {
    var linked := Inserted(list, p, Dir(e, false, []));
    LinkedIsKept(list, p, e);
    NamedIsConsistent(list, p, j, k, e);
    InsertedIsOneMore(list, p, Dir(e, false, []));
    PutIsOneMore(linked, j, k, e);
  }

  lemma InsertedHeads(list: seq<Dir>, p: nat, d: Dir, i: nat)
    requires p < |list| && !list[p].split && !d.split && i <= |list|
    ensures var longer := Inserted(list, p, d);
            if i == p + 1 then IsHead(longer, i) && longer[i] == d
            else
              var was := if i <= p then i else i - 1;
              longer[i] == list[was] && (IsHead(longer, i) <==> IsHead(list, was))
  {
  }

  // Named, it is like any other.
  lemma NamedIsConsistent(list: seq<Dir>, p: nat, j: nat, k: nat, e: Pair)
    requires Consistent(list) && p < |list| && !list[p].split && NewPair(list, e)
    requires j < |list| && j <= p && k <= |list[j].entries|
    ensures var longer := Inserted(list, p, Dir(e, false, []));
            longer[j] == list[j] && Consistent(WithEntries(longer, j, Put(list[j].entries, k, e)))
  {
    hide Children, Distinct, Shares, Sync, Put;
    var d := Dir(e, false, []);
    var longer := Inserted(list, p, d);
    InsertedChildren(list, p, d);
    PutChild(longer, j, k, e);
    var done := WithEntries(longer, j, Put(list[j].entries, k, e));
    forall i | 0 <= i < |done| && IsHead(done, i)
      ensures Called(done, done[i].pair)
    {
      PutHeads(list, p, d, j, Put(list[j].entries, k, e), i);
      if i == p + 1 {
        SelfSync(e);
      } else {
        assert Called(list, done[i].pair);
      }
    }
    forall m, n | 0 <= m < n < |done| && IsHead(done, m) && IsHead(done, n)
      ensures !Shares(done[m].pair, done[n].pair)
    {
      PutHeads(list, p, d, j, Put(list[j].entries, k, e), m);
      PutHeads(list, p, d, j, Put(list[j].entries, k, e), n);
      SharesBack(done[m].pair, done[n].pair);
    }
  }

  // Where the heads come from, once the new directory is on the list and named.
  lemma PutHeads(list: seq<Dir>, p: nat, d: Dir, j: nat, es: seq<Pair>, i: nat)
    requires p < |list| && !list[p].split && !d.split && j <= p && i <= |list|
    ensures var done := WithEntries(Inserted(list, p, d), j, es);
            if i == p + 1 then done[i].pair == d.pair
            else
              var was := if i <= p then i else i - 1;
              done[i].pair == list[was].pair && (IsHead(done, i) <==> IsHead(list, was))
  {
  }

  lemma SelfSync(e: Pair)
    ensures Sync(e, e)
  {
  }

  lemma SharesBack(a: Pair, b: Pair)
    ensures Shares(a, b) <==> Shares(b, a)
  {
  }

  /* Taking a directory out */

  // Consistent, but for an empty directory that no entry names any more.
  ghost predicate ConsistentBut(list: seq<Dir>, i: nat) {
    && i < |list| && IsHead(list, i) && list[i].entries == [] && !list[i].split && Distinct(Children(list))
    && (forall e :: e in Children(list) ==> !Shares(e, list[i].pair))
    && (forall m :: 0 <= m < |list| && m != i && IsHead(list, m) ==> Called(list, list[m].pair))
    && forall m, n :: 0 <= m < n < |list| && IsHead(list, m) && IsHead(list, n) ==> !Shares(list[m].pair, list[n].pair)
  }

  lemma ButOneIsKept(list: seq<Dir>, i: nat)
    requires ConsistentBut(list, i)
    ensures Kept(list, true) && IsOrphan(list, i) && !NoOrphans(list)
  {
    OrphanIs(list, i);
    hide Children, Distinct, Shares, Called;
    forall m | 0 <= m < |list| && IsOrphan(list, m)
      ensures m == i
    {
      if m != i {
        CalledIsNone(list, m);
      }
    }
  }

  // The entry that names the directory goes.
  lemma UnnamedIsButOne(list: seq<Dir>, i: nat, j: nat, k: nat)
    requires Consistent(list) && i < |list| && IsHead(list, i) && list[i].entries == [] && !list[i].split
    requires j < |list| && k < |list[j].entries| && Sync(list[j].entries[k], list[i].pair)
    ensures ConsistentBut(WithEntries(list, j, Taken(list[j].entries, k)), i)
  {
    hide Children, Distinct, Shares, Sync;
    var x, after := list[j].entries[k], WithEntries(list, j, Taken(list[j].entries, k));
    TakenChild(list, j, k);
    OthersAsBefore(list, j, Taken(list[j].entries, k), i);
    forall e | e in Children(after)
      ensures !Shares(e, after[i].pair)
    {
      SyncShares(x, list[i].pair, e);
    }
    forall m | 0 <= m < |after| && m != i && IsHead(after, m)
      ensures Called(after, after[m].pair)
    {
      assert Called(list, list[m].pair);
      var e :| e in Children(list) && Sync(e, list[m].pair);
      HeadsDiffer(list, i, m);
      SyncShares(e, list[m].pair, list[i].pair);
      SyncShares(x, list[i].pair, e);
      SelfShares(x);
    }
  }

  lemma OthersAsBefore(list: seq<Dir>, j: nat, es: seq<Pair>, i: nat)
    requires j < |list| && |es| < |list[j].entries| && i < |list| && list[i].entries == []
    ensures var after := WithEntries(list, j, es);
            && |after| == |list| && after[i] == list[i]
            && forall m :: 0 <= m < |list| ==>
                 after[m].pair == list[m].pair && (IsHead(after, m) <==> IsHead(list, m))
  {
  }

  lemma SyncShares(x: Pair, p: Pair, e: Pair)
    requires Sync(x, p)
    ensures Shares(e, p) <==> Shares(e, x)
    ensures Shares(e, p) <==> Shares(p, e)
  {
  }

  lemma SelfShares(x: Pair)
    ensures Shares(x, x)
  {
  }

  lemma HeadsDiffer(list: seq<Dir>, m: nat, n: nat)
    requires Consistent(list) && m < |list| && n < |list| && m != n && IsHead(list, m) && IsHead(list, n)
    ensures !Shares(list[m].pair, list[n].pair)
  {
    assert Shares(list[m].pair, list[n].pair) <==> Shares(list[n].pair, list[m].pair);
    if m > n {
      assert !Shares(list[n].pair, list[m].pair);
    }
  }

  // An entry that moves to another directory changes nothing for the links.
  lemma MovedIsButOne(list: seq<Dir>, i: nat, j: nat, k: nat, j': nat, k': nat)
    requires ConsistentBut(list, i) && j < |list| && k < |list[j].entries| && j' < |list| && j' != i
    requires var shorter := WithEntries(list, j, Taken(list[j].entries, k));
             k' <= |shorter[j'].entries|
    ensures var shorter := WithEntries(list, j, Taken(list[j].entries, k));
            ConsistentBut(WithEntries(shorter, j', Put(shorter[j'].entries, k', list[j].entries[k])), i)
  {
    var y, shorter := list[j].entries[k], WithEntries(list, j, Taken(list[j].entries, k));
    TakenChild(list, j, k);
    PutChild(shorter, j', k', y);
    var after := WithEntries(shorter, j', Put(shorter[j'].entries, k', y));
    hide Children;
    assert forall x :: x in Children(after) <==> x in Children(list);
    SameChildren(list, after, i);
  }

  lemma SameChildren(list: seq<Dir>, after: seq<Dir>, i: nat)
    requires ConsistentBut(list, i) && |after| == |list| && Distinct(Children(after)) && after[i] == list[i]
    requires forall m :: 0 <= m < |list| ==> after[m].pair == list[m].pair && after[m].split == list[m].split
    requires forall x :: x in Children(after) <==> x in Children(list)
    ensures ConsistentBut(after, i)
  {
    hide Children, Distinct, Shares, Sync;
    assert forall m :: 0 <= m < |list| ==> (IsHead(after, m) <==> IsHead(list, m));
    forall m | 0 <= m < |after| && m != i && IsHead(after, m)
      ensures Called(after, after[m].pair)
    {
      assert Called(list, list[m].pair);
    }
  }

  // Off the list, all is consistent again.
  lemma DroppedIsConsistent(list: seq<Dir>, i: nat)
    requires ConsistentBut(list, i)
    ensures Consistent(Without(list, i))
  {
    hide Children, Distinct, Shares, Sync;
    var after := Without(list, i);
    WithoutChildren(list, i);
    forall m | 0 <= m < |after| && IsHead(after, m)
      ensures Called(after, after[m].pair)
    {
      WithoutHeads(list, i, m);
      assert Called(list, list[if m < i then m else m + 1].pair);
    }
    forall m, n | 0 <= m < n < |after| && IsHead(after, m) && IsHead(after, n)
      ensures !Shares(after[m].pair, after[n].pair)
    {
      WithoutHeads(list, i, m);
      WithoutHeads(list, i, n);
    }
  }

  lemma WithoutHeads(list: seq<Dir>, i: nat, m: nat)
    requires i < |list| && IsHead(list, i) && !list[i].split && m < |Without(list, i)|
    ensures var after, was := Without(list, i), if m < i then m else m + 1;
            after[m] == list[was] && (IsHead(after, m) <==> IsHead(list, was))
  {
  }

  class Upkeep {
    var list: seq<Dir>
    var count: nat     // orphans expected, as memory has it
    var flag: bool     // whether the disk is marked for repair
    ghost var seen: seq<(seq<Dir>, bool)> // list and mark after every commit so far

    constructor (list: seq<Dir>)
      requires Consistent(list)
      ensures this.list == list && AtRest()
    {
      this.list, count, flag, seen := list, 0, false, [];
    }

    ghost predicate AtRest()
      reads this
    {
      Consistent(list) && count == 0 && !flag
    }

    // All since then was repairable.
    ghost predicate Watched(before: seq<(seq<Dir>, bool)>)
      reads this
    {
      before <= seen && forall n :: |before| <= n < |seen| ==> Kept(seen[n].0, seen[n].1)
    }

    // A commit takes the mark along, or fails and leaves everything as it was.
    method Commit(next: seq<Dir>, fails: bool) returns (ok: bool)
      modifies this
      ensures ok == !fails && count == old(count)
      ensures ok ==> list == next && flag == (count > 0) && seen == old(seen) + [(list, flag)]
      ensures !ok ==> list == old(list) && flag == old(flag) && seen == old(seen)
    {
      ok := !fails;
      if ok {
        list, flag := next, count > 0;
        seen := seen + [(list, flag)];
      }
    }

    /** lfs_mkdir in a directory of one pair or several, from the commit that puts the new pair on the list on. */
    method Mkdir(cwd: nat, k: nat, e: Pair, fails1: bool, fails2: bool) returns (ok: bool)
      requires AtRest() && cwd < |list| && !list[|list| - 1].split && k <= |list[cwd].entries| && NewPair(list, e)
      modifies this
      ensures Watched(old(seen)) && Kept(list, flag) && (ok ==> AtRest())
      ensures var several := old(list[cwd].split);
              && ok == (!fails2 && (several ==> !fails1))
              && (NoOrphans(list) <==> !(several && !fails1 && fails2))
              && (count == 0 <==> !(several && fails1))
              && exists p: nat :: EndsAt(old(list), cwd, p) &&
                             if ok then Made(old(list), list, p, cwd, k, e)
                             else if several && !fails1 then OneMore(old(list), list, p + 1, Dir(e, false, []))
                             else list == old(list)
    {
      hide Consistent, Kept, NoOrphans, NewPair, OneMore, Made, Inserted, WithEntries, Put;
      ConsistentIsKept(list);
      var d, pred := Dir(e, false, []), cwd;
      while list[pred].split
        invariant cwd <= pred < |list| && forall m :: cwd <= m < pred ==> list[m].split
        decreases |list| - pred
      {
        pred := pred + 1;
      }
      assert EndsAt(list, cwd, pred);
      hide EndsAt;
      LinkedThenNamed(list, pred, cwd, k, e);
      var linked := Inserted(list, pred, d);
      var named := WithEntries(linked, cwd, Put(linked[cwd].entries, k, e));
      ConsistentIsKept(named);
      if list[cwd].split {
        count := count + 1;
        ok := Commit(linked, fails1);
        if !ok {
          return;
        }
        count := count - 1;
        ok := Commit(named, fails2);
      } else {
        ok := Commit(named, fails2);
      }
    }

    /** lfs_remove of an empty directory. */
    method Remove(i: nat, j: nat, k: nat, fails1: bool, fails2: bool) returns (ok: bool)
      requires AtRest() && i < |list| && IsHead(list, i) && list[i].entries == [] && !list[i].split
      requires j < |list| && k < |list[j].entries| && Sync(list[j].entries[k], list[i].pair)
      modifies this
      ensures Watched(old(seen)) && Kept(list, flag) && (ok ==> AtRest())
      ensures ok == (!fails1 && !fails2) && (NoOrphans(list) <==> fails1 || !fails2) && (count == 0 <==> !fails1)
      ensures if fails1 then list == old(list) else Removed(old(list), list, i, j, k, ok)
    {
      hide Consistent, ConsistentBut, Kept, WithEntries, NoOrphans, IsHead, Sync, OneMore, OneEntryMore;
      ghost var was := list;
      ConsistentIsKept(list);
      UnnamedIsButOne(list, i, j, k);
      TakenIsOneLess(list, j, k);
      OneLessKeeps(WithEntries(list, j, Taken(list[j].entries, k)), list, j, k, i);
      count := count + 1;
      ButOneIsKept(WithEntries(list, j, Taken(list[j].entries, k)), i);
      ok := Commit(WithEntries(list, j, Taken(list[j].entries, k)), fails1);
      if ok {
        ok := Unlink(i, fails2);
        assert Removed(was, list, i, j, k, ok);
      }
    }

    /** lfs_rename of an entry, to where an empty directory has the name; the entry may name a directory itself. */
    method RenameOver(i: nat, j: nat, k: nat, moves: bool, j2: nat, k2: nat, fails1: bool, fails2: bool)
      returns (ok: bool)
      requires AtRest() && i < |list| && IsHead(list, i) && list[i].entries == [] && !list[i].split
      requires j < |list| && k < |list[j].entries| && Sync(list[j].entries[k], list[i].pair)
      requires moves ==>
                 var unnamed := WithEntries(list, j, Taken(list[j].entries, k));
                 j2 < |list| && k2 < |unnamed[j2].entries|
      modifies this
      ensures Watched(old(seen)) && Kept(list, flag) && (ok ==> AtRest())
      ensures ok == (!fails1 && !fails2) && (NoOrphans(list) <==> fails1 || !fails2) && (count == 0 <==> !fails1)
      ensures if fails1 then list == old(list)
              else if moves then Replaced(old(list), list, i, j, k, j2, k2, ok)
              else Removed(old(list), list, i, j, k, ok)
    {
      hide Consistent, ConsistentBut, Kept, NoOrphans, IsHead, Sync, OneMore, OneEntryMore;
      ghost var was := list;
      ConsistentIsKept(list);
      UnnamedIsButOne(list, i, j, k);
      TakenIsOneLess(list, j, k);
      count := count + 1;
      var next := WithEntries(list, j, Taken(list[j].entries, k));
      OneLessKeeps(next, list, j, k, i);
      ghost var unnamed := next;
      if moves {
        MovedIsButOne(next, i, j2, k2, j, Place(j, k, j2, k2));
        TakenIsOneLess(next, j2, k2);
        var y, without := next[j2].entries[k2], WithEntries(next, j2, Taken(next[j2].entries, k2));
        PutIsOneMore(without, j, Place(j, k, j2, k2), y);
        next := WithEntries(without, j, Put(without[j].entries, Place(j, k, j2, k2), y));
        assert Replaced(was, next, i, j, k, j2, k2, false);
      }
      ButOneIsKept(next, i);
      ok := Commit(next, fails1);
      if ok {
        ok := Unlink(i, fails2);
      }
    }

    // The mark is taken back, and with the same commit the directory goes off the list (lfs_dir_drop).
    method Unlink(i: nat, fails: bool) returns (ok: bool)
      requires ConsistentBut(list, i) && count == 1 && flag
      modifies this
      ensures ok == !fails && count == 0 && old(seen) <= seen
      ensures forall n :: |old(seen)| <= n < |seen| ==> Kept(seen[n].0, seen[n].1)
      ensures Kept(list, flag)
      ensures if ok then AtRest() && NoOrphans(list) && OneMore(list, old(list), i, old(list)[i])
              else list == old(list) && flag && !NoOrphans(list)
    {
      ButOneIsKept(list, i);
      DroppedIsConsistent(list, i);
      WithoutIsOneLess(list, i);
      hide OneMore;
      count := count - 1;
      ok := Commit(Without(list, i), fails);
      if ok {
        ConsistentIsKept(list);
      }
    }

    /** Whatever is committed next, without touching the list, takes the mark from a list with an orphan exactly if
        the count was taken back before the commit that failed. */
    method NextCommit()
      requires Kept(list, flag)
      modifies this
      ensures list == old(list) && count == old(count) && flag == (count > 0)
      ensures Kept(list, flag) <==> NoOrphans(list) || count > 0
    {
      var _ := Commit(list, false);
    }

    /** So a directory whose making fails in its last commit, while its parent is of several pairs, is lost: it stays on
        the list, and nothing calls for a repair any more. */
    method MkdirThenCommit(cwd: nat, k: nat, e: Pair, fails1: bool, fails2: bool)
      requires AtRest() && cwd < |list| && !list[|list| - 1].split && k <= |list[cwd].entries| && NewPair(list, e)
      modifies this
      ensures Kept(list, flag) <==> !(old(list[cwd].split) && !fails1 && fails2)
      ensures flag == (count > 0) && (NoOrphans(list) || count > 0 <==> Kept(list, flag))
    {
      var _ := Mkdir(cwd, k, e, fails1, fails2);
      NextCommit();
    }

    /** And one that is removed and cannot be taken off the list. */
    method RemoveThenCommit(i: nat, j: nat, k: nat, fails1: bool, fails2: bool)
      requires AtRest() && i < |list| && IsHead(list, i) && list[i].entries == [] && !list[i].split
      requires j < |list| && k < |list[j].entries| && Sync(list[j].entries[k], list[i].pair)
      modifies this
      ensures Kept(list, flag) <==> fails1 || !fails2
    {
      var _ := Remove(i, j, k, fails1, fails2);
      NextCommit();
    }
  }

  /** Such a directory: a root of two pairs, in which a directory is made. */
  method DirectoryThatIsLost() returns (u: Upkeep)
    ensures !u.flag && u.count == 0 && !NoOrphans(u.list)
  {
    var list := [Dir(Pair(0, 1), true, []), Dir(Pair(2, 3), false, [])];
    assert list[1..][1..] == [] && Children(list[1..]) == [] + Children(list[1..][1..]);
    assert Children(list) == [] + Children(list[1..]) == [];
    u := new Upkeep(list);
    u.MkdirThenCommit(0, 0, Pair(4, 5), false, true);
  }
}
