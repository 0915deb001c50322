/** Open handles follow their entries through a commit (littlefs/lfs.cpp:1870-1913). */
module Handles {
  import opened Words
  import opened Tags
  import opened DirLog
  import opened DirScan
  import opened DirRecovery
  import opened DirUpdate
  import opened GlobalState
  import opened DirCompact
  import opened DirSplit
  import opened Wrappers

  // Where the creates and deletes of a commit move an id; None once it is deleted.
  function Moved(id: nat, attrs: seq<Record>): Option<nat> {
    if attrs == [] then Some(id) else
      var before, r := Moved(id, attrs[..|attrs| - 1]), attrs[|attrs| - 1].tag;
      if before.None? then None
      else if r.ty == TYPE_DELETE && before.value == r.id then None
      else if r.ty == TYPE_DELETE && before.value > r.id then Some(before.value - 1)
      else if r.ty == TYPE_CREATE && before.value >= r.id then Some(before.value + 1)
      else before
  }

  // Looking for a kind no entry holds, the backward walk just follows the id.
  function Traced(attrs: seq<Record>, J: nat): Walk {
    WalkBack(attrs, J, 256, TYPE_SOFTTAIL)
  }

  /** The handle's new id is exactly the one from which the entry's old id is walked back to. */
  lemma {:induction false} MovedIsTraced(id: nat, attrs: seq<Record>, J: nat)
    requires ProperLog(attrs)
    ensures Moved(id, attrs) == Some(J) <==> Traced(attrs, J) == At(id)
    decreases |attrs|
  {
    if attrs != [] {
      var r, rest := attrs[|attrs| - 1], attrs[..|attrs| - 1];
      assert Proper(r);
      MovedIsTraced(id, rest, J);
      MovedIsTraced(id, rest, J + 1);
      if J > 0 {
        MovedIsTraced(id, rest, J - 1);
      }
    }
  }

  /** What the handle then names is the same entry: all that was written to it before is still
      the beginning of its history. */
  lemma {:induction false} SameEntry(log: seq<Record>, attrs: seq<Record>, id: nat)
    requires ProperLog(log + attrs) && Moved(id, attrs).Some?
    ensures Nth(Replay(log), id) <= Nth(Replay(log + attrs), Moved(id, attrs).value)
  {
    if attrs == [] {
      assert log + attrs == log;
    } else {
      var rest, r := attrs[..|attrs| - 1], attrs[|attrs| - 1];
      assert log + attrs == log + rest + [r] && (log + attrs)[|log + attrs| - 1] == r && Proper(r);
      ProperFront(log + rest, r);
      hide Replay, Apply, Nth, ProperLog;
      SameEntry(log, rest, id);
      StepKeeps(log + rest, r, Moved(id, rest).value, Moved(id, attrs).value);
    }
  }

  lemma ProperFront(log: seq<Record>, r: Record)
    requires ProperLog(log + [r])
    ensures ProperLog(log)
  {
    assert forall i :: 0 <= i < |log| ==> log[i] == (log + [r])[i];
  }

  lemma StepKeeps(log: seq<Record>, r: Record, id: nat, J: nat)
    requires Proper(r) && !(r.tag.ty == TYPE_DELETE && id == r.tag.id)
    requires J == if r.tag.ty == TYPE_DELETE && id > r.tag.id then id - 1
                  else if r.tag.ty == TYPE_CREATE && id >= r.tag.id then id + 1 else id
    ensures Nth(Replay(log), id) <= Nth(Replay(log + [r]), J)
  {
    assert (log + [r])[..|log|] == log;
    hide Apply, Nth;
    ApplyKeeps(Replay(log), r, id, J);
  }

  lemma ApplyKeeps(es: seq<History>, r: Record, id: nat, J: nat)
    requires Proper(r) && !(r.tag.ty == TYPE_DELETE && id == r.tag.id)
    requires J == if r.tag.ty == TYPE_DELETE && id > r.tag.id then id - 1
                  else if r.tag.ty == TYPE_CREATE && id >= r.tag.id then id + 1 else id
    ensures Nth(es, id) <= Nth(Apply(es, r), J)
  {
    NthOfApply(es, r, J);
    assert IsAttr(r.tag.ty) || IsGlobal(r.tag.ty) || r.tag.ty == TYPE_CREATE || r.tag.ty == TYPE_DELETE;
    hide Apply, Nth;
  }

  // Two handles on one directory never come to name the same entry.
  lemma StayApart(id: nat, id': nat, attrs: seq<Record>)
    requires ProperLog(attrs) && id != id' && Moved(id, attrs).Some? && Moved(id', attrs).Some?
    ensures Moved(id, attrs) != Moved(id', attrs)
  {
    MovedIsTraced(id, attrs, Moved(id, attrs).value);
    MovedIsTraced(id', attrs, Moved(id, attrs).value);
  }

  /** An entry that a chain of pieces holds is in the piece and under the id that counting off
      whole pieces leads to. */
  ghost predicate Names(disk: seq<seq<byte>>, bs: nat, prog: nat, at: Link, id: nat, source: seq<Record>, entry: nat)
    requires prog > 0 && ProperLog(source) && Device(disk, bs)
  {
    var f := FetchPair(disk, bs, PairOf(at), prog);
    f.Ok? && forall ty :: IsAttr(ty) ==> Value(f.value.state.log, id, ty) == Value(source, entry, ty)
  }

  // Every entry has a name.
  ghost predicate Named(source: seq<Record>, n: nat) {
    forall id :: 0 <= id < n ==> Value(source, id, TYPE_REG).Some?
  }

  class Handle {
    var at: Link      // null once its entry is gone
    var id: nat
    var count: int
    var tail: Link
    var split: bool

    // The first pass: take over the directory and go through the attributes.
    method Follow(at: Link, dir: Mdir, attrs: seq<Record>)
      requires !IsNull(at) && |dir.tail| == 8
      modifies this
      ensures count == dir.count && tail == dir.tail && split == dir.split
      ensures match Moved(old(id), attrs)
              case None => IsNull(this.at)
              case Some(J) => this.at == at && id == J
    {
      hide IsNull;
      this.at, count, tail, split := at, dir.count, dir.tail, dir.split;
      assert attrs[..0] == [];
      for i := 0 to |attrs|
        invariant count == dir.count && tail == dir.tail && split == dir.split
        invariant match Moved(old(id), attrs[..i])
                  case None => IsNull(this.at)
                  case Some(J) => this.at == at && id == J
      {
        assert attrs[..i + 1][..i] == attrs[..i];
        var tag := attrs[i].tag;
        if tag.ty == TYPE_DELETE && id == tag.id {
          NullIsNull();
          this.at := NULL_TAIL;
        } else if tag.ty == TYPE_DELETE && id > tag.id {
          id := id - 1;
        } else if tag.ty == TYPE_CREATE && id >= tag.id {
          id := id + 1;
        }
      }
      assert attrs[..|attrs|] == attrs;
    }

    lemma NullIsNull()
      ensures IsNull(NULL_TAIL)
    {
    }

    /** The second pass: we split and the id may be on a tail now. */
    method Settle(disk: seq<seq<byte>>, bs: nat, prog: nat, ghost source: seq<Record>, ghost chain: seq<Piece>,
                  ghost n: nat, ghost t: Link, ghost split0: bool)
      requires prog > 0 && ProperLog(source) && Device(disk, bs) && Named(source, n)
      requires chain != [] && Covers(source, disk, prog, chain, 0, n, t, split0)
      requires at == LinkTo(chain[0].at) && id < n
      requires count == chain[0].end - chain[0].begin && tail == NextTail(chain, 1, t)
               && split == NextSplit(chain, 1, split0)
      modifies this
      ensures Names(disk, bs, prog, at, id, source, old(id))
    {
      hide FetchPair, Covers, Named, Names, LinkTo, PairOf;
      StartsAtZero(source, disk, prog, chain, n, t, split0);
      ghost var k := 0;
      while id >= count && split
        invariant 0 <= k < |chain| && at == LinkTo(chain[k].at) && id + chain[k].begin == old(id) && old(id) < n
        invariant count == chain[k].end - chain[k].begin
        invariant tail == NextTail(chain, k + 1, t) && split == NextSplit(chain, k + 1, split0)
        decreases |chain| - k
      {
        BeyondIsNext(source, disk, prog, chain, n, t, split0, k, id);
        id := id - count;
        k := k + 1;
        at := tail;
        PieceFetched(source, disk, bs, prog, chain, n, t, split0, k);
        var found := DirRecovery.Fetch(disk, bs, PairOf(at), prog);
        if found.Ok? {
          count, tail, split := found.value.state.count, found.value.state.tail, found.value.state.split;
        }
      }
      EndedInside(source, disk, bs, prog, chain, n, t, split0, k, id, split);
    }
  }

  lemma StartsAtZero(source: seq<Record>, disk: seq<seq<byte>>, prog: nat, chain: seq<Piece>,
                     n: nat, t: Link, split0: bool)
    requires prog > 0 && ProperLog(source) && chain != [] && Covers(source, disk, prog, chain, 0, n, t, split0)
    ensures chain[0].begin == 0
  {
    hide PieceAt;
  }

  lemma BeyondIsNext(source: seq<Record>, disk: seq<seq<byte>>, prog: nat, chain: seq<Piece>,
                     n: nat, t: Link, split0: bool, k: nat, id: nat)
    requires prog > 0 && ProperLog(source) && chain != [] && Covers(source, disk, prog, chain, 0, n, t, split0)
    requires k < |chain| && id + chain[k].begin < n && id >= chain[k].end - chain[k].begin
    ensures k + 1 < |chain| && chain[k + 1].begin == chain[k].end && chain[k].begin <= chain[k].end
  {
    hide FetchBlock, Value, Replay, StoredIn, Newest;
    assert PieceAt(source, disk, prog, chain[k], NextTail(chain, k + 1, t), NextSplit(chain, k + 1, split0));
  }

  lemma PieceFetched(source: seq<Record>, disk: seq<seq<byte>>, bs: nat, prog: nat, chain: seq<Piece>,
                     n: nat, t: Link, split0: bool, k: nat)
    requires prog > 0 && ProperLog(source) && Device(disk, bs) && Named(source, n)
    requires chain != [] && Covers(source, disk, prog, chain, 0, n, t, split0) && k < |chain|
    ensures var f := FetchPair(disk, bs, PairOf(LinkTo(chain[k].at)), prog);
            && f.Ok? && |f.value.state.tail| == 8
            && f.value.state.count == chain[k].end - chain[k].begin
            && f.value.state.tail == NextTail(chain, k + 1, t) && f.value.state.split == NextSplit(chain, k + 1, split0)
  {
    hide FetchBlock, Value, Replay, StoredIn, FetchPair, Newest;
    CoversAt(source, disk, prog, chain, 0, n, t, split0, k);
    LinkRoundTrip(chain[k].at);
    PieceIsFetched(source, disk, bs, prog, chain[k], NextTail(chain, k + 1, t), NextSplit(chain, k + 1, split0));
    EndsWithin(source, disk, prog, chain, n, t, split0, k);
    hide Covers;
  }

  lemma {:induction false} EndsWithin(source: seq<Record>, disk: seq<seq<byte>>, prog: nat, chain: seq<Piece>,
                                      n: nat, t: Link, split0: bool, k: nat)
    requires prog > 0 && ProperLog(source)
    requires chain != [] && Covers(source, disk, prog, chain, 0, n, t, split0) && k < |chain|
    ensures chain[k].end <= n
    decreases |chain| - k
  {
    hide FetchBlock, Value, Replay, StoredIn, Newest;
    if k + 1 < |chain| {
      EndsWithin(source, disk, prog, chain, n, t, split0, k + 1);
      CoversAt(source, disk, prog, chain, 0, n, t, split0, k + 1);
    }
  }

  lemma EndedInside(source: seq<Record>, disk: seq<seq<byte>>, bs: nat, prog: nat, chain: seq<Piece>,
                    n: nat, t: Link, split0: bool, k: nat, id: nat, split: bool)
    requires prog > 0 && ProperLog(source) && Device(disk, bs)
    requires chain != [] && Covers(source, disk, prog, chain, 0, n, t, split0)
    requires k < |chain| && id + chain[k].begin < n && split == NextSplit(chain, k + 1, split0)
    requires id < chain[k].end - chain[k].begin || !split
    ensures Names(disk, bs, prog, LinkTo(chain[k].at), id, source, id + chain[k].begin)
  {
    hide IsPiece, Names, LinkTo;
    CoversAt(source, disk, prog, chain, 0, n, t, split0, k);
    PieceNames(source, disk, bs, prog, chain[k], NextTail(chain, k + 1, t), NextSplit(chain, k + 1, split0), id);
  }

  lemma PieceNames(source: seq<Record>, disk: seq<seq<byte>>, bs: nat, prog: nat, p: Piece, t: Link, split: bool,
                   id: nat)
    requires prog > 0 && ProperLog(source) && Device(disk, bs) && PieceAt(source, disk, prog, p, t, split)
    requires id < p.end - p.begin
    ensures Names(disk, bs, prog, LinkTo(p.at), id, source, id + p.begin)
  {
    hide FetchBlock, Value, Replay, StoredIn, FetchPair, Newest, LinkTo, PairOf;
    LinkRoundTrip(p.at);
    PieceIsFetched(source, disk, bs, prog, p, t, split);
  }
}
