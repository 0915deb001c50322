/** Mounting and traversing in steps, one directory a call, against the loops they were cut from
    (littlefs/lfs.cpp:3736-4022 and 4033-4208). */
module Stepped {
  import opened Words
  import opened GlobalState
  import opened Wrappers

  type Pair = (nat, nat)

  const BLOCK_NULL := 0xffff_ffff
  const ROOT: Pair := (0, 1)
  const NO_PAIR: Pair := (BLOCK_NULL, BLOCK_NULL)

  predicate IsEnd(p: Pair) {
    p.0 == BLOCK_NULL || p.1 == BLOCK_NULL
  }

  /* Traversal */

  // What visiting one directory, or the open files, does: the blocks reported and the error met, if any.
  datatype Visit = Visit(blocks: seq<nat>, error: Option<Error>, tail: Pair)

  // The outcome of a traversal: every block reported, in order, and how it ended.
  datatype Reported = Reported(blocks: seq<nat>, error: Option<Error>)

  function FromTail(dev: Pair -> Visit, limit: nat, tail: Pair, cycle: nat): Reported
    decreases limit - cycle
  {
    if IsEnd(tail) then Reported([], None)
    else if cycle >= limit then Reported([], Some(Corrupt))
    else if dev(tail).error.Some? then Reported(dev(tail).blocks, dev(tail).error)
    else
      var rest := FromTail(dev, limit, dev(tail).tail, cycle + 1);
      Reported(dev(tail).blocks + rest.blocks, rest.error)
  }

  function Then(first: Reported, open: Visit): Reported {
    if first.error.Some? then first else Reported(first.blocks + open.blocks, open.error)
  }

  // What was reported before, and what comes now.
  function After(before: seq<nat>, r: Reported): Reported {
    Reported(before + r.blocks, r.error)
  }

  /** lfs_fs_traverseraw */
  method Traverse(dev: Pair -> Visit, limit: nat, open: Visit) returns (r: Reported)
    ensures r == Then(FromTail(dev, limit, ROOT, 0), open)
  {
    var blocks: seq<nat> := [];
    var tail, cycle := ROOT, 0;
    while !IsEnd(tail)
      invariant cycle <= limit
      invariant After(blocks, FromTail(dev, limit, tail, cycle)) == FromTail(dev, limit, ROOT, 0)
      decreases limit - cycle
    {
      if cycle >= limit {
        // loop detected
        return Reported(blocks, Some(Corrupt));
      }
      cycle := cycle + 1;
      var visit := dev(tail);
      blocks := blocks + visit.blocks;
      if visit.error.Some? {
        return Reported(blocks, visit.error);
      }
      tail := visit.tail;
    }
    // and what open files hold
    return Reported(blocks + open.blocks, open.error);
  }

  class Traversal {
    var state: nat
    var tail: Pair
    var cycle: nat
    var blocks: seq<nat> // what the callback was given so far

    constructor ()
      ensures state == 0 && blocks == []
    {
      state, tail, cycle, blocks := 0, NO_PAIR, 0, [];
    }

    // What the traversal will have reported when it is through.
    ghost function Outcome(dev: Pair -> Visit, limit: nat, open: Visit): Reported
      reads this
    {
      if state == 0 then After(blocks, Then(FromTail(dev, limit, ROOT, 0), open))
      else if state == 1 then After(blocks, Then(FromTail(dev, limit, tail, cycle), open))
      else if state == 2 then Reported(blocks + open.blocks, open.error)
      else Reported(blocks, None)
    }

    // Calls still to come, at most.
    ghost function Left(limit: nat): int
      reads this
    {
      if state == 0 then limit + 3 else if state == 1 then limit - cycle + 2 else if state == 2 then 1 else 0
    }

    /** One call of lfs_fs_traverseraw_async: it brings the same outcome nearer. */
    method Step(dev: Pair -> Visit, limit: nat, open: Visit) returns (err: Option<Error>)
      requires state <= 3 && (state == 1 ==> cycle <= limit)
      modifies this
      ensures state <= 3 && (state == 1 ==> cycle <= limit)
      ensures err.None? ==> Outcome(dev, limit, open) == old(Outcome(dev, limit, open))
      ensures err.Some? ==> Reported(blocks, err) == old(Outcome(dev, limit, open))
      ensures old(state) < 3 && err.None? ==> Left(limit) < old(Left(limit))
      ensures old(state) == 3 ==> err.None?
    {
      err := None;
      match state
      case 0 =>
        tail, cycle, state := ROOT, 0, 1;
      case 1 =>
        if !IsEnd(tail) {
          if cycle >= limit {
            // loop detected
            return Some(Corrupt);
          }
          cycle := cycle + 1;
          var visit := dev(tail);
          blocks := blocks + visit.blocks;
          if visit.error.Some? {
            return visit.error;
          }
          tail := visit.tail;
        } else {
          state := 2;
        }
      case 2 =>
        // and what open files hold
        blocks := blocks + open.blocks;
        if open.error.Some? {
          return open.error;
        }
        state := 3;
      case _ =>
    }
  }

  /** Called again and again, the stepped traversal reports what the loop reports, within three calls more
      than the list may have directories. */
  method TraverseInSteps(dev: Pair -> Visit, limit: nat, open: Visit) returns (r: Reported, calls: nat)
    ensures r == Then(FromTail(dev, limit, ROOT, 0), open) && calls <= limit + 3
  {
    var t := new Traversal();
    calls := 0;
    while t.state < 3
      invariant t.state <= 3 && (t.state == 1 ==> t.cycle <= limit) && calls + t.Left(limit) <= limit + 3
      invariant t.Outcome(dev, limit, open) == Then(FromTail(dev, limit, ROOT, 0), open)
      decreases t.Left(limit)
    {
      calls := calls + 1;
      var err := t.Step(dev, limit, open);
      if err.Some? {
        return Reported(t.blocks, err), calls;
      }
    }
    return Reported(t.blocks, None), calls;
  }

  /* What a traversal reports, over the directories on the list */

  // Directories visited one after the other along the list; the last pair is not visited yet.
  ghost predicate Visits(dev: Pair -> Visit, pairs: seq<Pair>) {
    && pairs != []
    && forall i :: 0 <= i < |pairs| - 1 ==>
         !IsEnd(pairs[i]) && dev(pairs[i]).error.None? && dev(pairs[i]).tail == pairs[i + 1]
  }

  // The blocks fall into parts, one for each directory in turn: what that one reports, in full.
  ghost predicate AllOf(dev: Pair -> Visit, pairs: seq<Pair>, blocks: seq<nat>) {
    exists cuts: seq<nat> :: Parts(dev, pairs, blocks, cuts)
  }

  ghost predicate Parts(dev: Pair -> Visit, pairs: seq<Pair>, blocks: seq<nat>, cuts: seq<nat>) {
    && |cuts| == |pairs| > 0 && cuts[0] == 0 && cuts[|cuts| - 1] == |blocks|
    && forall i :: 0 <= i < |pairs| - 1 ==> IsPart(dev(pairs[i]), blocks, cuts, i)
  }

  ghost predicate IsPart(visit: Visit, blocks: seq<nat>, cuts: seq<nat>, i: nat)
    requires i < |cuts| - 1
  {
    cuts[i] <= cuts[i + 1] <= |blocks| && blocks[cuts[i]..cuts[i + 1]] == visit.blocks
  }

  lemma AllOfStep(dev: Pair -> Visit, pairs: seq<Pair>, blocks: seq<nat>)
    requires |pairs| > 1 && AllOf(dev, pairs[1..], blocks)
    ensures AllOf(dev, pairs, dev(pairs[0]).blocks + blocks)
  {
    var here, rest := dev(pairs[0]).blocks, pairs[1..];
    var was: seq<nat> :| Parts(dev, rest, blocks, was);
    var all := here + blocks;
    var cuts := seq(|pairs|, n requires 0 <= n < |pairs| => if n == 0 then 0 else |here| + was[n - 1]);
    forall i | 0 <= i < |pairs| - 1
      ensures IsPart(dev(pairs[i]), all, cuts, i)
    {
      if i == 0 {
        assert all[0..|here|] == here;
      } else {
        assert rest[i - 1] == pairs[i] && IsPart(dev(rest[i - 1]), blocks, was, i - 1);
        ShiftedPart(dev(pairs[i]), here, blocks, was, cuts, i);
      }
    }
    assert Parts(dev, pairs, all, cuts);
  }

  lemma ShiftedPart(visit: Visit, here: seq<nat>, blocks: seq<nat>, was: seq<nat>, cuts: seq<nat>, i: nat)
    requires 0 < i < |cuts| - 1 && |was| == |cuts| - 1 && IsPart(visit, blocks, was, i - 1)
    requires cuts[i] == |here| + was[i - 1] && cuts[i + 1] == |here| + was[i]
    ensures IsPart(visit, here + blocks, cuts, i)
  {
    assert (here + blocks)[cuts[i]..cuts[i + 1]] == blocks[was[i - 1]..was[i]];
  }

  lemma {:induction false} TraverseLoop(dev: Pair -> Visit, limit: nat, pairs: seq<Pair>, cycle: nat)
    requires Visits(dev, pairs) && cycle + |pairs| - 1 <= limit
    ensures var r, end := FromTail(dev, limit, pairs[0], cycle), pairs[|pairs| - 1];
            if IsEnd(end) then r.error == None && AllOf(dev, pairs, r.blocks)
            else if cycle + |pairs| - 1 == limit then r.error == Some(Corrupt) && AllOf(dev, pairs, r.blocks)
            else dev(end).error.Some? ==>
              && r.error == dev(end).error && |dev(end).blocks| <= |r.blocks|
              && r.blocks[|r.blocks| - |dev(end).blocks|..] == dev(end).blocks
              && AllOf(dev, pairs, r.blocks[..|r.blocks| - |dev(end).blocks|])
    decreases |pairs|
  {
    var r, end := FromTail(dev, limit, pairs[0], cycle), pairs[|pairs| - 1];
    if |pairs| == 1 {
      assert Parts(dev, pairs, [], [0]);
    } else {
      TraverseLoop(dev, limit, pairs[1..], cycle + 1);
      var rest := FromTail(dev, limit, pairs[1], cycle + 1).blocks;
      if IsEnd(end) || cycle + |pairs| - 1 == limit {
        AllOfStep(dev, pairs, rest);
      } else if dev(end).error.Some? {
        AllOfStep(dev, pairs, rest[..|rest| - |dev(end).blocks|]);
        assert (dev(pairs[0]).blocks + rest)[..|dev(pairs[0]).blocks| + |rest| - |dev(end).blocks|] ==
               dev(pairs[0]).blocks + rest[..|rest| - |dev(end).blocks|];
      }
      hide AllOf, Visits;
    }
  }

  /** What a traversal reports, for the directories that it visits: all that each of them reports and nothing else, and
      then what open files hold; or, if there is an error, all up to there. */
  lemma TraverseIsRight(dev: Pair -> Visit, limit: nat, open: Visit, pairs: seq<Pair>)
    requires Visits(dev, pairs) && pairs[0] == (0, 1) && |pairs| - 1 <= limit
    ensures var r, end := Then(FromTail(dev, limit, ROOT, 0), open), pairs[|pairs| - 1];
            if IsEnd(end) then
              && r.error == open.error && |open.blocks| <= |r.blocks|
              && r.blocks[|r.blocks| - |open.blocks|..] == open.blocks
              && AllOf(dev, pairs, r.blocks[..|r.blocks| - |open.blocks|])
            else if |pairs| - 1 == limit then r.error == Some(Corrupt) && AllOf(dev, pairs, r.blocks)
            else dev(end).error.Some? ==>
              && r.error == dev(end).error && |dev(end).blocks| <= |r.blocks|
              && r.blocks[|r.blocks| - |dev(end).blocks|..] == dev(end).blocks
              && AllOf(dev, pairs, r.blocks[..|r.blocks| - |dev(end).blocks|])
  {
    TraverseLoop(dev, limit, pairs, 0);
    hide AllOf, FromTail, Visits;
    var first := FromTail(dev, limit, ROOT, 0);
    assert (first.blocks + open.blocks)[..|first.blocks|] == first.blocks;
  }

  /** Every list and limit are covered. */
  lemma {:induction false} TraverseGoesOn(dev: Pair -> Visit, limit: nat, pairs: seq<Pair>) returns (all: seq<Pair>)
    requires Visits(dev, pairs) && |pairs| - 1 <= limit
    ensures Visits(dev, all) && pairs <= all && |all| - 1 <= limit
    ensures var end := all[|all| - 1];
            IsEnd(end) || |all| - 1 == limit || dev(end).error.Some?
    decreases limit - |pairs|
  {
    var end := pairs[|pairs| - 1];
    all := pairs;
    if !IsEnd(end) && |pairs| - 1 < limit && dev(end).error.None? {
      all := TraverseGoesOn(dev, limit, pairs + [dev(end).tail]);
    }
  }

  /* Mounting */

  datatype Limits = Limits(nameMax: nat, fileMax: nat, attrMax: nat)

  datatype Superblock = Superblock(major: nat, minor: nat, limits: Limits)

  // What fetching one directory finds.
  datatype Look = Failed(error: Error) | Found(pair: Pair, super: Option<Superblock>, delta: GState, tail: Pair)

  datatype Mounted = Mounted(root: Pair, limits: Limits, gstate: GState)

  const MAJOR := 2
  const MINOR := 0

  // A limit of the disk, checked against ours; 0 stands for none.
  function Lower(disk: nat, ours: nat): Option<nat> {
    if disk == 0 then Some(ours) else if disk > ours then None else Some(disk)
  }

  // The part of the mount loop that looks at one directory.
  function Absorb(m: Mounted, look: Look): Result<Mounted>
    requires look.Found?
  {
    var checked :=
      if look.super.None? then Ok(m)
      else
        var s := look.super.value;
        var n, f, a := Lower(s.limits.nameMax, m.limits.nameMax), Lower(s.limits.fileMax, m.limits.fileMax),
            Lower(s.limits.attrMax, m.limits.attrMax);
        if s.major != MAJOR || s.minor > MINOR || n.None? || f.None? || a.None? then Err(Invalid)
        else Ok(m.(root := look.pair, limits := Limits(n.value, f.value, a.value)));
    if checked.Err? then checked else Ok(checked.value.(gstate := GXor(checked.value.gstate, look.delta)))
  }

  function MountFrom(dev: Pair -> Look, limit: nat, tail: Pair, cycle: nat, m: Mounted): Result<Mounted>
    decreases limit - cycle
  {
    if IsEnd(tail) then Ok(m)
    else if cycle >= limit then Err(Corrupt)
    else if dev(tail).Failed? then Err(dev(tail).error)
    else
      var next := Absorb(m, dev(tail));
      if next.Err? then next else MountFrom(dev, limit, dev(tail).tail, cycle + 1, next.value)
  }

  // The root must have been found, and the orphan flag becomes a count.
  function Finish(r: Result<Mounted>): Result<Mounted> {
    if r.Err? then r
    else if IsEnd(r.value.root) then Err(Invalid)
    else
      var g := r.value.gstate;
      Ok(r.value.(gstate := g.(tag := (g.tag + if g.tag >= 0x8000_0000 then 1 else 0) % 0x1_0000_0000)))
  }

  function Fresh(ours: Limits): Mounted {
    Mounted(NO_PAIR, ours, ZERO)
  }

  /** lfs_mount */
  method Mount(dev: Pair -> Look, limit: nat, ours: Limits) returns (r: Result<Mounted>)
    ensures r == Finish(MountFrom(dev, limit, ROOT, 0, Fresh(ours)))
  {
    hide Absorb;
    var m, tail, cycle := Fresh(ours), ROOT, 0;
    while !IsEnd(tail)
      invariant cycle <= limit
      invariant MountFrom(dev, limit, tail, cycle, m) == MountFrom(dev, limit, ROOT, 0, Fresh(ours))
      decreases limit - cycle
    {
      if cycle >= limit {
        // loop detected
        return Err(Corrupt);
      }
      cycle := cycle + 1;
      var look := dev(tail);
      if look.Failed? {
        return Err(look.error);
      }
      var next := Absorb(m, look);
      if next.Err? {
        return next;
      }
      m, tail := next.value, look.tail;
    }
    return Finish(Ok(m));
  }

  class Mounting {
    var state: nat
    var tail: Pair
    var cycle: nat
    var m: Mounted

    constructor (ours: Limits)
      ensures state == 0
    {
      state, tail, cycle, m := 0, NO_PAIR, 0, Fresh(ours);
    }

    ghost function Outcome(dev: Pair -> Look, limit: nat, ours: Limits): Result<Mounted>
      reads this
    {
      if state == 0 then Finish(MountFrom(dev, limit, ROOT, 0, Fresh(ours)))
      else if state == 1 then Finish(MountFrom(dev, limit, tail, cycle, m))
      else if state == 2 then Finish(Ok(m))
      else Ok(m)
    }

    ghost function Left(limit: nat): int
      reads this
    {
      if state == 0 then limit + 3 else if state == 1 then limit - cycle + 2 else if state == 2 then 1 else 0
    }

    /** One call of lfs_mount_async that searches for the global state. */
    method Step(dev: Pair -> Look, limit: nat, ours: Limits) returns (err: Option<Error>)
      requires state <= 3 && (state == 1 ==> cycle <= limit)
      modifies this
      ensures state <= 3 && (state == 1 ==> cycle <= limit)
      ensures err.None? ==> Outcome(dev, limit, ours) == old(Outcome(dev, limit, ours))
      ensures err.Some? ==> Err(err.value) == old(Outcome(dev, limit, ours))
      ensures old(state) < 3 && err.None? ==> Left(limit) < old(Left(limit))
      ensures old(state) == 3 ==> err.None?
    {
      hide Absorb;
      err := None;
      match state
      case 0 =>
        m, tail, cycle, state := Fresh(ours), ROOT, 0, 1;
      case 1 =>
        if !IsEnd(tail) {
          if cycle >= limit {
            // loop detected
            return Some(Corrupt);
          }
          cycle := cycle + 1;
          var look := dev(tail);
          if look.Failed? {
            return Some(look.error);
          }
          var next := Absorb(m, look);
          if next.Err? {
            return Some(next.error);
          }
          m, tail := next.value, look.tail;
        } else {
          state := 2;
        }
      case 2 =>
        // found superblock?
        var done := Finish(Ok(m));
        if done.Err? {
          return Some(done.error);
        }
        m, state := done.value, 3;
      case _ =>
    }
  }

  /** Mounting in steps ends with the same state, or the same error, as mounting at once. */
  method MountInSteps(dev: Pair -> Look, limit: nat, ours: Limits) returns (r: Result<Mounted>, calls: nat)
    ensures r == Finish(MountFrom(dev, limit, ROOT, 0, Fresh(ours))) && calls <= limit + 3
  {
    var t := new Mounting(ours);
    calls := 0;
    while t.state < 3
      invariant t.state <= 3 && (t.state == 1 ==> t.cycle <= limit) && calls + t.Left(limit) <= limit + 3
      invariant t.Outcome(dev, limit, ours) == Finish(MountFrom(dev, limit, ROOT, 0, Fresh(ours)))
      decreases t.Left(limit)
    {
      calls := calls + 1;
      var err := t.Step(dev, limit, ours);
      if err.Some? {
        return Err(err.value), calls;
      }
    }
    return Ok(t.m), calls;
  }

  /* What a mount ends with, over the directories on the list */

  // Directories read one after the other along the list; the last pair is not read yet.
  ghost predicate Reads(dev: Pair -> Look, pairs: seq<Pair>) {
    && pairs != []
    && forall i :: 0 <= i < |pairs| - 1 ==>
         !IsEnd(pairs[i]) && dev(pairs[i]).Found? && dev(pairs[i]).tail == pairs[i + 1]
  }

  // A fetch answers for the pair that it was asked for, in some order.
  ghost predicate Fetches(dev: Pair -> Look) {
    forall p: Pair :: dev(p).Found? ==> dev(p).pair == p || dev(p).pair == (p.1, p.0)
  }

  predicate HasSuper(look: Look) {
    look.Found? && look.super.Some?
  }

  // A limit in the superblock of a directory; 0 also if there is none.
  function LimitIn(look: Look, of: Limits -> nat): nat {
    if HasSuper(look) then of(look.super.value.limits) else 0
  }

  // No superblock asks for more than ours, or than one before it.
  ghost predicate Descending(dev: Pair -> Look, pairs: seq<Pair>, of: Limits -> nat, ours: nat) {
    forall i :: 0 <= i < |pairs| - 1 && LimitIn(dev(pairs[i]), of) != 0 ==>
      && LimitIn(dev(pairs[i]), of) <= ours
      && forall j :: 0 <= j < i && LimitIn(dev(pairs[j]), of) != 0 ==>
           LimitIn(dev(pairs[i]), of) <= LimitIn(dev(pairs[j]), of)
  }

  ghost predicate Least(dev: Pair -> Look, pairs: seq<Pair>, of: Limits -> nat, ours: nat, r: nat) {
    && r <= ours
    && (forall i :: 0 <= i < |pairs| - 1 && LimitIn(dev(pairs[i]), of) != 0 ==> r <= LimitIn(dev(pairs[i]), of))
    && (r == ours || exists i :: 0 <= i < |pairs| - 1 && 0 != LimitIn(dev(pairs[i]), of) == r)
  }

  ghost predicate RightVersions(dev: Pair -> Look, pairs: seq<Pair>) {
    forall i :: 0 <= i < |pairs| - 1 && HasSuper(dev(pairs[i])) ==>
      dev(pairs[i]).super.value.major == 2 && dev(pairs[i]).super.value.minor == 0
  }

  ghost predicate Acceptable(dev: Pair -> Look, pairs: seq<Pair>, ours: Limits) {
    && RightVersions(dev, pairs)
    && Descending(dev, pairs, (l: Limits) => l.nameMax, ours.nameMax)
    && Descending(dev, pairs, (l: Limits) => l.fileMax, ours.fileMax)
    && Descending(dev, pairs, (l: Limits) => l.attrMax, ours.attrMax)
  }

  ghost predicate AllLeast(dev: Pair -> Look, pairs: seq<Pair>, ours: Limits, r: Limits) {
    && Least(dev, pairs, (l: Limits) => l.nameMax, ours.nameMax, r.nameMax)
    && Least(dev, pairs, (l: Limits) => l.fileMax, ours.fileMax, r.fileMax)
    && Least(dev, pairs, (l: Limits) => l.attrMax, ours.attrMax, r.attrMax)
  }

  ghost predicate LastSuper(dev: Pair -> Look, pairs: seq<Pair>, root: Pair) {
    exists i :: 0 <= i < |pairs| - 1 && HasSuper(dev(pairs[i])) && dev(pairs[i]).pair == root &&
                forall j :: i < j < |pairs| - 1 ==> !HasSuper(dev(pairs[j]))
  }

  ghost predicate NoSuper(dev: Pair -> Look, pairs: seq<Pair>) {
    forall i :: 0 <= i < |pairs| - 1 ==> !HasSuper(dev(pairs[i]))
  }

  // The differences they store.
  ghost function Deltas(dev: Pair -> Look, pairs: seq<Pair>): seq<GState>
    requires Reads(dev, pairs)
  {
    seq(|pairs| - 1, i requires 0 <= i < |pairs| - 1 => dev(pairs[i]).delta)
  }

  /** A mount that succeeds has added up the differences of all directories on the list. */
  lemma {:induction false} MountAddsUp(dev: Pair -> Look, limit: nat, pairs: seq<Pair>, cycle: nat, m: Mounted)
    requires Reads(dev, pairs) && IsEnd(pairs[|pairs| - 1]) && MountFrom(dev, limit, pairs[0], cycle, m).Ok?
    ensures MountFrom(dev, limit, pairs[0], cycle, m).value.gstate == GXor(m.gstate, XorAll(Deltas(dev, pairs)))
    decreases |pairs|
  {
    hide GXor;
    var ds := Deltas(dev, pairs);
    if |pairs| == 1 {
      GXorLaws(m.gstate, ZERO, ZERO);
    } else {
      var next := Absorb(m, dev(pairs[0])).value;
      MountAddsUp(dev, limit, pairs[1..], cycle + 1, next);
      assert ds == [ds[0]] + Deltas(dev, pairs[1..]);
      XorAllConcat([ds[0]], ds[1..]);
      XorAllOne(ds[0]);
      GXorLaws(m.gstate, ds[0], XorAll(ds[1..]));
    }
  }

  // One directory more in front, for each kind of limit,
  lemma DescendingStep(dev: Pair -> Look, pairs: seq<Pair>, of: Limits -> nat, ours: nat)
    requires |pairs| > 1
    ensures var disk := LimitIn(dev(pairs[0]), of);
            Descending(dev, pairs, of, ours) <==>
            Lower(disk, ours).Some? && Descending(dev, pairs[1..], of, Lower(disk, ours).value)
  {
    var disk, rest := LimitIn(dev(pairs[0]), of), pairs[1..];
    assert forall i :: 0 <= i < |rest| ==> rest[i] == pairs[i + 1];
    if Lower(disk, ours).Some? && Descending(dev, rest, of, Lower(disk, ours).value) {
      forall i | 0 <= i < |pairs| - 1 && LimitIn(dev(pairs[i]), of) != 0
        ensures && LimitIn(dev(pairs[i]), of) <= ours
                && forall j :: 0 <= j < i && LimitIn(dev(pairs[j]), of) != 0 ==>
                     LimitIn(dev(pairs[i]), of) <= LimitIn(dev(pairs[j]), of)
      {
        if i > 0 {
          assert rest[i - 1] == pairs[i];
          forall j | 0 <= j < i && LimitIn(dev(pairs[j]), of) != 0
            ensures LimitIn(dev(pairs[i]), of) <= LimitIn(dev(pairs[j]), of)
          {
            if j > 0 {
              assert rest[j - 1] == pairs[j];
            }
          }
        }
      }
    }
  }

  lemma LeastStep(dev: Pair -> Look, pairs: seq<Pair>, of: Limits -> nat, ours: nat, r: nat)
    requires |pairs| > 1 && Lower(LimitIn(dev(pairs[0]), of), ours).Some?
    requires Least(dev, pairs[1..], of, Lower(LimitIn(dev(pairs[0]), of), ours).value, r)
    ensures Least(dev, pairs, of, ours, r)
  {
    var disk, rest := LimitIn(dev(pairs[0]), of), pairs[1..];
    assert forall i :: 0 <= i < |rest| ==> rest[i] == pairs[i + 1];
    forall i | 0 <= i < |pairs| - 1 && LimitIn(dev(pairs[i]), of) != 0
      ensures r <= LimitIn(dev(pairs[i]), of)
    {
      if i > 0 {
        assert rest[i - 1] == pairs[i];
      }
    }
  }

  // for the versions,
  lemma VersionsStep(dev: Pair -> Look, pairs: seq<Pair>)
    requires |pairs| > 1
    ensures var look := dev(pairs[0]);
            RightVersions(dev, pairs) <==>
            (HasSuper(look) ==> look.super.value.major == 2 && look.super.value.minor == 0) &&
            RightVersions(dev, pairs[1..])
  {
    assert forall i :: 0 <= i < |pairs| - 1 ==> pairs[1..][i] == pairs[i + 1];
  }

  // for the root,
  lemma RootStep(dev: Pair -> Look, pairs: seq<Pair>, root: Pair)
    requires |pairs| > 1
    ensures NoSuper(dev, pairs) <==> !HasSuper(dev(pairs[0])) && NoSuper(dev, pairs[1..])
    ensures LastSuper(dev, pairs[1..], root) ==> LastSuper(dev, pairs, root)
    ensures HasSuper(dev(pairs[0])) && NoSuper(dev, pairs[1..]) ==> LastSuper(dev, pairs, dev(pairs[0]).pair)
  {
    var rest := pairs[1..];
    assert forall i :: 0 <= i < |rest| ==> rest[i] == pairs[i + 1];
    if LastSuper(dev, rest, root) {
      var i :| 0 <= i < |rest| - 1 && HasSuper(dev(rest[i])) && dev(rest[i]).pair == root &&
               forall j :: i < j < |rest| - 1 ==> !HasSuper(dev(rest[j]));
      assert rest[i] == pairs[i + 1];
      forall j | i + 1 < j < |pairs| - 1
        ensures !HasSuper(dev(pairs[j]))
      {
        assert pairs[j] == rest[j - 1];
      }
    }
  }

  // and so for all that the loop looks at.
  lemma AbsorbStep(dev: Pair -> Look, pairs: seq<Pair>, m: Mounted)
    requires Reads(dev, pairs) && |pairs| > 1
    ensures var next := Absorb(m, dev(pairs[0]));
            && (next.Err? ==> next.error == Invalid && !Acceptable(dev, pairs, m.limits))
            && (next.Ok? ==>
                  && (Acceptable(dev, pairs[1..], next.value.limits) <==> Acceptable(dev, pairs, m.limits))
                  && next.value.root == (if HasSuper(dev(pairs[0])) then dev(pairs[0]).pair else m.root)
                  && forall r :: AllLeast(dev, pairs[1..], next.value.limits, r) ==> AllLeast(dev, pairs, m.limits, r))
  {
    var next := Absorb(m, dev(pairs[0]));
    hide RightVersions, Descending, Least, GXor, Reads;
    VersionsStep(dev, pairs);
    DescendingStep(dev, pairs, (l: Limits) => l.nameMax, m.limits.nameMax);
    DescendingStep(dev, pairs, (l: Limits) => l.fileMax, m.limits.fileMax);
    DescendingStep(dev, pairs, (l: Limits) => l.attrMax, m.limits.attrMax);
    if next.Ok? {
      forall r | AllLeast(dev, pairs[1..], next.value.limits, r)
        ensures AllLeast(dev, pairs, m.limits, r)
      {
        LeastStep(dev, pairs, (l: Limits) => l.nameMax, m.limits.nameMax, r.nameMax);
        LeastStep(dev, pairs, (l: Limits) => l.fileMax, m.limits.fileMax, r.fileMax);
        LeastStep(dev, pairs, (l: Limits) => l.attrMax, m.limits.attrMax, r.attrMax);
      }
    }
  }

  lemma {:induction false} MountLoop(dev: Pair -> Look, limit: nat, pairs: seq<Pair>, cycle: nat, m: Mounted)
    requires Reads(dev, pairs) && cycle + |pairs| - 1 <= limit
    ensures var r, end := MountFrom(dev, limit, pairs[0], cycle, m), pairs[|pairs| - 1];
            && (!Acceptable(dev, pairs, m.limits) ==> r == Err(Invalid))
            && (Acceptable(dev, pairs, m.limits) ==>
                  if IsEnd(end) then
                    && r.Ok? && AllLeast(dev, pairs, m.limits, r.value.limits)
                    && if NoSuper(dev, pairs) then r.value.root == m.root else LastSuper(dev, pairs, r.value.root)
                  else if cycle + |pairs| - 1 == limit then r == Err(Corrupt)
                  else dev(end).Failed? ==> r == Err(dev(end).error))
    decreases |pairs|
  {
    if |pairs| > 1 {
      AbsorbStep(dev, pairs, m);
      var next := Absorb(m, dev(pairs[0]));
      if next.Ok? {
        MountLoop(dev, limit, pairs[1..], cycle + 1, next.value);
        var r := MountFrom(dev, limit, pairs[1], cycle + 1, next.value);
        RootStep(dev, pairs, if r.Ok? then r.value.root else NO_PAIR);
      }
      hide Acceptable, AllLeast, Absorb, Reads, NoSuper, LastSuper;
    }
  }

  /** What a mount ends with, for the directories that it reads: each limit is the least of ours and those of its
      kind in the superblocks found, the root is the last directory with a superblock, and the global state is the
      sum of the stored differences; it is Invalid exactly if a version is wrong, a limit is higher than ours or one
      before it, or no superblock is found. */
  lemma MountIsRight(dev: Pair -> Look, limit: nat, ours: Limits, pairs: seq<Pair>)
    requires Fetches(dev) && Reads(dev, pairs) && pairs[0] == (0, 1) && |pairs| - 1 <= limit
    ensures var r, end := Finish(MountFrom(dev, limit, ROOT, 0, Fresh(ours))), pairs[|pairs| - 1];
            && (!Acceptable(dev, pairs, ours) ==> r == Err(Invalid))
            && (Acceptable(dev, pairs, ours) ==>
                  if IsEnd(end) then
                    if NoSuper(dev, pairs) then r == Err(Invalid)
                    else
                      && r.Ok? && AllLeast(dev, pairs, ours, r.value.limits) && LastSuper(dev, pairs, r.value.root)
                      && var sum := XorAll(Deltas(dev, pairs));
                         && r.value.gstate.p0 == sum.p0 && r.value.gstate.p1 == sum.p1
                         && (sum.tag < 0x8000_0000 ==> r.value.gstate.tag == sum.tag)
                         && (0x8000_0000 <= sum.tag < 0xffff_ffff ==> r.value.gstate.tag == sum.tag + 1)
                  else if |pairs| - 1 == limit then r == Err(Corrupt)
                  else dev(end).Failed? ==> r == Err(dev(end).error))
  {
    var r, end := MountFrom(dev, limit, ROOT, 0, Fresh(ours)), pairs[|pairs| - 1];
    hide GXor, Acceptable, AllLeast, MountFrom, Deltas, XorAll, LastSuper, NoSuper, Fetches, Reads, Finish;
    MountLoop(dev, limit, pairs, 0, Fresh(ours));
    FinishedErr(r);
    if Acceptable(dev, pairs, ours) && IsEnd(end) {
      MountAddsUp(dev, limit, pairs, 0, Fresh(ours));
      GXorLaws(XorAll(Deltas(dev, pairs)), ZERO, ZERO);
      if !NoSuper(dev, pairs) {
        RealRoot(dev, pairs, r.value.root);
      }
      Finished(r.value);
    }
  }

  lemma FinishedErr(r: Result<Mounted>)
    ensures r.Err? ==> Finish(r) == r
  {
  }

  lemma Finished(m: Mounted)
    ensures var r, tag := Finish(Ok(m)), m.gstate.tag;
            if IsEnd(m.root) then r == Err(Invalid)
            else
              && r.Ok? && r.value.root == m.root && r.value.limits == m.limits
              && r.value.gstate.p0 == m.gstate.p0 && r.value.gstate.p1 == m.gstate.p1
              && (tag < 0x8000_0000 ==> r.value.gstate.tag == tag)
              && (0x8000_0000 <= tag < 0xffff_ffff ==> r.value.gstate.tag == tag + 1)
  {
  }

  lemma RealRoot(dev: Pair -> Look, pairs: seq<Pair>, root: Pair)
    requires Fetches(dev) && Reads(dev, pairs) && LastSuper(dev, pairs, root)
    ensures !IsEnd(root)
  {
  }

  /** Every device and limit are covered: what the mount reads is such a list. */
  lemma {:induction false} MountReadsOn(dev: Pair -> Look, limit: nat, pairs: seq<Pair>)
    returns (all: seq<Pair>)
    requires Reads(dev, pairs) && |pairs| - 1 <= limit
    ensures Reads(dev, all) && pairs <= all && |all| - 1 <= limit
    ensures var end := all[|all| - 1];
            IsEnd(end) || |all| - 1 == limit || dev(end).Failed?
    decreases limit - |pairs|
  {
    var end := pairs[|pairs| - 1];
    all := pairs;
    if !IsEnd(end) && |pairs| - 1 < limit && dev(end).Found? {
      all := MountReadsOn(dev, limit, pairs + [dev(end).tail]);
    }
  }
}
