/** Which names a path leads through (littlefs/lfs.cpp:1125-1160 and 1207-1208). */
module PathWalk {
  import opened Wrappers

  type Name = string

  /* The C string functions the walk is made of */

  // strspn(path + i, "/")
  function SkipSlashes(path: string, i: nat): (j: nat)
    requires i <= |path|
    ensures i <= j <= |path| && (j < |path| ==> path[j] != '/')
    ensures forall q :: i <= q < j ==> path[q] == '/'
    decreases |path| - i
  {
    if i < |path| && path[i] == '/' then SkipSlashes(path, i + 1) else i
  }

  // strcspn(path + i, "/")
  function NameEnd(path: string, i: nat): (j: nat)
    requires i <= |path|
    ensures i <= j <= |path| && (i < |path| && path[i] != '/' ==> i < j)
    decreases |path| - i
  {
    if i < |path| && path[i] != '/' then NameEnd(path, i + 1) else i
  }

  lemma {:induction false} Spans(path: string, i: nat)
    requires i <= |path|
    ensures forall q :: i <= q < SkipSlashes(path, i) ==> path[q] == '/'
    ensures forall q :: i <= q < NameEnd(path, i) ==> path[q] != '/'
    ensures NameEnd(path, i) < |path| ==> path[NameEnd(path, i)] == '/'
    decreases |path| - i
  {
    if i < |path| {
      Spans(path, i + 1);
    }
  }

  // The components of a path from i on.
  function Components(path: string, i: nat): seq<Name>
    requires i <= |path|
    decreases |path| - i
  {
    var j := SkipSlashes(path, i);
    if j == |path| then [] else [path[j..NameEnd(path, j)]] + Components(path, NameEnd(path, j))
  }

  // A longest piece of the path from i on without slashes.
  ghost predicate IsRun(path: string, i: nat, c: Name, at: int) {
    && i <= at && at + |c| <= |path| && c != [] && path[at..at + |c|] == c && '/' !in c
    && (at == i || path[at - 1] == '/') && (at + |c| < |path| ==> path[at + |c|] == '/')
  }

  // Such pieces one after the other, and only slashes outside them.
  ghost predicate Runs(path: string, i: nat, cs: seq<Name>, starts: seq<nat>) {
    && |starts| == |cs|
    && (forall k :: 0 <= k < |cs| ==> IsRun(path, i, cs[k], starts[k]))
    && (forall k, l :: 0 <= k < l < |cs| ==> starts[k] + |cs[k]| <= starts[l])
    && forall q :: i <= q < |path| && path[q] != '/' ==> exists k :: 0 <= k < |cs| && Inside(cs[k], starts[k], q)
  }

  ghost predicate Inside(c: Name, at: nat, q: nat) {
    at <= q < at + |c|
  }

  /** The components are the longest pieces without slashes, all of them, in order. */
  lemma {:induction false} ComponentsAreRuns(path: string, i: nat) returns (starts: seq<nat>)
    requires i <= |path|
    ensures Runs(path, i, Components(path, i), starts)
    decreases |path| - i
  {
    var j := SkipSlashes(path, i);
    if j == |path| {
      starts := [];
    } else {
      var e := NameEnd(path, j);
      Spans(path, i);
      Spans(path, j);
      var rest := ComponentsAreRuns(path, e);
      starts := [j] + rest;
      RunInFront(path, i, j, e, Components(path, e), rest);
    }
  }

  lemma RunInFront(path: string, i: nat, j: nat, e: nat, cs: seq<Name>, rest: seq<nat>)
    requires i <= j < e <= |path| && Runs(path, e, cs, rest)
    requires (forall q :: i <= q < j ==> path[q] == '/') && (forall q :: j <= q < e ==> path[q] != '/')
    requires e < |path| ==> path[e] == '/'
    ensures Runs(path, i, [path[j..e]] + cs, [j] + rest)
  {
    hide IsRun, Inside;
    var all, starts := [path[j..e]] + cs, [j] + rest;
    assert |starts| == |all| && all[0] == path[j..e] && starts[0] == j;
    assert forall k :: 0 < k < |all| ==> all[k] == cs[k - 1] && starts[k] == rest[k - 1];
    FirstRun(path, i, j, e);
    forall k | 0 < k < |all|
      ensures IsRun(path, i, all[k], starts[k]) && e <= starts[k]
    {
      LaterRun(path, i, e, cs[k - 1], rest[k - 1]);
    }
    forall q | i <= q < |path| && path[q] != '/'
      ensures exists k :: 0 <= k < |all| && Inside(all[k], starts[k], q)
    {
      if q < e {
        assert Inside(all[0], starts[0], q) by { InsideFirst(path, j, e, q); }
      } else {
        var k :| 0 <= k < |cs| && Inside(cs[k], rest[k], q);
        assert Inside(all[k + 1], starts[k + 1], q);
      }
    }
  }

  lemma FirstRun(path: string, i: nat, j: nat, e: nat)
    requires i <= j < e <= |path| && (e < |path| ==> path[e] == '/')
    requires (forall q :: i <= q < j ==> path[q] == '/') && (forall q :: j <= q < e ==> path[q] != '/')
    ensures IsRun(path, i, path[j..e], j)
  {
  }

  lemma InsideFirst(path: string, j: nat, e: nat, q: nat)
    requires j <= q < e <= |path|
    ensures Inside(path[j..e], j, q)
  {
  }

  lemma LaterRun(path: string, i: nat, e: nat, c: Name, at: int)
    requires i <= e <= |path| && (e < |path| ==> path[e] == '/') && IsRun(path, e, c, at)
    ensures IsRun(path, i, c, at) && e <= at
  {
    assert c[0] == path[at];
  }

  /* What a path means: a stack of names, clamped at the root */

  predicate IsDot(c: Name) {
    c == "."
  }

  predicate IsUp(c: Name) {
    c == ".."
  }

  function Step(stack: seq<Name>, c: Name): seq<Name> {
    if !IsUp(c) then stack + [c] else if stack == [] then [] else stack[..|stack| - 1]
  }

  function Run(cs: seq<Name>, stack: seq<Name>): seq<Name> {
    if cs == [] then stack else Run(cs[1..], Step(stack, cs[0]))
  }

  function DropDots(cs: seq<Name>): seq<Name> {
    if cs == [] then [] else (if IsDot(cs[0]) then [] else [cs[0]]) + DropDots(cs[1..])
  }

  /* The forward scan for a '..' that cancels a name */

  function CancelAt(cs: seq<Name>, depth: nat): (k: Option<nat>)
    requires depth > 0
    ensures k.Some? ==> k.value < |cs|
  {
    if cs == [] then None
    else if IsUp(cs[0]) && depth == 1 then Some(0)
    else
      var k := CancelAt(cs[1..], if IsUp(cs[0]) then depth - 1 else depth + 1);
      if k.None? then None else Some(k.value + 1)
  }

  // The names that are looked up.
  function Kept(cs: seq<Name>): seq<Name>
    decreases |cs|
  {
    if cs == [] then []
    else if IsDot(cs[0]) || IsUp(cs[0]) then Kept(cs[1..])
    else
      var k := CancelAt(cs[1..], 1);
      if k.Some? then Kept(cs[1..][k.value + 1..]) else [cs[0]] + Kept(cs[1..])
  }

  // Up to a cancelling '..' the stack is only used above what was there, and then that is popped.
  lemma {:induction false} RunToCancel(cs: seq<Name>, stack: seq<Name>, above: seq<Name>)
    requires above != [] && CancelAt(cs, |above|).Some?
    ensures Run(cs, stack + above) == Run(cs[CancelAt(cs, |above|).value + 1..], stack)
    decreases |cs|
  {
    var d, rest := |above|, cs[1..];
    assert Run(cs, stack + above) == Run(rest, Step(stack + above, cs[0]));
    StepAbove(stack, above, cs[0]);
    if IsUp(cs[0]) && d == 1 {
      assert stack + [] == stack;
    } else {
      var next := Step(above, cs[0]);
      assert CancelAt(cs, d).value == CancelAt(rest, |next|).value + 1;
      hide Run, CancelAt, Step;
      RunToCancel(rest, stack, next);
    }
  }

  lemma StepAbove(stack: seq<Name>, above: seq<Name>, c: Name)
    requires above != []
    ensures Step(stack + above, c) == stack + Step(above, c)
    ensures |Step(above, c)| == if IsUp(c) then |above| - 1 else |above| + 1
  {
    var n := |stack + above| - 1;
    assert (stack + above)[..n] == stack + above[..|above| - 1];
  }

  // With nothing below, the cancelling '..' meets the root.
  lemma {:induction false} RunToRoot(cs: seq<Name>, above: seq<Name>)
    requires CancelAt(cs, |above| + 1).Some?
    ensures Run(cs, above) == Run(cs[CancelAt(cs, |above| + 1).value + 1..], [])
    decreases |cs|
  {
    var rest, next := cs[1..], Step(above, cs[0]);
    assert Run(cs, above) == Run(rest, next);
    if IsUp(cs[0]) && above == [] {
    } else {
      assert |next| == if IsUp(cs[0]) then |above| - 1 else |above| + 1;
      assert CancelAt(cs, |above| + 1).value == CancelAt(rest, |next| + 1).value + 1;
      hide Run, CancelAt, Step;
      RunToRoot(rest, next);
    }
  }

  // Without a cancelling '..' the name below stays.
  lemma {:induction false} RunAbove(cs: seq<Name>, n: Name, above: seq<Name>)
    requires CancelAt(cs, |above| + 1).None?
    ensures Run(cs, [n] + above) == [n] + Run(cs, above)
    decreases |cs|
  {
    if cs != [] {
      var next := Step(above, cs[0]);
      assert Step([n] + above, cs[0]) == [n] + next;
      assert |next| + 1 == if IsUp(cs[0]) then |above| else |above| + 2;
      RunAbove(cs[1..], n, next);
    }
  }

  // What a first name does to the stack, cancelled later or not.
  lemma FirstName(cs: seq<Name>)
    requires cs != [] && !IsUp(cs[0])
    ensures var c, rest, k := cs[0], cs[1..], CancelAt(cs[1..], 1);
            if k.Some? then Run(cs, []) == Run(rest, []) == Run(rest[k.value + 1..], [])
            else Run(cs, []) == [c] + Run(rest, [])
  {
    hide *;
    var c, rest, k := cs[0], cs[1..], CancelAt(cs[1..], 1);
    RunFirst(cs);
    assert [c] + [] == [c] && [] + [c] == [c];
    if k.Some? {
      RunToCancel(rest, [], [c]);
      RunToRoot(rest, []);
    } else {
      RunAbove(rest, c, []);
    }
  }

  lemma RunFirst(cs: seq<Name>)
    requires cs != [] && !IsUp(cs[0])
    ensures Run(cs, []) == Run(cs[1..], [cs[0]])
  {
    assert Step([], cs[0]) == [cs[0]];
  }

  /** For every path: the names looked up are what the stack leaves, when '.' is taken for a name like
      any other until the end, and dropped then. */
  lemma {:induction false} WalkIsStack(cs: seq<Name>)
    ensures Kept(cs) == DropDots(Run(cs, []))
    decreases |cs|
  {
    if cs == [] {
    } else if IsUp(cs[0]) {
      WalkIsStack(cs[1..]);
    } else {
      hide Run, IsDot, IsUp, CancelAt, DropDots;
      var c, rest, k := cs[0], cs[1..], CancelAt(cs[1..], 1);
      FirstName(cs);
      WalkIsStack(rest);
      if k.Some? {
        WalkIsStack(rest[k.value + 1..]);
      } else {
        DropFirst(c, Run(rest, []));
      }
    }
  }

  lemma DropFirst(c: Name, cs: seq<Name>)
    ensures DropDots([c] + cs) == if IsDot(c) then DropDots(cs) else [c] + DropDots(cs)
  {
    assert ([c] + cs)[1..] == cs;
  }

  lemma {:induction false} RunKeepsDotless(cs: seq<Name>, stack: seq<Name>)
    requires "." !in cs && "." !in stack
    ensures "." !in Run(cs, stack)
    decreases |cs|
  {
    if cs != [] {
      RunKeepsDotless(cs[1..], Step(stack, cs[0]));
    }
  }

  lemma {:induction false} NothingToDrop(cs: seq<Name>)
    requires "." !in cs
    ensures DropDots(cs) == cs
  {
    if cs != [] {
      NothingToDrop(cs[1..]);
    }
  }

  /** On paths without '.' the walk is the usual normalisation. */
  lemma WalkNormalises(cs: seq<Name>)
    requires "." !in cs
    ensures Kept(cs) == Run(cs, [])
  {
    WalkIsStack(cs);
    RunKeepsDotless(cs, []);
    NothingToDrop(Run(cs, []));
  }

  /* With '.' it need not be: counting tells when */

  // How many names a stack of names (true) and dots (false) has.
  function Names(marks: seq<bool>): nat {
    if marks == [] then 0 else (if marks[|marks| - 1] then 1 else 0) + Names(marks[..|marks| - 1])
  }

  function MarkStep(marks: seq<bool>, c: Name): seq<bool> {
    if !IsUp(c) then marks + [!IsDot(c)] else if marks == [] then [] else marks[..|marks| - 1]
  }

  function HeightStep(height: nat, c: Name): nat {
    if IsDot(c) then height else if !IsUp(c) then height + 1 else if height == 0 then 0 else height - 1
  }

  /** One pass over the path, counting only: the stack with dots kept, and the height of the stack
      without them. What remains at the end is how many names the walk keeps too many. */
  function Excess(cs: seq<Name>, marks: seq<bool>, height: nat): int {
    if cs == [] then Names(marks) - height
    else Excess(cs[1..], MarkStep(marks, cs[0]), HeightStep(height, cs[0]))
  }

  ghost predicate Marked(stack: seq<Name>, marks: seq<bool>) {
    |marks| == |stack| && forall i :: 0 <= i < |stack| ==> (marks[i] <==> !IsDot(stack[i]))
  }

  lemma {:induction false} DropFromEnd(stack: seq<Name>, c: Name)
    ensures DropDots(stack + [c]) == DropDots(stack) + if IsDot(c) then [] else [c]
  {
    hide IsDot;
    if stack == [] {
      assert [c][1..] == [] && [] + [c] == [c];
    } else {
      assert (stack + [c])[1..] == stack[1..] + [c] && (stack + [c])[0] == stack[0];
      var all, rest := DropDots(stack + [c]), DropDots((stack + [c])[1..]);
      assert all == (if IsDot(stack[0]) then [] else [stack[0]]) + rest;
      hide DropDots;
      DropFromEnd(stack[1..], c);
      DroppedFirst(stack);
    }
  }

  lemma DroppedFirst(stack: seq<Name>)
    requires stack != []
    ensures DropDots(stack) == (if IsDot(stack[0]) then [] else [stack[0]]) + DropDots(stack[1..])
  {
  }

  lemma {:induction false} NamesAreCounted(stack: seq<Name>, marks: seq<bool>)
    requires Marked(stack, marks)
    ensures Names(marks) == |DropDots(stack)|
    decreases |stack|
  {
    if stack != [] {
      var n := |stack| - 1;
      NamesAreCounted(stack[..n], marks[..n]);
      DropFromEnd(stack[..n], stack[n]);
      assert stack == stack[..n] + [stack[n]];
    }
  }

  // Two stacks after the same components, the second without dots: it is never the higher, and while
  // they are of one height they are the same.
  ghost predicate Beside(stack: seq<Name>, plain: seq<Name>, marks: seq<bool>) {
    Marked(stack, marks) && |plain| <= |DropDots(stack)| && (|plain| == |DropDots(stack)| ==> plain == DropDots(stack))
  }

  function PlainStep(plain: seq<Name>, c: Name): seq<Name> {
    if IsDot(c) then plain else Step(plain, c)
  }

  lemma BothStep(stack: seq<Name>, plain: seq<Name>, marks: seq<bool>, c: Name)
    requires Beside(stack, plain, marks)
    ensures Beside(Step(stack, c), PlainStep(plain, c), MarkStep(marks, c))
    ensures |PlainStep(plain, c)| == HeightStep(|plain|, c)
  {
    if !IsUp(c) {
      DropFromEnd(stack, c);
    } else if stack != [] {
      var n := |stack| - 1;
      DropFromEnd(stack[..n], stack[n]);
      assert stack == stack[..n] + [stack[n]];
      var names := DropDots(stack[..n]);
      assert (names + [stack[n]])[..|names|] == names;
    }
  }

  lemma RunPlain(cs: seq<Name>, plain: seq<Name>)
    requires cs != []
    ensures Run(DropDots(cs), plain) == Run(DropDots(cs[1..]), PlainStep(plain, cs[0]))
  {
    var rest := DropDots(cs[1..]);
    assert [] + rest == rest && ([cs[0]] + rest)[1..] == rest;
  }

  lemma {:induction false} ExcessIsGap(cs: seq<Name>, stack: seq<Name>, plain: seq<Name>, marks: seq<bool>)
    requires Beside(stack, plain, marks)
    ensures var kept, usual := DropDots(Run(cs, stack)), Run(DropDots(cs), plain);
            Excess(cs, marks, |plain|) == |kept| - |usual| >= 0 && (|kept| == |usual| ==> kept == usual)
    decreases |cs|
  {
    if cs == [] {
      NamesAreCounted(stack, marks);
    } else {
      var c, rest := cs[0], cs[1..];
      assert Run(cs, stack) == Run(rest, Step(stack, c));
      assert Excess(cs, marks, |plain|) == Excess(rest, MarkStep(marks, c), HeightStep(|plain|, c));
      hide Run, Excess, DropDots, Beside, Step;
      BothStep(stack, plain, marks, c);
      RunPlain(cs, plain);
      ExcessIsGap(rest, Step(stack, c), PlainStep(plain, c), MarkStep(marks, c));
    }
  }

  /** The walk is the usual normalisation, dots dropped first, exactly for the paths whose count comes
      out even; for all others it keeps that many names too many. */
  lemma WalkNormalisesIff(cs: seq<Name>)
    ensures Excess(cs, [], 0) == |Kept(cs)| - |Run(DropDots(cs), [])| >= 0
    ensures Kept(cs) == Run(DropDots(cs), []) <==> Excess(cs, [], 0) == 0
  {
    WalkIsStack(cs);
    ExcessIsGap(cs, [], [], []);
  }

  /** So 'a/./..' does not lead to the root, but to 'a'. */
  lemma DotsCount()
    ensures Components("a/./..", 0) == ["a", ".", ".."]
    ensures Excess(["a", ".", ".."], [], 0) == 1 && Kept(["a", ".", ".."]) == ["a"]
    ensures Kept(["a", ".", ".."]) != Run(DropDots(["a", ".", ".."]), [])
  {
    DottedComponents();
    DottedExcess();
    WalkNormalisesIff(["a", ".", ".."]);
  }

  lemma DottedComponents()
    ensures Components("a/./..", 0) == ["a", ".", ".."]
  {
    var p := "a/./..";
    assert NameEnd(p, 0) == 1 && SkipSlashes(p, 1) == 2 && NameEnd(p, 2) == 3 && SkipSlashes(p, 3) == 4;
    assert NameEnd(p, 5) == 6 && NameEnd(p, 4) == 6 && SkipSlashes(p, 6) == 6;
    assert p[0..1] == "a" && p[2..3] == "." && p[4..6] == "..";
    assert Components(p, 6) == [];
    assert Components(p, 3) == [".."];
    assert Components(p, 1) == [".", ".."];
  }

  lemma DottedExcess()
    ensures Excess(["a", ".", ".."], [], 0) == 1 && Kept(["a", ".", ".."]) == ["a"]
  {
    var cs := ["a", ".", ".."];
    assert cs[1..] == [".", ".."] && cs[1..][1..] == [".."] && cs[1..][1..][1..] == [];
    assert CancelAt([], 1) == None && CancelAt([".."], 2) == None && CancelAt([".", ".."], 1) == None;
    assert Kept([".."]) == [] && Kept([".", ".."]) == [];
    assert [true, false][..1] == [true] && [true][..0] == [];
    assert Names([true]) == 1;
    assert MarkStep([], "a") == [true] && MarkStep([true], ".") == [true, false];
    assert MarkStep([true, false], "..") == [true];
    assert Excess([".."], [true, false], 1) == Excess([], [true], 0) == 1;
    assert Excess([".", ".."], [true], 1) == 1;
  }

  /* The walk over the characters */

  // Whether a later '..' undoes the name, and where the walk goes on then.
  method FindCancel(path: string, from: nat) returns (after: Option<nat>)
    requires from <= |path|
    ensures var cs := Components(path, from);
            match CancelAt(cs, 1)
            case None => after == None
            case Some(k) => after.Some? && from < after.value <= |path| && Components(path, after.value) == cs[k + 1..]
  {
    hide CancelAt, SkipSlashes, NameEnd, Components;
    var suffix, depth := from, 1;
    ghost var cs, n := Components(path, from), 0;
    assert cs[0..] == cs;
    while true
      invariant from <= suffix <= |path| && depth > 0 && n <= |cs| && Components(path, suffix) == cs[n..]
      invariant var k := CancelAt(cs[n..], depth);
                CancelAt(cs, 1) == if k.None? then None else Some(k.value + n)
      decreases |path| - suffix
    {
      NextComponent(path, suffix);
      suffix := SkipSlashes(path, suffix);
      var end := NameEnd(path, suffix);
      CancelHere(cs, n, depth);
      if end == suffix {
        return None;
      }
      assert cs[n..][0] == cs[n] && cs[n..][1..] == cs[n + 1..];
      if path[suffix..end] == ".." {
        depth := depth - 1;
        if depth == 0 {
          return Some(end);
        }
      } else {
        depth := depth + 1;
      }
      suffix, n := end, n + 1;
    }
  }

  lemma NextComponent(path: string, i: nat)
    requires i <= |path|
    ensures var j, cs := SkipSlashes(path, i), Components(path, i);
            var end := NameEnd(path, j);
            if end == j then cs == []
            else cs != [] && i < end <= |path| && cs[0] == path[j..end] && Components(path, end) == cs[1..]
  {
  }

  lemma CancelHere(cs: seq<Name>, n: nat, depth: nat)
    requires n <= |cs| && depth > 0
    ensures CancelAt(cs[n..], depth) ==
              if n == |cs| then None
              else if IsUp(cs[n]) && depth == 1 then Some(0)
              else
                var k := CancelAt(cs[n + 1..], if IsUp(cs[n]) then depth - 1 else depth + 1);
                if k.None? then None else Some(k.value + 1)
  {
    assert n < |cs| ==> cs[n..][1..] == cs[n + 1..];
  }

  // One turn of the walk.
  lemma KeptFrom(path: string, i: nat)
    requires i <= |path|
    ensures var j := SkipSlashes(path, i);
            var end := NameEnd(path, j);
            var name, kept, later := path[j..end], Kept(Components(path, i)), Components(path, end);
            if j == |path| then kept == [] && !IsDot(name) && !IsUp(name)
            else if IsDot(name) || IsUp(name) then kept == Kept(later)
            else
              match CancelAt(later, 1)
              case None => kept == [name] + Kept(later)
              case Some(k) => kept == Kept(later[k + 1..])
  {
    hide CancelAt;
    var j := SkipSlashes(path, i);
    var end := NameEnd(path, j);
    assert j < |path| ==> Components(path, i)[1..] == Components(path, end);
  }

  /** The loop of lfs_dir_find: the names it looks up, in order. The position in the path only ever
      moves forward. */
  method Walk(path: string) returns (names: seq<Name>)
    ensures names == Kept(Components(path, 0))
  {
    hide Components, Kept, CancelAt, SkipSlashes, NameEnd, IsDot, IsUp;
    names := [];
    var name := 0;
    while true
      invariant name <= |path| && Kept(Components(path, 0)) == names + Kept(Components(path, name))
      decreases |path| - name
    {
      KeptFrom(path, name);
      name := SkipSlashes(path, name);
      var end := NameEnd(path, name);
      // names that lead nowhere
      if IsDot(path[name..end]) || IsUp(path[name..end]) {
        name := end;
        continue;
      }
      // a name that is undone later
      var after := FindCancel(path, end);
      if after.Some? {
        name := after.value;
        continue;
      }
      if name == |path| {
        return;
      }
      names := names + [path[name..end]];
      // on behind the name
      name := end;
    }
  }
}
