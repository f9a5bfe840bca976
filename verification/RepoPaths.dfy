/** Lexical path resolution: `..` is cancelled on a stack, and the result must stay
    inside a container directory. */
module RepoPaths {
  import opened Ordering
  import opened Text

  datatype Fault = AbsolutePath | EscapesRoot | EscapesContainer

  /** A path segment; a name is any text but the three special ones. */
  datatype Segment = Empty | Dot | DotDot | Name(text: string)

  type Parts = seq<Segment>

  function Classify(text: string): Segment {
    if text == "" then Empty else if text == "." then Dot else if text == ".." then DotDot else Name(text)
  }

  /** The segments of a relative PurePosixPath: empty and `.` segments are dropped. */
  function Segments(raw: seq<string>): (r: Parts)
    ensures forall i :: 0 <= i < |r| ==> r[i].DotDot? || r[i].Name?
  {
    if raw == [] then []
    else if Classify(raw[0]).Empty? || Classify(raw[0]).Dot? then Segments(raw[1..])
    else [Classify(raw[0])] + Segments(raw[1..])
  }

  // ---- the stack

  function PushOrPop(stack: Parts, part: Segment): Result<Parts, Fault> {
    match part
    case Empty => Success(stack)
    case Dot => Success(stack)
    case DotDot => if stack == [] then Failure(EscapesRoot) else Success(stack[..|stack| - 1])
    case Name(_) => Success(stack + [part])
  }

  function Normalise(parts: Parts): Result<Parts, Fault> {
    if parts == [] then Success([])
    else
      match Normalise(parts[..|parts| - 1])
      case Failure(e) => Failure(e)
      case Success(stack) => PushOrPop(stack, parts[|parts| - 1])
  }

  lemma {:induction false} NormaliseFailsEarly(parts: Parts, i: nat)
    requires i <= |parts| && Normalise(parts[..i]).Failure?
    ensures Normalise(parts) == Normalise(parts[..i])
  {
    if i < |parts| {
      assert parts[..|parts| - 1][..i] == parts[..i];
      NormaliseFailsEarly(parts[..|parts| - 1], i);
    } else {
      assert parts[..i] == parts;
    }
  }

  method NormaliseRepoRelativePath(path: Parts) returns (r: Result<Parts, Fault>)
    ensures r == Normalise(path)
  {
    var parts: Parts := [];
    for i := 0 to |path|
      invariant Normalise(path[..i]) == Success(parts)
    {
      assert path[..i + 1][..i] == path[..i];
      if path[i].Empty? || path[i].Dot? {
        continue;
      }
      if path[i].DotDot? {
        if parts == [] {
          NormaliseFailsEarly(path, i + 1);
          return Failure(EscapesRoot);
        }
        parts := parts[..|parts| - 1];
        continue;
      }
      parts := parts + [path[i]];
    }
    assert path[..|path|] == path;
    return Success(parts);
  }

  function Resolve(base: Parts, relative: string, container: Parts): Result<Parts, Fault> {
    if relative != "" && relative[0] == '/' then Failure(AbsolutePath)
    else
      match Normalise(base + Segments(Split(relative, '/')))
      case Failure(e) => Failure(e)
      case Success(resolved) => if container <= resolved then Success(resolved) else Failure(EscapesContainer)
  }

  method ResolveRepoRelativePath(base: Parts, relative: string, container: Parts) returns (r: Result<Parts, Fault>)
    ensures r == Resolve(base, relative, container)
  {
    if relative != "" && relative[0] == '/' {
      return Failure(AbsolutePath);
    }
    var resolved := NormaliseRepoRelativePath(base + Segments(Split(relative, '/')));
    if resolved.Failure? || container <= resolved.value {
      return resolved;
    }
    return Failure(EscapesContainer);
  }

  // ---- walking the segments, without a stack

  /** How far below the root the walk is; negative above it. */
  function Depth(parts: Parts): int {
    if parts == [] then 0
    else
      var part := parts[|parts| - 1];
      Depth(parts[..|parts| - 1]) + if part.Name? then 1 else if part.DotDot? then -1 else 0
  }

  ghost predicate StepsAboveRoot(parts: Parts) {
    exists k :: 0 <= k <= |parts| && Depth(parts[..k]) < 0
  }

  /** A directory entered at step `i` that the walk never leaves again. */
  ghost predicate Stays(parts: Parts, i: nat) {
    && i < |parts| && parts[i].Name?
    && forall k :: i < k <= |parts| ==> Depth(parts[..k]) > Depth(parts[..i])
  }

  lemma StaysPrefix(parts: Parts, i: nat)
    requires i + 1 < |parts|
    ensures Stays(parts, i) <==> Stays(parts[..|parts| - 1], i) && Depth(parts) > Depth(parts[..i])
  {
    var rest := parts[..|parts| - 1];
    assert parts[..|parts|] == parts;
    forall k | 0 <= k <= |rest|
      ensures parts[..k] == rest[..k]
    {
    }
    if Stays(parts, i) {
      assert Depth(parts[..|parts|]) > Depth(parts[..i]);
      forall k | i < k <= |rest|
        ensures Depth(rest[..k]) > Depth(rest[..i])
      {
        assert rest[..k] == parts[..k] && rest[..i] == parts[..i];
      }
    }
    if Stays(rest, i) && Depth(parts) > Depth(parts[..i]) {
      forall k | i < k <= |parts|
        ensures Depth(parts[..k]) > Depth(parts[..i])
      {
        assert k == |parts| || (rest[..k] == parts[..k] && rest[..i] == parts[..i]);
      }
    }
  }

  lemma AboveRootPrefix(parts: Parts)
    requires parts != []
    ensures StepsAboveRoot(parts) <==> StepsAboveRoot(parts[..|parts| - 1]) || Depth(parts) < 0
  {
    var rest := parts[..|parts| - 1];
    assert parts[..|parts|] == parts;
    if StepsAboveRoot(rest) {
      var k :| 0 <= k <= |rest| && Depth(rest[..k]) < 0;
      assert parts[..k] == rest[..k];
    }
    if StepsAboveRoot(parts) {
      var k :| 0 <= k <= |parts| && Depth(parts[..k]) < 0;
      assert k == |parts| || rest[..k] == parts[..k];
    }
    if Depth(parts) < 0 {
      assert Depth(parts[..|parts|]) < 0;
    }
  }

  ghost predicate StaysAt(parts: Parts, i: nat, d: int) {
    Stays(parts, i) && Depth(parts[..i]) == d
  }

  ghost predicate Occupied(parts: Parts, d: int) {
    exists i: nat :: StaysAt(parts, i, d)
  }

  /** `dirs` is where the walk ends: as long as the walk is deep, with at each depth
      the directory the walk entered there for good. */
  ghost predicate EndsIn(parts: Parts, dirs: Parts) {
    && |dirs| == Depth(parts)
    && (forall i: nat :: Stays(parts, i) ==> 0 <= Depth(parts[..i]) < |dirs| && dirs[Depth(parts[..i])] == parts[i])
    && (forall d :: 0 <= d < |dirs| ==> Occupied(parts, d))
  }

  lemma LastStays(parts: Parts)
    requires parts != []
    ensures Stays(parts, |parts| - 1) <==> parts[|parts| - 1].Name?
  {
    var k := |parts| - 1;
    assert parts[..|parts|] == parts;
    if parts[k].Name? {
      assert Depth(parts) == Depth(parts[..k]) + 1;
    }
  }

  lemma StaysStep(parts: Parts, dirs: Parts, i: nat)
    requires parts != [] && EndsIn(parts[..|parts| - 1], dirs) && Depth(parts) >= 0 && Stays(parts, i)
    ensures PushOrPop(dirs, parts[|parts| - 1]).Success?
    ensures
      var dirs' := PushOrPop(dirs, parts[|parts| - 1]).value;
      0 <= Depth(parts[..i]) < |dirs'| && dirs'[Depth(parts[..i])] == parts[i]
  {
    var rest, n := parts[..|parts| - 1], |parts| - 1;
    LastStays(parts);
    if i < n {
      StaysPrefix(parts, i);
      TakeTake(parts, n, i);
      assert parts[i] == rest[i] && dirs[Depth(rest[..i])] == rest[i];
    }
  }

  lemma OccupiedStep(parts: Parts, dirs: Parts, d: nat)
    requires parts != [] && EndsIn(parts[..|parts| - 1], dirs) && d < Depth(parts)
    ensures Occupied(parts, d)
  {
    var rest, n := parts[..|parts| - 1], |parts| - 1;
    if d < |dirs| {
      assert Occupied(rest, d);
      var i: nat :| StaysAt(rest, i, d);
      StaysPrefix(parts, i);
      TakeTake(parts, n, i);
      assert StaysAt(parts, i, d);
    } else {
      LastStays(parts);
      assert StaysAt(parts, n, d);
    }
  }

  lemma EndsInStep(parts: Parts, dirs: Parts)
    requires parts != [] && EndsIn(parts[..|parts| - 1], dirs) && Depth(parts) >= 0
    ensures PushOrPop(dirs, parts[|parts| - 1]).Success? && EndsIn(parts, PushOrPop(dirs, parts[|parts| - 1]).value)
  {
    var dirs' := PushOrPop(dirs, parts[|parts| - 1]).value;
    forall i: nat | Stays(parts, i)
      ensures 0 <= Depth(parts[..i]) < |dirs'| && dirs'[Depth(parts[..i])] == parts[i]
    {
      StaysStep(parts, dirs, i);
    }
    forall d | 0 <= d < |dirs'|
      ensures Occupied(parts, d)
    {
      OccupiedStep(parts, dirs, d);
    }
  }

  /** Normalisation agrees with the walk: it fails exactly when the walk steps above
      the root, and otherwise yields where the walk ends. */
  lemma {:induction false} NormaliseWalks(parts: Parts)
    ensures Normalise(parts).Failure? <==> StepsAboveRoot(parts)
    ensures Normalise(parts).Success? ==> EndsIn(parts, Normalise(parts).value)
  {
    if parts == [] {
      assert parts[..0] == [];
    } else {
      var rest := parts[..|parts| - 1];
      NormaliseWalks(rest);
      AboveRootPrefix(parts);
      if Normalise(rest).Success? && Depth(parts) >= 0 {
        EndsInStep(parts, Normalise(rest).value);
      }
    }
  }

  ghost predicate Clean(parts: Parts) {
    forall i :: 0 <= i < |parts| ==> parts[i].Name?
  }

  lemma {:induction false} NormaliseIsClean(parts: Parts)
    requires Normalise(parts).Success?
    ensures Clean(Normalise(parts).value)
  {
    if parts != [] {
      NormaliseIsClean(parts[..|parts| - 1]);
    }
  }

  lemma {:induction false} CleanIsFixed(parts: Parts)
    requires Clean(parts)
    ensures Normalise(parts) == Success(parts)
  {
    if parts != [] {
      var rest, last := parts[..|parts| - 1], parts[|parts| - 1];
      CleanIsFixed(rest);
      SplitLast(parts);
    }
  }

  /** Normalising a path in two stages, first the base and then what follows, is
      normalising it in one. */
  lemma {:induction false} NormaliseComposes(a: Parts, b: Parts)
    requires Normalise(a).Success?
    ensures Normalise(a + b) == Normalise(Normalise(a).value + b)
  {
    var n := Normalise(a).value;
    if b == [] {
      NormaliseIsClean(a);
      CleanIsFixed(n);
      assert a + b == a && n + b == n;
    } else {
      var rest := b[..|b| - 1];
      NormaliseComposes(a, rest);
      ConcatFront(a, b);
      ConcatFront(n, b);
    }
  }

  /** Entering a directory and leaving it at once can be struck from a path. */
  lemma NormaliseCancels(a: Parts, name: Segment, b: Parts)
    requires name.Name?
    ensures Normalise(a + [name, DotDot] + b) == Normalise(a + b)
  {
    var detour := a + [name, DotDot];
    assert detour[..|a| + 1] == a + [name] && (a + [name])[..|a|] == a;
    if Normalise(a).Success? {
      assert Normalise(a + [name]) == Success(Normalise(a).value + [name]);
      NormaliseComposes(detour, b);
      NormaliseComposes(a, b);
    } else {
      assert Normalise(detour) == Normalise(a);
      assert (detour + b)[..|detour|] == detour && (a + b)[..|a|] == a;
      NormaliseFailsEarly(detour + b, |detour|);
      NormaliseFailsEarly(a + b, |a|);
    }
  }

  lemma EndUnique(parts: Parts, dirs: Parts, dirs': Parts)
    requires EndsIn(parts, dirs) && EndsIn(parts, dirs')
    ensures dirs == dirs'
  {
    forall d | 0 <= d < |dirs|
      ensures dirs[d] == dirs'[d]
    {
      assert Occupied(parts, d);
      var i: nat :| StaysAt(parts, i, d);
    }
  }

  predicate IsAbsolute(relative: string) {
    "/" <= relative
  }

  /** The walk ends in the container. */
  ghost predicate EndsInside(path: Parts, container: Parts) {
    exists dirs :: EndsIn(path, dirs) && container <= dirs
  }

  /** Absolute input is refused, whatever the base and the container. A relative path
      resolves exactly when its walk from the base never steps above the root and ends
      in the container; what it resolves to is then the container or below it, free of
      `.` and `..`, and normalises to itself. A walk that steps above the root is
      refused for that, one that only ends outside the container for that. */
  lemma ResolveExact(base: Parts, relative: string, container: Parts)
    ensures
      var path, r := base + Segments(Split(relative, '/')), Resolve(base, relative, container);
      && (r == Failure(AbsolutePath) <==> IsAbsolute(relative))
      && (r == Failure(EscapesRoot) <==> !IsAbsolute(relative) && StepsAboveRoot(path))
      && (r == Failure(EscapesContainer) <==>
            !IsAbsolute(relative) && !StepsAboveRoot(path) && !EndsInside(path, container))
      && (r.Success? <==> !IsAbsolute(relative) && !StepsAboveRoot(path) && EndsInside(path, container))
      && (r.Success? ==> container <= r.value && Clean(r.value) && Normalise(r.value) == Success(r.value)
                         && EndsIn(path, r.value))
  {
    NormalisesExactly(base + Segments(Split(relative, '/')), container);
    OnlyEscapesRoot(base + Segments(Split(relative, '/')));
  }

  lemma NormalisesExactly(path: Parts, container: Parts)
    ensures Normalise(path).Success? && container <= Normalise(path).value <==>
              !StepsAboveRoot(path) && EndsInside(path, container)
    ensures Normalise(path) == Failure(EscapesRoot) <==> StepsAboveRoot(path)
    ensures Normalise(path).Success? ==>
              var r := Normalise(path).value; Clean(r) && Normalise(r) == Success(r) && EndsIn(path, r)
  {
    NormaliseWalks(path);
    OnlyEscapesRoot(path);
    if Normalise(path).Success? {
      NormaliseIsClean(path);
      CleanIsFixed(Normalise(path).value);
      forall dirs | EndsIn(path, dirs)
        ensures dirs == Normalise(path).value
      {
        EndUnique(path, dirs, Normalise(path).value);
      }
    }
  }

  lemma {:induction false} OnlyEscapesRoot(parts: Parts)
    ensures Normalise(parts).Failure? ==> Normalise(parts) == Failure(EscapesRoot)
  {
    if parts != [] {
      OnlyEscapesRoot(parts[..|parts| - 1]);
    }
  }

  /** Resolving what was resolved, from the root, gives it back. */
  lemma ResolveStable(base: Parts, relative: string, container: Parts)
    requires Resolve(base, relative, container).Success?
    ensures Resolve(Resolve(base, relative, container).value, "", container) == Resolve(base, relative, container)
  {
    ResolveExact(base, relative, container);
    var v := Resolve(base, relative, container).value;
    assert Split("", '/') == [""] && Segments([""]) == [] && v + [] == v;
  }

  // ---- paths as texts

  /** The segments of a relative path's text. */
  function TextParts(relative: string): Parts {
    Segments(Split(relative, '/'))
  }

  lemma {:induction false} SegmentsConcat(p: seq<string>, q: seq<string>)
    ensures Segments(p + q) == Segments(p) + Segments(q)
  {
    if p == [] {
      assert p + q == q;
    } else {
      assert (p + q)[1..] == p[1..] + q;
      SegmentsConcat(p[1..], q);
    }
  }

  /** An empty text and "." are no segment, ".." is a step up, any other text without
      a slash is a name, and a slash separates. */
  lemma TextPartsExactly(a: string, b: string)
    ensures TextParts("") == [] && TextParts(".") == [] && TextParts("..") == [DotDot]
    ensures '/' !in a && a != "" && a != "." && a != ".." ==> TextParts(a) == [Name(a)]
    ensures TextParts(a + "/" + b) == TextParts(a) + TextParts(b)
  {
    SplitWhole("", '/');
    SplitWhole(".", '/');
    SplitWhole("..", '/');
    if '/' !in a {
      SplitWhole(a, '/');
    }
    assert Segments([""]) == [] && Segments(["."]) == [] && Segments([".."]) == [DotDot];
    SplitConcat(a, b, '/');
    SegmentsConcat(Split(a, '/'), Split(b, '/'));
  }

  /** So a name resolves below the base, */
  lemma NamesResolve(base: Parts, name: string, container: Parts)
    requires Clean(base) && '/' !in name && name != "" && name != "." && name != ".."
    ensures Resolve(base, name, container) ==
              if container <= base + [Name(name)] then Success(base + [Name(name)]) else Failure(EscapesContainer)
  {
    TextPartsExactly(name, "");
    CleanIsFixed(base + [Name(name)]);
  }

  lemma UpThen(rest: string)
    ensures TextParts("../" + rest) == [DotDot] + TextParts(rest)
  {
    assert "../" + rest == ".." + "/" + rest;
    TextPartsExactly("..", rest);
  }

  /** "../" goes on from one directory up, */
  lemma ParentsResolve(base: Parts, dir: string, rest: string, container: Parts)
    requires !IsAbsolute(rest)
    ensures Resolve(base + [Name(dir)], "../" + rest, container) == Resolve(base, rest, container)
  {
    var parts := TextParts(rest);
    UpThen(rest);
    assert base + [Name(dir)] + ([DotDot] + parts) == base + [Name(dir), DotDot] + parts;
    NormaliseCancels(base, Name(dir), parts);
  }

  /** and there is nothing above the root. */
  lemma NothingAboveRoot(rest: string, container: Parts)
    ensures Resolve([], "../" + rest, container) == Failure(EscapesRoot)
  {
    var parts := [DotDot] + TextParts(rest);
    UpThen(rest);
    assert [] + parts == parts && parts[..1] == [DotDot] && [DotDot][..0] == [];
    assert Normalise([DotDot]) == Failure(EscapesRoot);
    NormaliseFailsEarly(parts, 1);
  }
}
