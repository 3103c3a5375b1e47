/**
 The entry names an archive may carry (apps/control-plane/src/scanner-evidence.ts:837-850).

 Names are normalised as posix.normalize does and refused when the result leaves the
 archive root; the file they stand for is the base name of the result.
 */
module ArchivePath {
  import opened Texts

  const NUL: CodeUnit := 0
  const DOT: CodeUnit := 46
  const UP: Text := [DOT, DOT]

  function ForwardSlashes(s: Text): Text {
    seq(|s|, i requires 0 <= i < |s| => if s[i] == BACKSLASH then SLASH else s[i])
  }

  predicate Ignored(part: Text) {
    part == [] || part == [DOT]
  }

  /** The segments of a path with `.` dropped and `..` applied; above the root `..` is kept or dropped. */
  function Resolve(parts: seq<Text>, keepAbove: bool): seq<Text> {
    if parts == [] then []
    else
      var done, part := Resolve(parts[..|parts| - 1], keepAbove), parts[|parts| - 1];
      if Ignored(part) then done
      else if part != UP then done + [part]
      else if done != [] && done[|done| - 1] != UP then done[..|done| - 1]
      else if keepAbove then done + [UP]
      else done
  }

  predicate Absolute(path: Text) {
    path != [] && path[0] == SLASH
  }

  function Normalize(path: Text): Text {
    if path == [] then [DOT]
    else
      var trailing := path[|path| - 1] == SLASH;
      var core := Join(Resolve(Split(path, SLASH), !Absolute(path)), SLASH);
      if core == [] then
        if Absolute(path) then [SLASH] else if trailing then [DOT, SLASH] else [DOT]
      else
        var body := if trailing then core + [SLASH] else core;
        if Absolute(path) then [SLASH] + body else body
  }

  predicate OccursAt(part: Text, s: Text, i: int) {
    0 <= i <= |s| - |part| && s[i..i + |part|] == part
  }

  predicate Contains(s: Text, part: Text) {
    exists i | 0 <= i <= |s| - |part| :: OccursAt(part, s, i)
  }

  /** The reader's test, on the normalised text. */
  predicate Unsafe(name: Text) {
    var normalized := Normalize(ForwardSlashes(name));
    || NUL in name
    || UP + [SLASH] <= normalized
    || Contains(normalized, [SLASH] + UP + [SLASH])
    || Absolute(normalized)
    || normalized == UP
  }

  function LastNonEmpty(parts: seq<Text>): Text {
    if parts == [] then []
    else if parts[|parts| - 1] != [] then parts[|parts| - 1]
    else LastNonEmpty(parts[..|parts| - 1])
  }

  function BaseName(path: Text): Text {
    LastNonEmpty(Split(path, SLASH))
  }

  function Leaf(name: Text): Text {
    BaseName(Normalize(ForwardSlashes(name)))
  }

  // ----- what the test means

  /** How many directories below its start a path ends. */
  function Depth(parts: seq<Text>): int {
    if parts == [] then 0
    else
      var part := parts[|parts| - 1];
      Depth(parts[..|parts| - 1]) + (if Ignored(part) then 0 else if part == UP then -1 else 1)
  }

  /** Some prefix of the path is above where the path starts. */
  predicate Escapes(parts: seq<Text>) {
    parts != [] && (Escapes(parts[..|parts| - 1]) || Depth(parts) < 0)
  }

  lemma {:induction false} EscapesMeans(parts: seq<Text>)
    ensures Escapes(parts) <==> exists k :: 0 <= k <= |parts| && Depth(parts[..k]) < 0
    decreases |parts|
  {
    assert parts[..|parts|] == parts;
    if parts != [] {
      var init := parts[..|parts| - 1];
      EscapesMeans(init);
      assert forall k :: 0 <= k < |parts| ==> init[..k] == parts[..k];
    }
  }

  predicate PlainSegments(parts: seq<Text>) {
    forall i :: 0 <= i < |parts| ==> parts[i] != [] && SLASH !in parts[i]
  }

  /** A relative path resolves to segments without `..`, as many as its depth, unless it escapes; then
      `..` is the first of them. */
  lemma {:induction false} ResolveRelative(parts: seq<Text>)
    requires forall p :: p in parts ==> SLASH !in p
    ensures var done := Resolve(parts, true);
            && PlainSegments(done)
            && (!Escapes(parts) ==> UP !in done && |done| == Depth(parts))
            && (Escapes(parts) ==> done != [] && done[0] == UP)
    decreases |parts|
  {
    if parts != [] {
      var init := parts[..|parts| - 1];
      assert forall p :: p in init ==> p in parts;
      assert parts[|parts| - 1] in parts;
      ResolveRelative(init);
    }
  }

  lemma JoinNonEmpty(parts: seq<Text>)
    requires parts != [] && PlainSegments(parts)
    ensures Join(parts, SLASH) != [] && Join(parts, SLASH)[0] == parts[0][0]
  {
  }

  lemma {:induction false} JoinThenSlash(parts: seq<Text>)
    requires parts != []
    ensures Join(parts + [[]], SLASH) == Join(parts, SLASH) + [SLASH]
    decreases |parts|
  {
    var head, tail := parts[0], parts[1..];
    if tail == [] {
      assert parts + [[]] == [head] + [[]];
      JoinCons(head, [[]], SLASH);
    } else {
      assert parts + [[]] == [head] + (tail + [[]]) && parts == [head] + tail;
      JoinCons(head, tail + [[]], SLASH);
      JoinCons(head, tail, SLASH);
      JoinThenSlash(tail);
    }
  }

  lemma SplitRoot(trailing: bool)
    ensures Split(if trailing then [DOT, SLASH] else [DOT], SLASH) == if trailing then [[DOT], []] else [[DOT]]
  {
    if trailing {
      assert Join([[DOT], []], SLASH) == [DOT, SLASH];
      SplitOf([[DOT], []]);
    } else {
      SplitOf([[DOT]]);
    }
  }

  lemma SplitBody(done: seq<Text>, trailing: bool)
    requires done != [] && PlainSegments(done)
    ensures var body := if trailing then Join(done, SLASH) + [SLASH] else Join(done, SLASH);
            Split(body, SLASH) == (if trailing then done + [[]] else done) && body[0] == done[0][0]
  {
    JoinNonEmpty(done);
    if trailing {
      JoinThenSlash(done);
      SplitOf(done + [[]]);
    } else {
      SplitOf(done);
    }
  }

  function Body(done: seq<Text>, trailing: bool): Text {
    if done == [] then (if trailing then [DOT, SLASH] else [DOT])
    else if trailing then Join(done, SLASH) + [SLASH]
    else Join(done, SLASH)
  }

  lemma NormalizedText(path: Text)
    requires path != [] && !Absolute(path)
    ensures var done := Resolve(Split(path, SLASH), true);
            PlainSegments(done) && Normalize(path) == Body(done, path[|path| - 1] == SLASH)
  {
    var done := Resolve(Split(path, SLASH), true);
    ResolveRelative(Split(path, SLASH));
    if done != [] {
      JoinNonEmpty(done);
    }
  }

  lemma SplitOfBody(done: seq<Text>, trailing: bool)
    requires PlainSegments(done)
    ensures Split(Body(done, trailing), SLASH)
         == (if done == [] then [[DOT]] else done) + (if trailing then [[]] else [])
    ensures !Absolute(Body(done, trailing))
  {
    if done == [] {
      SplitRoot(trailing);
    } else {
      SplitBody(done, trailing);
      assert done[0][0] in done[0];
    }
  }

  /** The normalised text of a relative path, cut at its slashes. */
  lemma NormalizeRelative(path: Text)
    requires path != [] && !Absolute(path)
    ensures var done := Resolve(Split(path, SLASH), true);
            var trailing := path[|path| - 1] == SLASH;
            Split(Normalize(path), SLASH) == (if done == [] then [[DOT]] else done) + (if trailing then [[]] else [])
    ensures !Absolute(Normalize(path))
  {
    NormalizedText(path);
    SplitOfBody(Resolve(Split(path, SLASH), true), path[|path| - 1] == SLASH);
  }

  lemma SplitOf(parts: seq<Text>)
    requires parts != [] && forall i :: 0 <= i < |parts| ==> SLASH !in parts[i]
    ensures Split(Join(parts, SLASH), SLASH) == parts
  {
    SplitJoin(parts, SLASH);
  }

  lemma {:induction false} FirstIsFirst(s: Text, c: CodeUnit, i: nat)
    requires i < |s| && s[i] == c
    ensures IndexOf(s, c) <= i
    decreases i
  {
    if i > 0 {
      FirstIsFirst(s[1..], c, i - 1);
    }
  }

  lemma FourUnits(s: Text, i: nat)
    requires OccursAt([SLASH] + UP + [SLASH], s, i)
    ensures i + 4 <= |s| && s[i] == SLASH && s[i + 1..] == UP + [SLASH] + s[i + 4..]
  {
    var found := s[i..i + 4];
    assert found[0] == s[i] && found[1] == s[i + 1] && found[2] == s[i + 2] && found[3] == s[i + 3];
  }

  lemma OccursLater(part: Text, s: Text, i: nat, start: nat)
    requires OccursAt(part, s, i) && start <= i
    ensures OccursAt(part, s[start..], i - start)
  {
    assert s[start..][i - start..i - start + |part|] == s[i..i + |part|];
  }

  lemma SplitFirst(s: Text)
    requires IndexOf(s, SLASH) < |s|
    ensures Split(s, SLASH) == [s[..IndexOf(s, SLASH)]] + Split(s[IndexOf(s, SLASH) + 1..], SLASH)
  {
  }

  /** `/../` in a text is a segment `..` that is neither first nor last. */
  lemma {:induction false} ContainsUp(s: Text, i: nat)
    requires OccursAt([SLASH] + UP + [SLASH], s, i)
    ensures exists k :: 0 < k < |Split(s, SLASH)| && Split(s, SLASH)[k] == UP
    decreases |s|
  {
    hide Split, IndexOf, OccursAt;
    var j := IndexOf(s, SLASH);
    FourUnits(s, i);
    FirstIsFirst(s, SLASH, i);
    SplitFirst(s);
    var rest := s[j + 1..];
    if j < i {
      OccursLater([SLASH] + UP + [SLASH], s, i, j + 1);
      ContainsUp(rest, i - j - 1);
      var k :| 0 < k < |Split(rest, SLASH)| && Split(rest, SLASH)[k] == UP;
      assert Split(s, SLASH)[k + 1] == UP;
    } else {
      assert SLASH !in UP;
      SplitCons(UP, s[i + 4..], SLASH);
      assert Split(s, SLASH)[1] == UP;
    }
  }

  lemma FirstIsUp(s: Text)
    ensures Split(s, SLASH)[0] == UP <==> s == UP || UP + [SLASH] <= s
  {
    var j := IndexOf(s, SLASH);
    assert Split(s, SLASH)[0] == s[..j];
    if UP + [SLASH] <= s {
      assert s == UP + [SLASH] + s[3..];
      SplitCons(UP, s[3..], SLASH);
    }
    if s == UP {
      IndexOfAbsent(s, SLASH);
    }
    if s[..j] == UP && j < |s| {
      assert s[..3] == UP + [SLASH];
    }
  }

  /** The name with a slash in place of every backslash. */
  ghost predicate SlashForm(name: Text, path: Text) {
    |path| == |name| && forall i :: 0 <= i < |name| ==> path[i] == if name[i] == 92 then 47 else name[i]
  }

  /** The textual test refuses exactly the names with a NUL, the absolute ones and those that climb
      above the root at some point. */
  lemma UnsafeIff(name: Text)
    ensures Unsafe(name) <==>
            || NUL in name
            || Absolute(ForwardSlashes(name))
            || Escapes(Split(ForwardSlashes(name), SLASH))
    ensures forall path :: SlashForm(name, path) ==>
              (Unsafe(name) <==> 0 in name || (path != [] && path[0] == 47) || Escapes(Split(path, 47)))
  {
    assert forall path :: SlashForm(name, path) ==> path == ForwardSlashes(name);
    var path := ForwardSlashes(name);
    var normalized := Normalize(path);
    if path == [] {
      assert Split(path, SLASH) == [[]];
      assert Depth([[]]) == 0;
    } else if Absolute(path) {
      assert Absolute(normalized);
    } else {
      var done := Resolve(Split(path, SLASH), true);
      var parts := Split(normalized, SLASH);
      ResolveRelative(Split(path, SLASH));
      NormalizeRelative(path);
      FirstIsUp(normalized);
      if Contains(normalized, [SLASH] + UP + [SLASH]) {
        var i: nat :| OccursAt([SLASH] + UP + [SLASH], normalized, i);
        ContainsUp(normalized, i);
        var k :| 0 < k < |parts| && parts[k] == UP;
        assert parts[k] in done;
      }
    }
  }

  /** An ordinary file name: one segment, not a directory reference. */
  predicate Plain(name: Text) {
    && name != [] && name != [DOT] && name != UP
    && SLASH !in name && BACKSLASH !in name && NUL !in name
  }
  lemma PlainHasOneSegment(name: Text)
    requires Plain(name)
    ensures ForwardSlashes(name) == name && Split(name, SLASH) == [name] && !Absolute(name)
  {
    var path := ForwardSlashes(name);
    assert path == name by {
      forall i | 0 <= i < |name| ensures path[i] == name[i] {
        assert name[i] in name;
      }
    }
    IndexOfAbsent(name, SLASH);
    assert name[0] in name;
  }

  lemma PlainIsItsOwnLeaf(name: Text)
    requires Plain(name)
    ensures !Unsafe(name) && Leaf(name) == name
  {
    PlainHasOneSegment(name);
    var none: seq<Text> := [name][..0];
    assert none == [] && [name][0] == name;
    assert Resolve(none, true) == [] && Resolve([name], true) == [name];
    assert Depth(none) == 0 && Depth([name]) == 1;
    UnsafeIff(name);
    LeafOfSafe(name);
  }

  lemma LastBeforeEmpty(parts: seq<Text>)
    requires parts != [] && parts[|parts| - 1] != []
    ensures LastNonEmpty(parts) == parts[|parts| - 1] && LastNonEmpty(parts + [[]]) == parts[|parts| - 1]
  {
    assert (parts + [[]])[..|parts|] == parts;
  }

  /** What a safe name stands for: the last segment left after resolving it. */
  lemma LeafOfSafe(name: Text)
    requires !Unsafe(name)
    ensures var done := Resolve(Split(ForwardSlashes(name), SLASH), true);
            UP !in done && Leaf(name) == if done == [] then [DOT] else done[|done| - 1]
  {
    var path := ForwardSlashes(name);
    UnsafeIff(name);
    ResolveRelative(Split(path, SLASH));
    LastBeforeEmpty([[DOT]]);
    if path == [] {
      SplitRoot(false);
      var none: seq<Text> := [];
      assert Split(path, SLASH)[..0] == none;
    } else {
      NormalizeRelative(path);
      var done := Resolve(Split(path, SLASH), true);
      if done != [] {
        LastBeforeEmpty(done);
      }
    }
  }
}
