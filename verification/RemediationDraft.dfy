/**
 When a remediation draft is accepted, and what its line splice keeps, changes and lets be undone.
 */
module RemediationDraft {
  /**
   Source: apps/control-plane/src/remediation-draft.ts:122-261.

   Which paths are protected or binary, and the digest of a suggestion, are parameters.
   */
  import opened Wrappers
  import opened Texts
  import opened UnifiedDiff
  import R = ReviewFindings

  const MAX_SAFE_INTEGER: int := 0x1f_ffff_ffff_ffff
  const MAX_PATH: nat := 400
  const MAX_RANGE_LINES: nat := 50
  const MAX_SUGGESTION_LINES: nat := 200
  const MAX_SUGGESTION_CHARACTERS: nat := 8_000
  const MAX_FILE_BYTES: nat := 512 * 1024

  const NUL: CodeUnit := 0
  const DOT: CodeUnit := 46

  datatype Rejection =
    | InvalidPath | ForbiddenPath | BinaryFile | FindingNotOpen | FindingDismissed | StaleHead
    | MissingSuggestion | SuggestionMismatch | InvalidRange | RangeNotChanged | SizeBound
    | UnsupportedLineEndings | NoOp | OutOfRangeChange

  datatype Library = Library(forbidden: Text -> bool, binary: Text -> bool, digest: Text -> Text)

  datatype Input = Input(
    finding: R.Record, currentHead: Text, reviewedHead: Option<Text>, published: Option<Text>,
    changedRanges: seq<Range>, fileContent: Text, fileBytes: nat)

  datatype Draft = Draft(path: Text, content: Text, startLine: nat, endLine: nat, replacement: Text)

  // ----- paths and suggestions

  predicate IsNormalizedPath(path: Text) {
    && 0 < |path| <= MAX_PATH && path[0] != SLASH && path[|path| - 1] != SLASH
    && BACKSLASH !in path && NUL !in path
    && forall k :: 0 <= k < |Split(path, SLASH)| ==>
         Split(path, SLASH)[k] != [] && Split(path, SLASH)[k] != [DOT] && Split(path, SLASH)[k] != [DOT, DOT]
  }

  function CrlfToLf(s: Text): Text {
    if |s| < 2 then s
    else if s[0] == CARRIAGE_RETURN && s[1] == NEWLINE then [NEWLINE] + CrlfToLf(s[2..])
    else [s[0]] + CrlfToLf(s[1..])
  }

  function NormalizeSuggestion(s: Text): Text {
    Trim(CrlfToLf(s))
  }

  /** A path of one or more segments between single slashes, none of them empty, `.` or `..`. */
  ghost predicate SegmentsOf(path: Text, segments: seq<Text>) {
    && segments != [] && path == Join(segments, 47)
    && forall s :: s in segments ==> s != [] && s != [46] && s != [46, 46] && 47 !in s
  }

  /** Exactly such paths of at most 400 units without backslash and NUL are normalized. */
  lemma NormalizedPathMeans(path: Text)
    ensures IsNormalizedPath(path) <==>
            |path| <= 400 && 92 !in path && 0 !in path && exists segments :: SegmentsOf(path, segments)
  {
    JoinSplit(path, SLASH);
    if IsNormalizedPath(path) {
      var segments := Split(path, SLASH);
      forall s | s in segments ensures s != [] && s != [46] && s != [46, 46] && 47 !in s {
        var k :| 0 <= k < |segments| && segments[k] == s;
      }
      assert SegmentsOf(path, segments);
    }
    if segments :| SegmentsOf(path, segments) {
      SplitJoin(segments, SLASH);
      SegmentEnds(segments);
      forall k | 0 <= k < |Split(path, SLASH)| ensures Split(path, SLASH)[k] in segments {
      }
    }
  }

  lemma {:induction false} SegmentEnds(segments: seq<Text>)
    requires segments != [] && forall s :: s in segments ==> s != [] && 47 !in s
    ensures var path := Join(segments, 47);
            path != [] && path[0] != 47 && path[|path| - 1] != 47
    decreases |segments|
  {
    var first := segments[0];
    assert first in segments && first[0] in first && first[|first| - 1] in first;
    if |segments| > 1 {
      assert forall s :: s in segments[1..] ==> s in segments;
      SegmentEnds(segments[1..]);
      var rest := Join(segments[1..], 47);
      assert Join(segments, 47) == first + [47] + rest;
    }
  }

  /** No carriage return stands directly before a newline. */
  ghost predicate NoCrlf(s: Text) {
    forall i, j :: 0 <= i && j == i + 1 && j < |s| ==> !(s[i] == 13 && s[j] == 10)
  }

  lemma {:induction false} CrlfAbsent(s: Text)
    requires NoCrlf(s)
    ensures CrlfToLf(s) == s
    decreases |s|
  {
    if |s| >= 2 {
      var tail := s[1..];
      forall i, j | 0 <= i && j == i + 1 && j < |tail| ensures !(tail[i] == 13 && tail[j] == 10) {
        assert tail[i] == s[i + 1] && tail[j] == s[j + 1];
      }
      CrlfAbsent(tail);
      assert s == [s[0]] + tail;
    }
  }

  /** Every carriage return and newline become a newline, and nothing else changes. */
  lemma {:induction false} CrlfReplaced(before: Text, after: Text)
    ensures CrlfToLf(before + [13, 10] + after) == CrlfToLf(before) + [10] + CrlfToLf(after)
    decreases |before|
  {
    var s := before + [13, 10] + after;
    if before == [] {
      assert s[2..] == after;
    } else if |before| == 1 {
      assert s[1..] == [] + [13, 10] + after;
      CrlfReplaced([], after);
    } else if before[0] == 13 && before[1] == 10 {
      assert s[2..] == before[2..] + [13, 10] + after;
      CrlfReplaced(before[2..], after);
    } else {
      assert s[1..] == before[1..] + [13, 10] + after;
      CrlfReplaced(before[1..], after);
    }
  }

  lemma {:induction false} TrimEndStops(s: Text)
    ensures TrimEnd(s) != [] ==> !IsWhitespace(TrimEnd(s)[|TrimEnd(s)| - 1])
    decreases |s|
  {
    if s != [] && IsWhitespace(s[|s| - 1]) {
      TrimEndStops(s[..|s| - 1]);
    }
  }

  // ----- files as lines

  predicate EndsInNewline(s: Text) {
    s != [] && s[|s| - 1] == NEWLINE
  }

  /** The lines of a file, without the empty one after a final newline. */
  function LinesOf(file: Text): (lines: seq<Text>)
    ensures |lines| > 0 && forall l :: l in lines ==> NEWLINE !in l
  {
    Split(if EndsInNewline(file) then file[..|file| - 1] else file, NEWLINE)
  }

  function Assemble(lines: seq<Text>, trailing: bool): Text {
    Join(lines, NEWLINE) + (if trailing then [NEWLINE] else [])
  }

  function Replaced(lines: seq<Text>, startLine: nat, endLine: nat, replacement: seq<Text>): seq<Text>
    requires 1 <= startLine <= endLine <= |lines|
  {
    lines[..startLine - 1] + replacement + lines[endLine..]
  }

  /** The file with a range of lines replaced. */
  function Splice(file: Text, startLine: nat, endLine: nat, replacement: seq<Text>): Text
    requires 1 <= startLine <= endLine <= |LinesOf(file)|
  {
    Assemble(Replaced(LinesOf(file), startLine, endLine, replacement), EndsInNewline(file))
  }

  lemma LinesReassemble(file: Text)
    ensures Assemble(LinesOf(file), EndsInNewline(file)) == file
  {
    JoinSplit(if EndsInNewline(file) then file[..|file| - 1] else file, NEWLINE);
  }

  /** Joined lines end in a newline exactly when the last of several is empty. */
  lemma {:induction false} JoinEnds(parts: seq<Text>)
    requires parts != [] && forall p :: p in parts ==> NEWLINE !in p
    ensures EndsInNewline(Join(parts, NEWLINE)) <==> |parts| > 1 && parts[|parts| - 1] == []
    decreases |parts|
  {
    if |parts| == 1 {
      var p := parts[0];
      assert p in parts;
      if p != [] {
        assert p[|p| - 1] in p;
      }
    } else {
      var tail := parts[1..];
      JoinEnds(tail);
      var joined := Join(parts, NEWLINE);
      var rest := Join(tail, NEWLINE);
      assert joined == parts[0] + [NEWLINE] + rest;
      if rest == [] {
        JoinedEmpty(tail);
      } else {
        assert joined[|joined| - 1] == rest[|rest| - 1];
        JoinedEmpty(tail);
      }
    }
  }

  lemma JoinedEmpty(parts: seq<Text>)
    requires parts != []
    ensures Join(parts, NEWLINE) == [] <==> parts == [[]]
  {
    if |parts| == 1 {
      assert parts == [parts[0]];
    }
  }

  /** Lines that may stand for a file's: no newline inside, and not ending in an empty line unless a
      newline follows. */
  ghost predicate Splittable(lines: seq<Text>, trailing: bool) {
    && lines != [] && (forall l :: l in lines ==> NEWLINE !in l)
    && (!trailing && |lines| > 1 ==> lines[|lines| - 1] != [])
  }

  /** Assembled lines split back into themselves. */
  lemma AssembledLines(lines: seq<Text>, trailing: bool)
    requires Splittable(lines, trailing)
    ensures LinesOf(Assemble(lines, trailing)) == lines && EndsInNewline(Assemble(lines, trailing)) == trailing
  {
    var joined := Join(lines, NEWLINE);
    SplitJoin(lines, NEWLINE);
    JoinEnds(lines);
    if trailing {
      assert (joined + [NEWLINE])[..|joined|] == joined;
    } else {
      assert Assemble(lines, trailing) == joined;
    }
  }

  lemma FileSplittable(file: Text)
    ensures Splittable(LinesOf(file), EndsInNewline(file))
  {
    LinesReassemble(file);
    if !EndsInNewline(file) {
      assert Assemble(LinesOf(file), false) == Join(LinesOf(file), NEWLINE);
      JoinEnds(LinesOf(file));
    }
  }

  lemma SplicedSplittable(file: Text, startLine: nat, endLine: nat, replacement: seq<Text>)
    requires 1 <= startLine <= endLine <= |LinesOf(file)| && Splittable(replacement, false)
    requires replacement[|replacement| - 1] != []
    ensures Splittable(Replaced(LinesOf(file), startLine, endLine, replacement), EndsInNewline(file))
  {
    var lines := LinesOf(file);
    FileSplittable(file);
    var updated := Replaced(lines, startLine, endLine, replacement);
    forall l | l in updated ensures NEWLINE !in l {
      assert l in lines || l in replacement;
    }
    if endLine < |lines| {
      assert updated[|updated| - 1] == lines[|lines| - 1];
    } else {
      assert updated[|updated| - 1] == replacement[|replacement| - 1];
    }
  }

  /** After a splice the lines before and after the range are as they were, around the replacement. */
  lemma SpliceKeepsOutside(file: Text, startLine: nat, endLine: nat, replacement: seq<Text>)
    requires 1 <= startLine <= endLine <= |LinesOf(file)| && Splittable(replacement, false)
    requires replacement[|replacement| - 1] != []
    ensures var spliced := Splice(file, startLine, endLine, replacement);
            && LinesOf(spliced) == LinesOf(file)[..startLine - 1] + replacement + LinesOf(file)[endLine..]
            && EndsInNewline(spliced) == EndsInNewline(file)
  {
    SplicedSplittable(file, startLine, endLine, replacement);
    AssembledLines(Replaced(LinesOf(file), startLine, endLine, replacement), EndsInNewline(file));
  }

  /** Splicing the old lines back restores the file exactly. */
  lemma SpliceInverts(file: Text, startLine: nat, endLine: nat, replacement: seq<Text>)
    requires 1 <= startLine <= endLine <= |LinesOf(file)| && Splittable(replacement, false)
    requires replacement[|replacement| - 1] != []
    ensures var spliced := Splice(file, startLine, endLine, replacement);
            var last := startLine + |replacement| - 1;
            && last <= |LinesOf(spliced)|
            && Splice(spliced, startLine, last, LinesOf(file)[startLine - 1..endLine]) == file
  {
    hide Assemble, LinesOf, EndsInNewline, Splittable;
    var lines := LinesOf(file);
    var spliced := Splice(file, startLine, endLine, replacement);
    SpliceKeepsOutside(file, startLine, endLine, replacement);
    var last := startLine + |replacement| - 1;
    var updated := LinesOf(spliced);
    assert updated[..startLine - 1] == lines[..startLine - 1];
    assert updated[last..] == lines[endLine..];
    assert lines == lines[..startLine - 1] + lines[startLine - 1..endLine] + lines[endLine..];
    LinesReassemble(file);
  }

  // ----- the validator

  predicate RangeIsSafe(i: Input) {
    1 <= i.finding.identity.startLine <= i.finding.identity.endLine <= MAX_SAFE_INTEGER
  }

  predicate WithinSizes(i: Input, suggestion: Text) {
    && i.finding.identity.endLine - i.finding.identity.startLine + 1 <= MAX_RANGE_LINES
    && |suggestion| <= MAX_SUGGESTION_CHARACTERS && |Split(suggestion, NEWLINE)| <= MAX_SUGGESTION_LINES
    && i.fileBytes <= MAX_FILE_BYTES
  }

  predicate RangeWasChanged(i: Input) {
    exists k :: 0 <= k < |i.changedRanges|
                && i.changedRanges[k].start <= i.finding.identity.startLine
                && i.finding.identity.endLine <= i.changedRanges[k].end
  }

  /** The checks that precede the splice, in order. */
  function Precheck(lib: Library, i: Input): Option<Rejection> {
    var path := i.finding.identity.path;
    if !IsNormalizedPath(path) then Some(InvalidPath)
    else if lib.forbidden(path) then Some(ForbiddenPath)
    else if lib.binary(path) then Some(BinaryFile)
    else if i.finding.outcome == Some(R.Dismissed) then Some(FindingDismissed)
    else if i.finding.phase != R.Open then Some(FindingNotOpen)
    else if i.currentHead == [] || i.reviewedHead != Some(i.currentHead) || i.finding.lastSeenHead != i.currentHead
    then Some(StaleHead)
    else if i.finding.suggestion.None? || i.finding.suggestion.value == [] || i.published.None? then Some(MissingSuggestion)
    else
      var suggestion := NormalizeSuggestion(i.published.value);
      if suggestion == [] || lib.digest(suggestion) != i.finding.suggestion.value then Some(SuggestionMismatch)
      else if !RangeIsSafe(i) then Some(InvalidRange)
      else if !WithinSizes(i, suggestion) then Some(SizeBound)
      else if NUL in i.fileContent || NUL in suggestion then Some(BinaryFile)
      else if CARRIAGE_RETURN in i.fileContent then Some(UnsupportedLineEndings)
      else if !RangeWasChanged(i) then Some(RangeNotChanged)
      else None
  }

  /** The independent check of the computed lines. */
  predicate OutsideIntact(lines: seq<Text>, updated: seq<Text>, startLine: nat, endLine: nat, suggestion: Text)
    requires 1 <= startLine <= endLine <= |lines|
  {
    var prefix, suffix := lines[..startLine - 1], lines[endLine..];
    var offset := |updated| - |suffix|;
    && (forall k :: 0 <= k < |prefix| ==> k < |updated| && updated[k] == prefix[k])
    && (forall k :: 0 <= k < |suffix| ==> 0 <= offset + k < |updated| && updated[offset + k] == suffix[k])
    && |prefix| <= offset <= |updated|
    && Join(updated[|prefix|..offset], NEWLINE) == suggestion
  }

  /** The new lines are the old ones with the range replaced by the given ones. */
  ghost predicate Around(lines: seq<Text>, updated: seq<Text>, startLine: nat, endLine: nat, middle: seq<Text>)
    requires 1 <= startLine <= endLine <= |lines|
  {
    updated == lines[..startLine - 1] + middle + lines[endLine..]
  }

  /** The check holds of any lines exactly when they are the old ones around lines that join to the suggestion. */
  lemma OutsideIntactExactly(lines: seq<Text>, updated: seq<Text>, startLine: nat, endLine: nat, suggestion: Text)
    requires 1 <= startLine <= endLine <= |lines|
    ensures OutsideIntact(lines, updated, startLine, endLine, suggestion) <==>
            exists middle :: Around(lines, updated, startLine, endLine, middle) && Join(middle, NEWLINE) == suggestion
  {
    hide OutsideIntact, Around, Join;
    if OutsideIntact(lines, updated, startLine, endLine, suggestion) {
      var middle := IntactIsAround(lines, updated, startLine, endLine, suggestion);
    }
    if middle :| Around(lines, updated, startLine, endLine, middle) && Join(middle, NEWLINE) == suggestion {
      AroundIsIntact(lines, updated, startLine, endLine, middle);
    }
  }

  lemma IntactIsAround(lines: seq<Text>, updated: seq<Text>, startLine: nat, endLine: nat, suggestion: Text)
    returns (middle: seq<Text>)
    requires 1 <= startLine <= endLine <= |lines| && OutsideIntact(lines, updated, startLine, endLine, suggestion)
    ensures Around(lines, updated, startLine, endLine, middle) && Join(middle, NEWLINE) == suggestion
  {
    hide Join;
    var offset := |updated| - |lines[endLine..]|;
    middle := updated[startLine - 1..offset];
    assert updated[offset..] == lines[endLine..];
  }

  lemma AroundIsIntact(lines: seq<Text>, updated: seq<Text>, startLine: nat, endLine: nat, middle: seq<Text>)
    requires 1 <= startLine <= endLine <= |lines| && Around(lines, updated, startLine, endLine, middle)
    ensures OutsideIntact(lines, updated, startLine, endLine, Join(middle, NEWLINE))
  {
    hide Join;
    var suffix := lines[endLine..];
    var offset := |updated| - |suffix|;
    assert updated[startLine - 1..offset] == middle && updated[offset..] == suffix;
    forall k | 0 <= k < |suffix| ensures 0 <= offset + k < |updated| && updated[offset + k] == suffix[k] {
      assert updated[offset..][k] == suffix[k];
    }
  }

  function ValidateRemediationDraft(lib: Library, i: Input): Result<Draft, Rejection> {
    if Precheck(lib, i).Some? then Err(Precheck(lib, i).value)
    else
      var suggestion := NormalizeSuggestion(i.published.value);
      var startLine, endLine := i.finding.identity.startLine, i.finding.identity.endLine;
      var lines := LinesOf(i.fileContent);
      if endLine > |lines| then Err(InvalidRange)
      else
        var updated := Replaced(lines, startLine, endLine, Split(suggestion, NEWLINE));
        var content := Assemble(updated, EndsInNewline(i.fileContent));
        if content == i.fileContent then Err(NoOp)
        else if !OutsideIntact(lines, updated, startLine, endLine, suggestion) then Err(OutOfRangeChange)
        else Ok(Draft(i.finding.identity.path, content, startLine, endLine, suggestion))
  }

  // ----- what the validator guarantees

  lemma SuggestionSplits(s: Text)
    requires NormalizeSuggestion(s) != []
    ensures var lines := Split(NormalizeSuggestion(s), NEWLINE);
            Splittable(lines, false) && lines[|lines| - 1] != []
  {
    var suggestion := NormalizeSuggestion(s);
    var lines := Split(suggestion, NEWLINE);
    TrimEndStops(TrimStart(CrlfToLf(s)));
    JoinSplit(suggestion, NEWLINE);
    JoinEnds(lines);
    if |lines| == 1 {
      assert lines == [lines[0]];
    }
  }

  /** The last check can never fail: the splice cannot touch a line outside the range. */
  lemma NeverOutOfRange(lib: Library, i: Input)
    ensures ValidateRemediationDraft(lib, i) != Err(OutOfRangeChange)
  {
    hide IsNormalizedPath, NormalizeSuggestion, Join, Split, LinesOf;
    if Precheck(lib, i).None? {
      var suggestion := NormalizeSuggestion(i.published.value);
      var startLine, endLine := i.finding.identity.startLine, i.finding.identity.endLine;
      var lines := LinesOf(i.fileContent);
      if endLine <= |lines| {
        JoinSplit(suggestion, NEWLINE);
        var middle := Split(suggestion, NEWLINE);
        var updated := Replaced(lines, startLine, endLine, middle);
        assert updated[startLine - 1..startLine - 1 + |middle|] == middle;
        assert OutsideIntact(lines, updated, startLine, endLine, suggestion);
      }
    }
  }

  /** When a draft is written, stated without the order of the checks. */
  ghost predicate Accepted(lib: Library, i: Input) {
    var path := i.finding.identity.path;
    var startLine, endLine := i.finding.identity.startLine, i.finding.identity.endLine;
    && |path| <= 400 && 92 !in path && 0 !in path && (exists segments :: SegmentsOf(path, segments))
    && !lib.forbidden(path) && !lib.binary(path)
    && i.finding.phase == R.Open && i.finding.outcome != Some(R.Dismissed)
    && i.currentHead != [] && i.reviewedHead == Some(i.currentHead) && i.finding.lastSeenHead == i.currentHead
    && i.published.Some? && i.finding.suggestion.Some? && i.finding.suggestion.value != []
    && 1 <= startLine <= endLine <= |LinesOf(i.fileContent)| && endLine <= MAX_SAFE_INTEGER
    && endLine - startLine < 50 && i.fileBytes <= 524_288
    && (exists k :: 0 <= k < |i.changedRanges| && i.changedRanges[k].start <= startLine && endLine <= i.changedRanges[k].end)
    && var suggestion := NormalizeSuggestion(i.published.value);
       && suggestion != [] && lib.digest(suggestion) == i.finding.suggestion.value
       && |suggestion| <= 8_000 && |Split(suggestion, 10)| <= 200
       && 0 !in i.fileContent && 0 !in suggestion && 13 !in i.fileContent
       && LinesOf(i.fileContent)[startLine - 1..endLine] != Split(suggestion, 10)
  }

  /** A splice changes the file exactly when it changes the lines of the range. */
  lemma NoOpExactly(file: Text, startLine: nat, endLine: nat, replacement: seq<Text>)
    requires 1 <= startLine <= endLine <= |LinesOf(file)| && Splittable(replacement, false)
    requires replacement[|replacement| - 1] != []
    ensures Splice(file, startLine, endLine, replacement) == file <==> LinesOf(file)[startLine - 1..endLine] == replacement
  {
    hide Assemble, LinesOf, EndsInNewline, Splittable;
    var lines := LinesOf(file);
    SpliceKeepsOutside(file, startLine, endLine, replacement);
    LinesReassemble(file);
    assert lines == lines[..startLine - 1] + lines[startLine - 1..endLine] + lines[endLine..];
    if Splice(file, startLine, endLine, replacement) == file {
      MiddleIs(lines, lines[..startLine - 1], replacement, lines[endLine..]);
    }
  }

  lemma MiddleIs(lines: seq<Text>, prefix: seq<Text>, middle: seq<Text>, suffix: seq<Text>)
    requires lines == prefix + middle + suffix
    ensures lines[|prefix|..|lines| - |suffix|] == middle
  {
  }

  /** The validator accepts exactly the acceptable inputs, and then its draft is the splice. */
  lemma AcceptsExactly(lib: Library, i: Input)
    ensures ValidateRemediationDraft(lib, i).Ok? <==> Accepted(lib, i)
    ensures ValidateRemediationDraft(lib, i).Ok? ==>
              var d := ValidateRemediationDraft(lib, i).value;
              && d.path == i.finding.identity.path
              && 1 <= d.startLine == i.finding.identity.startLine <= d.endLine == i.finding.identity.endLine
              && d.endLine <= |LinesOf(i.fileContent)|
              && d.replacement == NormalizeSuggestion(i.published.value)
              && d.content == Splice(i.fileContent, d.startLine, d.endLine, Split(d.replacement, NEWLINE))
  {
    hide IsNormalizedPath, NormalizeSuggestion, Assemble, LinesOf, EndsInNewline, OutsideIntact, Split, Replaced;
    NeverOutOfRange(lib, i);
    NormalizedPathMeans(i.finding.identity.path);
    if Precheck(lib, i).None? && i.finding.identity.endLine <= |LinesOf(i.fileContent)| {
      SuggestionSplits(i.published.value);
      NoOpExactly(i.fileContent, i.finding.identity.startLine, i.finding.identity.endLine,
                  Split(NormalizeSuggestion(i.published.value), NEWLINE));
    }
  }

  /** An accepted draft replaces its range and nothing else, can be undone, and replaces only lines the
      pull request added. */
  lemma DraftTouchesOnlyItsRange(lib: Library, i: Input)
    requires ValidateRemediationDraft(lib, i).Ok?
    ensures var d := ValidateRemediationDraft(lib, i).value;
            var lines, suggested := LinesOf(i.fileContent), Split(d.replacement, NEWLINE);
            var last := d.startLine + |suggested| - 1;
            && 1 <= d.startLine <= d.endLine <= |lines| && d.content != i.fileContent
            && LinesOf(d.content) == lines[..d.startLine - 1] + suggested + lines[d.endLine..]
            && EndsInNewline(d.content) == EndsInNewline(i.fileContent)
            && Splice(d.content, d.startLine, last, lines[d.startLine - 1..d.endLine]) == i.fileContent
            && forall n :: d.startLine <= n <= d.endLine ==> n in Flatten(i.changedRanges)
  {
    hide IsNormalizedPath, NormalizeSuggestion, Assemble, LinesOf, EndsInNewline, OutsideIntact, Split, Splittable, Flatten, Numbers;
    AcceptsExactly(lib, i);
    var d := ValidateRemediationDraft(lib, i).value;
    var suggested := Split(d.replacement, NEWLINE);
    SuggestionSplits(i.published.value);
    SpliceKeepsOutside(i.fileContent, d.startLine, d.endLine, suggested);
    SpliceInverts(i.fileContent, d.startLine, d.endLine, suggested);
    var k :| 0 <= k < |i.changedRanges| && i.changedRanges[k].start <= d.startLine && d.endLine <= i.changedRanges[k].end;
    forall n | d.startLine <= n <= d.endLine ensures n in Flatten(i.changedRanges) {
      CoveredByRange(i.changedRanges, k, n);
    }
  }

  lemma {:induction false} CoveredByRange(ranges: seq<Range>, k: nat, n: nat)
    requires k < |ranges| && ranges[k].start <= n <= ranges[k].end
    ensures n in Flatten(ranges)
    decreases |ranges|
  {
    var m := |ranges| - 1;
    if k == m {
      assert Numbers(ranges[m])[n - ranges[m].start] == n;
    } else {
      assert ranges[..m][k] == ranges[k];
      CoveredByRange(ranges[..m], k, n);
    }
  }
}
