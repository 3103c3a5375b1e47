/**
 Line numbers of a unified diff (apps/control-plane/src/service.ts:3220-3251,
 apps/control-plane/src/review-value.ts:22-42).

 Both counters walk the lines of a patch.  They are related to the edits the patch was
 printed from: the numbers are exact unless a printed line starts with `+++` or `---`, and
 the condition under which such a line does harm is given exactly.
 */
module UnifiedDiff {
  import opened Wrappers
  import opened Texts

  const SPACE: CodeUnit := 32
  const AT: CodeUnit := 64

  // ----- hunk headers

  function TakeNumber(t: Text): Option<(nat, Text)> {
    var n := DigitSpan(t);
    if n == 0 then None else Some((ValueOf(t[..n]), t[n..]))
  }

  /** The optional line count after a start. */
  function SkipCount(t: Text): Text {
    if t != [] && t[0] == COMMA && DigitSpan(t[1..]) > 0 then t[1 + DigitSpan(t[1..])..] else t
  }

  /** The starts of a hunk header on the old and the new side. */
  function HeaderOf(line: Text): Option<(nat, nat)> {
    if !([AT, AT, SPACE, MINUS] <= line) then None
    else
      var oldStart := TakeNumber(line[4..]);
      if oldStart.None? then None
      else
        var middle := SkipCount(oldStart.value.1);
        if !([SPACE, PLUS] <= middle) then None
        else
          var newStart := TakeNumber(middle[2..]);
          if newStart.None? || !([SPACE, AT, AT] <= SkipCount(newStart.value.1)) then None
          else Some((oldStart.value.0, newStart.value.0))
  }

  function Count(count: Option<nat>): Text {
    match count
    case Some(n) => [COMMA] + Decimal(n)
    case None => []
  }

  function HeaderLine(oldStart: nat, oldCount: Option<nat>, newStart: nat, newCount: Option<nat>, section: Text): Text {
    [AT, AT, SPACE, MINUS] + (Decimal(oldStart) + (Count(oldCount)
    + ([SPACE, PLUS] + (Decimal(newStart) + (Count(newCount) + ([SPACE, AT, AT] + section))))))
  }

  lemma TakeDecimal(n: nat, rest: Text)
    requires EndsNumber(rest)
    ensures TakeNumber(Decimal(n) + rest) == Some((n, rest))
  {
    SpanOf(Decimal(n), rest);
    ValueOfDecimal(n);
    assert (Decimal(n) + rest)[..|Decimal(n)|] == Decimal(n);
  }

  lemma SkipPrinted(count: Option<nat>, rest: Text)
    requires rest != [] && rest[0] == SPACE
    ensures SkipCount(Count(count) + rest) == rest && EndsNumber(Count(count) + rest)
  {
    match count {
      case Some(n) =>
        var t := Count(count) + rest;
        SpanOf(Decimal(n), rest);
        assert t[1..] == Decimal(n) + rest;
        assert t[1 + |Decimal(n)|..] == rest;
      case None =>
        assert Count(count) + rest == rest;
    }
  }

  /** A printed header is recognised, with its starts. */
  lemma HeaderReads(oldStart: nat, oldCount: Option<nat>, newStart: nat, newCount: Option<nat>, section: Text)
    ensures HeaderOf(HeaderLine(oldStart, oldCount, newStart, newCount, section)) == Some((oldStart, newStart))
  {
    hide Decimal, Count, TakeNumber, SkipCount;
    var tail := [SPACE, AT, AT] + section;
    var newSide := Decimal(newStart) + (Count(newCount) + tail);
    var middle := [SPACE, PLUS] + newSide;
    var oldSide := Decimal(oldStart) + (Count(oldCount) + middle);
    SkipPrinted(newCount, tail);
    TakeDecimal(newStart, Count(newCount) + tail);
    SkipPrinted(oldCount, middle);
    TakeDecimal(oldStart, Count(oldCount) + middle);
    var line := HeaderLine(oldStart, oldCount, newStart, newCount, section);
    assert line == [AT, AT, SPACE, MINUS] + oldSide;
    assert line[4..] == oldSide && middle[2..] == newSide;
  }

  /** Nothing, or a comma and digits. */
  ghost predicate IsCount(count: Text) {
    count == [] || (|count| > 1 && count[0] == 44 && AllDigits(count[1..]))
  }

  ghost predicate IsNumber(digits: Text) {
    digits != [] && AllDigits(digits)
  }

  datatype HeaderTexts = HeaderTexts(oldStart: Text, oldCount: Text, newStart: Text, newCount: Text, section: Text)

  /** `@@ -start,count +start,count @@` and anything after it, where either count may be missing. */
  ghost predicate HeaderSpelled(line: Text, h: HeaderTexts) {
    && IsNumber(h.oldStart) && IsCount(h.oldCount) && IsNumber(h.newStart) && IsCount(h.newCount)
    && line == [64, 64, 32, 45] + (h.oldStart + (h.oldCount + ([32, 43] + (h.newStart + (h.newCount + ([32, 64, 64] + h.section))))))
  }

  lemma TakeDigits(digits: Text, rest: Text)
    requires IsNumber(digits) && EndsNumber(rest)
    ensures TakeNumber(digits + rest) == Some((ValueOf(digits), rest))
  {
    SpanOf(digits, rest);
    assert (digits + rest)[..|digits|] == digits;
  }

  lemma SkipSpelled(count: Text, rest: Text)
    requires IsCount(count) && rest != [] && rest[0] == 32
    ensures SkipCount(count + rest) == rest && EndsNumber(count + rest)
  {
    if count == [] {
      assert count + rest == rest;
    } else {
      var t := count + rest;
      SpanOf(count[1..], rest);
      assert t[1..] == count[1..] + rest;
      assert t[|count|..] == rest;
    }
  }

  lemma TakenNumber(t: Text) returns (digits: Text)
    requires TakeNumber(t).Some?
    ensures IsNumber(digits) && t == digits + TakeNumber(t).value.1 && TakeNumber(t).value.0 == ValueOf(digits)
  {
    digits := t[..DigitSpan(t)];
  }

  lemma SkippedCount(t: Text) returns (count: Text)
    ensures IsCount(count) && t == count + SkipCount(t)
  {
    var n := if t == [] then 0 else DigitSpan(t[1..]);
    if t != [] && t[0] == COMMA && n > 0 {
      count := t[..1 + n];
      assert count[1..] == t[1..][..n];
    } else {
      count := [];
    }
  }

  lemma SpelledReads(line: Text, h: HeaderTexts)
    requires HeaderSpelled(line, h)
    ensures HeaderOf(line) == Some((ValueOf(h.oldStart), ValueOf(h.newStart)))
  {
    hide TakeNumber, SkipCount, IsCount;
    var tail := [32, 64, 64] + h.section;
    var newSide := h.newStart + (h.newCount + tail);
    var middle := [32, 43] + newSide;
    var oldSide := h.oldStart + (h.oldCount + middle);
    SkipSpelled(h.newCount, tail);
    TakeDigits(h.newStart, h.newCount + tail);
    SkipSpelled(h.oldCount, middle);
    TakeDigits(h.oldStart, h.oldCount + middle);
    assert line[4..] == oldSide && middle[2..] == newSide;
  }

  lemma ReadSpells(line: Text) returns (h: HeaderTexts)
    requires HeaderOf(line).Some?
    ensures HeaderSpelled(line, h)
  {
    hide TakeNumber, SkipCount, IsCount, IsNumber;
    var oldStart := TakenNumber(line[4..]);
    var afterOld := TakeNumber(line[4..]).value.1;
    var oldCount := SkippedCount(afterOld);
    var middle := SkipCount(afterOld);
    var newStart := TakenNumber(middle[2..]);
    var afterNew := TakeNumber(middle[2..]).value.1;
    var newCount := SkippedCount(afterNew);
    var tail := SkipCount(afterNew);
    h := HeaderTexts(oldStart, oldCount, newStart, newCount, tail[3..]);
    assert tail == [32, 64, 64] + tail[3..];
    assert middle == [32, 43] + middle[2..];
    assert line == [64, 64, 32, 45] + line[4..];
  }

  /** A line is read as a header exactly when it is spelled as one, and then with the values of its two starts. */
  lemma HeaderExactly(line: Text, starts: (nat, nat))
    ensures HeaderOf(line) == Some(starts) <==>
            exists h :: HeaderSpelled(line, h) && starts == (ValueOf(h.oldStart), ValueOf(h.newStart))
  {
    hide HeaderOf, IsCount;
    if HeaderOf(line).Some? {
      var h := ReadSpells(line);
      SpelledReads(line, h);
    }
    forall h | HeaderSpelled(line, h) ensures HeaderOf(line) == Some((ValueOf(h.oldStart), ValueOf(h.newStart))) {
      SpelledReads(line, h);
    }
  }

  // ----- the counters

  datatype Side = Old | New

  /** A line that starts with the side's own mark, but not with three of them. */
  predicate Marked(line: Text, mark: CodeUnit) {
    [mark] <= line && !([mark, mark, mark] <= line)
  }

  function MarkOf(side: Side): CodeUnit {
    match side
    case Old => MINUS
    case New => PLUS
  }

  function Other(side: Side): Side {
    match side
    case Old => New
    case New => Old
  }

  /** The next line number on a side, zero before the first header, and the numbers recorded. */
  datatype Cursor = Cursor(line: nat, numbers: seq<nat>)

  function StartOf(header: (nat, nat), side: Side): nat {
    match side
    case Old => header.0
    case New => header.1
  }

  function Advance(side: Side, c: Cursor, line: Text): Cursor {
    if HeaderOf(line).Some? then Cursor(StartOf(HeaderOf(line).value, side), c.numbers)
    else if c.line == 0 then c
    else if Marked(line, MarkOf(side)) then Cursor(c.line + 1, c.numbers + [c.line])
    else if Marked(line, MarkOf(Other(side))) || [BACKSLASH] <= line then c
    else Cursor(c.line + 1, c.numbers)
  }

  function Run(side: Side, c: Cursor, lines: seq<Text>): Cursor
    decreases |lines|
  {
    if lines == [] then c else Run(side, Advance(side, c, lines[0]), lines[1..])
  }

  /** What a side's counter records for a patch. */
  function Recorded(side: Side, patch: Text): seq<nat> {
    Run(side, Cursor(0, []), Split(patch, NEWLINE)).numbers
  }

  datatype Range = Range(start: nat, end: nat)

  function Numbers(r: Range): (s: seq<nat>)
    ensures r.start <= r.end ==> |s| == r.end - r.start + 1
  {
    if r.start > r.end then [] else seq(r.end - r.start + 1, i requires 0 <= i => r.start + i)
  }

  function Flatten(ranges: seq<Range>): seq<nat> {
    if ranges == [] then [] else Flatten(ranges[..|ranges| - 1]) + Numbers(ranges[|ranges| - 1])
  }

  function WithActive(ranges: seq<Range>, active: Option<Range>): seq<Range> {
    if active.Some? then ranges + [active.value] else ranges
  }

  predicate NonEmpty(ranges: seq<Range>) {
    forall k :: 0 <= k < |ranges| ==> ranges[k].start <= ranges[k].end
  }

  lemma FlattenSnoc(ranges: seq<Range>, r: Range)
    ensures Flatten(ranges + [r]) == Flatten(ranges) + Numbers(r)
  {
    assert (ranges + [r])[..|ranges|] == ranges;
  }

  lemma ExtendRange(ranges: seq<Range>, r: Range, n: nat)
    requires NonEmpty(ranges + [r]) && n == r.end + 1
    ensures NonEmpty(ranges + [Range(r.start, n)])
    ensures Flatten(ranges + [Range(r.start, n)]) == Flatten(ranges + [r]) + [n]
  {
    assert (ranges + [r])[|ranges|] == r;
    assert forall k :: 0 <= k < |ranges| ==> ranges[k] == (ranges + [r])[k];
    FlattenSnoc(ranges, r);
    FlattenSnoc(ranges, Range(r.start, n));
    assert Numbers(Range(r.start, n)) == Numbers(r) + [n];
  }

  lemma OpenRange(ranges: seq<Range>, n: nat)
    requires NonEmpty(ranges)
    ensures NonEmpty(ranges + [Range(n, n)]) && Flatten(ranges + [Range(n, n)]) == Flatten(ranges) + [n]
  {
    FlattenSnoc(ranges, Range(n, n));
  }

  /** Added lines, as ranges that list the recorded numbers in order. */
  method AddedLineRanges(patch: Text) returns (ranges: seq<Range>)
    ensures NonEmpty(ranges) && Flatten(ranges) == Recorded(New, patch)
  {
    ranges := [];
    var newLine: nat := 0;
    var active: Option<Range> := None;
    var lines := Split(patch, NEWLINE);
    for i := 0 to |lines|
      invariant NonEmpty(WithActive(ranges, active))
      invariant Run(New, Cursor(0, []), lines)
             == Run(New, Cursor(newLine, Flatten(WithActive(ranges, active))), lines[i..])
    {
      hide HeaderOf, Marked, Flatten, Numbers, NonEmpty;
      var line := lines[i];
      ghost var before := Cursor(newLine, Flatten(WithActive(ranges, active)));
      assert lines[i..][1..] == lines[i + 1..] && lines[i..][0] == line;
      var header := HeaderOf(line);
      if header.Some? {
        ranges := WithActive(ranges, active);
        active := None;
        newLine := header.value.1;
      } else if newLine == 0 {
      } else if Marked(line, PLUS) {
        if active.Some? && active.value.end + 1 == newLine {
          ExtendRange(ranges, active.value, newLine);
          active := Some(Range(active.value.start, newLine));
        } else {
          ranges := WithActive(ranges, active);
          OpenRange(ranges, newLine);
          active := Some(Range(newLine, newLine));
        }
        newLine := newLine + 1;
      } else if Marked(line, MINUS) {
        ranges := WithActive(ranges, active);
        active := None;
      } else {
        ranges := WithActive(ranges, active);
        active := None;
        if !([BACKSLASH] <= line) {
          newLine := newLine + 1;
        }
      }
      assert Cursor(newLine, Flatten(WithActive(ranges, active))) == Advance(New, before, line);
    }
    ranges := WithActive(ranges, active);
  }

  function AsSet(numbers: seq<nat>): set<nat> {
    set n | n in numbers
  }

  lemma AsSetSnoc(numbers: seq<nat>, n: nat)
    ensures AsSet(numbers + [n]) == AsSet(numbers) + {n}
  {
  }

  /** Deleted lines: the set of the recorded numbers. */
  method RemovedLineNumbers(patch: Text) returns (removed: set<nat>)
    ensures removed == AsSet(Recorded(Old, patch))
  {
    removed := {};
    var oldLine: nat := 0;
    ghost var numbers: seq<nat> := [];
    var lines := Split(patch, NEWLINE);
    for i := 0 to |lines|
      invariant removed == AsSet(numbers)
      invariant Run(Old, Cursor(0, []), lines) == Run(Old, Cursor(oldLine, numbers), lines[i..])
    {
      hide HeaderOf, Marked, AsSet;
      var line := lines[i];
      ghost var before := Cursor(oldLine, numbers);
      assert lines[i..][1..] == lines[i + 1..] && lines[i..][0] == line;
      var header := HeaderOf(line);
      if header.Some? {
        oldLine := header.value.0;
      } else if oldLine == 0 {
      } else if Marked(line, MINUS) {
        AsSetSnoc(numbers, oldLine);
        removed := removed + {oldLine};
        numbers := numbers + [oldLine];
        oldLine := oldLine + 1;
      } else if Marked(line, PLUS) {
      } else if !([BACKSLASH] <= line) {
        oldLine := oldLine + 1;
      }
      assert Cursor(oldLine, numbers) == Advance(Old, before, line);
    }
  }
}
