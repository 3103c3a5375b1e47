/**
 What the diff counters mean for the files a patch connects.
 */
module PatchApplication {
  /**
   Source: apps/control-plane/src/service.ts:3220-3251, apps/control-plane/src/review-value.ts:22-42.

   A patch is printed from hunks of edits.  A printed line that starts with three marks is
   taken for context: it is not recorded, and on the other side it shifts what follows.
   */
  import opened Wrappers
  import opened Texts
  import opened UnifiedDiff

  datatype Edit = Keep(text: Text) | Remove(text: Text) | Add(text: Text) | NoNewline(text: Text)

  /** Edits that start at a line of the old and of the new file, counted from one. */
  datatype Hunk = Hunk(
    oldAt: nat, newAt: nat, edits: seq<Edit>, section: Text, showOldCount: bool, showNewCount: bool)

  function At(h: Hunk, side: Side): nat {
    match side
    case Old => h.oldAt
    case New => h.newAt
  }

  predicate Mine(e: Edit, side: Side) {
    match side
    case Old => e.Remove?
    case New => e.Add?
  }

  predicate OnSide(e: Edit, side: Side) {
    e.Keep? || Mine(e, side)
  }

  /** The printed line starts with three marks. */
  predicate Tripled(e: Edit) {
    (e.Add? && [PLUS, PLUS] <= e.text) || (e.Remove? && [MINUS, MINUS] <= e.text)
  }

  function Length(edits: seq<Edit>, side: Side): nat {
    if edits == [] then 0 else (if OnSide(edits[0], side) then 1 else 0) + Length(edits[1..], side)
  }

  predicate HasMine(edits: seq<Edit>, side: Side) {
    exists k :: 0 <= k < |edits| && Mine(edits[k], side)
  }

  // ----- printing

  function EditLine(e: Edit): Text {
    match e
    case Keep(t) => [SPACE] + t
    case Remove(t) => [MINUS] + t
    case Add(t) => [PLUS] + t
    case NoNewline(t) => [BACKSLASH] + t
  }

  function BodyLines(edits: seq<Edit>): seq<Text> {
    if edits == [] then [] else [EditLine(edits[0])] + BodyLines(edits[1..])
  }

  /** An empty side is printed as the line before it. */
  function PrintedStart(h: Hunk, side: Side): nat {
    if Length(h.edits, side) == 0 && At(h, side) > 0 then At(h, side) - 1 else At(h, side)
  }

  function HunkHeader(h: Hunk): Text {
    HeaderLine(PrintedStart(h, Old), if h.showOldCount then Some(Length(h.edits, Old)) else None,
               PrintedStart(h, New), if h.showNewCount then Some(Length(h.edits, New)) else None, h.section)
  }

  function PatchLines(hunks: seq<Hunk>): seq<Text> {
    if hunks == [] then [] else [HunkHeader(hunks[0])] + BodyLines(hunks[0].edits) + PatchLines(hunks[1..])
  }

  function PatchText(hunks: seq<Hunk>): Text {
    Join(PatchLines(hunks), NEWLINE)
  }

  /** No printed line is itself broken by a newline. */
  predicate SingleLines(hunks: seq<Hunk>) {
    forall k :: 0 <= k < |PatchLines(hunks)| ==> NEWLINE !in PatchLines(hunks)[k]
  }

  // ----- the true numbers, and those the counters see

  /** The side's own lines of the edits, numbered from a start. */
  function Actual(edits: seq<Edit>, side: Side, at: nat): seq<nat> {
    if edits == [] then []
    else if Mine(edits[0], side) then [at] + Actual(edits[1..], side, at + 1)
    else Actual(edits[1..], side, if edits[0].Keep? then at + 1 else at)
  }

  function Shown(edits: seq<Edit>, side: Side, at: nat): seq<nat> {
    if edits == [] then []
    else
      var e, rest := edits[0], edits[1..];
      if Mine(e, side) && !Tripled(e) then [at] + Shown(rest, side, at + 1)
      else if e.Keep? || Tripled(e) then Shown(rest, side, at + 1)
      else Shown(rest, side, at)
  }

  function ActualAll(hunks: seq<Hunk>, side: Side): seq<nat> {
    if hunks == [] then [] else Actual(hunks[0].edits, side, At(hunks[0], side)) + ActualAll(hunks[1..], side)
  }

  function ShownAll(hunks: seq<Hunk>, side: Side): seq<nat> {
    if hunks == [] then [] else Shown(hunks[0].edits, side, At(hunks[0], side)) + ShownAll(hunks[1..], side)
  }

  lemma {:induction false} RunConcat(side: Side, c: Cursor, a: seq<Text>, b: seq<Text>)
    ensures Run(side, c, a + b) == Run(side, Run(side, c, a), b)
    decreases |a|
  {
    if a == [] {
      assert a + b == b;
    } else {
      assert (a + b)[1..] == a[1..] + b;
      RunConcat(side, Advance(side, c, a[0]), a[1..], b);
    }
  }

  lemma ThreeMarks(mark: CodeUnit, t: Text)
    ensures [mark, mark] <= t <==> [mark, mark, mark] <= [mark] + t
  {
    var line := [mark] + t;
    if [mark, mark] <= t {
      assert t[0] == mark && t[1] == mark && line[1] == t[0] && line[2] == t[1];
    }
    if [mark, mark, mark] <= line {
      assert t[0] == line[1] && t[1] == line[2];
    }
  }

  lemma EditLineAdvances(side: Side, c: Cursor, e: Edit)
    requires c.line > 0
    ensures Advance(side, c, EditLine(e)) ==
            if Mine(e, side) && !Tripled(e) then Cursor(c.line + 1, c.numbers + [c.line])
            else if e.Keep? || Tripled(e) then Cursor(c.line + 1, c.numbers)
            else c
  {
    var line := EditLine(e);
    assert line[0] != AT;
    ThreeMarks(PLUS, e.text);
    ThreeMarks(MINUS, e.text);
  }

  lemma {:induction false} RunBody(side: Side, c: Cursor, edits: seq<Edit>)
    requires c.line > 0
    ensures Run(side, c, BodyLines(edits)).numbers == c.numbers + Shown(edits, side, c.line)
    decreases |edits|
  {
    hide Advance, EditLine, Mine, Tripled;
    if edits != [] {
      var next := Advance(side, c, EditLine(edits[0]));
      EditLineAdvances(side, c, edits[0]);
      assert BodyLines(edits)[1..] == BodyLines(edits[1..]);
      RunBody(side, next, edits[1..]);
    }
  }

  lemma {:induction false} RunBeforeFirst(side: Side, c: Cursor, edits: seq<Edit>)
    requires c.line == 0
    ensures Run(side, c, BodyLines(edits)) == c
    decreases |edits|
  {
    if edits != [] {
      assert EditLine(edits[0])[0] != AT;
      assert BodyLines(edits)[1..] == BodyLines(edits[1..]);
      RunBeforeFirst(side, c, edits[1..]);
    }
  }

  lemma {:induction false} EmptySideShowsNothing(edits: seq<Edit>, side: Side, at: nat)
    requires Length(edits, side) == 0
    ensures Shown(edits, side, at) == [] && Actual(edits, side, at) == []
    decreases |edits|
  {
    if edits != [] {
      EmptySideShowsNothing(edits[1..], side, at);
      EmptySideShowsNothing(edits[1..], side, at + 1);
    }
  }

  lemma RunHunk(side: Side, c: Cursor, h: Hunk)
    requires At(h, side) > 0
    ensures Run(side, c, [HunkHeader(h)] + BodyLines(h.edits)).numbers
         == c.numbers + Shown(h.edits, side, At(h, side))
  {
    hide HeaderLine, Shown, Length, Mine, Run, BodyLines;
    var lines := [HunkHeader(h)] + BodyLines(h.edits);
    var start := Cursor(PrintedStart(h, side), c.numbers);
    HeaderReads(PrintedStart(h, Old), if h.showOldCount then Some(Length(h.edits, Old)) else None,
                PrintedStart(h, New), if h.showNewCount then Some(Length(h.edits, New)) else None, h.section);
    assert Run(side, c, lines) == Run(side, start, BodyLines(h.edits)) by {
      RunStep(side, c, lines);
      assert lines[1..] == BodyLines(h.edits);
    }
    if start.line == 0 {
      RunBeforeFirst(side, start, h.edits);
    } else {
      RunBody(side, start, h.edits);
    }
    if Length(h.edits, side) == 0 {
      EmptySideShowsNothing(h.edits, side, start.line);
      EmptySideShowsNothing(h.edits, side, At(h, side));
    }
  }

  lemma RunStep(side: Side, c: Cursor, lines: seq<Text>)
    requires lines != []
    ensures Run(side, c, lines) == Run(side, Advance(side, c, lines[0]), lines[1..])
  {
  }

  ghost predicate Numbered(hunks: seq<Hunk>) {
    forall k :: 0 <= k < |hunks| ==> hunks[k].oldAt > 0 && hunks[k].newAt > 0
  }

  lemma {:induction false} RunPatch(side: Side, c: Cursor, hunks: seq<Hunk>)
    requires Numbered(hunks)
    ensures Run(side, c, PatchLines(hunks)).numbers == c.numbers + ShownAll(hunks, side)
    decreases |hunks|
  {
    hide HunkHeader, Shown, Run, BodyLines;
    if hunks == [] {
      RunNothing(side, c);
    } else {
      var first := [HunkHeader(hunks[0])] + BodyLines(hunks[0].edits);
      RunHunk(side, c, hunks[0]);
      RunConcat(side, c, first, PatchLines(hunks[1..]));
      RunPatch(side, Run(side, c, first), hunks[1..]);
    }
  }

  lemma RunNothing(side: Side, c: Cursor)
    ensures Run(side, c, []) == c
  {
  }

  /** What a counter records for a printed patch. */
  lemma RecordedIsShown(side: Side, hunks: seq<Hunk>)
    requires Numbered(hunks) && SingleLines(hunks)
    ensures Recorded(side, PatchText(hunks)) == ShownAll(hunks, side)
  {
    var lines := PatchLines(hunks);
    if hunks == [] {
      assert Split([], NEWLINE) == [[]];
      RunStep(side, Cursor(0, []), [[]]);
      RunNothing(side, Cursor(0, []));
    } else {
      SplitJoin(lines, NEWLINE);
      RunPatch(side, Cursor(0, []), hunks);
    }
  }

  // ----- when the counters are right

  /** No own line is tripled, and no tripled line of the other side comes before an own line. */
  predicate Harmless(edits: seq<Edit>, side: Side) {
    if edits == [] then true
    else if !Tripled(edits[0]) then Harmless(edits[1..], side)
    else !Mine(edits[0], side) && !HasMine(edits[1..], side)
  }

  /** Hunks in ascending order, not overlapping, from a line on. */
  predicate InOrder(hunks: seq<Hunk>, side: Side, start: nat) {
    hunks != [] ==>
      start <= At(hunks[0], side) && InOrder(hunks[1..], side, At(hunks[0], side) + Length(hunks[0].edits, side))
  }

  ghost predicate Ascending(s: seq<nat>) {
    forall i, j :: 0 <= i < j < |s| ==> s[i] < s[j]
  }

  lemma AscendingConcat(a: seq<nat>, b: seq<nat>)
    requires Ascending(a) && Ascending(b) && forall x, y :: x in a && y in b ==> x < y
    ensures Ascending(a + b)
  {
    var s := a + b;
    forall i, j | 0 <= i < j < |s| ensures s[i] < s[j] {
      assert i < |a| ==> s[i] in a;
      assert j >= |a| ==> s[j] in b;
    }
  }

  lemma {:induction false} ActualBounds(edits: seq<Edit>, side: Side, at: nat)
    ensures forall n :: n in Actual(edits, side, at) ==> at <= n < at + Length(edits, side)
    ensures Ascending(Actual(edits, side, at))
    decreases |edits|
  {
    if edits != [] {
      ActualBounds(edits[1..], side, at);
      ActualBounds(edits[1..], side, at + 1);
      AscendingConcat([at], Actual(edits[1..], side, at + 1));
    }
  }

  lemma {:induction false} ShownBounds(edits: seq<Edit>, side: Side, at: nat)
    ensures forall n :: n in Shown(edits, side, at) ==> at <= n
    decreases |edits|
  {
    if edits != [] {
      ShownBounds(edits[1..], side, at);
      ShownBounds(edits[1..], side, at + 1);
    }
  }

  lemma {:induction false} NoneMine(edits: seq<Edit>, side: Side, at: nat, shownAt: nat)
    requires !HasMine(edits, side)
    ensures Actual(edits, side, at) == [] && Shown(edits, side, shownAt) == []
    decreases |edits|
  {
    if edits != [] {
      assert !Mine(edits[0], side);
      assert forall k :: 0 <= k < |edits| - 1 ==> edits[1..][k] == edits[k + 1];
      NoneMine(edits[1..], side, if edits[0].Keep? then at + 1 else at,
               if edits[0].Keep? || Tripled(edits[0]) then shownAt + 1 else shownAt);
    }
  }

  lemma {:induction false} HarmlessIsExact(edits: seq<Edit>, side: Side, at: nat)
    requires Harmless(edits, side)
    ensures Shown(edits, side, at) == Actual(edits, side, at)
    decreases |edits|
  {
    if edits != [] {
      var rest := edits[1..];
      if Tripled(edits[0]) {
        NoneMine(rest, side, at, at + 1);
      } else {
        HarmlessIsExact(rest, side, at);
        HarmlessIsExact(rest, side, at + 1);
      }
    }
  }

  /** Shifted by a tripled line, the first own line is lost. */
  lemma {:induction false} ShiftLoses(edits: seq<Edit>, side: Side, at: nat, shownAt: nat) returns (n: nat)
    requires HasMine(edits, side) && at < shownAt
    ensures n in Actual(edits, side, at) && forall s :: s in Shown(edits, side, shownAt) ==> n < s
    decreases |edits|
  {
    var e, rest := edits[0], edits[1..];
    ShownBounds(edits, side, shownAt);
    if Mine(e, side) {
      n := at;
    } else {
      var k :| 0 <= k < |edits| && Mine(edits[k], side);
      assert rest[k - 1] == edits[k];
      n := ShiftLoses(rest, side, if e.Keep? then at + 1 else at, if e.Keep? || Tripled(e) then shownAt + 1 else shownAt);
    }
  }

  lemma {:induction false} HarmfulLoses(edits: seq<Edit>, side: Side, at: nat) returns (n: nat)
    requires !Harmless(edits, side)
    ensures n in Actual(edits, side, at) && n !in Shown(edits, side, at)
    decreases |edits|
  {
    var e, rest := edits[0], edits[1..];
    ShownBounds(rest, side, at + 1);
    if Tripled(e) {
      if Mine(e, side) {
        n := at;
      } else {
        n := ShiftLoses(rest, side, at, at + 1);
      }
    } else {
      var next := if OnSide(e, side) then at + 1 else at;
      n := HarmfulLoses(rest, side, next);
      ActualBounds(rest, side, next);
    }
  }

  ghost predicate AllHarmless(hunks: seq<Hunk>, side: Side) {
    forall k :: 0 <= k < |hunks| ==> Harmless(hunks[k].edits, side)
  }

  lemma {:induction false} AllHarmlessIsExact(hunks: seq<Hunk>, side: Side)
    requires AllHarmless(hunks, side)
    ensures ShownAll(hunks, side) == ActualAll(hunks, side)
    decreases |hunks|
  {
    if hunks != [] {
      HarmlessIsExact(hunks[0].edits, side, At(hunks[0], side));
      AllHarmlessIsExact(hunks[1..], side);
    }
  }

  lemma {:induction false} ShownAllBounds(hunks: seq<Hunk>, side: Side, start: nat)
    requires InOrder(hunks, side, start)
    ensures forall n :: n in ShownAll(hunks, side) ==> start <= n
    ensures forall n :: n in ActualAll(hunks, side) ==> start <= n
    ensures Ascending(ActualAll(hunks, side))
    decreases |hunks|
  {
    if hunks != [] {
      var h := hunks[0];
      ShownBounds(h.edits, side, At(h, side));
      ActualBounds(h.edits, side, At(h, side));
      ShownAllBounds(hunks[1..], side, At(h, side) + Length(h.edits, side));
      AscendingConcat(Actual(h.edits, side, At(h, side)), ActualAll(hunks[1..], side));
    }
  }

  lemma {:induction false} OneHarmfulLoses(hunks: seq<Hunk>, side: Side, start: nat) returns (n: nat)
    requires InOrder(hunks, side, start) && !AllHarmless(hunks, side)
    ensures n in ActualAll(hunks, side) && n !in ShownAll(hunks, side)
    decreases |hunks|
  {
    var h, rest := hunks[0], hunks[1..];
    var next := At(h, side) + Length(h.edits, side);
    ActualBounds(h.edits, side, At(h, side));
    ShownAllBounds(rest, side, next);
    if Harmless(h.edits, side) {
      assert !AllHarmless(rest, side) by {
        var k :| 0 <= k < |hunks| && !Harmless(hunks[k].edits, side);
        assert rest[k - 1] == hunks[k];
      }
      HarmlessIsExact(h.edits, side, At(h, side));
      n := OneHarmfulLoses(rest, side, next);
    } else {
      n := HarmfulLoses(h.edits, side, At(h, side));
    }
  }

  /** The counters record exactly the side's own lines if and only if no tripled line does harm; then
      they record them in order. */
  lemma ExactIffHarmless(hunks: seq<Hunk>, side: Side)
    requires Numbered(hunks) && SingleLines(hunks) && InOrder(hunks, side, 1)
    ensures AsSet(Recorded(side, PatchText(hunks))) == AsSet(ActualAll(hunks, side)) <==> AllHarmless(hunks, side)
    ensures AllHarmless(hunks, side) ==> Recorded(side, PatchText(hunks)) == ActualAll(hunks, side)
    ensures Ascending(ActualAll(hunks, side))
  {
    RecordedIsShown(side, hunks);
    ShownAllBounds(hunks, side, 1);
    if AllHarmless(hunks, side) {
      AllHarmlessIsExact(hunks, side);
    } else {
      var n := OneHarmfulLoses(hunks, side, 1);
      assert n in AsSet(ActualAll(hunks, side)) && n !in AsSet(ShownAll(hunks, side));
    }
  }

  const ADDED_MARKS: Hunk := Hunk(1, 1, [Add([PLUS, PLUS])], [], false, false)

  lemma OneEdit(e: Edit, side: Side)
    ensures BodyLines([e]) == [EditLine(e)] && Length([e], side) == if OnSide(e, side) then 1 else 0
    ensures Actual([e], side, 1) == if Mine(e, side) then [1] else []
    ensures Shown([e], side, 1) == if Mine(e, side) && !Tripled(e) then [1] else []
  {
    assert [e][1..] == [];
  }

  lemma MarksHeader()
    ensures NEWLINE !in HunkHeader(ADDED_MARKS)
  {
    hide Length;
    OneEdit(Add([PLUS, PLUS]), Old);
    OneEdit(Add([PLUS, PLUS]), New);
    assert Decimal(0) == [48] && Decimal(1) == [49];
    assert HunkHeader(ADDED_MARKS) == HeaderLine(0, None, 1, None, []);
  }

  /** A patch whose only added line reads `++` is recorded as adding nothing. */
  lemma TripledLineIsLost()
    ensures Numbered([ADDED_MARKS]) && SingleLines([ADDED_MARKS]) && InOrder([ADDED_MARKS], New, 1)
    ensures Recorded(New, PatchText([ADDED_MARKS])) == [] && ActualAll([ADDED_MARKS], New) == [1]
  {
    hide HunkHeader, BodyLines, Length, Shown, Actual;
    var e := Add([PLUS, PLUS]);
    assert [ADDED_MARKS][1..] == [];
    OneEdit(e, New);
    MarksHeader();
    assert PatchLines([ADDED_MARKS]) == [HunkHeader(ADDED_MARKS), EditLine(e)];
    RecordedIsShown(New, [ADDED_MARKS]);
  }

  // ----- ranges

  lemma {:induction false} FlattenHolds(ranges: seq<Range>, k: nat)
    requires NonEmpty(ranges) && k < |ranges|
    ensures ranges[k].end in Flatten(ranges)
    decreases |ranges|
  {
    var n := |ranges| - 1;
    var last := Numbers(ranges[n]);
    if k == n {
      assert last[|last| - 1] == ranges[n].end;
    } else {
      assert ranges[..n][k] == ranges[k];
      FlattenHolds(ranges[..n], k);
    }
  }

  /** Ranges that list ascending numbers are disjoint and in order. */
  lemma {:induction false} RangesDisjoint(ranges: seq<Range>)
    requires NonEmpty(ranges) && Ascending(Flatten(ranges))
    ensures forall i, j :: 0 <= i < j < |ranges| ==> ranges[i].end < ranges[j].start
    decreases |ranges|
  {
    if ranges != [] {
      var n := |ranges| - 1;
      var init, last := ranges[..n], Numbers(ranges[n]);
      var numbers := Flatten(ranges);
      assert numbers == Flatten(init) + last;
      assert forall i :: 0 <= i < |Flatten(init)| ==> Flatten(init)[i] == numbers[i];
      RangesDisjoint(init);
      forall i | 0 <= i < n ensures ranges[i].end < ranges[n].start {
        FlattenHolds(init, i);
        assert init[i] == ranges[i];
        var p :| 0 <= p < |Flatten(init)| && Flatten(init)[p] == ranges[i].end;
        assert numbers[p] == ranges[i].end && numbers[|Flatten(init)|] == last[0] == ranges[n].start;
      }
    }
  }

  // ----- conservation

  function SideLines(edits: seq<Edit>, side: Side): seq<Text> {
    if edits == [] then []
    else (if OnSide(edits[0], side) then [edits[0].text] else []) + SideLines(edits[1..], side)
  }

  function Kept(edits: seq<Edit>): seq<Text> {
    if edits == [] then [] else (if edits[0].Keep? then [edits[0].text] else []) + Kept(edits[1..])
  }

  /** The hunks turn one file into the other: between them the files agree, and each hunk's sides are
      the files' lines where it says. */
  ghost predicate Applies(hunks: seq<Hunk>, oldLines: seq<Text>, newLines: seq<Text>, oldAt: nat, newAt: nat)
    decreases |hunks|
  {
    if hunks == [] then oldLines == newLines
    else
      var h := hunks[0];
      var gap := h.oldAt - oldAt;
      var oldEnd, newEnd := gap + Length(h.edits, Old), gap + Length(h.edits, New);
      && gap >= 0 && h.newAt - newAt == gap && oldEnd <= |oldLines| && newEnd <= |newLines|
      && oldLines[..gap] == newLines[..gap]
      && oldLines[gap..oldEnd] == SideLines(h.edits, Old) && newLines[gap..newEnd] == SideLines(h.edits, New)
      && Applies(hunks[1..], oldLines[oldEnd..], newLines[newEnd..], oldAt + oldEnd, newAt + newEnd)
  }

  /** The lines whose number, counted from a start, is not in a set. */
  function Uncovered(lines: seq<Text>, at: nat, numbers: set<nat>): seq<Text> {
    if lines == [] then []
    else (if at in numbers then [] else [lines[0]]) + Uncovered(lines[1..], at + 1, numbers)
  }

  lemma {:induction false} UncoveredConcat(a: seq<Text>, b: seq<Text>, at: nat, numbers: set<nat>)
    ensures Uncovered(a + b, at, numbers) == Uncovered(a, at, numbers) + Uncovered(b, at + |a|, numbers)
    decreases |a|
  {
    if a == [] {
      assert a + b == b;
    } else {
      assert (a + b)[1..] == a[1..] + b;
      UncoveredConcat(a[1..], b, at + 1, numbers);
    }
  }

  lemma {:induction false} UncoveredAgrees(lines: seq<Text>, at: nat, a: set<nat>, b: set<nat>)
    requires forall n :: at <= n < at + |lines| ==> (n in a <==> n in b)
    ensures Uncovered(lines, at, a) == Uncovered(lines, at, b)
    decreases |lines|
  {
    if lines != [] {
      UncoveredAgrees(lines[1..], at + 1, a, b);
    }
  }

  lemma {:induction false} NothingCovered(lines: seq<Text>, at: nat)
    ensures Uncovered(lines, at, {}) == lines
    decreases |lines|
  {
    if lines != [] {
      NothingCovered(lines[1..], at + 1);
    }
  }

  lemma {:induction false} SideLength(edits: seq<Edit>, side: Side)
    ensures |SideLines(edits, side)| == Length(edits, side)
    decreases |edits|
  {
    if edits != [] {
      SideLength(edits[1..], side);
    }
  }

  /** Of a hunk's side, what its own lines leave is what the hunk keeps. */
  lemma {:induction false} HunkKeeps(edits: seq<Edit>, side: Side, at: nat)
    ensures Uncovered(SideLines(edits, side), at, AsSet(Actual(edits, side, at))) == Kept(edits)
    decreases |edits|
  {
    if edits != [] {
      var e, rest := edits[0], edits[1..];
      if OnSide(e, side) {
        var lines := SideLines(rest, side);
        var after := AsSet(Actual(rest, side, at + 1));
        HunkKeeps(rest, side, at + 1);
        ActualBounds(rest, side, at + 1);
        assert SideLines(edits, side)[1..] == lines;
        UncoveredAgrees(lines, at + 1, AsSet(Actual(edits, side, at)), after);
      } else {
        assert SideLines(edits, side) == SideLines(rest, side) && Kept(edits) == Kept(rest);
        HunkKeeps(rest, side, at);
      }
    }
  }

  lemma {:induction false} AppliesInOrder(hunks: seq<Hunk>, oldLines: seq<Text>, newLines: seq<Text>, oldAt: nat, newAt: nat)
    requires Applies(hunks, oldLines, newLines, oldAt, newAt)
    ensures InOrder(hunks, Old, oldAt) && InOrder(hunks, New, newAt)
    decreases |hunks|
  {
    if hunks != [] {
      var gap := hunks[0].oldAt - oldAt;
      var oldEnd, newEnd := gap + Length(hunks[0].edits, Old), gap + Length(hunks[0].edits, New);
      AppliesInOrder(hunks[1..], oldLines[oldEnd..], newLines[newEnd..], oldAt + oldEnd, newAt + newEnd);
    }
  }

  /** Lines before, inside and after the first hunk are covered only by their own numbers. */
  lemma FirstHunkCovers(hunks: seq<Hunk>, side: Side, start: nat, n: nat)
    requires hunks != [] && InOrder(hunks, side, start)
    ensures var at := At(hunks[0], side);
            var end := at + Length(hunks[0].edits, side);
            && (n < at ==> n !in ActualAll(hunks, side))
            && (at <= n < end ==> (n in ActualAll(hunks, side) <==> n in Actual(hunks[0].edits, side, at)))
            && (end <= n ==> (n in ActualAll(hunks, side) <==> n in ActualAll(hunks[1..], side)))
  {
    hide Actual;
    var at := At(hunks[0], side);
    ActualBounds(hunks[0].edits, side, at);
    ShownAllBounds(hunks[1..], side, at + Length(hunks[0].edits, side));
  }

  /** One side of the first hunk: the gap and the kept lines survive, and the rest is left to the rest. */
  lemma SideSplits(hunks: seq<Hunk>, side: Side, lines: seq<Text>, at: nat, gap: nat)
    requires hunks != [] && At(hunks[0], side) == at + gap
    requires InOrder(hunks, side, at) && gap + Length(hunks[0].edits, side) <= |lines|
    requires lines[gap..gap + Length(hunks[0].edits, side)] == SideLines(hunks[0].edits, side)
    ensures var end := gap + Length(hunks[0].edits, side);
            Uncovered(lines, at, AsSet(ActualAll(hunks, side)))
            == lines[..gap] + Kept(hunks[0].edits) + Uncovered(lines[end..], at + end, AsSet(ActualAll(hunks[1..], side)))
  {
    hide SideLines, Kept, ActualAll, Actual, Length, InOrder, Uncovered;
    var h := hunks[0];
    var end := gap + Length(h.edits, side);
    var all, own, rest := ActualAll(hunks, side), Actual(h.edits, side, at + gap), ActualAll(hunks[1..], side);
    forall n: nat
      ensures at <= n < at + gap ==> n !in all
      ensures at + gap <= n < at + end ==> (n in all <==> n in own)
      ensures at + end <= n ==> (n in all <==> n in rest)
    {
      FirstHunkCovers(hunks, side, at, n);
    }
    assert lines == lines[..gap] + lines[gap..end] + lines[end..];
    UncoveredConcat(lines[..gap] + lines[gap..end], lines[end..], at, AsSet(all));
    UncoveredConcat(lines[..gap], lines[gap..end], at, AsSet(all));
    UncoveredAgrees(lines[..gap], at, AsSet(all), {});
    NothingCovered(lines[..gap], at);
    UncoveredAgrees(lines[gap..end], at + gap, AsSet(all), AsSet(own));
    HunkKeeps(h.edits, side, at + gap);
    UncoveredAgrees(lines[end..], at + end, AsSet(all), AsSet(rest));
  }

  lemma NoHunks()
    ensures ActualAll([], Old) == [] && ActualAll([], New) == []
  {
  }

  /** Away from the added and the removed lines, both files are the same. */
  lemma {:induction false} PatchConserves(hunks: seq<Hunk>, oldLines: seq<Text>, newLines: seq<Text>, oldAt: nat, newAt: nat)
    requires Applies(hunks, oldLines, newLines, oldAt, newAt)
    ensures Uncovered(oldLines, oldAt, AsSet(ActualAll(hunks, Old)))
         == Uncovered(newLines, newAt, AsSet(ActualAll(hunks, New)))
    decreases |hunks|
  {
    hide SideLines, Kept, ActualAll, Length, InOrder, Uncovered;
    AppliesInOrder(hunks, oldLines, newLines, oldAt, newAt);
    if hunks == [] {
      NoHunks();
      UncoveredAgrees(oldLines, oldAt, AsSet(ActualAll(hunks, Old)), {});
      UncoveredAgrees(newLines, newAt, AsSet(ActualAll(hunks, New)), {});
      NothingCovered(oldLines, oldAt);
      NothingCovered(newLines, newAt);
    } else {
      var gap := hunks[0].oldAt - oldAt;
      var oldEnd, newEnd := gap + Length(hunks[0].edits, Old), gap + Length(hunks[0].edits, New);
      SideSplits(hunks, Old, oldLines, oldAt, gap);
      SideSplits(hunks, New, newLines, newAt, gap);
      PatchConserves(hunks[1..], oldLines[oldEnd..], newLines[newEnd..], oldAt + oldEnd, newAt + newEnd);
    }
  }

  /** For a patch the counters read exactly, what they leave of either file is the same. */
  method CountBothSides(hunks: seq<Hunk>, ghost oldLines: seq<Text>, ghost newLines: seq<Text>)
    returns (added: seq<Range>, removed: set<nat>)
    requires Numbered(hunks) && SingleLines(hunks) && Applies(hunks, oldLines, newLines, 1, 1)
    ensures AllHarmless(hunks, New) ==>
              && Flatten(added) == ActualAll(hunks, New)
              && forall i, j :: 0 <= i < j < |added| ==> added[i].end < added[j].start
    ensures AllHarmless(hunks, Old) ==> removed == AsSet(ActualAll(hunks, Old))
    ensures AllHarmless(hunks, Old) && AllHarmless(hunks, New) ==>
              Uncovered(oldLines, 1, removed) == Uncovered(newLines, 1, AsSet(Flatten(added)))
  {
    added := AddedLineRanges(PatchText(hunks));
    removed := RemovedLineNumbers(PatchText(hunks));
    AppliesInOrder(hunks, oldLines, newLines, 1, 1);
    ExactIffHarmless(hunks, Old);
    ExactIffHarmless(hunks, New);
    PatchConserves(hunks, oldLines, newLines, 1, 1);
    if AllHarmless(hunks, New) {
      RangesDisjoint(added);
    }
  }
}
