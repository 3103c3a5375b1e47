/** The advisory finding lifecycle over whole runs. */
module ReviewRuns {
  /**
   Source: apps/control-plane/src/service.ts:899, 1185-1330, 2589-2690, 3357-3464;
   apps/control-plane/src/store.ts:522-538, 1686-1708.

   A review reads the stored row, computes an update from what it read and saves it over
   whatever the row has become meanwhile; people record outcomes at any time.  A review whose
   merge is saved and whose head then turns out to have moved saves a second time, still from
   what it read before the merge (1257, 1308-1320).  That one review of a pull request is in
   flight at a time is an assumption.
   */
  import opened Wrappers
  import opened Texts
  import opened Sorting
  import opened ReviewFindings

  /** Distinct fingerprints, every record sound. */
  ghost predicate Good(records: seq<Record>) {
    Unique(records) && AllSound(records)
  }

  /** What never changes and is never lost while a fingerprint is retained. */
  predicate Keeps(before: Record, after: Record) {
    && after.firstSeenHead == before.firstSeenHead && after.firstSeenAt == before.firstSeenAt
    && (before.outcome == Some(Dismissed) ==> after.outcome == Some(Dismissed))
  }

  /** The counters do not go back. */
  predicate Counts(before: Record, after: Record) {
    before.transitions <= after.transitions && before.reappearances <= after.reappearances
  }

  predicate Follows(before: Record, after: Record) {
    Keeps(before, after) && Counts(before, after)
  }

  ghost predicate Retains(before: seq<Record>, after: seq<Record>) {
    forall b, a :: b in before && a in after && a.fingerprint == b.fingerprint ==> Keeps(b, a)
  }

  ghost predicate CountsOn(before: seq<Record>, after: seq<Record>) {
    forall b, a :: b in before && a in after && a.fingerprint == b.fingerprint ==> Counts(b, a)
  }

  /** One update of one read both retains what it must and counts on. */
  ghost predicate Continues(before: seq<Record>, after: seq<Record>) {
    forall b, a :: b in before && a in after && a.fingerprint == b.fingerprint ==> Follows(b, a)
  }

  // ----- each update, record by record

  ghost predicate SameFingerprints(a: seq<Record>, b: seq<Record>) {
    |a| == |b| && forall k :: 0 <= k < |a| ==> a[k].fingerprint == b[k].fingerprint
  }

  lemma UniqueByFingerprint(a: seq<Record>, b: seq<Record>)
    requires Unique(a) && SameFingerprints(a, b)
    ensures Unique(b)
  {
  }

  lemma OnlyOne(records: seq<Record>, a: Record, b: Record)
    requires Unique(records) && a in records && b in records && a.fingerprint == b.fingerprint
    ensures a == b
  {
  }

  /** An update that keeps positions and fingerprints continues the list if it does so record by record. */
  lemma PointwiseContinues(a: seq<Record>, b: seq<Record>)
    requires Unique(a) && SameFingerprints(a, b) && forall k :: 0 <= k < |a| ==> Follows(a[k], b[k])
    ensures Continues(a, b) && Unique(b)
  {
    hide Follows;
    forall x, y | x in a && y in b && y.fingerprint == x.fingerprint ensures Follows(x, y) {
      var j :| 0 <= j < |b| && b[j] == y;
      assert a[j] in a && a[j].fingerprint == x.fingerprint;
      OnlyOne(a, a[j], x);
    }
  }

  lemma SubsetContinues(a: seq<Record>, b: seq<Record>, c: seq<Record>)
    requires Continues(a, b) && forall r :: r in c ==> r in b
    ensures Continues(a, c)
  {
  }

  lemma SubsetSound(a: seq<Record>, b: seq<Record>)
    requires AllSound(a) && forall r :: r in b ==> r in a
    ensures AllSound(b)
  {
    hide Sound;
    forall k | 0 <= k < |b| ensures Sound(b[k]) {
      assert b[k] in a;
    }
  }

  lemma CloseAllGood(records: seq<Record>, phase: Phase, head: Text, now: int)
    requires Good(records) && phase != Open
    ensures var r := CloseAll(records, phase, head, now);
            Good(r) && Continues(records, r) && forall k :: 0 <= k < |r| ==> r[k].phase != Open
  {
    var r := CloseAll(records, phase, head, now);
    forall k | 0 <= k < |r| ensures Sound(r[k]) && Follows(records[k], r[k]) {
      assert Sound(records[k]);
    }
    PointwiseContinues(records, r);
  }

  lemma EvictGood(records: seq<Record>, before: seq<Record>, options: Retention, now: int)
    requires Good(records) && Continues(before, records)
    ensures Good(Evict(records, options, now)) && Continues(before, Evict(records, options, now))
  {
    hide Evict, Sound, Unique, OlderFirst;
    EvictUnique(records, options, now);
    EvictKeeps(records, options, now);
    SubsetSound(records, Evict(records, options, now));
    SubsetContinues(before, records, Evict(records, options, now));
  }

  lemma SelfContinues(records: seq<Record>)
    requires Unique(records)
    ensures Continues(records, records)
  {
    PointwiseContinues(records, records);
  }

  lemma PreserveGood(existing: Row, head: Text, now: int, options: Retention)
    requires Good(existing.records)
    ensures var r := PreserveFindingStates(existing, head, now, options);
            Good(r) && Continues(existing.records, r)
  {
    hide Evict, CloseAll, Good, Continues;
    if existing.reviewedHead != Some(head) {
      CloseAllGood(existing.records, Superseded, head, now);
      EvictGood(CloseAll(existing.records, Superseded, head, now), existing.records, options, now);
    } else {
      assert Unique(existing.records) by { GoodIsUnique(existing.records); }
      SelfContinues(existing.records);
      EvictGood(existing.records, existing.records, options, now);
    }
  }

  lemma GoodIsUnique(records: seq<Record>)
    requires Good(records)
    ensures Unique(records)
  {
  }

  lemma SupersedeGood(existing: Row, head: Text, now: int, options: Retention)
    requires Good(existing.records)
    ensures var r := SupersedeOpen(existing, head, now, options);
            Good(r) && Continues(existing.records, r)
  {
    hide Evict, CloseAll, Good, Continues;
    CloseAllGood(existing.records, Superseded, head, now);
    EvictGood(CloseAll(existing.records, Superseded, head, now), existing.records, options, now);
  }

  // ----- merging a report

  lemma FindUnique(records: seq<Record>, r: Record)
    requires Unique(records) && r in records
    ensures Find(records, r.fingerprint) == Some(r)
  {
    var k :| 0 <= k < |records| && records[k] == r;
    assert HasFingerprint(records, r.fingerprint);
    OnlyOne(records, r, Find(records, r.fingerprint).value);
  }

  lemma ObservedGood(records: seq<Record>, reports: seq<Report>, head: Text, now: int)
    requires Good(records) && UniqueReports(reports)
    ensures var r := Observed(records, reports, head, now);
            Good(r) && Continues(records, r)
            && forall k :: 0 <= k < |r| ==> r[k].fingerprint == reports[k].fingerprint && r[k].phase == Open
  {
    var r := Observed(records, reports, head, now);
    forall k | 0 <= k < |r| ensures Sound(r[k]) && r[k].fingerprint == reports[k].fingerprint && r[k].phase == Open {
      ObserveSound(Find(records, reports[k].fingerprint), reports[k], head, now);
    }
    forall b, a | b in records && a in r && a.fingerprint == b.fingerprint ensures Follows(b, a) {
      var k :| 0 <= k < |r| && r[k] == a;
      FindUnique(records, b);
    }
  }

  lemma PreviousGood(existing: Row, head: Text, reports: seq<Report>, phase: Phase, now: int)
    requires Good(existing.records) && phase != Open
    ensures var r := CloseAll(Filter(existing.records, NotReported(reports)), phase, head, now);
            Good(r) && Continues(existing.records, r)
            && forall k :: 0 <= k < |r| ==> !Reported(reports, r[k].fingerprint) && r[k].phase != Open
  {
    hide Sound, Follows, Reported;
    var gone := Filter(existing.records, NotReported(reports));
    FilterUnique(existing.records, NotReported(reports));
    SubsetSound(existing.records, gone);
    CloseAllGood(gone, phase, head, now);
    var r := CloseAll(gone, phase, head, now);
    forall k | 0 <= k < |r| ensures !Reported(reports, r[k].fingerprint) {
      assert gone[k] in gone && r[k].fingerprint == gone[k].fingerprint;
    }
    forall b, a | b in existing.records && a in r && a.fingerprint == b.fingerprint ensures Follows(b, a) {
      var k :| 0 <= k < |r| && r[k] == a;
      assert gone[k] in gone && gone[k] in existing.records && gone[k].fingerprint == b.fingerprint;
      OnlyOne(existing.records, gone[k], b);
    }
  }

  lemma ConcatGood(before: seq<Record>, a: seq<Record>, b: seq<Record>)
    requires Good(a) && Good(b) && Continues(before, a) && Continues(before, b)
    requires forall i, j :: 0 <= i < |a| && 0 <= j < |b| ==> a[i].fingerprint != b[j].fingerprint
    ensures Good(a + b) && Continues(before, a + b)
  {
    hide Sound, Follows;
  }

  lemma CombinedGood(existing: Row, head: Text, reports: seq<Report>, now: int)
    requires Good(existing.records) && UniqueReports(reports)
    ensures Good(Combined(existing, head, reports, now)) && Continues(existing.records, Combined(existing, head, reports, now))
  {
    hide Good, Continues, CloseAll, Observed;
    var phase := if existing.reviewedHead == Some(head) then Resolved else Superseded;
    var previous := CloseAll(Filter(existing.records, NotReported(reports)), phase, head, now);
    var observed := Observed(existing.records, reports, head, now);
    PreviousGood(existing, head, reports, phase, now);
    ObservedGood(existing.records, reports, head, now);
    forall i, j | 0 <= i < |previous| && 0 <= j < |observed| ensures previous[i].fingerprint != observed[j].fingerprint {
      assert reports[j].fingerprint == observed[j].fingerprint;
      assert Reported(reports, observed[j].fingerprint);
    }
    ConcatGood(existing.records, previous, observed);
  }

  lemma MergeGood(existing: Row, head: Text, reports: seq<Report>, now: int, options: Retention)
    requires Good(existing.records) && UniqueReports(reports)
    ensures var r := MergeFindingStates(existing, head, reports, now, options);
            Good(r) && Continues(existing.records, r)
  {
    hide Good, Continues, Combined, Evict;
    CombinedGood(existing, head, reports, now);
    EvictGood(Combined(existing, head, reports, now), existing.records, options, now);
  }

  predicate OpenIn(records: seq<Record>, fingerprint: Text) {
    exists k :: 0 <= k < |records| && records[k].phase == Open && records[k].fingerprint == fingerprint
  }

  function FirstSeenOf(records: seq<Record>, fingerprint: Text, now: int): int {
    match Find(records, fingerprint)
    case Some(r) => r.firstSeenAt
    case None => now
  }

  /** How many records of a merge come from the retained list; the reported ones follow. */
  function GoneCount(existing: Row, reports: seq<Report>): nat {
    |Filter(existing.records, NotReported(reports))|
  }

  lemma ReportedPart(existing: Row, head: Text, reports: seq<Report>, now: int)
    requires Good(existing.records) && UniqueReports(reports)
    ensures var combined := Combined(existing, head, reports, now);
            && |combined| == GoneCount(existing, reports) + |reports|
            && (forall j :: 0 <= j < GoneCount(existing, reports) ==> combined[j].phase != Open)
            && (forall i :: 0 <= i < |reports| ==>
                  combined[GoneCount(existing, reports) + i]
                  == Observe(Find(existing.records, reports[i].fingerprint), reports[i], head, now))
  {
    hide Filter, Find, Observe, Reported, Good;
    PreviousGood(existing, head, reports, if existing.reviewedHead == Some(head) then Resolved else Superseded, now);
  }

  lemma CombinedOpen(existing: Row, head: Text, reports: seq<Report>, now: int, r: Record)
    returns (i: nat)
    requires Good(existing.records) && UniqueReports(reports)
    requires r in Combined(existing, head, reports, now) && r.phase == Open
    ensures i < |reports| && r == Observe(Find(existing.records, reports[i].fingerprint), reports[i], head, now)
  {
    hide Filter, Find, Observe, Good, Combined;
    ReportedPart(existing, head, reports, now);
    var combined := Combined(existing, head, reports, now);
    var j :| 0 <= j < |combined| && combined[j] == r;
    i := j - GoneCount(existing, reports);
    assert combined[GoneCount(existing, reports) + i] == r;
  }

  lemma ObservedIn(existing: Row, head: Text, reports: seq<Report>, now: int, i: nat)
    requires Good(existing.records) && UniqueReports(reports) && i < |reports|
    ensures Observe(Find(existing.records, reports[i].fingerprint), reports[i], head, now)
            in Combined(existing, head, reports, now)
  {
    hide Filter, Find, Observe, Good, Combined;
    ReportedPart(existing, head, reports, now);
    assert Combined(existing, head, reports, now)[GoneCount(existing, reports) + i] in Combined(existing, head, reports, now);
  }

  lemma OpenMember(records: seq<Record>, r: Record)
    requires r in records && r.phase == Open
    ensures OpenIn(records, r.fingerprint)
  {
    var k :| 0 <= k < |records| && records[k] == r;
  }

  /** After a merge the open findings are the reported ones, less those past the absolute ceiling. */
  lemma MergeOpensReported(existing: Row, head: Text, reports: seq<Report>, now: int, options: Retention, fingerprint: Text)
    requires Good(existing.records) && UniqueReports(reports)
    ensures OpenIn(MergeFindingStates(existing, head, reports, now, options), fingerprint) <==>
            && Reported(reports, fingerprint)
            && (options.absoluteMs.Some? ==> FirstSeenOf(existing.records, fingerprint, now) >= now - options.absoluteMs.value)
  {
    hide Evict, Combined, Good, OlderFirst, Find;
    var combined := Combined(existing, head, reports, now);
    var merged := MergeFindingStates(existing, head, reports, now, options);
    EvictKeeps(combined, options, now);
    if OpenIn(merged, fingerprint) {
      var k :| 0 <= k < |merged| && merged[k].phase == Open && merged[k].fingerprint == fingerprint;
      assert merged[k] in merged && merged[k] in combined;
      var i := CombinedOpen(existing, head, reports, now, merged[k]);
      assert reports[i].fingerprint == fingerprint;
    }
    if Reported(reports, fingerprint) {
      var i :| 0 <= i < |reports| && reports[i].fingerprint == fingerprint;
      var r := Observe(Find(existing.records, fingerprint), reports[i], head, now);
      ObservedIn(existing, head, reports, now, i);
      if !PastCeiling(r, options, now) {
        OpenMember(merged, r);
      }
    }
  }

  /** What a merge leaves of a finding that is not reported: a closed record as it was, or an open one
      closed as resolved under the same head and as superseded under another. */
  lemma MergeClosesUnreported(existing: Row, head: Text, reports: seq<Report>, now: int, options: Retention, r: Record)
    requires Good(existing.records) && UniqueReports(reports)
    requires r in MergeFindingStates(existing, head, reports, now, options) && !Reported(reports, r.fingerprint)
    ensures var before := Find(existing.records, r.fingerprint);
            && before.Some?
            && (before.value.phase != Open ==> r == before.value)
            && (before.value.phase == Open ==>
                  r == before.value.(phase := if existing.reviewedHead == Some(head) then Resolved else Superseded,
                                     lastSeenHead := head, lastSeenAt := now, transitions := before.value.transitions + 1))
  {
    hide Evict, Good, Continues, OlderFirst, Filter, Find, Observed, CloseAll, Reported;
    var combined := Combined(existing, head, reports, now);
    var phase := if existing.reviewedHead == Some(head) then Resolved else Superseded;
    var gone := Filter(existing.records, NotReported(reports));
    var previous := CloseAll(gone, phase, head, now);
    ObservedGood(existing.records, reports, head, now);
    EvictKeeps(combined, options, now);
    forall i | |previous| <= i < |combined| ensures Reported(reports, combined[i].fingerprint) {
      assert reports[i - |previous|].fingerprint == combined[i].fingerprint;
      ReportedAt(reports, i - |previous|);
    }
    var j :| 0 <= j < |combined| && combined[j] == r;
    ClosedAt(gone, phase, head, now, j);
    assert gone[j] in gone && gone[j] in existing.records;
    GoodIsUnique(existing.records);
    FindUnique(existing.records, gone[j]);
  }

  /** What a merge leaves of a reported finding: open, with the report's own identity and suggestion, this head
      and time as last seen, the retained first sighting or this one, and the retained outcome unless a fixed
      finding has returned. */
  lemma MergeRecordsReport(existing: Row, head: Text, reports: seq<Report>, now: int, options: Retention, i: nat, r: Record)
    requires Good(existing.records) && UniqueReports(reports) && i < |reports|
    requires r in MergeFindingStates(existing, head, reports, now, options) && r.fingerprint == reports[i].fingerprint
    ensures r.phase == Open && r.identity == reports[i].identity && r.suggestion == reports[i].suggestion
    ensures r.lastSeenHead == head && r.lastSeenAt == now
    ensures Find(existing.records, r.fingerprint).None? ==>
              r.firstSeenHead == head && r.firstSeenAt == now && r.transitions == 0 && r.reappearances == 0
              && r.outcome.None? && r.outcomeAt.None?
    ensures Find(existing.records, r.fingerprint).Some? ==>
              var before := Find(existing.records, r.fingerprint).value;
              && r.firstSeenHead == before.firstSeenHead && r.firstSeenAt == before.firstSeenAt
              && (if before.phase != Open && before.outcome == Some(Fixed) then r.outcome.None? && r.outcomeAt.None?
                  else r.outcome == before.outcome && (r.outcome.Some? ==> r.outcomeAt == before.outcomeAt))
  {
    hide Evict, Combined, Good, OlderFirst, Find;
    var combined := Combined(existing, head, reports, now);
    EvictKeeps(combined, options, now);
    ReportedIsOpen(existing, head, reports, now, i, r);
    var j := CombinedOpen(existing, head, reports, now, r);
    assert reports[j].fingerprint == r.fingerprint;
    assert i == j;
  }

  lemma ReportedIsOpen(existing: Row, head: Text, reports: seq<Report>, now: int, i: nat, r: Record)
    requires Good(existing.records) && UniqueReports(reports) && i < |reports|
    requires r in Combined(existing, head, reports, now) && r.fingerprint == reports[i].fingerprint
    ensures r.phase == Open
  {
    hide Good, Filter, Find, Observed, Reported, Continues, CloseAll;
    var phase := if existing.reviewedHead == Some(head) then Resolved else Superseded;
    PreviousGood(existing, head, reports, phase, now);
    ObservedGood(existing.records, reports, head, now);
    ReportedAt(reports, i);
    var combined := Combined(existing, head, reports, now);
    var k :| 0 <= k < |combined| && combined[k] == r;
  }

  lemma ReportedAt(reports: seq<Report>, i: nat)
    requires i < |reports|
    ensures Reported(reports, reports[i].fingerprint)
  {
  }

  lemma ClosedAt(records: seq<Record>, phase: Phase, head: Text, now: int, j: nat)
    requires j < |records|
    ensures CloseAll(records, phase, head, now)[j] == Close(records[j], phase, head, now)
  {
  }

  /** An open record whose count has grown since the previous list, where an absent one counts zero. */
  predicate Reappeared(previous: seq<Record>, r: Record) {
    r.phase == Open
    && r.reappearances > (match Find(previous, r.fingerprint) case Some(b) => b.reappearances case None => 0)
  }

  predicate WasClosed(previous: seq<Record>, r: Record) {
    r.phase == Open && Find(previous, r.fingerprint).Some? && Find(previous, r.fingerprint).value.phase != Open
  }

  function HasReappeared(previous: seq<Record>): Record -> bool {
    (r: Record) => Reappeared(previous, r)
  }

  function WasClosedIn(previous: seq<Record>): Record -> bool {
    (r: Record) => WasClosed(previous, r)
  }

  function CountReappearances(previous: seq<Record>, merged: seq<Record>): nat {
    |Filter(merged, HasReappeared(previous))|
  }

  /** The regression count of a review is the number of open findings that were closed before it. */
  lemma ReappearancesAreReopenings(existing: Row, head: Text, reports: seq<Report>, now: int, options: Retention)
    requires Good(existing.records) && UniqueReports(reports)
    ensures var merged := MergeFindingStates(existing, head, reports, now, options);
            CountReappearances(existing.records, merged) == |Filter(merged, WasClosedIn(existing.records))|
  {
    hide Find, MergeFindingStates, Good, Filter;
    var merged := MergeFindingStates(existing, head, reports, now, options);
    forall r | r in merged ensures Reappeared(existing.records, r) == WasClosed(existing.records, r) {
      if r.phase == Open {
        ReappearanceMeansReopened(existing, head, reports, now, options, r);
      }
    }
    SameFilter(merged, HasReappeared(existing.records), WasClosedIn(existing.records));
  }

  /** An open record's count has grown exactly when it was closed before. */
  lemma ReappearanceMeansReopened(existing: Row, head: Text, reports: seq<Report>, now: int, options: Retention, r: Record)
    requires Good(existing.records) && UniqueReports(reports)
    requires r in MergeFindingStates(existing, head, reports, now, options) && r.phase == Open
    ensures var before := Find(existing.records, r.fingerprint);
            r.reappearances > (if before.Some? then before.value.reappearances else 0) <==>
            before.Some? && before.value.phase != Open
  {
    hide Evict, Combined, Good, OlderFirst, Find;
    EvictKeeps(Combined(existing, head, reports, now), options, now);
    var i := CombinedOpen(existing, head, reports, now, r);
    assert reports[i].fingerprint == r.fingerprint;
  }

  // ----- outcomes

  lemma MarkFixedGood(previous: seq<Record>, merged: seq<Record>, removed: map<Text, set<nat>>, now: int, before: seq<Record>)
    requires Good(merged) && Continues(before, merged)
    ensures var r := MarkFixed(previous, merged, removed, now);
            Good(r) && Continues(before, r)
  {
    hide WasOpen, Rewritten;
    var r := MarkFixed(previous, merged, removed, now);
    forall k | 0 <= k < |r| ensures Sound(r[k]) {
      assert Sound(merged[k]);
    }
    UniqueByFingerprint(merged, r);
    forall b, a | b in before && a in r && a.fingerprint == b.fingerprint ensures Follows(b, a) {
      var k :| 0 <= k < |r| && r[k] == a;
      assert merged[k] in merged && Follows(b, merged[k]);
    }
  }

  lemma OutcomesGood(records: seq<Record>, o: Observation)
    requires Good(records)
    ensures var r := ApplyFindingOutcome(records, o);
            Good(r) && Continues(records, r)
  {
    var r := ApplyFindingOutcome(records, o);
    forall k | 0 <= k < |r| ensures Sound(r[k]) && Follows(records[k], r[k]) {
      assert Sound(records[k]);
    }
    PointwiseContinues(records, r);
  }

  /** Recording an outcome again changes nothing. */
  lemma RedeliveryChangesNothing(records: seq<Record>, o: Observation)
    ensures ApplyFindingOutcome(ApplyFindingOutcome(records, o), o) == ApplyFindingOutcome(records, o)
  {
    var once := ApplyFindingOutcome(records, o);
    assert forall k :: 0 <= k < |records| ==> WithOutcome(once[k], o) == once[k];
  }

  // ----- runs

  datatype Update =
    | Merged(head: Text, reports: seq<Report>, removed: Option<map<Text, set<nat>>>, now: int)
    | Preserved(head: Text, now: int)
    | Stale(head: Text, now: int)

  function Computed(read: Row, u: Update, options: Retention): Row {
    match u
    case Merged(head, reports, removed, now) =>
      var merged := MergeFindingStates(read, head, reports, now, options);
      Row(Some(head), if removed.Some? then MarkFixed(read.records, merged, removed.value, now) else merged)
    case Preserved(head, now) => Row(read.reviewedHead, PreserveFindingStates(read, head, now, options))
    case Stale(head, now) => Row(read.reviewedHead, SupersedeOpen(read, head, now, options))
  }

  datatype Save = Save(update: Update, options: Retention)

  /** What the review in flight read, and the merge it has saved since, if any. */
  datatype Reading = Reading(row: Row, merged: Option<Save>)

  datatype System = System(row: Row, reading: Option<Reading>)

  datatype Event = Begin | Publish(update: Update, options: Retention) | Abandon | Notice(observation: Observation)

  /** A review ends with its first save, except that a saved merge may yet turn out stale. */
  function After(read: Row, u: Update, options: Retention): Option<Reading> {
    if u.Merged? then Some(Reading(read, Some(Save(u, options)))) else None
  }

  function Saved(read: Row, u: Update, options: Retention, row: Row): Row {
    var computed := Computed(read, u, options);
    computed.(records := CarryRecordedOutcomes(computed.records, row.records))
  }

  ghost predicate Step(s: System, e: Event, t: System) {
    match e
    case Begin => t == s.(reading := Some(Reading(s.row, None)))
    case Publish(u, options) =>
      && s.reading.Some? && (s.reading.value.merged.Some? ==> u.Stale?)
      && (u.Merged? ==> UniqueReports(u.reports))
      && var read := s.reading.value.row;
         t == System(Saved(read, u, options, s.row), After(read, u, options))
    case Abandon => t == s.(reading := None)
    case Notice(o) => t == s.(row := s.row.(records := ApplyFindingOutcome(s.row.records, o)))
  }

  /** Two lists that differ in outcomes only. */
  ghost predicate SameButOutcomes(a: seq<Record>, b: seq<Record>) {
    && |a| == |b|
    && forall k :: 0 <= k < |a| ==> b[k] == a[k].(outcome := b[k].outcome, outcomeAt := b[k].outcomeAt)
  }

  /** Since the review read the row it has changed in its outcomes only, or is the review's own merge,
      outcomes aside. */
  ghost predicate Fresh(reading: Reading, row: seq<Record>) {
    && Good(reading.row.records)
    && match reading.merged
       case None => SameButOutcomes(reading.row.records, row)
       case Some(saved) =>
         && saved.update.Merged? && UniqueReports(saved.update.reports)
         && SameButOutcomes(Computed(reading.row, saved.update, saved.options).records, row)
  }

  ghost predicate Invariant(s: System) {
    Good(s.row.records) && (s.reading.Some? ==> Fresh(s.reading.value, s.row.records))
  }

  lemma ComputedGood(read: Row, u: Update, options: Retention)
    requires Good(read.records) && (u.Merged? ==> UniqueReports(u.reports))
    ensures Good(Computed(read, u, options).records) && Continues(read.records, Computed(read, u, options).records)
  {
    hide Good, Continues, MergeFindingStates, PreserveFindingStates, SupersedeOpen, MarkFixed;
    match u {
      case Merged(head, reports, removed, now) =>
        MergeGood(read, head, reports, now, options);
        if removed.Some? {
          MarkFixedGood(read.records, MergeFindingStates(read, head, reports, now, options), removed.value, now, read.records);
        }
      case Preserved(head, now) => PreserveGood(read, head, now, options);
      case Stale(head, now) => SupersedeGood(read, head, now, options);
    }
  }

  lemma RecordedFound(row: seq<Record>, fingerprint: Text)
    requires Unique(row)
    ensures var source := Find(Filter(row, IsRecorded()), fingerprint);
            && (source.Some? ==> source.value in row && ByAPerson(source.value))
            && forall b :: b in row && b.fingerprint == fingerprint && ByAPerson(b) ==> source == Some(b)
  {
    var recorded := Filter(row, IsRecorded());
    FilterUnique(row, IsRecorded());
    forall b | b in row && b.fingerprint == fingerprint && ByAPerson(b) ensures Find(recorded, fingerprint) == Some(b) {
      assert b in recorded;
      FindUnique(recorded, b);
    }
  }

  ghost predicate DismissalsIn(row: seq<Record>, after: seq<Record>) {
    forall b, a :: b in row && a in after && a.fingerprint == b.fingerprint && b.outcome == Some(Dismissed) ==>
      a.outcome == Some(Dismissed)
  }

  /** Saving over any row keeps the records sound, changes only outcomes of what was computed, and loses
      no dismissal of the row. */
  lemma CarryGood(computed: seq<Record>, row: seq<Record>)
    requires Good(computed) && Good(row)
    ensures var after := CarryRecordedOutcomes(computed, row);
            Good(after) && SameButOutcomes(computed, after) && DismissalsIn(row, after)
  {
    hide Find, Filter;
    var after := CarryRecordedOutcomes(computed, row);
    forall k | 0 <= k < |after| ensures Sound(after[k]) {
      assert Sound(computed[k]);
      RecordedFound(row, computed[k].fingerprint);
    }
    UniqueByFingerprint(computed, after);
    forall b, a | b in row && a in after && a.fingerprint == b.fingerprint && b.outcome == Some(Dismissed)
      ensures a.outcome == Some(Dismissed)
    {
      var k :| 0 <= k < |after| && after[k] == a;
      RecordedFound(row, b.fingerprint);
    }
  }

  /** The record another one differs from in its outcome only. */
  lemma Counterpart(a: seq<Record>, b: seq<Record>, r: Record) returns (origin: Record)
    requires SameButOutcomes(a, b) && r in b
    ensures origin in a && r == origin.(outcome := r.outcome, outcomeAt := r.outcomeAt)
  {
    var k :| 0 <= k < |b| && b[k] == r;
    origin := a[k];
  }

  lemma SameButOutcomesBack(a: seq<Record>, b: seq<Record>)
    requires SameButOutcomes(a, b)
    ensures SameButOutcomes(b, a)
  {
  }

  lemma NoticeSame(a: seq<Record>, b: seq<Record>, o: Observation)
    requires SameButOutcomes(a, b)
    ensures SameButOutcomes(a, ApplyFindingOutcome(b, o))
  {
  }

  /** Every retained fingerprint of the row stands in the read. */
  lemma FromRead(read: Row, u: Update, options: Retention, r: Record)
    returns (origin: Record)
    requires Good(read.records) && !u.Merged? && r in Computed(read, u, options).records
    ensures origin in read.records && origin.fingerprint == r.fingerprint
    ensures u.Stale? ==> r == Close(origin, Superseded, u.head, u.now)
  {
    hide Evict, Good, OlderFirst;
    match u {
      case Preserved(head, now) =>
        var closed := if read.reviewedHead != Some(head) then CloseAll(read.records, Superseded, head, now) else read.records;
        EvictKeeps(closed, options, now);
        var k :| 0 <= k < |closed| && closed[k] == r;
        origin := read.records[k];
      case Stale(head, now) =>
        var closed := CloseAll(read.records, Superseded, head, now);
        EvictKeeps(closed, options, now);
        var k :| 0 <= k < |closed| && closed[k] == r;
        origin := read.records[k];
    }
  }

  // ----- what a merge makes of a record it read

  /** How the counters of a record move from the read to the merge: a reported one that was closed
      reopens, an unreported one that was open closes, and nothing else moves. */
  predicate Moves(before: Record, after: Record) {
    if before.phase != Open && after.phase == Open then
      after.transitions == before.transitions + 1 && after.reappearances == before.reappearances + 1
    else if before.phase == Open && after.phase != Open then
      after.transitions == before.transitions + 1 && after.reappearances == before.reappearances
    else after.transitions == before.transitions && after.reappearances == before.reappearances
  }

  lemma CombinedMoves(existing: Row, head: Text, reports: seq<Report>, now: int, before: Record, after: Record)
    requires Good(existing.records) && UniqueReports(reports)
    requires before in existing.records && after in Combined(existing, head, reports, now)
    requires before.fingerprint == after.fingerprint
    ensures Moves(before, after)
  {
    hide Good, Filter, Find, Observed, Reported;
    GoodIsUnique(existing.records);
    FindUnique(existing.records, before);
    if after.phase == Open {
      var i := CombinedOpen(existing, head, reports, now, after);
      assert reports[i].fingerprint == after.fingerprint;
    } else {
      var phase := if existing.reviewedHead == Some(head) then Resolved else Superseded;
      var gone := Filter(existing.records, NotReported(reports));
      ObservedGood(existing.records, reports, head, now);
      var combined := Combined(existing, head, reports, now);
      var j :| 0 <= j < |combined| && combined[j] == after;
      assert j < |gone|;
      ClosedAt(gone, phase, head, now, j);
      assert gone[j] in gone && gone[j] in existing.records;
      OnlyOne(existing.records, gone[j], before);
    }
  }

  lemma MergedMoves(read: Row, u: Update, options: Retention, before: Record, after: Record)
    requires Good(read.records) && u.Merged? && UniqueReports(u.reports)
    requires before in read.records && after in Computed(read, u, options).records
    requires before.fingerprint == after.fingerprint
    ensures Moves(before, after)
  {
    hide Good, Combined, Evict, OlderFirst, BecomesFixed, Moves;
    var combined := Combined(read, u.head, u.reports, u.now);
    var merged := MergeFindingStates(read, u.head, u.reports, u.now, options);
    EvictKeeps(combined, options, u.now);
    var records := Computed(read, u, options).records;
    var k :| 0 <= k < |records| && records[k] == after;
    assert merged[k] in merged && merged[k] in combined;
    CombinedMoves(read, u.head, u.reports, u.now, before, merged[k]);
    MovesIgnoresOutcome(before, merged[k], after);
  }

  lemma MovesIgnoresOutcome(before: Record, after: Record, other: Record)
    requires Moves(before, after) && other == after.(outcome := other.outcome, outcomeAt := other.outcomeAt)
    ensures Moves(before, other)
  {
  }

  // ----- steps

  /** The save would bring back, still closed, a record the row has open. */
  ghost predicate UndoesReopening(s: System, e: Event) {
    && e.Publish? && e.update.Stale? && s.reading.Some?
    && exists r :: r in s.reading.value.row.records && r.phase != Open
         && r in SupersedeOpen(s.reading.value.row, e.update.head, e.update.now, e.options)
         && OpenIn(s.row.records, r.fingerprint)
  }

  lemma SavedKeeps(reading: Reading, row: Row, u: Update, options: Retention)
    requires Good(row.records) && Fresh(reading, row.records) && (u.Merged? ==> UniqueReports(u.reports))
    requires reading.merged.Some? ==> u.Stale?
    ensures var saved := Saved(reading.row, u, options, row);
            && Good(saved.records) && Retains(row.records, saved.records)
            && SameButOutcomes(Computed(reading.row, u, options).records, saved.records)
  {
    hide Good, CarryRecordedOutcomes, Computed, Unique;
    var read := reading.row;
    ComputedGood(read, u, options);
    CarryGood(Computed(read, u, options).records, row.records);
    var saved := Saved(read, u, options, row);
    if reading.merged.Some? {
      ComputedGood(read, reading.merged.value.update, reading.merged.value.options);
    }
    forall b, a | b in row.records && a in saved.records && a.fingerprint == b.fingerprint ensures Keeps(b, a) {
      var c := Counterpart(Computed(read, u, options).records, saved.records, a);
      if reading.merged.None? {
        var r := Counterpart(read.records, row.records, b);
        assert Follows(r, c);
      } else {
        var merge := reading.merged.value;
        var m := Counterpart(Computed(read, merge.update, merge.options).records, row.records, b);
        var r := FromRead(read, u, options, c);
        assert Follows(r, c) && Follows(r, m);
      }
    }
  }

  /** The first save of a read never takes a counter back. */
  lemma FirstSaveCounts(reading: Reading, row: Row, u: Update, options: Retention)
    requires Good(row.records) && Fresh(reading, row.records) && (u.Merged? ==> UniqueReports(u.reports))
    requires reading.merged.None?
    ensures CountsOn(row.records, Saved(reading.row, u, options, row).records)
  {
    hide Good, CarryRecordedOutcomes, Computed, Unique;
    var read := reading.row;
    ComputedGood(read, u, options);
    SavedKeeps(reading, row, u, options);
    var saved := Saved(read, u, options, row);
    forall b, a | b in row.records && a in saved.records && a.fingerprint == b.fingerprint ensures Counts(b, a) {
      var c := Counterpart(Computed(read, u, options).records, saved.records, a);
      var r := Counterpart(read.records, row.records, b);
      assert Follows(r, c);
    }
  }

  /** One pair of a second save: what the merge left of a record, and what the stale save leaves of it. */
  lemma SecondSavePair(before: Record, merged: Record, stale: Record, head: Text, now: int)
    requires Moves(before, merged) && stale == Close(before, Superseded, head, now)
    ensures Counts(merged, stale) <==> !(before.phase != Open && merged.phase == Open)
  {
  }

  /** The second save of a read takes counters back exactly when it undoes a reopening. */
  lemma SecondSaveCounts(reading: Reading, row: Row, u: Update, options: Retention)
    requires Good(row.records) && Fresh(reading, row.records) && reading.merged.Some? && u.Stale?
    ensures CountsOn(row.records, Saved(reading.row, u, options, row).records) <==>
            !UndoesReopening(System(row, Some(reading)), Publish(u, options))
  {
    hide Good, CarryRecordedOutcomes, Unique, SupersedeOpen, Moves, Counts, SameButOutcomes;
    var read, merge := reading.row, reading.merged.value;
    var merged := Computed(read, merge.update, merge.options).records;
    var stale := SupersedeOpen(read, u.head, u.now, options);
    var saved := Saved(read, u, options, row).records;
    SavedKeeps(reading, row, u, options);
    forall b, a | b in row.records && a in saved && a.fingerprint == b.fingerprint
      ensures Counts(b, a) || UndoesReopening(System(row, Some(reading)), Publish(u, options))
    {
      SecondSaveAt(reading, row, u, options, b, a);
    }
    if r :| r in read.records && r.phase != Open && r in stale && OpenIn(row.records, r.fingerprint) {
      SecondSaveShrinks(reading, row, u, options, r);
    }
  }

  lemma SecondSaveAt(reading: Reading, row: Row, u: Update, options: Retention, b: Record, a: Record)
    requires Good(row.records) && Fresh(reading, row.records) && reading.merged.Some? && u.Stale?
    requires b in row.records && a in Saved(reading.row, u, options, row).records && a.fingerprint == b.fingerprint
    ensures Counts(b, a) || UndoesReopening(System(row, Some(reading)), Publish(u, options))
  {
    hide Good, CarryRecordedOutcomes, Computed, Unique, Moves, SameButOutcomes;
    var read, merge := reading.row, reading.merged.value;
    SavedKeeps(reading, row, u, options);
    var c := Counterpart(Computed(read, u, options).records, Saved(read, u, options, row).records, a);
    var m := Counterpart(Computed(read, merge.update, merge.options).records, row.records, b);
    var r := FromRead(read, u, options, c);
    MergedMoves(read, merge.update, merge.options, r, m);
    SecondSavePair(r, m, c, u.head, u.now);
    if r.phase != Open && m.phase == Open {
      StaleComputed(read, u, options);
      OpenMember(row.records, b);
    }
  }

  lemma StaleComputed(read: Row, u: Update, options: Retention)
    requires u.Stale?
    ensures Computed(read, u, options).records == SupersedeOpen(read, u.head, u.now, options)
  {
  }

  lemma SecondSaveShrinks(reading: Reading, row: Row, u: Update, options: Retention, r: Record)
    requires Good(row.records) && Fresh(reading, row.records) && reading.merged.Some? && u.Stale?
    requires r in reading.row.records && r.phase != Open && r in SupersedeOpen(reading.row, u.head, u.now, options)
    requires OpenIn(row.records, r.fingerprint)
    ensures !CountsOn(row.records, Saved(reading.row, u, options, row).records)
  {
    hide Good, CarryRecordedOutcomes, Computed, Unique, Moves, SameButOutcomes;
    var read, merge := reading.row, reading.merged.value;
    var saved := Saved(read, u, options, row).records;
    SavedKeeps(reading, row, u, options);
    StaleComputed(read, u, options);
    SameButOutcomesBack(Computed(read, u, options).records, saved);
    var a := Counterpart(saved, Computed(read, u, options).records, r);
    var k :| 0 <= k < |row.records| && row.records[k].phase == Open && row.records[k].fingerprint == r.fingerprint;
    var b := row.records[k];
    var m := Counterpart(Computed(read, merge.update, merge.options).records, row.records, b);
    MergedMoves(read, merge.update, merge.options, r, m);
    SecondSavePair(r, m, r, u.head, u.now);
    assert b in row.records && a in saved && !Counts(b, a);
  }

  /** Before a second save nothing the read has closed is open in the row. */
  lemma FirstSaveUndoesNothing(reading: Reading, row: Row, u: Update, options: Retention)
    requires Good(row.records) && Fresh(reading, row.records) && reading.merged.None?
    ensures !UndoesReopening(System(row, Some(reading)), Publish(u, options))
  {
    hide SupersedeOpen, Sound;
    var read := reading.row.records;
    forall r | r in read && r.phase != Open ensures !OpenIn(row.records, r.fingerprint) {
      if OpenIn(row.records, r.fingerprint) {
        var k :| 0 <= k < |row.records| && row.records[k].phase == Open && row.records[k].fingerprint == r.fingerprint;
        assert read[k] in read && read[k].fingerprint == r.fingerprint;
        OnlyOne(read, read[k], r);
      }
    }
  }

  lemma ContinuesBoth(before: seq<Record>, after: seq<Record>)
    ensures Continues(before, after) <==> Retains(before, after) && CountsOn(before, after)
  {
    if Continues(before, after) {
      forall b, a | b in before && a in after && a.fingerprint == b.fingerprint ensures Keeps(b, a) && Counts(b, a) {
        assert Follows(b, a);
      }
    }
  }

  /** Every step keeps the invariant, first sightings and dismissals; it keeps the counters exactly when
      it does not undo a reopening. */
  lemma StepKeeps(s: System, e: Event, t: System)
    requires Invariant(s) && Step(s, e, t)
    ensures Invariant(t) && Retains(s.row.records, t.row.records)
    ensures CountsOn(s.row.records, t.row.records) <==> !UndoesReopening(s, e)
  {
    hide Good, Continues, Retains, CountsOn, Saved, Computed, Unique, UndoesReopening, SameButOutcomes;
    match e {
      case Begin => StandingStill(s);
      case Abandon => StandingStill(s);
      case Publish(u, options) =>
        var reading := s.reading.value;
        SavedKeeps(reading, s.row, u, options);
        if reading.merged.None? {
          FirstSaveCounts(reading, s.row, u, options);
          FirstSaveUndoesNothing(reading, s.row, u, options);
        } else {
          SecondSaveCounts(reading, s.row, u, options);
        }
        assert s == System(s.row, Some(reading)) && e == Publish(u, options);
      case Notice(o) => NoticeKeeps(s, o);
    }
  }

  lemma StandingStill(s: System)
    requires Invariant(s)
    ensures Retains(s.row.records, s.row.records) && CountsOn(s.row.records, s.row.records)
    ensures SameButOutcomes(s.row.records, s.row.records)
    ensures forall e: Event :: !e.Publish? ==> !UndoesReopening(s, e)
  {
    SelfContinues(s.row.records);
    ContinuesBoth(s.row.records, s.row.records);
  }

  lemma NoticeKeeps(s: System, o: Observation)
    requires Invariant(s)
    ensures var t := s.(row := s.row.(records := ApplyFindingOutcome(s.row.records, o)));
            Invariant(t) && Retains(s.row.records, t.row.records) && CountsOn(s.row.records, t.row.records)
    ensures !UndoesReopening(s, Notice(o))
  {
    hide Good, Computed, Continues, Retains, CountsOn, SameButOutcomes, ApplyFindingOutcome;
    OutcomesGood(s.row.records, o);
    ContinuesBoth(s.row.records, ApplyFindingOutcome(s.row.records, o));
    if s.reading.Some? {
      var reading := s.reading.value;
      NoticeSame(if reading.merged.None? then reading.row.records
                 else Computed(reading.row, reading.merged.value.update, reading.merged.value.options).records,
                 s.row.records, o);
    }
  }

  /** A stale save leaves, outcomes aside, what it would have left had the merge never been saved; no
      finding first reported by that merge survives it. */
  lemma StaleErasesMerge(s: System, u: Update, options: Retention, t: System)
    requires Invariant(s) && Step(s, Publish(u, options), t) && u.Stale?
    ensures var read := s.reading.value.row;
            && SameButOutcomes(SupersedeOpen(read, u.head, u.now, options), t.row.records)
            && t.row.reviewedHead == read.reviewedHead
            && forall f :: HasFingerprint(t.row.records, f) ==> HasFingerprint(read.records, f)
  {
    hide Good, CarryRecordedOutcomes, Unique, SupersedeOpen;
    var read := s.reading.value.row;
    SavedKeeps(s.reading.value, s.row, u, options);
    forall f | HasFingerprint(t.row.records, f) ensures HasFingerprint(read.records, f) {
      var k :| 0 <= k < |t.row.records| && t.row.records[k].fingerprint == f;
      var c := Counterpart(Computed(read, u, options).records, t.row.records, t.row.records[k]);
      var r := FromRead(read, u, options, c);
    }
  }

  // ----- runs

  ghost predicate IsRun(states: seq<System>, events: seq<Event>) {
    && |states| == |events| + 1 && states[0] == System(Row(None, []), None)
    && forall k :: 0 <= k < |events| ==> Step(states[k], events[k], states[k + 1])
  }

  /** In every run every stored record is sound and fingerprints stay distinct. */
  lemma {:induction false} RunIsSound(states: seq<System>, events: seq<Event>, k: nat)
    requires IsRun(states, events) && k < |states|
    ensures Invariant(states[k])
    decreases k
  {
    hide Step, UndoesReopening, Fresh;
    if k > 0 {
      RunIsSound(states, events, k - 1);
      assert Step(states[k - 1], events[k - 1], states[k - 1 + 1]);
      StepKeeps(states[k - 1], events[k - 1], states[k]);
    }
  }

  /** The same of every step of every run: what is retained, and exactly when the counters count on. */
  lemma RunStep(states: seq<System>, events: seq<Event>, k: nat)
    requires IsRun(states, events) && k < |events|
    ensures Retains(states[k].row.records, states[k + 1].row.records)
    ensures CountsOn(states[k].row.records, states[k + 1].row.records) <==> !UndoesReopening(states[k], events[k])
  {
    hide Step, UndoesReopening, Invariant;
    RunIsSound(states, events, k);
    StepKeeps(states[k], events[k], states[k + 1]);
  }

  ghost predicate RetainedThroughout(states: seq<System>, i: nat, k: nat, fingerprint: Text)
    requires i <= k < |states|
  {
    forall j :: i <= j <= k ==> HasFingerprint(states[j].row.records, fingerprint)
  }

  /** In every run, while a fingerprint stays retained its first sighting is fixed and a dismissal is never
      lost. */
  lemma {:induction false} RetainedKeeps(
      states: seq<System>, events: seq<Event>, i: nat, k: nat, before: Record, after: Record)
    requires IsRun(states, events) && i <= k < |states|
    requires before in states[i].row.records && after in states[k].row.records
    requires after.fingerprint == before.fingerprint
    requires RetainedThroughout(states, i, k, before.fingerprint)
    ensures Keeps(before, after)
    decreases k
  {
    hide Step, UndoesReopening, Fresh;
    if i == k {
      RunIsSound(states, events, i);
      OnlyOne(states[i].row.records, before, after);
    } else {
      var middle := Find(states[k - 1].row.records, before.fingerprint).value;
      RetainedKeeps(states, events, i, k - 1, before, middle);
      RunStep(states, events, k - 1);
    }
  }

  /** Its counters never go back either, as long as no save in between undoes a reopening. */
  lemma {:induction false} RetainedFollows(
      states: seq<System>, events: seq<Event>, i: nat, k: nat, before: Record, after: Record)
    requires IsRun(states, events) && i <= k < |states|
    requires before in states[i].row.records && after in states[k].row.records
    requires after.fingerprint == before.fingerprint
    requires RetainedThroughout(states, i, k, before.fingerprint)
    requires forall j :: i <= j < k ==> !UndoesReopening(states[j], events[j])
    ensures Follows(before, after)
    decreases k
  {
    hide Step, UndoesReopening, Fresh;
    RetainedKeeps(states, events, i, k, before, after);
    if i == k {
      RunIsSound(states, events, i);
      OnlyOne(states[i].row.records, before, after);
    } else {
      var middle := Find(states[k - 1].row.records, before.fingerprint).value;
      RetainedFollows(states, events, i, k - 1, before, middle);
      RunStep(states, events, k - 1);
    }
  }

  // ----- a run in which a counter goes back

  /** Records within the window and the cap all stay. */
  lemma EvictFits(records: seq<Record>, options: Retention, now: int)
    requires Unique(records) && |records| <= options.limit
    requires forall r :: r in records ==> !PastCeiling(r, options, now) && !Expired(r, options, now)
    ensures Evict(records, options, now) == records
  {
    hide Sort, PastCeiling, Expired;
    KeepsAll(records, Survives(options, now));
    FilterPartition(records);
    OldestOrdered(records, options, now);
    var oldest := OldestFirst(records, options, now);
    OlderFirstIsTotal();
    SortPermutes(Filter(records, IsTerminal()), OlderFirst);
    FilterNone(oldest, IsExpired(options, now));
    KeepsAll(records, NotAmong([]));
    assert oldest[..0] == [];
  }

  lemma {:induction false} FilterNone(records: seq<Record>, keep: Record -> bool)
    requires forall r :: r in records ==> !keep(r)
    ensures Filter(records, keep) == []
    decreases |records|
  {
    if records != [] {
      var n := |records| - 1;
      assert records == records[..n] + [records[n]];
      FilterNone(records[..n], keep);
    }
  }

  /** With no outcome by a person in the row, what was computed is what is saved. */
  lemma CarryNothing(computed: seq<Record>, row: seq<Record>)
    requires forall r :: r in row ==> !ByAPerson(r)
    ensures CarryRecordedOutcomes(computed, row) == computed
  {
    FilterNone(row, IsRecorded());
  }

  const KEPT: Retention := Retention(10, 100, None)

  predicate FitsAt(records: seq<Record>, now: int) {
    |records| <= 1 && forall r :: r in records ==> !Expired(r, KEPT, now) && !ByAPerson(r)
  }

  lemma MergeSaves(read: Row, u: Update, records: seq<Record>)
    requires u.Merged? && u.removed.None? && Combined(read, u.head, u.reports, u.now) == records
    requires FitsAt(records, u.now) && FitsAt(read.records, u.now)
    ensures Saved(read, u, KEPT, read) == Row(Some(u.head), records)
  {
    hide Evict, CarryRecordedOutcomes, Combined, Expired;
    EvictFits(records, KEPT, u.now);
    CarryNothing(records, read.records);
  }

  lemma StaleSaves(read: Row, u: Update, row: Row)
    requires u.Stale? && forall r :: r in read.records ==> r.phase != Open
    requires FitsAt(read.records, u.now) && FitsAt(row.records, u.now)
    ensures Saved(read, u, KEPT, row) == read
  {
    hide Evict, CarryRecordedOutcomes, Expired;
    assert CloseAll(read.records, Superseded, u.head, u.now) == read.records;
    EvictFits(read.records, KEPT, u.now);
    CarryNothing(read.records, row.records);
  }

  lemma ReportsOne(retained: Option<Record>, f: Report, head: Text, now: int, reviewed: Option<Text>)
    requires retained.Some? ==> retained.value.fingerprint == f.fingerprint
    ensures Combined(Row(reviewed, if retained.Some? then [retained.value] else []), head, [f], now)
         == [Observe(retained, f, head, now)]
  {
    var records := if retained.Some? then [retained.value] else [];
    assert Reported([f], f.fingerprint) by { assert [f][0].fingerprint == f.fingerprint; }
    FilterNone(records, NotReported([f]));
    if retained.Some? {
      FindUnique(records, retained.value);
    }
  }

  lemma ReportsNone(r: Record, head: Text, now: int, reviewed: Option<Text>)
    requires reviewed != Some(head)
    ensures Combined(Row(reviewed, [r]), head, [], now) == [Close(r, Superseded, head, now)]
  {
    KeepsAll([r], NotReported([]));
  }

  /** One finding is reported, not reported under the next head, reported again under a third, and that
      third head moves before the review ends: the counters 2 and 1 of the saved merge become 1 and 0. */
  lemma ReopeningUndone(f: Report) returns (states: seq<System>, events: seq<Event>)
    ensures IsRun(states, events) && |events| == 7
    ensures var merged, last := states[6].row.records, states[7].row.records;
            && |merged| == 1 && merged[0].fingerprint == f.fingerprint && merged[0].phase == Open
            && merged[0].transitions == 2 && merged[0].reappearances == 1
            && |last| == 1 && last[0].fingerprint == f.fingerprint && last[0].phase == Superseded
            && last[0].transitions == 1 && last[0].reappearances == 0
  {
    hide Saved, Combined;
    var first, second, third := Merged([49], [f], None, 0), Merged([50], [], None, 1), Merged([51], [f], None, 2);
    var stale := Stale([51], 3);
    var r1 := Observe(None, f, [49], 0);
    var r2 := Close(r1, Superseded, [50], 1);
    var r3 := Observe(Some(r2), f, [51], 2);
    var row0, row1, row2, row3 := Row(None, []), Row(Some([49]), [r1]), Row(Some([50]), [r2]), Row(Some([51]), [r3]);
    ReportsOne(None, f, [49], 0, None);
    MergeSaves(row0, first, [r1]);
    assert [49 as CodeUnit] != [50];
    ReportsNone(r1, [50], 1, Some([49]));
    MergeSaves(row1, second, [r2]);
    ReportsOne(Some(r2), f, [51], 2, Some([50]));
    MergeSaves(row2, third, [r3]);
    StaleSaves(row2, stale, row3);
    events := [Begin, Publish(first, KEPT), Begin, Publish(second, KEPT), Begin, Publish(third, KEPT), Publish(stale, KEPT)];
    states := [System(row0, None), System(row0, Some(Reading(row0, None))),
               System(row1, After(row0, first, KEPT)), System(row1, Some(Reading(row1, None))),
               System(row2, After(row1, second, KEPT)), System(row2, Some(Reading(row2, None))),
               System(row3, After(row2, third, KEPT)), System(row2, None)];
  }
}
