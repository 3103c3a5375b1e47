/** The watermarked merge of scanner runs. */
module FindingsLifecycle {
  /**
   Source: apps/control-plane/src/findings-lifecycle.ts:401-410, 461-659.

   The store is a class with the records and stream watermarks of one repository.  Its
   ingest is proved against a step relation on states, which says what one delivery does to
   each stream.
   */
  import opened Wrappers
  import opened Texts
  import opened FindingRecords
  import opened Observations

  // ----- runs

  /** An unparsable start counts as zero; ties fall to the run id and then the attempt. */
  datatype RunOrder = RunOrder(startedAt: int, runId: int, runAttempt: int)

  function CompareRunOrder(left: RunOrder, right: RunOrder): int {
    if left.startedAt != right.startedAt then left.startedAt - right.startedAt
    else if left.runId != right.runId then left.runId - right.runId
    else left.runAttempt - right.runAttempt
  }

  /** A later start is newer whatever the ids; equal starts go by the greater run id and then by the greater
      attempt. */
  predicate Newer(a: RunOrder, b: RunOrder) {
    || a.startedAt > b.startedAt
    || (a.startedAt == b.startedAt && a.runId > b.runId)
    || (a.startedAt == b.startedAt && a.runId == b.runId && a.runAttempt > b.runAttempt)
  }

  lemma CompareMeansNewer(a: RunOrder, b: RunOrder)
    ensures CompareRunOrder(a, b) > 0 <==> Newer(a, b)
    ensures CompareRunOrder(a, b) < 0 <==> Newer(b, a)
  {
  }

  lemma RunOrderIsTotal(a: RunOrder, b: RunOrder, c: RunOrder)
    ensures CompareRunOrder(a, b) == 0 <==> a == b
    ensures CompareRunOrder(a, b) > 0 <==> Newer(a, b)
    ensures !(Newer(a, b) && Newer(b, a)) && (!Newer(a, b) && !Newer(b, a) <==> a == b)
    ensures !Newer(b, a) && !Newer(c, b) ==> !Newer(c, a)
  {
  }

  datatype Event = Push | Schedule | PullRequest | OtherEvent

  /** Where a run comes from, and the repository it reports on. */
  datatype Origin = Origin(event: Event, headBranch: Text, defaultBranch: Text, active: bool)

  predicate IsTrustedLifecycleRun(o: Origin) {
    o.active && (o.event.Push? || o.event.Schedule?) && o.headBranch == o.defaultBranch
  }

  datatype Suppression = Suppression(expiresAt: Option<int>, riskAccepted: bool)

  /** One delivery of a run, with the policy and clock it is merged under. */
  datatype Run = Run(
    order: RunOrder,
    observedAt: int,
    now: int,
    slaDays: map<Severity, int>,
    suppressions: map<Text, Suppression>)

  const DAY_MS := 24 * 60 * 60_000

  function ActiveSuppression(run: Run, fingerprint: Text): Option<Status> {
    if fingerprint !in run.suppressions then None
    else
      var s := run.suppressions[fingerprint];
      if s.expiresAt.None? || s.expiresAt.value <= run.now then None
      else Some(if s.riskAccepted then RiskAccepted else Suppressed)
  }

  function SlaDueAt(severity: Severity, openedAt: int, slaDays: map<Severity, int>): Option<int> {
    if severity in slaDays then Some(openedAt + slaDays[severity] * DAY_MS) else None
  }

  // ----- one finding, one observation, one run

  /** A new record, or the known one; a fixed root cause that returns starts a new episode. */
  function Reopened(records: Table, finding: Finding, run: Run): Record {
    if finding.fingerprint !in records then
      Record(finding.fingerprint, finding.detail, finding.severity, Open, map[],
             run.observedAt, run.observedAt, run.observedAt, None, None,
             run.order.runId, run.order.runAttempt, false)
    else
      var known := records[finding.fingerprint];
      if known.streams.Keys == {} then known.(openedAt := run.observedAt, fixedAt := None) else known
  }

  function Observed(record: Record, stream: Text, finding: Finding, run: Run): Record {
    record.(detail := finding.detail,
            severity := finding.severity,
            streams := record.streams[stream := run.observedAt],
            lastSeenAt := Max(record.lastSeenAt, run.observedAt),
            lastRunId := run.order.runId,
            lastRunAttempt := run.order.runAttempt)
  }

  function See(records: Table, stream: Text, finding: Finding, run: Run): Table {
    records[finding.fingerprint := Observed(Reopened(records, finding, run), stream, finding, run)]
  }

  function SeeAll(records: Table, stream: Text, findings: seq<Finding>, run: Run): Table {
    if findings == [] then records
    else See(SeeAll(records, stream, findings[..|findings| - 1], run), stream, findings[|findings| - 1], run)
  }

  function WithoutStream(record: Record, stream: Text): Record {
    record.(streams := record.streams - {stream})
  }

  /** A complete observation takes the stream off every record it no longer reports. */
  function Forget(records: Table, stream: Text, seen: set<Text>): Table {
    map f | f in records :: if f in seen then records[f] else WithoutStream(records[f], stream)
  }

  function ApplyObservation(records: Table, o: Observation, run: Run): Table {
    var seen := SeeAll(records, o.stream, o.findings, run);
    if o.complete then Forget(seen, o.stream, Fingerprints(o.findings)) else seen
  }

  function ApplyAll(records: Table, accepted: seq<Observation>, run: Run): Table {
    if accepted == [] then records
    else ApplyObservation(ApplyAll(records, accepted[..|accepted| - 1], run), accepted[|accepted| - 1], run)
  }

  function SettledRecord(record: Record, run: Run): Record {
    var due := SlaDueAt(record.severity, record.openedAt, run.slaDays);
    if record.streams.Keys == {} then
      var since := if record.status != Fixed || record.fixedAt.None? then Some(run.observedAt) else record.fixedAt;
      record.(status := Fixed, fixedAt := since, slaDueAt := due)
    else
      record.(status := ActiveSuppression(run, record.fingerprint).GetOr(Open), fixedAt := None, slaDueAt := due)
  }

  function Settle(records: Table, run: Run): Table {
    map f | f in records :: SettledRecord(records[f], run)
  }

  // ----- states and steps

  datatype State = State(records: Table, watermarks: map<Text, RunOrder>)

  predicate Fresh(watermarks: map<Text, RunOrder>, stream: Text, order: RunOrder) {
    stream !in watermarks || CompareRunOrder(order, watermarks[stream]) >= 0
  }

  /** A newer run has decided the stream. */
  predicate Outdated(watermarks: map<Text, RunOrder>, stream: Text, order: RunOrder) {
    stream in watermarks && Newer(watermarks[stream], order)
  }

  lemma FreshMeansNotOutdated(watermarks: map<Text, RunOrder>, stream: Text, order: RunOrder)
    ensures Fresh(watermarks, stream, order) <==> !Outdated(watermarks, stream, order)
  {
  }

  /** The observations whose stream no newer run has decided. */
  function Accepted(merged: seq<Observation>, watermarks: map<Text, RunOrder>, order: RunOrder): seq<Observation> {
    if merged == [] then []
    else
      var init, last := Accepted(merged[..|merged| - 1], watermarks, order), merged[|merged| - 1];
      if Fresh(watermarks, last.stream, order) then init + [last] else init
  }

  function Advance(watermarks: map<Text, RunOrder>, accepted: seq<Observation>, order: RunOrder): map<Text, RunOrder> {
    if accepted == [] then watermarks
    else Advance(watermarks, accepted[..|accepted| - 1], order)[accepted[|accepted| - 1].stream := order]
  }

  function Merge(observations: seq<Observation>): seq<Observation> {
    MergedStreams(observations, StreamOrder(observations))
  }

  /** What one delivery of a trusted run may do to the stored state. */
  ghost predicate Ingested(s: State, observations: seq<Observation>, run: Run, s': State,
                           retired: set<Text>, dropped: set<Text>)
  {
    var accepted := Accepted(Merge(observations), s.watermarks, run.order);
    if accepted == [] then
      s' == s && retired == {} && dropped == {}
    else
      && Evicts(Settle(ApplyAll(s.records, accepted, run), run), MAX_FINDING_LIFECYCLE_RECORDS,
                s'.records, retired, dropped)
      && s'.watermarks == Advance(s.watermarks, accepted, run.order)
  }

  // ----- invariants of one step

  /** Records are keyed by fingerprint and fixed exactly when no stream reports them. */
  ghost predicate Consistent(records: Table) {
    forall f :: f in records ==>
      records[f].fingerprint == f && (records[f].status == Fixed <==> records[f].streams.Keys == {})
  }

  ghost function Carriers(records: Table, stream: Text): set<Text> {
    set f | f in records && stream in records[f].streams
  }

  lemma {:induction false} SeeAllCarries(records: Table, stream: Text, findings: seq<Finding>, run: Run, t: Text)
    ensures Carriers(SeeAll(records, stream, findings, run), t)
         == Carriers(records, t) + (if t == stream then Fingerprints(findings) else {})
    decreases |findings|
  {
    if findings == [] {
      assert Fingerprints([]) == {};
    } else {
      var init, last := findings[..|findings| - 1], findings[|findings| - 1];
      SeeAllCarries(records, stream, init, run, t);
      SeeCarries(SeeAll(records, stream, init, run), stream, last, run, t);
      assert findings == init + [last];
      assert Fingerprints(findings) == Fingerprints(init) + {last.fingerprint};
    }
  }

  lemma SeeCarries(records: Table, stream: Text, finding: Finding, run: Run, t: Text)
    ensures Carriers(See(records, stream, finding, run), t)
         == Carriers(records, t) + (if t == stream then {finding.fingerprint} else {})
  {
    var f := finding.fingerprint;
    assert t in Reopened(records, finding, run).streams <==> f in records && t in records[f].streams;
  }

  lemma ObservationCarries(records: Table, o: Observation, run: Run, t: Text)
    ensures Carriers(ApplyObservation(records, o, run), t)
         == if t != o.stream then Carriers(records, t)
            else if o.complete then Fingerprints(o.findings)
            else Carriers(records, t) + Fingerprints(o.findings)
  {
    SeeAllCarries(records, o.stream, o.findings, run, t);
  }

  ghost predicate DistinctStreams(merged: seq<Observation>) {
    forall i, j :: 0 <= i < j < |merged| ==> merged[i].stream != merged[j].stream
  }

  ghost predicate Names(merged: seq<Observation>, t: Text) {
    exists i :: 0 <= i < |merged| && merged[i].stream == t
  }

  lemma {:induction false} UnnamedStreamUntouched(records: Table, merged: seq<Observation>, run: Run, t: Text)
    requires !Names(merged, t)
    ensures Carriers(ApplyAll(records, merged, run), t) == Carriers(records, t)
    decreases |merged|
  {
    if merged != [] {
      var init, last := merged[..|merged| - 1], merged[|merged| - 1];
      assert forall i :: 0 <= i < |init| ==> init[i] == merged[i];
      UnnamedStreamUntouched(records, init, run, t);
      ObservationCarries(ApplyAll(records, init, run), last, run, t);
    }
  }

  lemma {:induction false} NamedStreamReplaced(records: Table, merged: seq<Observation>, run: Run, k: nat)
    requires k < |merged| && DistinctStreams(merged)
    ensures Carriers(ApplyAll(records, merged, run), merged[k].stream)
         == if merged[k].complete then Fingerprints(merged[k].findings)
            else Carriers(records, merged[k].stream) + Fingerprints(merged[k].findings)
    decreases |merged|
  {
    var init, last := merged[..|merged| - 1], merged[|merged| - 1];
    assert forall i :: 0 <= i < |init| ==> init[i] == merged[i];
    ObservationCarries(ApplyAll(records, init, run), last, run, merged[k].stream);
    if k == |merged| - 1 {
      UnnamedStreamUntouched(records, init, run, last.stream);
    } else {
      NamedStreamReplaced(records, init, run, k);
    }
  }

  lemma {:induction false} AcceptedSubset(merged: seq<Observation>, watermarks: map<Text, RunOrder>, order: RunOrder)
    requires DistinctStreams(merged)
    ensures DistinctStreams(Accepted(merged, watermarks, order))
    ensures forall o :: o in Accepted(merged, watermarks, order) <==> o in merged && Fresh(watermarks, o.stream, order)
    decreases |merged|
  {
    if merged != [] {
      var init, last := merged[..|merged| - 1], merged[|merged| - 1];
      assert merged == init + [last];
      assert forall i :: 0 <= i < |init| ==> init[i] == merged[i];
      AcceptedSubset(init, watermarks, order);
      var a := Accepted(init, watermarks, order);
      forall i | 0 <= i < |a| ensures a[i].stream != last.stream {
        assert a[i] in a;
        assert a[i] in init;
      }
    }
  }

  lemma {:induction false} AdvanceSets(watermarks: map<Text, RunOrder>, accepted: seq<Observation>, order: RunOrder, t: Text)
    ensures var w := Advance(watermarks, accepted, order);
            if Names(accepted, t) then t in w && w[t] == order
            else (t in w <==> t in watermarks) && (t in w ==> w[t] == watermarks[t])
    decreases |accepted|
  {
    if accepted != [] {
      var init, last := accepted[..|accepted| - 1], accepted[|accepted| - 1];
      assert forall i :: 0 <= i < |init| ==> init[i] == accepted[i];
      AdvanceSets(watermarks, init, order, t);
      assert Names(accepted, t) <==> Names(init, t) || last.stream == t;
    }
  }

  lemma SettleKeepsCarriers(records: Table, run: Run, t: Text)
    ensures Carriers(Settle(records, run), t) == Carriers(records, t)
  {
  }

  /** Retiring fixed records takes nothing from any stream; only a drop could. */
  lemma EvictionKeepsCarriers(table: Table, kept: Table, retired: set<Text>, dropped: set<Text>, t: Text)
    requires Consistent(table) && Evicts(table, MAX_FINDING_LIFECYCLE_RECORDS, kept, retired, dropped)
    ensures Carriers(kept, t) == Carriers(table, t) - dropped
  {
    assert retired <= RetirableKeys(table);
    assert Carriers(table, t) !! RetirableKeys(table);
  }

  lemma {:induction false} SeeAllKeyed(records: Table, stream: Text, findings: seq<Finding>, run: Run)
    requires Keyed(records)
    ensures Keyed(SeeAll(records, stream, findings, run))
    decreases |findings|
  {
    if findings != [] {
      SeeAllKeyed(records, stream, findings[..|findings| - 1], run);
    }
  }

  lemma {:induction false} ApplyAllKeyed(records: Table, accepted: seq<Observation>, run: Run)
    requires Keyed(records)
    ensures Keyed(ApplyAll(records, accepted, run))
    decreases |accepted|
  {
    if accepted != [] {
      var o := accepted[|accepted| - 1];
      ApplyAllKeyed(records, accepted[..|accepted| - 1], run);
      SeeAllKeyed(ApplyAll(records, accepted[..|accepted| - 1], run), o.stream, o.findings, run);
    }
  }

  lemma SettleConsistent(records: Table, run: Run)
    requires Keyed(records)
    ensures Consistent(Settle(records, run))
  {
  }

  lemma MergeDistinct(observations: seq<Observation>)
    ensures DistinctStreams(Merge(observations))
    ensures forall t :: Names(Merge(observations), t) ==> Merged(observations, t) in Merge(observations)
    ensures forall o :: o in Merge(observations) ==> o == Merged(observations, o.stream)
  {
    var streams := StreamOrder(observations);
    StreamOrderUnique(observations);
    if streams != [] {
      forall k: nat | k < |streams|
        ensures |Merge(observations)| == |streams| && Merge(observations)[k] == Merged(observations, streams[k])
      {
        MergedStreamsAt(observations, streams, k);
      }
      assert |Merge(observations)| == |streams| by {
        MergedStreamsAt(observations, streams, 0);
      }
    }
  }

  lemma EvictedConsistent(table: Table, bound: nat, kept: Table, retired: set<Text>, dropped: set<Text>)
    requires Consistent(table) && Evicts(table, bound, kept, retired, dropped)
    ensures Consistent(kept)
  {
    hide Retires, Drops;
  }

  lemma StepConsistent(s: State, observations: seq<Observation>, run: Run, s': State, retired: set<Text>, dropped: set<Text>)
    requires Consistent(s.records) && Ingested(s, observations, run, s', retired, dropped)
    ensures Consistent(s'.records)
  {
    hide Settle, Advance, ApplyAll, Merge, Accepted, Evicts;
    var accepted := Accepted(Merge(observations), s.watermarks, run.order);
    if accepted != [] {
      var applied := ApplyAll(s.records, accepted, run);
      ApplyAllKeyed(s.records, accepted, run);
      SettleConsistent(applied, run);
      EvictedConsistent(Settle(applied, run), MAX_FINDING_LIFECYCLE_RECORDS, s'.records, retired, dropped);
    }
  }

  lemma WatermarksRise(watermarks: map<Text, RunOrder>, observations: seq<Observation>, order: RunOrder)
    ensures var after := Advance(watermarks, Accepted(Merge(observations), watermarks, order), order);
            forall t :: t in watermarks ==> t in after && !Newer(watermarks[t], after[t])
  {
    hide Advance, Merge, Accepted;
    var merged := Merge(observations);
    var accepted := Accepted(merged, watermarks, order);
    MergeDistinct(observations);
    AcceptedSubset(merged, watermarks, order);
    forall t | t in watermarks
      ensures t in Advance(watermarks, accepted, order) && !Newer(watermarks[t], Advance(watermarks, accepted, order)[t])
    {
      AdvanceSets(watermarks, accepted, order, t);
      if Names(accepted, t) {
        var i :| 0 <= i < |accepted| && accepted[i].stream == t;
        assert accepted[i] in accepted;
      }
    }
  }

  /** Every step keeps the records consistent and never moves a watermark backwards. */
  lemma StepInvariant(s: State, observations: seq<Observation>, run: Run, s': State, retired: set<Text>, dropped: set<Text>)
    requires Consistent(s.records) && Ingested(s, observations, run, s', retired, dropped)
    ensures Consistent(s'.records)
    ensures forall t :: t in s.watermarks ==>
              t in s'.watermarks && !Newer(s.watermarks[t], s'.watermarks[t])
  {
    hide Settle, Advance, ApplyAll, Merge, Accepted, Consistent, Evicts;
    var accepted := Accepted(Merge(observations), s.watermarks, run.order);
    if accepted != [] {
      StepConsistent(s, observations, run, s', retired, dropped);
      WatermarksRise(s.watermarks, observations, run.order);
    }
  }

  /** What one step does to one stream: an unnamed or outdated stream is left alone, a complete
      observation replaces its records, an incomplete one can only add to them. */
  lemma StepOnStream(s: State, observations: seq<Observation>, run: Run, s': State,
                     retired: set<Text>, dropped: set<Text>, t: Text)
    requires Consistent(s.records) && Ingested(s, observations, run, s', retired, dropped)
    ensures var merged := Merge(observations);
            if Names(merged, t) && !Outdated(s.watermarks, t, run.order) then
              && t in s'.watermarks && s'.watermarks[t] == run.order
              && var o := Merged(observations, t);
                 Carriers(s'.records, t)
                 == (if o.complete then Fingerprints(o.findings)
                     else Carriers(s.records, t) + Fingerprints(o.findings)) - dropped
            else
              && (t in s'.watermarks <==> t in s.watermarks)
              && (t in s.watermarks ==> s'.watermarks[t] == s.watermarks[t])
              && Carriers(s'.records, t) == Carriers(s.records, t) - dropped
  {
    hide Fresh, Newer, Advance, Merged, Settle, Evicts;
    FreshMeansNotOutdated(s.watermarks, t, run.order);
    var merged := Merge(observations);
    var accepted := Accepted(merged, s.watermarks, run.order);
    MergeDistinct(observations);
    AcceptedSubset(merged, s.watermarks, run.order);
    AdvanceSets(s.watermarks, accepted, run.order, t);
    var applied := ApplyAll(s.records, accepted, run);
    if Names(merged, t) && Fresh(s.watermarks, t, run.order) {
      assert Merged(observations, t) in accepted;
      var k: nat :| k < |accepted| && accepted[k] == Merged(observations, t);
      NamedStreamReplaced(s.records, accepted, run, k);
      assert Names(accepted, t);
    } else {
      forall i | 0 <= i < |accepted| ensures accepted[i].stream != t {
        assert accepted[i] in accepted;
        assert accepted[i] in merged;
      }
      UnnamedStreamUntouched(s.records, accepted, run, t);
    }
    if accepted != [] {
      ApplyAllKeyed(s.records, accepted, run);
      SettleConsistent(applied, run);
      SettleKeepsCarriers(applied, run, t);
      EvictionKeepsCarriers(Settle(applied, run), s'.records, retired, dropped, t);
    }
  }

  // ----- what one run makes of one record

  ghost predicate ReportedIn(accepted: seq<Observation>, f: Text) {
    exists k :: 0 <= k < |accepted| && f in Fingerprints(accepted[k].findings)
  }

  /** A record as one report leaves it, before its status is settled: a record without streams starts a new
      episode, one with streams continues its own. */
  ghost predicate SeenIn(before: Option<Record>, after: Record, stream: Text, run: Run) {
    && after.streams == (if before.Some? then before.value.streams else map[])[stream := run.observedAt]
    && after.firstSeenAt == (if before.Some? then before.value.firstSeenAt else run.observedAt)
    && after.openedAt == (if before.Some? && before.value.streams.Keys != {} then before.value.openedAt else run.observedAt)
    && after.lastSeenAt == (if before.Some? && before.value.lastSeenAt > run.observedAt then before.value.lastSeenAt
                            else run.observedAt)
    && after.lastRunId == run.order.runId && after.lastRunAttempt == run.order.runAttempt
  }

  /** Some finding of the list has the fingerprint, and the record its detail and severity. */
  ghost predicate Describes(findings: seq<Finding>, r: Record, f: Text) {
    exists x :: x in findings && x.fingerprint == f && r.detail == x.detail && r.severity == x.severity
  }

  function Known(records: Table, f: Text): Option<Record> {
    if f in records then Some(records[f]) else None
  }

  lemma SeenTwice(before: Option<Record>, middle: Record, after: Record, stream: Text, run: Run)
    requires SeenIn(before, middle, stream, run) && SeenIn(Some(middle), after, stream, run)
    ensures SeenIn(before, after, stream, run)
  {
  }

  lemma {:induction false} SeenAll(records: Table, stream: Text, findings: seq<Finding>, run: Run, f: Text)
    ensures var after := SeeAll(records, stream, findings, run);
            if f in Fingerprints(findings) then
              f in after && SeenIn(Known(records, f), after[f], stream, run)
            else Known(after, f) == Known(records, f)
    decreases |findings|
  {
    hide See, SeenIn;
    if findings != [] {
      var init, last := findings[..|findings| - 1], findings[|findings| - 1];
      assert findings == init + [last];
      SeenAll(records, stream, init, run, f);
      assert Fingerprints(findings) == Fingerprints(init) + {last.fingerprint};
      var middle := SeeAll(records, stream, init, run);
      SeenOnce(middle, stream, last, run);
      var after := See(middle, stream, last, run);
      assert SeeAll(records, stream, findings, run) == after;
      if f != last.fingerprint {
        assert Known(after, f) == Known(middle, f);
      } else if f in Fingerprints(init) {
        SeenTwice(Known(records, f), middle[f], after[f], stream, run);
      }
    } else {
      assert Fingerprints([]) == {};
    }
  }

  /** Its detail and severity are those of a finding reported under its fingerprint. */
  lemma {:induction false} SeenDescribed(records: Table, stream: Text, findings: seq<Finding>, run: Run, f: Text)
    requires f in Fingerprints(findings)
    ensures f in SeeAll(records, stream, findings, run)
    ensures Describes(findings, SeeAll(records, stream, findings, run)[f], f)
    decreases |findings|
  {
    hide See;
    var init, last := findings[..|findings| - 1], findings[|findings| - 1];
    assert findings == init + [last];
    var middle := SeeAll(records, stream, init, run);
    SeenOnce(middle, stream, last, run);
    var after := See(middle, stream, last, run);
    assert SeeAll(records, stream, findings, run) == after;
    if f == last.fingerprint {
      assert last in findings;
    } else {
      assert Fingerprints(findings) == Fingerprints(init) + {last.fingerprint};
      SeenDescribed(records, stream, init, run, f);
      assert Known(after, f) == Known(middle, f);
      var x :| x in init && x.fingerprint == f && middle[f].detail == x.detail && middle[f].severity == x.severity;
      assert x in findings;
    }
  }

  lemma SeenOnce(records: Table, stream: Text, finding: Finding, run: Run)
    ensures var after := See(records, stream, finding, run);
            && finding.fingerprint in after
            && SeenIn(Known(records, finding.fingerprint), after[finding.fingerprint], stream, run)
            && after[finding.fingerprint].detail == finding.detail && after[finding.fingerprint].severity == finding.severity
            && forall f :: f != finding.fingerprint ==> Known(after, f) == Known(records, f)
  {
  }

  /** One observation: a reported record is seen, another one at most loses the stream. */
  lemma ObservedRecord(records: Table, o: Observation, run: Run, f: Text)
    ensures var after := ApplyObservation(records, o, run);
            if f in Fingerprints(o.findings) then
              f in after && SeenIn(Known(records, f), after[f], o.stream, run) && Describes(o.findings, after[f], f)
            else
              && (f in after <==> f in records)
              && (f in records ==> after[f] == if o.complete then WithoutStream(records[f], o.stream) else records[f])
  {
    hide SeeAll, SeenIn, Describes;
    SeenAll(records, o.stream, o.findings, run, f);
    if f in Fingerprints(o.findings) {
      SeenDescribed(records, o.stream, o.findings, run, f);
    }
  }

  ghost function CompletedBy(accepted: seq<Observation>): set<Text> {
    set o | o in accepted && o.complete :: o.stream
  }

  lemma {:induction false} ApplyConcat(records: Table, a: seq<Observation>, b: seq<Observation>, run: Run)
    ensures ApplyAll(records, a + b, run) == ApplyAll(ApplyAll(records, a, run), b, run)
    decreases |b|
  {
    hide ApplyObservation;
    if b == [] {
      assert a + b == a;
    } else {
      assert (a + b)[..|a + b| - 1] == a + b[..|b| - 1];
      ApplyConcat(records, a, b[..|b| - 1], run);
    }
  }

  /** A record no observation reports loses the streams observed completely, and nothing else. */
  lemma {:induction false} UnreportedRecord(records: Table, accepted: seq<Observation>, run: Run, f: Text)
    requires !ReportedIn(accepted, f)
    ensures var after := ApplyAll(records, accepted, run);
            && (f in after <==> f in records)
            && (f in records ==> after[f] == records[f].(streams := records[f].streams - CompletedBy(accepted)))
    decreases |accepted|
  {
    hide ApplyObservation;
    if accepted == [] {
      assert CompletedBy([]) == {};
      assert f in records ==> records[f].streams - {} == records[f].streams;
    } else {
      var init, last := accepted[..|accepted| - 1], accepted[|accepted| - 1];
      assert accepted == init + [last] && accepted[|init|] == last;
      assert forall k :: 0 <= k < |init| ==> init[k] == accepted[k];
      UnreportedRecord(records, init, run, f);
      ObservedRecord(ApplyAll(records, init, run), last, run, f);
      assert CompletedBy(accepted) == CompletedBy(init) + (if last.complete then {last.stream} else {});
      assert f in records ==>
          records[f].streams - CompletedBy(init) - (if last.complete then {last.stream} else {})
          == records[f].streams - CompletedBy(accepted);
    }
  }

  /** What a report fixes for the rest of the run. */
  ghost predicate SameEpisode(a: Record, b: Record) {
    && a.firstSeenAt == b.firstSeenAt && a.openedAt == b.openedAt && a.lastSeenAt == b.lastSeenAt
    && a.lastRunId == b.lastRunId && a.lastRunAttempt == b.lastRunAttempt
  }

  lemma {:induction false} AfterReport(records: Table, rest: seq<Observation>, run: Run, f: Text, stream: Text)
    requires f in records && stream in records[f].streams && !Names(rest, stream)
    requires records[f].lastSeenAt >= run.observedAt
    requires records[f].lastRunId == run.order.runId && records[f].lastRunAttempt == run.order.runAttempt
    ensures var after := ApplyAll(records, rest, run);
            f in after && stream in after[f].streams && SameEpisode(records[f], after[f])
    decreases |rest|
  {
    hide ApplyObservation;
    if rest != [] {
      var init, last := rest[..|rest| - 1], rest[|rest| - 1];
      assert rest[|init|] == last && forall k :: 0 <= k < |init| ==> init[k] == rest[k];
      AfterReport(records, init, run, f, stream);
      ObservedRecord(ApplyAll(records, init, run), last, run, f);
      assert last.stream != stream;
    }
  }

  /** Observation k is the first to report the fingerprint. */
  ghost predicate FirstReport(accepted: seq<Observation>, f: Text, k: nat) {
    && k < |accepted| && f in Fingerprints(accepted[k].findings)
    && forall j :: 0 <= j < k ==> f !in Fingerprints(accepted[j].findings)
  }

  /** A reported record: its first sighting is kept, its last sighting and run are this one's, and a new
      episode opens exactly when the record is new or the observations before its first report took every
      stream from it. */
  lemma ReportedRecord(records: Table, accepted: seq<Observation>, run: Run, f: Text, k: nat)
    requires DistinctStreams(accepted) && FirstReport(accepted, f, k)
    ensures var after := ApplyAll(records, accepted, run);
            && f in after && accepted[k].stream in after[f].streams
            && after[f].firstSeenAt == (if f in records then records[f].firstSeenAt else run.observedAt)
            && after[f].openedAt == (if f in records && !(records[f].streams.Keys <= CompletedBy(accepted[..k]))
                                     then records[f].openedAt else run.observedAt)
            && after[f].lastSeenAt == (if f in records && records[f].lastSeenAt > run.observedAt
                                       then records[f].lastSeenAt else run.observedAt)
            && after[f].lastRunId == run.order.runId && after[f].lastRunAttempt == run.order.runAttempt
  {
    hide ApplyObservation, ApplyAll;
    var before, o, rest := accepted[..k], accepted[k], accepted[k + 1..];
    assert !ReportedIn(before, f);
    UnreportedRecord(records, before, run, f);
    ApplyConcat(records, before, [o], run);
    ApplyConcat(records, before + [o], rest, run);
    assert accepted == before + [o] + rest;
    var table := ApplyAll(records, before, run);
    AppliedOne(table, o, run);
    ObservedRecord(table, o, run, f);
    assert !Names(rest, o.stream) by {
      forall j | 0 <= j < |rest| ensures rest[j].stream != o.stream {
        assert rest[j] == accepted[k + 1 + j];
      }
    }
    AfterReport(ApplyObservation(table, o, run), rest, run, f, o.stream);
    if f in records {
      NothingLeft(records[f].streams, CompletedBy(before));
    }
  }

  /** A finding that one run sees leave its only stream and appear in another: whether its episode starts again
      depends on which of the two the run observes first. */
  lemma EpisodeDependsOnOrder(records: Table, run: Run, f: Text, left: Observation, entered: Observation)
    requires f in records && records[f].streams.Keys == {left.stream} && left.stream != entered.stream
    requires left.complete && f !in Fingerprints(left.findings) && f in Fingerprints(entered.findings)
    ensures f in ApplyAll(records, [left, entered], run) && f in ApplyAll(records, [entered, left], run)
    ensures ApplyAll(records, [left, entered], run)[f].openedAt == run.observedAt
    ensures ApplyAll(records, [entered, left], run)[f].openedAt == records[f].openedAt
  {
    hide ApplyAll, ApplyObservation, Fingerprints;
    ReportedRecord(records, [left, entered], run, f, 1);
    ReportedRecord(records, [entered, left], run, f, 0);
    assert [left, entered][..1] == [left] && [left][0] == left;
    assert left.stream in CompletedBy([left, entered][..1]);
    assert [entered, left][..0] == [];
  }

  lemma NothingLeft(streams: map<Text, int>, gone: set<Text>)
    ensures (streams - gone).Keys == {} <==> streams.Keys <= gone
  {
    assert (streams - gone).Keys == streams.Keys - gone;
    assert streams.Keys <= gone ==> streams.Keys - gone == {};
    assert forall k :: k in streams.Keys && k !in gone ==> k in streams.Keys - gone;
  }

  lemma AppliedOne(records: Table, o: Observation, run: Run)
    ensures ApplyAll(records, [o], run) == ApplyObservation(records, o, run)
  {
    hide ApplyObservation;
    assert [o][..0] == [];
  }

  /** The status a run leaves: fixed when no stream carries the record, since the run that found it so unless it
      was already; otherwise open, or as an unexpired suppression says.  The due date runs from the opening of
      the episode. */
  lemma SettledMeans(records: Table, run: Run, f: Text)
    requires f in records
    ensures var before, after := records[f], Settle(records, run)[f];
            && after.streams == before.streams && after.openedAt == before.openedAt && after.severity == before.severity
            && (before.streams.Keys == {} ==>
                  && after.status == Fixed
                  && after.fixedAt == (if before.status == Fixed && before.fixedAt.Some? then before.fixedAt
                                       else Some(run.observedAt)))
            && (before.streams.Keys != {} ==>
                  && after.fixedAt.None?
                  && (var s := before.fingerprint;
                      if s in run.suppressions && run.suppressions[s].expiresAt.Some?
                         && run.suppressions[s].expiresAt.value > run.now
                      then after.status == (if run.suppressions[s].riskAccepted then RiskAccepted else Suppressed)
                      else after.status == Open))
            && (before.severity !in run.slaDays ==> after.slaDueAt.None?)
            && (before.severity in run.slaDays ==>
                  after.slaDueAt == Some(before.openedAt + run.slaDays[before.severity] * 86_400_000))
  {
  }

  // ----- the store

  datatype IngestResult = IngestResult(ingested: bool, staleStreams: seq<Text>, dropped: nat)

  /** The streams of merged observations that a newer run has already decided. */
  function StaleStreams(merged: seq<Observation>, watermarks: map<Text, RunOrder>, order: RunOrder): seq<Text> {
    if merged == [] then []
    else
      var init, last := StaleStreams(merged[..|merged| - 1], watermarks, order), merged[|merged| - 1];
      if Fresh(watermarks, last.stream, order) then init else init + [last.stream]
  }

  lemma {:induction false} StaleMeans(merged: seq<Observation>, watermarks: map<Text, RunOrder>, order: RunOrder, t: Text)
    ensures t in StaleStreams(merged, watermarks, order) <==> Names(merged, t) && Outdated(watermarks, t, order)
    decreases |merged|
  {
    if merged != [] {
      var init, last := merged[..|merged| - 1], merged[|merged| - 1];
      assert forall i :: 0 <= i < |init| ==> init[i] == merged[i];
      StaleMeans(init, watermarks, order, t);
      assert Names(merged, t) <==> Names(init, t) || last.stream == t;
    }
  }

  /** A stream the run names gets the run's order, unless a newer run has decided it; those are the stale ones. */
  lemma MarksAfter(observations: seq<Observation>, watermarks: map<Text, RunOrder>, order: RunOrder)
    ensures forall t :: t in StaleStreams(Merge(observations), watermarks, order) <==>
              Names(Merge(observations), t) && Outdated(watermarks, t, order)
    ensures var after := Advance(watermarks, Accepted(Merge(observations), watermarks, order), order);
            forall t :: Names(Merge(observations), t) ==>
              t in after && after[t] == if Outdated(watermarks, t, order) then watermarks[t] else order
    ensures Accepted(Merge(observations), watermarks, order) == [] ==>
              forall t :: Names(Merge(observations), t) ==> Outdated(watermarks, t, order)
  {
    var merged := Merge(observations);
    var accepted := Accepted(merged, watermarks, order);
    MergeDistinct(observations);
    AcceptedSubset(merged, watermarks, order);
    forall t ensures t in StaleStreams(merged, watermarks, order) <==> Names(merged, t) && Outdated(watermarks, t, order) {
      StaleMeans(merged, watermarks, order, t);
    }
    forall t | Names(merged, t)
      ensures Names(accepted, t) <==> !Outdated(watermarks, t, order)
    {
      var o := Merged(observations, t);
      assert o in merged && (o in accepted <==> Fresh(watermarks, t, order));
      if o in accepted {
        var i :| 0 <= i < |accepted| && accepted[i] == o;
      }
      if Names(accepted, t) {
        var i :| 0 <= i < |accepted| && accepted[i].stream == t;
        assert accepted[i] in accepted;
      }
    }
    forall t | Names(merged, t)
      ensures var after := Advance(watermarks, accepted, order);
              t in after && after[t] == if Outdated(watermarks, t, order) then watermarks[t] else order
    {
      AdvanceSets(watermarks, accepted, order, t);
    }
  }

  /** The records and stream watermarks of one repository, merged under its lock. */
  class LifecycleStore {
    var records: Table
    var watermarks: map<Text, RunOrder>

    constructor ()
      ensures records == map[] && watermarks == map[]
    {
      records := map[];
      watermarks := map[];
    }

    method AcceptFresh(merged: seq<Observation>, order: RunOrder)
      returns (accepted: seq<Observation>, stale: seq<Text>)
      ensures accepted == Accepted(merged, watermarks, order)
      ensures stale == StaleStreams(merged, watermarks, order)
    {
      accepted, stale := [], [];
      for i := 0 to |merged|
        invariant accepted == Accepted(merged[..i], watermarks, order)
        invariant stale == StaleStreams(merged[..i], watermarks, order)
      {
        assert merged[..i + 1][..i] == merged[..i];
        if Fresh(watermarks, merged[i].stream, order) {
          accepted := accepted + [merged[i]];
        } else {
          stale := stale + [merged[i].stream];
        }
      }
      assert merged[..|merged|] == merged;
    }

    method Observe(table: RecordTable, o: Observation, run: Run)
      modifies table
      ensures table.byFingerprint == ApplyObservation(old(table.byFingerprint), o, run)
    {
      hide Reopened, Observed, Forget;
      ghost var before := table.byFingerprint;
      var seen: set<Text> := {};
      for i := 0 to |o.findings|
        invariant table.byFingerprint == SeeAll(before, o.stream, o.findings[..i], run)
        invariant seen == Fingerprints(o.findings[..i])
      {
        var finding := o.findings[i];
        assert o.findings[..i + 1][..i] == o.findings[..i];
        assert o.findings[..i + 1] == o.findings[..i] + [finding];
        var record := Reopened(table.byFingerprint, finding, run);
        seen := seen + {finding.fingerprint};
        table.byFingerprint :=
          table.byFingerprint[finding.fingerprint := Observed(record, o.stream, finding, run)];
      }
      assert o.findings[..|o.findings|] == o.findings;
      if o.complete {
        table.byFingerprint := Forget(table.byFingerprint, o.stream, seen);
      }
    }

    /** Merges the accepted observations of one run and enforces the bound. */
    method MergeAccepted(accepted: seq<Observation>, run: Run) returns (dropped: set<Text>)
      requires Consistent(records)
      modifies this
      ensures Consistent(records)
      ensures watermarks == Advance(old(watermarks), accepted, run.order)
      ensures exists retired :: Evicts(Settle(ApplyAll(old(records), accepted, run), run),
                                       MAX_FINDING_LIFECYCLE_RECORDS, records, retired, dropped)
    {
      var table := new RecordTable(records);
      for i := 0 to |accepted|
        invariant table.byFingerprint == ApplyAll(old(records), accepted[..i], run)
        invariant watermarks == Advance(old(watermarks), accepted[..i], run.order)
        invariant records == old(records)
      {
        assert accepted[..i + 1][..i] == accepted[..i];
        Observe(table, accepted[i], run);
        watermarks := watermarks[accepted[i].stream := run.order];
      }
      assert accepted[..|accepted|] == accepted;
      ApplyAllKeyed(records, accepted, run);
      SettleConsistent(table.byFingerprint, run);
      table.byFingerprint := Settle(table.byFingerprint, run);
      ghost var settled := table.byFingerprint;
      var retired;
      retired, dropped := table.EnforceBound(MAX_FINDING_LIFECYCLE_RECORDS);
      records := table.byFingerprint;
      EvictionPartitions(settled, MAX_FINDING_LIFECYCLE_RECORDS, records, retired, dropped);
    }

    /** Merges one run.  A run that is not trusted, or all of whose streams are outdated, changes
        nothing; otherwise the stored state takes the step. */
    method Ingest(enabled: bool, origin: Origin, observations: seq<Observation>, run: Run)
      returns (result: IngestResult)
      requires Consistent(records)
      modifies this
      ensures Consistent(records)
      ensures
        if enabled && origin.active && (origin.event == Push || origin.event == Schedule)
           && origin.headBranch == origin.defaultBranch
        then
          && result.staleStreams == StaleStreams(Merge(observations), old(watermarks), run.order)
          && (exists retired, dropped ::
                && Ingested(State(old(records), old(watermarks)), observations, run,
                            State(records, watermarks), retired, dropped)
                && result.dropped == |dropped|)
          && (forall t :: t in result.staleStreams <==>
                Names(Merge(observations), t) && Outdated(old(watermarks), t, run.order))
          && (forall t :: Names(Merge(observations), t) ==>
                && t in watermarks
                && watermarks[t] == if Outdated(old(watermarks), t, run.order) then old(watermarks[t]) else run.order)
        else
          records == old(records) && watermarks == old(watermarks) && !result.ingested
      ensures !result.ingested ==> records == old(records) && watermarks == old(watermarks)
    {
      result := IngestResult(false, [], 0);
      if !enabled || !IsTrustedLifecycleRun(origin) {
        return;
      }
      ghost var s := State(records, watermarks);
      MarksAfter(observations, watermarks, run.order);
      var merged := MergeObservations(observations);
      var accepted, stale := AcceptFresh(merged, run.order);
      result := IngestResult(false, stale, 0);
      if accepted == [] {
        assert Ingested(s, observations, run, State(records, watermarks), {}, {});
        return;
      }
      var dropped := MergeAccepted(accepted, run);
      result := IngestResult(true, stale, |dropped|);
      ghost var retired :| Evicts(Settle(ApplyAll(s.records, accepted, run), run),
                                  MAX_FINDING_LIFECYCLE_RECORDS, records, retired, dropped);
      assert Ingested(s, observations, run, State(records, watermarks), retired, dropped);
    }
  }
}
