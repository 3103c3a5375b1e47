/**
 Grouping one run's observations by scan stream
 (apps/control-plane/src/findings-lifecycle.ts:381-459).
 */
module Observations {
  import opened Wrappers
  import opened Texts
  import opened FindingRecords

  const MAX_LIFECYCLE_FINDINGS_PER_STREAM: nat := 500

  datatype Finding = Finding(fingerprint: Text, detail: Detail, severity: Severity)

  datatype Observation = Observation(stream: Text, complete: bool, findings: seq<Finding>)

  predicate ValidFingerprint(f: Text) {
    |f| == 64 && forall i :: 0 <= i < 64 ==> IsHexDigit(f[i])
  }

  function Fingerprints(findings: seq<Finding>): set<Text> {
    set f | f in findings :: f.fingerprint
  }

  // ----- the declarative merge

  /** Everything the run reported for a stream, in order. */
  function Reported(observations: seq<Observation>, stream: Text): seq<Finding> {
    if observations == [] then []
    else
      var last := observations[|observations| - 1];
      Reported(observations[..|observations| - 1], stream) + (if last.stream == stream then last.findings else [])
  }

  /** The first report of each valid fingerprint. */
  function FirstReports(findings: seq<Finding>): seq<Finding> {
    if findings == [] then []
    else
      var init, last := FirstReports(findings[..|findings| - 1]), findings[|findings| - 1];
      if ValidFingerprint(last.fingerprint) && last.fingerprint !in Fingerprints(init) then init + [last] else init
  }

  predicate AllComplete(observations: seq<Observation>, stream: Text) {
    forall o :: o in observations && o.stream == stream ==> o.complete
  }

  /** Streams in the order they were first reported. */
  function StreamOrder(observations: seq<Observation>): seq<Text> {
    if observations == [] then []
    else
      var init, last := StreamOrder(observations[..|observations| - 1]), observations[|observations| - 1].stream;
      if last in init then init else init + [last]
  }

  datatype Entry = Entry(complete: bool, findings: seq<Finding>)

  function EntryOf(observations: seq<Observation>, stream: Text): Entry {
    Entry(AllComplete(observations, stream), FirstReports(Reported(observations, stream)))
  }

  /** Too many findings make a stream incomplete. */
  function Bounded(stream: Text, entry: Entry): Observation {
    var count := |entry.findings|;
    Observation(
      stream,
      entry.complete && count <= MAX_LIFECYCLE_FINDINGS_PER_STREAM,
      entry.findings[..Min(count, MAX_LIFECYCLE_FINDINGS_PER_STREAM)])
  }

  /** One stream's merged observation. */
  function Merged(observations: seq<Observation>, stream: Text): Observation {
    Bounded(stream, EntryOf(observations, stream))
  }

  // ----- what the merge promises

  lemma {:induction false} FirstReportsUnique(findings: seq<Finding>)
    ensures forall i, j :: 0 <= i < j < |FirstReports(findings)| ==>
              FirstReports(findings)[i].fingerprint != FirstReports(findings)[j].fingerprint
    ensures forall f :: f in FirstReports(findings) ==> f in findings && ValidFingerprint(f.fingerprint)
    decreases |findings|
  {
    if findings != [] {
      var init := findings[..|findings| - 1];
      FirstReportsUnique(init);
      assert forall i :: 0 <= i < |FirstReports(init)| ==>
               FirstReports(init)[i].fingerprint in Fingerprints(FirstReports(init));
    }
  }

  lemma {:induction false} FirstReportsCover(findings: seq<Finding>)
    ensures forall f :: f in findings && ValidFingerprint(f.fingerprint) ==>
              f.fingerprint in Fingerprints(FirstReports(findings))
    decreases |findings|
  {
    if findings != [] {
      var init, last := findings[..|findings| - 1], findings[|findings| - 1];
      FirstReportsCover(init);
      assert findings == init + [last];
      assert forall f :: f in FirstReports(init) ==> f in FirstReports(findings);
      assert last in FirstReports(init) + [last];
    }
  }

  lemma {:induction false} StreamOrderUnique(observations: seq<Observation>)
    ensures forall i, j :: 0 <= i < j < |StreamOrder(observations)| ==>
              StreamOrder(observations)[i] != StreamOrder(observations)[j]
    ensures forall s :: s in StreamOrder(observations) <==> exists o :: o in observations && o.stream == s
    decreases |observations|
  {
    if observations != [] {
      var init, last := observations[..|observations| - 1], observations[|observations| - 1];
      StreamOrderUnique(init);
      assert observations == init + [last];
    }
  }

  /** 64 lower-case hexadecimal digits. */
  ghost predicate IsDigest(f: Text) {
    |f| == 64 && forall u :: u in f ==> 48 <= u <= 57 || 97 <= u <= 102
  }

  lemma ValidMeansDigest(f: Text)
    ensures ValidFingerprint(f) <==> IsDigest(f)
  {
    if ValidFingerprint(f) {
      forall u | u in f ensures 48 <= u <= 57 || 97 <= u <= 102 {
        var i :| 0 <= i < 64 && f[i] == u;
      }
    }
    if IsDigest(f) {
      forall i | 0 <= i < 64 ensures IsHexDigit(f[i]) {
        assert f[i] in f;
      }
    }
  }

  lemma {:induction false} ReportedMeans(observations: seq<Observation>, stream: Text, f: Finding)
    ensures f in Reported(observations, stream) <==>
            exists o :: o in observations && o.stream == stream && f in o.findings
    decreases |observations|
  {
    if observations != [] {
      var init, last := observations[..|observations| - 1], observations[|observations| - 1];
      ReportedMeans(init, stream, f);
      assert observations == init + [last];
    }
  }

  /** What any part reported under a valid fingerprint. */
  ghost predicate ReportedUnder(observations: seq<Observation>, stream: Text, fingerprint: Text) {
    IsDigest(fingerprint) &&
    exists o, f :: o in observations && o.stream == stream && f in o.findings && f.fingerprint == fingerprint
  }

  /** A merged observation that is still complete reports every valid fingerprint of every part, and nothing else. */
  lemma CompleteMergeLosesNothing(observations: seq<Observation>, stream: Text)
    requires Merged(observations, stream).complete
    ensures forall f :: f in Fingerprints(Merged(observations, stream).findings) <==>
                        ReportedUnder(observations, stream, f)
  {
    CompleteIsAll(observations, stream);
    forall f ensures f in Fingerprints(Merged(observations, stream).findings) <==> ReportedUnder(observations, stream, f) {
      ValidMeansDigest(f);
      forall finding ensures finding in Reported(observations, stream) <==>
                             exists o :: o in observations && o.stream == stream && finding in o.findings {
        ReportedMeans(observations, stream, finding);
      }
    }
  }

  lemma {:induction false} DistinctCount(findings: seq<Finding>)
    requires forall i, j :: 0 <= i < j < |findings| ==> findings[i].fingerprint != findings[j].fingerprint
    ensures |Fingerprints(findings)| == |findings|
    decreases |findings|
  {
    if findings != [] {
      var init, last := findings[..|findings| - 1], findings[|findings| - 1];
      DistinctCount(init);
      assert findings == init + [last];
      assert Fingerprints(findings) == Fingerprints(init) + {last.fingerprint};
      assert last.fingerprint !in Fingerprints(init);
    }
  }

  /** It is complete exactly when every part was and together they report at most 500 valid fingerprints. */
  lemma CompleteExactly(observations: seq<Observation>, stream: Text)
    ensures Merged(observations, stream).complete <==>
            && (forall o :: o in observations && o.stream == stream ==> o.complete)
            && |set f | f in Reported(observations, stream) && ValidFingerprint(f.fingerprint) :: f.fingerprint| <= 500
  {
    var reported := Reported(observations, stream);
    var findings := FirstReports(reported);
    FirstReportsUnique(reported);
    FirstReportsCover(reported);
    DistinctCount(findings);
    assert Fingerprints(findings)
        == set f | f in Reported(observations, stream) && ValidFingerprint(f.fingerprint) :: f.fingerprint;
  }

  lemma CompleteIsAll(observations: seq<Observation>, stream: Text)
    requires Merged(observations, stream).complete
    ensures Fingerprints(Merged(observations, stream).findings)
         == set f | f in Reported(observations, stream) && ValidFingerprint(f.fingerprint) :: f.fingerprint
  {
    var reported := Reported(observations, stream);
    FirstReportsUnique(reported);
    FirstReportsCover(reported);
    var findings := FirstReports(reported);
    assert findings[..|findings|] == findings;
  }

  // ----- the loop

  /** The map of entries the loop builds. */
  ghost function Grouped(observations: seq<Observation>): map<Text, Entry> {
    map s | s in StreamOrder(observations) :: EntryOf(observations, s)
  }

  method AddFindings(entry: seq<Finding>, ghost before: seq<Finding>, findings: seq<Finding>)
    returns (merged: seq<Finding>)
    requires entry == FirstReports(before)
    ensures merged == FirstReports(before + findings)
  {
    merged := entry;
    assert before + findings[..0] == before;
    for i := 0 to |findings|
      invariant merged == FirstReports(before + findings[..i])
    {
      var finding := findings[i];
      assert (before + findings[..i + 1])[..|before| + i] == before + findings[..i];
      if ValidFingerprint(finding.fingerprint) && finding.fingerprint !in Fingerprints(merged) {
        merged := merged + [finding];
      }
    }
    assert findings[..|findings|] == findings;
  }

  lemma NotYetReported(observations: seq<Observation>, stream: Text)
    requires stream !in StreamOrder(observations)
    ensures Reported(observations, stream) == [] && AllComplete(observations, stream)
    decreases |observations|
  {
    StreamOrderUnique(observations);
    if observations != [] {
      var init, last := observations[..|observations| - 1], observations[|observations| - 1];
      assert observations == init + [last];
      NotYetReported(init, stream);
    }
  }

  lemma EntryStep(observations: seq<Observation>, o: Observation, s: Text)
    ensures EntryOf(observations + [o], s)
         == if s == o.stream
            then Entry(o.complete && AllComplete(observations, s), FirstReports(Reported(observations, s) + o.findings))
            else EntryOf(observations, s)
  {
    var all := observations + [o];
    assert all[..|all| - 1] == observations;
    assert Reported(all, s) == Reported(observations, s) + (if o.stream == s then o.findings else []);
    assert Reported(observations, s) + [] == Reported(observations, s);
  }

  lemma GroupedStep(observations: seq<Observation>, o: Observation, entry: Entry)
    requires entry == EntryOf(observations + [o], o.stream)
    ensures Grouped(observations + [o]) == Grouped(observations)[o.stream := entry]
  {
    StreamOrderStep(observations, o);
    forall s | s in StreamOrder(observations) && s != o.stream
      ensures EntryOf(observations, s) == EntryOf(observations + [o], s)
    {
      EntryStep(observations, o, s);
    }
  }

  lemma StreamOrderStep(observations: seq<Observation>, o: Observation)
    ensures StreamOrder(observations + [o])
         == if o.stream in StreamOrder(observations) then StreamOrder(observations)
            else StreamOrder(observations) + [o.stream]
  {
    assert (observations + [o])[..|observations + [o]| - 1] == observations;
  }

  method GroupStreams(observations: seq<Observation>) returns (order: seq<Text>, byStream: map<Text, Entry>)
    ensures order == StreamOrder(observations)
    ensures byStream == Grouped(observations)
  {
    byStream := map[];
    order := [];
    var i := 0;
    while i < |observations|
      invariant 0 <= i <= |observations|
      invariant order == StreamOrder(observations[..i])
      invariant byStream == Grouped(observations[..i])
    {
      order, byStream := GroupOne(observations[..i], order, byStream, observations[i]);
      assert observations[..i + 1] == observations[..i] + [observations[i]];
      i := i + 1;
    }
    assert observations[..i] == observations;
  }

  method GroupOne(ghost done: seq<Observation>, order: seq<Text>, byStream: map<Text, Entry>, o: Observation)
    returns (order': seq<Text>, byStream': map<Text, Entry>)
    requires order == StreamOrder(done) && byStream == Grouped(done)
    ensures order' == StreamOrder(done + [o]) && byStream' == Grouped(done + [o])
  {
    StreamOrderStep(done, o);
    var entry := Entry(true, []);
    order' := order;
    if o.stream in byStream {
      entry := byStream[o.stream];
    } else {
      NotYetReported(done, o.stream);
      order' := order + [o.stream];
    }
    var findings := AddFindings(entry.findings, Reported(done, o.stream), o.findings);
    var updated := Entry(o.complete && entry.complete, findings);
    EntryStep(done, o, o.stream);
    GroupedStep(done, o, updated);
    byStream' := byStream[o.stream := updated];
  }

  function MergedStreams(observations: seq<Observation>, streams: seq<Text>): seq<Observation> {
    if streams == [] then []
    else MergedStreams(observations, streams[..|streams| - 1]) + [Merged(observations, streams[|streams| - 1])]
  }

  lemma {:induction false} MergedStreamsAt(observations: seq<Observation>, streams: seq<Text>, k: nat)
    requires k < |streams|
    ensures |MergedStreams(observations, streams)| == |streams|
    ensures MergedStreams(observations, streams)[k] == Merged(observations, streams[k])
    decreases |streams|
  {
    if |streams| > 1 {
      MergedStreamsAt(observations, streams[..|streams| - 1], if k < |streams| - 1 then k else 0);
    }
  }

  /** One observation per stream, in first-reported order. */
  method MergeObservations(observations: seq<Observation>) returns (merged: seq<Observation>)
    ensures merged == MergedStreams(observations, StreamOrder(observations))
  {
    var order, byStream := GroupStreams(observations);
    merged := [];
    for i := 0 to |order|
      invariant merged == MergedStreams(observations, order[..i])
    {
      assert order[..i + 1] == order[..i] + [order[i]];
      merged := merged + [Bounded(order[i], byStream[order[i]])];
    }
    assert order[..|order|] == order;
  }
}
