/** All runs of the merge, stream by stream. */
module FindingStreams {
  /**
   Source: apps/control-plane/src/findings-lifecycle.ts:401-410, 511-593.

   Over all runs of the store each stream depends on its own deliveries alone: they fold into
   a watermark and a set of fingerprints.  A stream whose highest-ordered run observed it
   completely converges to that run, whatever the order of delivery and however many repeats;
   in general the order is irrelevant exactly under a condition on the highest-ordered run.
   */
  import opened Wrappers
  import opened Texts
  import opened Sorting
  import opened FindingRecords
  import opened Observations
  import opened FindingsLifecycle

  // ----- all runs of the merge

  datatype Delivery = Delivery(observations: seq<Observation>, run: Run)

  /** A run of the store from empty in which the bound never forces a loss. */
  ghost predicate LosslessRun(states: seq<State>, deliveries: seq<Delivery>) {
    && |states| == |deliveries| + 1
    && states[0] == State(map[], map[])
    && forall i :: 0 <= i < |deliveries| ==> LosslessStep(states[i], deliveries[i], states[i + 1])
  }

  ghost predicate LosslessStep(s: State, d: Delivery, s': State) {
    exists retired :: Ingested(s, d.observations, d.run, s', retired, {})
  }

  ghost predicate Reports(d: Delivery, t: Text) {
    Names(Merge(d.observations), t)
  }

  ghost function ReportedFor(d: Delivery, t: Text): set<Text> {
    Fingerprints(Merged(d.observations, t).findings)
  }

  /** Delivery k reports the stream and no delivery that does is ordered after it. */
  ghost predicate Highest(deliveries: seq<Delivery>, t: Text, k: nat) {
    && k < |deliveries| && Reports(deliveries[k], t)
    && forall i :: 0 <= i < |deliveries| && Reports(deliveries[i], t) ==>
         !Newer(deliveries[i].run.order, deliveries[k].run.order)
  }

  ghost predicate CompleteFor(d: Delivery, t: Text) {
    Merged(d.observations, t).complete
  }

  /** The highest-ordered deliveries of the stream observe it completely and agree on its findings. */
  ghost predicate SteadyStream(deliveries: seq<Delivery>, t: Text) {
    && (forall k: nat :: Highest(deliveries, t, k) ==> CompleteFor(deliveries[k], t))
    && (forall j: nat, k: nat :: Highest(deliveries, t, j) && Highest(deliveries, t, k) ==>
          ReportedFor(deliveries[j], t) == ReportedFor(deliveries[k], t))
  }

  // ----- one stream, without the table

  /** The watermark of one stream and the fingerprints it carries. */
  datatype View = View(mark: Option<RunOrder>, carried: set<Text>)

  ghost function ViewOf(s: State, t: Text): View {
    View(if t in s.watermarks then Some(s.watermarks[t]) else None, Carriers(s.records, t))
  }

  ghost predicate Counted(v: View, d: Delivery, t: Text) {
    Reports(d, t) && (v.mark.Some? ==> !Newer(v.mark.value, d.run.order))
  }

  /** A delivery below the watermark changes nothing, a complete one replaces the fingerprints and an
      incomplete one adds to them. */
  ghost function Delivered(v: View, d: Delivery, t: Text): View {
    if !Counted(v, d, t) then v
    else View(Some(d.run.order), if CompleteFor(d, t) then ReportedFor(d, t) else v.carried + ReportedFor(d, t))
  }

  ghost function StreamAfter(deliveries: seq<Delivery>, t: Text): View {
    if deliveries == [] then View(None, {})
    else Delivered(StreamAfter(deliveries[..|deliveries| - 1], t), deliveries[|deliveries| - 1], t)
  }

  lemma StreamSnoc(deliveries: seq<Delivery>, d: Delivery, t: Text)
    ensures StreamAfter(deliveries + [d], t) == Delivered(StreamAfter(deliveries, t), d, t)
  {
    assert (deliveries + [d])[..|deliveries|] == deliveries;
  }

  lemma StepOnView(s: State, d: Delivery, s': State, t: Text)
    requires Consistent(s.records) && LosslessStep(s, d, s')
    ensures Consistent(s'.records) && ViewOf(s', t) == Delivered(ViewOf(s, t), d, t)
  {
    hide Ingested, Consistent, Carriers, Merge, Merged;
    var retired :| Ingested(s, d.observations, d.run, s', retired, {});
    StepInvariant(s, d.observations, d.run, s', retired, {});
    StepOnStream(s, d.observations, d.run, s', retired, {}, t);
  }

  lemma StepOf(states: seq<State>, deliveries: seq<Delivery>, i: nat)
    requires LosslessRun(states, deliveries) && i < |deliveries|
    ensures LosslessStep(states[i], deliveries[i], states[i + 1])
  {
  }

  lemma {:induction false} ConsistentThroughout(states: seq<State>, deliveries: seq<Delivery>, i: nat)
    requires LosslessRun(states, deliveries) && i < |states|
    ensures Consistent(states[i].records)
    decreases i
  {
    hide LosslessStep, Delivered, StreamAfter, ViewOf;
    if i > 0 {
      ConsistentThroughout(states, deliveries, i - 1);
      StepOf(states, deliveries, i - 1);
      StepOnView(states[i - 1], deliveries[i - 1], states[i], []);
    }
  }

  /** In every run each stream depends on its own deliveries alone. */
  lemma {:induction false} StreamOfRun(states: seq<State>, deliveries: seq<Delivery>, t: Text, i: nat)
    requires LosslessRun(states, deliveries) && i < |states|
    ensures ViewOf(states[i], t) == StreamAfter(deliveries[..i], t)
    decreases i
  {
    hide LosslessStep, Consistent, Delivered, StreamAfter;
    if i > 0 {
      StreamOfRun(states, deliveries, t, i - 1);
      ConsistentThroughout(states, deliveries, i - 1);
      StepOf(states, deliveries, i - 1);
      StepOnView(states[i - 1], deliveries[i - 1], states[i], t);
      StreamSnoc(deliveries[..i - 1], deliveries[i - 1], t);
      assert deliveries[..i] == deliveries[..i - 1] + [deliveries[i - 1]];
    } else {
      StreamAtStart(deliveries, t);
    }
  }

  lemma StreamAtStart(deliveries: seq<Delivery>, t: Text)
    ensures ViewOf(State(map[], map[]), t) == StreamAfter(deliveries[..0], t)
  {
    assert deliveries[..0] == [];
    assert Carriers(map[], t) == {};
  }

  // ----- what one stream converges to

  ghost predicate SomeReport(deliveries: seq<Delivery>, t: Text) {
    exists i :: 0 <= i < |deliveries| && Reports(deliveries[i], t)
  }

  lemma NewestDecides(deliveries: seq<Delivery>, d: Delivery, t: Text, k: nat)
    requires Highest(deliveries, t, k) && Reports(d, t)
    requires !Newer(deliveries[k].run.order, d.run.order)
    ensures Highest(deliveries + [d], t, |deliveries|)
  {
    var all := deliveries + [d];
    forall i | 0 <= i < |all| && Reports(all[i], t)
      ensures !Newer(all[i].run.order, d.run.order)
    {
      if i < |deliveries| {
        RunOrderIsTotal(d.run.order, deliveries[k].run.order, deliveries[i].run.order);
      }
    }
  }

  lemma OlderChangesNothing(deliveries: seq<Delivery>, d: Delivery, t: Text, k: nat)
    requires Highest(deliveries, t, k)
    requires Reports(d, t) ==> Newer(deliveries[k].run.order, d.run.order)
    ensures Highest(deliveries + [d], t, k)
  {
    RunOrderIsTotal(d.run.order, deliveries[k].run.order, d.run.order);
  }

  lemma SameHighest(deliveries: seq<Delivery>, t: Text, j: nat, k: nat)
    requires Highest(deliveries, t, j) && Highest(deliveries, t, k)
    ensures deliveries[j].run.order == deliveries[k].run.order
  {
    RunOrderIsTotal(deliveries[j].run.order, deliveries[k].run.order, deliveries[j].run.order);
  }

  /** The watermark is the order of the highest-ordered run delivered for the stream. */
  lemma {:induction false} MarkIsHighest(deliveries: seq<Delivery>, t: Text)
    ensures var v := StreamAfter(deliveries, t);
            if SomeReport(deliveries, t) then
              exists k: nat :: Highest(deliveries, t, k) && v.mark == Some(deliveries[k].run.order)
            else v == View(None, {})
    decreases |deliveries|
  {
    hide Reports, Newer, CompleteFor, ReportedFor;
    if deliveries != [] {
      var n := |deliveries| - 1;
      var init, d := deliveries[..n], deliveries[n];
      assert deliveries == init + [d];
      MarkIsHighest(init, t);
      MarkStep(init, d, t);
    }
  }

  lemma MarkStep(init: seq<Delivery>, d: Delivery, t: Text)
    requires var v := StreamAfter(init, t);
             if SomeReport(init, t) then
               exists k: nat :: Highest(init, t, k) && v.mark == Some(init[k].run.order)
             else v == View(None, {})
    ensures var v := StreamAfter(init + [d], t);
            if SomeReport(init + [d], t) then
              exists k: nat :: Highest(init + [d], t, k) && v.mark == Some((init + [d])[k].run.order)
            else v == View(None, {})
  {
    hide Reports, Newer, CompleteFor, ReportedFor, StreamAfter;
    var all, v := init + [d], StreamAfter(init, t);
    StreamSnoc(init, d, t);
    assert all[|init|] == d;
    if SomeReport(init, t) {
      var k: nat :| Highest(init, t, k) && v.mark == Some(init[k].run.order);
      assert all[k] == init[k];
      if Counted(v, d, t) {
        NewestDecides(init, d, t, k);
      } else {
        OlderChangesNothing(init, d, t, k);
      }
    } else if Reports(d, t) {
      RunOrderIsTotal(d.run.order, d.run.order, d.run.order);
      assert Highest(all, t, |init|) by {
        assert forall i :: 0 <= i < |all| && Reports(all[i], t) ==> all[i] == d;
      }
    }
  }

  /** Whether the last delivery counts tells whether it is among the highest-ordered ones. */
  lemma LastHighest(init: seq<Delivery>, d: Delivery, t: Text)
    ensures Counted(StreamAfter(init, t), d, t) ==> Highest(init + [d], t, |init|)
    ensures !Counted(StreamAfter(init, t), d, t) ==>
              forall k: nat :: Highest(init + [d], t, k) <==> k < |init| && Highest(init, t, k)
  {
    hide Reports, CompleteFor, ReportedFor, StreamAfter, Newer;
    var all, v := init + [d], StreamAfter(init, t);
    MarkIsHighest(init, t);
    assert all[|init|] == d;
    if SomeReport(init, t) {
      var j: nat :| Highest(init, t, j) && v.mark == Some(init[j].run.order);
      assert all[j] == init[j];
      if Counted(v, d, t) {
        NewestDecides(init, d, t, j);
      } else {
        NotAmongHighest(init, d, t, j);
      }
    } else {
      RunOrderIsTotal(d.run.order, d.run.order, d.run.order);
      assert forall i :: 0 <= i < |all| && Reports(all[i], t) ==> all[i] == d;
    }
  }

  lemma NotAmongHighest(init: seq<Delivery>, d: Delivery, t: Text, j: nat)
    requires Highest(init, t, j)
    requires Reports(d, t) ==> Newer(init[j].run.order, d.run.order)
    ensures forall k: nat :: Highest(init + [d], t, k) <==> k < |init| && Highest(init, t, k)
  {
    hide Reports, Newer;
    var all := init + [d];
    forall k: nat ensures Highest(all, t, k) <==> k < |init| && Highest(init, t, k) {
      if k < |init| && Highest(init, t, k) {
        SameHighest(init, t, j, k);
        OlderChangesNothing(init, d, t, k);
      }
      if Highest(all, t, k) {
        assert all[j] == init[j] && !Newer(all[j].run.order, all[k].run.order);
        assert forall i :: 0 <= i < |init| ==> all[i] == init[i];
        RunOrderIsTotal(init[j].run.order, init[j].run.order, init[j].run.order);
      }
    }
  }

  /** A steady stream carries the findings of its highest-ordered deliveries. */
  lemma {:induction false} SteadyDecides(deliveries: seq<Delivery>, t: Text)
    requires SteadyStream(deliveries, t)
    ensures forall k: nat :: Highest(deliveries, t, k) ==> StreamAfter(deliveries, t).carried == ReportedFor(deliveries[k], t)
    decreases |deliveries|
  {
    hide Highest, CompleteFor, ReportedFor, StreamAfter, Newer;
    if deliveries != [] {
      var n := |deliveries| - 1;
      var init, d := deliveries[..n], deliveries[n];
      assert deliveries == init + [d];
      StreamSnoc(init, d, t);
      LastHighest(init, d, t);
      if !Counted(StreamAfter(init, t), d, t) {
        forall k: nat | Highest(init, t, k) ensures k < n {
          HighestInRange(init, t, k);
        }
        SteadyDecides(init, t);
      }
    } else {
      forall k: nat ensures !Highest([], t, k) {
        if Highest([], t, k) {
          HighestInRange([], t, k);
        }
      }
    }
  }

  lemma HighestInRange(deliveries: seq<Delivery>, t: Text, k: nat)
    requires Highest(deliveries, t, k)
    ensures k < |deliveries| && Reports(deliveries[k], t)
  {
  }

  ghost predicate DecidedBy(s: State, d: Delivery, t: Text) {
    t in s.watermarks && s.watermarks[t] == d.run.order && Carriers(s.records, t) == ReportedFor(d, t)
  }

  ghost predicate Decided(s: State, deliveries: seq<Delivery>, t: Text) {
    if SomeReport(deliveries, t) then
      exists k: nat :: Highest(deliveries, t, k) && DecidedBy(s, deliveries[k], t)
    else
      t !in s.watermarks && Carriers(s.records, t) == {}
  }

  /** After any deliveries in any order with any repeats, the records carrying a steady stream are the
      findings of the highest-ordered run delivered for it, and its watermark is that run. */
  lemma MergeConverges(states: seq<State>, deliveries: seq<Delivery>, t: Text)
    requires LosslessRun(states, deliveries) && SteadyStream(deliveries, t)
    ensures Decided(states[|deliveries|], deliveries, t)
  {
    hide LosslessRun, SomeReport, Newer, ReportedFor, Carriers, StreamAfter;
    RunLength(states, deliveries);
    StreamOfRun(states, deliveries, t, |deliveries|);
    assert deliveries[..|deliveries|] == deliveries;
    SteadyDecides(deliveries, t);
    MarkIsHighest(deliveries, t);
    if SomeReport(deliveries, t) {
      var k: nat :| Highest(deliveries, t, k) && StreamAfter(deliveries, t).mark == Some(deliveries[k].run.order);
      assert DecidedBy(states[|deliveries|], deliveries[k], t);
    }
  }

  lemma RunLength(states: seq<State>, deliveries: seq<Delivery>)
    requires LosslessRun(states, deliveries)
    ensures |states| == |deliveries| + 1
  {
  }

  // ----- the order of delivery

  ghost predicate SameDeliveries(a: seq<Delivery>, b: seq<Delivery>) {
    forall d :: d in a <==> d in b
  }

  /** The same deliveries in another order, and with other repeats, have the same highest-ordered ones. */
  lemma HighestTransfers(a: seq<Delivery>, b: seq<Delivery>, t: Text, j: nat) returns (k: nat)
    requires SameDeliveries(a, b) && Highest(a, t, j)
    ensures Highest(b, t, k) && b[k] == a[j]
  {
    hide Newer, Reports;
    assert a[j] in b;
    k :| k < |b| && b[k] == a[j];
    forall i | 0 <= i < |b| && Reports(b[i], t) ensures !Newer(b[i].run.order, b[k].run.order) {
      assert b[i] in a;
      var i' :| 0 <= i' < |a| && a[i'] == b[i];
    }
  }

  lemma ReportTransfers(a: seq<Delivery>, b: seq<Delivery>, t: Text)
    requires SameDeliveries(a, b) && SomeReport(a, t)
    ensures SomeReport(b, t)
  {
    hide Reports;
    var i :| 0 <= i < |a| && Reports(a[i], t);
    assert a[i] in b;
    var j :| 0 <= j < |b| && b[j] == a[i];
    assert Reports(b[j], t);
  }

  /** The watermark never depends on the order of delivery. */
  lemma MarkIgnoresOrder(a: seq<Delivery>, b: seq<Delivery>, t: Text)
    requires SameDeliveries(a, b)
    ensures StreamAfter(a, t).mark == StreamAfter(b, t).mark
    ensures SomeReport(a, t) <==> SomeReport(b, t)
  {
    hide Newer, StreamAfter, Reports;
    MarkIsHighest(a, t);
    MarkIsHighest(b, t);
    if SomeReport(b, t) {
      ReportTransfers(b, a, t);
    }
    if SomeReport(a, t) {
      ReportTransfers(a, b, t);
      var j: nat :| Highest(a, t, j) && StreamAfter(a, t).mark == Some(a[j].run.order);
      var k := HighestTransfers(a, b, t, j);
      HighestInRange(b, t, k);
      var m: nat :| Highest(b, t, m) && StreamAfter(b, t).mark == Some(b[m].run.order);
      SameHighest(b, t, k, m);
    }
  }

  lemma SteadyIgnoresOrder(a: seq<Delivery>, b: seq<Delivery>, t: Text)
    requires SameDeliveries(a, b) && SteadyStream(a, t)
    ensures SteadyStream(b, t)
  {
    hide Newer, ReportedFor, CompleteFor;
    forall k: nat | Highest(b, t, k) ensures CompleteFor(b[k], t) {
      var j := HighestTransfers(b, a, t, k);
    }
    forall j: nat, k: nat | Highest(b, t, j) && Highest(b, t, k) ensures ReportedFor(b[j], t) == ReportedFor(b[k], t) {
      var j' := HighestTransfers(b, a, t, j);
      var k' := HighestTransfers(b, a, t, k);
    }
  }

  /** Two stores that received the same deliveries, however ordered or repeated, have the same watermark
      for every stream, and the same records for every steady one. */
  lemma DeliveryOrderIrrelevant(states: seq<State>, a: seq<Delivery>, others: seq<State>, b: seq<Delivery>, t: Text)
    requires LosslessRun(states, a) && LosslessRun(others, b) && SameDeliveries(a, b)
    ensures ViewOf(states[|a|], t).mark == ViewOf(others[|b|], t).mark
    ensures SteadyStream(a, t) ==> Carriers(states[|a|].records, t) == Carriers(others[|b|].records, t)
  {
    hide LosslessRun, SomeReport, Highest, SameDeliveries, SteadyStream, Carriers, StreamAfter;
    RunLength(states, a);
    RunLength(others, b);
    StreamOfRun(states, a, t, |a|);
    StreamOfRun(others, b, t, |b|);
    assert a[..|a|] == a && b[..|b|] == b;
    MarkIgnoresOrder(a, b, t);
    if SteadyStream(a, t) {
      SteadyCarriesSame(a, b, t);
    }
  }

  lemma SteadyCarriesSame(a: seq<Delivery>, b: seq<Delivery>, t: Text)
    requires SameDeliveries(a, b) && SteadyStream(a, t)
    ensures StreamAfter(a, t).carried == StreamAfter(b, t).carried
  {
    hide Newer, SteadyStream, StreamAfter, ReportedFor, SameDeliveries, SomeReport;
    SteadyIgnoresOrder(a, b, t);
    SteadyDecides(a, t);
    SteadyDecides(b, t);
    MarkIsHighest(a, t);
    MarkIsHighest(b, t);
    MarkIgnoresOrder(a, b, t);
    if SomeReport(a, t) {
      var j: nat :| Highest(a, t, j) && StreamAfter(a, t).mark == Some(a[j].run.order);
      var k := HighestTransfers(a, b, t, j);
    }
  }

  /** With every stream steady, the two stores hold the same findings as not fixed. */
  lemma OpenSetIrrelevantToOrder(states: seq<State>, a: seq<Delivery>, others: seq<State>, b: seq<Delivery>, f: Text)
    requires LosslessRun(states, a) && LosslessRun(others, b) && SameDeliveries(a, b)
    requires forall t :: SteadyStream(a, t)
    ensures IsOutstanding(states[|a|].records, f) <==> IsOutstanding(others[|b|].records, f)
  {
    hide SteadyStream, SameDeliveries;
    ConsistentThroughout(states, a, |a|);
    ConsistentThroughout(others, b, |b|);
    if IsOutstanding(states[|a|].records, f) {
      var t :| t in states[|a|].records[f].streams;
      DeliveryOrderIrrelevant(states, a, others, b, t);
      assert f in Carriers(states[|a|].records, t);
    }
    if IsOutstanding(others[|b|].records, f) {
      var t :| t in others[|b|].records[f].streams;
      DeliveryOrderIrrelevant(states, a, others, b, t);
      assert f in Carriers(others[|b|].records, t);
    }
  }

  ghost predicate IsOutstanding(records: Table, f: Text) {
    f in records && records[f].status != Fixed
  }

  // ----- exactly when the order matters

  /** Deliveries of one run, or of runs the order ties, report the stream alike. */
  ghost predicate RunsAgree(deliveries: seq<Delivery>, t: Text) {
    forall a, b :: a in deliveries && b in deliveries && Reports(a, t) && Reports(b, t) && a.run.order == b.run.order ==>
      ReportedFor(a, t) == ReportedFor(b, t) && CompleteFor(a, t) == CompleteFor(b, t)
  }

  ghost predicate AllWithin(deliveries: seq<Delivery>, t: Text, fingerprints: set<Text>) {
    forall d :: d in deliveries && Reports(d, t) ==> ReportedFor(d, t) <= fingerprints
  }

  /** The highest-ordered delivery is complete, or reports whatever any delivery reports. */
  ghost predicate OrderSafe(deliveries: seq<Delivery>, t: Text) {
    forall k: nat :: Highest(deliveries, t, k) ==>
      CompleteFor(deliveries[k], t) || AllWithin(deliveries, t, ReportedFor(deliveries[k], t))
  }

  ghost predicate EveryOrderAgrees(deliveries: seq<Delivery>, t: Text) {
    forall others :: multiset(others) == multiset(deliveries) ==>
      StreamAfter(others, t).carried == StreamAfter(deliveries, t).carried
  }

  ghost predicate EveryOrderAndRepeatAgrees(deliveries: seq<Delivery>, t: Text) {
    forall others :: SameDeliveries(others, deliveries) ==>
      StreamAfter(others, t).carried == StreamAfter(deliveries, t).carried
  }

  lemma {:induction false} CarriedWithin(deliveries: seq<Delivery>, t: Text, fingerprints: set<Text>)
    requires AllWithin(deliveries, t, fingerprints)
    ensures StreamAfter(deliveries, t).carried <= fingerprints
    decreases |deliveries|
  {
    hide Reports, ReportedFor, CompleteFor, Newer, StreamAfter;
    if deliveries != [] {
      var n := |deliveries| - 1;
      var init, d := deliveries[..n], deliveries[n];
      assert deliveries == init + [d];
      assert d in deliveries;
      StreamSnoc(init, d, t);
      CarriedWithin(init, t, fingerprints);
    } else {
      EmptyStream(t);
    }
  }

  lemma EmptyStream(t: Text)
    ensures StreamAfter([], t) == View(None, {})
  {
  }

  /** What a highest-ordered delivery reports stays carried, when ties agree. */
  lemma {:induction false} HighestCarried(deliveries: seq<Delivery>, t: Text, k: nat)
    requires RunsAgree(deliveries, t) && Highest(deliveries, t, k)
    ensures ReportedFor(deliveries[k], t) <= StreamAfter(deliveries, t).carried
    decreases |deliveries|
  {
    hide Reports, ReportedFor, CompleteFor, Newer, StreamAfter;
    var n := |deliveries| - 1;
    var init, d := deliveries[..n], deliveries[n];
    assert deliveries == init + [d];
    assert d in deliveries && deliveries[k] in deliveries;
    StreamSnoc(init, d, t);
    LastHighest(init, d, t);
    if Counted(StreamAfter(init, t), d, t) {
      SameHighest(deliveries, t, n, k);
    } else {
      HighestCarried(init, t, k);
    }
  }

  /** When the condition holds the stream carries what its highest-ordered delivery reports. */
  lemma SafeCarries(deliveries: seq<Delivery>, t: Text, k: nat)
    requires RunsAgree(deliveries, t) && OrderSafe(deliveries, t) && Highest(deliveries, t, k)
    ensures StreamAfter(deliveries, t).carried == ReportedFor(deliveries[k], t)
  {
    hide Reports, ReportedFor, CompleteFor, Newer, StreamAfter, AllWithin;
    if CompleteFor(deliveries[k], t) {
      forall j: nat | Highest(deliveries, t, j)
        ensures CompleteFor(deliveries[j], t) && ReportedFor(deliveries[j], t) == ReportedFor(deliveries[k], t)
      {
        SameHighest(deliveries, t, j, k);
        assert deliveries[j] in deliveries && deliveries[k] in deliveries;
      }
      SteadyDecides(deliveries, t);
    } else {
      HighestCarried(deliveries, t, k);
      CarriedWithin(deliveries, t, ReportedFor(deliveries[k], t));
    }
  }

  lemma SafeTransfers(a: seq<Delivery>, b: seq<Delivery>, t: Text)
    requires SameDeliveries(a, b) && RunsAgree(a, t) && OrderSafe(a, t)
    ensures RunsAgree(b, t) && OrderSafe(b, t)
  {
    hide Reports, ReportedFor, CompleteFor, Newer;
    forall k: nat | Highest(b, t, k) ensures CompleteFor(b[k], t) || AllWithin(b, t, ReportedFor(b[k], t)) {
      var j := HighestTransfers(b, a, t, k);
    }
  }

  lemma SafeMeansSame(a: seq<Delivery>, b: seq<Delivery>, t: Text)
    requires SameDeliveries(b, a) && RunsAgree(a, t) && OrderSafe(a, t)
    ensures StreamAfter(a, t).carried == StreamAfter(b, t).carried
  {
    hide Newer, StreamAfter, ReportedFor, SomeReport, RunsAgree, OrderSafe;
    SafeTransfers(a, b, t);
    MarkIgnoresOrder(a, b, t);
    MarkIsHighest(a, t);
    MarkIsHighest(b, t);
    if SomeReport(a, t) {
      var j: nat :| Highest(a, t, j) && StreamAfter(a, t).mark == Some(a[j].run.order);
      var k := HighestTransfers(a, b, t, j);
      SafeCarries(a, t, j);
      SafeCarries(b, t, k);
    }
  }

  /** Deliveries that are no higher than the watermark, and incomplete and already carried where they
      reach it, change nothing. */
  lemma {:induction false} TailChangesNothing(prefix: seq<Delivery>, rest: seq<Delivery>, t: Text, order: RunOrder)
    requires StreamAfter(prefix, t).mark == Some(order)
    requires forall d :: d in rest && Reports(d, t) ==>
               && !Newer(d.run.order, order)
               && (d.run.order == order ==> !CompleteFor(d, t) && ReportedFor(d, t) <= StreamAfter(prefix, t).carried)
    ensures StreamAfter(prefix + rest, t) == StreamAfter(prefix, t)
    decreases |rest|
  {
    hide Reports, ReportedFor, CompleteFor, Newer, StreamAfter;
    if rest == [] {
      assert prefix + rest == prefix;
    } else {
      var init, d := rest[..|rest| - 1], rest[|rest| - 1];
      assert rest == init + [d] && d in rest;
      assert prefix + rest == (prefix + init) + [d];
      TailChangesNothing(prefix, init, t, order);
      StreamSnoc(prefix + init, d, t);
      RunOrderIsTotal(d.run.order, order, order);
    }
  }

  /** The sequence without two of its positions. */
  ghost function Without(s: seq<Delivery>, i: nat, j: nat): (rest: seq<Delivery>)
    requires i < j < |s|
    ensures multiset(rest) + multiset{s[i], s[j]} == multiset(s)
    ensures forall d :: d in rest ==> d in s
  {
    assert s == s[..i] + [s[i]] + s[i + 1..j] + [s[j]] + s[j + 1..];
    s[..i] + s[i + 1..j] + s[j + 1..]
  }

  /** With the highest-ordered delivery first the one it does not cover is outdated; the other way round
      both are carried. */
  lemma TwoOrdersDiffer(top: Delivery, other: Delivery, rest: seq<Delivery>, t: Text)
    requires RunsAgree([top, other] + rest, t) && Highest([top, other] + rest, t, 0)
    requires !CompleteFor(top, t) && Reports(other, t) && !(ReportedFor(other, t) <= ReportedFor(top, t))
    ensures StreamAfter([top, other] + rest, t).carried != StreamAfter([other, top] + rest, t).carried
  {
    hide Reports, ReportedFor, CompleteFor, Newer, StreamAfter;
    var all, order := [top, other] + rest, top.run.order;
    assert all[0] == top && all[1] == other && top in all && other in all;
    RunOrderIsTotal(order, other.run.order, order);
    RunOrderIsTotal(other.run.order, order, order);
    TwoDelivered(top, other, t);
    TwoDelivered(other, top, t);
    forall d | d in rest && Reports(d, t)
      ensures !Newer(d.run.order, order)
      ensures d.run.order == order ==> !CompleteFor(d, t) && ReportedFor(d, t) == ReportedFor(top, t)
    {
      assert d in all;
      var i :| 0 <= i < |all| && all[i] == d;
      RunOrderIsTotal(order, d.run.order, order);
    }
    TailChangesNothing([top, other], rest, t, order);
    TailChangesNothing([other, top], rest, t, order);
  }

  lemma TwoDelivered(a: Delivery, b: Delivery, t: Text)
    ensures StreamAfter([a, b], t) == Delivered(Delivered(View(None, {}), a, t), b, t)
  {
    EmptyStream(t);
    StreamSnoc([], a, t);
    StreamSnoc([a], b, t);
    assert [] + [a] == [a] && [a] + [b] == [a, b];
  }

  lemma SameMultisetSameDeliveries(a: seq<Delivery>, b: seq<Delivery>)
    requires multiset(a) == multiset(b)
    ensures SameDeliveries(a, b)
  {
    SameElements(a, b);
  }

  /** An incomplete highest-ordered delivery that does not report all: two orders with different results. */
  lemma UnsafeOrders(deliveries: seq<Delivery>, t: Text) returns (a: seq<Delivery>, b: seq<Delivery>)
    requires RunsAgree(deliveries, t) && !OrderSafe(deliveries, t)
    ensures multiset(a) == multiset(deliveries) && multiset(b) == multiset(deliveries)
    ensures StreamAfter(a, t).carried != StreamAfter(b, t).carried
  {
    hide Reports, ReportedFor, CompleteFor, Newer, StreamAfter, Delivered, RunsAgree;
    var k: nat :| Highest(deliveries, t, k) && !CompleteFor(deliveries[k], t)
                  && !AllWithin(deliveries, t, ReportedFor(deliveries[k], t));
    var d :| d in deliveries && Reports(d, t) && !(ReportedFor(d, t) <= ReportedFor(deliveries[k], t));
    var i: nat :| i < |deliveries| && deliveries[i] == d;
    var top := deliveries[k];
    var rest := if i < k then Without(deliveries, i, k) else Without(deliveries, k, i);
    a, b := [top, d] + rest, [d, top] + rest;
    TwoFirst(top, d, rest);
    SameMultisetSameDeliveries(deliveries, a);
    TopFirst(deliveries, a, t, k);
    TwoOrdersDiffer(top, d, rest, t);
  }

  lemma TwoFirst(a: Delivery, b: Delivery, rest: seq<Delivery>)
    ensures multiset([a, b] + rest) == multiset(rest) + multiset{a, b} == multiset([b, a] + rest)
  {
  }

  lemma TopFirst(deliveries: seq<Delivery>, a: seq<Delivery>, t: Text, k: nat)
    requires Highest(deliveries, t, k) && RunsAgree(deliveries, t) && SameDeliveries(deliveries, a)
    requires |a| > 0 && a[0] == deliveries[k]
    ensures Highest(a, t, 0) && RunsAgree(a, t)
  {
    hide Reports, ReportedFor, CompleteFor, Newer;
    var j := HighestTransfers(deliveries, a, t, k);
  }

  /** All orders of the same deliveries, and all their repeats, leave a stream alike exactly when nothing
      reports it, its highest-ordered delivery is complete, or that delivery reports all that any does. */
  lemma OrderIrrelevantExactly(deliveries: seq<Delivery>, t: Text)
    requires RunsAgree(deliveries, t)
    ensures EveryOrderAgrees(deliveries, t) <==> OrderSafe(deliveries, t)
    ensures EveryOrderAndRepeatAgrees(deliveries, t) <==> OrderSafe(deliveries, t)
  {
    hide RunsAgree, OrderSafe, StreamAfter;
    if OrderSafe(deliveries, t) {
      forall others | SameDeliveries(others, deliveries)
        ensures StreamAfter(others, t).carried == StreamAfter(deliveries, t).carried
      {
        SafeMeansSame(deliveries, others, t);
      }
      forall others | multiset(others) == multiset(deliveries)
        ensures SameDeliveries(others, deliveries)
      {
        SameMultisetSameDeliveries(others, deliveries);
      }
    } else {
      var a, b := UnsafeOrders(deliveries, t);
      SameMultisetSameDeliveries(a, deliveries);
      SameMultisetSameDeliveries(b, deliveries);
    }
  }

  // ----- deliveries that fit are runs, in every order

  ghost function Mentioned(observations: seq<Observation>): set<Text> {
    set o, f | o in observations && f in o.findings :: f.fingerprint
  }

  ghost function MentionedBy(deliveries: seq<Delivery>): set<Text> {
    set d, f | d in deliveries && f in Mentioned(Merge(d.observations)) :: f
  }

  lemma {:induction false} SeeAllKeys(records: Table, stream: Text, findings: seq<Finding>, run: Run)
    ensures SeeAll(records, stream, findings, run).Keys == records.Keys + Fingerprints(findings)
    decreases |findings|
  {
    if findings != [] {
      var init, last := findings[..|findings| - 1], findings[|findings| - 1];
      assert findings == init + [last];
      SeeAllKeys(records, stream, init, run);
      assert Fingerprints(findings) == Fingerprints(init) + {last.fingerprint};
    }
  }

  lemma {:induction false} ApplyAllKeys(records: Table, accepted: seq<Observation>, run: Run)
    ensures ApplyAll(records, accepted, run).Keys <= records.Keys + Mentioned(accepted)
    decreases |accepted|
  {
    if accepted != [] {
      var init, o := accepted[..|accepted| - 1], accepted[|accepted| - 1];
      assert accepted == init + [o];
      ApplyAllKeys(records, init, run);
      SeeAllKeys(ApplyAll(records, init, run), o.stream, o.findings, run);
      assert Fingerprints(o.findings) <= Mentioned(accepted);
    }
  }

  lemma NothingEvicted(table: Table)
    requires |table| <= MAX_FINDING_LIFECYCLE_RECORDS
    ensures Evicts(table, MAX_FINDING_LIFECYCLE_RECORDS, table, {}, {})
  {
    assert table - {} == table;
  }

  lemma FittingStep(s: State, d: Delivery) returns (s': State)
    requires |s.records.Keys + Mentioned(Merge(d.observations))| <= MAX_FINDING_LIFECYCLE_RECORDS
    ensures LosslessStep(s, d, s') && s'.records.Keys <= s.records.Keys + Mentioned(Merge(d.observations))
  {
    hide Merge, Evicts;
    var merged := Merge(d.observations);
    var accepted := Accepted(merged, s.watermarks, d.run.order);
    if accepted == [] {
      s' := s;
      assert Ingested(s, d.observations, d.run, s', {}, {});
    } else {
      var settled := Settle(ApplyAll(s.records, accepted, d.run), d.run);
      ApplyAllKeys(s.records, accepted, d.run);
      MergeDistinct(d.observations);
      AcceptedSubset(merged, s.watermarks, d.run.order);
      assert settled.Keys <= s.records.Keys + Mentioned(merged);
      SizeMinus(settled.Keys, s.records.Keys + Mentioned(merged));
      NothingEvicted(settled);
      s' := State(settled, Advance(s.watermarks, accepted, d.run.order));
      assert Ingested(s, d.observations, d.run, s', {}, {});
    }
  }

  /** Deliveries that together mention no more fingerprints than the bound have a run without loss,
      whatever their order. */
  lemma {:induction false} FittingRun(deliveries: seq<Delivery>) returns (states: seq<State>)
    requires |MentionedBy(deliveries)| <= MAX_FINDING_LIFECYCLE_RECORDS
    ensures LosslessRun(states, deliveries)
    ensures states[|deliveries|].records.Keys <= MentionedBy(deliveries)
    decreases |deliveries|
  {
    hide LosslessStep, Merge, Mentioned;
    if deliveries == [] {
      states := [State(map[], map[])];
    } else {
      var n := |deliveries| - 1;
      var init, d := deliveries[..n], deliveries[n];
      assert deliveries == init + [d] && d in deliveries;
      assert MentionedBy(deliveries) == MentionedBy(init) + Mentioned(Merge(d.observations));
      SizeMinus(MentionedBy(init), MentionedBy(deliveries));
      var before := FittingRun(init);
      SizeMinus(before[n].records.Keys + Mentioned(Merge(d.observations)), MentionedBy(deliveries));
      var last := FittingStep(before[n], d);
      states := before + [last];
      RunSnoc(before, init, last, d);
    }
  }

  lemma RunSnoc(states: seq<State>, deliveries: seq<Delivery>, s': State, d: Delivery)
    requires LosslessRun(states, deliveries) && LosslessStep(states[|deliveries|], d, s')
    ensures LosslessRun(states + [s'], deliveries + [d])
  {
    hide LosslessStep;
    var n, all, ds := |deliveries|, states + [s'], deliveries + [d];
    forall i | 0 <= i <= n ensures LosslessStep(all[i], ds[i], all[i + 1]) {
      if i < n {
        assert all[i] == states[i] && all[i + 1] == states[i + 1] && ds[i] == deliveries[i];
      }
    }
  }

  // ----- two deliveries whose order matters

  /** One run that reports a single finding for one stream. */
  ghost function SingleReport(stream: Text, complete: bool, finding: Finding, run: Run): Delivery {
    Delivery([Observation(stream, complete, [finding])], run)
  }

  lemma SingleMerged(stream: Text, complete: bool, finding: Finding)
    requires ValidFingerprint(finding.fingerprint)
    ensures Merged([Observation(stream, complete, [finding])], stream) == Observation(stream, complete, [finding])
  {
    var o := Observation(stream, complete, [finding]);
    assert [o][..0] == [] && [finding][..0] == [] && [] + [finding] == [finding] && [o][0] in [o];
    assert Reported([o], stream) == [finding];
    assert FirstReports([finding]) == [finding] by {
      assert finding.fingerprint !in Fingerprints([]);
    }
    assert AllComplete([o], stream) == complete;
    assert [finding][..1] == [finding];
  }

  lemma SingleStream(stream: Text, complete: bool, finding: Finding)
    requires ValidFingerprint(finding.fingerprint)
    ensures Merge([Observation(stream, complete, [finding])]) == [Observation(stream, complete, [finding])]
  {
    hide Merged, ValidFingerprint;
    var o := Observation(stream, complete, [finding]);
    SingleMerged(stream, complete, finding);
    assert [o][..0] == [] && [stream][..0] == [];
    assert StreamOrder([o]) == [stream];
    assert MergedStreams([o], []) + [o] == [o];
  }

  lemma SingleReported(stream: Text, complete: bool, finding: Finding, run: Run)
    requires ValidFingerprint(finding.fingerprint)
    ensures var d := SingleReport(stream, complete, finding, run);
            && Reports(d, stream) && ReportedFor(d, stream) == {finding.fingerprint} && CompleteFor(d, stream) == complete
            && Mentioned(Merge(d.observations)) == {finding.fingerprint}
  {
    hide Merge, Merged, ValidFingerprint;
    var merged := [Observation(stream, complete, [finding])];
    SingleMerged(stream, complete, finding);
    SingleStream(stream, complete, finding);
    assert merged[0].stream == stream && merged[0] in merged && finding in [finding];
  }

  /** A complete older run and an incomplete newer one: delivered in their order both findings are carried,
      delivered the other way round only the newer one is. */
  lemma IncompleteOrderMatters(stream: Text, older: Finding, newer: Finding, first: Run, second: Run)
    returns (states: seq<State>, others: seq<State>)
    requires ValidFingerprint(older.fingerprint) && ValidFingerprint(newer.fingerprint)
    requires older.fingerprint != newer.fingerprint && Newer(second.order, first.order)
    ensures var a, b := SingleReport(stream, true, older, first), SingleReport(stream, false, newer, second);
            && LosslessRun(states, [a, b]) && LosslessRun(others, [b, a])
            && Carriers(states[2].records, stream) == {older.fingerprint, newer.fingerprint}
            && Carriers(others[2].records, stream) == {newer.fingerprint}
  {
    hide LosslessRun, Carriers, Merge, Merged, Newer, Reports, ReportedFor, CompleteFor, Mentioned, MentionedBy,
         StreamAfter, ValidFingerprint;
    var a, b := SingleReport(stream, true, older, first), SingleReport(stream, false, newer, second);
    SingleReported(stream, true, older, first);
    SingleReported(stream, false, newer, second);
    SingleMentioned(a, b, older.fingerprint, newer.fingerprint);
    SingleMentioned(b, a, newer.fingerprint, older.fingerprint);
    states := FittingRun([a, b]);
    others := FittingRun([b, a]);
    TwoOf(states, a, b, stream);
    TwoOf(others, b, a, stream);
    RunOrderIsTotal(first.order, second.order, first.order);
    RunOrderIsTotal(second.order, first.order, second.order);
  }

  lemma TwoOf(states: seq<State>, a: Delivery, b: Delivery, t: Text)
    requires LosslessRun(states, [a, b])
    ensures |states| == 3 && ViewOf(states[2], t) == Delivered(Delivered(View(None, {}), a, t), b, t)
  {
    hide LosslessRun, ViewOf, Delivered, StreamAfter;
    RunLength(states, [a, b]);
    StreamOfRun(states, [a, b], t, 2);
    assert [a, b][..2] == [a, b];
    TwoDelivered(a, b, t);
  }

  lemma SingleMentioned(a: Delivery, b: Delivery, x: Text, y: Text)
    requires Mentioned(Merge(a.observations)) == {x} && Mentioned(Merge(b.observations)) == {y}
    ensures MentionedBy([a, b]) == {x, y} && |MentionedBy([a, b])| <= 2
  {
    assert a in [a, b] && b in [a, b];
    assert |{x, y}| <= 2;
  }
}
