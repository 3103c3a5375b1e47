/** The advisory finding lifecycle: the updates one review makes to the retained records. */
module ReviewFindings {
  /**
   Source: apps/control-plane/src/service.ts:3273-3464, apps/control-plane/src/review-value.ts:63-110,
   apps/control-plane/src/store.ts:522-538, 1429-1491, 1686-1708.

   Records are those this code writes, with every provenance field present.  Instants are
   integers; the order of tied fingerprints is by code unit.
   */
  import opened Wrappers
  import opened Texts
  import opened Sorting
  import opened UnifiedDiff

  datatype Phase = Open | Resolved | Superseded
  datatype Outcome = Dismissed | Ignored | Fixed

  datatype Identity = Identity(path: Text, startLine: nat, endLine: nat, category: Text, severity: Text, title: Text)

  datatype Record = Record(
    fingerprint: Text, phase: Phase,
    firstSeenHead: Text, firstSeenAt: int, lastSeenHead: Text, lastSeenAt: int,
    transitions: nat, reappearances: nat,
    identity: Identity, suggestion: Option<Text>, outcome: Option<Outcome>, outcomeAt: Option<int>)

  /** A finding as the model reports it, with the digest of its suggestion. */
  datatype Report = Report(fingerprint: Text, identity: Identity, suggestion: Option<Text>)

  ghost predicate Unique(records: seq<Record>) {
    forall i, j :: 0 <= i < j < |records| ==> records[i].fingerprint != records[j].fingerprint
  }

  ghost predicate UniqueReports(reports: seq<Report>) {
    forall i, j :: 0 <= i < j < |reports| ==> reports[i].fingerprint != reports[j].fingerprint
  }

  /** What every record satisfies: an open one closed as often as it returned, a closed one once more,
      and an open one is not fixed. */
  predicate Sound(r: Record) {
    if r.phase == Open then r.transitions == 2 * r.reappearances && r.outcome != Some(Fixed)
    else r.transitions == 2 * r.reappearances + 1
  }

  ghost predicate AllSound(records: seq<Record>) {
    forall k :: 0 <= k < |records| ==> Sound(records[k])
  }

  predicate HasFingerprint(records: seq<Record>, fingerprint: Text) {
    exists k :: 0 <= k < |records| && records[k].fingerprint == fingerprint
  }

  predicate Reported(reports: seq<Report>, fingerprint: Text) {
    exists k :: 0 <= k < |reports| && reports[k].fingerprint == fingerprint
  }

  function Find(records: seq<Record>, fingerprint: Text): (r: Option<Record>)
    ensures r.None? <==> !HasFingerprint(records, fingerprint)
    ensures r.Some? ==> r.value in records && r.value.fingerprint == fingerprint
  {
    if records == [] then None
    else
      var n := |records| - 1;
      assert records == records[..n] + [records[n]];
      assert HasFingerprint(records, fingerprint) <==>
             HasFingerprint(records[..n], fingerprint) || records[n].fingerprint == fingerprint by {
        assert forall k :: 0 <= k < n ==> records[..n][k] == records[k];
      }
      if records[n].fingerprint == fingerprint then Some(records[n]) else Find(records[..n], fingerprint)
  }

  // ----- transitions

  function Transition(r: Record, phase: Phase, head: Text, now: int): Record {
    if r.phase == phase then r
    else r.(phase := phase, lastSeenHead := head, lastSeenAt := now, transitions := r.transitions + 1)
  }

  function Observe(retained: Option<Record>, f: Report, head: Text, now: int): Record {
    match retained
    case None =>
      Record(f.fingerprint, Open, head, now, head, now, 0, 0, f.identity, f.suggestion, None, None)
    case Some(r) =>
      var reappeared := r.phase != Open;
      var kept := r.outcome.Some? && !(reappeared && r.outcome == Some(Fixed));
      Record(f.fingerprint, Open, r.firstSeenHead, r.firstSeenAt, head, now,
             r.transitions + (if reappeared then 1 else 0), r.reappearances + (if reappeared then 1 else 0),
             f.identity, f.suggestion,
             if kept then r.outcome else None, if kept then r.outcomeAt else None)
  }

  lemma ObserveSound(retained: Option<Record>, f: Report, head: Text, now: int)
    requires retained.Some? ==> Sound(retained.value)
    ensures Sound(Observe(retained, f, head, now)) && Observe(retained, f, head, now).phase == Open
  {
  }

  // ----- eviction

  datatype Retention = Retention(limit: nat, retentionMs: int, absoluteMs: Option<int>)

  predicate PastCeiling(r: Record, options: Retention, now: int) {
    options.absoluteMs.Some? && r.firstSeenAt < now - options.absoluteMs.value
  }

  predicate Expired(r: Record, options: Retention, now: int) {
    r.lastSeenAt < now - options.retentionMs
  }

  predicate OlderFirst(a: Record, b: Record) {
    a.lastSeenAt < b.lastSeenAt || (a.lastSeenAt == b.lastSeenAt && AtMost(a.fingerprint, b.fingerprint))
  }

  function Survives(options: Retention, now: int): Record -> bool {
    r => !PastCeiling(r, options, now)
  }

  function IsOpen(): Record -> bool {
    (r: Record) => r.phase == Open
  }

  function IsTerminal(): Record -> bool {
    (r: Record) => r.phase != Open
  }

  function IsExpired(options: Retention, now: int): Record -> bool {
    r => Expired(r, options, now)
  }

  function NotAmong(dropped: seq<Record>): Record -> bool {
    r => r !in dropped
  }

  /** The terminal survivors, oldest observation first. */
  function OldestFirst(records: seq<Record>, options: Retention, now: int): seq<Record> {
    Sort(Filter(Filter(records, Survives(options, now)), IsTerminal()), OlderFirst)
  }

  /** How many of those are dropped: the expired, and more while the cap is exceeded but reachable. */
  function DropCount(records: seq<Record>, options: Retention, now: int): (n: nat)
    ensures n <= |OldestFirst(records, options, now)|
  {
    var surviving := Filter(records, Survives(options, now));
    var active := |Filter(surviving, IsOpen())|;
    var oldest := OldestFirst(records, options, now);
    var expired := |Filter(oldest, IsExpired(options, now))|;
    if active <= options.limit then Max(expired, active + |oldest| - options.limit) else expired
  }

  function Evict(records: seq<Record>, options: Retention, now: int): seq<Record> {
    var dropped := OldestFirst(records, options, now)[..DropCount(records, options, now)];
    Filter(Filter(records, Survives(options, now)), NotAmong(dropped))
  }

  /** The expired records come first when the oldest come first. */
  lemma {:induction false} ExpiredComeFirst(s: seq<Record>, options: Retention, now: int)
    requires forall i, j :: 0 <= i < j < |s| ==> s[i].lastSeenAt <= s[j].lastSeenAt
    ensures forall k :: 0 <= k < |s| ==> (k < |Filter(s, IsExpired(options, now))| <==> Expired(s[k], options, now))
    decreases |s|
  {
    hide Expired, Filter;
    if s == [] {
      assert |Filter(s, IsExpired(options, now))| >= 0;
    } else {
      var n := |s| - 1;
      var init := s[..n];
      assert forall k :: 0 <= k < n ==> init[k] == s[k];
      ExpiredComeFirst(init, options, now);
      FilterSnoc(init, s[n], IsExpired(options, now));
      assert s == init + [s[n]];
      if Expired(s[n], options, now) {
        forall k | 0 <= k < n ensures Expired(init[k], options, now) {
          ExpiredEarlier(s[k], s[n], options, now);
        }
        KeepsAll(init, IsExpired(options, now));
      }
    }
  }

  lemma ExpiredEarlier(a: Record, b: Record, options: Retention, now: int)
    requires a.lastSeenAt <= b.lastSeenAt && Expired(b, options, now)
    ensures Expired(a, options, now)
  {
  }

  lemma OlderFirstIsTotal()
    ensures TotalPreorder(OlderFirst)
  {
    AtMostIsTotal();
  }

  lemma OldestOrdered(records: seq<Record>, options: Retention, now: int)
    ensures forall i, j :: 0 <= i < j < |OldestFirst(records, options, now)| ==>
              OlderFirst(OldestFirst(records, options, now)[i], OldestFirst(records, options, now)[j])
    ensures forall r :: r in OldestFirst(records, options, now) <==>
              r in records && !PastCeiling(r, options, now) && r.phase != Open
  {
    OlderFirstIsTotal();
    var terminal := Filter(Filter(records, Survives(options, now)), IsTerminal());
    SortOrdered(terminal, OlderFirst);
    SortPermutes(terminal, OlderFirst);
  }

  lemma InPrefix(s: seq<Record>, n: nat, j: nat)
    requires n <= |s| && j < |s|
    ensures j < n ==> s[j] in s[..n]
  {
  }

  /** A terminal record that the window or the cap drops. */
  predicate Lost(t: Record, records: seq<Record>, options: Retention, now: int) {
    t in records && t.phase != Open && !PastCeiling(t, options, now) && t !in Evict(records, options, now)
  }

  /** What survives eviction: every open record the ceiling allows, and the most recently observed
      terminal ones. */
  lemma EvictKeeps(records: seq<Record>, options: Retention, now: int)
    ensures forall r :: r in Evict(records, options, now) ==> r in records && !PastCeiling(r, options, now)
    ensures forall r :: r in records && r.phase == Open && !PastCeiling(r, options, now) ==> r in Evict(records, options, now)
    ensures forall r, t :: r in Evict(records, options, now) && r.phase != Open && Lost(t, records, options, now) ==>
              OlderFirst(t, r)
  {
    hide Sort, PastCeiling;
    OldestOrdered(records, options, now);
    var oldest, n := OldestFirst(records, options, now), DropCount(records, options, now);
    var kept := Evict(records, options, now);
    forall r, t | r in kept && r.phase != Open && Lost(t, records, options, now)
      ensures OlderFirst(t, r)
    {
      assert t in oldest[..n] && r in oldest && r !in oldest[..n];
      var i :| 0 <= i < n && oldest[..n][i] == t;
      var j :| 0 <= j < |oldest| && oldest[j] == r;
      assert oldest[..n][i] == oldest[i];
      InPrefix(oldest, n, j);
    }
  }

  lemma {:induction false} FilterUnique(records: seq<Record>, keep: Record -> bool)
    requires Unique(records)
    ensures Unique(Filter(records, keep))
    decreases |records|
  {
    if records != [] {
      var n := |records| - 1;
      var init := records[..n];
      FilterUnique(init, keep);
      forall k | 0 <= k < |Filter(init, keep)| ensures Filter(init, keep)[k].fingerprint != records[n].fingerprint {
        assert Filter(init, keep)[k] in init;
        var j :| 0 <= j < n && init[j] == Filter(init, keep)[k];
        assert records[j] == init[j];
      }
    }
  }

  lemma EvictUnique(records: seq<Record>, options: Retention, now: int)
    requires Unique(records)
    ensures Unique(Evict(records, options, now))
  {
    var dropped := OldestFirst(records, options, now)[..DropCount(records, options, now)];
    FilterUnique(records, Survives(options, now));
    FilterUnique(Filter(records, Survives(options, now)), NotAmong(dropped));
  }

  lemma {:induction false} FilterPartition(records: seq<Record>)
    ensures |Filter(records, IsOpen())| + |Filter(records, IsTerminal())| == |records|
    decreases |records|
  {
    if records != [] {
      FilterPartition(records[..|records| - 1]);
    }
  }

  lemma {:induction false} FilterAmongCount(records: seq<Record>, dropped: seq<Record>)
    requires Unique(records) && Distinct(dropped) && forall r :: r in dropped ==> r in records
    ensures |Filter(records, NotAmong(dropped))| == |records| - |dropped|
    decreases |dropped|
  {
    if dropped == [] {
      KeepsAll(records, NotAmong(dropped));
    } else {
      var n := |dropped| - 1;
      var d := dropped[n];
      assert dropped == dropped[..n] + [d] && d in dropped;
      FilterAmongCount(records, dropped[..n]);
      assert d !in dropped[..n];
      OneFewer(records, dropped[..n], d);
      assert dropped[..n] + [d] == dropped;
    }
  }

  lemma {:induction false} KeepsAll(records: seq<Record>, keep: Record -> bool)
    requires forall r :: r in records ==> keep(r)
    ensures Filter(records, keep) == records
    decreases |records|
  {
    if records != [] {
      var n := |records| - 1;
      assert records == records[..n] + [records[n]];
      KeepsAll(records[..n], keep);
    }
  }

  lemma {:induction false} SameFilter(records: seq<Record>, a: Record -> bool, b: Record -> bool)
    requires forall r :: r in records ==> a(r) == b(r)
    ensures Filter(records, a) == Filter(records, b)
    decreases |records|
  {
    if records != [] {
      var n := |records| - 1;
      assert records == records[..n] + [records[n]];
      SameFilter(records[..n], a, b);
    }
  }

  lemma {:induction false} OneFewer(records: seq<Record>, dropped: seq<Record>, d: Record)
    requires Unique(records) && d in records && d !in dropped
    ensures |Filter(records, NotAmong(dropped + [d]))| == |Filter(records, NotAmong(dropped))| - 1
    decreases |records|
  {
    var n := |records| - 1;
    var init := records[..n];
    assert records == init + [records[n]];
    assert forall k :: 0 <= k < n ==> init[k] == records[k];
    if records[n] == d {
      assert forall r :: r in init ==> r != d;
      SameFilter(init, NotAmong(dropped + [d]), NotAmong(dropped));
    } else {
      assert d in init;
      OneFewer(init, dropped, d);
    }
  }

  lemma UniqueIsDistinct(records: seq<Record>)
    requires Unique(records)
    ensures Distinct(records)
  {
  }

  /** How many records are left: the cap is met whenever the open ones alone do not exceed it, and
      nothing beyond the expired is given up otherwise. */
  lemma EvictSize(records: seq<Record>, options: Retention, now: int)
    requires Unique(records)
    ensures var surviving := Filter(records, Survives(options, now));
            var active := |Filter(surviving, IsOpen())|;
            var unexpired := |surviving| - |Filter(OldestFirst(records, options, now), IsExpired(options, now))|;
            |Evict(records, options, now)| == if active <= options.limit then Min(unexpired, options.limit) else unexpired
  {
    hide Sort, Filter, OlderFirst, Unique, Distinct;
    var surviving := Filter(records, Survives(options, now));
    var oldest := OldestFirst(records, options, now);
    var n := DropCount(records, options, now);
    FilterUnique(records, Survives(options, now));
    FilterPartition(surviving);
    PrefixDistinct(surviving, oldest, n);
    FilterAmongCount(surviving, oldest[..n]);
  }

  lemma PrefixDistinct(surviving: seq<Record>, oldest: seq<Record>, n: nat)
    requires Unique(surviving) && oldest == Sort(Filter(surviving, IsTerminal()), OlderFirst) && n <= |oldest|
    ensures Distinct(oldest[..n]) && forall r :: r in oldest[..n] ==> r in surviving
  {
    hide Sort, Filter, OlderFirst;
    var terminal := Filter(surviving, IsTerminal());
    FilterUnique(surviving, IsTerminal());
    UniqueIsDistinct(terminal);
    SortDistinct(terminal, OlderFirst);
    SortPermutes(terminal, OlderFirst);
    forall r | r in oldest[..n] ensures r in surviving {
      assert r in oldest;
    }
  }

  // ----- exactly which records stay

  /** Past the absolute ceiling no record stays. */
  ghost predicate UnderCeiling(r: Record, options: Retention, now: int) {
    options.absoluteMs.Some? ==> r.firstSeenAt >= now - options.absoluteMs.value
  }

  /** Observed no earlier than r; at the same time, with a fingerprint no smaller. */
  ghost predicate AsRecent(a: Record, r: Record) {
    a.lastSeenAt > r.lastSeenAt
    || (a.lastSeenAt == r.lastSeenAt && (a.fingerprint == r.fingerprint || Precedes(r.fingerprint, a.fingerprint)))
  }

  ghost function OpenUnder(records: seq<Record>, options: Retention, now: int): set<Record> {
    set r | r in records && r.phase == Open && UnderCeiling(r, options, now)
  }

  ghost function RecentUnder(records: seq<Record>, x: Record, options: Retention, now: int): set<Record> {
    set r | r in records && r.phase != Open && UnderCeiling(r, options, now) && AsRecent(r, x)
  }

  lemma OlderFirstMeans(a: Record, b: Record)
    ensures OlderFirst(a, b) <==> AsRecent(b, a)
  {
    LessMeans(b.fingerprint, a.fingerprint);
    LessMeans(a.fingerprint, b.fingerprint);
    LessTotal(a.fingerprint, b.fingerprint);
    LessAsymmetric(a.fingerprint, b.fingerprint);
    LessIrreflexive(a.fingerprint);
  }

  lemma {:induction false} DistinctSize(s: seq<Record>, members: set<Record>)
    requires Distinct(s) && forall r :: r in s <==> r in members
    ensures |s| == |members|
    decreases |s|
  {
    if s == [] {
      assert members == {};
    } else {
      var n := |s| - 1;
      assert s == s[..n] + [s[n]];
      DistinctSize(s[..n], members - {s[n]});
    }
  }

  lemma OpenCount(records: seq<Record>, options: Retention, now: int)
    requires Unique(records)
    ensures |Filter(Filter(records, Survives(options, now)), IsOpen())| == |OpenUnder(records, options, now)|
  {
    var surviving := Filter(records, Survives(options, now));
    FilterUnique(records, Survives(options, now));
    FilterUnique(surviving, IsOpen());
    UniqueIsDistinct(Filter(surviving, IsOpen()));
    DistinctSize(Filter(surviving, IsOpen()), OpenUnder(records, options, now));
  }

  /** The terminal survivors from position j on are those at least as recent as the one there. */
  lemma RecentCount(records: seq<Record>, options: Retention, now: int, j: nat)
    requires Unique(records) && j < |OldestFirst(records, options, now)|
    ensures var oldest := OldestFirst(records, options, now);
            |oldest| - j == |RecentUnder(records, oldest[j], options, now)|
  {
    hide Sort, Filter, OlderFirst, AsRecent;
    var oldest := OldestFirst(records, options, now);
    var x := oldest[j];
    OldestOrdered(records, options, now);
    OldestDistinct(records, options, now);
    forall r ensures r in oldest[j..] <==> r in RecentUnder(records, x, options, now) {
      if r in oldest[j..] {
        var k :| 0 <= k < |oldest[j..]| && oldest[j..][k] == r;
        assert r == oldest[j + k];
        OlderOrSame(x, r);
      }
      if r in RecentUnder(records, x, options, now) {
        assert r in oldest;
        var k :| 0 <= k < |oldest| && oldest[k] == r;
        if k < j {
          OneWay(oldest[k], oldest[j]);
        } else {
          assert oldest[j..][k - j] == r;
        }
      }
    }
    DistinctSize(oldest[j..], RecentUnder(records, x, options, now));
  }

  lemma OldestDistinct(records: seq<Record>, options: Retention, now: int)
    requires Unique(records)
    ensures Unique(OldestFirst(records, options, now)) && Distinct(OldestFirst(records, options, now))
  {
    var surviving := Filter(records, Survives(options, now));
    FilterUnique(records, Survives(options, now));
    FilterUnique(surviving, IsTerminal());
    UniqueIsDistinct(Filter(surviving, IsTerminal()));
    SortDistinct(Filter(surviving, IsTerminal()), OlderFirst);
    SortPermutes(Filter(surviving, IsTerminal()), OlderFirst);
    SortedUnique(Filter(surviving, IsTerminal()), OldestFirst(records, options, now));
  }

  lemma SortedUnique(a: seq<Record>, b: seq<Record>)
    requires Unique(a) && Distinct(b) && forall r :: r in b <==> r in a
    ensures Unique(b)
  {
    forall i, j | 0 <= i < j < |b| ensures b[i].fingerprint != b[j].fingerprint {
      assert b[i] in a && b[j] in a;
      var k :| 0 <= k < |a| && a[k] == b[i];
      var m :| 0 <= m < |a| && a[m] == b[j];
      assert k != m;
    }
  }

  lemma OlderOrSame(x: Record, r: Record)
    requires x == r || OlderFirst(x, r)
    ensures AsRecent(r, x)
  {
    OlderFirstMeans(x, r);
  }

  lemma OneWay(a: Record, b: Record)
    requires OlderFirst(a, b) && AsRecent(a, b)
    ensures a.fingerprint == b.fingerprint
  {
    OlderFirstMeans(a, b);
    OlderFirstMeans(b, a);
    LessTotal(a.fingerprint, b.fingerprint);
  }

  /** An open record stays exactly under the ceiling.  A terminal one stays exactly when it is also inside the
      retention window and the limit has room for the open records and the terminal ones at least as recent, or
      the open ones alone exceed the limit. */
  lemma EvictExactly(records: seq<Record>, options: Retention, now: int, x: Record)
    requires Unique(records) && x in records
    ensures x.phase == Open ==> (x in Evict(records, options, now) <==> UnderCeiling(x, options, now))
    ensures x.phase != Open ==>
              var active := |OpenUnder(records, options, now)|;
              x in Evict(records, options, now) <==>
              && UnderCeiling(x, options, now) && x.lastSeenAt >= now - options.retentionMs
              && (active > options.limit || active + |RecentUnder(records, x, options, now)| <= options.limit)
  {
    hide Sort, OlderFirst, Unique, Distinct, RecentUnder, OpenUnder;
    OldestOrdered(records, options, now);
    var oldest, n := OldestFirst(records, options, now), DropCount(records, options, now);
    OpenCount(records, options, now);
    OldestByTime(records, options, now);
    if x in oldest {
      var j: nat :| j < |oldest| && oldest[j] == x;
      RecentCount(records, options, now, j);
      DroppedBelow(records, options, now, j);
    }
  }

  lemma DroppedBelow(records: seq<Record>, options: Retention, now: int, j: nat)
    requires Unique(records) && j < |OldestFirst(records, options, now)|
    ensures var oldest, n := OldestFirst(records, options, now), DropCount(records, options, now);
            oldest[j] in oldest[..n] <==> j < n
  {
    hide Sort, OlderFirst, DropCount;
    var oldest, n := OldestFirst(records, options, now), DropCount(records, options, now);
    OldestDistinct(records, options, now);
    assert DropCount(records, options, now) <= |oldest|;
    if oldest[j] in oldest[..n] {
      var k :| 0 <= k < n && oldest[..n][k] == oldest[j];
      assert oldest[k] == oldest[j];
    }
    InPrefix(oldest, n, j);
  }

  // ----- the eviction procedure

  function NotIn(dropped: set<Record>): Record -> bool {
    r => r !in dropped
  }

  lemma {:induction false} DroppedCount(records: seq<Record>, dropped: set<Record>)
    requires Unique(records) && forall r :: r in dropped ==> r in records
    ensures |Filter(records, NotIn(dropped))| == |records| - |dropped|
    decreases |records|
  {
    hide Unique, Filter;
    if records == [] {
      assert dropped == {};
      KeepsAll(records, NotIn(dropped));
    } else {
      var n := |records| - 1;
      var init, last := records[..n], records[n];
      var rest := dropped - {last};
      UniqueInit(records);
      assert records == init + [last];
      forall r | r in rest ensures r in init {
        assert r in records;
      }
      DroppedCount(init, rest);
      SameFilter(init, NotIn(dropped), NotIn(rest));
      FilterSnoc(init, last, NotIn(dropped));
      assert dropped == if last in dropped then rest + {last} else rest;
    }
  }

  lemma UniqueInit(records: seq<Record>)
    requires Unique(records) && records != []
    ensures Unique(records[..|records| - 1]) && records[|records| - 1] !in records[..|records| - 1]
  {
  }

  function CeilingSet(records: seq<Record>, options: Retention, now: int): set<Record> {
    set r | r in records && PastCeiling(r, options, now)
  }

  function PrefixSet(oldest: seq<Record>, n: nat): set<Record>
    requires n <= |oldest|
  {
    set r | r in oldest[..n]
  }

  lemma PrefixSetGrows(oldest: seq<Record>, n: nat)
    requires n < |oldest|
    ensures PrefixSet(oldest, n + 1) == PrefixSet(oldest, n) + {oldest[n]}
  {
    assert oldest[..n + 1] == oldest[..n] + [oldest[n]];
  }

  lemma {:induction false} FilterTwice(records: seq<Record>, a: Record -> bool, b: Record -> bool, both: Record -> bool)
    requires forall r :: r in records ==> (both(r) <==> a(r) && b(r))
    ensures Filter(Filter(records, a), b) == Filter(records, both)
    decreases |records|
  {
    if records != [] {
      var n := |records| - 1;
      assert records == records[..n] + [records[n]];
      FilterTwice(records[..n], a, b, both);
      FilterSnoc(records[..n], records[n], a);
      FilterSnoc(records[..n], records[n], both);
      FilterSnoc(Filter(records[..n], a), records[n], b);
    }
  }

  lemma EvictBySet(records: seq<Record>, options: Retention, now: int)
    ensures var dropped := CeilingSet(records, options, now)
                           + PrefixSet(OldestFirst(records, options, now), DropCount(records, options, now));
            && Evict(records, options, now) == Filter(records, NotIn(dropped))
            && forall r :: r in dropped ==> r in records
  {
    hide Sort, PastCeiling;
    OldestOrdered(records, options, now);
    var oldest, n := OldestFirst(records, options, now), DropCount(records, options, now);
    var dropped := CeilingSet(records, options, now) + PrefixSet(oldest, n);
    FilterTwice(records, Survives(options, now), NotAmong(oldest[..n]), NotIn(dropped));
    forall r | r in PrefixSet(oldest, n) ensures r in records {
      assert r in oldest;
    }
  }

  method PassCeiling(records: seq<Record>, options: Retention, now: int) returns (dropped: set<Record>)
    ensures dropped == CeilingSet(records, options, now)
  {
    dropped := {};
    if options.absoluteMs.Some? {
      for k := 0 to |records|
        invariant dropped == CeilingSet(records[..k], options, now)
      {
        assert records[..k + 1] == records[..k] + [records[k]];
        if PastCeiling(records[k], options, now) {
          dropped := dropped + {records[k]};
        }
      }
      assert records[..|records|] == records;
    }
  }

  lemma OldestByTime(records: seq<Record>, options: Retention, now: int)
    ensures forall k :: 0 <= k < |OldestFirst(records, options, now)| ==>
              (k < |Filter(OldestFirst(records, options, now), IsExpired(options, now))| <==>
               Expired(OldestFirst(records, options, now)[k], options, now))
  {
    hide Sort, Expired;
    OldestOrdered(records, options, now);
    ExpiredComeFirst(OldestFirst(records, options, now), options, now);
  }

  /** The two passes over the terminal records, oldest first: the expired, then as many as the cap needs. */
  method PassTerminal(oldest: seq<Record>, active: nat, options: Retention, now: int) returns (n: nat, dropped: set<Record>)
    requires forall k :: 0 <= k < |oldest| ==>
               (k < |Filter(oldest, IsExpired(options, now))| <==> Expired(oldest[k], options, now))
    requires Distinct(oldest)
    ensures n <= |oldest| && dropped == PrefixSet(oldest, n)
    ensures var expired := |Filter(oldest, IsExpired(options, now))|;
            n == if active <= options.limit then Max(expired, active + |oldest| - options.limit) else expired
  {
    hide Expired;
    ghost var expired := |Filter(oldest, IsExpired(options, now))|;
    dropped := {};
    var count: nat := 0;
    for k := 0 to |oldest|
      invariant count == (if k < expired then k else expired) && dropped == PrefixSet(oldest, count)
    {
      if Expired(oldest[k], options, now) {
        PrefixSetGrows(oldest, k);
        dropped := dropped + {oldest[k]};
        count := count + 1;
      }
    }
    if active <= options.limit {
      var k := 0;
      while k < |oldest| && active + (|oldest| - count) > options.limit
        invariant k <= |oldest| && expired <= count <= |oldest| && count == (if k < expired then expired else k)
        invariant dropped == PrefixSet(oldest, count)
        invariant count > expired ==> active + (|oldest| - count) >= options.limit
      {
        if k >= count {
          PrefixSetGrows(oldest, k);
          NotInPrefix(oldest, k);
          dropped := dropped + {oldest[k]};
          count := count + 1;
        }
        k := k + 1;
      }
    }
    n := count;
  }

  lemma NotInPrefix(oldest: seq<Record>, k: nat)
    requires Distinct(oldest) && k < |oldest|
    ensures oldest[k] !in PrefixSet(oldest, k)
  {
  }

  /** The retained records, and how many were dropped. */
  method EvictTerminalReviewFindings(records: seq<Record>, options: Retention, now: int)
    returns (kept: seq<Record>, evicted: nat)
    requires Unique(records)
    ensures kept == Evict(records, options, now) && evicted == |records| - |kept|
  {
    hide Sort, Unique, Distinct, PastCeiling, Expired, Filter, Evict;
    var dropped := PassCeiling(records, options, now);
    var surviving := Filter(records, Survives(options, now));
    var active, oldest := Filter(surviving, IsOpen()), Sort(Filter(surviving, IsTerminal()), OlderFirst);
    FilterUnique(records, Survives(options, now));
    PrefixDistinct(surviving, oldest, |oldest|);
    assert oldest[..|oldest|] == oldest;
    assert oldest == OldestFirst(records, options, now);
    OldestByTime(records, options, now);
    var n, terminal := PassTerminal(oldest, |active|, options, now);
    dropped := dropped + terminal;
    EvictBySet(records, options, now);
    DroppedCount(records, dropped);
    kept := Filter(records, NotIn(dropped));
    evicted := |dropped|;
  }

  // ----- one review's update

  /** A stored review: the head last reviewed, if any, and the retained records. */
  datatype Row = Row(reviewedHead: Option<Text>, records: seq<Record>)

  function Close(r: Record, phase: Phase, head: Text, now: int): Record {
    if r.phase == Open then Transition(r, phase, head, now) else r
  }

  function CloseAll(records: seq<Record>, phase: Phase, head: Text, now: int): (r: seq<Record>)
    ensures |r| == |records|
  {
    seq(|records|, k requires 0 <= k < |records| => Close(records[k], phase, head, now))
  }

  function NotReported(reports: seq<Report>): Record -> bool {
    (r: Record) => !Reported(reports, r.fingerprint)
  }

  function Observed(records: seq<Record>, reports: seq<Report>, head: Text, now: int): (r: seq<Record>)
    ensures |r| == |reports|
  {
    seq(|reports|, k requires 0 <= k < |reports| =>
      Observe(Find(records, reports[k].fingerprint), reports[k], head, now))
  }

  /** A record gone from a repeated review of one head is resolved; across heads it is superseded. */
  function Combined(existing: Row, head: Text, reports: seq<Report>, now: int): seq<Record> {
    CloseAll(Filter(existing.records, NotReported(reports)),
             if existing.reviewedHead == Some(head) then Resolved else Superseded, head, now)
    + Observed(existing.records, reports, head, now)
  }

  function MergeFindingStates(existing: Row, head: Text, reports: seq<Report>, now: int, options: Retention): seq<Record> {
    Evict(Combined(existing, head, reports, now), options, now)
  }

  function PreserveFindingStates(existing: Row, head: Text, now: int, options: Retention): seq<Record> {
    Evict(if existing.reviewedHead != Some(head) then CloseAll(existing.records, Superseded, head, now)
          else existing.records, options, now)
  }

  function SupersedeOpen(existing: Row, head: Text, now: int, options: Retention): seq<Record> {
    Evict(CloseAll(existing.records, Superseded, head, now), options, now)
  }

  /** Some deleted old-side line falls in the record's range. */
  predicate Rewritten(r: Record, removed: map<Text, set<nat>>) {
    && r.identity.path != [] && r.identity.startLine > 0 && r.identity.endLine > 0
    && r.identity.path in removed
    && exists line :: r.identity.startLine <= line <= r.identity.endLine && line in removed[r.identity.path]
  }

  predicate WasOpen(previous: seq<Record>, fingerprint: Text) {
    exists k :: 0 <= k < |previous| && previous[k].phase == Open && previous[k].fingerprint == fingerprint
  }

  predicate BecomesFixed(previous: seq<Record>, r: Record, removed: map<Text, set<nat>>) {
    r.phase != Open && r.outcome.None? && WasOpen(previous, r.fingerprint) && Rewritten(r, removed)
  }

  function MarkFixed(previous: seq<Record>, merged: seq<Record>, removed: map<Text, set<nat>>, now: int): (r: seq<Record>)
    ensures |r| == |merged|
  {
    seq(|merged|, k requires 0 <= k < |merged| =>
      if BecomesFixed(previous, merged[k], removed) then merged[k].(outcome := Some(Fixed), outcomeAt := Some(now))
      else merged[k])
  }

  method RangeRewritten(r: Record, removed: set<nat>) returns (rewritten: bool)
    ensures rewritten <==> exists line :: r.identity.startLine <= line <= r.identity.endLine && line in removed
  {
    rewritten := false;
    var line := r.identity.startLine;
    while line <= r.identity.endLine
      invariant r.identity.startLine <= line
      invariant forall l :: r.identity.startLine <= l < line ==> l !in removed
      decreases r.identity.endLine + 1 - line
    {
      if line in removed {
        return true;
      }
      line := line + 1;
    }
  }

  /** A file of the incremental diff, as the model received it. */
  datatype ChangedFile = ChangedFile(filename: Text, previousFilename: Option<Text>, patch: Option<Text>)

  function OldPath(file: ChangedFile): Text {
    file.previousFilename.GetOr(file.filename)
  }

  /** The old-side lines a file's patch deletes; none without a patch. */
  function DeletedIn(file: ChangedFile): set<nat> {
    if file.patch.GetOr([]) == [] then {} else AsSet(Recorded(Old, file.patch.value))
  }

  /** The deleted lines by the path at the previous head; files without deletions are left out. */
  function RemovedByPath(files: seq<ChangedFile>): map<Text, set<nat>> {
    if files == [] then map[]
    else
      var init, file := RemovedByPath(files[..|files| - 1]), files[|files| - 1];
      if DeletedIn(file) == {} then init else init[OldPath(file) := DeletedIn(file)]
  }

  ghost predicate LastDeleting(files: seq<ChangedFile>, path: Text, i: nat) {
    && i < |files| && OldPath(files[i]) == path && DeletedIn(files[i]) != {}
    && forall j :: i < j < |files| && OldPath(files[j]) == path ==> DeletedIn(files[j]) == {}
  }

  /** A path stands for the lines deleted by the last file that deletes any at it, and is absent when none
      does. */
  lemma {:induction false} RemovedByPathMeans(files: seq<ChangedFile>, path: Text)
    ensures path in RemovedByPath(files) <==> exists i: nat :: LastDeleting(files, path, i)
    ensures forall i: nat :: LastDeleting(files, path, i) ==> RemovedByPath(files)[path] == DeletedIn(files[i])
    decreases |files|
  {
    hide AsSet, Recorded;
    if files != [] {
      var n := |files| - 1;
      var init, file := files[..n], files[n];
      assert files == init + [file];
      RemovedByPathMeans(init, path);
      if OldPath(file) == path && DeletedIn(file) != {} {
        assert LastDeleting(files, path, n);
      } else {
        forall i: nat ensures LastDeleting(files, path, i) <==> LastDeleting(init, path, i) {
          LastDeletingSnoc(init, file, path, i);
        }
      }
    }
  }

  lemma LastDeletingSnoc(init: seq<ChangedFile>, file: ChangedFile, path: Text, i: nat)
    requires OldPath(file) == path ==> DeletedIn(file) == {}
    ensures LastDeleting(init + [file], path, i) <==> LastDeleting(init, path, i)
  {
    hide DeletedIn;
    var all := init + [file];
    assert forall k :: 0 <= k < |init| ==> all[k] == init[k];
    if LastDeleting(init, path, i) {
      forall j | i < j < |all| && OldPath(all[j]) == path ensures DeletedIn(all[j]) == {} {
        if j < |init| {
          assert OldPath(init[j]) == path;
        }
      }
    }
    if LastDeleting(all, path, i) {
      assert i != |init|;
      forall j | i < j < |init| && OldPath(init[j]) == path ensures DeletedIn(init[j]) == {} {
        assert OldPath(all[j]) == path;
      }
    }
  }

  method CollectRemoved(files: seq<ChangedFile>) returns (removedByPath: map<Text, set<nat>>)
    ensures removedByPath == RemovedByPath(files)
  {
    removedByPath := map[];
    for k := 0 to |files|
      invariant removedByPath == RemovedByPath(files[..k])
    {
      hide Recorded, AsSet;
      var file := files[k];
      assert files[..k + 1][..k] == files[..k];
      if file.patch.GetOr([]) != [] {
        var removed := RemovedLineNumbers(file.patch.value);
        if removed != {} {
          removedByPath := removedByPath[OldPath(file) := removed];
        }
      }
    }
    assert files[..|files|] == files;
  }

  method FixedByChange(previous: seq<Record>, r: Record, removed: map<Text, set<nat>>) returns (fixed: bool)
    ensures fixed == BecomesFixed(previous, r, removed)
  {
    if r.phase == Open || r.outcome.Some? || !WasOpen(previous, r.fingerprint)
       || r.identity.path == [] || r.identity.startLine == 0 || r.identity.endLine == 0
       || r.identity.path !in removed {
      return false;
    }
    fixed := RangeRewritten(r, removed[r.identity.path]);
  }

  /** The positions of the records that become fixed. */
  ghost function FixedAmong(previous: seq<Record>, merged: seq<Record>, removed: map<Text, set<nat>>): set<int> {
    set k | 0 <= k < |merged| && BecomesFixed(previous, merged[k], removed)
  }

  lemma MarkedNext(previous: seq<Record>, before: seq<Record>, r: Record, removed: map<Text, set<nat>>, now: int)
    ensures var fixed := BecomesFixed(previous, r, removed);
            && MarkFixed(previous, before + [r], removed, now)
               == MarkFixed(previous, before, removed, now)
                  + [if fixed then r.(outcome := Some(Fixed), outcomeAt := Some(now)) else r]
            && |FixedAmong(previous, before + [r], removed)|
               == |FixedAmong(previous, before, removed)| + (if fixed then 1 else 0)
  {
    hide BecomesFixed;
    var all := before + [r];
    assert forall k :: 0 <= k < |before| ==> all[k] == before[k];
    assert all[|before|] == r;
    assert FixedAmong(previous, all, removed)
        == FixedAmong(previous, before, removed) + (if BecomesFixed(previous, r, removed) then {|before|} else {});
  }

  /** Marks what the change fixed, and counts it. */
  method MarkFixedOutcomes(previous: seq<Record>, merged: seq<Record>, files: seq<ChangedFile>, now: int)
    returns (records: seq<Record>, fixed: nat)
    ensures records == MarkFixed(previous, merged, RemovedByPath(files), now)
    ensures fixed == |FixedAmong(previous, merged, RemovedByPath(files))|
  {
    hide BecomesFixed, RemovedByPath;
    var removed := CollectRemoved(files);
    records, fixed := [], 0;
    assert FixedAmong(previous, [], removed) == {};
    for k := 0 to |merged|
      invariant records == MarkFixed(previous, merged[..k], removed, now)
      invariant fixed == |FixedAmong(previous, merged[..k], removed)|
    {
      hide MarkFixed, FixedAmong;
      var r := merged[k];
      MarkedNext(previous, merged[..k], r, removed, now);
      assert merged[..k + 1] == merged[..k] + [r];
      var becomes := FixedByChange(previous, r, removed);
      if becomes {
        fixed := fixed + 1;
        r := r.(outcome := Some(Fixed), outcomeAt := Some(now));
      }
      records := records + [r];
    }
    assert merged[..|merged|] == merged;
  }

  /** A record becomes fixed exactly when it was open, is no longer, has no outcome yet, and a line of its range
      was deleted at its path; nothing else changes. */
  lemma MarkFixedExactly(previous: seq<Record>, merged: seq<Record>, removed: map<Text, set<nat>>, now: int, k: nat)
    requires k < |merged|
    ensures var r := merged[k];
            MarkFixed(previous, merged, removed, now)[k] ==
            if && r.phase != Open && r.outcome.None?
               && (exists p :: p in previous && p.phase == Open && p.fingerprint == r.fingerprint)
               && r.identity.path != [] && r.identity.startLine > 0 && r.identity.endLine > 0
               && r.identity.path in removed
               && (exists line :: line in removed[r.identity.path] && r.identity.startLine <= line <= r.identity.endLine)
            then r.(outcome := Some(Fixed), outcomeAt := Some(now)) else r
  {
    var r := merged[k];
    if p :| p in previous && p.phase == Open && p.fingerprint == r.fingerprint {
      var j :| 0 <= j < |previous| && previous[j] == p;
      assert WasOpen(previous, r.fingerprint);
    }
  }

  // ----- outcomes people record

  datatype Observation = Dismiss(fingerprint: Text, at: int) | Ignore(at: int)

  predicate Eligible(r: Record, o: Observation) {
    match o
    case Dismiss(fingerprint, _) => r.fingerprint == fingerprint && r.outcome != Some(Dismissed)
    case Ignore(_) => r.phase == Open && r.outcome.None?
  }

  function WithOutcome(r: Record, o: Observation): Record {
    if !Eligible(r, o) then r
    else
      match o
      case Dismiss(_, at) => r.(outcome := Some(Dismissed), outcomeAt := Some(at))
      case Ignore(at) => r.(outcome := Some(Ignored), outcomeAt := Some(at))
  }

  function ApplyFindingOutcome(records: seq<Record>, o: Observation): (r: seq<Record>)
    ensures |r| == |records|
  {
    seq(|records|, k requires 0 <= k < |records| => WithOutcome(records[k], o))
  }

  /** A dismissal reaches the one finding it names unless already dismissed; a merge marks as ignored every open
      finding without an outcome; no other field of a record and no other record changes. */
  lemma OutcomeExactly(records: seq<Record>, fingerprint: Text, at: int, k: nat)
    requires k < |records|
    ensures ApplyFindingOutcome(records, Dismiss(fingerprint, at))[k] ==
            if records[k].fingerprint == fingerprint && records[k].outcome != Some(Dismissed)
            then records[k].(outcome := Some(Dismissed), outcomeAt := Some(at)) else records[k]
    ensures ApplyFindingOutcome(records, Ignore(at))[k] ==
            if records[k].phase == Open && records[k].outcome.None?
            then records[k].(outcome := Some(Ignored), outcomeAt := Some(at)) else records[k]
  {
  }

  predicate ByAPerson(r: Record) {
    r.outcome == Some(Dismissed) || r.outcome == Some(Ignored)
  }

  function IsRecorded(): Record -> bool {
    (r: Record) => ByAPerson(r)
  }

  function CarryOne(r: Record, source: Option<Record>): Record {
    if source.None? || r.outcome == Some(Dismissed) || r.outcome == source.value.outcome then r
    else if source.value.outcome == Some(Ignored) && r.outcome.Some? then r
    else r.(outcome := source.value.outcome,
            outcomeAt := if source.value.outcomeAt.Some? then source.value.outcomeAt else r.outcomeAt)
  }

  function CarryRecordedOutcomes(records: seq<Record>, latest: seq<Record>): (r: seq<Record>)
    ensures |r| == |records|
  {
    var recorded := Filter(latest, IsRecorded());
    seq(|records|, k requires 0 <= k < |records| => CarryOne(records[k], Find(recorded, records[k].fingerprint)))
  }

  /** What a save makes of a computed record when the row it overwrites has one for the finding: a dismissal there
      replaces any other outcome, an ignored merge only a missing one, and nothing else is taken over. */
  lemma CarryExactly(computed: seq<Record>, row: seq<Record>, k: nat, b: Record)
    requires Unique(row) && k < |computed| && b in row && b.fingerprint == computed[k].fingerprint
    ensures var c, r := computed[k], CarryRecordedOutcomes(computed, row)[k];
            if b.outcome == Some(Dismissed) && c.outcome != Some(Dismissed) then
              r == c.(outcome := Some(Dismissed), outcomeAt := if b.outcomeAt.Some? then b.outcomeAt else c.outcomeAt)
            else if b.outcome == Some(Ignored) && c.outcome.None? then
              r == c.(outcome := Some(Ignored), outcomeAt := if b.outcomeAt.Some? then b.outcomeAt else c.outcomeAt)
            else r == c
  {
    hide Filter;
    var recorded := Filter(row, IsRecorded());
    FilterUnique(row, IsRecorded());
    var found := Find(recorded, b.fingerprint);
    assert ByAPerson(b) ==> b in recorded;
    forall r | r in recorded && r.fingerprint == b.fingerprint ensures r == b {
      SameRecord(row, r, b);
    }
    if ByAPerson(b) {
      var i :| 0 <= i < |recorded| && recorded[i] == b;
      assert HasFingerprint(recorded, b.fingerprint);
    }
  }

  lemma SameRecord(row: seq<Record>, a: Record, b: Record)
    requires Unique(row) && a in row && b in row && a.fingerprint == b.fingerprint
    ensures a == b
  {
  }

  /** A computed record whose finding the row does not hold is saved as it is. */
  lemma CarryNothingNew(computed: seq<Record>, row: seq<Record>, k: nat)
    requires k < |computed| && forall b :: b in row ==> b.fingerprint != computed[k].fingerprint
    ensures CarryRecordedOutcomes(computed, row)[k] == computed[k]
  {
    hide Filter;
    var recorded := Filter(row, IsRecorded());
    forall j | 0 <= j < |recorded| ensures recorded[j].fingerprint != computed[k].fingerprint {
      assert recorded[j] in row;
    }
  }
}
