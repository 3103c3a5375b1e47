/**
 Lifecycle records and the capacity bound of one repository.
 */
module FindingRecords {
  /**
   Source: apps/control-plane/src/findings-lifecycle.ts:661-714, apps/control-plane/src/store.ts:872-969.
   Times are milliseconds; an instant that does not parse is absent.
   */
  import opened Wrappers
  import opened Texts
  import opened Sorting

  const MAX_FINDING_LIFECYCLE_RECORDS: nat := 5000

  datatype Severity = Info | Low | Medium | High | Critical
  {
    function DropRank(): nat {
      match this
      case Info => 0
      case Low => 1
      case Medium => 2
      case High => 3
      case Critical => 4
    }
  }

  datatype Status = Open | Suppressed | RiskAccepted | Fixed

  datatype Detail = Detail(source: Text, ruleId: Text, path: Option<Text>, line: Option<int>)

  datatype Record = Record(
    fingerprint: Text,
    detail: Detail,
    severity: Severity,
    status: Status,
    streams: map<Text, int>,
    firstSeenAt: int,
    openedAt: int,
    lastSeenAt: int,
    fixedAt: Option<int>,
    slaDueAt: Option<int>,
    lastRunId: int,
    lastRunAttempt: int,
    openTicket: bool)

  type Table = map<Text, Record>

  ghost predicate Keyed(table: Table) {
    forall f :: f in table ==> table[f].fingerprint == f
  }

  predicate IsOpenCriticalOrHigh(r: Record) {
    r.status == Open && (r.severity == Critical || r.severity == High)
  }

  predicate Retirable(r: Record) {
    r.status == Fixed && !r.openTicket
  }

  function Flag(b: bool): int {
    if b then 1 else 0
  }

  /** Longest fixed first, then by fingerprint. */
  predicate RetiresBefore(a: Record, b: Record) {
    var x, y := a.fixedAt.GetOr(0), b.fixedAt.GetOr(0);
    x < y || (x == y && AtMost(a.fingerprint, b.fingerprint))
  }

  /** The drop order: open Critical or High last, then open, then by severity, newest first. */
  predicate DropsBefore(a: Record, b: Record) {
    var x0, y0 := Flag(IsOpenCriticalOrHigh(a)), Flag(IsOpenCriticalOrHigh(b));
    var x1, y1 := Flag(a.status == Open), Flag(b.status == Open);
    var x2, y2 := a.severity.DropRank(), b.severity.DropRank();
    var x3, y3 := b.firstSeenAt, a.firstSeenAt;
    x0 < y0 || (x0 == y0 && (x1 < y1 || (x1 == y1 && (x2 < y2 || (x2 == y2 &&
    (x3 < y3 || (x3 == y3 && AtMost(a.fingerprint, b.fingerprint))))))))
  }

  lemma OrdersAreTotal()
    ensures TotalPreorder(RetiresBefore) && TotalPreorder(DropsBefore)
  {
    AtMostIsTotal();
  }

  // ----- what the bound does to a table

  /** The fixed records without an open ticket. */
  ghost function RetirableKeys(table: Table): set<Text> {
    set f | f in table && table[f].status == Fixed && !table[f].openTicket
  }

  /** The open records at severity Critical or High. */
  ghost function CriticalKeys(table: Table): set<Text> {
    set f | f in table && table[f].status == Open && (table[f].severity == Critical || table[f].severity == High)
  }

  /** `chosen` is the first n of `pool` in the given order. */
  ghost predicate FirstOf(table: Table, pool: set<Text>, chosen: set<Text>, n: int, before: (Record, Record) -> bool)
    requires pool <= table.Keys
  {
    && chosen <= pool && |chosen| == Min(n, |pool|)
    && forall c, o :: c in chosen && o in pool - chosen ==> before(table[c], table[o])
  }

  /** Over the bound, the longest-fixed records without an open ticket go first. */
  ghost predicate Retires(table: Table, bound: nat, retired: set<Text>) {
    FirstOf(table, RetirableKeys(table), retired, Max(0, |table| - bound), RetiresBefore)
  }

  /** What is still over the bound is dropped, in the drop order. */
  ghost predicate Drops(table: Table, bound: nat, dropped: set<Text>) {
    FirstOf(table, table.Keys, dropped, Max(0, |table| - bound), DropsBefore)
  }

  ghost predicate Evicts(table: Table, bound: nat, kept: Table, retired: set<Text>, dropped: set<Text>) {
    && Retires(table, bound, retired)
    && Drops(table - retired, bound, dropped)
    && kept == table - retired - dropped
  }

  lemma KeysMinus(table: Table, gone: set<Text>)
    requires gone <= table.Keys
    ensures (table - gone).Keys == table.Keys - gone && |table - gone| == |table| - |gone|
  {
    assert (table - gone).Keys == table.Keys - gone;
    assert |table.Keys - gone| == |table.Keys| - |gone|;
  }

  lemma SizeMinus(a: set<Text>, b: set<Text>)
    ensures |a| == |a - b| + |a * b|
    ensures a <= b ==> |a| <= |b|
    ensures b <= a ==> |a - b| == |a| - |b|
  {
    assert a == (a - b) + (a * b);
    if a <= b {
      assert b == (b - a) + a;
    }
    if b <= a {
      assert a * b == b;
    }
  }

  /** Nothing is lost twice or silently, and what is kept is kept unchanged. */
  lemma EvictionPartitions(table: Table, bound: nat, kept: Table, retired: set<Text>, dropped: set<Text>)
    requires Evicts(table, bound, kept, retired, dropped)
    ensures forall f :: f in table <==> f in kept || f in retired || f in dropped
    ensures forall f :: f in kept ==> f !in retired && f !in dropped && kept[f] == table[f]
    ensures forall f :: f in retired ==> f !in dropped
  {
  }

  /** A record that is not fixed, or has an open ticket, is never retired, and no record is
      dropped while one could still be retired. */
  lemma OnlyFixedRetired(table: Table, bound: nat, kept: Table, retired: set<Text>, dropped: set<Text>)
    requires Evicts(table, bound, kept, retired, dropped)
    ensures forall f :: f in retired ==> Retirable(table[f])
    ensures dropped != {} ==> RetirableKeys(table) == retired
  {
    KeysMinus(table, retired);
    if RetirableKeys(table) != retired {
      SizeMinus(RetirableKeys(table), retired);
      SizeMinus(RetirableKeys(table) - retired, {});
      assert |retired| == Max(0, |table| - bound);
    }
  }

  /** The bound is met exactly, and never by losing more than the overflow. */
  lemma EvictionMeetsBound(table: Table, bound: nat, kept: Table, retired: set<Text>, dropped: set<Text>)
    requires Evicts(table, bound, kept, retired, dropped)
    ensures |kept| == Min(|table|, bound)
    ensures |retired| + |dropped| == Max(0, |table| - bound)
  {
    KeysMinus(table, retired);
    KeysMinus(table - retired, dropped);
  }

  /** Of two severities the graver one. */
  ghost predicate Graver(s: Severity, t: Severity) {
    match t
    case Info => s != Info
    case Low => s == Medium || s == High || s == Critical
    case Medium => s == High || s == Critical
    case High => s == Critical
    case Critical => false
  }

  ghost predicate OpenAndGrave(r: Record) {
    r.status == Open && (r.severity == Critical || r.severity == High)
  }

  /** Which of two records is worth more: an open grave one, then an open one, then the graver, then the one known
      longer, then the one with the later fingerprint. */
  ghost predicate WorthMore(a: Record, b: Record) {
    if OpenAndGrave(a) != OpenAndGrave(b) then OpenAndGrave(a)
    else if (a.status == Open) != (b.status == Open) then a.status == Open
    else if a.severity != b.severity then Graver(a.severity, b.severity)
    else if a.firstSeenAt != b.firstSeenAt then a.firstSeenAt < b.firstSeenAt
    else Precedes(b.fingerprint, a.fingerprint)
  }

  lemma DropOrderMeans(a: Record, b: Record)
    ensures DropsBefore(a, b) <==> !WorthMore(a, b)
  {
    LessMeans(b.fingerprint, a.fingerprint);
  }

  /** No record is dropped that is worth more than one that is kept. */
  lemma DroppedIsNotWorthMore(table: Table, bound: nat, kept: Table, retired: set<Text>, dropped: set<Text>, c: Text, o: Text)
    requires Evicts(table, bound, kept, retired, dropped) && c in dropped && o in kept
    ensures c in table && o in table && !WorthMore(table[c], table[o])
  {
    assert o in (table - retired).Keys - dropped;
    DropOrderMeans(table[c], table[o]);
  }

  /** Of the fixed records without a ticket those fixed longest are retired, and at one time those with the smaller
      fingerprints. */
  lemma RetiredAreFixedLongest(table: Table, bound: nat, kept: Table, retired: set<Text>, dropped: set<Text>, c: Text, o: Text)
    requires Keyed(table) && Evicts(table, bound, kept, retired, dropped)
    requires c in retired && o in table && o !in retired && table[o].status == Fixed && !table[o].openTicket
    ensures c in table && table[c].status == Fixed && !table[c].openTicket
    ensures var x, y := table[c].fixedAt.GetOr(0), table[o].fixedAt.GetOr(0);
            x < y || (x == y && Precedes(c, o))
  {
    assert o in RetirableKeys(table) - retired;
    assert RetiresBefore(table[c], table[o]);
    LessMeans(c, o);
    LessTotal(c, o);
  }

  /** A critical record is dropped only when everything kept is critical. */
  lemma CriticalGoLast(table: Table, bound: nat, dropped: set<Text>, f: Text, o: Text)
    requires Drops(table, bound, dropped)
    requires f in dropped && IsOpenCriticalOrHigh(table[f]) && o in table && o !in dropped
    ensures IsOpenCriticalOrHigh(table[o])
  {
    assert o in table.Keys - dropped;
    assert DropsBefore(table[f], table[o]);
  }

  lemma DropsSize(table: Table, bound: nat, dropped: set<Text>)
    requires Drops(table, bound, dropped)
    ensures dropped <= table.Keys && |dropped| == Min(Max(0, |table| - bound), |table|)
  {
  }

  lemma DropLossExact(table: Table, bound: nat, dropped: set<Text>)
    requires Drops(table, bound, dropped)
    ensures |dropped * CriticalKeys(table)| == Max(0, |CriticalKeys(table)| - bound)
  {
    hide Drops, IsOpenCriticalOrHigh;
    var critical := CriticalKeys(table);
    DropsSize(table, bound, dropped);
    SizeMinus(critical, dropped);
    assert critical * dropped == dropped * critical;
    SizeMinus(table.Keys, dropped);
    SizeMinus(critical - dropped, table.Keys - dropped);
    if critical * dropped != {} {
      var f :| f in critical * dropped;
      OnlyCriticalKept(table, bound, dropped, f);
    }
  }

  lemma OnlyCriticalKept(table: Table, bound: nat, dropped: set<Text>, f: Text)
    requires Drops(table, bound, dropped) && f in dropped && IsOpenCriticalOrHigh(table[f])
    ensures CriticalKeys(table) - dropped == table.Keys - dropped
    ensures |dropped| > 0
  {
    forall o | o in table.Keys - dropped ensures o in CriticalKeys(table) {
      CriticalGoLast(table, bound, dropped, f, o);
    }
  }

  /** The loss of open Critical or High findings is exactly their number over the bound. */
  lemma CriticalLossExact(table: Table, bound: nat, kept: Table, retired: set<Text>, dropped: set<Text>)
    requires Evicts(table, bound, kept, retired, dropped)
    ensures |dropped * CriticalKeys(table)| == Max(0, |CriticalKeys(table)| - bound)
  {
    hide Drops, Retires;
    DropLossExact(table - retired, bound, dropped);
    RetiredNotCritical(table, bound, retired);
  }

  lemma RetiredNotCritical(table: Table, bound: nat, retired: set<Text>)
    requires Retires(table, bound, retired)
    ensures CriticalKeys(table - retired) == CriticalKeys(table)
  {
    forall f | f in retired ensures !IsOpenCriticalOrHigh(table[f]) {
      assert f in RetirableKeys(table);
    }
  }

  /** No way of keeping at most `bound` records loses fewer of them. */
  lemma CriticalLossMinimal(table: Table, bound: nat, kept: Table, retired: set<Text>, dropped: set<Text>, other: set<Text>)
    requires Evicts(table, bound, kept, retired, dropped)
    requires other <= table.Keys && |other| <= bound
    ensures |dropped * CriticalKeys(table)| <= |CriticalKeys(table) - other|
  {
    CriticalLossExact(table, bound, kept, retired, dropped);
    SizeMinus(CriticalKeys(table), other);
    SizeMinus(CriticalKeys(table) * other, other);
  }

  // ----- the eviction itself

  ghost function FingerprintSet(records: seq<Record>): set<Text> {
    set r | r in records :: r.fingerprint
  }

  /** The table's records, once each, in some order. */
  ghost predicate Lists(records: seq<Record>, table: Table, keys: set<Text>)
    requires keys <= table.Keys
  {
    && |records| == |keys|
    && (forall r :: r in records ==> r.fingerprint in keys && r == table[r.fingerprint])
    && (forall f :: f in keys ==> table[f] in records)
  }

  lemma ListsOneMore(records: seq<Record>, table: Table, keys: set<Text>, f: Text)
    requires Keyed(table) && keys <= table.Keys && Lists(records, table, keys) && f in table && f !in keys
    ensures Lists(records + [table[f]], table, keys + {f})
  {
    assert table[f].fingerprint == f;
  }

  method ListRecords(table: Table, keys: set<Text>) returns (records: seq<Record>)
    requires Keyed(table) && keys <= table.Keys
    ensures Lists(records, table, keys)
  {
    records := [];
    var todo := keys;
    assert keys - todo == {};
    while todo != {}
      invariant todo <= keys
      invariant Lists(records, table, keys - todo)
      decreases |todo|
    {
      hide Lists;
      var f :| f in todo;
      assert keys - (todo - {f}) == (keys - todo) + {f};
      ListsOneMore(records, table, keys - todo, f);
      records := records + [table[f]];
      todo := todo - {f};
    }
    assert keys - todo == keys;
  }

  /** Taking a prefix of the sorted records takes the first of the keys. */
  lemma PrefixIsFirst(table: Table, keys: set<Text>, records: seq<Record>, n: nat, before: (Record, Record) -> bool)
    requires Keyed(table) && keys <= table.Keys && Lists(records, table, keys)
    requires TotalPreorder(before) && n <= |records|
    ensures FirstOf(table, keys, FingerprintSet(Sort(records, before)[..n]), n, before)
  {
    var sorted := Sort(records, before);
    SortPermutes(records, before);
    SortOrdered(records, before);
    assert Lists(sorted, table, keys);
    ListedDistinct(sorted, table, keys);
    var chosen := FingerprintSet(sorted[..n]);
    PrefixSize(sorted, n);
    assert forall k :: 0 <= k < n ==> sorted[..n][k] == sorted[k] && sorted[k].fingerprint in chosen;
    forall c, o | c in chosen && o in keys - chosen
      ensures before(table[c], table[o])
    {
      var i :| 0 <= i < n && sorted[i].fingerprint == c;
      var j :| 0 <= j < |sorted| && sorted[j] == table[o];
      assert j >= n;
    }
  }

  lemma {:induction false} PrefixSize(s: seq<Record>, n: nat)
    requires n <= |s| && forall i, j :: 0 <= i < j < |s| ==> s[i].fingerprint != s[j].fingerprint
    ensures |FingerprintSet(s[..n])| == n
    decreases n
  {
    if n == 0 {
      assert FingerprintSet(s[..0]) == {};
    } else {
      PrefixSize(s, n - 1);
      assert s[..n] == s[..n - 1] + [s[n - 1]];
      assert FingerprintSet(s[..n]) == FingerprintSet(s[..n - 1]) + {s[n - 1].fingerprint};
    }
  }

  /** As many records as keys, covering them all, leaves no room for a repeat. */
  lemma {:induction false} ListedDistinct(s: seq<Record>, table: Table, keys: set<Text>)
    requires Keyed(table) && keys <= table.Keys && Lists(s, table, keys)
    ensures forall i, j :: 0 <= i < j < |s| ==> s[i].fingerprint != s[j].fingerprint
    decreases |s|
  {
    if s != [] {
      var f, rest := s[0].fingerprint, s[1..];
      assert s == [s[0]] + rest;
      if exists j :: 0 < j < |s| && s[j].fingerprint == f {
        FewerRecordsThanKeys(rest, table, keys);
      } else {
        forall r | r in rest ensures r.fingerprint in keys - {f} && r == table[r.fingerprint] {
          var j :| 0 <= j < |rest| && rest[j] == r;
          assert s[j + 1] == r;
        }
        ListedDistinct(rest, table, keys - {f});
      }
    }
  }

  lemma {:induction false} FewerRecordsThanKeys(s: seq<Record>, table: Table, keys: set<Text>)
    requires Keyed(table) && keys <= table.Keys
    requires forall f :: f in keys ==> table[f] in s
    ensures |keys| <= |s|
    decreases |s|
  {
    if s == [] {
      if f :| f in keys {
        assert table[f] in s;
      }
    } else {
      var f := s[0].fingerprint;
      assert s == [s[0]] + s[1..];
      FewerRecordsThanKeys(s[1..], table, keys - {f});
    }
  }

  lemma NothingToEvict(table: Table, bound: nat)
    ensures table - {} == table
    ensures |table| <= bound ==> Retires(table, bound, {}) && Drops(table, bound, {})
  {
  }

  /** The records of one repository while a merge holds them. */
  class RecordTable {
    var byFingerprint: Table

    constructor (records: Table)
      ensures byFingerprint == records
    {
      byFingerprint := records;
    }

    /** Removes the first `count` of `keys` in the given order. */
    method RemoveFirst(keys: set<Text>, count: nat, before: (Record, Record) -> bool) returns (removed: set<Text>)
      requires Keyed(byFingerprint) && keys <= byFingerprint.Keys && TotalPreorder(before)
      modifies this
      ensures Keyed(byFingerprint)
      ensures FirstOf(old(byFingerprint), keys, removed, count, before)
      ensures byFingerprint == old(byFingerprint) - removed
    {
      var records := ListRecords(byFingerprint, keys);
      var n := Min(count, |records|);
      PrefixIsFirst(byFingerprint, keys, records, n, before);
      var first := Sort(records, before)[..n];
      removed := set r | r in first :: r.fingerprint;
      byFingerprint := byFingerprint - removed;
    }

    method RetireFixed(bound: nat) returns (retired: set<Text>)
      requires Keyed(byFingerprint)
      modifies this
      ensures Keyed(byFingerprint)
      ensures Retires(old(byFingerprint), bound, retired)
      ensures byFingerprint == old(byFingerprint) - retired
    {
      OrdersAreTotal();
      var overflow := |byFingerprint| - bound;
      if overflow <= 0 {
        NothingToEvict(byFingerprint, bound);
        return {};
      }
      var eligible := set f | f in byFingerprint && Retirable(byFingerprint[f]);
      assert eligible == RetirableKeys(byFingerprint);
      retired := RemoveFirst(eligible, overflow, RetiresBefore);
    }

    method DropOverflow(bound: nat) returns (dropped: set<Text>)
      requires Keyed(byFingerprint)
      modifies this
      ensures Keyed(byFingerprint)
      ensures Drops(old(byFingerprint), bound, dropped)
      ensures byFingerprint == old(byFingerprint) - dropped
    {
      OrdersAreTotal();
      var remaining := |byFingerprint| - bound;
      if remaining <= 0 {
        NothingToEvict(byFingerprint, bound);
        return {};
      }
      dropped := RemoveFirst(byFingerprint.Keys, remaining, DropsBefore);
    }

    method EnforceBound(bound: nat) returns (retired: set<Text>, dropped: set<Text>)
      requires Keyed(byFingerprint)
      modifies this
      ensures Keyed(byFingerprint)
      ensures Evicts(old(byFingerprint), bound, byFingerprint, retired, dropped)
    {
      retired := RetireFixed(bound);
      dropped := DropOverflow(bound);
    }
  }
}
