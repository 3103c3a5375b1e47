/**
 The typosquat search over newly added components.
 */
module Typosquat {
  /**
   Source: packages/core/src/sbom-diff.ts:18-23, 381-383, 470-543.

   The reference is brute force: a component is flagged when some comparable known name of
   its ecosystem is within its edit threshold.  The table of well-known packages is a
   parameter, with its names already in normal form.
   */
  import opened Wrappers
  import opened Texts
  import opened Sorting
  import opened EditDistance

  const MAX_TYPOSQUAT_CANDIDATES: nat := 500
  const MIN_TYPOSQUAT_NAME_LENGTH: nat := 4
  const MAX_TYPOSQUAT_NAME_LENGTH: nat := 64
  const MAX_TYPOSQUAT_WORK_CELLS: nat := 5_000_000
  const MAX_PAIR_CELLS: nat := 64 * 64

  datatype Component = Component(key: Text, name: Text, ecosystem: Text)

  predicate Comparable(name: Text) {
    MIN_TYPOSQUAT_NAME_LENGTH <= |name| <= MAX_TYPOSQUAT_NAME_LENGTH
  }

  function Threshold(name: Text): nat {
    if |name| >= 10 then 2 else 1
  }

  ghost predicate Near(name: Text, other: Text) {
    Comparable(other) && 0 < Distance(name, other) <= Threshold(name)
  }

  // ----- known names

  datatype PackageList = PackageList(ecosystem: Text, names: seq<Text>)

  ghost predicate IsKnown(previous: seq<Component>, wellKnown: seq<PackageList>, ecosystem: Text, name: Text) {
    || (exists c :: c in previous && c.ecosystem == ecosystem && c.name == name)
    || (exists p :: p in wellKnown && p.ecosystem == ecosystem && name in p.names)
  }

  function NamesIn(known: map<Text, seq<Text>>, ecosystem: Text): seq<Text> {
    if ecosystem in known then known[ecosystem] else []
  }

  lemma KnownSnoc(previous: seq<Component>, c: Component, ecosystem: Text, name: Text)
    ensures IsKnown(previous + [c], [], ecosystem, name) <==>
            IsKnown(previous, [], ecosystem, name) || (c.ecosystem == ecosystem && c.name == name)
  {
    assert forall d :: d in previous + [c] <==> d in previous || d == c;
  }

  lemma WellKnownSnoc(previous: seq<Component>, wellKnown: seq<PackageList>, p: PackageList, ecosystem: Text, name: Text)
    ensures IsKnown(previous, wellKnown + [p], ecosystem, name) <==>
            IsKnown(previous, wellKnown, ecosystem, name) || (p.ecosystem == ecosystem && name in p.names)
  {
    assert forall q :: q in wellKnown + [p] <==> q in wellKnown || q == p;
  }

  method KnownByEcosystem(previous: seq<Component>, wellKnown: seq<PackageList>) returns (known: map<Text, seq<Text>>)
    ensures forall e, n :: n in NamesIn(known, e) <==> IsKnown(previous, wellKnown, e, n)
    ensures forall p :: p in wellKnown ==> p.ecosystem in known
  {
    known := map[];
    for i := 0 to |previous|
      invariant forall e, n :: n in NamesIn(known, e) <==> IsKnown(previous[..i], [], e, n)
    {
      var c := previous[i];
      assert previous[..i + 1] == previous[..i] + [c];
      ghost var before := known;
      known := known[c.ecosystem := NamesIn(known, c.ecosystem) + [c.name]];
      forall e, n ensures n in NamesIn(known, e) <==> IsKnown(previous[..i + 1], [], e, n) {
        KnownSnoc(previous[..i], c, e, n);
        assert n in NamesIn(known, e) <==> n in NamesIn(before, e) || (e == c.ecosystem && n == c.name);
      }
    }
    assert previous[..|previous|] == previous;
    for i := 0 to |wellKnown|
      invariant forall e, n :: n in NamesIn(known, e) <==> IsKnown(previous, wellKnown[..i], e, n)
      invariant forall p :: p in wellKnown[..i] ==> p.ecosystem in known
    {
      var p := wellKnown[i];
      assert wellKnown[..i + 1] == wellKnown[..i] + [p];
      ghost var before := known;
      known := known[p.ecosystem := NamesIn(known, p.ecosystem) + p.names];
      forall e, n ensures n in NamesIn(known, e) <==> IsKnown(previous, wellKnown[..i + 1], e, n) {
        WellKnownSnoc(previous, wellKnown[..i], p, e, n);
        assert n in NamesIn(known, e) <==> n in NamesIn(before, e) || (e == p.ecosystem && n in p.names);
      }
    }
    assert wellKnown[..|wellKnown|] == wellKnown;
  }

  // ----- buckets by length

  type Buckets = map<nat, seq<Text>>

  function Bucket(buckets: Buckets, length: int): seq<Text> {
    if length >= 0 && length in buckets then buckets[length] else []
  }

  function OfLength(names: seq<Text>, length: int): (r: seq<Text>)
    ensures forall n :: n in r <==> n in names && |n| == length && Comparable(n)
  {
    if names == [] then []
    else
      var init, last := names[..|names| - 1], names[|names| - 1];
      assert names == init + [last];
      OfLength(init, length) + (if |last| == length && Comparable(last) then [last] else [])
  }

  lemma {:induction false} OfLengthOrdered(names: seq<Text>, length: int)
    requires Ordered(names, AtMost)
    ensures Ordered(OfLength(names, length), AtMost)
    decreases |names|
  {
    if names != [] {
      var init, last := names[..|names| - 1], names[|names| - 1];
      OfLengthOrdered(init, length);
      forall n | n in OfLength(init, length) ensures AtMost(n, last) {
        var i :| 0 <= i < |init| && init[i] == n;
        assert names[i] == n;
      }
    }
  }

  ghost predicate BucketsOf(buckets: Buckets, names: seq<Text>) {
    forall length: int :: Bucket(buckets, length) == OfLength(names, length)
  }

  lemma OfLengthSnoc(names: seq<Text>, name: Text, length: int)
    ensures OfLength(names + [name], length)
         == if |name| == length && Comparable(name) then OfLength(names, length) + [name] else OfLength(names, length)
  {
    assert (names + [name])[..|names|] == names;
  }

  function Placed(buckets: Buckets, name: Text): Buckets {
    if Comparable(name) then buckets[|name| := Bucket(buckets, |name|) + [name]] else buckets
  }

  lemma PlacedKeepsBuckets(buckets: Buckets, names: seq<Text>, name: Text)
    requires BucketsOf(buckets, names)
    ensures BucketsOf(Placed(buckets, name), names + [name])
  {
    forall length: int ensures Bucket(Placed(buckets, name), length) == OfLength(names + [name], length) {
      OfLengthSnoc(names, name, length);
    }
  }

  method BucketByLength(sorted: seq<Text>) returns (buckets: Buckets)
    ensures BucketsOf(buckets, sorted)
  {
    buckets := map[];
    for i := 0 to |sorted|
      invariant BucketsOf(buckets, sorted[..i])
    {
      PlacedKeepsBuckets(buckets, sorted[..i], sorted[i]);
      assert sorted[..i + 1] == sorted[..i] + [sorted[i]];
      buckets := Placed(buckets, sorted[i]);
    }
    assert sorted[..|sorted|] == sorted;
  }

  /** Comparable known names, bucketed once per ecosystem. */
  method BucketEcosystems(known: map<Text, seq<Text>>) returns (buckets: map<Text, Buckets>)
    ensures buckets.Keys == known.Keys
    ensures forall e :: e in known ==> BucketsOf(buckets[e], Sort(known[e], AtMost))
  {
    buckets := map[];
    var todo := known.Keys;
    while todo != {}
      invariant todo <= known.Keys && buckets.Keys == known.Keys - todo
      invariant forall e :: e in buckets ==> BucketsOf(buckets[e], Sort(known[e], AtMost))
      decreases |todo|
    {
      var e :| e in todo;
      var b := BucketByLength(Sort(known[e], AtMost));
      buckets := buckets[e := b];
      todo := todo - {e};
    }
  }

  // ----- one candidate

  lemma PairCells(a: nat, b: nat)
    requires a <= 64 && b <= 64
    ensures a * b <= MAX_PAIR_CELLS
  {
    assert a * b <= 64 * b;
  }

  /** The near name that is shortest, and among those first in order. */
  ghost predicate FirstNear(name: Text, known: seq<Text>, m: Text) {
    && m in known && Near(name, m)
    && forall n :: n in known && Near(name, n) ==> |m| < |n| || (|m| == |n| && AtMost(m, n))
  }

  /** Names of one length, until a match or until the work budget is spent. */
  method SearchBucket(name: Text, names: seq<Text>, used: nat)
    returns (found: Option<Text>, work: nat, exceeded: bool)
    requires Comparable(name) && forall n :: n in names ==> Comparable(n)
    requires Ordered(names, AtMost)
    requires used < MAX_TYPOSQUAT_WORK_CELLS + MAX_PAIR_CELLS
    ensures work < MAX_TYPOSQUAT_WORK_CELLS + MAX_PAIR_CELLS
    ensures found.Some? ==> found.value in names && Near(name, found.value)
    ensures found.Some? ==> forall n :: n in names && Near(name, n) ==> AtMost(found.value, n)
    ensures exceeded ==> work >= MAX_TYPOSQUAT_WORK_CELLS
    ensures !exceeded && found.None? ==> forall n :: n in names ==> !Near(name, n)
  {
    work := used;
    for i := 0 to |names|
      invariant work < MAX_TYPOSQUAT_WORK_CELLS + MAX_PAIR_CELLS
      invariant forall k :: 0 <= k < i ==> !Near(name, names[k])
    {
      if work >= MAX_TYPOSQUAT_WORK_CELLS {
        return None, work, true;
      }
      var distance, cells := BoundedEditDistanceWithWork(name, names[i], Threshold(name));
      assert names[i] in names;
      PairCells(|name|, |names[i]|);
      work := work + cells;
      if 0 < distance <= Threshold(name) {
        LessIrreflexive(names[i]);
        return Some(names[i]), work, false;
      }
    }
    return None, work, false;
  }

  /** Only lengths within the threshold are visited. */
  method SearchCandidate(name: Text, buckets: Buckets, ghost known: seq<Text>, used: nat)
    returns (found: Option<Text>, work: nat, exceeded: bool)
    requires Comparable(name) && BucketsOf(buckets, Sort(known, AtMost))
    requires used < MAX_TYPOSQUAT_WORK_CELLS + MAX_PAIR_CELLS
    ensures work < MAX_TYPOSQUAT_WORK_CELLS + MAX_PAIR_CELLS
    ensures found.Some? ==> FirstNear(name, known, found.value)
    ensures exceeded ==> work >= MAX_TYPOSQUAT_WORK_CELLS
    ensures !exceeded && found.None? ==> forall n :: n in known ==> !Near(name, n)
  {
    SortPermutes(known, AtMost);
    AtMostIsTotal();
    SortOrdered(known, AtMost);
    work, found := used, None;
    var threshold := Threshold(name);
    var length := |name| - threshold;
    while length <= |name| + threshold
      invariant |name| - threshold <= length <= |name| + threshold + 1
      invariant found == None
      invariant work < MAX_TYPOSQUAT_WORK_CELLS + MAX_PAIR_CELLS
      invariant forall n :: n in known && |name| - threshold <= |n| < length ==> !Near(name, n)
    {
      OfLengthOrdered(Sort(known, AtMost), length);
      found, work, exceeded := SearchBucket(name, Bucket(buckets, length), work);
      if exceeded || found.Some? {
        forall n | n in known && Near(name, n) && |n| < length ensures |n| >= |name| - threshold {
          DistanceAtLeastLengthGap(name, n);
        }
        return;
      }
      forall n | n in known && |n| == length ensures !Near(name, n) {
        assert Comparable(n) ==> n in Bucket(buckets, length);
      }
      length := length + 1;
    }
    exceeded := false;
    forall n | n in known ensures !Near(name, n) {
      DistanceAtLeastLengthGap(name, n);
    }
  }

  // ----- the search

  predicate Eligible(c: Component, previousNames: set<Text>, known: map<Text, seq<Text>>) {
    && Comparable(c.name) && c.name !in previousNames
    && c.ecosystem in known && c.name !in known[c.ecosystem]
  }

  /** Brute force: some comparable known name is within the threshold. */
  ghost predicate Suspicious(c: Component, previousNames: set<Text>, known: map<Text, seq<Text>>) {
    Eligible(c, previousNames, known) && exists n :: n in known[c.ecosystem] && Near(c.name, n)
  }

  datatype Signal = Signal(component: Component, resembles: Text)

  ghost function Suspects(added: seq<Component>, previousNames: set<Text>, known: map<Text, seq<Text>>): seq<Component> {
    if added == [] then []
    else
      var init, last := Suspects(added[..|added| - 1], previousNames, known), added[|added| - 1];
      if Suspicious(last, previousNames, known) then init + [last] else init
  }

  function Flagged(signals: seq<Signal>): seq<Component> {
    if signals == [] then [] else Flagged(signals[..|signals| - 1]) + [signals[|signals| - 1].component]
  }

  /** Every signal is right even when a cap stops the search; without a cap the flagged components
      are exactly the suspicious ones, in order; and the work never passes the budget by more than
      one pair of names. */
  method FindTyposquats(added: seq<Component>, previousNames: set<Text>, known: map<Text, seq<Text>>)
    returns (signals: seq<Signal>, candidates: nat, work: nat, exceeded: bool)
    ensures forall s :: s in signals ==>
              && s.component in added && Suspicious(s.component, previousNames, known)
              && FirstNear(s.component.name, known[s.component.ecosystem], s.resembles)
    ensures !exceeded && candidates <= MAX_TYPOSQUAT_CANDIDATES ==>
              Flagged(signals) == Suspects(added, previousNames, known)
    ensures work <= MAX_TYPOSQUAT_WORK_CELLS - 1 + MAX_PAIR_CELLS
    ensures exceeded ==> work >= MAX_TYPOSQUAT_WORK_CELLS
    ensures candidates <= MAX_TYPOSQUAT_CANDIDATES + 1
  {
    var buckets := BucketEcosystems(known);
    signals, candidates, work, exceeded := [], 0, 0, false;
    for i := 0 to |added|
      invariant Flagged(signals) == Suspects(added[..i], previousNames, known)
      invariant forall s :: s in signals ==>
        && s.component in added && Suspicious(s.component, previousNames, known)
        && FirstNear(s.component.name, known[s.component.ecosystem], s.resembles)
      invariant work < MAX_TYPOSQUAT_WORK_CELLS + MAX_PAIR_CELLS
      invariant candidates <= MAX_TYPOSQUAT_CANDIDATES
      invariant !exceeded
    {
      var component := added[i];
      assert added[..i + 1][..i] == added[..i];
      if !Eligible(component, previousNames, known) {
        continue;
      }
      candidates := candidates + 1;
      if candidates > MAX_TYPOSQUAT_CANDIDATES {
        return;
      }
      var found;
      found, work, exceeded := SearchCandidate(component.name, buckets[component.ecosystem], known[component.ecosystem], work);
      if exceeded {
        return;
      }
      if found.Some? {
        var signal := Signal(component, found.value);
        assert (signals + [signal])[..|signals|] == signals;
        signals := signals + [signal];
      }
    }
    assert added[..|added|] == added;
  }
}
