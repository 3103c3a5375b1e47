/**
 The component difference of two indexed documents.
 */
module SbomDiff {
  /**
   Source: packages/core/src/sbom-diff.ts:274-276, 389-445.
   */
  import opened Wrappers
  import opened Texts
  import opened Sorting
  import opened VersionOrder

  /** A document's components by key, with the keys in the order they were first seen. */
  datatype Sbom = Sbom(order: seq<Text>, versions: map<Text, seq<Text>>)
  {
    ghost predicate Valid() {
      && Distinct(order)
      && (forall k :: k in order <==> k in versions)
      && forall k, v :: k in versions && v in versions[k] ==> v != []
    }
  }

  function SortedVersions(s: Sbom, key: Text): seq<Text>
    requires key in s.versions
  {
    Sort(s.versions[key], AtMost)
  }

  predicate IsChanged(previous: Sbom, current: Sbom, key: Text) {
    && key in previous.versions && key in current.versions
    && Join(SortedVersions(previous, key), NEWLINE) != Join(SortedVersions(current, key), NEWLINE)
  }

  predicate OneVersionEach(previous: Sbom, current: Sbom, key: Text)
    requires key in previous.versions && key in current.versions
  {
    |previous.versions[key]| == 1 && |current.versions[key]| == 1
  }

  ghost predicate IsDowngraded(previous: Sbom, current: Sbom, key: Text) {
    && IsChanged(previous, current, key) && OneVersionEach(previous, current, key)
    && Downgraded(previous.versions[key][0], current.versions[key][0])
  }

  function IsNewTo(previous: Sbom): Text -> bool {
    k => k !in previous.versions
  }

  function Changes(previous: Sbom, current: Sbom): Text -> bool {
    k => IsChanged(previous, current, k)
  }

  ghost function Downgrades(previous: Sbom, current: Sbom): Text -> bool {
    k => IsDowngraded(previous, current, k)
  }

  function AddedKeys(previous: Sbom, current: Sbom): seq<Text> {
    Filter(Sort(current.order, AtMost), IsNewTo(previous))
  }

  function ChangedKeys(previous: Sbom, current: Sbom): seq<Text> {
    Filter(Sort(current.order, AtMost), Changes(previous, current))
  }

  // ----- what the lists mean

  lemma {:induction false} FilterOrdered(s: seq<Text>, keep: Text -> bool)
    requires Ordered(s, AtMost) && Distinct(s)
    ensures Ordered(Filter(s, keep), AtMost) && Distinct(Filter(s, keep))
    decreases |s|
  {
    if s != [] {
      var init, last := s[..|s| - 1], s[|s| - 1];
      assert s == init + [last];
      FilterOrdered(init, keep);
      forall k | k in Filter(init, keep) ensures AtMost(k, last) && k != last {
        var i :| 0 <= i < |init| && init[i] == k;
        assert s[i] == k;
      }
    }
  }

  lemma SortedKeysOrdered(keys: seq<Text>)
    requires Distinct(keys)
    ensures Ordered(Sort(keys, AtMost), AtMost) && Distinct(Sort(keys, AtMost))
    ensures forall k :: k in Sort(keys, AtMost) <==> k in keys
  {
    AtMostIsTotal();
    SortPermutes(keys, AtMost);
    SortOrdered(keys, AtMost);
    DistinctPermutation(keys, Sort(keys, AtMost));
  }

  lemma DistinctPermutation(a: seq<Text>, b: seq<Text>)
    requires Distinct(a) && multiset(a) == multiset(b)
    ensures Distinct(b)
  {
    forall i, j | 0 <= i < j < |b| ensures b[i] != b[j] {
      if b[i] == b[j] {
        RepeatCounts(b, i, j);
        DistinctCounts(a, b[i]);
      }
    }
  }

  lemma RepeatCounts(s: seq<Text>, i: nat, j: nat)
    requires i < j < |s| && s[i] == s[j]
    ensures multiset(s)[s[i]] >= 2
  {
    assert s == s[..j] + [s[j]] + s[j + 1..];
    assert s[i] in s[..j];
  }

  lemma {:induction false} DistinctCounts(s: seq<Text>, x: Text)
    requires Distinct(s)
    ensures multiset(s)[x] <= 1
    decreases |s|
  {
    if s != [] {
      var init, last := s[..|s| - 1], s[|s| - 1];
      assert s == init + [last];
      DistinctCounts(init, x);
      assert last !in init;
    }
  }

  lemma TailMembers(s: seq<Text>)
    requires Distinct(s) && s != []
    ensures forall k :: k in s[1..] <==> k in s && k != s[0]
  {
    assert s == [s[0]] + s[1..];
    forall k | k in s[1..] ensures k != s[0] {
      var i :| 0 <= i < |s[1..]| && s[1..][i] == k;
      assert s[i + 1] == k;
    }
  }

  lemma HeadIsMember(s: seq<Text>)
    ensures s != [] ==> s[0] in s
  {
  }

  /** Two sorted lists without repeats over the same keys are the same list. */
  lemma {:induction false} SortedListUnique(a: seq<Text>, b: seq<Text>)
    requires Ordered(a, AtMost) && Distinct(a) && Ordered(b, AtMost) && Distinct(b)
    requires forall k :: k in a <==> k in b
    ensures a == b
    decreases |a|
  {
    HeadIsMember(a);
    HeadIsMember(b);
    if a != [] {
      assert a[0] in b && b[0] in a;
      AtMostIsTotal();
      HeadIsLeast(a, b[0], AtMost);
      HeadIsLeast(b, a[0], AtMost);
      LessTotal(a[0], b[0]);
      assert a == [a[0]] + a[1..] && b == [b[0]] + b[1..];
      TailMembers(a);
      TailMembers(b);
      SortedListUnique(a[1..], b[1..]);
    }
  }

  /** Comparing the other way round swaps added and removed and changes the same keys. */
  lemma DiffReverses(previous: Sbom, current: Sbom)
    requires previous.Valid() && current.Valid()
    ensures forall k :: k in AddedKeys(previous, current) <==> k in current.versions && k !in previous.versions
    ensures ChangedKeys(previous, current) == ChangedKeys(current, previous)
    ensures forall k :: !(IsDowngraded(previous, current, k) && IsDowngraded(current, previous, k))
  {
    SortedKeysOrdered(previous.order);
    SortedKeysOrdered(current.order);
    FilterOrdered(Sort(current.order, AtMost), Changes(previous, current));
    FilterOrdered(Sort(previous.order, AtMost), Changes(current, previous));
    SortedListUnique(ChangedKeys(previous, current), ChangedKeys(current, previous));
    forall k | IsDowngraded(previous, current, k) ensures !IsDowngraded(current, previous, k) {
      DowngradesAreOneWay(previous.versions[k][0], current.versions[k][0], []);
    }
  }

  /** The lists account for every component: added less removed is the growth in components. */
  lemma AddedLessRemoved(previous: Sbom, current: Sbom)
    requires previous.Valid() && current.Valid()
    ensures |AddedKeys(previous, current)| - |AddedKeys(current, previous)|
         == |current.versions| - |previous.versions|
  {
    AddedCount(previous, current);
    AddedCount(current, previous);
    SizesBalance(previous.versions.Keys, current.versions.Keys);
  }

  lemma SizesBalance(p: set<Text>, c: set<Text>)
    ensures |c - p| - |p - c| == |c| - |p|
  {
    assert c == (c - p) + (c * p) && p == (p - c) + (c * p);
  }

  lemma AddedCount(previous: Sbom, current: Sbom)
    requires previous.Valid() && current.Valid()
    ensures |AddedKeys(previous, current)| == |current.versions.Keys - previous.versions.Keys|
  {
    SortedKeysOrdered(current.order);
    FilterOrdered(Sort(current.order, AtMost), IsNewTo(previous));
    ListSize(AddedKeys(previous, current), current.versions.Keys - previous.versions.Keys);
  }

  lemma {:induction false} ListSize(s: seq<Text>, keys: set<Text>)
    requires Distinct(s) && forall k :: k in s <==> k in keys
    ensures |s| == |keys|
    decreases |s|
  {
    if s == [] {
      assert keys == {};
    } else {
      var init, last := s[..|s| - 1], s[|s| - 1];
      assert s == init + [last];
      ListSize(init, keys - {last});
    }
  }

  // ----- joined version lists

  ghost predicate NoNewlines(versions: seq<Text>) {
    forall v :: v in versions ==> NEWLINE !in v && v != []
  }

  /** Joining sorted versions by newlines tells two version lists apart, as long as no version
      contains a newline. */
  lemma JoinTellsVersionsApart(a: seq<Text>, b: seq<Text>)
    requires NoNewlines(a) && NoNewlines(b)
    ensures Join(Sort(a, AtMost), NEWLINE) == Join(Sort(b, AtMost), NEWLINE) <==> multiset(a) == multiset(b)
  {
    SortPermutes(a, AtMost);
    SortPermutes(b, AtMost);
    var x, y := Sort(a, AtMost), Sort(b, AtMost);
    if multiset(a) == multiset(b) {
      SameVersionsSort(a, b);
    }
    if Join(x, NEWLINE) == Join(y, NEWLINE) {
      JoinEmptyOnlyWhenEmpty(x);
      JoinEmptyOnlyWhenEmpty(y);
      if x != [] && y != [] {
        SplitJoin(x, NEWLINE);
        SplitJoin(y, NEWLINE);
      }
    }
  }

  lemma JoinEmptyOnlyWhenEmpty(parts: seq<Text>)
    requires NoNewlines(parts)
    ensures Join(parts, NEWLINE) == [] <==> parts == []
  {
    if parts != [] {
      assert parts[0] in parts;
    }
  }

  /** The lines of all versions of a list, one after the other. */
  function Lines(versions: seq<Text>): seq<Text> {
    if versions == [] then [] else Split(versions[0], NEWLINE) + Lines(versions[1..])
  }

  lemma SplitAt(s: Text, i: nat)
    requires i < |s| && s[i] == NEWLINE && NEWLINE !in s[..i]
    ensures Split(s, NEWLINE) == [s[..i]] + Split(s[i + 1..], NEWLINE)
  {
    CutAt(s, i);
    SplitCons(s[..i], s[i + 1..], NEWLINE);
  }

  lemma AppendAt(head: Text, i: nat, rest: Text)
    requires i < |head|
    ensures var s := head + [NEWLINE] + rest;
            s[i] == head[i] && s[..i] == head[..i] && s[i + 1..] == head[i + 1..] + [NEWLINE] + rest
  {
  }

  lemma Regroup<T>(a: seq<T>, b: seq<T>, c: seq<T>)
    ensures a + (b + c) == (a + b) + c
  {
  }

  lemma SplitAppendAt(head: Text, i: nat, rest: Text)
    requires i < |head| && head[i] == NEWLINE && NEWLINE !in head[..i]
    requires Split(head[i + 1..] + [NEWLINE] + rest, NEWLINE) == Split(head[i + 1..], NEWLINE) + Split(rest, NEWLINE)
    ensures Split(head + [NEWLINE] + rest, NEWLINE) == Split(head, NEWLINE) + Split(rest, NEWLINE)
  {
    hide Split;
    AppendAt(head, i, rest);
    SplitAt(head, i);
    SplitAt(head + [NEWLINE] + rest, i);
    Regroup([head[..i]], Split(head[i + 1..], NEWLINE), Split(rest, NEWLINE));
  }

  /** A text continued after a newline has the lines of both parts. */
  lemma {:induction false} SplitAppend(head: Text, rest: Text)
    ensures Split(head + [NEWLINE] + rest, NEWLINE) == Split(head, NEWLINE) + Split(rest, NEWLINE)
    decreases |head|
  {
    hide Split;
    var i := IndexOf(head, NEWLINE);
    if i == |head| {
      WholeLine(head);
      SplitCons(head, rest, NEWLINE);
    } else {
      SplitAppend(head[i + 1..], rest);
      SplitAppendAt(head, i, rest);
    }
  }

  lemma WholeLine(s: Text)
    requires IndexOf(s, NEWLINE) == |s|
    ensures NEWLINE !in s && Split(s, NEWLINE) == [s]
  {
    assert s[..|s|] == s;
  }

  lemma {:induction false} SplitJoined(versions: seq<Text>)
    requires versions != []
    ensures Split(Join(versions, NEWLINE), NEWLINE) == Lines(versions)
    decreases |versions|
  {
    if |versions| == 1 {
      assert Lines(versions[1..]) == [];
    } else {
      SplitAppend(versions[0], Join(versions[1..], NEWLINE));
      SplitJoined(versions[1..]);
    }
  }

  /** Joined by newlines two lists of versions coincide exactly when they have the same lines. */
  lemma JoinTellsLinesApart(a: seq<Text>, b: seq<Text>)
    requires [] !in a && [] !in b
    ensures Join(a, NEWLINE) == Join(b, NEWLINE) <==> Lines(a) == Lines(b)
  {
    JoinedNothing(a);
    JoinedNothing(b);
    if a != [] && b != [] {
      SplitJoined(a);
      SplitJoined(b);
      JoinSplit(Join(a, NEWLINE), NEWLINE);
      JoinSplit(Join(b, NEWLINE), NEWLINE);
    }
  }

  lemma JoinedNothing(versions: seq<Text>)
    requires [] !in versions
    ensures Join(versions, NEWLINE) == [] <==> versions == []
    ensures Lines(versions) == [] <==> versions == []
  {
    if versions != [] {
      assert versions[0] in versions;
    }
  }

  /** A component of both documents is reported as changed exactly when the lines of its sorted versions
      differ; the versions then differ too. */
  lemma ChangedExactly(previous: Sbom, current: Sbom, key: Text)
    requires previous.Valid() && current.Valid() && key in previous.versions && key in current.versions
    ensures key in ChangedKeys(previous, current) <==>
            Lines(SortedVersions(previous, key)) != Lines(SortedVersions(current, key))
    ensures key in ChangedKeys(previous, current) ==>
            multiset(previous.versions[key]) != multiset(current.versions[key])
  {
    hide Sort, Join;
    SortPermutes(current.order, AtMost);
    SortPermutes(previous.versions[key], AtMost);
    SortPermutes(current.versions[key], AtMost);
    JoinTellsLinesApart(SortedVersions(previous, key), SortedVersions(current, key));
    if multiset(previous.versions[key]) == multiset(current.versions[key]) {
      SameVersionsSort(previous.versions[key], current.versions[key]);
    }
  }

  lemma SameVersionsSort(a: seq<Text>, b: seq<Text>)
    requires multiset(a) == multiset(b)
    ensures Sort(a, AtMost) == Sort(b, AtMost)
  {
    AtMostIsTotal();
    forall p: Text, q: Text | AtMost(p, q) && AtMost(q, p) ensures p == q {
      LessTotal(p, q);
    }
    SortIgnoresInputOrder(a, b, AtMost);
  }

  const SPLIT_VERSIONS: seq<Text> := [[49], [50]]
  const ONE_VERSION: seq<Text> := [[49, 10, 50]]
  const BEFORE: Sbom := Sbom([[97]], map[[97] := SPLIT_VERSIONS])
  const AFTER: Sbom := Sbom([[97]], map[[97] := ONE_VERSION])

  /** With a newline inside a version the joined lists can coincide although the versions differ: two
      documents whose only component has other versions, and a difference that reports nothing. */
  lemma NewlineHidesChange()
    ensures Join(SPLIT_VERSIONS, NEWLINE) == Join(ONE_VERSION, NEWLINE)
    ensures multiset(SPLIT_VERSIONS) != multiset(ONE_VERSION)
    ensures BEFORE.Valid() && AFTER.Valid() && [97] in BEFORE.versions && [97] in AFTER.versions
    ensures multiset(BEFORE.versions[[97]]) != multiset(AFTER.versions[[97]])
    ensures ChangedKeys(BEFORE, AFTER) == [] && AddedKeys(BEFORE, AFTER) == [] && AddedKeys(AFTER, BEFORE) == []
  {
    assert SPLIT_VERSIONS[1..] == [[50]];
    assert [49] + [NEWLINE] + [50] == [49, 10, 50];
    assert |multiset(SPLIT_VERSIONS)| == 2 && |multiset(ONE_VERSION)| == 1;
    assert Sort(ONE_VERSION, AtMost) == ONE_VERSION;
    assert Sort(SPLIT_VERSIONS, AtMost) == SPLIT_VERSIONS by {
      assert Sort(SPLIT_VERSIONS[1..], AtMost) == [[50]];
      assert AtMost([49], [50]);
    }
    assert !IsChanged(BEFORE, AFTER, [97]);
    assert Sort(BEFORE.order, AtMost) == [[97]];
    assert [[97]][..0] == [];
  }

  // ----- the loops

  method DiffComponents(previous: Sbom, current: Sbom)
    returns (added: seq<Text>, removed: seq<Text>, changed: seq<Text>, downgraded: seq<Text>)
    requires previous.Valid() && current.Valid()
    ensures added == AddedKeys(previous, current)
    ensures removed == AddedKeys(current, previous)
    ensures changed == ChangedKeys(previous, current)
    ensures forall k :: k in downgraded <==> IsDowngraded(previous, current, k)
  {
    added, changed, downgraded := CompareCurrent(previous, current);
    SortPermutes(current.order, AtMost);
    removed := [];
    var before := Sort(previous.order, AtMost);
    for i := 0 to |before|
      invariant removed == Filter(before[..i], IsNewTo(current))
    {
      assert before[..i + 1][..i] == before[..i];
      if before[i] !in current.versions {
        removed := removed + [before[i]];
      }
    }
    assert before[..|before|] == before;
  }

  /** How one component of the current document compares. */
  method CompareKey(previous: Sbom, current: Sbom, key: Text) returns (isNew: bool, changed: bool, down: bool)
    requires key in current.versions
    ensures isNew == IsNewTo(previous)(key)
    ensures changed == Changes(previous, current)(key)
    ensures down == Downgrades(previous, current)(key)
  {
    isNew := key !in previous.versions;
    changed := IsChanged(previous, current, key);
    down := false;
    if changed && OneVersionEach(previous, current, key) {
      var sign := CompareComponentVersions(current.versions[key][0], previous.versions[key][0]);
      down := sign.Some? && sign.value < 0;
    }
  }

  ghost function DowngradedKeys(previous: Sbom, current: Sbom, keys: seq<Text>): seq<Text> {
    Filter(keys, Downgrades(previous, current))
  }

  method CompareCurrent(previous: Sbom, current: Sbom)
    returns (added: seq<Text>, changed: seq<Text>, downgraded: seq<Text>)
    requires previous.Valid() && current.Valid()
    ensures added == AddedKeys(previous, current)
    ensures changed == ChangedKeys(previous, current)
    ensures downgraded == DowngradedKeys(previous, current, Sort(current.order, AtMost))
  {
    SortPermutes(current.order, AtMost);
    added, changed, downgraded := CompareKeys(previous, current, Sort(current.order, AtMost));
    ClassifiedAdds(previous, current, Sort(current.order, AtMost));
    ClassifiedChanges(previous, current, Sort(current.order, AtMost));
  }

  datatype Lists = Lists(added: seq<Text>, changed: seq<Text>, downgraded: seq<Text>)

  ghost function Classified(previous: Sbom, current: Sbom, keys: seq<Text>): Lists {
    if keys == [] then Lists([], [], [])
    else
      var init, key := Classified(previous, current, keys[..|keys| - 1]), keys[|keys| - 1];
      Lists(
        if IsNewTo(previous)(key) then init.added + [key] else init.added,
        if Changes(previous, current)(key) then init.changed + [key] else init.changed,
        if Downgrades(previous, current)(key) then init.downgraded + [key] else init.downgraded)
  }

  lemma {:induction false} ClassifiedAdds(previous: Sbom, current: Sbom, keys: seq<Text>)
    ensures Classified(previous, current, keys).added == Filter(keys, IsNewTo(previous))
    decreases |keys|
  {
    if keys != [] {
      ClassifiedAdds(previous, current, keys[..|keys| - 1]);
    }
  }

  lemma {:induction false} ClassifiedChanges(previous: Sbom, current: Sbom, keys: seq<Text>)
    ensures Classified(previous, current, keys).changed == Filter(keys, Changes(previous, current))
    ensures Classified(previous, current, keys).downgraded == DowngradedKeys(previous, current, keys)
    decreases |keys|
  {
    if keys != [] {
      ClassifiedChanges(previous, current, keys[..|keys| - 1]);
    }
  }

  method CompareKeys(previous: Sbom, current: Sbom, keys: seq<Text>)
    returns (added: seq<Text>, changed: seq<Text>, downgraded: seq<Text>)
    requires forall k :: k in keys ==> k in current.versions
    ensures Lists(added, changed, downgraded) == Classified(previous, current, keys)
  {
    added, changed, downgraded := [], [], [];
    for i := 0 to |keys|
      invariant Lists(added, changed, downgraded) == Classified(previous, current, keys[..i])
    {
      var isNew, isChanged, isDown := CompareKey(previous, current, keys[i]);
      assert keys[..i + 1][..i] == keys[..i];
      added := if isNew then added + [keys[i]] else added;
      changed := if isChanged then changed + [keys[i]] else changed;
      downgraded := if isDown then downgraded + [keys[i]] else downgraded;
    }
    assert keys[..|keys|] == keys;
  }
}
