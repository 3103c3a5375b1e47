/** The whole difference of two documents. */
module SbomReport {
  /**
   Source: packages/core/src/sbom-diff.ts:253-272, 389-445, 470-543.

   The two documents are indexed, their indexes compared, and the names new to the current one
   searched for near known names.  What is reported is characterised by the two indexes alone,
   whatever order their components stand in.  Signals are listed by kind, not merged and sorted.
   */
  import opened Wrappers
  import opened Texts
  import opened Sorting
  import Indexing = SbomIndex
  import Diff = SbomDiff
  import Squat = Typosquat
  import Versions = VersionOrder
  import Edits = EditDistance

  datatype Document = Document(supported: bool, components: Indexing.Nested)

  datatype Report = Report(
    previousCount: nat, currentCount: nat,
    added: seq<Text>, removed: seq<Text>, changed: seq<Text>, downgraded: seq<Text>,
    typosquats: seq<Squat.Signal>, searchedAll: bool)

  predicate Indexable(d: Document) {
    && d.supported && Indexing.Acceptable(d.components, 1)
    && |Indexing.Flatten(d.components)| <= Indexing.MAX_SBOM_DIFF_COMPONENTS
  }

  function Indexed(d: Document): Indexing.Index {
    Indexing.AddAll(map[], Indexing.Flatten(d.components))
  }

  // ----- what the report means

  /** The elements of a set, in some order. */
  ghost function ListOf(s: set<Text>): (r: seq<Text>)
    ensures multiset(r) == multiset(s)
    ensures forall x :: x in r <==> x in s
    decreases |s|
  {
    if s == {} then []
    else
      var x :| x in s;
      assert s == {x} + (s - {x});
      [x] + ListOf(s - {x})
  }

  /** The lines of a component's sorted versions. */
  ghost function VersionLines(index: Indexing.Index, key: Text): seq<Text>
    requires key in index
  {
    Diff.Lines(Sort(ListOf(index[key].versions), AtMost))
  }

  ghost predicate ChangedBetween(p: Indexing.Index, c: Indexing.Index, key: Text) {
    key in p && key in c && VersionLines(p, key) != VersionLines(c, key)
  }

  ghost predicate DowngradedBetween(p: Indexing.Index, c: Indexing.Index, key: Text) {
    && ChangedBetween(p, c, key)
    && exists v, w :: p[key].versions == {v} && c[key].versions == {w} && Versions.Downgraded(v, w)
  }

  /** Some previous component of the ecosystem, or its table of well-known packages, has the name. */
  ghost predicate KnownName(p: Indexing.Index, wellKnown: seq<Squat.PackageList>, ecosystem: Text, name: Text) {
    || (exists k :: k in p && p[k].ecosystem == ecosystem && p[k].name == name)
    || (exists l :: l in wellKnown && l.ecosystem == ecosystem && name in l.names)
  }

  /** A new component whose name no previous component has, not known in its ecosystem, and near a name that
      is. */
  ghost predicate Suspect(p: Indexing.Index, c: Indexing.Index, wellKnown: seq<Squat.PackageList>, key: Text) {
    && key in c && key !in p && 4 <= |c[key].name| <= 64
    && (forall k :: k in p ==> p[k].name != c[key].name)
    && !KnownName(p, wellKnown, c[key].ecosystem, c[key].name)
    && exists n :: KnownName(p, wellKnown, c[key].ecosystem, n) && Resembles(c[key].name, n)
  }

  /** Another name of comparable length, one edit away or, for a name of ten units or more, at most two. */
  ghost predicate Resembles(name: Text, known: Text) {
    4 <= |known| <= 64 && 0 < Edits.Distance(name, known) <= if |name| >= 10 then 2 else 1
  }

  ghost predicate Flags(signals: seq<Squat.Signal>, key: Text) {
    exists s :: s in signals && s.component.key == key
  }

  // ----- from an index to the lists the comparison walks

  function ComponentAt(index: Indexing.Index, key: Text): Squat.Component
    requires key in index
  {
    Squat.Component(key, index[key].name, index[key].ecosystem)
  }

  ghost predicate Lists(s: Diff.Sbom, components: seq<Squat.Component>, index: Indexing.Index) {
    && s.Valid() && s.versions.Keys == index.Keys
    && (forall k :: k in index ==> multiset(s.versions[k]) == multiset(index[k].versions))
    && (forall x :: x in components <==> x.key in index && x == ComponentAt(index, x.key))
  }

  method ListVersions(versions: set<Text>) returns (list: seq<Text>)
    ensures multiset(list) == multiset(versions)
  {
    list := [];
    var todo := versions;
    while todo != {}
      invariant todo <= versions && multiset(list) == multiset(versions - todo)
      decreases |todo|
    {
      var v :| v in todo;
      assert versions - (todo - {v}) == (versions - todo) + {v};
      list := list + [v];
      todo := todo - {v};
    }
    assert versions - {} == versions;
  }

  method ListComponents(index: Indexing.Index) returns (s: Diff.Sbom, components: seq<Squat.Component>)
    requires forall k :: k in index ==> [] !in index[k].versions
    ensures Lists(s, components, index)
  {
    s := Diff.Sbom([], map[]);
    components := [];
    var todo := index.Keys;
    while todo != {}
      invariant todo <= index.Keys && s.Valid() && s.versions.Keys == index.Keys - todo
      invariant forall k :: k in s.versions ==> multiset(s.versions[k]) == multiset(index[k].versions)
      invariant forall x :: x in components <==> x.key in s.versions && x == ComponentAt(index, x.key)
      decreases |todo|
    {
      var key :| key in todo;
      var versions := ListVersions(index[key].versions);
      SameMembers(versions, index[key].versions);
      s := Diff.Sbom(s.order + [key], s.versions[key := versions]);
      components := components + [ComponentAt(index, key)];
      todo := todo - {key};
    }
  }

  lemma SameMembers(list: seq<Text>, members: set<Text>)
    requires multiset(list) == multiset(members)
    ensures forall x :: x in list <==> x in members
  {
    forall x ensures x in list <==> x in members {
      assert x in list <==> x in multiset(list);
      assert x in members <==> x in multiset(members);
    }
  }

  lemma NoEmptyVersions(d: Document)
    ensures forall k :: k in Indexed(d) ==> [] !in Indexed(d)[k].versions
  {
    forall k | k in Indexed(d) ensures [] !in Indexed(d)[k].versions {
      Indexing.EntryNamedByFirst(Indexing.Flatten(d.components), k);
    }
  }

  lemma VersionsOfList(s: Diff.Sbom, components: seq<Squat.Component>, index: Indexing.Index, key: Text)
    requires Lists(s, components, index) && key in index
    ensures Diff.Lines(Diff.SortedVersions(s, key)) == VersionLines(index, key)
  {
    Diff.SameVersionsSort(s.versions[key], ListOf(index[key].versions));
  }

  lemma OneVersion(list: seq<Text>, members: set<Text>)
    requires multiset(list) == multiset(members)
    ensures |list| == 1 <==> exists v :: members == {v}
    ensures |list| == 1 ==> members == {list[0]}
  {
    SameMembers(list, members);
    assert |list| == |multiset(list)| == |members|;
    if |list| == 1 {
      assert list == [list[0]];
      assert members == {list[0]};
    }
  }

  lemma ComparedKeys(
      p: Indexing.Index, ps: Diff.Sbom, pc: seq<Squat.Component>,
      c: Indexing.Index, cs: Diff.Sbom, cc: seq<Squat.Component>, key: Text)
    requires Lists(ps, pc, p) && Lists(cs, cc, c)
    ensures key in Diff.ChangedKeys(ps, cs) <==> ChangedBetween(p, c, key)
    ensures Diff.IsDowngraded(ps, cs, key) <==> DowngradedBetween(p, c, key)
  {
    hide Sort, Join, VersionLines, Versions.Downgraded;
    SortPermutes(cs.order, AtMost);
    if key in p && key in c {
      Diff.ChangedExactly(ps, cs, key);
      VersionsOfList(ps, pc, p, key);
      VersionsOfList(cs, cc, c, key);
      OneVersion(ps.versions[key], p[key].versions);
      OneVersion(cs.versions[key], c[key].versions);
      assert key in cs.order;
    }
  }

  // ----- the flagged names

  lemma KnownInLists(
      p: Indexing.Index, ps: Diff.Sbom, pc: seq<Squat.Component>, wellKnown: seq<Squat.PackageList>, ecosystem: Text, name: Text)
    requires Lists(ps, pc, p)
    ensures Squat.IsKnown(pc, wellKnown, ecosystem, name) <==> KnownName(p, wellKnown, ecosystem, name)
  {
    if k :| k in p && p[k].ecosystem == ecosystem && p[k].name == name {
      assert ComponentAt(p, k) in pc;
    }
  }

  lemma {:induction false} FlaggedMembers(signals: seq<Squat.Signal>, x: Squat.Component)
    ensures x in Squat.Flagged(signals) <==> exists s :: s in signals && s.component == x
    decreases |signals|
  {
    if signals != [] {
      var init, last := signals[..|signals| - 1], signals[|signals| - 1];
      assert signals == init + [last];
      FlaggedMembers(init, x);
    }
  }

  lemma {:induction false} SuspectsMembers(
      added: seq<Squat.Component>, previousNames: set<Text>, known: map<Text, seq<Text>>, x: Squat.Component)
    ensures x in Squat.Suspects(added, previousNames, known) <==> x in added && Squat.Suspicious(x, previousNames, known)
    decreases |added|
  {
    hide Squat.Suspicious;
    if added != [] {
      var init, last := added[..|added| - 1], added[|added| - 1];
      assert added == init + [last];
      SuspectsMembers(init, previousNames, known, x);
    }
  }

  ghost predicate KnownMap(p: Indexing.Index, wellKnown: seq<Squat.PackageList>, known: map<Text, seq<Text>>) {
    forall e, n :: n in Squat.NamesIn(known, e) <==> KnownName(p, wellKnown, e, n)
  }

  function PreviousNames(p: Indexing.Index): set<Text> {
    set k | k in p :: p[k].name
  }

  lemma SuspiciousMeans(
      p: Indexing.Index, c: Indexing.Index, wellKnown: seq<Squat.PackageList>, known: map<Text, seq<Text>>, key: Text)
    requires KnownMap(p, wellKnown, known) && key in c && key !in p
    ensures Squat.Suspicious(ComponentAt(c, key), PreviousNames(p), known) <==> Suspect(p, c, wellKnown, key)
  {
    hide KnownName, Edits.Distance;
    var e, name := c[key].ecosystem, c[key].name;
    assert Squat.NamesIn(known, e) == if e in known then known[e] else [];
    assert name in Squat.NamesIn(known, e) <==> KnownName(p, wellKnown, e, name);
    if Suspect(p, c, wellKnown, key) {
      var n :| KnownName(p, wellKnown, e, n) && Resembles(name, n);
      assert n in Squat.NamesIn(known, e);
    }
    if Squat.Suspicious(ComponentAt(c, key), PreviousNames(p), known) {
      var n :| n in known[e] && Squat.Near(name, n);
      assert n in Squat.NamesIn(known, e) && Resembles(name, n);
    }
  }

  ghost predicate ListsAdded(added: seq<Squat.Component>, p: Indexing.Index, c: Indexing.Index) {
    forall x :: x in added <==> x.key in c && x.key !in p && x == ComponentAt(c, x.key)
  }

  method NewComponents(keys: seq<Text>, p: Indexing.Index, c: Indexing.Index) returns (added: seq<Squat.Component>)
    requires forall k :: k in keys <==> k in c && k !in p
    ensures ListsAdded(added, p, c)
  {
    added := [];
    for i := 0 to |keys|
      invariant forall x :: x in added <==> x.key in keys[..i] && x.key in c && x == ComponentAt(c, x.key)
    {
      assert keys[..i + 1] == keys[..i] + [keys[i]] && keys[i] in keys;
      added := added + [ComponentAt(c, keys[i])];
    }
    assert keys[..|keys|] == keys;
  }

  /** The signals of new components that resemble a known name. */
  method FlagNames(p: Indexing.Index, pc: seq<Squat.Component>, ghost ps: Diff.Sbom, c: Indexing.Index,
                   added: seq<Squat.Component>, wellKnown: seq<Squat.PackageList>)
    returns (signals: seq<Squat.Signal>, searchedAll: bool)
    requires Lists(ps, pc, p) && ListsAdded(added, p, c)
    ensures forall k :: Flags(signals, k) ==> Suspect(p, c, wellKnown, k)
    ensures searchedAll ==> forall k :: Suspect(p, c, wellKnown, k) ==> Flags(signals, k)
  {
    hide Suspect, Squat.Suspicious, KnownName, Lists;
    var known := Squat.KnownByEcosystem(pc, wellKnown);
    forall e, n ensures n in Squat.NamesIn(known, e) <==> KnownName(p, wellKnown, e, n) {
      KnownInLists(p, ps, pc, wellKnown, e, n);
    }
    var candidates, work, exceeded;
    signals, candidates, work, exceeded := Squat.FindTyposquats(added, PreviousNames(p), known);
    searchedAll := !exceeded && candidates <= Squat.MAX_TYPOSQUAT_CANDIDATES;
    forall k | Flags(signals, k) ensures Suspect(p, c, wellKnown, k) {
      var s :| s in signals && s.component.key == k;
      assert s.component in added;
      SuspiciousMeans(p, c, wellKnown, known, k);
    }
    if searchedAll {
      forall k | Suspect(p, c, wellKnown, k) ensures Flags(signals, k) {
        SuspectIsNew(p, c, wellKnown, k);
        SuspiciousMeans(p, c, wellKnown, known, k);
        SuspectsMembers(added, PreviousNames(p), known, ComponentAt(c, k));
        FlaggedMembers(signals, ComponentAt(c, k));
      }
    }
  }

  lemma SuspectIsNew(p: Indexing.Index, c: Indexing.Index, wellKnown: seq<Squat.PackageList>, key: Text)
    requires Suspect(p, c, wellKnown, key)
    ensures key in c && key !in p
  {
  }

  // ----- the report

  /** What a report says of two indexes. */
  ghost predicate Describes(r: Report, p: Indexing.Index, c: Indexing.Index, wellKnown: seq<Squat.PackageList>) {
    && (forall k :: k in r.added <==> k in c && k !in p)
    && (forall k :: k in r.removed <==> k in p && k !in c)
    && (forall k :: k in r.changed <==> ChangedBetween(p, c, k))
    && (forall k :: k in r.downgraded <==> DowngradedBetween(p, c, k))
    && (forall k :: Flags(r.typosquats, k) ==> Suspect(p, c, wellKnown, k))
    && (r.searchedAll ==> forall k :: Suspect(p, c, wellKnown, k) ==> Flags(r.typosquats, k))
  }

  lemma AddedBetween(
      p: Indexing.Index, ps: Diff.Sbom, pc: seq<Squat.Component>,
      c: Indexing.Index, cs: Diff.Sbom, cc: seq<Squat.Component>)
    requires Lists(ps, pc, p) && Lists(cs, cc, c)
    ensures forall k :: k in Diff.AddedKeys(ps, cs) <==> k in c && k !in p
  {
    SortPermutes(cs.order, AtMost);
  }

  /** Fails exactly when a document cannot be indexed; otherwise reports the components added, removed,
      changed and downgraded between the two indexes and, unless a cap stops the search, exactly the
      suspect names. */
  method DiffCycloneDxSboms(previous: Document, current: Document, wellKnown: seq<Squat.PackageList>)
    returns (report: Option<Report>)
    ensures report.Some? <==> Indexable(previous) && Indexable(current)
    ensures report.Some? ==>
              && Describes(report.value, Indexed(previous), Indexed(current), wellKnown)
              && report.value.previousCount == |Indexing.Flatten(previous.components)|
              && report.value.currentCount == |Indexing.Flatten(current.components)|
  {
    hide Lists, ListsAdded, ChangedBetween, DowngradedBetween, Suspect, Flags, Indexing.Acceptable, Indexing.AddAll,
         Indexing.Flatten, Diff.AddedKeys, Diff.ChangedKeys, Diff.IsDowngraded;
    var p, previousCount := Indexing.IndexSbom(previous.supported, previous.components);
    var c, currentCount := Indexing.IndexSbom(current.supported, current.components);
    if p.None? || c.None? {
      return None;
    }
    assert p.value == Indexed(previous) && c.value == Indexed(current);
    NoEmptyVersions(previous);
    NoEmptyVersions(current);
    var ps, pc := ListComponents(p.value);
    var cs, cc := ListComponents(c.value);
    ListsAreValid(p.value, ps, pc);
    ListsAreValid(c.value, cs, cc);
    var added, removed, changed, downgraded := Diff.DiffComponents(ps, cs);
    AddedBetween(p.value, ps, pc, c.value, cs, cc);
    AddedBetween(c.value, cs, cc, p.value, ps, pc);
    forall k
      ensures k in changed <==> ChangedBetween(p.value, c.value, k)
      ensures k in downgraded <==> DowngradedBetween(p.value, c.value, k)
    {
      ComparedKeys(p.value, ps, pc, c.value, cs, cc, k);
    }
    var newComponents := NewComponents(added, p.value, c.value);
    var signals, searchedAll := FlagNames(p.value, pc, ps, c.value, newComponents, wellKnown);
    report := Some(Report(previousCount, currentCount, added, removed, changed, downgraded, signals, searchedAll));
  }

  lemma ListsAreValid(index: Indexing.Index, s: Diff.Sbom, components: seq<Squat.Component>)
    requires Lists(s, components, index)
    ensures s.Valid()
  {
  }
}
