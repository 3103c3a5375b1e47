/**
 Indexing a CycloneDX document's nested components (packages/core/src/sbom-diff.ts:210-272).

 A component arrives with its ecosystem, name and index key already derived from its package
 URL, group and name; `wellFormed` records whether those fields passed their checks.
 */
module SbomIndex {
  import opened Wrappers
  import opened Texts

  const MAX_SBOM_DIFF_COMPONENTS: nat := 50_000
  const MAX_COMPONENT_DEPTH: nat := 8

  datatype Nested = Absent | NotAnArray | Components(list: seq<RawComponent>)

  datatype RawComponent = RawComponent(
    wellFormed: bool, key: Text, name: Text, ecosystem: Text, version: Option<Text>, registry: Option<Text>, nested: Nested)

  datatype IndexedComponent = IndexedComponent(name: Text, ecosystem: Text, versions: set<Text>, registries: set<Text>)

  type Index = map<Text, IndexedComponent>

  // ----- the reference

  /** All components of the document, each before the ones nested in it. */
  function Flatten(n: Nested): seq<RawComponent> {
    if n.Components? then FlattenAll(n.list) else []
  }

  function FlattenAll(list: seq<RawComponent>): seq<RawComponent> {
    if list == [] then []
    else FlattenAll(list[..|list| - 1]) + [list[|list| - 1]] + Flatten(list[|list| - 1].nested)
  }

  /** Well formed throughout and nested no deeper than allowed; an empty list still counts as a level. */
  predicate Acceptable(n: Nested, depth: nat) {
    match n
    case Absent => true
    case NotAnArray => false
    case Components(list) =>
      depth <= MAX_COMPONENT_DEPTH && AcceptableAll(list, depth + 1)
  }

  predicate AcceptableAll(list: seq<RawComponent>, depth: nat) {
    list == [] ||
    var last := list[|list| - 1];
    AcceptableAll(list[..|list| - 1], depth) && last.wellFormed && Acceptable(last.nested, depth)
  }

  lemma {:induction false} PrefixAcceptable(list: seq<RawComponent>, i: nat, depth: nat)
    requires i <= |list| && AcceptableAll(list, depth)
    ensures AcceptableAll(list[..i], depth)
    decreases |list|
  {
    if i < |list| {
      PrefixAcceptable(list[..|list| - 1], i, depth);
      assert list[..|list| - 1][..i] == list[..i];
    } else {
      assert list[..i] == list;
    }
  }

  // ----- the same by chains of nested components

  /** Each component of the chain is listed in the one before it, the first in the document. */
  ghost predicate Chain(n: Nested, chain: seq<RawComponent>)
    decreases |chain|
  {
    chain == [] || (n.Components? && chain[0] in n.list && Chain(chain[0].nested, chain[1..]))
  }

  /** What a chain ends in is well formed, and what is nested there is a list at most at level 8. */
  ghost predicate ChainHolds(n: Nested, chain: seq<RawComponent>, depth: nat) {
    var end := if chain == [] then n else chain[|chain| - 1].nested;
    && (chain != [] ==> chain[|chain| - 1].wellFormed)
    && !end.NotAnArray? && (end.Components? ==> depth + |chain| <= 8)
  }

  ghost predicate AllHold(n: Nested, depth: nat) {
    forall chain :: Chain(n, chain) ==> ChainHolds(n, chain, depth)
  }

  lemma {:induction false} AcceptableEach(list: seq<RawComponent>, depth: nat)
    ensures AcceptableAll(list, depth) <==> forall c :: c in list ==> c.wellFormed && Acceptable(c.nested, depth)
    decreases |list|
  {
    if list != [] {
      var init, last := list[..|list| - 1], list[|list| - 1];
      AcceptableEach(init, depth);
      assert list == init + [last];
    }
  }

  lemma ChainTail(n: Nested, chain: seq<RawComponent>, depth: nat)
    requires chain != [] && (|chain| == 1 ==> chain[0].wellFormed)
    ensures ChainHolds(n, chain, depth) <==> ChainHolds(chain[0].nested, chain[1..], depth + 1)
  {
  }

  lemma LongerChain(n: Nested, c: RawComponent, tail: seq<RawComponent>)
    requires n.Components? && c in n.list && Chain(c.nested, tail)
    ensures Chain(n, [c] + tail) && ([c] + tail)[1..] == tail
  {
    assert ([c] + tail)[1..] == tail;
  }

  /** A document is acceptable exactly when every chain in it holds. */
  lemma {:induction false} AcceptableExactly(n: Nested, depth: nat)
    ensures Acceptable(n, depth) <==> AllHold(n, depth)
    decreases n
  {
    hide ChainHolds, AllHold;
    if n.Components? {
      AcceptableEach(n.list, depth + 1);
      forall i | 0 <= i < |n.list|
        ensures Acceptable(n.list[i].nested, depth + 1) <==> AllHold(n.list[i].nested, depth + 1)
      {
        AcceptableExactly(n.list[i].nested, depth + 1);
      }
      if Acceptable(n, depth) {
        ChainsHold(n, depth);
      }
      if AllHold(n, depth) {
        HoldsOfEach(n, depth);
      }
    } else {
      NoChain(n, depth);
    }
  }

  lemma NoChain(n: Nested, depth: nat)
    requires !n.Components?
    ensures forall chain :: Chain(n, chain) <==> chain == []
    ensures AllHold(n, depth) <==> n.Absent?
  {
    assert Chain(n, []) && (ChainHolds(n, [], depth) <==> n.Absent?);
  }

  lemma ChainsHold(n: Nested, depth: nat)
    requires Acceptable(n, depth) && n.Components?
    requires forall c :: c in n.list ==> AllHold(c.nested, depth + 1)
    ensures AllHold(n, depth)
  {
    AcceptableEach(n.list, depth + 1);
    forall chain: seq<RawComponent> | Chain(n, chain) ensures ChainHolds(n, chain, depth) {
      if chain != [] {
        assert AllHold(chain[0].nested, depth + 1);
        ChainTail(n, chain, depth);
      }
    }
  }

  lemma HoldsOfEach(n: Nested, depth: nat)
    requires n.Components? && AllHold(n, depth)
    ensures depth <= 8
    ensures forall c :: c in n.list ==> c.wellFormed
    ensures forall c :: c in n.list ==> AllHold(c.nested, depth + 1)
  {
    assert Chain(n, []) && ChainHolds(n, [], depth);
    forall c, tail | c in n.list && Chain(c.nested, tail)
      ensures c.wellFormed && ChainHolds(c.nested, tail, depth + 1)
    {
      LongerChain(n, c, tail);
      LongerChain(n, c, []);
      assert [c] + [] == [c];
      assert ChainHolds(n, [c] + tail, depth) && ChainHolds(n, [c], depth);
      ChainTail(n, [c] + tail, depth);
    }
    forall c | c in n.list ensures c.wellFormed && AllHold(c.nested, depth + 1) {
      assert Chain(c.nested, []);
    }
  }

  lemma {:induction false} FlattenEach(list: seq<RawComponent>, c: RawComponent)
    ensures c in FlattenAll(list) <==> exists top :: top in list && (c == top || c in Flatten(top.nested))
    decreases |list|
  {
    if list != [] {
      var init, last := list[..|list| - 1], list[|list| - 1];
      FlattenEach(init, c);
      assert list == init + [last];
    }
  }

  ghost predicate EndsIn(n: Nested, chain: seq<RawComponent>, c: RawComponent) {
    chain != [] && Chain(n, chain) && chain[|chain| - 1] == c
  }

  lemma EndsFurther(n: Nested, top: RawComponent, tail: seq<RawComponent>, c: RawComponent)
    requires n.Components? && top in n.list && (if tail == [] then c == top else EndsIn(top.nested, tail, c))
    ensures EndsIn(n, [top] + tail, c)
  {
    LongerChain(n, top, tail);
  }

  lemma EndsNearer(n: Nested, chain: seq<RawComponent>, c: RawComponent)
    requires EndsIn(n, chain, c)
    ensures chain != [] && n.Components? && chain[0] in n.list && (c == chain[0] || EndsIn(chain[0].nested, chain[1..], c))
  {
  }

  /** The components of a document are those some chain ends in. */
  lemma {:induction false} FlattenExactly(n: Nested, c: RawComponent)
    ensures c in Flatten(n) <==> exists chain :: EndsIn(n, chain, c)
    decreases n
  {
    hide EndsIn, Chain;
    if n.Components? {
      FlattenEach(n.list, c);
      forall i | 0 <= i < |n.list|
        ensures c in Flatten(n.list[i].nested) <==> exists tail :: EndsIn(n.list[i].nested, tail, c)
      {
        FlattenExactly(n.list[i].nested, c);
      }
      if i :| 0 <= i < |n.list| && (c == n.list[i] || c in Flatten(n.list[i].nested)) {
        var tail :| if c == n.list[i] then tail == [] else EndsIn(n.list[i].nested, tail, c);
        if c != n.list[i] {
          NotEmptyEnd(n.list[i].nested, tail, c);
        }
        EndsFurther(n, n.list[i], tail, c);
      }
    }
    if chain :| EndsIn(n, chain, c) {
      EndsNearer(n, chain, c);
      var i :| 0 <= i < |n.list| && n.list[i] == chain[0];
      assert c == n.list[i] || EndsIn(n.list[i].nested, chain[1..], c);
    }
  }

  lemma NotEmptyEnd(n: Nested, chain: seq<RawComponent>, c: RawComponent)
    requires EndsIn(n, chain, c)
    ensures chain != []
  {
  }

  function OptionSet(o: Option<Text>): set<Text> {
    if o.Some? && o.value != [] then {o.value} else {}
  }

  /** The entry of a key, or a new one named after the component that introduces it. */
  function Entry(index: Index, c: RawComponent): IndexedComponent {
    if c.key in index then index[c.key] else IndexedComponent(c.name, c.ecosystem, {}, {})
  }

  function Add(index: Index, c: RawComponent): Index {
    var e := Entry(index, c);
    index[c.key := e.(versions := e.versions + OptionSet(c.version), registries := e.registries + OptionSet(c.registry))]
  }

  function AddAll(index: Index, list: seq<RawComponent>): Index {
    if list == [] then index else Add(AddAll(index, list[..|list| - 1]), list[|list| - 1])
  }

  lemma {:induction false} AddAllConcat(index: Index, a: seq<RawComponent>, b: seq<RawComponent>)
    ensures AddAll(index, a + b) == AddAll(AddAll(index, a), b)
    decreases |b|
  {
    if b == [] {
      assert a + b == a;
    } else {
      assert (a + b)[..|a + b| - 1] == a + b[..|b| - 1];
      AddAllConcat(index, a, b[..|b| - 1]);
    }
  }

  ghost predicate Carries(c: RawComponent, key: Text, version: Text) {
    c.key == key && c.version == Some(version) && version != []
  }

  ghost predicate ComesFrom(c: RawComponent, key: Text, registry: Text) {
    c.key == key && c.registry == Some(registry) && registry != []
  }

  /** Neither nesting nor order matters: a key is indexed exactly when some component anywhere has
      it, with exactly the versions such components carry and the registries they come from. */
  lemma {:induction false} IndexIsUnion(list: seq<RawComponent>, key: Text, version: Text)
    ensures key in AddAll(map[], list) <==> exists c :: c in list && c.key == key
    ensures key in AddAll(map[], list) && version in AddAll(map[], list)[key].versions <==>
            exists c :: c in list && Carries(c, key, version)
    ensures key in AddAll(map[], list) && version in AddAll(map[], list)[key].registries <==>
            exists c :: c in list && ComesFrom(c, key, version)
    decreases |list|
  {
    if list != [] {
      var init, last := list[..|list| - 1], list[|list| - 1];
      assert list == init + [last];
      IndexIsUnion(init, key, version);
      var before, after := AddAll(map[], init), AddAll(map[], list);
      assert key in after <==> key in before || last.key == key;
      assert key in after && version in after[key].versions <==>
             (key in before && version in before[key].versions) || Carries(last, key, version);
      assert key in after && version in after[key].registries <==>
             (key in before && version in before[key].registries) || ComesFrom(last, key, version);
      assert last in list && forall c :: c in list <==> c in init || c == last;
    }
  }

  ghost predicate Introduces(list: seq<RawComponent>, i: nat, key: Text) {
    i < |list| && list[i].key == key && forall j :: 0 <= j < i ==> list[j].key != key
  }

  /** An entry is named after the first component of its key, and no version in it is empty. */
  lemma {:induction false} EntryNamedByFirst(list: seq<RawComponent>, key: Text)
    requires key in AddAll(map[], list)
    ensures var e := AddAll(map[], list)[key];
            && [] !in e.versions
            && exists i: nat :: Introduces(list, i, key) && e.name == list[i].name && e.ecosystem == list[i].ecosystem
    decreases |list|
  {
    var init, last := list[..|list| - 1], list[|list| - 1];
    assert list == init + [last];
    if key in AddAll(map[], init) {
      EntryNamedByFirst(init, key);
      var e := AddAll(map[], init)[key];
      var i: nat :| Introduces(init, i, key) && e.name == init[i].name && e.ecosystem == init[i].ecosystem;
      assert Introduces(list, i, key) && list[i] == init[i];
    } else {
      IndexIsUnion(init, key, []);
      assert forall j :: 0 <= j < |init| ==> list[j] == init[j] && init[j] in init;
      assert Introduces(list, |init|, key);
    }
  }

  // ----- the visit

  /** Adds one component and everything nested in it, or fails. */
  method VisitComponent(c: RawComponent, depth: nat, index: Index, count: nat)
    returns (ok: bool, index': Index, count': nat)
    requires count <= MAX_SBOM_DIFF_COMPONENTS
    ensures ok <==> c.wellFormed && Acceptable(c.nested, depth + 1)
                    && count + 1 + |Flatten(c.nested)| <= MAX_SBOM_DIFF_COMPONENTS
    ensures ok ==> index' == AddAll(Add(index, c), Flatten(c.nested)) && count' == count + 1 + |Flatten(c.nested)|
    decreases c
  {
    index', count' := index, count + 1;
    if count' > MAX_SBOM_DIFF_COMPONENTS || !c.wellFormed {
      return false, index', count';
    }
    index' := Add(index', c);
    ok, index', count' := Visit(c.nested, depth + 1, index', count');
  }

  /** Adds one list of components and everything nested in it, or fails. */
  method Visit(n: Nested, depth: nat, index: Index, count: nat) returns (ok: bool, index': Index, count': nat)
    requires count <= MAX_SBOM_DIFF_COMPONENTS
    ensures ok <==> Acceptable(n, depth) && count + |Flatten(n)| <= MAX_SBOM_DIFF_COMPONENTS
    ensures ok ==> index' == AddAll(index, Flatten(n)) && count' == count + |Flatten(n)|
    decreases n
  {
    hide Add;
    index', count' := index, count;
    if n.Absent? {
      return true, index', count';
    }
    if n.NotAnArray? || depth > MAX_COMPONENT_DEPTH {
      return false, index', count';
    }
    var list := n.list;
    for i := 0 to |list|
      invariant AcceptableAll(list[..i], depth + 1)
      invariant count' == count + |FlattenAll(list[..i])| <= MAX_SBOM_DIFF_COMPONENTS
      invariant index' == AddAll(index, FlattenAll(list[..i]))
    {
      OneMoreComponent(list, i, index);
      OneMoreAcceptable(list, i, depth + 1);
      ok, index', count' := VisitComponent(list[i], depth, index', count');
      if !ok {
        return;
      }
    }
    assert list[..|list|] == list;
    ok := true;
  }

  lemma OneMoreAcceptable(list: seq<RawComponent>, i: nat, depth: nat)
    requires i < |list|
    ensures AcceptableAll(list[..i + 1], depth) <==>
            AcceptableAll(list[..i], depth) && list[i].wellFormed && Acceptable(list[i].nested, depth)
    ensures AcceptableAll(list, depth) ==> AcceptableAll(list[..i + 1], depth)
  {
    assert list[..i + 1][..i] == list[..i];
    if AcceptableAll(list, depth) {
      PrefixAcceptable(list, i + 1, depth);
    }
  }

  lemma FlattenSnoc(list: seq<RawComponent>, i: nat)
    requires i < |list|
    ensures FlattenAll(list[..i + 1]) == FlattenAll(list[..i]) + [list[i]] + Flatten(list[i].nested)
  {
    assert list[..i + 1][..i] == list[..i];
  }

  lemma {:induction false} FlattenedPrefixShorter(list: seq<RawComponent>, i: nat)
    requires i <= |list|
    ensures |FlattenAll(list[..i])| <= |FlattenAll(list)|
    decreases |list| - i
  {
    if i < |list| {
      FlattenSnoc(list, i);
      FlattenedPrefixShorter(list, i + 1);
    } else {
      assert list[..i] == list;
    }
  }

  lemma OneMoreComponent(list: seq<RawComponent>, i: nat, index: Index)
    requires i < |list|
    ensures AddAll(index, FlattenAll(list[..i + 1]))
         == AddAll(Add(AddAll(index, FlattenAll(list[..i])), list[i]), Flatten(list[i].nested))
    ensures |FlattenAll(list[..i + 1])| == |FlattenAll(list[..i])| + 1 + |Flatten(list[i].nested)|
    ensures |FlattenAll(list[..i + 1])| <= |FlattenAll(list)|
  {
    FlattenSnoc(list, i);
    FlattenedPrefixShorter(list, i + 1);
    AddAllConcat(index, FlattenAll(list[..i]), [list[i]]);
    AddAllConcat(index, FlattenAll(list[..i]) + [list[i]], Flatten(list[i].nested));
    assert [list[i]][..0] == [];
  }

  /** Fails exactly on a malformed, too deep or too large document; otherwise indexes all of it. */
  method IndexSbom(supported: bool, components: Nested) returns (index: Option<Index>, count: nat)
    ensures index.Some? <==> supported && Acceptable(components, 1) && |Flatten(components)| <= MAX_SBOM_DIFF_COMPONENTS
    ensures index.Some? ==> index.value == AddAll(map[], Flatten(components)) && count == |Flatten(components)|
  {
    if !supported {
      return None, 0;
    }
    var ok, built, n := Visit(components, 1, map[], 0);
    if ok {
      return Some(built), n;
    }
    return None, 0;
  }
}
