/** Refreshing the default-branch index, in full or from a previous head. */
module RepositoryIndex {
  /**
   Source: apps/control-plane/src/repository-index-service.ts:237-508, 745-840;
   packages/core/src/index/builder.ts:557-643.

   An index is modelled by the map from path to content it was built from.  The repository
   on the other side is a value: for each commit its tree, for each commit and path the
   outcome of reading that file, and for each pair of commits the compare response.
   */
  import opened Wrappers
  import opened Texts
  import opened Sorting
  import opened FetchWorkers

  const COMPARE_FILE_PAGE_LIMIT: nat := 300

  datatype CompareFile = CompareFile(filename: Option<Text>, previousFilename: Option<Text>)

  datatype Compare = Unavailable | Compared(ahead: bool, files: Option<seq<CompareFile>>)

  datatype Repository = Repository(
    tree: Text -> seq<Text>,
    classify: Text -> Option<nat>,
    read: (Text, Text) -> FileRead,
    compare: (Text, Text) -> Compare)

  datatype Limits = Limits(maxIndexedFiles: nat, maxTotalBytes: nat, fetchConcurrency: nat, maxIncrementalFiles: nat)
  {
    predicate Positive() {
      maxIndexedFiles > 0 && maxTotalBytes > 0 && fetchConcurrency > 0 && maxIncrementalFiles > 0
    }
  }

  datatype Identity = Identity(repository: Text, visibility: Text)

  datatype Index = Index(identity: Identity, reusableEmbedding: bool, files: map<Text, Text>)

  /** Published indexes by commit, and the commit the repository row points at. */
  datatype Published = Published(indexes: map<Text, Index>, indexSha: Option<Text>)

  // ----- what a head selects

  predicate CandidateBefore(r: Repository, a: Text, b: Text) {
    var x, y := r.classify(a).GetOr(0), r.classify(b).GetOr(0);
    x < y || (x == y && AtMost(a, b))
  }

  function Supported(r: Repository, sha: Text): seq<Text> {
    Sort(Filter(r.tree(sha), p => p != [] && r.classify(p).Some?), (a, b) => CandidateBefore(r, a, b))
  }

  function Selected(r: Repository, l: Limits, sha: Text): seq<Text> {
    Supported(r, sha)[..Min(|Supported(r, sha)|, l.maxIndexedFiles)]
  }

  function Reads(r: Repository, sha: Text, targets: seq<Text>): (answers: seq<FileRead>)
    ensures |answers| == |targets|
  {
    if targets == [] then []
    else Reads(r, sha, targets[..|targets| - 1]) + [r.read(sha, targets[|targets| - 1])]
  }

  /** The loaded files of a pass over the targets. */
  function Collect(targets: seq<Text>, kept: seq<FileRead>): map<Text, Text>
    requires |targets| == |kept|
  {
    if targets == [] then map[]
    else
      var n := |targets| - 1;
      var init := Collect(targets[..n], kept[..n]);
      if kept[n].Loaded? then init[targets[n] := kept[n].content] else init
  }

  function ReadWithin(r: Repository, l: Limits, sha: Text, targets: seq<Text>): map<Text, Text> {
    Collect(targets, KeepWithin(Reads(r, sha, targets), l.maxTotalBytes))
  }

  /** The files of a full rebuild. */
  function FullFiles(r: Repository, l: Limits, sha: Text): map<Text, Text> {
    ReadWithin(r, l, sha, Selected(r, l, sha))
  }

  /** The reference: every selected path that reads, with its content at this commit. */
  ghost function Readable(r: Repository, l: Limits, sha: Text): map<Text, Text> {
    map p | p in Selected(r, l, sha) && r.read(sha, p).Loaded? :: r.read(sha, p).content
  }

  // ----- planning and building an incremental refresh

  function Names(f: CompareFile): set<Text> {
    (if f.filename.Some? && f.filename.value != [] then {f.filename.value} else {})
    + (if f.previousFilename.Some? && f.previousFilename.value != [] then {f.previousFilename.value} else {})
  }

  function NamedPaths(files: seq<CompareFile>): set<Text> {
    if files == [] then {} else NamedPaths(files[..|files| - 1]) + Names(files[|files| - 1])
  }

  predicate IsHex(s: Text) {
    forall i :: 0 <= i < |s| ==> IsHexDigit(s[i])
  }

  datatype Plan = Plan(previous: Index, baseSha: Text, changed: set<Text>)

  /** The index a refresh may build on, if its identity and embedding space are unchanged. */
  function Base(store: Published, id: Identity, sha: Text): Option<Plan> {
    if store.indexSha.None? then None
    else
      var base := store.indexSha.value;
      if base == sha || !(7 <= |base| <= 40) || !IsHex(base) || base !in store.indexes then None
      else
        var previous := store.indexes[base];
        if previous.identity != id || !previous.reusableEmbedding then None
        else Some(Plan(previous, base, {}))
  }

  /** The paths the compare response says differ, if it can be trusted to name them all. */
  function ForwardChanges(c: Compare): Option<set<Text>> {
    if c.Unavailable? || c.files.None? || !c.ahead || |c.files.value| >= COMPARE_FILE_PAGE_LIMIT then None
    else Some(NamedPaths(c.files.value))
  }

  function NewlySelected(selected: seq<Text>, previous: map<Text, Text>): set<Text> {
    set p | p in selected && p !in previous
  }

  function Reread(selected: seq<Text>, changed: set<Text>): set<Text> {
    set p | p in selected && p in changed
  }

  function PlanIncremental(r: Repository, l: Limits, store: Published, id: Identity, sha: Text): Option<Plan> {
    var base := Base(store, id, sha);
    if base.None? then None
    else
      var named := ForwardChanges(r.compare(base.value.baseSha, sha));
      if named.None? then None
      else
        var selected := Selected(r, l, sha);
        var changed := named.value + NewlySelected(selected, base.value.previous.files);
        if |Reread(selected, changed)| > l.maxIncrementalFiles then None
        else Some(base.value.(changed := changed))
  }

  /** The selected paths whose content must be re-read. */
  function Targets(selected: seq<Text>, changed: set<Text>): (targets: seq<Text>)
    ensures forall p :: p in targets <==> p in selected && p in changed
  {
    if selected == [] then []
    else
      var init, last := selected[..|selected| - 1], selected[|selected| - 1];
      assert selected == init + [last];
      Targets(init, changed) + (if last in changed then [last] else [])
  }

  /** Previous minus removed, overridden by what was read. */
  function Advanced(previous: map<Text, Text>, selected: seq<Text>, changed: set<Text>, files: map<Text, Text>): map<Text, Text> {
    var removed := set p | p in previous && p !in files && (p in changed || p !in selected);
    (previous - removed) + files
  }

  function IncrementalFiles(r: Repository, l: Limits, plan: Plan, sha: Text): map<Text, Text> {
    var selected := Selected(r, l, sha);
    Advanced(plan.previous.files, selected, plan.changed, ReadWithin(r, l, sha, Targets(selected, plan.changed)))
  }

  function BuiltFiles(r: Repository, l: Limits, store: Published, id: Identity, sha: Text): map<Text, Text> {
    var plan := PlanIncremental(r, l, store, id, sha);
    if plan.Some? then IncrementalFiles(r, l, plan.value, sha) else FullFiles(r, l, sha)
  }

  function Refreshed(r: Repository, l: Limits, store: Published, id: Identity, sha: Text): Published {
    if sha in store.indexes && store.indexes[sha].identity == id then
      Published(store.indexes, Some(sha))
    else
      Published(store.indexes[sha := Index(id, true, BuiltFiles(r, l, store, id, sha))], Some(sha))
  }

  // ----- assumptions on the other side

  /** Some file of the response has the path as its name or its previous name. */
  ghost predicate Listed(files: seq<CompareFile>, p: Text) {
    exists k :: 0 <= k < |files| && (files[k].filename == Some(p) || files[k].previousFilename == Some(p))
  }

  /** A response that says the head is ahead, with fewer files than a page holds, lists every path whose
      read differs.  Nothing is asked of any other response. */
  ghost predicate HonestCompare(r: Repository) {
    forall base, sha, files, p ::
      r.compare(base, sha) == Compared(true, Some(files)) && |files| < 300
      && p != [] && r.read(base, p) != r.read(sha, p)
      ==> Listed(files, p)
  }

  ghost predicate Fits(r: Repository, l: Limits, sha: Text) {
    LoadedBytes(Reads(r, sha, Selected(r, l, sha))) <= l.maxTotalBytes
  }

  lemma {:induction false} NamedMeansListed(files: seq<CompareFile>, p: Text)
    ensures p in NamedPaths(files) <==> p != [] && Listed(files, p)
    decreases |files|
  {
    if files != [] {
      var init, last := files[..|files| - 1], files[|files| - 1];
      assert files == init + [last];
      NamedMeansListed(init, p);
      ListedSnoc(init, last, p);
    }
  }

  lemma ListedSnoc(init: seq<CompareFile>, last: CompareFile, p: Text)
    ensures Listed(init + [last], p) <==>
            Listed(init, p) || last.filename == Some(p) || last.previousFilename == Some(p)
  {
    var all := init + [last];
    assert all[|init|] == last && forall k :: 0 <= k < |init| ==> all[k] == init[k];
  }

  /** The previous index an incremental refresh may build on: the published one, under the same identity and
      embedding, of another commit with a well-formed name. */
  ghost predicate MayExtend(store: Published, id: Identity, sha: Text, base: Text) {
    && store.indexSha == Some(base) && base != sha
    && 7 <= |base| <= 40 && (forall i :: 0 <= i < |base| ==> 48 <= base[i] <= 57 || 97 <= base[i] <= 102)
    && base in store.indexes && store.indexes[base].identity == id && store.indexes[base].reusableEmbedding
  }

  /** The selected paths that are listed as changed or new to the index. */
  ghost function ToReread(selected: seq<Text>, files: seq<CompareFile>, previous: map<Text, Text>): set<Text> {
    set p | p in selected && ((p != [] && Listed(files, p)) || p !in previous)
  }

  ghost predicate PlansFrom(r: Repository, l: Limits, store: Published, id: Identity, sha: Text,
                            base: Text, files: seq<CompareFile>) {
    && MayExtend(store, id, sha, base)
    && r.compare(base, sha) == Compared(true, Some(files)) && |files| < 300
    && |ToReread(Selected(r, l, sha), files, store.indexes[base].files)| <= l.maxIncrementalFiles
  }

  /** A refresh is incremental exactly when the published index may be extended, the response says ahead with
      fewer than 300 files, and few enough files must be re-read; it then re-reads exactly those. */
  lemma PlansExactly(r: Repository, l: Limits, store: Published, id: Identity, sha: Text)
    ensures PlanIncremental(r, l, store, id, sha).Some? <==> exists base, files :: PlansFrom(r, l, store, id, sha, base, files)
    ensures forall base, files :: PlansFrom(r, l, store, id, sha, base, files) ==>
              var plan := PlanIncremental(r, l, store, id, sha).value;
              && plan.baseSha == base && plan.previous == store.indexes[base]
              && forall p :: p in Selected(r, l, sha) ==>
                   (p in plan.changed <==> p in ToReread(Selected(r, l, sha), files, store.indexes[base].files))
  {
    hide Selected, NamedPaths, Listed;
    if store.indexSha.Some? {
      var base := store.indexSha.value;
      BaseExactly(store, id, sha, base);
      if MayExtend(store, id, sha, base) && r.compare(base, sha).Compared? && r.compare(base, sha).files.Some? {
        var files := r.compare(base, sha).files.value;
        RereadExactly(Selected(r, l, sha), files, store.indexes[base].files);
        assert PlanIncremental(r, l, store, id, sha).Some? ==> PlansFrom(r, l, store, id, sha, base, files);
      }
    }
  }

  lemma BaseExactly(store: Published, id: Identity, sha: Text, base: Text)
    requires store.indexSha == Some(base)
    ensures Base(store, id, sha).Some? <==> MayExtend(store, id, sha, base)
    ensures Base(store, id, sha).Some? ==> Base(store, id, sha).value == Plan(store.indexes[base], base, {})
  {
  }

  lemma RereadExactly(selected: seq<Text>, files: seq<CompareFile>, previous: map<Text, Text>)
    ensures Reread(selected, NamedPaths(files) + NewlySelected(selected, previous)) == ToReread(selected, files, previous)
  {
    hide Listed;
    forall p ensures p in NamedPaths(files) <==> p != [] && Listed(files, p) {
      NamedMeansListed(files, p);
    }
  }

  // ----- what the file limit prefers

  /** A supported file is left out only for files of better priority, or of the same priority and an earlier
      path. */
  lemma SelectedPrefers(r: Repository, l: Limits, sha: Text, p: Text, q: Text)
    requires p in Selected(r, l, sha) && q !in Selected(r, l, sha)
    requires q in r.tree(sha) && q != [] && r.classify(q).Some?
    ensures p in r.tree(sha) && p != [] && r.classify(p).Some? && |Selected(r, l, sha)| == l.maxIndexedFiles
    ensures || r.classify(p).value < r.classify(q).value
            || (r.classify(p).value == r.classify(q).value && (p == q || Precedes(p, q)))
  {
    var keep := (x: Text) => x != [] && r.classify(x).Some?;
    var before := (a: Text, b: Text) => CandidateBefore(r, a, b);
    var candidates := Filter(r.tree(sha), keep);
    var supported := Sort(candidates, before);
    assert Supported(r, sha) == supported;
    SortPermutes(candidates, before);
    CandidatesTotal(r, before);
    SortOrdered(candidates, before);
    var n := |Selected(r, l, sha)|;
    var i :| 0 <= i < n && Selected(r, l, sha)[i] == p;
    assert supported[i] == p && p in supported;
    assert q in supported;
    var j :| 0 <= j < |supported| && supported[j] == q;
    BeyondPrefix(supported, n, j);
    assert before(p, q);
    LessTotal(p, q);
    LessMeans(p, q);
  }

  lemma BeyondPrefix(s: seq<Text>, n: nat, j: nat)
    requires n <= |s| && j < |s| && s[j] !in s[..n]
    ensures j >= n
  {
  }

  lemma CandidatesTotal(r: Repository, before: (Text, Text) -> bool)
    requires forall a, b :: before(a, b) == CandidateBefore(r, a, b)
    ensures TotalPreorder(before)
  {
    AtMostIsTotal();
  }

  // ----- one pass over targets

  lemma {:induction false} PassIsFaithful(r: Repository, l: Limits, sha: Text, targets: seq<Text>)
    ensures forall p :: p in ReadWithin(r, l, sha, targets) ==>
              p in targets && r.read(sha, p).Loaded? && ReadWithin(r, l, sha, targets)[p] == r.read(sha, p).content
    decreases |targets|
  {
    if targets != [] {
      var n := |targets| - 1;
      PassIsFaithful(r, l, sha, targets[..n]);
      PassStep(r, l, sha, targets);
      assert targets == targets[..n] + [targets[n]];
    }
  }

  /** One more target: a pass's earlier decisions do not change. */
  lemma PassStep(r: Repository, l: Limits, sha: Text, targets: seq<Text>)
    requires targets != []
    ensures var n := |targets| - 1;
            var a := r.read(sha, targets[n]);
            var used := LoadedBytes(KeepWithin(Reads(r, sha, targets[..n]), l.maxTotalBytes));
            var keeps := a.Loaded? && used + a.byteLength <= l.maxTotalBytes;
            && ReadWithin(r, l, sha, targets)
               == (if keeps then ReadWithin(r, l, sha, targets[..n])[targets[n] := a.content]
                   else ReadWithin(r, l, sha, targets[..n]))
            && LoadedBytes(KeepWithin(Reads(r, sha, targets), l.maxTotalBytes))
               == used + (if keeps then a.byteLength else 0)
  {
    var n := |targets| - 1;
    var kept := KeepWithin(Reads(r, sha, targets), l.maxTotalBytes);
    assert Reads(r, sha, targets)[..n] == Reads(r, sha, targets[..n]);
    assert kept[..n] == KeepWithin(Reads(r, sha, targets[..n]), l.maxTotalBytes);
  }

  lemma {:induction false} PassCoversAll(r: Repository, l: Limits, sha: Text, targets: seq<Text>)
    requires LoadedBytes(Reads(r, sha, targets)) <= l.maxTotalBytes
    ensures forall p :: p in targets && r.read(sha, p).Loaded? ==> p in ReadWithin(r, l, sha, targets)
    decreases |targets|
  {
    if targets != [] {
      var n := |targets| - 1;
      assert Reads(r, sha, targets)[..n] == Reads(r, sha, targets[..n]);
      PassCoversAll(r, l, sha, targets[..n]);
      PassStep(r, l, sha, targets);
      EverythingFits(Reads(r, sha, targets[..n]), l.maxTotalBytes);
      assert targets == targets[..n] + [targets[n]];
    }
  }

  lemma {:induction false} FewerTargetsFewerBytes(r: Repository, sha: Text, targets: seq<Text>, changed: set<Text>)
    ensures LoadedBytes(Reads(r, sha, Targets(targets, changed))) <= LoadedBytes(Reads(r, sha, targets))
    decreases |targets|
  {
    if targets != [] {
      var init, last := targets[..|targets| - 1], targets[|targets| - 1];
      assert targets == init + [last];
      TargetsSnoc(init, last, changed);
      assert Targets(init, changed) + [] == Targets(init, changed);
      ReadsSnoc(r, sha, init, last);
      ReadsSnoc(r, sha, Targets(init, changed), last);
      FewerTargetsFewerBytes(r, sha, init, changed);
    }
  }

  lemma ReadsSnoc(r: Repository, sha: Text, targets: seq<Text>, p: Text)
    ensures Reads(r, sha, targets + [p]) == Reads(r, sha, targets) + [r.read(sha, p)]
    ensures LoadedBytes(Reads(r, sha, targets + [p]))
         == LoadedBytes(Reads(r, sha, targets)) + (if r.read(sha, p).Loaded? then r.read(sha, p).byteLength else 0)
  {
    assert (targets + [p])[..|targets|] == targets;
    var all := Reads(r, sha, targets) + [r.read(sha, p)];
    assert all[..|all| - 1] == Reads(r, sha, targets);
  }

  // ----- one refresh

  /** Every file an index holds is selected at its commit and has its content at that commit. */
  ghost predicate Faithful(r: Repository, l: Limits, sha: Text, files: map<Text, Text>) {
    forall p :: p in files ==>
      p in Selected(r, l, sha) && r.read(sha, p).Loaded? && files[p] == r.read(sha, p).content
  }

  ghost predicate AllFaithful(r: Repository, l: Limits, store: Published) {
    forall sha :: sha in store.indexes ==> Faithful(r, l, sha, store.indexes[sha].files)
  }

  lemma SelectedNonEmpty(r: Repository, l: Limits, sha: Text, p: Text)
    requires p in Selected(r, l, sha)
    ensures p != []
  {
    var keep := (x: Text) => x != [] && r.classify(x).Some?;
    var before := (a: Text, b: Text) => CandidateBefore(r, a, b);
    SortPermutes(Filter(r.tree(sha), keep), before);
    assert Supported(r, sha) == Sort(Filter(r.tree(sha), keep), before);
    assert p in Supported(r, sha);
  }

  /** No stale content: this needs no assumption on sizes. */
  lemma IncrementalIsFaithful(r: Repository, l: Limits, store: Published, id: Identity, sha: Text)
    requires HonestCompare(r) && AllFaithful(r, l, store)
    requires PlanIncremental(r, l, store, id, sha).Some?
    ensures Faithful(r, l, sha, IncrementalFiles(r, l, PlanIncremental(r, l, store, id, sha).value, sha))
  {
    var plan := PlanIncremental(r, l, store, id, sha).value;
    var selected := Selected(r, l, sha);
    PassIsFaithful(r, l, sha, Targets(selected, plan.changed));
    assert Faithful(r, l, plan.baseSha, plan.previous.files);
    var named := ForwardChanges(r.compare(plan.baseSha, sha)).value;
    assert named <= plan.changed;
    var files := r.compare(plan.baseSha, sha).files.value;
    assert r.compare(plan.baseSha, sha) == Compared(true, Some(files));
    forall p | p in plan.previous.files && p in selected && p !in plan.changed
      ensures r.read(sha, p) == r.read(plan.baseSha, p)
    {
      assert p !in named;
      NamedMeansListed(files, p);
      SelectedNonEmpty(r, l, sha, p);
    }
  }

  /** When the selected files fit the byte budget, an incremental refresh publishes exactly what
      a full rebuild would: every readable selected path with its content at the new head. */
  lemma IncrementalEqualsFull(r: Repository, l: Limits, store: Published, id: Identity, sha: Text)
    requires HonestCompare(r) && AllFaithful(r, l, store) && Fits(r, l, sha)
    ensures FullFiles(r, l, sha) == Readable(r, l, sha)
    ensures BuiltFiles(r, l, store, id, sha) == Readable(r, l, sha)
  {
    hide HonestCompare, AllFaithful, Selected, ReadWithin, PlanIncremental, Reads;
    var selected := Selected(r, l, sha);
    PassIsFaithful(r, l, sha, selected);
    PassCoversAll(r, l, sha, selected);
    if PlanIncremental(r, l, store, id, sha).Some? {
      var plan := PlanIncremental(r, l, store, id, sha).value;
      IncrementalIsFaithful(r, l, store, id, sha);
      FewerTargetsFewerBytes(r, sha, selected, plan.changed);
      PassCoversAll(r, l, sha, Targets(selected, plan.changed));
      IncrementalKeepsReadable(r, l, store, id, sha);
    }
  }

  lemma IncrementalKeepsReadable(r: Repository, l: Limits, store: Published, id: Identity, sha: Text)
    requires PlanIncremental(r, l, store, id, sha).Some?
    requires var plan := PlanIncremental(r, l, store, id, sha).value;
             var targets := Targets(Selected(r, l, sha), plan.changed);
             forall p :: p in targets && r.read(sha, p).Loaded? ==> p in ReadWithin(r, l, sha, targets)
    ensures forall p :: p in Readable(r, l, sha) ==>
              p in IncrementalFiles(r, l, PlanIncremental(r, l, store, id, sha).value, sha)
  {
    var plan := PlanIncremental(r, l, store, id, sha).value;
    forall p | p in Readable(r, l, sha)
      ensures p in IncrementalFiles(r, l, plan, sha)
    {
      if p !in plan.changed {
        assert p in plan.previous.files;
      }
    }
  }

  // ----- every run of refreshes

  datatype Refresh = Refresh(id: Identity, sha: Text)

  function After(r: Repository, l: Limits, refreshes: seq<Refresh>): Published {
    if refreshes == [] then Published(map[], None)
    else
      var last := refreshes[|refreshes| - 1];
      Refreshed(r, l, After(r, l, refreshes[..|refreshes| - 1]), last.id, last.sha)
  }

  /** After any sequence of full and incremental refreshes, no published index holds stale or
      unselected content, and every index whose commit fits the byte budget is exactly the full
      rebuild of its commit. */
  lemma {:induction false} EveryRunPublishesFaithfully(r: Repository, l: Limits, refreshes: seq<Refresh>)
    requires HonestCompare(r)
    ensures AllFaithful(r, l, After(r, l, refreshes))
    ensures forall sha :: sha in After(r, l, refreshes).indexes && Fits(r, l, sha) ==>
              After(r, l, refreshes).indexes[sha].files == Readable(r, l, sha) == FullFiles(r, l, sha)
    decreases |refreshes|
  {
    hide HonestCompare, Faithful, Fits, FullFiles, Readable, BuiltFiles;
    if refreshes != [] {
      var last := refreshes[|refreshes| - 1];
      var before := After(r, l, refreshes[..|refreshes| - 1]);
      EveryRunPublishesFaithfully(r, l, refreshes[..|refreshes| - 1]);
      BuiltIsFaithful(r, l, before, last.id, last.sha);
      if Fits(r, l, last.sha) {
        IncrementalEqualsFull(r, l, before, last.id, last.sha);
      }
    }
  }

  lemma BuiltIsFaithful(r: Repository, l: Limits, store: Published, id: Identity, sha: Text)
    requires HonestCompare(r) && AllFaithful(r, l, store)
    ensures Faithful(r, l, sha, BuiltFiles(r, l, store, id, sha))
  {
    if PlanIncremental(r, l, store, id, sha).Some? {
      IncrementalIsFaithful(r, l, store, id, sha);
    } else {
      PassIsFaithful(r, l, sha, Selected(r, l, sha));
    }
  }

  // ----- exactly when an incremental refresh agrees with a full rebuild

  /** The pass over the targets refuses the read of p for lack of budget. */
  ghost predicate Refuses(r: Repository, l: Limits, sha: Text, targets: seq<Text>, p: Text) {
    p in targets && r.read(sha, p).Loaded? && p !in ReadWithin(r, l, sha, targets)
  }

  function Used(r: Repository, l: Limits, sha: Text, targets: seq<Text>): nat {
    LoadedBytes(KeepWithin(Reads(r, sha, targets), l.maxTotalBytes))
  }

  /** The guard of the budget: what is already used leaves no room for the next file. */
  predicate OverBudget(r: Repository, l: Limits, sha: Text, targets: seq<Text>, p: Text) {
    var a := r.read(sha, p);
    a.Loaded? && Used(r, l, sha, targets) + a.byteLength > l.maxTotalBytes
  }

  predicate KeepsNext(r: Repository, l: Limits, sha: Text, targets: seq<Text>, p: Text) {
    r.read(sha, p).Loaded? && !OverBudget(r, l, sha, targets, p)
  }

  lemma PassSnoc(r: Repository, l: Limits, sha: Text, targets: seq<Text>, p: Text)
    ensures ReadWithin(r, l, sha, targets + [p])
         == if KeepsNext(r, l, sha, targets, p)
            then ReadWithin(r, l, sha, targets)[p := r.read(sha, p).content] else ReadWithin(r, l, sha, targets)
    ensures Used(r, l, sha, targets + [p])
         == Used(r, l, sha, targets) + (if KeepsNext(r, l, sha, targets, p) then r.read(sha, p).byteLength else 0)
    ensures forall q :: q in ReadWithin(r, l, sha, targets) ==> q in targets
  {
    PassStep(r, l, sha, targets + [p]);
    assert (targets + [p])[..|targets|] == targets;
    PassIsFaithful(r, l, sha, targets);
  }

  lemma TargetsSnoc(init: seq<Text>, last: Text, changed: set<Text>)
    ensures Targets(init + [last], changed)
         == Targets(init, changed) + (if last in changed then [last] else [])
  {
    assert (init + [last])[..|init|] == init;
  }

  /** Wherever the guard fires in the full pass, that file is re-read and the guard fires among the
      re-reads too. */
  ghost predicate GuardsCarryOver(r: Repository, l: Limits, sha: Text, selected: seq<Text>, changed: set<Text>) {
    forall k :: 0 <= k < |selected| && OverBudget(r, l, sha, selected[..k], selected[k]) ==>
      selected[k] in changed && OverBudget(r, l, sha, Targets(selected[..k], changed), selected[k])
  }

  /** A pass refuses a file exactly when its guard fires there. */
  lemma {:induction false} RefusedAt(r: Repository, l: Limits, sha: Text, targets: seq<Text>, k: nat)
    requires Distinct(targets) && k < |targets|
    ensures Refuses(r, l, sha, targets, targets[k]) <==> OverBudget(r, l, sha, targets[..k], targets[k])
    decreases |targets|
  {
    hide ReadWithin, Used;
    var init, last := targets[..|targets| - 1], targets[|targets| - 1];
    assert targets == init + [last];
    PassSnoc(r, l, sha, init, last);
    if k < |init| {
      assert init[..k] == targets[..k] && init[k] == targets[k] && init[k] in init;
      RefusedAt(r, l, sha, init, k);
    } else {
      assert last !in init;
    }
  }

  lemma {:induction false} RereadRefusedAt(
      r: Repository, l: Limits, sha: Text, selected: seq<Text>, changed: set<Text>, k: nat)
    requires Distinct(selected) && k < |selected| && selected[k] in changed
    ensures Refuses(r, l, sha, Targets(selected, changed), selected[k]) <==>
            OverBudget(r, l, sha, Targets(selected[..k], changed), selected[k])
    decreases |selected|
  {
    hide ReadWithin, Used, Targets;
    var init, last := selected[..|selected| - 1], selected[|selected| - 1];
    assert selected == init + [last];
    assert last !in init;
    TargetsSnoc(init, last, changed);
    assert Targets(init, changed) + [] == Targets(init, changed);
    PassSnoc(r, l, sha, Targets(init, changed), last);
    if k < |init| {
      assert init[..k] == selected[..k] && init[k] == selected[k] && init[k] in init;
      RereadRefusedAt(r, l, sha, init, changed, k);
    }
  }

  lemma GuardsInit(r: Repository, l: Limits, sha: Text, init: seq<Text>, last: Text, changed: set<Text>)
    requires GuardsCarryOver(r, l, sha, init + [last], changed)
    ensures GuardsCarryOver(r, l, sha, init, changed)
    ensures OverBudget(r, l, sha, init, last) ==> last in changed && OverBudget(r, l, sha, Targets(init, changed), last)
  {
    hide OverBudget, Targets;
    var all := init + [last];
    assert forall k :: 0 <= k <= |init| ==> all[..k] == init[..k];
    assert all[..|init|] == init && all[|init|] == last;
    forall k | 0 <= k < |init| && OverBudget(r, l, sha, init[..k], init[k])
      ensures init[k] in changed && OverBudget(r, l, sha, Targets(init[..k], changed), init[k])
    {
      assert all[k] == init[k] && all[..k] == init[..k];
    }
  }

  /** The budget used by the re-reads stays below the budget used by the full pass for as long as its
      guards carry over, so they keep every re-read file it keeps. */
  lemma {:induction false} PassesAgree(r: Repository, l: Limits, sha: Text, selected: seq<Text>, changed: set<Text>)
    requires Distinct(selected) && GuardsCarryOver(r, l, sha, selected, changed)
    ensures Used(r, l, sha, Targets(selected, changed)) <= Used(r, l, sha, selected)
    ensures forall p :: Refuses(r, l, sha, Targets(selected, changed), p) ==> Refuses(r, l, sha, selected, p)
    decreases |selected|
  {
    hide GuardsCarryOver, Refuses, Used;
    if selected != [] {
      var init, last := selected[..|selected| - 1], selected[|selected| - 1];
      assert selected == init + [last];
      assert last !in init;
      GuardsInit(r, l, sha, init, last, changed);
      PassesAgree(r, l, sha, init, changed);
      LastAgrees(r, l, sha, init, last, changed);
    } else {
      NothingRefused(r, l, sha);
    }
  }

  lemma NothingRefused(r: Repository, l: Limits, sha: Text)
    ensures Used(r, l, sha, []) == 0 && forall p :: !Refuses(r, l, sha, [], p)
  {
  }

  lemma LastAgrees(r: Repository, l: Limits, sha: Text, init: seq<Text>, last: Text, changed: set<Text>)
    requires last !in init
    requires OverBudget(r, l, sha, init, last) ==> last in changed && OverBudget(r, l, sha, Targets(init, changed), last)
    requires Used(r, l, sha, Targets(init, changed)) <= Used(r, l, sha, init)
    requires forall p :: Refuses(r, l, sha, Targets(init, changed), p) ==> Refuses(r, l, sha, init, p)
    ensures Used(r, l, sha, Targets(init + [last], changed)) <= Used(r, l, sha, init + [last])
    ensures forall p :: Refuses(r, l, sha, Targets(init + [last], changed), p) ==> Refuses(r, l, sha, init + [last], p)
  {
    hide Used, ReadWithin, Targets;
    var targets := Targets(init, changed);
    PassSnoc(r, l, sha, init, last);
    PassSnoc(r, l, sha, targets, last);
    TargetsSnoc(init, last, changed);
    assert targets + [] == targets;
    assert last in init + [last];
    forall p | Refuses(r, l, sha, Targets(init + [last], changed), p)
      ensures Refuses(r, l, sha, init + [last], p)
    {
      if p != last {
        assert Refuses(r, l, sha, targets, p);
      }
    }
  }

  /** A readable selected path is missing from the refreshed index only if the re-reads refuse it. */
  lemma PublishedUnlessRefused(r: Repository, l: Limits, store: Published, id: Identity, sha: Text, p: Text)
    requires PlanIncremental(r, l, store, id, sha).Some?
    requires p in Selected(r, l, sha) && r.read(sha, p).Loaded?
    ensures var plan := PlanIncremental(r, l, store, id, sha).value;
            p in IncrementalFiles(r, l, plan, sha) <==>
            !Refuses(r, l, sha, Targets(Selected(r, l, sha), plan.changed), p)
  {
    var plan := PlanIncremental(r, l, store, id, sha).value;
    PassIsFaithful(r, l, sha, Targets(Selected(r, l, sha), plan.changed));
    if p !in plan.changed {
      assert p in plan.previous.files;
    }
  }

  /** Two faithful maps with the same paths are equal. */
  lemma FaithfulExtensional(r: Repository, l: Limits, sha: Text, a: map<Text, Text>, b: map<Text, Text>)
    requires Faithful(r, l, sha, a) && Faithful(r, l, sha, b)
    requires forall p :: p in Selected(r, l, sha) && r.read(sha, p).Loaded? ==> (p in a <==> p in b)
    ensures a == b
  {
    assert forall p :: p in a <==> p in b;
  }

  /** The refresh publishes the full rebuild's files if and only if, by the sizes alone, wherever the
      full pass would exceed the budget the file is re-read and the re-reads exceed it there too. */
  lemma IncrementalExactIff(r: Repository, l: Limits, store: Published, id: Identity, sha: Text)
    requires HonestCompare(r) && AllFaithful(r, l, store) && Distinct(Selected(r, l, sha))
    requires PlanIncremental(r, l, store, id, sha).Some?
    ensures var plan := PlanIncremental(r, l, store, id, sha).value;
            IncrementalFiles(r, l, plan, sha) == FullFiles(r, l, sha) <==>
            GuardsCarryOver(r, l, sha, Selected(r, l, sha), plan.changed)
  {
    hide IncrementalFiles, Selected, Faithful, AllFaithful, HonestCompare, PlanIncremental, OverBudget, Refuses, ReadWithin;
    var plan := PlanIncremental(r, l, store, id, sha).value;
    var selected := Selected(r, l, sha);
    var files, full := IncrementalFiles(r, l, plan, sha), FullFiles(r, l, sha);
    IncrementalIsFaithful(r, l, store, id, sha);
    FullIsFaithful(r, l, sha);
    forall p | p in selected && r.read(sha, p).Loaded?
      ensures p in files <==> !Refuses(r, l, sha, Targets(selected, plan.changed), p)
      ensures p in full <==> !Refuses(r, l, sha, selected, p)
    {
      PublishedUnlessRefused(r, l, store, id, sha, p);
      FullUnlessRefused(r, l, sha, p);
    }
    if GuardsCarryOver(r, l, sha, selected, plan.changed) {
      PassesAgree(r, l, sha, selected, plan.changed);
      forall p | Refuses(r, l, sha, selected, p) ensures Refuses(r, l, sha, Targets(selected, plan.changed), p) {
        CarriedOver(r, l, sha, selected, plan.changed, p);
      }
      FaithfulExtensional(r, l, sha, files, full);
    } else {
      var p := NotCarriedOver(r, l, sha, selected, plan.changed);
    }
  }

  lemma FullIsFaithful(r: Repository, l: Limits, sha: Text)
    ensures Faithful(r, l, sha, FullFiles(r, l, sha))
  {
    PassIsFaithful(r, l, sha, Selected(r, l, sha));
  }

  lemma FullUnlessRefused(r: Repository, l: Limits, sha: Text, p: Text)
    requires p in Selected(r, l, sha) && r.read(sha, p).Loaded?
    ensures p in FullFiles(r, l, sha) <==> !Refuses(r, l, sha, Selected(r, l, sha), p)
  {
  }

  lemma CarriedOver(r: Repository, l: Limits, sha: Text, selected: seq<Text>, changed: set<Text>, p: Text)
    requires Distinct(selected) && GuardsCarryOver(r, l, sha, selected, changed) && Refuses(r, l, sha, selected, p)
    ensures Refuses(r, l, sha, Targets(selected, changed), p)
  {
    hide OverBudget, ReadWithin, Targets;
    var k :| 0 <= k < |selected| && selected[k] == p;
    RefusedAt(r, l, sha, selected, k);
    RereadRefusedAt(r, l, sha, selected, changed, k);
  }

  lemma NotCarriedOver(r: Repository, l: Limits, sha: Text, selected: seq<Text>, changed: set<Text>)
    returns (p: Text)
    requires Distinct(selected) && !GuardsCarryOver(r, l, sha, selected, changed)
    ensures p in selected && r.read(sha, p).Loaded?
    ensures Refuses(r, l, sha, selected, p) && !Refuses(r, l, sha, Targets(selected, changed), p)
  {
    hide ReadWithin, Used;
    var k :| 0 <= k < |selected| && OverBudget(r, l, sha, selected[..k], selected[k])
             && !(selected[k] in changed && OverBudget(r, l, sha, Targets(selected[..k], changed), selected[k]));
    p := selected[k];
    RefusedAt(r, l, sha, selected, k);
    if p in changed {
      RereadRefusedAt(r, l, sha, selected, changed, k);
    }
  }

  // ----- the budget is not part of the incremental path

  const PATH_A: Text := [97]
  const PATH_B: Text := [98]
  const BASE_SHA: Text := [97, 97, 97, 97, 97, 97, 97]

  /** Every later head adds one file of 60 bytes beside an unchanged one of 60 bytes, and the compare
      response names it. */
  function TwoFiles(): Repository {
    Repository(
      sha => if sha == BASE_SHA then [PATH_A] else [PATH_A, PATH_B],
      path => Some(0),
      (sha, path) => if path == PATH_A || (path == PATH_B && sha != BASE_SHA) then Loaded(path, 60) else Missing,
      (base, sha) => Compared(true, Some([CompareFile(Some(PATH_B), None)])))
  }

  const SMALL_BUDGET: Limits := Limits(10, 100, 1, 10)

  lemma TwoFilesSelected(sha: Text)
    ensures Selected(TwoFiles(), SMALL_BUDGET, sha) == if sha == BASE_SHA then [PATH_A] else [PATH_A, PATH_B]
  {
    var r := TwoFiles();
    var keep := (p: Text) => p != [] && r.classify(p).Some?;
    var before := (a: Text, b: Text) => CandidateBefore(r, a, b);
    assert [PATH_A, PATH_B][..1] == [PATH_A] && [PATH_A][..0] == [];
    assert Filter([PATH_A], keep) == [PATH_A];
    assert Filter([PATH_A, PATH_B], keep) == [PATH_A, PATH_B];
    assert [PATH_A, PATH_B][1..] == [PATH_B] && [PATH_B][1..] == [] && [PATH_A][1..] == [];
    assert Sort([PATH_B], before) == [PATH_B];
    assert before(PATH_A, PATH_B);
  }

  lemma PassesOverTwoFiles(sha: Text)
    requires sha != BASE_SHA
    ensures ReadWithin(TwoFiles(), SMALL_BUDGET, sha, [PATH_A, PATH_B]) == map[PATH_A := PATH_A]
    ensures ReadWithin(TwoFiles(), SMALL_BUDGET, sha, [PATH_B]) == map[PATH_B := PATH_B]
  {
    var r, l := TwoFiles(), SMALL_BUDGET;
    PassSnoc(r, l, sha, [], PATH_A);
    PassSnoc(r, l, sha, [PATH_A], PATH_B);
    PassSnoc(r, l, sha, [], PATH_B);
    assert [] + [PATH_A] == [PATH_A] && [PATH_A] + [PATH_B] == [PATH_A, PATH_B] && [] + [PATH_B] == [PATH_B];
  }

  function OneFile(id: Identity): Published {
    Published(map[BASE_SHA := Index(id, true, map[PATH_A := PATH_A])], Some(BASE_SHA))
  }

  lemma BaseIsOneFile(id: Identity, sha: Text)
    requires sha != BASE_SHA
    ensures Base(OneFile(id), id, sha) == Some(Plan(OneFile(id).indexes[BASE_SHA], BASE_SHA, {}))
  {
    assert forall i :: 0 <= i < |BASE_SHA| ==> BASE_SHA[i] == 97;
  }

  lemma CompareNamesSecond(base: Text, sha: Text)
    ensures ForwardChanges(TwoFiles().compare(base, sha)) == Some({PATH_B})
  {
    var file := CompareFile(Some(PATH_B), None);
    assert [file][..0] == [] && NamedPaths([]) == {} && Names(file) == {PATH_B};
    assert NamedPaths([file]) == {PATH_B};
    assert TwoFiles().compare(base, sha) == Compared(true, Some([file]));
  }

  lemma OneFileIsFaithful(id: Identity)
    ensures HonestCompare(TwoFiles()) && AllFaithful(TwoFiles(), SMALL_BUDGET, OneFile(id))
  {
    hide Selected;
    TwoFilesSelected(BASE_SHA);
    assert Listed([CompareFile(Some(PATH_B), None)], PATH_B) by {
      assert [CompareFile(Some(PATH_B), None)][0].filename == Some(PATH_B);
    }
    assert [PATH_A][0] == PATH_A;
    assert Faithful(TwoFiles(), SMALL_BUDGET, BASE_SHA, map[PATH_A := PATH_A]);
  }

  lemma SecondIsNew()
    ensures NewlySelected([PATH_A, PATH_B], map[PATH_A := PATH_A]) == {PATH_B} == {PATH_B} + {PATH_B}
    ensures Reread([PATH_A, PATH_B], {PATH_B}) == {PATH_B}
    ensures Targets([PATH_A, PATH_B], {PATH_B}) == [PATH_B]
  {
    assert PATH_A[0] != PATH_B[0];
    TargetsSnoc([], PATH_A, {PATH_B});
    TargetsSnoc([PATH_A], PATH_B, {PATH_B});
    assert [PATH_A] + [PATH_B] == [PATH_A, PATH_B] && [] + [PATH_A] == [PATH_A];
  }

  lemma PlanRereadsSecond(id: Identity, sha: Text)
    requires sha != BASE_SHA
    ensures PlanIncremental(TwoFiles(), SMALL_BUDGET, OneFile(id), id, sha)
         == Some(Plan(OneFile(id).indexes[BASE_SHA], BASE_SHA, {PATH_B}))
  {
    hide Selected, Base, ForwardChanges, NewlySelected, Reread;
    TwoFilesSelected(sha);
    BaseIsOneFile(id, sha);
    CompareNamesSecond(BASE_SHA, sha);
    SecondIsNew();
  }

  lemma AdvancedToBoth()
    ensures Advanced(map[PATH_A := PATH_A], [PATH_A, PATH_B], {PATH_B}, map[PATH_B := PATH_B])
         == map[PATH_A := PATH_A, PATH_B := PATH_B]
  {
    assert PATH_A in [PATH_A, PATH_B] && PATH_A[0] != PATH_B[0];
    assert map[PATH_A := PATH_A] - {} == map[PATH_A := PATH_A];
  }

  /** The byte budget bounds only what is re-read: here a full rebuild refuses the second file for
      lack of budget, while the incremental refresh publishes both. */
  lemma IncrementalCanExceedBudget(id: Identity, sha: Text)
    requires sha != BASE_SHA
    ensures HonestCompare(TwoFiles()) && AllFaithful(TwoFiles(), SMALL_BUDGET, OneFile(id))
    ensures BuiltFiles(TwoFiles(), SMALL_BUDGET, OneFile(id), id, sha) == map[PATH_A := PATH_A, PATH_B := PATH_B]
    ensures FullFiles(TwoFiles(), SMALL_BUDGET, sha) == map[PATH_A := PATH_A]
  {
    hide HonestCompare, AllFaithful, Selected, ReadWithin, Targets, PlanIncremental, Advanced;
    OneFileIsFaithful(id);
    TwoFilesSelected(sha);
    PassesOverTwoFiles(sha);
    PlanRereadsSecond(id, sha);
    SecondIsNew();
    AdvancedToBoth();
  }

  // ----- the service

  datatype Skipped = Skipped(tooMany: nat, oversized: nat, binary: nat, missing: nat, fetchFailed: nat, byteBudget: nat)

  /** One count per read that did not load. */
  function Skips(kept: seq<FileRead>, tooMany: nat): Skipped {
    if kept == [] then Skipped(tooMany, 0, 0, 0, 0, 0)
    else
      var init := Skips(kept[..|kept| - 1], tooMany);
      match kept[|kept| - 1]
      case Loaded(_, _) => init
      case Oversized => init.(oversized := init.oversized + 1)
      case Binary => init.(binary := init.binary + 1)
      case Missing => init.(missing := init.missing + 1)
      case FetchFailed => init.(fetchFailed := init.fetchFailed + 1)
      case ByteBudget => init.(byteBudget := init.byteBudget + 1)
  }

  /** Each read that did not load counts once under its own kind, wherever it stands. */
  lemma {:induction false} SkipsAdd(before: seq<FileRead>, read: FileRead, after: seq<FileRead>, tooMany: nat)
    ensures var s := Skips(before + after, tooMany);
            Skips(before + [read] + after, tooMany) ==
            Skipped(s.tooMany, s.oversized + Tally(read.Oversized?), s.binary + Tally(read.Binary?),
                    s.missing + Tally(read.Missing?), s.fetchFailed + Tally(read.FetchFailed?),
                    s.byteBudget + Tally(read.ByteBudget?))
    decreases |after|
  {
    if after == [] {
      assert before + [read] + after == before + [read] && before + after == before;
      assert (before + [read])[..|before|] == before;
    } else {
      var n := |after| - 1;
      assert (before + [read] + after)[..|before| + 1 + n] == before + [read] + after[..n];
      assert (before + after)[..|before| + n] == before + after[..n];
      SkipsAdd(before, read, after[..n], tooMany);
    }
  }

  function Tally(happened: bool): nat {
    if happened then 1 else 0
  }

  /** Nothing was skipped exactly when no candidate was cut and every read loaded. */
  lemma {:induction false} PartialIffSomethingSkipped(kept: seq<FileRead>, tooMany: nat)
    ensures Skips(kept, tooMany) == Skipped(0, 0, 0, 0, 0, 0) <==>
            tooMany == 0 && forall i :: 0 <= i < |kept| ==> kept[i].Loaded?
    ensures Skips(kept, tooMany).tooMany == tooMany
    decreases |kept|
  {
    if kept != [] {
      PartialIffSomethingSkipped(kept[..|kept| - 1], tooMany);
      assert forall i :: 0 <= i < |kept| - 1 ==> kept[i] == kept[..|kept| - 1][i];
    }
  }

  datatype RefreshError = UnresolvedHead | Aborted

  datatype RefreshResult = RefreshResult(incremental: bool, indexedFileCount: nat, skipped: Skipped, partial: bool)

  predicate IsCommitSha(sha: Text) {
    |sha| == 40 && IsHex(sha)
  }

  class RepositoryIndexService {
    const limits: Limits
    var indexes: map<Text, Index>
    var indexSha: Option<Text>

    constructor (limits: Limits)
      requires limits.Positive()
      ensures this.limits == limits && Store() == Published(map[], None)
    {
      this.limits := limits;
      indexes := map[];
      indexSha := None;
    }

    function Store(): Published
      reads this
    {
      Published(indexes, indexSha)
    }

    /** Grows the changed paths from the compare response and from what the previous index lacks. */
    method PlanRefresh(r: Repository, id: Identity, sha: Text, selected: seq<Text>) returns (plan: Option<Plan>)
      requires selected == Selected(r, limits, sha)
      ensures plan == PlanIncremental(r, limits, Store(), id, sha)
    {
      var base := Base(Store(), id, sha);
      if base.None? {
        return None;
      }
      var previous := base.value.previous;
      var compared := r.compare(base.value.baseSha, sha);
      if ForwardChanges(compared).None? {
        return None;
      }
      var files := compared.files.value;
      var changedPaths: set<Text> := {};
      for i := 0 to |files|
        invariant changedPaths == NamedPaths(files[..i])
      {
        assert files[..i + 1][..i] == files[..i];
        changedPaths := changedPaths + Names(files[i]);
      }
      assert files[..|files|] == files;
      ghost var named := changedPaths;
      for i := 0 to |selected|
        invariant changedPaths == named + NewlySelected(selected[..i], previous.files)
      {
        assert selected[..i + 1] == selected[..i] + [selected[i]];
        if selected[i] !in previous.files {
          changedPaths := changedPaths + {selected[i]};
        }
      }
      assert selected[..|selected|] == selected;
      if |Reread(selected, changedPaths)| > limits.maxIncrementalFiles {
        return None;
      }
      return Some(base.value.(changed := changedPaths));
    }

    /** Reads the targets and sorts the outcomes into files and skip counts. */
    method ReadFiles(r: Repository, sha: Text, targets: seq<Text>, tooMany: nat)
      returns (files: map<Text, Text>, skipped: Skipped)
      requires limits.Positive()
      ensures files == ReadWithin(r, limits, sha, targets)
      ensures skipped == Skips(KeepWithin(Reads(r, sha, targets), limits.maxTotalBytes), tooMany)
    {
      var kept := ReadIndexedFiles(Reads(r, sha, targets), limits.fetchConcurrency, limits.maxTotalBytes);
      files, skipped := map[], Skipped(tooMany, 0, 0, 0, 0, 0);
      for i := 0 to |kept|
        invariant files == Collect(targets[..i], kept[..i])
        invariant skipped == Skips(kept[..i], tooMany)
      {
        assert targets[..i + 1][..i] == targets[..i] && kept[..i + 1][..i] == kept[..i];
        match kept[i] {
          case Loaded(content, _) => files := files[targets[i] := content];
          case Oversized => skipped := skipped.(oversized := skipped.oversized + 1);
          case Binary => skipped := skipped.(binary := skipped.binary + 1);
          case Missing => skipped := skipped.(missing := skipped.missing + 1);
          case FetchFailed => skipped := skipped.(fetchFailed := skipped.fetchFailed + 1);
          case ByteBudget => skipped := skipped.(byteBudget := skipped.byteBudget + 1);
        }
      }
      assert targets[..|kept|] == targets && kept[..|kept|] == kept;
    }

    /** Publishes the index of one head.  An unresolved head or an abort publishes nothing. */
    method Refresh(r: Repository, id: Identity, sha: Text, aborted: bool)
      returns (result: Result<RefreshResult, RefreshError>)
      requires limits.Positive()
      modifies this
      ensures result == Err(UnresolvedHead) <==>
                |sha| != 40 || exists k :: 0 <= k < |sha| && !(48 <= sha[k] <= 57 || 97 <= sha[k] <= 102)
      ensures result == Err(Aborted) <==> IsCommitSha(sha) && aborted
      ensures result.Err? ==> Store() == old(Store())
      ensures result.Ok? ==> Store() == Refreshed(r, limits, old(Store()), id, sha)
      ensures result.Ok? ==> result.value.indexedFileCount == |indexes[sha].files|
      ensures result.Ok? && old(sha !in indexes || indexes[sha].identity != id) ==>
                var plan := PlanIncremental(r, limits, old(Store()), id, sha);
                var targets := if plan.Some? then Targets(Selected(r, limits, sha), plan.value.changed)
                               else Selected(r, limits, sha);
                && result.value.incremental == plan.Some?
                && result.value.skipped == Skips(KeepWithin(Reads(r, sha, targets), limits.maxTotalBytes),
                                                 |Supported(r, sha)| - |Selected(r, limits, sha)|)
                && result.value.partial == (result.value.skipped != Skipped(0, 0, 0, 0, 0, 0))
    {
      if !IsCommitSha(sha) {
        return Err(UnresolvedHead);
      }
      if aborted {
        return Err(Aborted);
      }
      if sha in indexes && indexes[sha].identity == id {
        indexSha := Some(sha);
        return Ok(RefreshResult(false, |indexes[sha].files|, Skipped(0, 0, 0, 0, 0, 0), false));
      }
      var supported := Supported(r, sha);
      var selected := supported[..Min(|supported|, limits.maxIndexedFiles)];
      var delta := PlanRefresh(r, id, sha, selected);
      var targets := if delta.Some? then Targets(selected, delta.value.changed) else selected;
      var files, skipped := ReadFiles(r, sha, targets, |supported| - |selected|);
      if delta.Some? {
        files := Advanced(delta.value.previous.files, selected, delta.value.changed, files);
      }
      indexes := indexes[sha := Index(id, true, files)];
      indexSha := Some(sha);
      var partial := skipped != Skipped(0, 0, 0, 0, 0, 0);
      return Ok(RefreshResult(delta.Some?, |files|, skipped, partial));
    }
  }
}
