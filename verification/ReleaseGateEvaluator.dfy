/**
 The release-gate evaluator.
 */
module ReleaseGateEvaluator {
  /**
   Source: apps/control-plane/src/release-gate-policy.ts:368-400, 456-768.

   The evaluator pushes blockers while it walks the evidence, the Tests and the findings.
   EvaluateReleaseGate is proved to decide ReleaseGate.GatePasses.
   */
  import opened Wrappers
  import opened ReleaseGatePolicy
  import opened ReleaseGate

  // ----- the evaluator: evidence

  method CheckSignature(i: Input) returns (blockers: seq<Blocker>)
    ensures blockers == [] <==> SignedByTrustedWorkflow(i)
    ensures blockers != [] ==>
              blockers == [Blocker(if i.evidence.signature.Some? && i.evidence.signature.value.digest == i.candidate.digest
                                   then WrongSigner else UnsignedDigest, None)]
  {
    if i.evidence.signature.None? || i.evidence.signature.value.digest != i.candidate.digest {
      return [Blocker(UnsignedDigest, None)];
    }
    if i.expectedIdentity.None? || i.lowerCase(i.expectedIdentity.value) == ""
       || i.lowerCase(i.evidence.signature.value.certificateIdentity) != i.lowerCase(i.expectedIdentity.value) {
      return [Blocker(WrongSigner, None)];
    }
    return [];
  }

  method CheckDeployedRescan(i: Input) returns (blockers: seq<Blocker>)
    ensures blockers == [] <==> DeployedRescanCurrent(i)
    ensures blockers == [] || blockers == [Blocker(DeployedRescanMissing, None)] || blockers == [Blocker(DeployedRescanFailed, None)]
  {
    if i.evidence.deployedRescan.None? || i.evidence.deployedRescan.value.environment != i.candidate.environment {
      return [Blocker(DeployedRescanMissing, None)];
    }
    var coverage := i.evidence.deployedRescan.value;
    if coverage.deployedDigest.Some? {
      if !RescanFresh(i, coverage) {
        return [Blocker(DeployedRescanMissing, None)];
      }
      if !coverage.rescan.value.artifactAccepted || coverage.rescan.value.criticalFindings < 0 {
        return [Blocker(DeployedRescanFailed, None)];
      }
    }
    return [];
  }

  method CheckEvidence(i: Input) returns (blockers: seq<Blocker>)
    ensures blockers == [] <==> EvidenceSatisfied(i)
    ensures forall b :: b in blockers ==> b.findingId.None?
    ensures Blocker(ImageScanMissing, None) in blockers <==> Required(i.policy, ImageScan) && i.evidence.imageScan.None?
    ensures Blocker(ImageScanCritical, None) in blockers <==>
              Required(i.policy, ImageScan) && i.evidence.imageScan.Some? && !ImageScanClean(i)
    ensures Blocker(SbomMissing, None) in blockers <==> Required(i.policy, Sbom) && !i.evidence.sbomSuccess
    ensures Blocker(PromotionFrozen, None) in blockers <==> CandidateFrozen(i)
  {
    blockers := CheckSignature(i);
    if Required(i.policy, ImageScan) {
      if i.evidence.imageScan.None? {
        blockers := blockers + [Blocker(ImageScanMissing, None)];
      } else if !ImageScanClean(i) {
        blockers := blockers + [Blocker(ImageScanCritical, None)];
      }
    }
    if Required(i.policy, Sbom) && !i.evidence.sbomSuccess {
      blockers := blockers + [Blocker(SbomMissing, None)];
    }
    if CandidateFrozen(i) {
      blockers := blockers + [Blocker(PromotionFrozen, None)];
    }
    if Required(i.policy, DeployedRescan) {
      var rescan := CheckDeployedRescan(i);
      blockers := blockers + rescan;
    }
  }

  // ----- the evaluator: Test scope

  datatype Key = Key(source: Source, scanType: string)
  datatype Counts = Counts(inScope: nat, stale: nat)

  ghost predicate CountsOf(scope: map<Key, Counts>, tests: seq<Test>, c: Candidate) {
    forall k: Key ::
      var n := if k in scope then scope[k] else Counts(0, 0);
      && (n.inScope > 0 <==> HasTest(tests, k.source, k.scanType, InScope, c))
      && (n.stale > 0 <==> HasTest(tests, k.source, k.scanType, OtherCommit, c))
  }

  function CountTest(scope: map<Key, Counts>, t: Test, c: Candidate): map<Key, Counts> {
    var s := FindingScope(t.tags, c);
    if t.id.None? || s == OtherRepository then scope
    else
      var k := Key(FindingSource(t.tags), t.scanType);
      var n := if k in scope then scope[k] else Counts(0, 0);
      scope[k := Counts(n.inScope + (if s == InScope then 1 else 0), n.stale + (if s == OtherCommit then 1 else 0))]
  }

  lemma CountTestCounts(scope: map<Key, Counts>, tests: seq<Test>, t: Test, c: Candidate)
    requires CountsOf(scope, tests, c)
    ensures CountsOf(CountTest(scope, t, c), tests + [t], c)
  {
    forall k: Key, s: Scope
      ensures HasTest(tests + [t], k.source, k.scanType, s, c) <==>
              HasTest(tests, k.source, k.scanType, s, c) || TestAt(t, k.source, k.scanType, s, c)
    {
      assert forall u :: u in tests + [t] <==> u in tests || u == t;
    }
  }

  method ScopeTests(i: Input) returns (scope: map<Key, Counts>, malformed: nat)
    requires i.dojo.Available?
    ensures CountsOf(scope, i.dojo.tests, i.candidate)
    ensures malformed == 0 <==> forall t :: t in i.dojo.tests ==> t.id.Some?
  {
    var tests := i.dojo.tests;
    scope, malformed := map[], 0;
    for n := 0 to |tests|
      invariant CountsOf(scope, tests[..n], i.candidate)
      invariant malformed == 0 <==> forall t :: t in tests[..n] ==> t.id.Some?
    {
      CountTestCounts(scope, tests[..n], tests[n], i.candidate);
      assert tests[..n + 1] == tests[..n] + [tests[n]];
      if tests[n].id.None? {
        malformed := malformed + 1;
      }
      scope := CountTest(scope, tests[n], i.candidate);
    }
    assert tests[..|tests|] == tests;
  }

  predicate IsStale(scope: map<Key, Counts>, k: Key) {
    k in scope && k.source != Dast && scope[k].stale > 0 && scope[k].inScope == 0
  }

  /** Sorts the stale scan types into those a clean scan of the candidate commit stands in for, and
      the rest, which block. */
  method CheckStaleScans(i: Input, scope: map<Key, Counts>)
    returns (blockers: seq<Blocker>, proven: set<Source>, unproven: set<Source>)
    requires i.dojo.Available?
    ensures forall s :: s in proven <==>
              exists k :: IsStale(scope, k) && k.source == s && Proven(s, k.scanType, i.evidence, i.candidate, i.policy)
    ensures forall s :: s in unproven <==>
              exists k :: IsStale(scope, k) && k.source == s && !Proven(s, k.scanType, i.evidence, i.candidate, i.policy)
    ensures blockers == [] <==> unproven == {}
    ensures forall b :: b in blockers ==> b == Blocker(ScopeMissing, None)
  {
    blockers, proven, unproven := [], {}, {};
    var todo := scope.Keys;
    ghost var done: set<Key> := {};
    while todo != {}
      invariant todo <= scope.Keys && done == scope.Keys - todo
      invariant forall s :: s in proven <==>
        exists k :: k in done && IsStale(scope, k) && k.source == s && Proven(s, k.scanType, i.evidence, i.candidate, i.policy)
      invariant forall s :: s in unproven <==>
        exists k :: k in done && IsStale(scope, k) && k.source == s && !Proven(s, k.scanType, i.evidence, i.candidate, i.policy)
      invariant blockers == [] <==> unproven == {}
      invariant forall b :: b in blockers ==> b == Blocker(ScopeMissing, None)
      decreases |todo|
    {
      var k :| k in todo;
      ghost var before := done;
      if IsStale(scope, k) {
        if Proven(k.source, k.scanType, i.evidence, i.candidate, i.policy) {
          proven := proven + {k.source};
        } else {
          unproven := unproven + {k.source};
          blockers := blockers + [Blocker(ScopeMissing, None)];
        }
      }
      todo := todo - {k};
      done := done + {k};
    }
  }

  // ----- the evaluator: findings

  datatype Verdict =
    | OutOfScope | NotOpen | BelowThreshold
    | Exception(acceptance: Acceptance)
    | InvalidAcceptance | Blocking

  /** The first acceptance in the list that is valid. */
  function FirstValid(acceptances: seq<Acceptance>, findingId: int, now: int): Option<Acceptance> {
    if acceptances == [] then None
    else if ValidAcceptance(acceptances[0], findingId, now) then Some(acceptances[0])
    else FirstValid(acceptances[1..], findingId, now)
  }

  lemma {:induction false} FirstValidFindsOne(acceptances: seq<Acceptance>, findingId: int, now: int)
    ensures var r := FirstValid(acceptances, findingId, now);
            if r.Some? then r.value in acceptances && ValidAcceptance(r.value, findingId, now)
            else forall a :: a in acceptances ==> !ValidAcceptance(a, findingId, now)
    decreases |acceptances|
  {
    if acceptances != [] {
      FirstValidFindsOne(acceptances[1..], findingId, now);
      assert acceptances == [acceptances[0]] + acceptances[1..];
    }
  }

  /** Where one finding lands. */
  function Judge(f: Finding, i: Input): Verdict
    requires i.dojo.Available? && WellFormedFinding(f)
  {
    if FindingScope(TagsOf(i.dojo.tests, f.test.value), i.candidate) != InScope then OutOfScope
    else if Excluded(f) then NotOpen
    else if !f.riskAccepted && (f.active == Some(false) || (i.policy.verifiedOnly && f.verified == Some(false))) then NotOpen
    else if f.severity.Some? && f.severity.value !in i.policy.blockingSeverities then BelowThreshold
    else if f.riskAccepted then
      var acceptance := FirstValid(f.acceptances, f.id.value, i.now);
      if acceptance.Some? then Exception(acceptance.value) else InvalidAcceptance
    else Blocking
  }

  lemma JudgeBlocksExactly(f: Finding, i: Input)
    requires i.dojo.Available? && WellFormedFinding(f)
    ensures Bars(Judge(f, i)) <==> Blocks(f, i)
    ensures Judge(f, i).Exception? ==>
              Waived(f, i.now) && Judge(f, i).acceptance in f.acceptances
              && ValidAcceptance(Judge(f, i).acceptance, f.id.value, i.now)
  {
    FirstValidFindsOne(f.acceptances, f.id.value, i.now);
  }

  ghost predicate AllWellFormed(findings: map<int, Finding>) {
    forall id :: id in findings ==> WellFormedFinding(findings[id]) && findings[id].id == Some(id)
  }

  lemma {:induction false} DeduplicatedWellFormed(findings: seq<Finding>)
    ensures AllWellFormed(Deduplicated(findings))
    decreases |findings|
  {
    if findings != [] {
      DeduplicatedWellFormed(findings[..|findings| - 1]);
    }
  }

  datatype GateException = GateException(findingId: int, acceptance: Acceptance)

  datatype Tally = Tally(
    outOfScope: nat, notOpen: nat, belowThreshold: nat, exceptions: seq<GateException>, blockers: seq<Blocker>)

  function AddVerdict(t: Tally, id: int, v: Verdict): Tally {
    match v
    case OutOfScope => t.(outOfScope := t.outOfScope + 1)
    case NotOpen => t.(notOpen := t.notOpen + 1)
    case BelowThreshold => t.(belowThreshold := t.belowThreshold + 1)
    case Exception(a) => t.(exceptions := t.exceptions + [GateException(id, a)])
    case InvalidAcceptance => t.(blockers := t.blockers + [Blocker(AcceptanceInvalid, Some(id))])
    case Blocking => t.(blockers := t.blockers + [Blocker(BlockingFinding, Some(id))])
  }

  ghost function LandedOn(findings: map<int, Finding>, ids: set<int>, i: Input, v: Verdict): set<int>
    requires i.dojo.Available? && AllWellFormed(findings) && ids <= findings.Keys
  {
    set id | id in ids && Judge(findings[id], i) == v
  }

  /** Every judged id is in exactly one place, in ascending order of id. */
  ghost predicate Accounts(t: Tally, findings: map<int, Finding>, ids: set<int>, i: Input)
    requires i.dojo.Available? && AllWellFormed(findings) && ids <= findings.Keys
  {
    && t.outOfScope == |LandedOn(findings, ids, i, OutOfScope)|
    && t.notOpen == |LandedOn(findings, ids, i, NotOpen)|
    && t.belowThreshold == |LandedOn(findings, ids, i, BelowThreshold)|
    && t.outOfScope + t.notOpen + t.belowThreshold + |t.exceptions| + |t.blockers| == |ids|
    && ExceptionsAre(t.exceptions, findings, ids, i)
    && BlockersAre(t.blockers, findings, ids, i)
  }

  ghost predicate ExceptionsAre(exceptions: seq<GateException>, findings: map<int, Finding>, ids: set<int>, i: Input)
    requires i.dojo.Available? && AllWellFormed(findings) && ids <= findings.Keys
  {
    && (forall k :: 0 <= k < |exceptions| ==>
          exceptions[k].findingId in ids
          && Judge(findings[exceptions[k].findingId], i) == Exception(exceptions[k].acceptance))
    && (forall k, l :: 0 <= k < l < |exceptions| ==> exceptions[k].findingId < exceptions[l].findingId)
    && (forall id :: id in ids && Judge(findings[id], i).Exception? ==>
          GateException(id, Judge(findings[id], i).acceptance) in exceptions)
  }

  predicate Bars(v: Verdict) {
    v == InvalidAcceptance || v == Blocking
  }

  function BlockerFor(id: int, v: Verdict): Blocker {
    Blocker(if v == InvalidAcceptance then AcceptanceInvalid else BlockingFinding, Some(id))
  }

  ghost predicate Due(id: int, b: Blocker, findings: map<int, Finding>, ids: set<int>, i: Input)
    requires i.dojo.Available? && AllWellFormed(findings) && ids <= findings.Keys
  {
    id in ids && Bars(Judge(findings[id], i)) && b == BlockerFor(id, Judge(findings[id], i))
  }

  ghost predicate BlockerIsDue(b: Blocker, findings: map<int, Finding>, ids: set<int>, i: Input)
    requires i.dojo.Available? && AllWellFormed(findings) && ids <= findings.Keys
  {
    b.findingId.Some? && Due(b.findingId.value, b, findings, ids, i)
  }

  /** A blocker for a judged id that bars the release, with the code of its verdict. */
  ghost predicate AllDue(blockers: seq<Blocker>, findings: map<int, Finding>, ids: set<int>, i: Input)
    requires i.dojo.Available? && AllWellFormed(findings) && ids <= findings.Keys
  {
    forall b :: b in blockers ==> BlockerIsDue(b, findings, ids, i)
  }

  ghost predicate AllPresent(blockers: seq<Blocker>, findings: map<int, Finding>, ids: set<int>, i: Input)
    requires i.dojo.Available? && AllWellFormed(findings) && ids <= findings.Keys
  {
    forall id :: id in ids && Bars(Judge(findings[id], i)) ==> BlockerFor(id, Judge(findings[id], i)) in blockers
  }

  ghost predicate Ascending(blockers: seq<Blocker>) {
    && (forall k :: 0 <= k < |blockers| ==> blockers[k].findingId.Some?)
    && (forall k, l :: 0 <= k < l < |blockers| ==> blockers[k].findingId.value < blockers[l].findingId.value)
  }

  ghost predicate BlockersAre(blockers: seq<Blocker>, findings: map<int, Finding>, ids: set<int>, i: Input)
    requires i.dojo.Available? && AllWellFormed(findings) && ids <= findings.Keys
  {
    AllDue(blockers, findings, ids, i) && AllPresent(blockers, findings, ids, i) && Ascending(blockers)
  }

  lemma LandedOnGrows(findings: map<int, Finding>, ids: set<int>, id: int, i: Input, v: Verdict)
    requires i.dojo.Available? && AllWellFormed(findings) && ids <= findings.Keys && id in findings && id !in ids
    ensures |LandedOn(findings, ids + {id}, i, v)|
         == |LandedOn(findings, ids, i, v)| + (if Judge(findings[id], i) == v then 1 else 0)
  {
    var before, after := LandedOn(findings, ids, i, v), LandedOn(findings, ids + {id}, i, v);
    assert after == if Judge(findings[id], i) == v then before + {id} else before;
  }

  lemma ExceptionsGrow(t: Tally, findings: map<int, Finding>, ids: set<int>, id: int, i: Input)
    requires i.dojo.Available? && AllWellFormed(findings) && ids <= findings.Keys && id in findings
    requires forall d :: d in ids ==> d < id
    requires ExceptionsAre(t.exceptions, findings, ids, i)
    ensures ExceptionsAre(AddVerdict(t, id, Judge(findings[id], i)).exceptions, findings, ids + {id}, i)
  {
  }

  lemma BlockersAppend(blockers: seq<Blocker>, findings: map<int, Finding>, ids: set<int>, id: int, i: Input)
    requires i.dojo.Available? && AllWellFormed(findings) && ids <= findings.Keys && id in findings
    requires forall d :: d in ids ==> d < id
    requires BlockersAre(blockers, findings, ids, i) && Bars(Judge(findings[id], i))
    ensures BlockersAre(blockers + [BlockerFor(id, Judge(findings[id], i))], findings, ids + {id}, i)
  {
    var b := BlockerFor(id, Judge(findings[id], i));
    assert AllDue(blockers + [b], findings, ids + {id}, i) by {
      forall c | c in blockers + [b] ensures BlockerIsDue(c, findings, ids + {id}, i) {
        assert c in blockers ==> BlockerIsDue(c, findings, ids, i);
      }
    }
    assert Ascending(blockers + [b]) by {
      forall k | 0 <= k < |blockers| ensures blockers[k].findingId.value < id {
        assert BlockerIsDue(blockers[k], findings, ids, i);
      }
    }
  }

  lemma BlockersKept(blockers: seq<Blocker>, findings: map<int, Finding>, ids: set<int>, id: int, i: Input)
    requires i.dojo.Available? && AllWellFormed(findings) && ids <= findings.Keys && id in findings
    requires BlockersAre(blockers, findings, ids, i) && !Bars(Judge(findings[id], i))
    ensures BlockersAre(blockers, findings, ids + {id}, i)
  {
    forall b | b in blockers ensures BlockerIsDue(b, findings, ids + {id}, i) {
      assert BlockerIsDue(b, findings, ids, i);
    }
  }

  lemma BlockersGrow(t: Tally, findings: map<int, Finding>, ids: set<int>, id: int, i: Input)
    requires i.dojo.Available? && AllWellFormed(findings) && ids <= findings.Keys && id in findings
    requires forall d :: d in ids ==> d < id
    requires BlockersAre(t.blockers, findings, ids, i)
    ensures BlockersAre(AddVerdict(t, id, Judge(findings[id], i)).blockers, findings, ids + {id}, i)
  {
    var v := Judge(findings[id], i);
    if Bars(v) {
      BlockersAppend(t.blockers, findings, ids, id, i);
      assert AddVerdict(t, id, v).blockers == t.blockers + [BlockerFor(id, v)];
    } else {
      BlockersKept(t.blockers, findings, ids, id, i);
      assert AddVerdict(t, id, v).blockers == t.blockers;
    }
  }

  lemma AddVerdictAccounts(t: Tally, findings: map<int, Finding>, ids: set<int>, id: int, i: Input)
    requires i.dojo.Available? && AllWellFormed(findings) && ids <= findings.Keys && id in findings
    requires forall d :: d in ids ==> d < id
    requires Accounts(t, findings, ids, i)
    ensures Accounts(AddVerdict(t, id, Judge(findings[id], i)), findings, ids + {id}, i)
  {
    LandedOnGrows(findings, ids, id, i, OutOfScope);
    LandedOnGrows(findings, ids, id, i, NotOpen);
    LandedOnGrows(findings, ids, id, i, BelowThreshold);
    ExceptionsGrow(t, findings, ids, id, i);
    BlockersGrow(t, findings, ids, id, i);
  }

  method LeastId(ids: set<int>) returns (least: int)
    requires ids != {}
    ensures least in ids && forall id :: id in ids ==> least <= id
  {
    least := Pick(ids);
    var todo := ids;
    while todo != {}
      invariant todo <= ids && least in ids
      invariant forall id :: id in ids && id !in todo ==> least <= id
      decreases |todo|
    {
      var id := Pick(todo);
      least := Min(least, id);
      todo := todo - {id};
    }
    assert forall id :: id in ids ==> id !in todo;
  }

  ghost predicate AllBelow(done: set<int>, todo: set<int>) {
    forall d, id :: d in done && id in todo ==> d < id
  }

  lemma MoveLeast(done: set<int>, todo: set<int>, id: int)
    requires AllBelow(done, todo) && id in todo && forall e :: e in todo ==> id <= e
    ensures AllBelow(done + {id}, todo - {id})
    ensures forall d :: d in done ==> d < id
  {
  }

  /** The loop's state: the ids judged so far lie below those still to judge, and are accounted for. */
  ghost predicate Progress(t: Tally, findings: map<int, Finding>, todo: set<int>, i: Input)
    requires i.dojo.Available? && AllWellFormed(findings)
  {
    todo <= findings.Keys && AllBelow(findings.Keys - todo, todo) && Accounts(t, findings, findings.Keys - todo, i)
  }

  lemma NothingJudged(findings: map<int, Finding>, i: Input)
    requires i.dojo.Available? && AllWellFormed(findings)
    ensures Progress(Tally(0, 0, 0, [], []), findings, findings.Keys, i)
  {
    var none := findings.Keys - findings.Keys;
    assert none == {};
    assert LandedOn(findings, none, i, OutOfScope) == {};
    assert LandedOn(findings, none, i, NotOpen) == {};
    assert LandedOn(findings, none, i, BelowThreshold) == {};
  }

  lemma OneJudged(t: Tally, findings: map<int, Finding>, todo: set<int>, id: int, i: Input)
    requires i.dojo.Available? && AllWellFormed(findings) && Progress(t, findings, todo, i)
    requires id in todo && forall e :: e in todo ==> id <= e
    ensures id in findings && Progress(AddVerdict(t, id, Judge(findings[id], i)), findings, todo - {id}, i)
  {
    var done := findings.Keys - todo;
    MoveLeast(done, todo, id);
    AddVerdictAccounts(t, findings, done, id, i);
    assert findings.Keys - (todo - {id}) == done + {id};
  }

  lemma AllJudged(t: Tally, findings: map<int, Finding>, i: Input)
    requires i.dojo.Available? && AllWellFormed(findings) && Progress(t, findings, {}, i)
    ensures Accounts(t, findings, findings.Keys, i)
  {
    assert findings.Keys - {} == findings.Keys;
  }

  /** Judges every distinct finding, in ascending order of id. */
  method JudgeFindings(i: Input, findings: map<int, Finding>) returns (tally: Tally)
    requires i.dojo.Available? && AllWellFormed(findings)
    ensures Accounts(tally, findings, findings.Keys, i)
  {
    tally := Tally(0, 0, 0, [], []);
    var todo := findings.Keys;
    NothingJudged(findings, i);
    while todo != {}
      invariant Progress(tally, findings, todo, i)
      decreases |todo|
    {
      var id := LeastId(todo);
      OneJudged(tally, findings, todo, id, i);
      tally := AddVerdict(tally, id, Judge(findings[id], i));
      todo := todo - {id};
    }
    AllJudged(tally, findings, i);
  }

  /** One pass over both lists: the distinct findings, and how many records are malformed. */
  method CollectFindings(all: seq<Finding>) returns (findings: map<int, Finding>, malformed: nat)
    ensures findings == Deduplicated(all)
    ensures malformed == 0 <==> forall f :: f in all ==> WellFormedFinding(f)
  {
    findings, malformed := map[], 0;
    for n := 0 to |all|
      invariant findings == Deduplicated(all[..n])
      invariant malformed == 0 <==> forall f :: f in all[..n] ==> WellFormedFinding(f)
    {
      var f := all[n];
      assert all[..n + 1] == all[..n] + [f] && all[..n + 1][..n] == all[..n];
      if !WellFormedFinding(f) {
        malformed := malformed + 1;
      } else if f.id.value !in findings || |f.acceptances| > |findings[f.id.value].acceptances| {
        findings := findings[f.id.value := f];
      }
    }
    assert all[..|all|] == all;
  }

  predicate CurrentFor(scope: map<Key, Counts>, source: Source) {
    exists k :: k in scope && k.source == source && scope[k].inScope > 0
  }

  method CheckSource(scope: map<Key, Counts>, source: Source, proven: set<Source>, unproven: set<Source>)
    returns (blockers: seq<Blocker>)
    ensures blockers == [] <==> CurrentFor(scope, source) || source in proven || source in unproven
    ensures forall b :: b in blockers ==> b == Blocker(ScopeMissing, None)
  {
    if CurrentFor(scope, source) || source in proven || source in unproven {
      return [];
    }
    return [Blocker(ScopeMissing, None)];
  }

  lemma StaleCounts(scope: map<Key, Counts>, i: Input, source: Source, scanType: string)
    requires i.dojo.Available? && CountsOf(scope, i.dojo.tests, i.candidate)
    ensures IsStale(scope, Key(source, scanType)) <==>
            source != Dast && StaleOnly(i.dojo.tests, source, scanType, i.candidate)
  {
    var k := Key(source, scanType);
    var n := if k in scope then scope[k] else Counts(0, 0);
    assert n.inScope > 0 <==> HasTest(i.dojo.tests, k.source, k.scanType, InScope, i.candidate);
    assert n.stale > 0 <==> HasTest(i.dojo.tests, k.source, k.scanType, OtherCommit, i.candidate);
  }

  lemma CurrentCounts(scope: map<Key, Counts>, i: Input, source: Source)
    requires i.dojo.Available? && CountsOf(scope, i.dojo.tests, i.candidate)
    ensures CurrentFor(scope, source) <==>
            exists scanType :: HasTest(i.dojo.tests, source, scanType, InScope, i.candidate)
  {
    if CurrentFor(scope, source) {
      var k :| k in scope && k.source == source && scope[k].inScope > 0;
      assert HasTest(i.dojo.tests, source, k.scanType, InScope, i.candidate);
    }
    if scanType :| HasTest(i.dojo.tests, source, scanType, InScope, i.candidate) {
      var k := Key(source, scanType);
      var n := if k in scope then scope[k] else Counts(0, 0);
      assert n.inScope > 0 <==> HasTest(i.dojo.tests, k.source, k.scanType, InScope, i.candidate);
    }
  }

  ghost predicate SortedOut(scope: map<Key, Counts>, i: Input, proven: set<Source>, unproven: set<Source>) {
    && (forall s :: s in proven <==>
          exists k :: IsStale(scope, k) && k.source == s && Proven(s, k.scanType, i.evidence, i.candidate, i.policy))
    && (forall s :: s in unproven <==>
          exists k :: IsStale(scope, k) && k.source == s && !Proven(s, k.scanType, i.evidence, i.candidate, i.policy))
  }

  lemma NoneUnproven(scope: map<Key, Counts>, i: Input, proven: set<Source>, unproven: set<Source>)
    requires i.dojo.Available? && CountsOf(scope, i.dojo.tests, i.candidate) && SortedOut(scope, i, proven, unproven)
    ensures unproven == {} <==> StaleScansProven(i)
  {
    forall source, scanType
      ensures IsStale(scope, Key(source, scanType)) <==>
              source != Dast && StaleOnly(i.dojo.tests, source, scanType, i.candidate)
    {
      StaleCounts(scope, i, source, scanType);
    }
    if !StaleScansProven(i) {
      var source, scanType :| source != Dast && StaleOnly(i.dojo.tests, source, scanType, i.candidate)
                              && !Proven(source, scanType, i.evidence, i.candidate, i.policy);
      assert IsStale(scope, Key(source, scanType)) && Key(source, scanType).source == source;
      assert source in unproven;
    }
    if unproven != {} {
      var s :| s in unproven;
      var k :| IsStale(scope, k) && k.source == s && !Proven(s, k.scanType, i.evidence, i.candidate, i.policy);
      assert k == Key(k.source, k.scanType);
    }
  }

  lemma Covered(scope: map<Key, Counts>, i: Input, source: Source, proven: set<Source>, unproven: set<Source>)
    requires i.dojo.Available? && CountsOf(scope, i.dojo.tests, i.candidate) && SortedOut(scope, i, proven, unproven)
    requires source != Dast
    ensures SourceCovered(i, source) <==> CurrentFor(scope, source) || source in proven
  {
    CurrentCounts(scope, i, source);
    if source in proven {
      var k :| IsStale(scope, k) && k.source == source
               && Proven(source, k.scanType, i.evidence, i.candidate, i.policy);
      assert k == Key(source, k.scanType);
      StaleCounts(scope, i, source, k.scanType);
    }
    if scanType :| StaleOnly(i.dojo.tests, source, scanType, i.candidate)
                   && Proven(source, scanType, i.evidence, i.candidate, i.policy) {
      StaleCounts(scope, i, source, scanType);
    }
  }

  /** Every blocker about the Tests names missing scope; there is none exactly when the Tests describe the candidate. */
  method CheckScope(i: Input, scope: map<Key, Counts>) returns (blockers: seq<Blocker>)
    requires i.dojo.Available? && CountsOf(scope, i.dojo.tests, i.candidate)
    ensures blockers == [] <==> StaleScansProven(i) && SourceCovered(i, Sast) && SourceCovered(i, Image)
    ensures forall b :: b in blockers ==> b == Blocker(ScopeMissing, None)
  {
    var proven, unproven;
    blockers, proven, unproven := CheckStaleScans(i, scope);
    assert SortedOut(scope, i, proven, unproven);
    var sast := CheckSource(scope, Sast, proven, unproven);
    var image := CheckSource(scope, Image, proven, unproven);
    NoneUnproven(scope, i, proven, unproven);
    Covered(scope, i, Sast, proven, unproven);
    Covered(scope, i, Image, proven, unproven);
    blockers := blockers + sast + image;
  }

  lemma NoFindingBlocks(i: Input, findings: map<int, Finding>, tally: Tally)
    requires i.dojo.Available? && findings == Deduplicated(AllFindings(i))
    requires AllWellFormed(findings) && Accounts(tally, findings, findings.Keys, i)
    ensures tally.blockers == [] <==> NoBlockingFinding(i)
  {
    forall id | id in findings
      ensures Bars(Judge(findings[id], i)) <==> Blocks(findings[id], i)
    {
      JudgeBlocksExactly(findings[id], i);
    }
    if tally.blockers != [] {
      assert BlockerIsDue(tally.blockers[0], findings, findings.Keys, i);
      var id := tally.blockers[0].findingId.value;
      assert Blocks(findings[id], i);
    }
  }

  /** What the evaluator reads from the vulnerability database. */
  method EvaluateDojo(i: Input) returns (blockers: seq<Blocker>, tally: Tally)
    requires i.dojo.Available?
    ensures blockers == [] <==>
              DojoWellFormed(i) && StaleScansProven(i) && SourceCovered(i, Sast) && SourceCovered(i, Image)
              && NoBlockingFinding(i)
    ensures AllWellFormed(Deduplicated(AllFindings(i)))
    ensures Accounts(tally, Deduplicated(AllFindings(i)), Deduplicated(AllFindings(i)).Keys, i)
    ensures forall b :: b in tally.blockers ==> b in blockers
  {
    var scope, malformedTests := ScopeTests(i);
    blockers := CheckScope(i, scope);
    var findings, malformedFindings := CollectFindings(AllFindings(i));
    DeduplicatedWellFormed(AllFindings(i));
    tally := JudgeFindings(i, findings);
    NoFindingBlocks(i, findings, tally);
    blockers := blockers + tally.blockers;
    if malformedTests + malformedFindings > 0 {
      blockers := blockers + [Blocker(GateUnavailable, None)];
    }
  }

  /** The decision is exactly the specification's, and every distinct finding is ignored, excepted or
      blocking, once. */
  method EvaluateReleaseGate(i: Input) returns (pass: bool, blockers: seq<Blocker>, tally: Tally)
    ensures pass <==> GatePasses(i)
    ensures pass <==> MayProceed(i)
    ensures pass <==> blockers == []
    ensures forall f, t :: BarredBy(i, f, t) ==> !pass
    ensures i.dojo.Unavailable? ==> Blocker(GateUnavailable, None) in blockers
    ensures i.dojo.Available? ==>
              var findings := Deduplicated(AllFindings(i));
              AllWellFormed(findings) && Accounts(tally, findings, findings.Keys, i)
              && forall b :: b in tally.blockers ==> b in blockers
  {
    blockers := CheckEvidence(i);
    tally := Tally(0, 0, 0, [], []);
    if i.dojo.Unavailable? {
      blockers := blockers + [Blocker(GateUnavailable, None)];
    } else {
      var dojoBlockers;
      dojoBlockers, tally := EvaluateDojo(i);
      blockers := blockers + dojoBlockers;
    }
    pass := blockers == [];
    GatePassesExactly(i);
    forall f, t | BarredBy(i, f, t) ensures !GatePasses(i) {
      OpenFindingBars(i, f, t);
    }
  }
}
