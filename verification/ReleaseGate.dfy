/**
 When a release may proceed.
 */
module ReleaseGate {
  /**
   Source: apps/control-plane/src/release-gate-policy.ts:132-171, 368-400, 456-768.

   GatePasses says, without any walk over the data, when a release may proceed.  It is
   proved monotone here, and ReleaseGateEvaluator proves that the evaluator decides it.
   */
  import opened Wrappers
  import opened ReleaseGatePolicy

  const RESCAN_MAX_AGE_MS := 48 * 3_600_000

  datatype Acceptance = Acceptance(
    id: Option<int>, name: string, expiresAt: Option<int>, accepts: bool, covers: Option<seq<int>>)

  datatype Finding = Finding(
    id: Option<int>, test: Option<int>, severity: Option<Severity>,
    active: Option<bool>, verified: Option<bool>,
    falsePositive: bool, duplicate: bool, outOfScope: bool, mitigated: bool,
    riskAccepted: bool, acceptances: seq<Acceptance>)

  datatype Test = Test(id: Option<int>, scanType: string, tags: set<string>)

  datatype Dojo = Unavailable | Available(tests: seq<Test>, findings: seq<Finding>, acceptedFindings: seq<Finding>)

  /** What a decision is taken on; `lowerCase` is the library's lower-casing. */
  datatype Input = Input(
    candidate: Candidate, evidence: Evidence, expectedIdentity: Option<string>, lowerCase: string -> string,
    dojo: Dojo, policy: Policy, now: int)

  datatype Code =
    | GateUnavailable | UnsignedDigest | WrongSigner | ImageScanMissing | ImageScanCritical | SbomMissing
    | DeployedRescanMissing | DeployedRescanFailed | PromotionFrozen | ScopeMissing
    | BlockingFinding | AcceptanceInvalid

  datatype Blocker = Blocker(code: Code, findingId: Option<int>)

  predicate Required(p: Policy, e: Requirement) {
    e == Signature || e in p.requiredEvidence
  }

  // ----- the specification: evidence

  predicate SignedByTrustedWorkflow(i: Input) {
    && i.evidence.signature.Some? && i.evidence.signature.value.digest == i.candidate.digest
    && i.expectedIdentity.Some? && i.lowerCase(i.expectedIdentity.value) != ""
    && i.lowerCase(i.evidence.signature.value.certificateIdentity) == i.lowerCase(i.expectedIdentity.value)
  }

  predicate ImageScanClean(i: Input) {
    i.evidence.imageScan.Some? && i.evidence.imageScan.value.success
    && i.evidence.imageScan.value.criticalFindings == Some(0)
  }

  predicate CandidateFrozen(i: Input) {
    i.evidence.candidateRescan.Some? && i.evidence.candidateRescan.value.digest == i.candidate.digest
    && i.evidence.candidateRescan.value.frozen
  }

  /** A verified rescan of the deployed digest in this environment, young enough. */
  predicate RescanFresh(i: Input, e: RescanEvidence)
    requires e.deployedDigest.Some?
  {
    && e.rescan.Some? && e.rescan.value.digest == e.deployedDigest.value
    && e.rescan.value.environment == i.candidate.environment
    && e.rescan.value.observedAt.Some?
    && i.now - e.rescan.value.observedAt.value <= RESCAN_MAX_AGE_MS
  }

  predicate DeployedRescanCurrent(i: Input) {
    && i.evidence.deployedRescan.Some?
    && var e := i.evidence.deployedRescan.value;
       e.environment == i.candidate.environment
       && (e.deployedDigest.Some? ==>
             RescanFresh(i, e) && e.rescan.value.artifactAccepted && e.rescan.value.criticalFindings >= 0)
  }

  predicate EvidenceSatisfied(i: Input) {
    && SignedByTrustedWorkflow(i)
    && (Required(i.policy, ImageScan) ==> ImageScanClean(i))
    && (Required(i.policy, Sbom) ==> i.evidence.sbomSuccess)
    && !CandidateFrozen(i)
    && (Required(i.policy, DeployedRescan) ==> DeployedRescanCurrent(i))
  }

  // ----- the specification: Test scope

  predicate TestAt(t: Test, source: Source, scanType: string, scope: Scope, c: Candidate) {
    t.id.Some? && FindingSource(t.tags) == source && t.scanType == scanType && FindingScope(t.tags, c) == scope
  }

  ghost predicate HasTest(tests: seq<Test>, source: Source, scanType: string, scope: Scope, c: Candidate) {
    exists t :: t in tests && TestAt(t, source, scanType, scope, c)
  }

  /** A scan type whose Tests all describe another commit. */
  ghost predicate StaleOnly(tests: seq<Test>, source: Source, scanType: string, c: Candidate) {
    HasTest(tests, source, scanType, OtherCommit, c) && !HasTest(tests, source, scanType, InScope, c)
  }

  ghost predicate StaleScansProven(i: Input)
    requires i.dojo.Available?
  {
    forall source, scanType :: source != Dast && StaleOnly(i.dojo.tests, source, scanType, i.candidate) ==>
      Proven(source, scanType, i.evidence, i.candidate, i.policy)
  }

  ghost predicate SourceCovered(i: Input, source: Source)
    requires i.dojo.Available?
  {
    || (exists scanType :: HasTest(i.dojo.tests, source, scanType, InScope, i.candidate))
    || (exists scanType :: StaleOnly(i.dojo.tests, source, scanType, i.candidate)
                           && Proven(source, scanType, i.evidence, i.candidate, i.policy))
  }

  // ----- the specification: findings

  /** The tags of a Test id: the last record wins. */
  function TagsOf(tests: seq<Test>, id: int): set<string> {
    if tests == [] then {}
    else if tests[|tests| - 1].id == Some(id) then tests[|tests| - 1].tags
    else TagsOf(tests[..|tests| - 1], id)
  }

  /** Test k has the id and no Test after it does. */
  ghost predicate LastWith(tests: seq<Test>, id: int, k: nat) {
    k < |tests| && tests[k].id == Some(id) && forall j :: k < j < |tests| ==> tests[j].id != Some(id)
  }

  /** The tags of an id are those of the last Test with that id, wherever it stands. */
  lemma {:induction false} TagsOfTheLast(tests: seq<Test>, id: int, k: nat)
    requires LastWith(tests, id, k)
    ensures TagsOf(tests, id) == tests[k].tags
    decreases |tests|
  {
    if k < |tests| - 1 {
      TagsOfTheLast(tests[..|tests| - 1], id, k);
    }
  }

  /** And there are none when no Test has it. */
  lemma {:induction false} NoTagsWithoutTest(tests: seq<Test>, id: int)
    requires forall t :: t in tests ==> t.id != Some(id)
    ensures TagsOf(tests, id) == {}
    decreases |tests|
  {
    if tests != [] {
      var init, last := tests[..|tests| - 1], tests[|tests| - 1];
      assert tests == init + [last];
      NoTagsWithoutTest(init, id);
    }
  }

  /** No two Tests share an id. */
  ghost predicate DistinctTests(tests: seq<Test>) {
    forall i, j :: 0 <= i < j < |tests| && tests[i].id.Some? ==> tests[i].id != tests[j].id
  }

  lemma TagsOfItsTest(tests: seq<Test>, t: Test)
    requires DistinctTests(tests) && t in tests && t.id.Some?
    ensures TagsOf(tests, t.id.value) == t.tags
  {
    var k: nat :| k < |tests| && tests[k] == t;
    TagsOfTheLast(tests, t.id.value, k);
  }

  predicate WellFormedFinding(f: Finding) {
    f.id.Some? && f.test.Some?
  }

  /** One record per finding id: the first of those with the most acceptance detail. */
  function Deduplicated(findings: seq<Finding>): map<int, Finding> {
    if findings == [] then map[]
    else
      var init, last := Deduplicated(findings[..|findings| - 1]), findings[|findings| - 1];
      if WellFormedFinding(last)
         && (last.id.value !in init || |last.acceptances| > |init[last.id.value].acceptances|)
      then init[last.id.value := last] else init
  }

  predicate ValidAcceptance(a: Acceptance, findingId: int, now: int) {
    && a.id.Some? && a.name != "" && a.expiresAt.Some? && a.expiresAt.value > now
    && a.accepts && a.covers.Some? && findingId in a.covers.value
  }

  ghost predicate Waived(f: Finding, now: int) {
    f.id.Some? && f.riskAccepted && exists a :: a in f.acceptances && ValidAcceptance(a, f.id.value, now)
  }

  predicate Excluded(f: Finding) {
    f.falsePositive || f.duplicate || f.outOfScope || f.mitigated
  }

  predicate OpenFinding(f: Finding, p: Policy) {
    !Excluded(f) && (f.riskAccepted || !(f.active == Some(false) || (p.verifiedOnly && f.verified == Some(false))))
  }

  /** A finding blocks when it is in scope, open, at a blocking or unknown severity, and not waived. */
  ghost predicate Blocks(f: Finding, i: Input)
    requires i.dojo.Available? && WellFormedFinding(f)
  {
    && FindingScope(TagsOf(i.dojo.tests, f.test.value), i.candidate) == InScope
    && OpenFinding(f, i.policy)
    && (f.severity.None? || f.severity.value in i.policy.blockingSeverities)
    && !Waived(f, i.now)
  }

  function AllFindings(i: Input): seq<Finding>
    requires i.dojo.Available?
  {
    i.dojo.findings + i.dojo.acceptedFindings
  }

  ghost predicate DojoWellFormed(i: Input)
    requires i.dojo.Available?
  {
    && (forall t :: t in i.dojo.tests ==> t.id.Some?)
    && (forall f :: f in AllFindings(i) ==> WellFormedFinding(f))
  }

  ghost predicate NoBlockingFinding(i: Input)
    requires i.dojo.Available?
  {
    var findings := Deduplicated(AllFindings(i));
    forall id :: id in findings ==> WellFormedFinding(findings[id]) && !Blocks(findings[id], i)
  }

  /** The gate's whole meaning. */
  ghost predicate GatePasses(i: Input) {
    && EvidenceSatisfied(i)
    && i.dojo.Available?
    && DojoWellFormed(i)
    && StaleScansProven(i)
    && SourceCovered(i, Sast) && SourceCovered(i, Image)
    && NoBlockingFinding(i)
  }

  // ----- what bars a release

  /** An active, verified finding at a severity the policy blocks, with no flag that excludes it and no risk
      accepted. */
  predicate PlainlyOpen(f: Finding, p: Policy) {
    && f.active == Some(true) && f.verified == Some(true) && !f.riskAccepted
    && !f.falsePositive && !f.duplicate && !f.outOfScope && !f.mitigated
    && f.severity.Some? && f.severity.value in p.blockingSeverities
  }

  /** Such a finding, under an id of its own, of a listed Test about this candidate. */
  ghost predicate BarredBy(i: Input, f: Finding, t: Test) {
    && i.dojo.Available? && f in i.dojo.findings + i.dojo.acceptedFindings && f.id.Some?
    && (forall g :: g in i.dojo.findings + i.dojo.acceptedFindings && g.id == f.id ==> g == f)
    && DistinctTests(i.dojo.tests) && t in i.dojo.tests && t.id.Some? && t.id == f.test
    && FindingScope(t.tags, i.candidate) == InScope && PlainlyOpen(f, i.policy)
  }

  /** It bars the release, wherever it and its Test stand in their lists. */
  lemma OpenFindingBars(i: Input, f: Finding, t: Test)
    requires BarredBy(i, f, t)
    ensures !GatePasses(i)
  {
    TagsOfItsTest(i.dojo.tests, t);
    var all := AllFindings(i);
    var k :| 0 <= k < |all| && all[k] == f;
    DeduplicationPrefers(all, f.id.value);
    var kept := Deduplicated(all);
    assert f.id.value in kept;
    var m: nat :| Preferred(all, f.id.value, m) && all[m] == kept[f.id.value];
    assert all[m] in all;
    assert Blocks(f, i);
  }

  // ----- monotonicity

  /** q blocks at least what p blocks. */
  ghost predicate Stricter(q: Policy, p: Policy) {
    && (forall s :: s in p.blockingSeverities ==> s in q.blockingSeverities)
    && (forall e :: e in p.requiredEvidence ==> e in q.requiredEvidence)
    && (q.verifiedOnly ==> p.verifiedOnly)
  }

  lemma {:induction false} RankAtLeastIndex(s: seq<Severity>, i: int)
    requires Increasing(s, SeverityRank) && 0 <= i < |s|
    ensures SeverityRank(s[i]) >= i
    decreases i
  {
    if i > 0 {
      RankAtLeastIndex(s, i - 1);
    }
  }

  lemma OnlyCritical(q: Policy, p: Policy)
    requires Stricter(q, p) && Canonical(p) && Critical in p.blockingSeverities
    ensures q.blockingSeverities == [Critical] ==> p.blockingSeverities == [Critical]
  {
    var b := p.blockingSeverities;
    if q.blockingSeverities == [Critical] {
      RankAtLeastIndex(b, |b| - 1);
      assert b[|b| - 1] in b;
      assert b == [b[0]];
    }
  }

  lemma ProofMonotone(source: Source, scanType: string, e: Evidence, c: Candidate, q: Policy, p: Policy)
    requires Stricter(q, p) && Canonical(p) && Critical in p.blockingSeverities
    requires Proven(source, scanType, e, c, q)
    ensures Proven(source, scanType, e, c, p)
  {
    OnlyCritical(q, p);
  }

  /** Adding blocking severities, requiring more evidence or no longer excusing unverified findings
      never turns a failing gate into a passing one. */
  lemma StricterPolicyNeverHelps(i: Input, q: Policy)
    requires Canonical(i.policy) && Critical in i.policy.blockingSeverities && Stricter(q, i.policy)
    requires GatePasses(i.(policy := q))
    ensures GatePasses(i)
  {
    var j := i.(policy := q);
    forall source, scanType | Proven(source, scanType, i.evidence, i.candidate, q)
      ensures Proven(source, scanType, i.evidence, i.candidate, i.policy)
    {
      ProofMonotone(source, scanType, i.evidence, i.candidate, q, i.policy);
    }
    assert StaleScansProven(j) && SourceCovered(j, Sast) && SourceCovered(j, Image);
    var findings := Deduplicated(AllFindings(i));
    forall id | id in findings
      ensures WellFormedFinding(findings[id]) && !Blocks(findings[id], i)
    {
      assert WellFormedFinding(findings[id]) && !Blocks(findings[id], j);
    }
  }

  lemma DeduplicatedSnoc(findings: seq<Finding>, last: Finding)
    ensures var d := Deduplicated(findings);
            Deduplicated(findings + [last]) ==
            if WellFormedFinding(last) && (last.id.value !in d || |last.acceptances| > |d[last.id.value].acceptances|)
            then d[last.id.value := last] else d
  {
    assert (findings + [last])[..|findings|] == findings;
  }

  lemma {:induction false} FreshIdAdded(a: seq<Finding>, f: Finding, b: seq<Finding>)
    requires WellFormedFinding(f) && forall g :: g in a + b ==> g.id != f.id
    ensures Deduplicated(a + [f] + b) == Deduplicated(a + b)[f.id.value := f]
    ensures f.id.value !in Deduplicated(a + b)
    decreases |b|
  {
    hide Deduplicated;
    UnreportedId(a + b, f.id.value);
    if b == [] {
      assert a + b == a && a + [f] + b == a + [f];
      DeduplicatedSnoc(a, f);
    } else {
      var n := |b| - 1;
      assert a + [f] + b == (a + [f] + b[..n]) + [b[n]];
      assert a + b == (a + b[..n]) + [b[n]];
      assert b[n] in a + b;
      FreshIdAdded(a, f, b[..n]);
      DeduplicatedSnoc(a + b[..n], b[n]);
      DeduplicatedSnoc(a + [f] + b[..n], b[n]);
    }
  }

  /** Reporting one more finding anywhere, under an id no other record has, never helps either. */
  lemma MoreFindingsNeverHelp(i: Input, j: Input, a: seq<Finding>, f: Finding, b: seq<Finding>)
    requires i.dojo.Available? && j == i.(dojo := j.dojo) && j.dojo.Available? && j.dojo.tests == i.dojo.tests
    requires AllFindings(i) == a + b && AllFindings(j) == a + [f] + b
    requires forall g :: g in a + b ==> g.id != f.id || f.id.None?
    requires GatePasses(j)
    ensures GatePasses(i)
  {
    assert f in AllFindings(j);
    FreshIdAdded(a, f, b);
    var before, after := Deduplicated(AllFindings(i)), Deduplicated(AllFindings(j));
    forall id | id in before ensures WellFormedFinding(before[id]) && !Blocks(before[id], i) {
      assert after[id] == before[id];
      assert !Blocks(after[id], j);
    }
  }

  lemma {:induction false} UnreportedId(findings: seq<Finding>, id: int)
    requires forall g :: g in findings ==> g.id != Some(id)
    ensures id !in Deduplicated(findings)
    decreases |findings|
  {
    if findings != [] {
      assert findings == findings[..|findings| - 1] + [findings[|findings| - 1]];
      UnreportedId(findings[..|findings| - 1], id);
    }
  }

  /** The record kept for an id has the most acceptance detail, and is the first that has it. */
  ghost predicate Preferred(findings: seq<Finding>, id: int, k: nat) {
    && k < |findings| && WellFormedFinding(findings[k]) && findings[k].id == Some(id)
    && forall j :: 0 <= j < |findings| && WellFormedFinding(findings[j]) && findings[j].id == Some(id) ==>
         && |findings[j].acceptances| <= |findings[k].acceptances|
         && (j < k ==> |findings[j].acceptances| < |findings[k].acceptances|)
  }

  lemma {:induction false} DeduplicationPrefers(findings: seq<Finding>, id: int)
    ensures id in Deduplicated(findings) ==>
              exists k: nat :: Preferred(findings, id, k) && findings[k] == Deduplicated(findings)[id]
    ensures id !in Deduplicated(findings) ==>
              forall j :: 0 <= j < |findings| && WellFormedFinding(findings[j]) ==> findings[j].id != Some(id)
    decreases |findings|
  {
    if findings != [] {
      var n := |findings| - 1;
      var init := findings[..n];
      DeduplicationPrefers(init, id);
      assert forall j :: 0 <= j < n ==> init[j] == findings[j];
      if id in Deduplicated(findings) {
        if id in Deduplicated(init) && Deduplicated(findings)[id] == Deduplicated(init)[id] {
          var k: nat :| Preferred(init, id, k) && init[k] == Deduplicated(init)[id];
          assert Preferred(findings, id, k);
        } else {
          if id in Deduplicated(init) {
            var k: nat :| Preferred(init, id, k) && init[k] == Deduplicated(init)[id];
          }
          assert Preferred(findings, id, n);
        }
      }
    }
  }

  // ----- the same in the fields alone

  const REPOSITORY_TAG := "guardianbot:repo-id:"
  const COMMIT_TAG := "guardianbot:commit:"

  /** The tags name the candidate's repository and no other environment. */
  ghost predicate NamesRepository(tags: set<string>, c: Candidate) {
    && REPOSITORY_TAG + c.repositoryId in tags
    && ((exists t :: t in tags && "guardianbot:env:" <= t) ==> "guardianbot:env:" + c.environment in tags)
  }

  ghost predicate NamesADigest(tags: set<string>) {
    exists t :: t in tags && "guardianbot:image:" <= t
  }

  /** About this candidate: by its digest when any digest is named, else by its commit. */
  ghost predicate AboutCandidate(tags: set<string>, c: Candidate) {
    && NamesRepository(tags, c)
    && (if NamesADigest(tags) then "guardianbot:image:" + c.digest in tags else COMMIT_TAG + c.commit in tags)
  }

  /** About another commit of this repository and environment, with no digest named. */
  ghost predicate AboutOtherCommit(tags: set<string>, c: Candidate) {
    NamesRepository(tags, c) && !NamesADigest(tags) && COMMIT_TAG + c.commit !in tags
  }

  ghost predicate OfSource(tags: set<string>, source: Source) {
    var dast, image, sast := "guardianbot:profile:dast" in tags, "guardianbot:profile:image" in tags,
                             "guardianbot:profile:security" in tags;
    match source
    case Dast => dast
    case Image => !dast && image
    case Sast => !dast && !image && sast
    case UnknownSource => !dast && !image && !sast
  }

  ghost predicate Scanned(i: Input, source: Source, scanType: string)
    requires i.dojo.Available?
  {
    exists t :: t in i.dojo.tests && t.id.Some? && OfSource(t.tags, source) && t.scanType == scanType
                && AboutCandidate(t.tags, i.candidate)
  }

  ghost predicate ScannedElsewhere(i: Input, source: Source, scanType: string)
    requires i.dojo.Available?
  {
    exists t :: t in i.dojo.tests && t.id.Some? && OfSource(t.tags, source) && t.scanType == scanType
                && AboutOtherCommit(t.tags, i.candidate)
  }

  /** A successful scan that counts every severity and nothing at a blocking one. */
  ghost predicate CountsNothing(s: ScanSummary, blocking: seq<Severity>) {
    && s.success && s.severities.Some? && s.ref != ""
    && forall v: Severity ::
         v in s.severities.value && s.severities.value[v] >= 0 && (v in blocking ==> s.severities.value[v] == 0)
  }

  /** The candidate commit's own scan stands in for a Test of another commit: a clean one of that type, or a clean
      image scan when only Critical blocks. */
  ghost predicate StandsIn(i: Input, source: Source, scanType: string) {
    match source
    case Sast =>
      && i.evidence.commitScan.Some? && i.evidence.commitScan.value.commit == i.candidate.commit
      && var scan := i.evidence.commitScan.value;
         || (scanType == "Semgrep JSON Report" && scan.semgrep.Some? && CountsNothing(scan.semgrep.value, i.policy.blockingSeverities))
         || (scanType == "Trivy Scan" && scan.trivy.Some? && CountsNothing(scan.trivy.value, i.policy.blockingSeverities))
    case Image =>
      && scanType == "Trivy Scan" && i.policy.blockingSeverities == [Critical]
      && i.evidence.imageScan.Some? && i.evidence.imageScan.value.success
      && i.evidence.imageScan.value.criticalFindings == Some(0) && i.evidence.imageScan.value.ref != ""
    case _ => false
  }

  ghost predicate Covers(i: Input, source: Source, scanType: string)
    requires i.dojo.Available?
  {
    Scanned(i, source, scanType) || (ScannedElsewhere(i, source, scanType) && StandsIn(i, source, scanType))
  }

  /** Every scan type left to another commit is stood in for, and both sources are covered. */
  ghost predicate ScansHold(i: Input)
    requires i.dojo.Available?
  {
    && (forall source, scanType :: source != Dast && ScannedElsewhere(i, source, scanType) && !Scanned(i, source, scanType)
          ==> StandsIn(i, source, scanType))
    && (exists scanType :: Covers(i, Sast, scanType)) && (exists scanType :: Covers(i, Image, scanType))
  }

  /** An acceptance with an id, a name, a future expiry and the decision to accept, covering the finding. */
  ghost predicate Excuses(a: Acceptance, finding: int, now: int) {
    && a.id.Some? && a.name != "" && a.expiresAt.Some? && now < a.expiresAt.value
    && a.accepts && a.covers.Some? && finding in a.covers.value
  }

  /** The record the gate goes by stops a release: its Test, the last with its id, is about the candidate; it is
      open; its severity blocks or is unknown; and no acceptance excuses it. */
  ghost predicate Stops(f: Finding, i: Input)
    requires i.dojo.Available? && f.id.Some? && f.test.Some?
  {
    && (exists k: nat :: LastWith(i.dojo.tests, f.test.value, k) && AboutCandidate(i.dojo.tests[k].tags, i.candidate))
    && !f.falsePositive && !f.duplicate && !f.outOfScope && !f.mitigated
    && (!f.riskAccepted ==> f.active != Some(false) && (i.policy.verifiedOnly ==> f.verified != Some(false)))
    && (f.severity.Some? ==> f.severity.value in i.policy.blockingSeverities)
    && !(f.riskAccepted && exists a :: a in f.acceptances && Excuses(a, f.id.value, i.now))
  }

  /** The deployed digest of this environment, where one is known, was rescanned within two days, completely. */
  ghost predicate DeploymentRescanned(i: Input) {
    && i.evidence.deployedRescan.Some?
    && var e := i.evidence.deployedRescan.value;
       && e.environment == i.candidate.environment
       && (e.deployedDigest.Some? ==>
             && e.rescan.Some? && e.rescan.value.digest == e.deployedDigest.value
             && e.rescan.value.environment == i.candidate.environment
             && e.rescan.value.observedAt.Some? && i.now - e.rescan.value.observedAt.value <= 172_800_000
             && e.rescan.value.artifactAccepted && e.rescan.value.criticalFindings >= 0)
  }

  ghost predicate EvidenceHolds(i: Input) {
    && i.evidence.signature.Some? && i.evidence.signature.value.digest == i.candidate.digest
    && i.expectedIdentity.Some? && i.lowerCase(i.expectedIdentity.value) != ""
    && i.lowerCase(i.evidence.signature.value.certificateIdentity) == i.lowerCase(i.expectedIdentity.value)
    && (ImageScan in i.policy.requiredEvidence ==>
          && i.evidence.imageScan.Some? && i.evidence.imageScan.value.success
          && i.evidence.imageScan.value.criticalFindings == Some(0))
    && (Sbom in i.policy.requiredEvidence ==> i.evidence.sbomSuccess)
    && !(i.evidence.candidateRescan.Some? && i.evidence.candidateRescan.value.digest == i.candidate.digest
         && i.evidence.candidateRescan.value.frozen)
    && (DeployedRescan in i.policy.requiredEvidence ==> DeploymentRescanned(i))
  }

  /** When a release may proceed, in the fields of the input. */
  ghost predicate MayProceed(i: Input) {
    && EvidenceHolds(i) && i.dojo.Available?
    && (forall t :: t in i.dojo.tests ==> t.id.Some?)
    && (forall f :: f in i.dojo.findings + i.dojo.acceptedFindings ==> f.id.Some? && f.test.Some?)
    && ScansHold(i)
    && var all := i.dojo.findings + i.dojo.acceptedFindings;
       forall id, k: nat :: Preferred(all, id, k) ==> !Stops(all[k], i)
  }

  lemma ScopeMeans(tags: set<string>, c: Candidate)
    ensures FindingScope(tags, c) == InScope <==> AboutCandidate(tags, c)
    ensures FindingScope(tags, c) == OtherCommit <==> AboutOtherCommit(tags, c)
  {
    InScopeMeans(tags, c);
    if t :| t in tags && "guardianbot:env:" <= t {
      assert t in WithPrefix(tags, ENV_PREFIX);
    }
    if t :| t in tags && "guardianbot:image:" <= t {
      assert t in WithPrefix(tags, IMAGE_PREFIX);
    }
    assert forall t :: t in WithPrefix(tags, IMAGE_PREFIX) ==> t in tags && "guardianbot:image:" <= t;
    assert ENV_PREFIX <= ENV_PREFIX + c.environment;
  }

  lemma SourceMeans(tags: set<string>, source: Source)
    ensures FindingSource(tags) == source <==> OfSource(tags, source)
  {
  }

  lemma TestsMean(i: Input, source: Source, scanType: string)
    requires i.dojo.Available?
    ensures HasTest(i.dojo.tests, source, scanType, InScope, i.candidate) <==> Scanned(i, source, scanType)
    ensures HasTest(i.dojo.tests, source, scanType, OtherCommit, i.candidate) <==> ScannedElsewhere(i, source, scanType)
  {
    hide FindingScope, FindingSource, AboutCandidate, AboutOtherCommit, OfSource;
    forall t | t in i.dojo.tests
      ensures TestAt(t, source, scanType, InScope, i.candidate) <==>
              t.id.Some? && OfSource(t.tags, source) && t.scanType == scanType && AboutCandidate(t.tags, i.candidate)
      ensures TestAt(t, source, scanType, OtherCommit, i.candidate) <==>
              t.id.Some? && OfSource(t.tags, source) && t.scanType == scanType && AboutOtherCommit(t.tags, i.candidate)
    {
      ScopeMeans(t.tags, i.candidate);
      SourceMeans(t.tags, source);
    }
  }

  lemma CleanMeans(summary: Option<ScanSummary>, blocking: seq<Severity>)
    ensures Clean(summary, blocking) && summary.value.ref != "" <==> summary.Some? && CountsNothing(summary.value, blocking)
  {
    EveryValueListed();
  }

  lemma ProvenMeans(i: Input, source: Source, scanType: string)
    ensures Proven(source, scanType, i.evidence, i.candidate, i.policy) <==> StandsIn(i, source, scanType)
  {
    hide Clean, CountsNothing;
    if i.evidence.commitScan.Some? {
      CleanMeans(i.evidence.commitScan.value.semgrep, i.policy.blockingSeverities);
      CleanMeans(i.evidence.commitScan.value.trivy, i.policy.blockingSeverities);
    }
    NothingIsUnclean(i.policy.blockingSeverities);
  }

  lemma NothingIsUnclean(blocking: seq<Severity>)
    ensures !Clean(None, blocking)
  {
  }

  lemma ScansMean(i: Input)
    requires i.dojo.Available?
    ensures StaleScansProven(i) && SourceCovered(i, Sast) && SourceCovered(i, Image) <==> ScansHold(i)
  {
    hide HasTest, Scanned, ScannedElsewhere, Proven, StandsIn;
    forall source, scanType
      ensures HasTest(i.dojo.tests, source, scanType, InScope, i.candidate) <==> Scanned(i, source, scanType)
      ensures HasTest(i.dojo.tests, source, scanType, OtherCommit, i.candidate) <==> ScannedElsewhere(i, source, scanType)
      ensures Proven(source, scanType, i.evidence, i.candidate, i.policy) <==> StandsIn(i, source, scanType)
    {
      TestsMean(i, source, scanType);
      ProvenMeans(i, source, scanType);
    }
    CoverMeans(i, Sast);
    CoverMeans(i, Image);
  }

  lemma CoverMeans(i: Input, source: Source)
    requires i.dojo.Available?
    requires forall scanType :: HasTest(i.dojo.tests, source, scanType, InScope, i.candidate) <==> Scanned(i, source, scanType)
    requires forall scanType ::
               HasTest(i.dojo.tests, source, scanType, OtherCommit, i.candidate) <==> ScannedElsewhere(i, source, scanType)
    requires forall scanType ::
               Proven(source, scanType, i.evidence, i.candidate, i.policy) <==> StandsIn(i, source, scanType)
    ensures SourceCovered(i, source) <==> exists scanType :: Covers(i, source, scanType)
  {
    hide HasTest, Scanned, ScannedElsewhere, Proven, StandsIn;
    if scanType :| Covers(i, source, scanType) {
      assert Scanned(i, source, scanType) || StaleOnly(i.dojo.tests, source, scanType, i.candidate);
    }
    if scanType :| HasTest(i.dojo.tests, source, scanType, InScope, i.candidate) {
      assert Covers(i, source, scanType);
    }
    if scanType :| StaleOnly(i.dojo.tests, source, scanType, i.candidate)
                   && Proven(source, scanType, i.evidence, i.candidate, i.policy) {
      assert Covers(i, source, scanType);
    }
  }

  lemma NoTestOutOfScope(tests: seq<Test>, id: int, c: Candidate)
    requires !exists k: nat :: LastWith(tests, id, k)
    ensures FindingScope(TagsOf(tests, id), c) != InScope
  {
    forall t | t in tests ensures t.id != Some(id) {
      if t.id == Some(id) {
        var k: nat :| k < |tests| && tests[k] == t;
        var last := LastOne(tests, id, k);
      }
    }
    NoTagsWithoutTest(tests, id);
    assert "guardianbot:repo-id:" + c.repositoryId !in {};
  }

  lemma {:induction false} LastOne(tests: seq<Test>, id: int, k: nat) returns (last: nat)
    requires k < |tests| && tests[k].id == Some(id)
    ensures LastWith(tests, id, last)
    decreases |tests| - k
  {
    if j: nat :| k < j < |tests| && tests[j].id == Some(id) {
      last := LastOne(tests, id, j);
    } else {
      last := k;
    }
  }

  lemma BlocksMeans(f: Finding, i: Input)
    requires i.dojo.Available? && f.id.Some? && f.test.Some?
    ensures Blocks(f, i) <==> Stops(f, i)
  {
    hide FindingScope, AboutCandidate, TagsOf, LastWith;
    if exists k: nat :: LastWith(i.dojo.tests, f.test.value, k) {
      var k: nat :| LastWith(i.dojo.tests, f.test.value, k);
      TagsOfTheLast(i.dojo.tests, f.test.value, k);
      LastInRange(i.dojo.tests, f.test.value, k);
      ScopeMeans(i.dojo.tests[k].tags, i.candidate);
      forall j: nat | LastWith(i.dojo.tests, f.test.value, j) ensures j == k {
        OneLast(i.dojo.tests, f.test.value, j, k);
      }
    } else {
      NoTestOutOfScope(i.dojo.tests, f.test.value, i.candidate);
    }
    assert forall a :: a in f.acceptances ==> (ValidAcceptance(a, f.id.value, i.now) <==> Excuses(a, f.id.value, i.now));
  }

  lemma LastInRange(tests: seq<Test>, id: int, k: nat)
    requires LastWith(tests, id, k)
    ensures k < |tests|
  {
  }

  lemma OneLast(tests: seq<Test>, id: int, j: nat, k: nat)
    requires LastWith(tests, id, j) && LastWith(tests, id, k)
    ensures j == k
  {
  }

  /** The specification in the fields alone. */
  lemma GatePassesExactly(i: Input)
    ensures GatePasses(i) <==> MayProceed(i)
  {
    hide Blocks, Stops, ScansHold, StaleScansProven, SourceCovered, Preferred, Deduplicated;
    if i.dojo.Available? {
      ScansMean(i);
      if DojoWellFormed(i) {
        FindingsMean(i);
      }
    }
  }

  lemma FindingsMean(i: Input)
    requires i.dojo.Available? && DojoWellFormed(i)
    ensures var all := AllFindings(i);
            NoBlockingFinding(i) <==> forall id, k: nat :: Preferred(all, id, k) ==> !Stops(all[k], i)
  {
    hide Blocks, Stops, Deduplicated;
    var all := AllFindings(i);
    var kept := Deduplicated(all);
    forall id, k: nat | Preferred(all, id, k)
      ensures id in kept && kept[id] == all[k] && WellFormedFinding(all[k]) && (Blocks(all[k], i) <==> Stops(all[k], i))
    {
      DeduplicationPrefers(all, id);
      var m: nat :| Preferred(all, id, m) && all[m] == kept[id];
      BlocksMeans(all[k], i);
    }
    forall id | id in kept
      ensures exists k: nat :: Preferred(all, id, k) && all[k] == kept[id]
    {
      DeduplicationPrefers(all, id);
    }
  }
}
