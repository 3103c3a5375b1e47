/**
 The release-gate policy and the evidence it is evaluated on
 (apps/control-plane/src/release-gate-policy.ts:14-70, 253-454).

 Numbers the source requires to be safe integers and instants it parses are absent when
 they are not; tags are the trimmed, lower-cased sets the source builds.
 */
module ReleaseGatePolicy {
  import opened Wrappers

  datatype Severity = Critical | High | Medium | Low | Info

  datatype Requirement = Signature | ImageScan | Sbom | DeployedRescan

  const SEVERITIES: seq<Severity> := [Critical, High, Medium, Low, Info]
  const REQUIREMENTS: seq<Requirement> := [Signature, ImageScan, Sbom, DeployedRescan]

  datatype Policy = Policy(
    blockingSeverities: seq<Severity>, blockHigh: bool, verifiedOnly: bool, requiredEvidence: seq<Requirement>)

  const DEFAULT_POLICY: Policy := Policy([Critical], false, true, [Signature, ImageScan, Sbom])

  // ----- parsing

  function UniqueSorted<T(==,!new)>(values: seq<T>, order: seq<T>): (r: seq<T>)
    ensures forall v :: v in r <==> v in values && v in order
  {
    if order == [] then []
    else
      var init, last := UniqueSorted(values, order[..|order| - 1]), order[|order| - 1];
      assert order == order[..|order| - 1] + [last];
      if last in values then init + [last] else init
  }

  function SeverityRank(s: Severity): nat {
    match s
    case Critical => 0
    case High => 1
    case Medium => 2
    case Low => 3
    case Info => 4
  }

  function RequirementRank(e: Requirement): nat {
    match e
    case Signature => 0
    case ImageScan => 1
    case Sbom => 2
    case DeployedRescan => 3
  }

  ghost predicate Increasing<T>(s: seq<T>, rank: T -> nat) {
    forall i, j :: 0 <= i < j < |s| ==> rank(s[i]) < rank(s[j])
  }

  /** What the parser yields: each value at most once, in the fixed order. */
  ghost predicate Canonical(p: Policy) {
    Increasing(p.blockingSeverities, SeverityRank) && Increasing(p.requiredEvidence, RequirementRank)
  }

  /** A JSON list whose members are known values or not, and a JSON value that may be a boolean. */
  datatype RawList<T> = NotAList | ListOf(items: seq<Option<T>>)
  datatype RawFlag = NotAFlag | Flag(value: bool)

  datatype RawPolicy = RawPolicy(
    extraFields: bool,
    blockingSeverities: Option<RawList<Severity>>,
    blockHigh: Option<RawFlag>,
    verifiedOnly: Option<RawFlag>,
    requiredEvidence: Option<RawList<Requirement>>)

  function Known<T>(items: seq<Option<T>>): seq<T> {
    if items == [] then []
    else Known(items[..|items| - 1]) + (match items[|items| - 1] case Some(v) => [v] case None => [])
  }

  /** A list of known values that includes the mandatory one. */
  predicate Acceptable<T(==)>(raw: Option<RawList<T>>, mandatory: T) {
    raw.None? || (raw.value.ListOf? && None !in raw.value.items && Some(mandatory) in raw.value.items)
  }

  predicate AcceptableFlag(raw: Option<RawFlag>) {
    raw.None? || raw.value.Flag?
  }

  function FlagOr(raw: Option<RawFlag>, default: bool): bool
    requires AcceptableFlag(raw)
  {
    if raw.Some? then raw.value.value else default
  }

  lemma {:induction false} KnownKeeps<T>(items: seq<Option<T>>, v: T)
    ensures v in Known(items) <==> Some(v) in items
    decreases |items|
  {
    if items != [] {
      KnownKeeps(items[..|items| - 1], v);
      assert items == items[..|items| - 1] + [items[|items| - 1]];
    }
  }

  lemma {:induction false} UniqueSortedIncreasing<T(!new)>(values: seq<T>, order: seq<T>, rank: T -> nat)
    requires Increasing(order, rank)
    ensures Increasing(UniqueSorted(values, order), rank)
    decreases |order|
  {
    if order != [] {
      var init, last := order[..|order| - 1], order[|order| - 1];
      UniqueSortedIncreasing(values, init, rank);
      forall v | v in UniqueSorted(values, init) ensures rank(v) < rank(last) {
        var i :| 0 <= i < |init| && init[i] == v;
        assert order[i] == v;
      }
    }
  }

  ghost predicate SeveritiesOf(p: Policy, s: Severity, raw: RawPolicy)
    requires raw.blockingSeverities.Some? ==> raw.blockingSeverities.value.ListOf?
  {
    s in p.blockingSeverities <==>
    || (s == High && raw.blockHigh == Some(Flag(true)))
    || (if raw.blockingSeverities.Some? then Some(s) in raw.blockingSeverities.value.items else s == Critical)
  }

  /** A field that is no list, lists something unknown, or does not list the mandatory value. */
  ghost predicate ListRefused<T>(raw: Option<RawList<T>>, mandatory: T) {
    raw.Some? && (raw.value.NotAList? || None in raw.value.items || Some(mandatory) !in raw.value.items)
  }

  /** The parser rejects exactly the malformed documents; what it accepts is canonical, contains
      the mandatory Critical severity and signature, and adds what the document asks for. */
  method ParseReleaseGatePolicy(raw: Option<RawPolicy>) returns (policy: Option<Policy>)
    ensures policy.None? <==>
              raw.Some? && (raw.value.extraFields
                            || ListRefused(raw.value.blockingSeverities, Critical)
                            || raw.value.blockHigh == Some(NotAFlag) || raw.value.verifiedOnly == Some(NotAFlag)
                            || ListRefused(raw.value.requiredEvidence, Signature))
    ensures policy.Some? ==>
              && Canonical(policy.value)
              && Critical in policy.value.blockingSeverities && Signature in policy.value.requiredEvidence
              && (policy.value.blockHigh ==> High in policy.value.blockingSeverities)
    ensures policy.Some? && raw.None? ==> policy.value == DEFAULT_POLICY
    ensures policy.Some? && raw.Some? ==>
              && (forall s :: SeveritiesOf(policy.value, s, raw.value))
              && (policy.value.blockHigh <==> raw.value.blockHigh == Some(Flag(true)))
              && (policy.value.verifiedOnly <==> raw.value.verifiedOnly != Some(Flag(false)))
              && forall e :: e in policy.value.requiredEvidence <==>
                   if raw.value.requiredEvidence.Some? then Some(e) in raw.value.requiredEvidence.value.items
                   else e == Signature || e == ImageScan || e == Sbom
  {
    if raw.None? {
      return Some(DEFAULT_POLICY);
    }
    var document := raw.value;
    if document.extraFields || !Acceptable(document.blockingSeverities, Critical)
       || !AcceptableFlag(document.blockHigh) || !AcceptableFlag(document.verifiedOnly)
       || !Acceptable(document.requiredEvidence, Signature) {
      return None;
    }
    var blockHigh := FlagOr(document.blockHigh, DEFAULT_POLICY.blockHigh);
    var blocking := ParseSeverities(document.blockingSeverities, blockHigh);
    var required := ParseRequirements(document.requiredEvidence);
    return Some(Policy(blocking, blockHigh, FlagOr(document.verifiedOnly, DEFAULT_POLICY.verifiedOnly), required));
  }

  method ParseSeverities(raw: Option<RawList<Severity>>, blockHigh: bool) returns (blocking: seq<Severity>)
    requires Acceptable(raw, Critical)
    ensures Increasing(blocking, SeverityRank)
    ensures forall s :: s in blocking <==>
              (s == High && blockHigh) || (if raw.Some? then Some(s) in raw.value.items else s == Critical)
  {
    EveryValueListed();
    blocking := DEFAULT_POLICY.blockingSeverities;
    if raw.Some? {
      var values := Known(raw.value.items);
      forall s: Severity ensures s in values <==> Some(s) in raw.value.items {
        KnownKeeps(raw.value.items, s);
      }
      blocking := UniqueSorted(values, SEVERITIES);
      UniqueSortedIncreasing(values, SEVERITIES, SeverityRank);
    }
    if blockHigh && High !in blocking {
      UniqueSortedIncreasing(blocking + [High], SEVERITIES, SeverityRank);
      blocking := UniqueSorted(blocking + [High], SEVERITIES);
    }
  }

  method ParseRequirements(raw: Option<RawList<Requirement>>) returns (required: seq<Requirement>)
    requires Acceptable(raw, Signature)
    ensures Increasing(required, RequirementRank) && Signature in required
    ensures forall e :: e in required <==>
              if raw.Some? then Some(e) in raw.value.items else e == Signature || e == ImageScan || e == Sbom
  {
    EveryValueListed();
    required := DEFAULT_POLICY.requiredEvidence;
    if raw.Some? {
      var values := Known(raw.value.items);
      forall e: Requirement ensures e in values <==> Some(e) in raw.value.items {
        KnownKeeps(raw.value.items, e);
      }
      required := UniqueSorted(values, REQUIREMENTS);
      UniqueSortedIncreasing(values, REQUIREMENTS, RequirementRank);
    }
  }

  lemma EveryValueListed()
    ensures forall s: Severity :: s in SEVERITIES
    ensures forall e: Requirement :: e in REQUIREMENTS
  {
    forall s: Severity ensures s in SEVERITIES {
      match s
      case Critical => assert SEVERITIES[0] == s;
      case High => assert SEVERITIES[1] == s;
      case Medium => assert SEVERITIES[2] == s;
      case Low => assert SEVERITIES[3] == s;
      case Info => assert SEVERITIES[4] == s;
    }
    forall e: Requirement ensures e in REQUIREMENTS {
      match e
      case Signature => assert REQUIREMENTS[0] == e;
      case ImageScan => assert REQUIREMENTS[1] == e;
      case Sbom => assert REQUIREMENTS[2] == e;
      case DeployedRescan => assert REQUIREMENTS[3] == e;
    }
  }

  // ----- the candidate and its evidence

  datatype Candidate = Candidate(repositoryId: string, commit: string, digest: string, environment: string)

  datatype SignatureEvidence = SignatureEvidence(digest: string, certificateIdentity: string)
  datatype ImageScanEvidence = ImageScanEvidence(success: bool, criticalFindings: Option<int>, ref: string)
  datatype RescanResult = RescanResult(
    digest: string, environment: string, observedAt: Option<int>, criticalFindings: int,
    frozen: bool, artifactAccepted: bool)
  datatype RescanEvidence = RescanEvidence(environment: string, deployedDigest: Option<string>, rescan: Option<RescanResult>)
  datatype ScanSummary = ScanSummary(success: bool, severities: Option<map<Severity, int>>, ref: string)
  datatype CommitScan = CommitScan(commit: string, semgrep: Option<ScanSummary>, trivy: Option<ScanSummary>)

  datatype Evidence = Evidence(
    signature: Option<SignatureEvidence>,
    imageScan: Option<ImageScanEvidence>,
    sbomSuccess: bool,
    deployedRescan: Option<RescanEvidence>,
    candidateRescan: Option<RescanResult>,
    commitScan: Option<CommitScan>)

  // ----- scope and source

  datatype Scope = InScope | OtherRepository | OtherEnvironment | OtherDigest | OtherCommit
  datatype Source = Dast | Image | Sast | UnknownSource

  const ENV_PREFIX := "guardianbot:env:"
  const IMAGE_PREFIX := "guardianbot:image:"

  function WithPrefix(tags: set<string>, prefix: string): set<string> {
    set t | t in tags && prefix <= t
  }

  function FindingScope(tags: set<string>, c: Candidate): Scope {
    if "guardianbot:repo-id:" + c.repositoryId !in tags then OtherRepository
    else
      var envTags := WithPrefix(tags, ENV_PREFIX);
      if envTags != {} && ENV_PREFIX + c.environment !in envTags then OtherEnvironment
      else
        var imageTags := WithPrefix(tags, IMAGE_PREFIX);
        if imageTags != {} then
          if IMAGE_PREFIX + c.digest in imageTags then InScope else OtherDigest
        else if "guardianbot:commit:" + c.commit in tags then InScope
        else OtherCommit
  }

  function FindingSource(tags: set<string>): Source {
    if "guardianbot:profile:dast" in tags then Dast
    else if "guardianbot:profile:image" in tags then Image
    else if "guardianbot:profile:security" in tags then Sast
    else UnknownSource
  }

  /** In scope exactly when no repository, environment or digest tag contradicts the candidate, and
      its digest or, for an import without a digest, its commit is named. */
  lemma InScopeMeans(tags: set<string>, c: Candidate)
    ensures FindingScope(tags, c) == InScope <==>
            && "guardianbot:repo-id:" + c.repositoryId in tags
            && ((exists t :: t in tags && ENV_PREFIX <= t) ==> ENV_PREFIX + c.environment in tags)
            && (if exists t :: t in tags && IMAGE_PREFIX <= t then IMAGE_PREFIX + c.digest in tags
                else "guardianbot:commit:" + c.commit in tags)
  {
    assert ENV_PREFIX <= ENV_PREFIX + c.environment && IMAGE_PREFIX <= IMAGE_PREFIX + c.digest;
    if t :| t in tags && ENV_PREFIX <= t {
      assert t in WithPrefix(tags, ENV_PREFIX);
    }
    if t :| t in tags && IMAGE_PREFIX <= t {
      assert t in WithPrefix(tags, IMAGE_PREFIX);
    }
  }

  // ----- proof by the candidate commit's own scans

  /** Every count is a nonnegative number, and zero at each blocking severity. */
  predicate Clean(summary: Option<ScanSummary>, blocking: seq<Severity>) {
    && summary.Some? && summary.value.success && summary.value.severities.Some?
    && forall s :: s in SEVERITIES ==>
         s in summary.value.severities.value && summary.value.severities.value[s] >= 0
         && (s in blocking ==> summary.value.severities.value[s] == 0)
  }

  function CommitScanProof(source: Source, scanType: string, e: Evidence, c: Candidate, p: Policy): Option<string> {
    if source == Sast then
      if e.commitScan.None? || e.commitScan.value.commit != c.commit then None
      else
        var summary :=
          if scanType == "Semgrep JSON Report" then e.commitScan.value.semgrep
          else if scanType == "Trivy Scan" then e.commitScan.value.trivy
          else None;
        if Clean(summary, p.blockingSeverities) then Some(summary.value.ref) else None
    else if source == Image && scanType == "Trivy Scan" then
      if p.blockingSeverities == [Critical] && e.imageScan.Some? && e.imageScan.value.success
         && e.imageScan.value.criticalFindings == Some(0)
      then Some(e.imageScan.value.ref) else None
    else None
  }

  /** A proof counts only when it names the evidence it rests on. */
  predicate Proven(source: Source, scanType: string, e: Evidence, c: Candidate, p: Policy) {
    var proof := CommitScanProof(source, scanType, e, c, p);
    proof.Some? && proof.value != ""
  }
}
