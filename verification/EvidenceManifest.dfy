/**
 The evidence manifest and the text its digest is taken of
 (apps/control-plane/src/evidence-attestation.ts:121-177, 289-345).
 */
module EvidenceManifest {
  import opened Wrappers
  import opened Texts
  import opened Sorting
  import opened CanonicalJson
  import opened CanonicalIdentity

  const MAX_SAFE_INTEGER: int := 0x1f_ffff_ffff_ffff
  const MAX_FILES: nat := 16

  datatype ArtifactType = Security | ImageValidation | ImagePromotion | ImageRescan | Dast

  datatype ManifestFile = ManifestFile(path: Text, sha256: Text, size: int)

  datatype Manifest = Manifest(
    artifactType: ArtifactType, repository: Text, repositoryId: int, runId: int, runAttempt: int,
    headSha: Text, workflowPath: Text, workflowSha: Text, files: seq<ManifestFile>)

  predicate IsAscii(s: string) {
    forall i :: 0 <= i < |s| ==> s[i] as int < 128
  }

  /** The code units of an ASCII string. */
  function Ascii(s: string): (t: Text)
    ensures |t| == |s|
  {
    seq(|s|, i requires 0 <= i < |s| => if s[i] as int < 128 then s[i] as int else 63)
  }

  lemma AsciiInjective(s: string, t: string)
    requires IsAscii(s) && IsAscii(t) && s != t
    ensures Ascii(s) != Ascii(t)
  {
    if |s| == |t| {
      var i :| 0 <= i < |s| && s[i] != t[i];
      assert Ascii(s)[i] != Ascii(t)[i];
    }
  }

  function ArtifactName(a: ArtifactType): (s: string)
    ensures IsAscii(s)
  {
    match a
    case Security => "security"
    case ImageValidation => "image-validation"
    case ImagePromotion => "image-promotion"
    case ImageRescan => "image-rescan"
    case Dast => "dast"
  }

  // ----- the texts a manifest may hold

  /** toLowerCase, as far as the patterns below can see: of the other units only the Kelvin sign
      becomes an ASCII letter. */
  function LowerUnit(c: CodeUnit): CodeUnit {
    if 65 <= c <= 90 then c + 32 else if c == 0x212A then 107 else c
  }

  function Lower(s: Text): (r: Text)
    ensures |r| == |s|
  {
    seq(|s|, i requires 0 <= i < |s| => LowerUnit(s[i]))
  }

  predicate IsNameUnit(c: CodeUnit) {
    IsLetter(c) || IsDigit(c) || c == 46 || c == 95 || c == 45
  }

  predicate IsName(s: Text) {
    s != [] && forall i :: 0 <= i < |s| ==> IsNameUnit(s[i])
  }

  predicate IsLowerHex(s: Text, length: nat) {
    |s| == length && forall i :: 0 <= i < |s| ==> IsHexDigit(s[i])
  }

  predicate IsRepository(s: Text) {
    && IndexOf(s, SLASH) < |s|
    && IsName(s[..IndexOf(s, SLASH)]) && IsName(s[IndexOf(s, SLASH) + 1..])
    && forall i :: 0 <= i < |s| ==> !(65 <= s[i] <= 90)
  }

  function WorkflowFolder(): Text {
    Ascii(".github/workflows/")
  }

  predicate EndsWith(s: Text, suffix: Text) {
    |suffix| <= |s| && s[|s| - |suffix|..] == suffix
  }

  /** `.github/workflows/` and a file name that ends in `.yml` or `.yaml` after at least one character. */
  predicate IsWorkflowPath(s: Text) {
    var folder := WorkflowFolder();
    && folder <= s && IsName(s[|folder|..])
    && ((EndsWith(s, Ascii(".yml")) && |s| > |folder| + 4) || (EndsWith(s, Ascii(".yaml")) && |s| > |folder| + 5))
  }

  predicate IsPositiveSafe(n: int) {
    0 < n <= MAX_SAFE_INTEGER
  }

  // ----- reading the fields

  /** The value of a key; keys are distinct. */
  function Field(members: seq<Member>, key: Text): Option<Json> {
    if members == [] then None
    else if members[0].key == key then Some(members[0].value)
    else Field(members[1..], key)
  }

  function TextField(members: seq<Member>, key: Text): Option<Text> {
    match Field(members, key)
    case Some(Str(s)) => if s == [] then None else Some(s)
    case _ => None
  }

  function IntegerField(members: seq<Member>, key: Text): Option<int> {
    match Field(members, key)
    case Some(Num(n)) => if IsPositiveSafe(n) then Some(n) else None
    case _ => None
  }

  function RepositoryField(members: seq<Member>): Option<Text> {
    var s := TextField(members, Ascii("repository"));
    if s.None? then None
    else
      var r := Lower(Trim(s.value));
      if IsRepository(r) then Some(r) else None
  }

  function ShaField(members: seq<Member>, key: Text): Option<Text> {
    var s := TextField(members, key);
    if s.None? || !IsLowerHex(Lower(s.value), 40) then None else Some(Lower(s.value))
  }

  function ArtifactField(members: seq<Member>): Option<ArtifactType> {
    var s := Field(members, Ascii("artifactType"));
    if s == Some(Str(Ascii("security"))) then Some(Security)
    else if s == Some(Str(Ascii("image-validation"))) then Some(ImageValidation)
    else if s == Some(Str(Ascii("image-promotion"))) then Some(ImagePromotion)
    else if s == Some(Str(Ascii("image-rescan"))) then Some(ImageRescan)
    else if s == Some(Str(Ascii("dast"))) then Some(Dast)
    else None
  }

  function ParseFile(v: Json): Option<ManifestFile> {
    if !v.Obj? then None
    else
      var path, sha, size := TextField(v.members, Ascii("path")), TextField(v.members, Ascii("sha256")),
                             IntegerField(v.members, Ascii("size"));
      if path.Some? && IsName(path.value) && sha.Some? && IsLowerHex(sha.value, 64) && size.Some?
      then Some(ManifestFile(path.value, sha.value, size.value)) else None
  }

  function ParseFiles(items: seq<Json>): (files: Option<seq<ManifestFile>>)
    ensures files.Some? ==> |files.value| == |items|
    ensures files.Some? <==> forall k :: 0 <= k < |items| ==> ParseFile(items[k]).Some?
    ensures files.Some? ==> forall k :: 0 <= k < |items| ==> ParseFile(items[k]) == Some(files.value[k])
  {
    if items == [] then Some([])
    else
      var first, rest := ParseFile(items[0]), ParseFiles(items[1..]);
      assert rest.Some? <==> forall k :: 1 <= k < |items| ==> ParseFile(items[k]).Some? by {
        assert forall k :: 1 <= k < |items| ==> items[k] == items[1..][k - 1];
      }
      if first.Some? && rest.Some? then Some([first.value] + rest.value) else None
  }

  predicate PathAtMost(a: ManifestFile, b: ManifestFile) {
    AtMost(a.path, b.path)
  }

  predicate DistinctPaths(files: seq<ManifestFile>) {
    forall i, j :: 0 <= i < j < |files| ==> files[i].path != files[j].path
  }

  /** The list already has the order a sort by path gives it. */
  predicate InSortedOrder(files: seq<ManifestFile>) {
    var sorted := Sort(files, PathAtMost);
    forall k :: 0 <= k < |files| ==> files[k].path == sorted[k].path
  }

  function FilesField(members: seq<Member>): Option<seq<ManifestFile>> {
    match Field(members, Ascii("files"))
    case Some(Arr(items)) =>
      if |items| == 0 || |items| > MAX_FILES then None
      else
        var files := ParseFiles(items);
        if files.Some? && DistinctPaths(files.value) && InSortedOrder(files.value) then files else None
    case _ => None
  }

  function ParseEvidenceManifest(v: Json): Option<Manifest> {
    if !v.Obj? || Field(v.members, Ascii("schemaVersion")) != Some(Str(Ascii("1.0.0"))) then None
    else
      var m := v.members;
      var artifact, repository, files := ArtifactField(m), RepositoryField(m), FilesField(m);
      var repositoryId, runId := IntegerField(m, Ascii("repositoryId")), IntegerField(m, Ascii("runId"));
      var runAttempt, headSha := IntegerField(m, Ascii("runAttempt")), ShaField(m, Ascii("headSha"));
      var workflowPath, workflowSha := TextField(m, Ascii("workflowPath")), ShaField(m, Ascii("workflowSha"));
      if artifact.Some? && repository.Some? && files.Some? && repositoryId.Some? && runId.Some? && runAttempt.Some?
         && headSha.Some? && workflowPath.Some? && IsWorkflowPath(workflowPath.value) && workflowSha.Some?
      then Some(Manifest(artifact.value, repository.value, repositoryId.value, runId.value, runAttempt.value,
                         headSha.value, workflowPath.value, workflowSha.value, files.value))
      else None
  }

  // ----- what an accepted manifest is

  predicate ValidFile(f: ManifestFile) {
    IsName(f.path) && IsLowerHex(f.sha256, 64) && IsPositiveSafe(f.size)
  }

  /** One to sixteen valid files in strictly ascending order of path. */
  ghost predicate ValidFiles(files: seq<ManifestFile>) {
    && 1 <= |files| <= MAX_FILES
    && (forall k :: 0 <= k < |files| ==> ValidFile(files[k]))
    && (forall i, j :: 0 <= i < j < |files| ==> Less(files[i].path, files[j].path))
  }

  ghost predicate ValidManifest(m: Manifest) {
    && IsRepository(m.repository) && IsPositiveSafe(m.repositoryId) && IsPositiveSafe(m.runId)
    && IsPositiveSafe(m.runAttempt) && IsLowerHex(m.headSha, 40) && IsWorkflowPath(m.workflowPath)
    && IsLowerHex(m.workflowSha, 40) && ValidFiles(m.files)
  }

  /** Distinct paths in sorted order are exactly the strictly ascending ones. */
  lemma SortedMeansAscending(files: seq<ManifestFile>)
    ensures DistinctPaths(files) && InSortedOrder(files) <==>
            forall i, j :: 0 <= i < j < |files| ==> Less(files[i].path, files[j].path)
  {
    var sorted := Sort(files, PathAtMost);
    AtMostIsTotal();
    SortOrdered(files, PathAtMost);
    SortPermutes(files, PathAtMost);
    if DistinctPaths(files) && InSortedOrder(files) {
      forall i, j | 0 <= i < j < |files| ensures Less(files[i].path, files[j].path) {
        assert PathAtMost(sorted[i], sorted[j]);
        LessTotal(files[i].path, files[j].path);
      }
    }
    if forall i, j :: 0 <= i < j < |files| ==> Less(files[i].path, files[j].path) {
      AscendingIsSorted(files, sorted);
    }
  }

  lemma AscendingIsSorted(files: seq<ManifestFile>, sorted: seq<ManifestFile>)
    requires forall i, j :: 0 <= i < j < |files| ==> Less(files[i].path, files[j].path)
    requires TotalPreorder(PathAtMost) && Ordered(sorted, PathAtMost) && multiset(sorted) == multiset(files)
    ensures DistinctPaths(files) && sorted == files
  {
    forall i, j | 0 <= i < j < |files| ensures files[i].path != files[j].path && PathAtMost(files[i], files[j]) {
      LessIrreflexive(files[i].path);
      LessAsymmetric(files[i].path, files[j].path);
    }
    forall x, y | x in files && y in files && PathAtMost(x, y) && PathAtMost(y, x) ensures x == y {
      var i :| 0 <= i < |files| && files[i] == x;
      var j :| 0 <= j < |files| && files[j] == y;
    }
    OrderedArrangementUnique(files, sorted, PathAtMost);
  }

  lemma FilesAreValid(members: seq<Member>)
    ensures FilesField(members).Some? ==> ValidFiles(FilesField(members).value)
  {
    hide Sort, IsName, IsLowerHex, InSortedOrder, ParseFiles;
    if FilesField(members).Some? {
      var files := FilesField(members).value;
      SortedMeansAscending(files);
      var items := Field(members, Ascii("files")).value.items;
      forall k | 0 <= k < |files| ensures ValidFile(files[k]) {
        assert ParseFile(items[k]) == Some(files[k]);
      }
    }
  }

  lemma ParsedIsValid(v: Json)
    ensures ParseEvidenceManifest(v).Some? ==> ValidManifest(ParseEvidenceManifest(v).value)
  {
    hide Ascii, Field, IsRepository, IsWorkflowPath, IsLowerHex, FilesField, Lower, Trim;
    if ParseEvidenceManifest(v).Some? {
      FilesAreValid(v.members);
    }
  }

  // ----- which documents are accepted, and as what

  /** A nonempty text of letters, digits, dots, underscores and hyphens. */
  ghost predicate NameText(s: Text) {
    s != [] && forall k :: 0 <= k < |s| ==>
      48 <= s[k] <= 57 || 65 <= s[k] <= 90 || 97 <= s[k] <= 122 || s[k] in {45, 46, 95}
  }

  ghost predicate HexText(s: Text, length: nat) {
    |s| == length && forall k :: 0 <= k < |s| ==> 48 <= s[k] <= 57 || 97 <= s[k] <= 102
  }

  /** The text with its capital letters made small. */
  ghost predicate Lowers(s: Text, r: Text) {
    |r| == |s| && forall k :: 0 <= k < |s| ==>
      r[k] == if 65 <= s[k] <= 90 then s[k] + 32 else if s[k] == 0x212A then 107 else s[k]
  }

  /** An owner and a name around one slash, without capitals. */
  ghost predicate RepositoryText(s: Text) {
    && (exists owner, name :: NameText(owner) && NameText(name) && s == owner + [47] + name)
    && forall k :: 0 <= k < |s| ==> !(65 <= s[k] <= 90)
  }

  /** A file directly in the workflow folder with a YAML extension after a nonempty stem. */
  ghost predicate WorkflowText(s: Text) {
    exists stem :: NameText(stem)
      && (s == Ascii(".github/workflows/") + stem + Ascii(".yml") || s == Ascii(".github/workflows/") + stem + Ascii(".yaml"))
  }

  ghost predicate SafeNumber(n: int) {
    1 <= n <= 9_007_199_254_740_991
  }

  ghost predicate Has(members: seq<Member>, key: string, v: Json) {
    Member(Ascii(key), v) in members
  }

  /** The object reads as the file: name, digest and size under their keys, whatever else it holds. */
  ghost predicate ReadsAsFile(v: Json, f: ManifestFile) {
    && v.Obj?
    && Has(v.members, "path", Str(f.path)) && NameText(f.path)
    && Has(v.members, "sha256", Str(f.sha256)) && HexText(f.sha256, 64)
    && Has(v.members, "size", Num(f.size)) && SafeNumber(f.size)
  }

  ghost predicate ReadsAsFiles(v: Json, files: seq<ManifestFile>) {
    && v.Arr? && 1 <= |v.items| <= 16 && |files| == |v.items|
    && (forall k :: 0 <= k < |files| ==> ReadsAsFile(v.items[k], files[k]))
    && forall i, j :: 0 <= i < j < |files| ==> Precedes(files[i].path, files[j].path)
  }

  ghost predicate ReadsAsSha(members: seq<Member>, key: string, sha: Text) {
    exists s :: Has(members, key, Str(s)) && Lowers(s, sha) && HexText(sha, 40)
  }

  /** The document reads as the manifest: every field under its key and in its form, the repository trimmed and
      made small, the digests made small, the files in strictly ascending order of path. */
  ghost predicate ReadsAs(members: seq<Member>, m: Manifest) {
    && Has(members, "schemaVersion", Str(Ascii("1.0.0")))
    && Has(members, "artifactType", Str(Ascii(ArtifactName(m.artifactType))))
    && (exists s :: Has(members, "repository", Str(s)) && Lowers(Trim(s), m.repository)) && RepositoryText(m.repository)
    && Has(members, "repositoryId", Num(m.repositoryId)) && SafeNumber(m.repositoryId)
    && Has(members, "runId", Num(m.runId)) && SafeNumber(m.runId)
    && Has(members, "runAttempt", Num(m.runAttempt)) && SafeNumber(m.runAttempt)
    && ReadsAsSha(members, "headSha", m.headSha) && ReadsAsSha(members, "workflowSha", m.workflowSha)
    && Has(members, "workflowPath", Str(m.workflowPath)) && WorkflowText(m.workflowPath)
    && exists v :: Has(members, "files", v) && ReadsAsFiles(v, m.files)
  }

  lemma {:induction false} FieldMeans(members: seq<Member>, key: Text, v: Json)
    requires DistinctKeys(members)
    ensures Field(members, key) == Some(v) <==> Member(key, v) in members
    decreases |members|
  {
    if members != [] {
      var rest := members[1..];
      assert members == [members[0]] + rest;
      FieldMeans(rest, key, v);
      forall m | m in rest ensures m.key != members[0].key {
        var k :| 0 <= k < |rest| && rest[k] == m;
        assert members[k + 1] == m;
      }
    }
  }

  lemma NameMeans(s: Text)
    ensures IsName(s) <==> NameText(s)
  {
  }

  lemma HexMeans(s: Text, length: nat)
    ensures IsLowerHex(s, length) <==> HexText(s, length)
  {
  }

  lemma LowerMeans(s: Text, r: Text)
    ensures Lower(s) == r <==> Lowers(s, r)
  {
    if Lowers(s, r) {
      assert forall k :: 0 <= k < |s| ==> Lower(s)[k] == r[k];
    }
  }

  lemma RepositoryMeans(s: Text)
    ensures IsRepository(s) <==> RepositoryText(s)
  {
    hide IsNameUnit, IsName;
    var i := IndexOf(s, SLASH);
    if IsRepository(s) {
      NameMeans(s[..i]);
      NameMeans(s[i + 1..]);
      CutAt(s, i);
    }
    if owner, name :| NameText(owner) && NameText(name) && s == owner + [47] + name {
      NameMeans(owner);
      NameMeans(name);
      IndexOfFirst(owner, SLASH, name);
      assert s[..|owner|] == owner && s[|owner| + 1..] == name;
    }
  }

  /** A name between a folder and an extension. */
  lemma StemMeans(folder: Text, extension: Text, s: Text)
    requires NameText(extension)
    ensures folder <= s && NameText(s[|folder|..]) && EndsWith(s, extension) && |s| > |folder| + |extension|
            <==> exists stem :: NameText(stem) && s == folder + stem + extension
  {
    if folder <= s && NameText(s[|folder|..]) && EndsWith(s, extension) && |s| > |folder| + |extension| {
      var stem := s[|folder|..|s| - |extension|];
      assert forall k :: 0 <= k < |stem| ==> stem[k] == s[|folder|..][k];
      assert s == folder + stem + s[|s| - |extension|..];
    }
    if stem :| NameText(stem) && s == folder + stem + extension {
      assert s[|folder|..] == stem + extension && s[|s| - |extension|..] == extension;
      assert folder <= s;
    }
  }

  lemma WorkflowMeans(s: Text)
    ensures IsWorkflowPath(s) <==> WorkflowText(s)
  {
    hide NameText, IsName, EndsWith;
    var folder := WorkflowFolder();
    ExtensionsAreNames();
    if folder <= s {
      NameMeans(s[|folder|..]);
    }
    StemMeans(folder, Ascii(".yml"), s);
    StemMeans(folder, Ascii(".yaml"), s);
  }

  lemma ExtensionsAreNames()
    ensures NameText(Ascii(".yml")) && NameText(Ascii(".yaml"))
  {
  }

  lemma FileMeans(v: Json, f: ManifestFile)
    requires v.Obj? ==> DistinctKeys(v.members)
    ensures ParseFile(v) == Some(f) <==> ReadsAsFile(v, f)
  {
    hide Ascii, IsName, IsLowerHex, NameText, HexText;
    NameMeans(f.path);
    HexMeans(f.sha256, 64);
    NameText0();
    if v.Obj? {
      FieldMeans(v.members, Ascii("path"), Str(f.path));
      FieldMeans(v.members, Ascii("sha256"), Str(f.sha256));
      FieldMeans(v.members, Ascii("size"), Num(f.size));
    }
  }

  lemma NameText0()
    ensures !NameText([]) && !HexText([], 64) && !HexText([], 40)
  {
  }

  lemma FilesMean(members: seq<Member>, files: seq<ManifestFile>)
    requires DistinctKeys(members)
    requires forall v, k :: Has(members, "files", v) && v.Arr? && 0 <= k < |v.items| && v.items[k].Obj? ==>
               DistinctKeys(v.items[k].members)
    ensures FilesField(members) == Some(files) <==> exists v :: Has(members, "files", v) && ReadsAsFiles(v, files)
  {
    hide Ascii, Field, ParseFile, ReadsAsFile, InSortedOrder;
    forall v ensures Field(members, Ascii("files")) == Some(v) <==> Has(members, "files", v) {
      FieldMeans(members, Ascii("files"), v);
    }
    SortedMeansAscending(files);
    forall i, j | 0 <= i < j < |files|
      ensures Less(files[i].path, files[j].path) <==> Precedes(files[i].path, files[j].path)
    {
      LessMeans(files[i].path, files[j].path);
    }
    if v :| Has(members, "files", v) && v.Arr? {
      forall k | 0 <= k < |v.items| && k < |files| ensures ParseFile(v.items[k]) == Some(files[k]) <==> ReadsAsFile(v.items[k], files[k]) {
        FileMeans(v.items[k], files[k]);
      }
      if ReadsAsFiles(v, files) {
        assert ParseFiles(v.items).value == files;
      }
    }
  }

  lemma RepositoryFieldMeans(members: seq<Member>, r: Text)
    requires DistinctKeys(members)
    ensures RepositoryField(members) == Some(r) <==>
            (exists s :: Has(members, "repository", Str(s)) && Lowers(Trim(s), r)) && RepositoryText(r)
  {
    hide Ascii, Field, IsRepository, RepositoryText, Lower, Lowers, Trim;
    RepositoryMeans(r);
    forall s ensures Field(members, Ascii("repository")) == Some(Str(s)) <==> Has(members, "repository", Str(s)) {
      FieldMeans(members, Ascii("repository"), Str(s));
    }
    forall s ensures Lower(Trim(s)) == r <==> Lowers(Trim(s), r) {
      LowerMeans(Trim(s), r);
    }
    EmptyIsNoRepository();
  }

  lemma EmptyIsNoRepository()
    ensures Lower(Trim([])) == [] && !IsRepository([])
  {
  }

  lemma ShaFieldMeans(members: seq<Member>, key: string, sha: Text)
    requires DistinctKeys(members)
    ensures ShaField(members, Ascii(key)) == Some(sha) <==> ReadsAsSha(members, key, sha)
  {
    hide Ascii, Field, IsLowerHex, Lower, Lowers, HexText;
    forall s ensures Field(members, Ascii(key)) == Some(Str(s)) <==> Has(members, key, Str(s)) {
      FieldMeans(members, Ascii(key), Str(s));
    }
    forall s ensures Lower(s) == sha <==> Lowers(s, sha) {
      LowerMeans(s, sha);
    }
    HexMeans(sha, 40);
    EmptyIsNoSha();
  }

  lemma EmptyIsNoSha()
    ensures Lower([]) == [] && !IsLowerHex([], 40)
  {
  }

  lemma ArtifactFieldMeans(members: seq<Member>, a: ArtifactType)
    requires DistinctKeys(members)
    ensures ArtifactField(members) == Some(a) <==> Has(members, "artifactType", Str(Ascii(ArtifactName(a))))
  {
    hide Ascii, Field;
    ArtifactNamesDiffer();
    FieldMeans(members, Ascii("artifactType"), Str(Ascii(ArtifactName(a))));
  }

  lemma NumberFieldMeans(members: seq<Member>, key: string, n: int)
    requires DistinctKeys(members)
    ensures IntegerField(members, Ascii(key)) == Some(n) <==> Has(members, key, Num(n)) && SafeNumber(n)
  {
    hide Ascii, Field;
    FieldMeans(members, Ascii(key), Num(n));
  }

  lemma PathFieldMeans(members: seq<Member>, path: Text)
    requires DistinctKeys(members)
    ensures TextField(members, Ascii("workflowPath")) == Some(path) && IsWorkflowPath(path) <==>
            Has(members, "workflowPath", Str(path)) && WorkflowText(path)
  {
    hide Ascii, Field, IsWorkflowPath, WorkflowText;
    FieldMeans(members, Ascii("workflowPath"), Str(path));
    WorkflowMeans(path);
    EmptyIsNoPath();
  }

  lemma EmptyIsNoPath()
    ensures !IsWorkflowPath([])
  {
  }

  /** The parser accepts exactly the documents that read as a manifest, as that manifest. */
  lemma ParsesExactly(v: Json, m: Manifest)
    requires WellFormed(v)
    ensures ParseEvidenceManifest(v) == Some(m) <==> v.Obj? && ReadsAs(v.members, m)
  {
    hide Ascii, Field, IsWorkflowPath, ArtifactField, RepositoryField, FilesField, ShaField, IntegerField, TextField,
         Has, ReadsAsSha, ReadsAsFiles, RepositoryText, WorkflowText, Lowers, Trim, WellFormed;
    if v.Obj? {
      var members := v.members;
      ObjectFieldsWellFormed(v);
      SchemaFieldMeans(members);
      ArtifactFieldMeans(members, m.artifactType);
      RepositoryFieldMeans(members, m.repository);
      NumberFieldMeans(members, "repositoryId", m.repositoryId);
      NumberFieldMeans(members, "runId", m.runId);
      NumberFieldMeans(members, "runAttempt", m.runAttempt);
      ShaFieldMeans(members, "headSha", m.headSha);
      ShaFieldMeans(members, "workflowSha", m.workflowSha);
      PathFieldMeans(members, m.workflowPath);
      FilesMean(members, m.files);
    }
  }

  lemma SchemaFieldMeans(members: seq<Member>)
    requires DistinctKeys(members)
    ensures Field(members, Ascii("schemaVersion")) == Some(Str(Ascii("1.0.0"))) <==>
            Has(members, "schemaVersion", Str(Ascii("1.0.0")))
  {
    hide Ascii, Field;
    FieldMeans(members, Ascii("schemaVersion"), Str(Ascii("1.0.0")));
  }

  lemma ObjectFieldsWellFormed(v: Json)
    requires v.Obj? && WellFormed(v)
    ensures DistinctKeys(v.members)
    ensures forall w, k :: Has(v.members, "files", w) && w.Arr? && 0 <= k < |w.items| && w.items[k].Obj? ==>
              DistinctKeys(w.items[k].members)
  {
    forall w, k | Has(v.members, "files", w) && w.Arr? && 0 <= k < |w.items| && w.items[k].Obj?
      ensures DistinctKeys(w.items[k].members)
    {
      var i :| 0 <= i < |v.members| && v.members[i] == Member(Ascii("files"), w);
      assert WellFormed(v.members[i].value);
      assert WellFormed(w.items[k]);
    }
  }

  // ----- the manifest as a JSON value again

  const FILE_KEYS: seq<string> := ["path", "sha256", "size"]
  const MANIFEST_KEYS: seq<string> := [
    "schemaVersion", "artifactType", "repository", "repositoryId", "runId", "runAttempt",
    "headSha", "workflowPath", "workflowSha", "files"]

  function FileJson(f: ManifestFile): Json {
    Obj([Member(Ascii("path"), Str(f.path)), Member(Ascii("sha256"), Str(f.sha256)), Member(Ascii("size"), Num(f.size))])
  }

  function FilesJson(files: seq<ManifestFile>): (items: seq<Json>)
    ensures |items| == |files|
    ensures forall k :: 0 <= k < |files| ==> items[k] == FileJson(files[k])
  {
    seq(|files|, k requires 0 <= k < |files| => FileJson(files[k]))
  }

  function ManifestJson(m: Manifest): Json {
    Obj([
      Member(Ascii("schemaVersion"), Str(Ascii("1.0.0"))),
      Member(Ascii("artifactType"), Str(Ascii(ArtifactName(m.artifactType)))),
      Member(Ascii("repository"), Str(m.repository)),
      Member(Ascii("repositoryId"), Num(m.repositoryId)),
      Member(Ascii("runId"), Num(m.runId)),
      Member(Ascii("runAttempt"), Num(m.runAttempt)),
      Member(Ascii("headSha"), Str(m.headSha)),
      Member(Ascii("workflowPath"), Str(m.workflowPath)),
      Member(Ascii("workflowSha"), Str(m.workflowSha)),
      Member(Ascii("files"), Arr(FilesJson(m.files)))])
  }

  ghost predicate KeyedBy(members: seq<Member>, keys: seq<string>) {
    && |members| == |keys|
    && forall k :: 0 <= k < |keys| ==> IsAscii(keys[k]) && members[k].key == Ascii(keys[k])
  }

  lemma KeysDistinct(members: seq<Member>, keys: seq<string>)
    requires KeyedBy(members, keys) && forall i, j :: 0 <= i < j < |keys| ==> keys[i] != keys[j]
    ensures DistinctKeys(members)
  {
    forall i, j | 0 <= i < j < |members| ensures members[i].key != members[j].key {
      AsciiInjective(keys[i], keys[j]);
    }
  }

  lemma ManifestKeysDiffer()
    ensures forall i, j :: 0 <= i < j < |MANIFEST_KEYS| ==> MANIFEST_KEYS[i] != MANIFEST_KEYS[j]
  {
    forall i, j | 0 <= i < j < |MANIFEST_KEYS| ensures MANIFEST_KEYS[i] != MANIFEST_KEYS[j] {
      assert |MANIFEST_KEYS[i]| == |MANIFEST_KEYS[j]| ==>
          MANIFEST_KEYS[i][0] != MANIFEST_KEYS[j][0] || MANIFEST_KEYS[i][1] != MANIFEST_KEYS[j][1];
    }
  }

  lemma ManifestKeyed(m: Manifest)
    ensures KeyedBy(ManifestJson(m).members, MANIFEST_KEYS)
  {
    hide Ascii;
  }

  lemma ManifestKeys(m: Manifest)
    ensures KeyedBy(ManifestJson(m).members, MANIFEST_KEYS) && DistinctKeys(ManifestJson(m).members)
  {
    hide Ascii, KeyedBy, DistinctKeys;
    ManifestKeyed(m);
    ManifestKeysDiffer();
    KeysDistinct(ManifestJson(m).members, MANIFEST_KEYS);
  }

  lemma FileKeys(f: ManifestFile)
    ensures KeyedBy(FileJson(f).members, FILE_KEYS) && DistinctKeys(FileJson(f).members)
  {
    hide Ascii;
    assert |FILE_KEYS[0]| == |FILE_KEYS[2]| && FILE_KEYS[0][0] != FILE_KEYS[2][0];
    KeysDistinct(FileJson(f).members, FILE_KEYS);
  }

  lemma ManifestWellFormed(m: Manifest)
    ensures WellFormed(ManifestJson(m))
  {
    hide Ascii;
    ManifestKeys(m);
    forall k | 0 <= k < |m.files| ensures WellFormed(FilesJson(m.files)[k]) {
      FileKeys(m.files[k]);
    }
  }

  // ----- a parsed manifest parses to itself

  lemma {:induction false} FieldAt(members: seq<Member>, k: nat)
    requires DistinctKeys(members) && k < |members|
    ensures Field(members, members[k].key) == Some(members[k].value)
    decreases k
  {
    if k > 0 {
      FieldAt(members[1..], k - 1);
    }
  }

  lemma NoWhitespaceTrims(s: Text)
    requires forall i :: 0 <= i < |s| ==> !IsWhitespace(s[i])
    ensures Trim(s) == s
  {
  }

  lemma LowerKeeps(s: Text)
    requires forall i :: 0 <= i < |s| ==> LowerUnit(s[i]) == s[i]
    ensures Lower(s) == s
  {
  }

  lemma RepositoryIsNormal(s: Text)
    requires IsRepository(s)
    ensures Lower(Trim(s)) == s && s != []
  {
    var j := IndexOf(s, SLASH);
    forall i | 0 <= i < |s| ensures !IsWhitespace(s[i]) && LowerUnit(s[i]) == s[i] {
      assert i < j ==> s[..j][i] == s[i];
      assert i > j ==> s[j + 1..][i - j - 1] == s[i];
      assert i == j || IsNameUnit(s[i]);
    }
    NoWhitespaceTrims(s);
    LowerKeeps(s);
  }

  lemma FileReparses(f: ManifestFile)
    requires ValidFile(f)
    ensures ParseFile(FileJson(f)) == Some(f)
  {
    hide Ascii, Field, IsName, IsLowerHex;
    var members := FileJson(f).members;
    FileKeys(f);
    FieldAt(members, 0);
    FieldAt(members, 1);
    FieldAt(members, 2);
    assert f.path != [] by { NameNotEmpty(f.path); }
    assert f.sha256 != [] by { HexNotEmpty(f.sha256, 64); }
  }

  lemma NameNotEmpty(s: Text)
    requires IsName(s)
    ensures s != []
  {
  }

  lemma HexNotEmpty(s: Text, length: nat)
    requires IsLowerHex(s, length) && length > 0
    ensures s != [] && Lower(s) == s
  {
    LowerKeeps(s);
  }

  lemma FilesReparse(files: seq<ManifestFile>)
    requires ValidFiles(files)
    ensures ParseFiles(FilesJson(files)) == Some(files)
  {
    hide Ascii, Field, ValidFile, ParseFile, FileJson;
    var items := FilesJson(files);
    forall k | 0 <= k < |items| ensures ParseFile(items[k]) == Some(files[k]) {
      FileReparses(files[k]);
    }
    assert ParseFiles(items).value == files;
  }

  lemma FilesFieldReparses(m: Manifest)
    requires ValidManifest(m)
    ensures FilesField(ManifestJson(m).members) == Some(m.files)
  {
    hide Ascii, Field, ParseFiles, IsRepository, IsLowerHex, IsWorkflowPath, InSortedOrder;
    var members := ManifestJson(m).members;
    ManifestKeys(m);
    FieldAt(members, 9);
    FilesReparse(m.files);
    SortedMeansAscending(m.files);
  }

  lemma ArtifactReparses(m: Manifest)
    ensures ArtifactField(ManifestJson(m).members) == Some(m.artifactType)
  {
    hide Ascii, Field;
    ManifestKeys(m);
    FieldAt(ManifestJson(m).members, 1);
    ArtifactNamesDiffer();
  }

  lemma ArtifactNamesDiffer()
    ensures forall a: ArtifactType, b: ArtifactType :: a != b ==> Ascii(ArtifactName(a)) != Ascii(ArtifactName(b))
  {
    forall a: ArtifactType, b: ArtifactType | a != b ensures Ascii(ArtifactName(a)) != Ascii(ArtifactName(b)) {
      assert |ArtifactName(a)| != |ArtifactName(b)|;
      AsciiInjective(ArtifactName(a), ArtifactName(b));
    }
  }

  lemma IdentifiersReparse(m: Manifest)
    requires ValidManifest(m)
    ensures var members := ManifestJson(m).members;
            && Field(members, Ascii("schemaVersion")) == Some(Str(Ascii("1.0.0")))
            && RepositoryField(members) == Some(m.repository)
            && IntegerField(members, Ascii("repositoryId")) == Some(m.repositoryId)
            && IntegerField(members, Ascii("runId")) == Some(m.runId)
            && IntegerField(members, Ascii("runAttempt")) == Some(m.runAttempt)
  {
    hide Ascii, Field, IsRepository, IsLowerHex, IsWorkflowPath, Lower, Trim, ValidFiles;
    var members := ManifestJson(m).members;
    ManifestKeys(m);
    RepositoryIsNormal(m.repository);
    FieldAt(members, 0);
    FieldAt(members, 2);
    FieldAt(members, 3);
    FieldAt(members, 4);
    FieldAt(members, 5);
  }

  lemma WorkflowReparses(m: Manifest)
    requires ValidManifest(m)
    ensures var members := ManifestJson(m).members;
            && ShaField(members, Ascii("headSha")) == Some(m.headSha)
            && TextField(members, Ascii("workflowPath")) == Some(m.workflowPath)
            && ShaField(members, Ascii("workflowSha")) == Some(m.workflowSha)
  {
    hide Ascii, Field, IsRepository, IsLowerHex, Lower, ValidFiles;
    var members := ManifestJson(m).members;
    ManifestKeys(m);
    HexNotEmpty(m.headSha, 40);
    HexNotEmpty(m.workflowSha, 40);
    FieldAt(members, 6);
    FieldAt(members, 7);
    FieldAt(members, 8);
    assert m.workflowPath != [];
  }

  /** The parser accepts its own output unchanged: exactly the valid manifests are its fixed points. */
  lemma ParseIsIdempotent(m: Manifest)
    ensures ParseEvidenceManifest(ManifestJson(m)) == Some(m) <==> ValidManifest(m)
  {
    hide Ascii, Field, IsRepository, IsLowerHex, IsWorkflowPath, RepositoryField, IntegerField, ShaField, TextField,
         FilesField, ArtifactField, ValidFiles;
    ParsedIsValid(ManifestJson(m));
    if ValidManifest(m) {
      FilesFieldReparses(m);
      ArtifactReparses(m);
      IdentifiersReparse(m);
      WorkflowReparses(m);
    }
  }

  // ----- the digest's text names one manifest

  lemma SameAt(x: Json, y: Json, keys: seq<string>, k: nat)
    requires x.Obj? && y.Obj? && KeyedBy(x.members, keys) && KeyedBy(y.members, keys)
    requires DistinctKeys(y.members) && k < |keys| && Same(x, y)
    ensures Same(x.members[k].value, y.members[k].value)
  {
    assert Matches(x.members[k], y.members);
    var j :| 0 <= j < |y.members| && x.members[k].key == y.members[j].key && Same(x.members[k].value, y.members[j].value);
    assert j == k;
  }

  lemma SameFile(f: ManifestFile, g: ManifestFile)
    requires Same(FileJson(f), FileJson(g))
    ensures f == g
  {
    hide Ascii;
    FileKeys(f);
    FileKeys(g);
    SameAt(FileJson(f), FileJson(g), FILE_KEYS, 0);
    SameAt(FileJson(f), FileJson(g), FILE_KEYS, 1);
    SameAt(FileJson(f), FileJson(g), FILE_KEYS, 2);
  }

  lemma SameFiles(a: seq<ManifestFile>, b: seq<ManifestFile>)
    requires Same(Arr(FilesJson(a)), Arr(FilesJson(b)))
    ensures a == b
  {
    hide FileJson;
    var s, t := FilesJson(a), FilesJson(b);
    forall k | 0 <= k < |a| ensures a[k] == b[k] {
      assert Same(s[k], t[k]);
      SameFile(a[k], b[k]);
    }
  }

  lemma SameManifest(a: Manifest, b: Manifest)
    requires Same(ManifestJson(a), ManifestJson(b))
    ensures a == b
  {
    hide Ascii, Same, FilesJson;
    var x, y := ManifestJson(a), ManifestJson(b);
    ManifestKeys(a);
    ManifestKeys(b);
    forall k | 0 <= k < 9 ensures x.members[k].value == y.members[k].value {
      SameAt(x, y, MANIFEST_KEYS, k);
      ScalarsSame(x.members[k].value, y.members[k].value);
    }
    SameAt(x, y, MANIFEST_KEYS, 9);
    SameFiles(a.files, b.files);
    assert x.members[1].value == y.members[1].value && x.members[2].value == y.members[2].value;
    assert x.members[3].value == y.members[3].value && x.members[4].value == y.members[4].value;
    assert x.members[5].value == y.members[5].value && x.members[6].value == y.members[6].value;
    assert x.members[7].value == y.members[7].value && x.members[8].value == y.members[8].value;
    ArtifactNamesDiffer();
  }

  lemma ScalarsSame(x: Json, y: Json)
    requires Same(x, y) && (x.Str? || x.Num?)
    ensures x == y
  {
  }

  // ----- the digest's text, spelled out

  function Keyed(key: string, value: Text): Text {
    Entry(Ascii(key), value)
  }

  /** A file's text: its path, its digest and its size. */
  function FileText(f: ManifestFile): Text {
    [123] + Join([Keyed("path", Quote(f.path)), Keyed("sha256", Quote(f.sha256)), Keyed("size", Number(f.size))], 44) + [125]
  }

  function FileTexts(files: seq<ManifestFile>): seq<Text> {
    seq(|files|, k requires 0 <= k < |files| => FileText(files[k]))
  }

  function FirstTexts(m: Manifest): seq<Text> {
    [Keyed("artifactType", Quote(Ascii(ArtifactName(m.artifactType)))),
     Keyed("files", [91] + Join(FileTexts(m.files), 44) + [93]),
     Keyed("headSha", Quote(m.headSha)),
     Keyed("repository", Quote(m.repository)),
     Keyed("repositoryId", Number(m.repositoryId))]
  }

  function LastTexts(m: Manifest): seq<Text> {
    [Keyed("runAttempt", Number(m.runAttempt)),
     Keyed("runId", Number(m.runId)),
     Keyed("schemaVersion", Quote(Ascii("1.0.0"))),
     Keyed("workflowPath", Quote(m.workflowPath)),
     Keyed("workflowSha", Quote(m.workflowSha))]
  }

  /** The manifest's text: its ten keys in the order of their code units. */
  function ManifestTexts(m: Manifest): seq<Text> {
    FirstTexts(m) + LastTexts(m)
  }

  const PRINTED_KEYS: seq<string> := [
    "artifactType", "files", "headSha", "repository", "repositoryId", "runAttempt", "runId",
    "schemaVersion", "workflowPath", "workflowSha"]

  /** Where each key first differs from the next. */
  const DIFFERENCES: seq<nat> := [0, 0, 0, 10, 1, 3, 0, 0, 8]

  ghost predicate KeyBefore(s: string, t: string, k: nat) {
    && k <= |s| && k < |t| && s[..k] == t[..k]
    && (k == |s| || s[k] < t[k])
  }

  lemma AsciiPrecedes(s: string, t: string, k: nat)
    requires IsAscii(s) && IsAscii(t) && KeyBefore(s, t, k)
    ensures Precedes(Ascii(s), Ascii(t))
  {
    var a, b := Ascii(s), Ascii(t);
    assert a[..k] == b[..k] by {
      forall j | 0 <= j < k ensures a[j] == b[j] {
        assert s[..k][j] == t[..k][j];
      }
    }
    assert PrecedesAt(a, b, k);
  }

  lemma PrintedKeysDiffer()
    ensures forall i :: 0 <= i < 9 ==> KeyBefore(PRINTED_KEYS[i], PRINTED_KEYS[i + 1], DIFFERENCES[i])
  {
    assert "repository"[..10] == "repositoryId"[..10];
    assert "run"  == "runAttempt"[..3] == "runId"[..3];
    assert "workflow" == "workflowPath"[..8] == "workflowSha"[..8];
    assert "r" == "repositoryId"[..1] == "runAttempt"[..1];
    forall i | 0 <= i < 9 ensures KeyBefore(PRINTED_KEYS[i], PRINTED_KEYS[i + 1], DIFFERENCES[i]) {
    }
  }

  lemma {:induction false} PrintedKeysOrdered(i: nat, j: nat)
    requires i < j < 10
    ensures IsAscii(PRINTED_KEYS[i]) && IsAscii(PRINTED_KEYS[j])
    ensures Precedes(Ascii(PRINTED_KEYS[i]), Ascii(PRINTED_KEYS[j]))
    decreases j
  {
    hide Ascii, Precedes;
    PrintedKeysDiffer();
    assert forall k :: 0 <= k < 10 ==> IsAscii(PRINTED_KEYS[k]);
    AsciiPrecedes(PRINTED_KEYS[j - 1], PRINTED_KEYS[j], DIFFERENCES[j - 1]);
    if i < j - 1 {
      PrintedKeysOrdered(i, j - 1);
      var a, b, c := Ascii(PRINTED_KEYS[i]), Ascii(PRINTED_KEYS[j - 1]), Ascii(PRINTED_KEYS[j]);
      LessMeans(a, b);
      LessMeans(b, c);
      LessMeans(a, c);
      LessTransitive(a, b, c);
    }
  }

  lemma FileKeysOrdered()
    ensures Precedes(Ascii("path"), Ascii("sha256")) && Precedes(Ascii("path"), Ascii("size"))
    ensures Precedes(Ascii("sha256"), Ascii("size"))
  {
    assert "s" == "sha256"[..1] == "size"[..1];
    AsciiPrecedes("path", "sha256", 0);
    AsciiPrecedes("path", "size", 0);
    AsciiPrecedes("sha256", "size", 1);
  }

  lemma FileSpelled(f: ManifestFile)
    ensures Canonical(FileJson(f)) == FileText(f)
  {
    hide Ascii, Precedes, Quote, Join, Number;
    FileKeysOrdered();
    var v := FileJson(f);
    var texts := [Keyed("path", Quote(f.path)), Keyed("sha256", Quote(f.sha256)), Keyed("size", Number(f.size))];
    FileKeys(f);
    OrderedObjectText(v, v.members, texts);
  }

  lemma FilesSpelled(files: seq<ManifestFile>)
    ensures Canonical(Arr(FilesJson(files))) == [91] + Join(FileTexts(files), 44) + [93]
  {
    hide Canonical, FileText, FileJson;
    var texts := ListText(Arr(FilesJson(files)));
    forall k | 0 <= k < |files| ensures texts[k] == FileTexts(files)[k] {
      FileSpelled(files[k]);
    }
    assert texts == FileTexts(files);
  }

  /** The members of a manifest in the order they are printed. */
  function PrintedMembers(m: Manifest): seq<Member> {
    var s := ManifestJson(m).members;
    [s[1], s[9], s[6], s[2], s[3], s[5], s[4], s[0], s[7], s[8]]
  }

  lemma PrintedMembersAreAll(m: Manifest)
    ensures forall x :: x in PrintedMembers(m) <==> x in ManifestJson(m).members
  {
    hide Ascii;
    var s, t := ManifestJson(m).members, PrintedMembers(m);
    assert s == [t[7], t[0], t[3], t[4], t[6], t[5], t[2], t[8], t[9], t[1]];
  }

  /** Where each printed key stands in the manifest as parsed. */
  const PLACES: seq<nat> := [1, 9, 6, 2, 3, 5, 4, 0, 7, 8]

  lemma PrintedKeysPlaced()
    ensures forall k :: 0 <= k < 10 ==> PRINTED_KEYS[k] == MANIFEST_KEYS[PLACES[k]]
  {
  }

  lemma PrintedMembersPlaced(m: Manifest)
    ensures forall k :: 0 <= k < 10 ==> PrintedMembers(m)[k] == ManifestJson(m).members[PLACES[k]]
  {
    hide ManifestJson;
    ManifestKeys(m);
  }

  lemma PrintedMembersKeyed(m: Manifest)
    ensures forall k :: 0 <= k < 10 ==> PrintedMembers(m)[k].key == Ascii(PRINTED_KEYS[k])
  {
    hide Ascii, PrintedMembers, ManifestJson;
    ManifestKeys(m);
    TenMembers(m);
    PrintedKeysPlaced();
    PrintedMembersPlaced(m);
    forall k | 0 <= k < 10 ensures PrintedMembers(m)[k].key == Ascii(PRINTED_KEYS[k]) {
      assert 0 <= PLACES[k] < 10;
    }
  }

  lemma PrintedInOrder(m: Manifest)
    ensures var members := PrintedMembers(m);
            forall i, j :: 0 <= i < j < |members| ==> Precedes(members[i].key, members[j].key)
  {
    hide Ascii, Precedes, PrintedMembers;
    var members := PrintedMembers(m);
    PrintedMembersKeyed(m);
    assert |members| == 10 by { TenMembers(m); }
    forall i, j | 0 <= i < j < |members| ensures Precedes(members[i].key, members[j].key) {
      PrintedKeysOrdered(i, j);
    }
  }

  lemma TenMembers(m: Manifest)
    ensures |PrintedMembers(m)| == 10
  {
  }

  /** The digest is taken of exactly this text. */
  lemma ManifestSpelled(m: Manifest)
    ensures Canonical(ManifestJson(m)) == [123] + Join(ManifestTexts(m), 44) + [125]
  {
    hide Ascii, Precedes, Quote, Join, Number, FilesJson, FileTexts, PrintedMembers, FirstTexts, LastTexts, Canonical, Entry;
    PrintedMembersAreAll(m);
    ManifestKeys(m);
    PrintedInOrder(m);
    TenMembers(m);
    FirstSpelled(m);
    LastSpelled(m);
    assert ManifestJson(m).Obj?;
    assert |ManifestTexts(m)| == 10;
    OrderedObjectText(ManifestJson(m), PrintedMembers(m), ManifestTexts(m));
  }

  lemma FirstSpelled(m: Manifest)
    ensures |FirstTexts(m)| == 5
    ensures forall k :: 0 <= k < 5 ==>
              FirstTexts(m)[k] == Entry(PrintedMembers(m)[k].key, Canonical(PrintedMembers(m)[k].value))
  {
    hide Ascii, Quote, Join, Number, FilesJson, FileTexts, Entry, ArtifactName;
    FilesSpelled(m.files);
  }

  lemma LastSpelled(m: Manifest)
    ensures |LastTexts(m)| == 5
    ensures forall k, n :: 0 <= k < 5 && n == k + 5 ==>
              LastTexts(m)[k] == Entry(PrintedMembers(m)[n].key, Canonical(PrintedMembers(m)[n].value))
  {
    hide Ascii, Quote, Join, Number, FilesJson, FileTexts, Entry, ArtifactName;
  }

  /** A valid manifest's own texts need no escape: they are printed as they stand. */
  lemma ManifestTextsArePlain(m: Manifest)
    requires ValidManifest(m)
    ensures Quote(m.headSha) == [34] + m.headSha + [34] && Quote(m.workflowSha) == [34] + m.workflowSha + [34]
    ensures Quote(m.repository) == [34] + m.repository + [34]
    ensures Quote(m.workflowPath) == [34] + m.workflowPath + [34]
    ensures forall f :: f in m.files ==> Quote(f.path) == [34] + f.path + [34] && Quote(f.sha256) == [34] + f.sha256 + [34]
  {
    hide Quote;
    PlainQuotes(m.headSha);
    PlainQuotes(m.workflowSha);
    RepositoryIsPlain(m.repository);
    PlainQuotes(m.repository);
    WorkflowPathIsPlain(m.workflowPath);
    PlainQuotes(m.workflowPath);
    forall f | f in m.files
      ensures Quote(f.path) == [34] + f.path + [34] && Quote(f.sha256) == [34] + f.sha256 + [34]
    {
      PlainQuotes(f.path);
      PlainQuotes(f.sha256);
    }
  }

  lemma RepositoryIsPlain(s: Text)
    requires IsRepository(s)
    ensures IsPlain(s)
  {
    var j := IndexOf(s, SLASH);
    forall i | 0 <= i < |s| ensures 0x20 <= s[i] < 0xD800 && s[i] != 34 && s[i] != 92 {
      assert i < j ==> s[..j][i] == s[i];
      assert i > j ==> s[j + 1..][i - j - 1] == s[i];
      assert i == j || IsNameUnit(s[i]);
    }
  }

  lemma WorkflowPathIsPlain(s: Text)
    requires IsWorkflowPath(s)
    ensures IsPlain(s)
  {
    var folder := WorkflowFolder();
    forall i | 0 <= i < |s| ensures 0x20 <= s[i] < 0xD800 && s[i] != 34 && s[i] != 92 {
      assert i < |folder| ==> s[i] == folder[i];
      assert i >= |folder| ==> s[i] == s[|folder|..][i - |folder|];
    }
  }

  /** The text hashed for a document: the canonical form of the manifest parsed from it. */
  function DigestText(v: Json): Option<Text> {
    match ParseEvidenceManifest(v)
    case Some(m) => Some(Canonical(ManifestJson(m)))
    case None => None
  }

  /** Two accepted documents hash the same text exactly when they describe one manifest. */
  lemma DigestTextNamesManifest(v: Json, w: Json)
    requires ParseEvidenceManifest(v).Some? && ParseEvidenceManifest(w).Some?
    ensures DigestText(v) == DigestText(w) <==> ParseEvidenceManifest(v) == ParseEvidenceManifest(w)
  {
    hide ParseEvidenceManifest, ManifestJson, Canonical;
    var a, b := ParseEvidenceManifest(v).value, ParseEvidenceManifest(w).value;
    ManifestWellFormed(a);
    ManifestWellFormed(b);
    SameTextIffSame(ManifestJson(a), ManifestJson(b));
    if DigestText(v) == DigestText(w) {
      SameManifest(a, b);
    }
  }
}
