/**
 Writing an archive and reading it back.
 */
module ZipRoundTrip {
  /**
   Source: apps/control-plane/src/scanner-evidence.ts:763-947.

   An archive without a comment, whose entries are stored, is laid out as local records, the
   central directory and the end record.  Local and central extra fields, entry comments,
   data descriptors and every field the reader skips are arbitrary.
   */
  import opened Wrappers
  import opened Texts
  import opened ZipFormat
  import opened ArchivePath
  import opened ZipArchive

  /** An entry to write; the offset in its header is chosen by the writer. */
  datatype Member = Member(header: Header, local: Local, content: Bytes, descriptor: Bytes)

  predicate Writes(lib: Library, m: Member) {
    && Acceptable(lib, m.header) && FitsLocal(m.local)
    && m.local.name == m.header.name && m.local.flags == m.header.flags
    && m.local.compression == m.header.compression == STORED
    && m.header.compressedSize == m.header.uncompressedSize == |m.content| <= MAX_ENTRY_BYTES
  }

  function LeafOf(lib: Library, m: Member): Text {
    Leaf(lib.decode(m.header.name))
  }

  function LocalRecord(lib: Library, m: Member): Bytes
    requires Writes(lib, m)
  {
    WriteLocal(m.local) + (m.content + m.descriptor)
  }

  ghost predicate AllWrite(lib: Library, members: seq<Member>) {
    forall i :: 0 <= i < |members| ==> Writes(lib, members[i])
  }

  function Locals(lib: Library, members: seq<Member>): Bytes
    requires AllWrite(lib, members)
  {
    if members == [] then []
    else Locals(lib, members[..|members| - 1]) + LocalRecord(lib, members[|members| - 1])
  }

  function Headers(lib: Library, members: seq<Member>): (headers: seq<Header>)
    requires AllWrite(lib, members)
    ensures |headers| == |members|
  {
    if members == [] then []
    else
      var init := members[..|members| - 1];
      Headers(lib, init) + [members[|members| - 1].header.(offset := |Locals(lib, init)|)]
  }

  /** At most 64 entries, within the size limit, no two of them the same allowed file. */
  ghost predicate Writable(lib: Library, allowed: set<Text>, members: seq<Member>) {
    && |members| <= MAX_ZIP_ENTRIES && AllWrite(lib, members)
    && |Locals(lib, members)| <= MAX_ARTIFACT_BYTES
    && forall i, j :: 0 <= i < j < |members| && LeafOf(lib, members[i]) in allowed ==>
         LeafOf(lib, members[i]) != LeafOf(lib, members[j])
  }

  lemma {:induction false} LocalsGrow(lib: Library, members: seq<Member>, n: nat)
    requires AllWrite(lib, members) && n <= |members|
    ensures Locals(lib, members[..n]) <= Locals(lib, members)
    decreases |members|
  {
    if n < |members| {
      var init := members[..|members| - 1];
      assert init[..n] == members[..n];
      LocalsGrow(lib, init, n);
    } else {
      assert members[..n] == members;
    }
  }

  lemma {:induction false} HeaderAt(lib: Library, members: seq<Member>, k: nat)
    requires AllWrite(lib, members) && k < |members|
    ensures Headers(lib, members)[k] == members[k].header.(offset := |Locals(lib, members[..k])|)
    decreases |members|
  {
    if k < |members| - 1 {
      var init := members[..|members| - 1];
      assert init[..k] == members[..k];
      HeaderAt(lib, init, k);
    }
  }

  lemma HeadersAcceptable(lib: Library, members: seq<Member>)
    requires AllWrite(lib, members) && |Locals(lib, members)| <= MAX_ARTIFACT_BYTES
    ensures AllAcceptable(lib, Headers(lib, members))
  {
    hide Unsafe, Locals, Headers;
    forall k | 0 <= k < |members| ensures Acceptable(lib, Headers(lib, members)[k]) {
      HeaderAt(lib, members, k);
      LocalsGrow(lib, members, k);
      assert Writes(lib, members[k]);
    }
  }

  function EndOf(count: nat, directory: Bytes, offset: nat): EndRecord {
    EndRecord(0, 0, count, count, |directory|, offset, 0)
  }

  function WriteArchive(lib: Library, allowed: set<Text>, members: seq<Member>): Bytes
    requires Writable(lib, allowed, members)
  {
    HeadersAcceptable(lib, members);
    var locals, directory := Locals(lib, members), DirectoryBytes(lib, Headers(lib, members));
    locals + (directory + WriteEnd(EndOf(|members|, directory, |locals|)))
  }

  /** The written files whose names are allowed. */
  function Written(lib: Library, allowed: set<Text>, members: seq<Member>): map<Text, Bytes> {
    if members == [] then map[]
    else
      var init, last := Written(lib, allowed, members[..|members| - 1]), members[|members| - 1];
      if LeafOf(lib, last) in allowed then init[LeafOf(lib, last) := last.content] else init
  }

  lemma {:induction false} WrittenHolds(lib: Library, allowed: set<Text>, members: seq<Member>)
    requires AllWrite(lib, members)
    requires forall i, j :: 0 <= i < j < |members| && LeafOf(lib, members[i]) in allowed ==>
               LeafOf(lib, members[i]) != LeafOf(lib, members[j])
    ensures forall k :: 0 <= k < |members| && LeafOf(lib, members[k]) in allowed ==>
              LeafOf(lib, members[k]) in Written(lib, allowed, members)
              && Written(lib, allowed, members)[LeafOf(lib, members[k])] == members[k].content
    ensures forall leaf :: leaf in Written(lib, allowed, members) ==>
              exists k :: 0 <= k < |members| && LeafOf(lib, members[k]) == leaf && leaf in allowed
    decreases |members|
  {
    hide LeafOf, Writes;
    if members != [] {
      var init := members[..|members| - 1];
      assert forall k :: 0 <= k < |init| ==> init[k] == members[k];
      WrittenHolds(lib, allowed, init);
    }
  }

  /** A stored member read from where its local record was written. */
  lemma StoredMember(lib: Library, file: Bytes, limit: nat, m: Member, offset: nat)
    requires Writes(lib, m) && limit <= |file|
    requires Holds(file, offset, LocalRecord(lib, m)) && offset + |LocalRecord(lib, m)| <= limit
    ensures MemberAt(lib, file, limit, m.header.(offset := offset), m.content)
  {
    hide Unsafe, WriteLocal, U16, U32;
    HoldsBoth(file, offset, WriteLocal(m.local), m.content + m.descriptor);
    HoldsBoth(file, offset + |WriteLocal(m.local)|, m.content, m.descriptor);
    ReadAfterWriteLocal(file, offset, m.local);
  }

  lemma LocalsOneMore(lib: Library, members: seq<Member>, k: nat)
    requires AllWrite(lib, members) && k < |members|
    ensures Locals(lib, members[..k + 1]) == Locals(lib, members[..k]) + LocalRecord(lib, members[k])
  {
    var upTo := members[..k + 1];
    assert upTo[..k] == members[..k] && upTo[k] == members[k];
  }

  lemma HoldsPrefixEnd(file: Bytes, before: Bytes, record: Bytes)
    requires before + record <= file
    ensures Holds(file, |before|, record)
  {
    assert file[..|before + record|] == before + record;
    assert file[|before|..|before| + |record|] == (before + record)[|before|..];
  }

  lemma RecordAt(lib: Library, members: seq<Member>, file: Bytes, k: nat)
    requires AllWrite(lib, members) && k < |members| && Locals(lib, members) <= file
    ensures var offset := |Locals(lib, members[..k])|;
            && Holds(file, offset, LocalRecord(lib, members[k]))
            && offset + |LocalRecord(lib, members[k])| <= |Locals(lib, members)|
  {
    hide LocalRecord, Locals, Writes, Holds;
    LocalsGrow(lib, members, k + 1);
    LocalsOneMore(lib, members, k);
    HoldsPrefixEnd(file, Locals(lib, members[..k]), LocalRecord(lib, members[k]));
  }

  lemma {:induction false} SelectedFrom(lib: Library, allowed: set<Text>, headers: seq<Header>, s: Selected)
    requires s in Selection(lib, allowed, headers)
    ensures s.leaf in allowed && s.leaf == Leaf(lib.decode(s.header.name)) && s.header in headers
    decreases |headers|
  {
    hide Leaf;
    if s !in Chosen(lib, allowed, headers[0]) {
      SelectedFrom(lib, allowed, headers[1..], s);
    }
  }

  lemma {:induction false} SelectedInto(lib: Library, allowed: set<Text>, headers: seq<Header>, h: Header)
    requires h in headers && Leaf(lib.decode(h.name)) in allowed
    ensures Selected(Leaf(lib.decode(h.name)), h) in Selection(lib, allowed, headers)
    decreases |headers|
  {
    hide Leaf;
    if h != headers[0] {
      assert headers == [headers[0]] + headers[1..];
      SelectedInto(lib, allowed, headers[1..], h);
    }
  }

  lemma {:induction false} SelectionDistinct(lib: Library, allowed: set<Text>, headers: seq<Header>)
    requires forall i, j :: 0 <= i < j < |headers| && Leaf(lib.decode(headers[i].name)) in allowed ==>
               Leaf(lib.decode(headers[i].name)) != Leaf(lib.decode(headers[j].name))
    ensures DistinctLeaves(Selection(lib, allowed, headers))
    decreases |headers|
  {
    hide Leaf;
    if headers != [] {
      var rest := headers[1..];
      SelectionDistinct(lib, allowed, rest);
      forall k | 0 <= k < |Selection(lib, allowed, rest)|
        ensures Selection(lib, allowed, rest)[k].leaf != Leaf(lib.decode(headers[0].name))
                || Leaf(lib.decode(headers[0].name)) !in allowed
      {
        SelectedFrom(lib, allowed, rest, Selection(lib, allowed, rest)[k]);
        var j :| 0 <= j < |rest| && rest[j] == Selection(lib, allowed, rest)[k].header;
        assert headers[j + 1] == rest[j];
      }
    }
  }

  lemma WrittenHoldings(lib: Library, allowed: set<Text>, members: seq<Member>, file: Bytes)
    requires Writable(lib, allowed, members) && Locals(lib, members) <= file
    ensures var selected := Selection(lib, allowed, Headers(lib, members));
            DistinctLeaves(selected)
            && Holdings(lib, file, |Locals(lib, members)|, selected, Written(lib, allowed, members))
  {
    hide Leaf, Unsafe, Locals, Headers, MemberAt, LocalRecord, Selection, Written;
    var headers := Headers(lib, members);
    var files := Written(lib, allowed, members);
    var selected := Selection(lib, allowed, headers);
    forall k | 0 <= k < |members|
      ensures headers[k].name == members[k].header.name
      ensures MemberAt(lib, file, |Locals(lib, members)|, headers[k], members[k].content)
    {
      HeaderAt(lib, members, k);
      RecordAt(lib, members, file, k);
      StoredMember(lib, file, |Locals(lib, members)|, members[k], |Locals(lib, members[..k])|);
    }
    WrittenHolds(lib, allowed, members);
    forall i, j | 0 <= i < j < |headers| && Leaf(lib.decode(headers[i].name)) in allowed
      ensures Leaf(lib.decode(headers[i].name)) != Leaf(lib.decode(headers[j].name))
    {
      assert LeafOf(lib, members[i]) != LeafOf(lib, members[j]);
    }
    SelectionDistinct(lib, allowed, headers);
    forall n | 0 <= n < |selected|
      ensures selected[n].leaf in files
              && MemberAt(lib, file, |Locals(lib, members)|, selected[n].header, files[selected[n].leaf])
    {
      SelectedFrom(lib, allowed, headers, selected[n]);
      var k :| 0 <= k < |headers| && headers[k] == selected[n].header;
      assert LeafOf(lib, members[k]) == selected[n].leaf;
    }
    forall leaf | leaf in files ensures HasLeaf(selected, leaf) {
      var k :| 0 <= k < |members| && LeafOf(lib, members[k]) == leaf && leaf in allowed;
      SelectedInto(lib, allowed, headers, headers[k]);
    }
  }

  /** A written archive is described by its own headers, and holds the files written. */
  lemma WrittenDescribes(lib: Library, allowed: set<Text>, members: seq<Member>)
    requires Writable(lib, allowed, members) && |WriteArchive(lib, allowed, members)| <= MAX_ARTIFACT_BYTES
    ensures exists at: nat ::
              Describes(lib, allowed, WriteArchive(lib, allowed, members), at, Headers(lib, members),
                        Written(lib, allowed, members))
  {
    hide Locals, Headers, DirectoryBytes, Selection, Written, WriteEnd, Holdings;
    HeadersAcceptable(lib, members);
    var file, headers := WriteArchive(lib, allowed, members), Headers(lib, members);
    var locals, directory := Locals(lib, members), DirectoryBytes(lib, headers);
    var end := EndOf(|members|, directory, |locals|);
    var at := |locals| + |directory|;
    assert Holds(file, 0, locals + (directory + WriteEnd(end))) by {
      assert file[0..|file|] == file;
    }
    HoldsBoth(file, 0, locals, directory + WriteEnd(end));
    HoldsBoth(file, |locals|, directory, WriteEnd(end));
    ReadAfterWriteEnd(file, at, end);
    assert file[|locals|..at] == directory;
    assert Holds(file[|locals|..at], 0, directory);
    WrittenHoldings(lib, allowed, members, file);
    assert Describes(lib, allowed, file, at, headers, Written(lib, allowed, members));
  }

  /** Reading back what was written returns exactly the allowed files. */
  method WriteThenRead(lib: Library, allowed: set<Text>, members: seq<Member>)
    returns (r: Result<map<Text, Bytes>, ZipError>)
    requires Writable(lib, allowed, members) && |WriteArchive(lib, allowed, members)| <= MAX_ARTIFACT_BYTES
    ensures r == Ok(Written(lib, allowed, members))
  {
    WrittenDescribes(lib, allowed, members);
    r := ParseArtifactArchive(lib, allowed, WriteArchive(lib, allowed, members));
  }
}
