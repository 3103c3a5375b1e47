/** The evidence archive reader. */
module ZipArchive {
  /**
   Source: apps/control-plane/src/scanner-evidence.ts:750-948.

   The reader locates the end record, walks the central directory and checks each selected
   file's local header.  Describes says, without any walk, what an acceptable archive is and
   what it holds; the reader accepts exactly those archives and returns exactly that content.
   Decoding a name from UTF-8 and inflating are library calls and stay parameters.
   */
  import opened Wrappers
  import opened Texts
  import opened ZipFormat
  import opened ArchivePath

  const MAX_ARTIFACT_BYTES: nat := 64 * 1024 * 1024
  const MAX_ENTRY_BYTES: nat := 16 * 1024 * 1024
  const MAX_ZIP_ENTRIES: nat := 64
  const TAIL_BYTES: nat := 66_000

  const STORED: nat := 0
  const DEFLATED: nat := 8

  datatype Library = Library(decode: Bytes -> Text, inflate: (Bytes, nat) -> Option<Bytes>)

  datatype ZipError =
    | TooLarge | NoEndRecord | Unsupported | EndBoundsInvalid | TooManyEntries | DirectoryOutOfBounds
    | DirectoryTruncated | EntryInvalid | FlagsOrBoundsInvalid | UnsafeName(name: Text) | DuplicateFile(leaf: Text)
    | DirectoryLengthMismatch
    | EntryTooLarge | LocalOutOfBounds | LocalInvalid | LocalMismatch | LocalNameMismatch
    | InflateFailed | UnsupportedCompression | LengthMismatch

  // ----- the end record

  method ScanForEnd(tail: Bytes) returns (at: int)
    ensures at == -1 <==> forall k :: 0 <= k <= |tail| - END_SIZE ==> U32(tail, k) != END_SIGNATURE
    ensures at >= -1
    ensures at >= 0 ==>
              && at + END_SIZE <= |tail| && U32(tail, at) == END_SIGNATURE
              && forall k :: at < k <= |tail| - END_SIZE ==> U32(tail, k) != END_SIGNATURE
  {
    at := -1;
    var index := |tail| - END_SIZE;
    while index >= 0
      invariant index <= |tail| - END_SIZE
      invariant forall k :: index < k <= |tail| - END_SIZE && 0 <= k ==> U32(tail, k) != END_SIGNATURE
      decreases index + 1
    {
      if U32(tail, index) == END_SIGNATURE {
        return index;
      }
      index := index - 1;
    }
  }

  /** The end record is the last one the reader can see. */
  ghost predicate LastEnd(file: Bytes, at: nat) {
    && at + END_SIZE <= |file| && |file| <= at + TAIL_BYTES
    && U32(file, at) == END_SIGNATURE
    && forall k :: at < k <= |file| - END_SIZE ==> U32(file, k) != END_SIGNATURE
  }

  predicate SingleDisk(e: EndRecord) {
    && e.disk == 0 && e.directoryDisk == 0 && e.entriesOnDisk == e.entries
    && e.entries != 0xffff && e.directorySize != 0xffff_ffff && e.directoryOffset != 0xffff_ffff
  }

  /** What the reader checks about the end record, in its order. */
  function EndError(size: nat, at: nat, e: EndRecord): (error: Option<ZipError>)
    ensures error == Some(Unsupported) <==>
              || e.disk != 0 || e.directoryDisk != 0 || e.entriesOnDisk != e.entries
              || e.entries == 65535 || e.directorySize == 4294967295 || e.directoryOffset == 4294967295
    ensures error.None? ==> e.entries <= 64 && at + 22 + e.commentLength == size && e.directoryOffset + e.directorySize == at
  {
    if !SingleDisk(e) then Some(Unsupported)
    else if at + END_SIZE + e.commentLength != size then Some(EndBoundsInvalid)
    else if e.entries > MAX_ZIP_ENTRIES then Some(TooManyEntries)
    else if e.directoryOffset + e.directorySize != at || e.directoryOffset > size || e.directorySize > size
    then Some(DirectoryOutOfBounds)
    else None
  }

  // ----- the central directory

  /** Only a data descriptor and UTF-8 names may be flagged. */
  predicate FlagsAllowed(flags: nat) {
    flags == 0 || flags == 0x0008 || flags == 0x0800 || flags == 0x0808
  }

  /** Bit k of a number, from the low end. */
  function BitOf(n: nat, k: nat): nat {
    if k == 0 then n % 2 else BitOf(n / 2, k - 1)
  }

  function PowerOfTwo(k: nat): nat {
    if k == 0 then 1 else 2 * PowerOfTwo(k - 1)
  }

  lemma {:induction false} ZeroHasNoBits(k: nat)
    ensures BitOf(0, k) == 0
    decreases k
  {
    if k > 0 {
      ZeroHasNoBits(k - 1);
    }
  }

  ghost predicate Clear(n: nat, k: nat) {
    BitOf(n, k) == 0
  }

  /** A number below 2 to the k is zero exactly when its first k bits are. */
  lemma {:induction false} NoBits(n: nat, k: nat)
    requires n < PowerOfTwo(k)
    ensures n == 0 <==> forall j: nat :: j < k ==> Clear(n, j)
    decreases k
  {
    assert k == 0 ==> PowerOfTwo(k) == 1;
    if n == 0 {
      forall j: nat ensures Clear(n, j) {
        ZeroHasNoBits(j);
      }
    } else if n % 2 == 1 {
      assert !Clear(n, 0);
    } else {
      NoBits(n / 2, k - 1);
      var j: nat :| j < k - 1 && !Clear(n / 2, j);
      assert BitOf(n, j + 1) == BitOf(n / 2, j);
      assert !Clear(n, j + 1);
    }
  }

  /** Taking a set bit away leaves the others. */
  lemma {:induction false} ClearBit(n: nat, i: nat, k: nat)
    requires BitOf(n, i) == 1
    ensures n >= PowerOfTwo(i) && BitOf(n - PowerOfTwo(i), k) == if k == i then 0 else BitOf(n, k)
    decreases i
  {
    if i > 0 {
      ClearBit(n / 2, i - 1, if k > 0 then k - 1 else 0);
      assert (n - PowerOfTwo(i)) / 2 == n / 2 - PowerOfTwo(i - 1);
      if k > 0 {
        assert BitOf(n, k) == BitOf(n / 2, k - 1);
        assert BitOf(n - PowerOfTwo(i), k) == BitOf(n / 2 - PowerOfTwo(i - 1), k - 1);
      }
    } else if k > 0 {
      assert (n - 1) / 2 == n / 2;
    }
  }

  lemma {:induction false} BitIsZeroOrOne(n: nat, k: nat)
    ensures BitOf(n, k) < 2
    decreases k
  {
    if k > 0 {
      BitIsZeroOrOne(n / 2, k - 1);
    }
  }

  lemma WithoutBit(n: nat, i: nat) returns (m: nat)
    ensures m == if BitOf(n, i) == 1 then n - PowerOfTwo(i) else n
    ensures forall k: nat :: BitOf(m, k) == if k == i then 0 else BitOf(n, k)
  {
    BitIsZeroOrOne(n, i);
    if BitOf(n, i) == 1 {
      ClearBit(n, i, i);
      m := n - PowerOfTwo(i);
      forall k: nat ensures BitOf(m, k) == if k == i then 0 else BitOf(n, k) {
        ClearBit(n, i, k);
      }
    } else {
      m := n;
    }
  }

  lemma BitsOfAllowed()
    ensures BitOf(0, 3) == 0 && BitOf(8, 3) == 1 && BitOf(0x800, 3) == 0 && BitOf(0x808, 3) == 1
    ensures BitOf(0, 11) == 0 && BitOf(0x800, 11) == 1
  {
    assert BitOf(0x808, 3) == BitOf(0x404, 2);
    assert BitOf(0x800, 11) == BitOf(0x400, 10) == BitOf(0x200, 9) == BitOf(0x100, 8) == BitOf(0x80, 7) == BitOf(0x40, 6);
    ZeroHasNoBits(11);
  }

  /** The flags accepted are exactly those with every bit clear but bit 3, the data descriptor, and bit 11, the
      UTF-8 name: encryption and every other feature is refused. */
  lemma FlagsAllowedByBits(flags: nat)
    requires flags < 0x1_0000
    ensures FlagsAllowed(flags) <==> forall k: nat :: k < 16 && k != 3 && k != 11 ==> Clear(flags, k)
  {
    assert PowerOfTwo(3) == 8 && PowerOfTwo(11) == 0x800 && PowerOfTwo(16) == 0x1_0000;
    BitsOfAllowed();
    var rest := WithoutBit(flags, 3);
    var none := WithoutBit(rest, 11);
    NoBits(none, 16);
    forall k: nat ensures BitOf(none, k) == if k == 3 || k == 11 then 0 else BitOf(flags, k) {
      assert BitOf(none, k) == if k == 11 then 0 else BitOf(rest, k);
    }
    assert forall k: nat :: k < 16 ==> (Clear(none, k) <==> k == 3 || k == 11 || Clear(flags, k));
    assert none == 0 <==> flags == 0 || flags == 8 || flags == 0x800 || flags == 0x808;
  }

  datatype Selected = Selected(leaf: Text, header: Header)

  predicate HasLeaf(found: seq<Selected>, leaf: Text) {
    exists s :: s in found && s.leaf == leaf
  }

  /** One directory entry: its bounds, flags and name are checked, in the reader's order. */
  function ReadEntry(lib: Library, d: Bytes, cursor: nat): (r: Result<Header, ZipError>)
    ensures r.Ok? ==> cursor + CENTRAL_SIZE <= |d| && cursor + HeaderLength(d, cursor) <= |d|
  {
    if cursor + CENTRAL_SIZE > |d| then Err(DirectoryTruncated)
    else if U32(d, cursor) != CENTRAL_SIGNATURE then Err(EntryInvalid)
    else if U16(d, cursor + 28) == 0 || cursor + HeaderLength(d, cursor) > |d| || !FlagsAllowed(U16(d, cursor + 8))
    then Err(FlagsOrBoundsInvalid)
    else
      var h := ReadHeader(d, cursor);
      if Unsafe(lib.decode(h.name)) then Err(UnsafeName(lib.decode(h.name))) else Ok(h)
  }

  /** The trusted file an entry stands for, if it is an allowed one. */
  function Chosen(lib: Library, allowed: set<Text>, h: Header): (chosen: seq<Selected>)
    ensures |chosen| <= 1
  {
    var leaf := Leaf(lib.decode(h.name));
    if leaf in allowed then [Selected(leaf, h)] else []
  }

  predicate Repeats(found: seq<Selected>, chosen: seq<Selected>) {
    chosen != [] && HasLeaf(found, chosen[0].leaf)
  }

  function Walk(lib: Library, allowed: set<Text>, d: Bytes, cursor: nat, remaining: nat, found: seq<Selected>)
      : Result<seq<Selected>, ZipError>
    requires cursor <= |d|
    decreases remaining
  {
    if remaining == 0 then
      if cursor != |d| then Err(DirectoryLengthMismatch) else Ok(found)
    else
      match ReadEntry(lib, d, cursor)
      case Err(e) => Err(e)
      case Ok(h) =>
        var chosen := Chosen(lib, allowed, h);
        if Repeats(found, chosen) then Err(DuplicateFile(chosen[0].leaf))
        else Walk(lib, allowed, d, cursor + HeaderLength(d, cursor), remaining - 1, found + chosen)
  }

  method WalkDirectory(lib: Library, allowed: set<Text>, d: Bytes, count: nat)
    returns (r: Result<seq<Selected>, ZipError>)
    ensures r == Walk(lib, allowed, d, 0, count, [])
  {
    hide ReadEntry, Chosen, HeaderLength, HasLeaf;
    var found: seq<Selected> := [];
    var cursor: nat := 0;
    for index := 0 to count
      invariant cursor <= |d|
      invariant Walk(lib, allowed, d, 0, count, []) == Walk(lib, allowed, d, cursor, count - index, found)
    {
      var entry := ReadEntry(lib, d, cursor);
      if entry.Err? {
        return Err(entry.error);
      }
      var chosen := Chosen(lib, allowed, entry.value);
      cursor := cursor + HeaderLength(d, cursor);
      if Repeats(found, chosen) {
        return Err(DuplicateFile(chosen[0].leaf));
      }
      found := found + chosen;
    }
    if cursor != |d| {
      return Err(DirectoryLengthMismatch);
    }
    return Ok(found);
  }

  // ----- the specification of the directory

  predicate Acceptable(lib: Library, h: Header) {
    FitsHeader(h) && |h.name| > 0 && FlagsAllowed(h.flags) && !Unsafe(lib.decode(h.name))
  }

  ghost predicate AllAcceptable(lib: Library, headers: seq<Header>) {
    forall i :: 0 <= i < |headers| ==> Acceptable(lib, headers[i])
  }

  /** The entries one after another, with nothing between or after them. */
  function DirectoryBytes(lib: Library, headers: seq<Header>): Bytes
    requires AllAcceptable(lib, headers)
  {
    if headers == [] then [] else WriteHeader(headers[0]) + DirectoryBytes(lib, headers[1..])
  }

  function Selection(lib: Library, allowed: set<Text>, headers: seq<Header>): seq<Selected> {
    if headers == [] then []
    else Chosen(lib, allowed, headers[0]) + Selection(lib, allowed, headers[1..])
  }

  ghost predicate DistinctLeaves(s: seq<Selected>) {
    forall i, j :: 0 <= i < j < |s| ==> s[i].leaf != s[j].leaf
  }

  /** The rest of a directory, from a position, is these entries and nothing else. */
  ghost predicate Tiles(lib: Library, d: Bytes, cursor: nat, headers: seq<Header>) {
    && AllAcceptable(lib, headers)
    && cursor + |DirectoryBytes(lib, headers)| == |d| && Holds(d, cursor, DirectoryBytes(lib, headers))
  }

  lemma TilesCons(lib: Library, d: Bytes, cursor: nat, h: Header, rest: seq<Header>)
    requires Acceptable(lib, h)
    ensures Tiles(lib, d, cursor, [h] + rest) <==>
            Holds(d, cursor, WriteHeader(h)) && Tiles(lib, d, cursor + |WriteHeader(h)|, rest)
  {
    assert ([h] + rest)[1..] == rest;
    assert AllAcceptable(lib, [h] + rest) <==> AllAcceptable(lib, rest) by {
      if AllAcceptable(lib, [h] + rest) {
        forall i | 0 <= i < |rest| ensures Acceptable(lib, rest[i]) {
          assert ([h] + rest)[i + 1] == rest[i];
        }
      }
    }
    if AllAcceptable(lib, rest) {
      HoldsBoth(d, cursor, WriteHeader(h), DirectoryBytes(lib, rest));
    }
  }

  lemma SelectionCons(lib: Library, allowed: set<Text>, h: Header, rest: seq<Header>)
    ensures Selection(lib, allowed, [h] + rest) == Chosen(lib, allowed, h) + Selection(lib, allowed, rest)
  {
    assert ([h] + rest)[1..] == rest;
  }

  /** An entry is read exactly when an acceptable one is written there. */
  lemma EntryExactly(lib: Library, d: Bytes, cursor: nat, h: Header)
    ensures ReadEntry(lib, d, cursor) == Ok(h) <==> Acceptable(lib, h) && Holds(d, cursor, WriteHeader(h))
    ensures ReadEntry(lib, d, cursor) == Ok(h) ==> HeaderLength(d, cursor) == |WriteHeader(h)|
  {
    if ReadEntry(lib, d, cursor) == Ok(h) {
      WriteAfterRead(d, cursor);
    }
    if Acceptable(lib, h) && Holds(d, cursor, WriteHeader(h)) {
      ReadAfterWrite(d, cursor, h);
      assert h.flags == U16(d, cursor + 8) && |h.name| == U16(d, cursor + 28);
    }
  }

  lemma Regroup(a: seq<Selected>, b: seq<Selected>, c: seq<Selected>)
    ensures a + (b + c) == a + b + c && a + [] == a
  {
  }

  lemma PrefixDistinct(found: seq<Selected>, chosen: seq<Selected>, rest: seq<Selected>)
    requires DistinctLeaves(found + chosen + rest) && |chosen| <= 1
    ensures !Repeats(found, chosen)
  {
    var all := found + chosen + rest;
    if chosen != [] {
      assert all[|found|] == chosen[0];
      forall i | 0 <= i < |found| ensures found[i].leaf != chosen[0].leaf {
        assert all[i] == found[i];
      }
    }
  }

  lemma StaysDistinct(found: seq<Selected>, chosen: seq<Selected>)
    requires DistinctLeaves(found) && !Repeats(found, chosen) && |chosen| <= 1
    ensures DistinctLeaves(found + chosen)
  {
    forall i, j | 0 <= i < j < |found + chosen| ensures (found + chosen)[i].leaf != (found + chosen)[j].leaf {
      assert found[i] in found;
    }
  }

  /** Whatever the walk accepts tiles the directory exactly. */
  lemma {:induction false} WalkSound(
      lib: Library, allowed: set<Text>, d: Bytes, cursor: nat, remaining: nat, found: seq<Selected>)
    returns (headers: seq<Header>)
    requires cursor <= |d| && DistinctLeaves(found)
    requires Walk(lib, allowed, d, cursor, remaining, found).Ok?
    ensures |headers| == remaining && Tiles(lib, d, cursor, headers)
    ensures DistinctLeaves(found + Selection(lib, allowed, headers))
    ensures Walk(lib, allowed, d, cursor, remaining, found).value == found + Selection(lib, allowed, headers)
    decreases remaining
  {
    hide ReadEntry, WriteHeader, Chosen, Unsafe, HasLeaf;
    if remaining == 0 {
      headers := [];
      Regroup(found, [], []);
    } else {
      var h := ReadEntry(lib, d, cursor).value;
      var chosen := Chosen(lib, allowed, h);
      EntryExactly(lib, d, cursor, h);
      StaysDistinct(found, chosen);
      var rest := WalkSound(lib, allowed, d, cursor + |WriteHeader(h)|, remaining - 1, found + chosen);
      headers := [h] + rest;
      TilesCons(lib, d, cursor, h, rest);
      SelectionCons(lib, allowed, h, rest);
      Regroup(found, chosen, Selection(lib, allowed, rest));
    }
  }

  /** A directory tiled by acceptable entries with distinct allowed leaves is accepted. */
  lemma {:induction false} WalkComplete(
      lib: Library, allowed: set<Text>, d: Bytes, cursor: nat, headers: seq<Header>, found: seq<Selected>)
    requires cursor <= |d| && Tiles(lib, d, cursor, headers)
    requires DistinctLeaves(found + Selection(lib, allowed, headers))
    ensures Walk(lib, allowed, d, cursor, |headers|, found) == Ok(found + Selection(lib, allowed, headers))
    decreases |headers|
  {
    hide ReadEntry, WriteHeader, Chosen, Unsafe, HasLeaf;
    if headers == [] {
      Regroup(found, [], []);
    } else {
      var h, rest := headers[0], headers[1..];
      var chosen := Chosen(lib, allowed, h);
      assert headers == [h] + rest;
      TilesCons(lib, d, cursor, h, rest);
      EntryExactly(lib, d, cursor, h);
      SelectionCons(lib, allowed, h, rest);
      Regroup(found, chosen, Selection(lib, allowed, rest));
      PrefixDistinct(found, chosen, Selection(lib, allowed, rest));
      WalkComplete(lib, allowed, d, cursor + |WriteHeader(h)|, rest, found + chosen);
    }
  }

  // ----- the selected files

  function DataOffset(file: Bytes, h: Header): nat
    requires h.offset + LOCAL_SIZE <= |file|
  {
    h.offset + LOCAL_SIZE + U16(file, h.offset + 26) + U16(file, h.offset + 28)
  }

  function Expand(lib: Library, h: Header, payload: Bytes): Result<Bytes, ZipError> {
    if h.compression == STORED then Ok(payload)
    else if h.compression == DEFLATED then
      match lib.inflate(payload, h.uncompressedSize)
      case Some(content) => Ok(content)
      case None => Err(InflateFailed)
    else Err(UnsupportedCompression)
  }

  /** One selected file, checked against its local header; limit is where the directory starts. */
  function ReadMember(lib: Library, file: Bytes, limit: nat, h: Header): Result<Bytes, ZipError>
    requires limit <= |file|
  {
    if h.uncompressedSize > MAX_ENTRY_BYTES || h.compressedSize > MAX_ENTRY_BYTES then Err(EntryTooLarge)
    else if h.offset + LOCAL_SIZE > limit then Err(LocalOutOfBounds)
    else if U32(file, h.offset) != LOCAL_SIGNATURE then Err(LocalInvalid)
    else
      var data, nameLength := DataOffset(file, h), U16(file, h.offset + 26);
      if U16(file, h.offset + 6) != h.flags || U16(file, h.offset + 8) != h.compression || nameLength == 0
         || data > limit || h.compressedSize > limit - data then Err(LocalMismatch)
      else if lib.decode(file[h.offset + LOCAL_SIZE..h.offset + LOCAL_SIZE + nameLength]) != lib.decode(h.name)
      then Err(LocalNameMismatch)
      else
        match Expand(lib, h, file[data..data + h.compressedSize])
        case Err(e) => Err(e)
        case Ok(content) => if |content| != h.uncompressedSize then Err(LengthMismatch) else Ok(content)
  }

  /** The entry's local header agrees with it, its payload lies before the directory, and this is
      its content. */
  ghost predicate MemberAt(lib: Library, file: Bytes, limit: nat, h: Header, content: Bytes)
    requires limit <= |file|
  {
    && h.uncompressedSize <= MAX_ENTRY_BYTES && h.compressedSize <= MAX_ENTRY_BYTES
    && h.offset + LOCAL_SIZE <= limit && U32(file, h.offset) == LOCAL_SIGNATURE
    && U16(file, h.offset + 6) == h.flags && U16(file, h.offset + 8) == h.compression
    && var nameLength := U16(file, h.offset + 26);
       var data := DataOffset(file, h);
       && nameLength > 0 && data + h.compressedSize <= limit
       && lib.decode(file[h.offset + LOCAL_SIZE..h.offset + LOCAL_SIZE + nameLength]) == lib.decode(h.name)
       && (if h.compression == STORED then content == file[data..data + h.compressedSize]
           else h.compression == DEFLATED
                && lib.inflate(file[data..data + h.compressedSize], h.uncompressedSize) == Some(content))
       && |content| == h.uncompressedSize
  }

  lemma ReadMemberExactly(lib: Library, file: Bytes, limit: nat, h: Header, content: Bytes)
    requires limit <= |file|
    ensures ReadMember(lib, file, limit, h) == Ok(content) <==> MemberAt(lib, file, limit, h, content)
  {
  }

  function ReadMembers(lib: Library, file: Bytes, limit: nat, selected: seq<Selected>, files: map<Text, Bytes>)
      : Result<map<Text, Bytes>, ZipError>
    requires limit <= |file|
    decreases |selected|
  {
    if selected == [] then Ok(files)
    else
      match ReadMember(lib, file, limit, selected[0].header)
      case Err(e) => Err(e)
      case Ok(content) => ReadMembers(lib, file, limit, selected[1..], files[selected[0].leaf := content])
  }

  method ReadSelected(lib: Library, file: Bytes, limit: nat, selected: seq<Selected>)
    returns (r: Result<map<Text, Bytes>, ZipError>)
    requires limit <= |file|
    ensures r == ReadMembers(lib, file, limit, selected, map[])
  {
    var files: map<Text, Bytes> := map[];
    for k := 0 to |selected|
      invariant ReadMembers(lib, file, limit, selected, map[]) == ReadMembers(lib, file, limit, selected[k..], files)
    {
      assert selected[k..][1..] == selected[k + 1..];
      var member := ReadMember(lib, file, limit, selected[k].header);
      if member.Err? {
        return Err(member.error);
      }
      files := files[selected[k].leaf := member.value];
    }
    return Ok(files);
  }

  /** Each selected leaf maps to its member's content, and nothing else is returned. */
  ghost predicate Holdings(lib: Library, file: Bytes, limit: nat, selected: seq<Selected>, files: map<Text, Bytes>)
    requires limit <= |file|
  {
    && (forall leaf :: leaf in files ==> HasLeaf(selected, leaf))
    && (forall k :: 0 <= k < |selected| ==>
          selected[k].leaf in files && MemberAt(lib, file, limit, selected[k].header, files[selected[k].leaf]))
  }

  lemma {:induction false} ReadMembersSound(
      lib: Library, file: Bytes, limit: nat, before: seq<Selected>, selected: seq<Selected>, files: map<Text, Bytes>)
    requires limit <= |file| && DistinctLeaves(before + selected) && Holdings(lib, file, limit, before, files)
    requires ReadMembers(lib, file, limit, selected, files).Ok?
    ensures Holdings(lib, file, limit, before + selected, ReadMembers(lib, file, limit, selected, files).value)
    decreases |selected|
  {
    hide MemberAt, ReadMember;
    if selected == [] {
      assert before + selected == before;
    } else {
      var content := ReadMember(lib, file, limit, selected[0].header).value;
      ReadMemberExactly(lib, file, limit, selected[0].header, content);
      assert before + [selected[0]] + selected[1..] == before + selected;
      OneMoreHeld(lib, file, limit, before, selected[0], files, content, selected[1..]);
      ReadMembersSound(lib, file, limit, before + [selected[0]], selected[1..], files[selected[0].leaf := content]);
    }
  }

  lemma OneMoreHeld(lib: Library, file: Bytes, limit: nat, before: seq<Selected>, s: Selected,
                    files: map<Text, Bytes>, content: Bytes, rest: seq<Selected>)
    requires limit <= |file| && Holdings(lib, file, limit, before, files)
    requires DistinctLeaves(before + [s] + rest) && MemberAt(lib, file, limit, s.header, content)
    ensures Holdings(lib, file, limit, before + [s], files[s.leaf := content])
  {
    hide MemberAt;
    var all := before + [s];
    forall leaf | leaf in files[s.leaf := content] ensures HasLeaf(all, leaf) {
      if leaf == s.leaf {
        assert all[|before|] == s;
      } else {
        var t :| t in before && t.leaf == leaf;
        assert t in all;
      }
    }
    forall k | 0 <= k < |all|
      ensures all[k].leaf in files[s.leaf := content]
              && MemberAt(lib, file, limit, all[k].header, files[s.leaf := content][all[k].leaf])
    {
      assert k < |before| ==> (before + [s] + rest)[k].leaf != (before + [s] + rest)[|before|].leaf;
    }
  }

  /** The target holds every selected file and nothing beyond those and the files already read. */
  ghost predicate Remaining(lib: Library, file: Bytes, limit: nat, selected: seq<Selected>,
                            files: map<Text, Bytes>, target: map<Text, Bytes>)
    requires limit <= |file|
  {
    && (forall k :: 0 <= k < |selected| ==>
          selected[k].leaf in target && MemberAt(lib, file, limit, selected[k].header, target[selected[k].leaf]))
    && (forall leaf :: leaf in files ==> leaf in target && files[leaf] == target[leaf])
    && (forall leaf :: leaf in target ==> leaf in files || HasLeaf(selected, leaf))
  }

  lemma RemainingShrinks(lib: Library, file: Bytes, limit: nat, selected: seq<Selected>,
                         files: map<Text, Bytes>, target: map<Text, Bytes>)
    requires limit <= |file| && selected != [] && Remaining(lib, file, limit, selected, files, target)
    ensures var leaf := selected[0].leaf;
            leaf in target && Remaining(lib, file, limit, selected[1..], files[leaf := target[leaf]], target)
  {
    hide MemberAt;
    var rest := selected[1..];
    assert forall k :: 0 <= k < |rest| ==> rest[k] == selected[k + 1];
    forall leaf | leaf in target && leaf !in files && leaf != selected[0].leaf ensures HasLeaf(rest, leaf) {
      var s :| s in selected && s.leaf == leaf;
      assert selected == [selected[0]] + rest;
      assert s in rest;
    }
  }

  lemma {:induction false} ReadMembersComplete(
      lib: Library, file: Bytes, limit: nat, selected: seq<Selected>, files: map<Text, Bytes>, target: map<Text, Bytes>)
    requires limit <= |file| && Remaining(lib, file, limit, selected, files, target)
    ensures ReadMembers(lib, file, limit, selected, files) == Ok(target)
    decreases |selected|
  {
    hide MemberAt, ReadMember;
    if selected == [] {
      assert files == target;
    } else {
      var content := target[selected[0].leaf];
      ReadMemberExactly(lib, file, limit, selected[0].header, content);
      RemainingShrinks(lib, file, limit, selected, files, target);
      ReadMembersComplete(lib, file, limit, selected[1..], files[selected[0].leaf := content], target);
    }
  }

  // ----- the reader

  /** An acceptable archive and what it holds. */
  ghost predicate Describes(lib: Library, allowed: set<Text>, file: Bytes, at: nat, headers: seq<Header>, files: map<Text, Bytes>) {
    && |file| <= MAX_ARTIFACT_BYTES && LastEnd(file, at)
    && var e := ReadEnd(file, at);
       && e.disk == 0 && e.directoryDisk == 0 && e.entriesOnDisk == e.entries
       && at + END_SIZE + e.commentLength == |file|
       && e.entries == |headers| <= MAX_ZIP_ENTRIES
       && e.directoryOffset + e.directorySize == at
       && Tiles(lib, file[e.directoryOffset..at], 0, headers)
       && var selected := Selection(lib, allowed, headers);
          DistinctLeaves(selected) && Holdings(lib, file, e.directoryOffset, selected, files)
  }

  lemma NumbersOfTail(file: Bytes, start: nat, at: nat)
    requires start + at + END_SIZE <= |file|
    ensures U32(file[start..], at) == U32(file, start + at)
    ensures ReadEnd(file[start..], at) == ReadEnd(file, start + at)
  {
    var tail := file[start..];
    assert tail[at..at + 4] == file[start + at..start + at + 4];
    assert tail[at + 4..at + 6] == file[start + at + 4..start + at + 6];
    assert tail[at + 6..at + 8] == file[start + at + 6..start + at + 8];
    assert tail[at + 8..at + 10] == file[start + at + 8..start + at + 10];
    assert tail[at + 10..at + 12] == file[start + at + 10..start + at + 12];
    assert tail[at + 12..at + 16] == file[start + at + 12..start + at + 16];
    assert tail[at + 16..at + 20] == file[start + at + 16..start + at + 20];
    assert tail[at + 20..at + 22] == file[start + at + 20..start + at + 22];
  }

  /** The end record the reader finds in the tail is the last one within its reach. */
  method LocateEnd(file: Bytes) returns (at: int, e: Option<EndRecord>)
    ensures e.None? <==> !exists k: nat :: LastEnd(file, k)
    ensures e.Some? ==> at >= 0 && LastEnd(file, at) && e.value == ReadEnd(file, at)
  {
    var tailLength := Min(|file|, TAIL_BYTES);
    var start := |file| - tailLength;
    var tail := file[start..];
    var index := ScanForEnd(tail);
    forall k | 0 <= k <= |tail| - END_SIZE ensures U32(tail, k) == U32(file, start + k) {
      NumbersOfTail(file, start, k);
    }
    if index == -1 {
      forall k: nat ensures !LastEnd(file, k) {
        if k + END_SIZE <= |file| && start <= k {
          assert U32(tail, k - start) == U32(file, start + (k - start));
        }
      }
      return -1, None;
    }
    NumbersOfTail(file, start, index);
    at := start + index;
    assert U32(file, at) == END_SIGNATURE;
    forall k | at < k <= |file| - END_SIZE ensures U32(file, k) != END_SIGNATURE {
      assert U32(tail, k - start) == U32(file, start + (k - start));
    }
    assert LastEnd(file, at);
    return at, Some(ReadEnd(tail, index));
  }

  lemma LastEndUnique(file: Bytes, a: nat, b: nat)
    requires LastEnd(file, a) && LastEnd(file, b)
    ensures a == b
  {
  }

  /** The reader returns a file map exactly when some list of entries describes the archive that way;
      a description is therefore unique in what it holds. */
  method ParseArtifactArchive(lib: Library, allowed: set<Text>, file: Bytes)
    returns (r: Result<map<Text, Bytes>, ZipError>)
    ensures r.Ok? ==> exists at: nat, headers :: Describes(lib, allowed, file, at, headers, r.value)
    ensures forall at: nat, headers, files :: Describes(lib, allowed, file, at, headers, files) ==> r == Ok(files)
    ensures |file| > MAX_ARTIFACT_BYTES ==> r == Err(TooLarge)
  {
    if |file| > MAX_ARTIFACT_BYTES {
      return Err(TooLarge);
    }
    var at, e := LocateEnd(file);
    if e.None? {
      return Err(NoEndRecord);
    }
    var error := EndError(|file|, at, e.value);
    if error.Some? {
      forall other: nat, headers, files ensures !Describes(lib, allowed, file, other, headers, files) {
        if Describes(lib, allowed, file, other, headers, files) {
          LastEndUnique(file, at, other);
        }
      }
      return Err(error.value);
    }
    var limit := e.value.directoryOffset;
    var directory := file[limit..at];
    var selected := WalkDirectory(lib, allowed, directory, e.value.entries);
    if selected.Ok? {
      r := ReadSelected(lib, file, limit, selected.value);
    } else {
      r := Err(selected.error);
    }
    assert r == Body(lib, allowed, file, at);
    BodySound(lib, allowed, file, at);
    forall other: nat, headers, files | Describes(lib, allowed, file, other, headers, files) ensures r == Ok(files) {
      LastEndUnique(file, at, other);
      BodyComplete(lib, allowed, file, at, headers, files);
    }
  }

  /** Directory and members, once the end record is known to be good. */
  ghost function Body(lib: Library, allowed: set<Text>, file: Bytes, at: nat): Result<map<Text, Bytes>, ZipError>
    requires LastEnd(file, at) && EndError(|file|, at, ReadEnd(file, at)).None?
  {
    var e := ReadEnd(file, at);
    match Walk(lib, allowed, file[e.directoryOffset..at], 0, e.entries, [])
    case Err(error) => Err(error)
    case Ok(selected) => ReadMembers(lib, file, e.directoryOffset, selected, map[])
  }

  lemma BodySound(lib: Library, allowed: set<Text>, file: Bytes, at: nat)
    requires |file| <= MAX_ARTIFACT_BYTES
    requires LastEnd(file, at) && EndError(|file|, at, ReadEnd(file, at)).None?
    ensures var r := Body(lib, allowed, file, at);
            r.Ok? ==> exists headers :: Describes(lib, allowed, file, at, headers, r.value)
  {
    hide MemberAt, LastEnd, ReadEntry, WriteHeader, Unsafe, DirectoryBytes, ReadMembers, Walk;
    var e := ReadEnd(file, at);
    var r := Body(lib, allowed, file, at);
    if r.Ok? {
      var headers := WalkSound(lib, allowed, file[e.directoryOffset..at], 0, e.entries, []);
      var selected := Selection(lib, allowed, headers);
      assert [] + selected == selected;
      ReadMembersSound(lib, file, e.directoryOffset, [], selected, map[]);
      assert Describes(lib, allowed, file, at, headers, r.value);
    }
  }

  lemma BodyComplete(lib: Library, allowed: set<Text>, file: Bytes, at: nat, headers: seq<Header>, files: map<Text, Bytes>)
    requires LastEnd(file, at) && EndError(|file|, at, ReadEnd(file, at)).None?
    requires Describes(lib, allowed, file, at, headers, files)
    ensures Body(lib, allowed, file, at) == Ok(files)
  {
    hide MemberAt, LastEnd, ReadEntry, WriteHeader, Unsafe, DirectoryBytes, ReadMembers, Walk;
    var e := ReadEnd(file, at);
    var selected := Selection(lib, allowed, headers);
    assert [] + selected == selected;
    WalkComplete(lib, allowed, file[e.directoryOffset..at], 0, headers, []);
    ReadMembersComplete(lib, file, e.directoryOffset, selected, map[], files);
  }
}
