/**
 The ZIP records the evidence reader reads, laid out as in sections 4.3.7, 4.3.12 and
 4.3.16 of PKWARE APPNOTE.TXT (apps/control-plane/src/scanner-evidence.ts:775-828, 877-897).

 Each record has a writer, made of its fields in order, and a reader by field offsets.
 The Layout lemmas say the two agree in both directions.
 */
module ZipFormat {
  type Byte = b: int | 0 <= b < 256
  type Bytes = seq<Byte>

  const CENTRAL_SIGNATURE: nat := 0x0201_4b50
  const LOCAL_SIGNATURE: nat := 0x0403_4b50
  const END_SIGNATURE: nat := 0x0605_4b50

  const CENTRAL_SIZE: nat := 46
  const LOCAL_SIZE: nat := 30
  const END_SIZE: nat := 22

  // ----- little-endian numbers

  /** One more than the largest number of k bytes. */
  function Limit(k: nat): nat {
    if k == 0 then 1 else 256 * Limit(k - 1)
  }

  function Number(b: Bytes): (n: nat)
    ensures n < Limit(|b|)
  {
    if b == [] then 0 else b[0] as int + 256 * Number(b[1..])
  }

  function Digits(n: nat, k: nat): (b: Bytes)
    ensures |b| == k
  {
    if k == 0 then [] else [n % 256] + Digits(n / 256, k - 1)
  }

  lemma {:induction false} NumberOfDigits(n: nat, k: nat)
    requires n < Limit(k)
    ensures Number(Digits(n, k)) == n
    decreases k
  {
    if k > 0 {
      NumberOfDigits(n / 256, k - 1);
      assert Digits(n, k)[1..] == Digits(n / 256, k - 1);
    }
  }

  lemma {:induction false} DigitsOfNumber(b: Bytes)
    ensures Digits(Number(b), |b|) == b
    decreases |b|
  {
    if b != [] {
      DigitsOfNumber(b[1..]);
      assert b == [b[0]] + b[1..];
    }
  }

  function U16(b: Bytes, i: nat): nat
    requires i + 2 <= |b|
  {
    Number(b[i..i + 2])
  }

  function U32(b: Bytes, i: nat): nat
    requires i + 4 <= |b|
  {
    Number(b[i..i + 4])
  }

  const LIMIT16: nat := 0x1_0000
  const LIMIT32: nat := 0x1_0000_0000

  lemma Limits()
    ensures Limit(2) == LIMIT16 && Limit(4) == LIMIT32
  {
    assert Limit(1) == 256 * Limit(0);
    assert Limit(3) == 256 * Limit(2) == 256 * 256 * Limit(1);
  }

  // ----- bytes at a position

  /** d holds the bytes w at a position. */
  predicate Holds(d: Bytes, at: nat, w: Bytes) {
    at + |w| <= |d| && d[at..at + |w|] == w
  }

  lemma HoldsBoth(d: Bytes, at: nat, a: Bytes, b: Bytes)
    ensures Holds(d, at, a + b) <==> Holds(d, at, a) && Holds(d, at + |a|, b)
  {
    if at + |a| + |b| <= |d| {
      var whole := d[at..at + |a + b|];
      assert whole[..|a|] == d[at..at + |a|] && whole[|a|..] == d[at + |a|..at + |a| + |b|];
      assert (a + b)[..|a|] == a && (a + b)[|a|..] == b;
      assert whole == whole[..|a|] + whole[|a|..];
    }
  }

  lemma HoldsNumber(d: Bytes, at: nat, n: nat, k: nat)
    requires n < Limit(k)
    ensures Holds(d, at, Digits(n, k)) <==> at + k <= |d| && Number(d[at..at + k]) == n
  {
    NumberOfDigits(n, k);
    if at + k <= |d| {
      DigitsOfNumber(d[at..at + k]);
    }
  }

  lemma Holds16(d: Bytes, at: nat, n: nat)
    requires n < LIMIT16
    ensures Holds(d, at, Digits(n, 2)) <==> at + 2 <= |d| && U16(d, at) == n
  {
    Limits();
    HoldsNumber(d, at, n, 2);
  }

  lemma Holds32(d: Bytes, at: nat, n: nat)
    requires n < LIMIT32
    ensures Holds(d, at, Digits(n, 4)) <==> at + 4 <= |d| && U32(d, at) == n
  {
    Limits();
    HoldsNumber(d, at, n, 4);
  }

  // ----- central directory entries

  /** The fields the reader uses, and those it skips: versions, time stamp and CRC, attributes. */
  datatype Header = Header(
    versions: Bytes, flags: nat, compression: nat, stamp: Bytes, compressedSize: nat, uncompressedSize: nat,
    attributes: Bytes, offset: nat, name: Bytes, extra: Bytes, comment: Bytes)

  predicate FitsHeader(h: Header) {
    && h.flags < LIMIT16 && h.compression < LIMIT16
    && h.compressedSize < LIMIT32 && h.uncompressedSize < LIMIT32 && h.offset < LIMIT32
    && |h.name| < LIMIT16 && |h.extra| < LIMIT16 && |h.comment| < LIMIT16
    && |h.versions| == 4 && |h.stamp| == 8 && |h.attributes| == 8
  }

  function Identification(h: Header): Bytes {
    Digits(CENTRAL_SIGNATURE, 4) + (h.versions + (Digits(h.flags, 2) + (Digits(h.compression, 2) + h.stamp)))
  }

  function Sizes(h: Header): Bytes {
    Digits(h.compressedSize, 4)
    + (Digits(h.uncompressedSize, 4) + (Digits(|h.name|, 2) + (Digits(|h.extra|, 2) + Digits(|h.comment|, 2))))
  }

  function Location(h: Header): Bytes {
    h.attributes + Digits(h.offset, 4)
  }

  function Variable(h: Header): Bytes {
    h.name + (h.extra + h.comment)
  }

  function WriteHeader(h: Header): (w: Bytes)
    requires FitsHeader(h)
    ensures |w| == CENTRAL_SIZE + |h.name| + |h.extra| + |h.comment|
  {
    Identification(h) + (Sizes(h) + (Location(h) + Variable(h)))
  }

  predicate IdentificationAt(d: Bytes, at: nat, h: Header)
    requires at + CENTRAL_SIZE <= |d|
  {
    && U32(d, at) == CENTRAL_SIGNATURE && d[at + 4..at + 8] == h.versions
    && U16(d, at + 8) == h.flags && U16(d, at + 10) == h.compression && d[at + 12..at + 20] == h.stamp
  }

  predicate SizesAt(d: Bytes, at: nat, h: Header)
    requires at + CENTRAL_SIZE <= |d|
  {
    && U32(d, at + 20) == h.compressedSize && U32(d, at + 24) == h.uncompressedSize
    && U16(d, at + 28) == |h.name| && U16(d, at + 30) == |h.extra| && U16(d, at + 32) == |h.comment|
  }

  predicate LocationAt(d: Bytes, at: nat, h: Header)
    requires at + CENTRAL_SIZE <= |d|
  {
    d[at + 34..at + 42] == h.attributes && U32(d, at + 42) == h.offset
  }

  predicate VariableAt(d: Bytes, at: nat, h: Header)
    requires at + CENTRAL_SIZE + |h.name| + |h.extra| + |h.comment| <= |d|
  {
    var nameEnd := at + CENTRAL_SIZE + |h.name|;
    var extraEnd := nameEnd + |h.extra|;
    && d[at + CENTRAL_SIZE..nameEnd] == h.name && d[nameEnd..extraEnd] == h.extra
    && d[extraEnd..extraEnd + |h.comment|] == h.comment
  }

  lemma IdentificationLayout(d: Bytes, at: nat, h: Header)
    requires FitsHeader(h) && at + CENTRAL_SIZE <= |d|
    ensures |Identification(h)| == 20 && (Holds(d, at, Identification(h)) <==> IdentificationAt(d, at, h))
  {
    HoldsBoth(d, at, Digits(CENTRAL_SIGNATURE, 4),
              h.versions + (Digits(h.flags, 2) + (Digits(h.compression, 2) + h.stamp)));
    HoldsBoth(d, at + 4, h.versions, Digits(h.flags, 2) + (Digits(h.compression, 2) + h.stamp));
    HoldsBoth(d, at + 8, Digits(h.flags, 2), Digits(h.compression, 2) + h.stamp);
    HoldsBoth(d, at + 10, Digits(h.compression, 2), h.stamp);
    Holds32(d, at, CENTRAL_SIGNATURE);
    Holds16(d, at + 8, h.flags);
    Holds16(d, at + 10, h.compression);
  }

  lemma SizesLayout(d: Bytes, at: nat, h: Header)
    requires FitsHeader(h) && at + CENTRAL_SIZE <= |d|
    ensures |Sizes(h)| == 14 && (Holds(d, at + 20, Sizes(h)) <==> SizesAt(d, at, h))
  {
    HoldsBoth(d, at + 20, Digits(h.compressedSize, 4),
              Digits(h.uncompressedSize, 4) + (Digits(|h.name|, 2) + (Digits(|h.extra|, 2) + Digits(|h.comment|, 2))));
    HoldsBoth(d, at + 24, Digits(h.uncompressedSize, 4),
              Digits(|h.name|, 2) + (Digits(|h.extra|, 2) + Digits(|h.comment|, 2)));
    HoldsBoth(d, at + 28, Digits(|h.name|, 2), Digits(|h.extra|, 2) + Digits(|h.comment|, 2));
    HoldsBoth(d, at + 30, Digits(|h.extra|, 2), Digits(|h.comment|, 2));
    Holds32(d, at + 20, h.compressedSize);
    Holds32(d, at + 24, h.uncompressedSize);
    Holds16(d, at + 28, |h.name|);
    Holds16(d, at + 30, |h.extra|);
    Holds16(d, at + 32, |h.comment|);
  }

  lemma LocationLayout(d: Bytes, at: nat, h: Header)
    requires FitsHeader(h) && at + CENTRAL_SIZE <= |d|
    ensures |Location(h)| == 12 && (Holds(d, at + 34, Location(h)) <==> LocationAt(d, at, h))
  {
    HoldsBoth(d, at + 34, h.attributes, Digits(h.offset, 4));
    Holds32(d, at + 42, h.offset);
  }

  lemma VariableLayout(d: Bytes, at: nat, h: Header)
    requires at + CENTRAL_SIZE + |h.name| + |h.extra| + |h.comment| <= |d|
    ensures Holds(d, at + CENTRAL_SIZE, Variable(h)) <==> VariableAt(d, at, h)
  {
    HoldsBoth(d, at + CENTRAL_SIZE, h.name, h.extra + h.comment);
    HoldsBoth(d, at + CENTRAL_SIZE + |h.name|, h.extra, h.comment);
  }

  /** A written header, field by field. */
  lemma HeaderLayout(d: Bytes, at: nat, h: Header)
    requires FitsHeader(h) && at + |WriteHeader(h)| <= |d|
    ensures Holds(d, at, WriteHeader(h)) <==>
            IdentificationAt(d, at, h) && SizesAt(d, at, h) && LocationAt(d, at, h) && VariableAt(d, at, h)
  {
    IdentificationLayout(d, at, h);
    SizesLayout(d, at, h);
    LocationLayout(d, at, h);
    VariableLayout(d, at, h);
    HoldsBoth(d, at, Identification(h), Sizes(h) + (Location(h) + Variable(h)));
    HoldsBoth(d, at + 20, Sizes(h), Location(h) + Variable(h));
    HoldsBoth(d, at + 34, Location(h), Variable(h));
  }

  function HeaderLength(d: Bytes, at: nat): nat
    requires at + CENTRAL_SIZE <= |d|
  {
    CENTRAL_SIZE + U16(d, at + 28) + U16(d, at + 30) + U16(d, at + 32)
  }

  function ReadHeader(d: Bytes, at: nat): (h: Header)
    requires at + CENTRAL_SIZE <= |d| && at + HeaderLength(d, at) <= |d|
    ensures FitsHeader(h)
  {
    Limits();
    var nameEnd := at + CENTRAL_SIZE + U16(d, at + 28);
    var extraEnd := nameEnd + U16(d, at + 30);
    Header(
      d[at + 4..at + 8], U16(d, at + 8), U16(d, at + 10), d[at + 12..at + 20],
      U32(d, at + 20), U32(d, at + 24), d[at + 34..at + 42], U32(d, at + 42),
      d[at + CENTRAL_SIZE..nameEnd], d[nameEnd..extraEnd], d[extraEnd..extraEnd + U16(d, at + 32)])
  }

  /** Every entry read is a written entry: nothing in its span is left unaccounted for. */
  lemma WriteAfterRead(d: Bytes, at: nat)
    requires at + CENTRAL_SIZE <= |d| && at + HeaderLength(d, at) <= |d| && U32(d, at) == CENTRAL_SIGNATURE
    ensures |WriteHeader(ReadHeader(d, at))| == HeaderLength(d, at)
    ensures Holds(d, at, WriteHeader(ReadHeader(d, at)))
  {
    HeaderLayout(d, at, ReadHeader(d, at));
  }

  lemma ReadAfterWrite(d: Bytes, at: nat, h: Header)
    requires FitsHeader(h) && Holds(d, at, WriteHeader(h))
    ensures U32(d, at) == CENTRAL_SIGNATURE && HeaderLength(d, at) == |WriteHeader(h)|
    ensures ReadHeader(d, at) == h
  {
    HeaderLayout(d, at, h);
  }

  // ----- local file headers

  /** A local header: the fields the reader compares, and those it skips. */
  datatype Local = Local(version: Bytes, flags: nat, compression: nat, rest: Bytes, name: Bytes, extra: Bytes)

  predicate FitsLocal(l: Local) {
    && l.flags < LIMIT16 && l.compression < LIMIT16
    && |l.name| < LIMIT16 && |l.extra| < LIMIT16 && |l.version| == 2 && |l.rest| == 16
  }

  function LocalStart(l: Local): Bytes {
    Digits(LOCAL_SIGNATURE, 4) + (l.version + (Digits(l.flags, 2) + (Digits(l.compression, 2) + l.rest)))
  }

  function LocalNames(l: Local): Bytes {
    Digits(|l.name|, 2) + (Digits(|l.extra|, 2) + l.name)
  }

  function WriteLocal(l: Local): (w: Bytes)
    requires FitsLocal(l)
    ensures |w| == LOCAL_SIZE + |l.name| + |l.extra|
  {
    LocalStart(l) + (LocalNames(l) + l.extra)
  }

  lemma LocalStartLayout(d: Bytes, at: nat, l: Local)
    requires FitsLocal(l) && Holds(d, at, LocalStart(l))
    ensures |LocalStart(l)| == 26
    ensures U32(d, at) == LOCAL_SIGNATURE && U16(d, at + 6) == l.flags && U16(d, at + 8) == l.compression
  {
    HoldsBoth(d, at, Digits(LOCAL_SIGNATURE, 4),
              l.version + (Digits(l.flags, 2) + (Digits(l.compression, 2) + l.rest)));
    HoldsBoth(d, at + 4, l.version, Digits(l.flags, 2) + (Digits(l.compression, 2) + l.rest));
    HoldsBoth(d, at + 6, Digits(l.flags, 2), Digits(l.compression, 2) + l.rest);
    HoldsBoth(d, at + 8, Digits(l.compression, 2), l.rest);
    Holds32(d, at, LOCAL_SIGNATURE);
    Holds16(d, at + 6, l.flags);
    Holds16(d, at + 8, l.compression);
  }

  lemma ReadAfterWriteLocal(d: Bytes, at: nat, l: Local)
    requires FitsLocal(l) && Holds(d, at, WriteLocal(l))
    ensures U32(d, at) == LOCAL_SIGNATURE && U16(d, at + 6) == l.flags && U16(d, at + 8) == l.compression
    ensures U16(d, at + 26) == |l.name| && U16(d, at + 28) == |l.extra|
    ensures Holds(d, at + LOCAL_SIZE, l.name)
  {
    HoldsBoth(d, at, LocalStart(l), LocalNames(l) + l.extra);
    LocalStartLayout(d, at, l);
    HoldsBoth(d, at + 26, LocalNames(l), l.extra);
    HoldsBoth(d, at + 26, Digits(|l.name|, 2), Digits(|l.extra|, 2) + l.name);
    HoldsBoth(d, at + 28, Digits(|l.extra|, 2), l.name);
    Holds16(d, at + 26, |l.name|);
    Holds16(d, at + 28, |l.extra|);
  }

  // ----- the end of central directory record

  datatype EndRecord = EndRecord(
    disk: nat, directoryDisk: nat, entriesOnDisk: nat, entries: nat,
    directorySize: nat, directoryOffset: nat, commentLength: nat)

  predicate FitsEnd(e: EndRecord) {
    && e.disk < LIMIT16 && e.directoryDisk < LIMIT16 && e.entriesOnDisk < LIMIT16 && e.entries < LIMIT16
    && e.directorySize < LIMIT32 && e.directoryOffset < LIMIT32 && e.commentLength < LIMIT16
  }

  function ReadEnd(d: Bytes, at: nat): EndRecord
    requires at + END_SIZE <= |d|
  {
    EndRecord(
      U16(d, at + 4), U16(d, at + 6), U16(d, at + 8), U16(d, at + 10),
      U32(d, at + 12), U32(d, at + 16), U16(d, at + 20))
  }

  function EndCounts(e: EndRecord): Bytes {
    Digits(END_SIGNATURE, 4)
    + (Digits(e.disk, 2) + (Digits(e.directoryDisk, 2) + (Digits(e.entriesOnDisk, 2) + Digits(e.entries, 2))))
  }

  function EndBounds(e: EndRecord): Bytes {
    Digits(e.directorySize, 4) + (Digits(e.directoryOffset, 4) + Digits(e.commentLength, 2))
  }

  function WriteEnd(e: EndRecord): (w: Bytes)
    ensures |w| == END_SIZE
  {
    EndCounts(e) + EndBounds(e)
  }

  lemma EndCountsLayout(d: Bytes, at: nat, e: EndRecord)
    requires FitsEnd(e) && Holds(d, at, EndCounts(e))
    ensures |EndCounts(e)| == 12 && U32(d, at) == END_SIGNATURE
    ensures U16(d, at + 4) == e.disk && U16(d, at + 6) == e.directoryDisk
    ensures U16(d, at + 8) == e.entriesOnDisk && U16(d, at + 10) == e.entries
  {
    HoldsBoth(d, at, Digits(END_SIGNATURE, 4),
              Digits(e.disk, 2) + (Digits(e.directoryDisk, 2) + (Digits(e.entriesOnDisk, 2) + Digits(e.entries, 2))));
    HoldsBoth(d, at + 4, Digits(e.disk, 2),
              Digits(e.directoryDisk, 2) + (Digits(e.entriesOnDisk, 2) + Digits(e.entries, 2)));
    HoldsBoth(d, at + 6, Digits(e.directoryDisk, 2), Digits(e.entriesOnDisk, 2) + Digits(e.entries, 2));
    HoldsBoth(d, at + 8, Digits(e.entriesOnDisk, 2), Digits(e.entries, 2));
    Holds32(d, at, END_SIGNATURE);
    Holds16(d, at + 4, e.disk);
    Holds16(d, at + 6, e.directoryDisk);
    Holds16(d, at + 8, e.entriesOnDisk);
    Holds16(d, at + 10, e.entries);
  }

  lemma ReadAfterWriteEnd(d: Bytes, at: nat, e: EndRecord)
    requires FitsEnd(e) && Holds(d, at, WriteEnd(e))
    ensures U32(d, at) == END_SIGNATURE && ReadEnd(d, at) == e
  {
    HoldsBoth(d, at, EndCounts(e), EndBounds(e));
    EndCountsLayout(d, at, e);
    HoldsBoth(d, at + 12, Digits(e.directorySize, 4), Digits(e.directoryOffset, 4) + Digits(e.commentLength, 2));
    HoldsBoth(d, at + 16, Digits(e.directoryOffset, 4), Digits(e.commentLength, 2));
    Holds32(d, at + 12, e.directorySize);
    Holds32(d, at + 16, e.directoryOffset);
    Holds16(d, at + 20, e.commentLength);
  }
}
