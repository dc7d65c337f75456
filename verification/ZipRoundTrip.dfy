/**
 A ZIP writer laid out as sections 4.3.7, 4.3.9, 4.3.12 and 4.3.16 of PKWARE's APPNOTE.TXT say, and the
 theorem that the reader gives back exactly the names and bytes that were written.
 */
module ZipRoundTrip {
  import opened Wrappers
  import opened Bytes
  import opened EntryNames
  import opened ZipReader
  import opened ZipSoundness
  import Crc32

  /**
   One file to write. `payload` is what is stored: the content itself, or its raw deflate stream. The header
   fields the reader does not interpret (time stamp, attributes) are free.
   */
  datatype Member = Member(
    name: string, nameBytes: seq<byte>, content: seq<byte>, payload: seq<byte>, method_: nat, flags: nat,
    described: bool, needed: nat, madeBy: nat, stamp: nat, internalAttrs: nat, externalAttrs: nat)

  function Le16(n: nat): seq<byte>
    requires n <= UINT16_MAX
  {
    [n % 0x100, n / 0x100]
  }

  function Le32(n: nat): seq<byte>
    requires n <= UINT32_MAX
  {
    [n % 0x100, n / 0x100 % 0x100, n / 0x1_0000 % 0x100, n / 0x100_0000]
  }

  lemma Le32RoundTrip(n: nat)
    requires n <= UINT32_MAX
    ensures U32(Le32(n), 0) == n
  {
    var low, high := n % 0x1_0000, n / 0x1_0000;
    assert n / 0x100 % 0x100 == low / 0x100 && n % 0x100 == low % 0x100;
    assert n / 0x100_0000 == high / 0x100;
  }

  /** The bytes at `p` are `part`. */
  ghost predicate Holds(buf: seq<byte>, p: nat, part: seq<byte>) {
    p + |part| <= |buf| && buf[p..p + |part|] == part
  }

  lemma HoldsPart(buf: seq<byte>, p: nat, a: seq<byte>, b: seq<byte>)
    requires Holds(buf, p, a + b)
    ensures Holds(buf, p, a) && Holds(buf, p + |a|, b)
  {
    var whole := buf[p..p + |a + b|];
    assert whole[..|a|] == a && whole[|a|..] == b;
    assert buf[p..p + |a|] == whole[..|a|];
    assert buf[p + |a|..p + |a| + |b|] == whole[|a|..];
  }

  lemma Field16(buf: seq<byte>, p: nat, n: nat, rest: seq<byte>)
    requires n <= UINT16_MAX && Holds(buf, p, Le16(n) + rest)
    ensures p + 2 <= |buf| && U16(buf, p) == n && Holds(buf, p + 2, rest)
  {
    HoldsPart(buf, p, Le16(n), rest);
    var part := buf[p..p + 2];
    assert part == Le16(n);
    assert buf[p] == part[0] && buf[p + 1] == part[1];
  }

  lemma Field32(buf: seq<byte>, p: nat, n: nat, rest: seq<byte>)
    requires n <= UINT32_MAX && Holds(buf, p, Le32(n) + rest)
    ensures p + 4 <= |buf| && U32(buf, p) == n && Holds(buf, p + 4, rest)
  {
    HoldsPart(buf, p, Le32(n), rest);
    Le32RoundTrip(n);
    var part := buf[p..p + 4];
    assert part == Le32(n);
    assert buf[p] == part[0] && buf[p + 1] == part[1] && buf[p + 2] == part[2] && buf[p + 3] == part[3];
  }

  ghost predicate ValidMember(m: Member, codec: Codec) {
    && codec.decodeUtf8(m.nameBytes) == Some(m.name) && |m.nameBytes| <= UINT16_MAX
    && StaysInside(m.name) && !IsDirectoryName(m.name)
    && (m.method_ == METHOD_STORED || m.method_ == METHOD_DEFLATED)
    && (m.method_ == METHOD_STORED ==> m.payload == m.content)
    && (m.method_ == METHOD_DEFLATED ==> codec.inflateRaw(m.payload) == Inflated(m.content))
    && |m.content| <= MAX_INDIVIDUAL_BYTES && |m.payload| < UINT32_MAX
    && m.flags <= UINT16_MAX && !Flag(m.flags, 0x01) && !Flag(m.flags, 0x40) && Flag(m.flags, 0x08) == m.described
    && m.needed < 45 && m.madeBy <= UINT16_MAX && m.stamp <= UINT32_MAX
    && m.internalAttrs <= UINT16_MAX && m.externalAttrs <= UINT32_MAX && !SpecialFile(m.madeBy, m.externalAttrs)
  }

  function Crc(m: Member): nat { Crc32.ChecksumValue(m.content) }

  lemma ChecksumFits(m: Member)
    ensures Crc(m) <= UINT32_MAX
  {
  }

  // ----- the writer

  /** The sizes and header values the layout can express. */
  predicate Encodable(m: Member) {
    m.flags <= UINT16_MAX && m.needed <= UINT16_MAX && m.method_ <= UINT16_MAX && m.madeBy <= UINT16_MAX &&
    m.stamp <= UINT32_MAX && m.internalAttrs <= UINT16_MAX && m.externalAttrs <= UINT32_MAX &&
    |m.payload| <= UINT32_MAX && |m.content| <= UINT32_MAX && |m.nameBytes| <= UINT16_MAX
  }

  /** Section 4.3.9, with its signature. */
  function Descriptor(m: Member): seq<byte>
    requires Encodable(m)
  {
    ChecksumFits(m);
    if m.described then Le32(SIG_DESCRIPTOR) + (Le32(Crc(m)) + (Le32(|m.payload|) + (Le32(|m.content|) + [])))
    else []
  }

  /** Section 4.3.7. With a descriptor to follow, checksum and sizes are zero here. */
  function Local(m: Member): seq<byte>
    requires Encodable(m)
  {
    ChecksumFits(m);
    if m.described then LocalBytes(m, 0, 0, 0) else LocalBytes(m, Crc(m), |m.payload|, |m.content|)
  }

  function LocalBytes(m: Member, crc: nat, compressed: nat, uncompressed: nat): seq<byte>
    requires Encodable(m) && crc <= UINT32_MAX && compressed <= UINT32_MAX && uncompressed <= UINT32_MAX
  {
    Le32(SIG_LOCAL) + (Le16(m.needed) + (Le16(m.flags) + (Le16(m.method_) + (Le32(m.stamp) + (Le32(crc) +
    (Le32(compressed) + (Le32(uncompressed) + (Le16(|m.nameBytes|) + (Le16(0) +
    (m.nameBytes + (m.payload + Descriptor(m))))))))))))
  }

  /** Section 4.3.12, with no extra field and no comment. */
  function Central(m: Member, offset: nat): seq<byte>
    requires Encodable(m) && offset <= UINT32_MAX
  {
    ChecksumFits(m);
    Le32(SIG_CENTRAL) + (Le16(m.madeBy) + (Le16(m.needed) + (Le16(m.flags) + (Le16(m.method_) + (Le32(m.stamp) +
    (Le32(Crc(m)) + (Le32(|m.payload|) + (Le32(|m.content|) + (Le16(|m.nameBytes|) + (Le16(0) + (Le16(0) +
    (Le16(0) + (Le16(m.internalAttrs) + (Le32(m.externalAttrs) + (Le32(offset) + m.nameBytes)))))))))))))))
  }

  /** Section 4.3.16, with no comment. */
  function EndOfDirectory(count: nat, size: nat, offset: nat): seq<byte>
    requires count <= UINT16_MAX && size <= UINT32_MAX && offset <= UINT32_MAX
  {
    Le32(SIG_EOCD) + (Le16(0) + (Le16(0) + (Le16(count) + (Le16(count) + (Le32(size) + (Le32(offset) + Le16(0)))))))
  }

  function LocalSize(m: Member): nat {
    30 + |m.nameBytes| + |m.payload| + if m.described then 16 else 0
  }

  function CentralSize(m: Member): nat { 46 + |m.nameBytes| }

  lemma RecordSizes(m: Member, offset: nat)
    requires Encodable(m) && offset <= UINT32_MAX
    ensures |Local(m)| == LocalSize(m) && |Central(m, offset)| == CentralSize(m)
  {
  }

  function LocalsSize(ms: seq<Member>): nat {
    if ms == [] then 0 else LocalSize(ms[0]) + LocalsSize(ms[1..])
  }

  function CentralsSize(ms: seq<Member>): nat {
    if ms == [] then 0 else CentralSize(ms[0]) + CentralsSize(ms[1..])
  }

  ghost predicate AllEncodable(ms: seq<Member>) {
    forall i :: 0 <= i < |ms| ==> Encodable(ms[i])
  }

  function Locals(ms: seq<Member>): (bytes: seq<byte>)
    requires AllEncodable(ms)
    ensures |bytes| == LocalsSize(ms)
  {
    if ms == [] then []
    else
      RecordSizes(ms[0], 0);
      Local(ms[0]) + Locals(ms[1..])
  }

  function Centrals(ms: seq<Member>, offset: nat): (bytes: seq<byte>)
    requires AllEncodable(ms) && offset + LocalsSize(ms) <= UINT32_MAX
    ensures |bytes| == CentralsSize(ms)
    decreases |ms|
  {
    if ms == [] then []
    else
      RecordSizes(ms[0], offset);
      Central(ms[0], offset) + Centrals(ms[1..], offset + LocalSize(ms[0]))
  }

  /** Every field of the archive fits its width. */
  ghost predicate ArchiveFits(ms: seq<Member>) {
    AllEncodable(ms) && |ms| <= UINT16_MAX && LocalsSize(ms) <= UINT32_MAX && CentralsSize(ms) <= UINT32_MAX
  }

  /** The archive: local records, central directory, end record. */
  function Written(ms: seq<Member>): (bytes: seq<byte>)
    requires ArchiveFits(ms)
    ensures |bytes| == LocalsSize(ms) + CentralsSize(ms) + 22
  {
    Locals(ms) + (Centrals(ms, 0) + EndOfDirectory(|ms|, CentralsSize(ms), LocalsSize(ms)))
  }

  // ----- reading one record back

  function EntryOf(m: Member, offset: nat): CentralEntry {
    CentralEntry(m.name, m.method_, m.flags, Crc(m), |m.payload|, |m.content|, offset)
  }

  /** The fixed fields of a local record, read back. */
  lemma LocalFields(buf: seq<byte>, o: nat, m: Member, crc: nat, compressed: nat, uncompressed: nat)
    requires Encodable(m) && crc <= UINT32_MAX && compressed <= UINT32_MAX && uncompressed <= UINT32_MAX
    requires Holds(buf, o, LocalBytes(m, crc, compressed, uncompressed))
    ensures o + 30 + |m.nameBytes| + |m.payload| + |Descriptor(m)| <= |buf|
    ensures U32(buf, o) == SIG_LOCAL && U16(buf, o + 4) == m.needed && U16(buf, o + 6) == m.flags
    ensures U16(buf, o + 8) == m.method_ && U32(buf, o + 14) == crc
    ensures U32(buf, o + 18) == compressed && U32(buf, o + 22) == uncompressed
    ensures U16(buf, o + 26) == |m.nameBytes| && U16(buf, o + 28) == 0
    ensures Holds(buf, o + 30, m.nameBytes)
    ensures Holds(buf, o + 30 + |m.nameBytes|, m.payload)
    ensures Holds(buf, o + 30 + |m.nameBytes| + |m.payload|, Descriptor(m))
  {
    hide U16, U32, Le16, Le32, Holds, Descriptor;
    var r9 := m.nameBytes + (m.payload + Descriptor(m));
    var r8 := Le16(0) + r9;
    var r7 := Le16(|m.nameBytes|) + r8;
    var r6 := Le32(uncompressed) + r7;
    var r5 := Le32(compressed) + r6;
    var r4 := Le32(crc) + r5;
    var r3 := Le32(m.stamp) + r4;
    var r2 := Le16(m.method_) + r3;
    var r1 := Le16(m.flags) + r2;
    Field32(buf, o, SIG_LOCAL, Le16(m.needed) + r1);
    Field16(buf, o + 4, m.needed, r1);
    Field16(buf, o + 6, m.flags, r2);
    Field16(buf, o + 8, m.method_, r3);
    Field32(buf, o + 10, m.stamp, r4);
    Field32(buf, o + 14, crc, r5);
    Field32(buf, o + 18, compressed, r6);
    Field32(buf, o + 22, uncompressed, r7);
    Field16(buf, o + 26, |m.nameBytes|, r8);
    Field16(buf, o + 28, 0, r9);
    HoldsPart(buf, o + 30, m.nameBytes, m.payload + Descriptor(m));
    HoldsPart(buf, o + 30 + |m.nameBytes|, m.payload, Descriptor(m));
    HoldsLength(buf, o + 30 + |m.nameBytes| + |m.payload|, Descriptor(m));
  }

  lemma HoldsLength(buf: seq<byte>, p: nat, part: seq<byte>)
    requires Holds(buf, p, part)
    ensures p + |part| <= |buf|
  {
  }

  lemma DescriptorFields(buf: seq<byte>, p: nat, m: Member)
    requires Encodable(m) && m.described && Holds(buf, p, Descriptor(m))
    ensures p + 16 <= |buf| && U32(buf, p) == SIG_DESCRIPTOR && U32(buf, p + 4) == Crc(m)
    ensures U32(buf, p + 8) == |m.payload| && U32(buf, p + 12) == |m.content|
  {
    hide U32, Le32, Holds;
    ChecksumFits(m);
    var r3 := Le32(|m.content|) + [];
    var r2 := Le32(|m.payload|) + r3;
    var r1 := Le32(Crc(m)) + r2;
    Field32(buf, p, SIG_DESCRIPTOR, r1);
    Field32(buf, p + 4, Crc(m), r2);
    Field32(buf, p + 8, |m.payload|, r3);
    Field32(buf, p + 12, |m.content|, []);
  }

  lemma CentralFields(buf: seq<byte>, o: nat, m: Member, offset: nat)
    requires Encodable(m) && offset <= UINT32_MAX && Holds(buf, o, Central(m, offset))
    ensures o + 46 + |m.nameBytes| <= |buf|
    ensures U32(buf, o) == SIG_CENTRAL && U16(buf, o + 4) == m.madeBy && U16(buf, o + 6) == m.needed
    ensures U16(buf, o + 8) == m.flags && U16(buf, o + 10) == m.method_ && U32(buf, o + 16) == Crc(m)
    ensures U32(buf, o + 20) == |m.payload| && U32(buf, o + 24) == |m.content|
    ensures U16(buf, o + 28) == |m.nameBytes| && U16(buf, o + 30) == 0 && U16(buf, o + 32) == 0
    ensures U32(buf, o + 38) == m.externalAttrs && U32(buf, o + 42) == offset
    ensures Holds(buf, o + 46, m.nameBytes)
  {
    hide U16, U32, Le16, Le32, Holds;
    ChecksumFits(m);
    var rF := Le32(offset) + m.nameBytes;
    var rE := Le32(m.externalAttrs) + rF;
    var rD := Le16(m.internalAttrs) + rE;
    var rC := Le16(0) + rD;
    var rB := Le16(0) + rC;
    var rA := Le16(0) + rB;
    var r9 := Le16(|m.nameBytes|) + rA;
    var r8 := Le32(|m.content|) + r9;
    var r7 := Le32(|m.payload|) + r8;
    var r6 := Le32(Crc(m)) + r7;
    var r5 := Le32(m.stamp) + r6;
    var r4 := Le16(m.method_) + r5;
    var r3 := Le16(m.flags) + r4;
    var r2 := Le16(m.needed) + r3;
    var r1 := Le16(m.madeBy) + r2;
    Field32(buf, o, SIG_CENTRAL, r1);
    Field16(buf, o + 4, m.madeBy, r2);
    Field16(buf, o + 6, m.needed, r3);
    Field16(buf, o + 8, m.flags, r4);
    Field16(buf, o + 10, m.method_, r5);
    Field32(buf, o + 12, m.stamp, r6);
    Field32(buf, o + 16, Crc(m), r7);
    Field32(buf, o + 20, |m.payload|, r8);
    Field32(buf, o + 24, |m.content|, r9);
    Field16(buf, o + 28, |m.nameBytes|, rA);
    Field16(buf, o + 30, 0, rB);
    Field16(buf, o + 32, 0, rC);
    Field16(buf, o + 34, 0, rD);
    Field16(buf, o + 36, m.internalAttrs, rE);
    Field32(buf, o + 38, m.externalAttrs, rF);
    Field32(buf, o + 42, offset, m.nameBytes);
    HoldsLength(buf, o + 46, m.nameBytes);
  }

  lemma EndFields(buf: seq<byte>, p: nat, count: nat, size: nat, offset: nat)
    requires count <= UINT16_MAX && size <= UINT32_MAX && offset <= UINT32_MAX
    requires Holds(buf, p, EndOfDirectory(count, size, offset))
    ensures p + 22 <= |buf| && U32(buf, p) == SIG_EOCD && U16(buf, p + 4) == 0 && U16(buf, p + 6) == 0
    ensures U16(buf, p + 8) == count && U16(buf, p + 10) == count && U32(buf, p + 12) == size
    ensures U32(buf, p + 16) == offset && U16(buf, p + 20) == 0
  {
    hide U16, U32, Le16, Le32, Holds;
    var r7 := Le16(0) + [];
    assert Le16(0) + [] == Le16(0);
    var r6 := Le32(offset) + r7;
    var r5 := Le32(size) + r6;
    var r4 := Le16(count) + r5;
    var r3 := Le16(count) + r4;
    var r2 := Le16(0) + r3;
    var r1 := Le16(0) + r2;
    Field32(buf, p, SIG_EOCD, r1);
    Field16(buf, p + 4, 0, r2);
    Field16(buf, p + 6, 0, r3);
    Field16(buf, p + 8, count, r4);
    Field16(buf, p + 10, count, r5);
    Field32(buf, p + 12, size, r6);
    Field32(buf, p + 16, offset, r7);
    Field16(buf, p + 20, 0, []);
  }

  lemma ValidIsEncodable(m: Member, codec: Codec)
    requires ValidMember(m, codec)
    ensures Encodable(m)
  {
    hide StaysInside, IsDirectoryName, Flag, SpecialFile;
  }

  /** The local fields as the reader needs them, from any valid member's record. */
  lemma MemberFields(buf: seq<byte>, o: nat, m: Member)
    requires Encodable(m) && Holds(buf, o, Local(m))
    ensures o + 30 + |m.nameBytes| + |m.payload| + |Descriptor(m)| <= |buf|
    ensures U32(buf, o) == SIG_LOCAL && U16(buf, o + 4) == m.needed && U16(buf, o + 6) == m.flags
    ensures U16(buf, o + 8) == m.method_ && U16(buf, o + 26) == |m.nameBytes| && U16(buf, o + 28) == 0
    ensures Flag(m.flags, 0x08) == m.described ==> LocalSizesAgree(buf, EntryOf(m, o))
    ensures Holds(buf, o + 30, m.nameBytes)
    ensures Holds(buf, o + 30 + |m.nameBytes|, m.payload)
    ensures Holds(buf, o + 30 + |m.nameBytes| + |m.payload|, Descriptor(m))
  {
    ChecksumFits(m);
    if m.described {
      LocalFields(buf, o, m, 0, 0, 0);
    } else {
      LocalFields(buf, o, m, Crc(m), |m.payload|, |m.content|);
    }
    hide U16, U32, Holds, Local, Descriptor, Crc, Flag;
  }

  lemma PrefixReadsBack(buf: seq<byte>, o: nat, m: Member, codec: Codec)
    requires ValidMember(m, codec) && Encodable(m) && Holds(buf, o, Local(m))
    ensures var dataStart := o + 30 + |m.nameBytes|;
            LocalPrefix(buf, EntryOf(m, o), codec) == Ok(Region(dataStart, dataStart))
  {
    hide U16, U32, StaysInside, IsDirectoryName, Flag, Crc, SpecialFile, Local, Descriptor, Encodable, LocalSizesAgree;
    MemberFields(buf, o, m);
  }

  lemma PayloadReadsBack(buf: seq<byte>, o: nat, m: Member, codec: Codec)
    requires ValidMember(m, codec) && Encodable(m) && Holds(buf, o, Local(m))
    ensures var dataStart := o + 30 + |m.nameBytes|;
            o + 30 <= |buf| &&
            LocalPayload(buf, EntryOf(m, o), dataStart, codec) == Ok(Payload(m.content, dataStart + |m.payload|))
  {
    hide U16, U32, StaysInside, IsDirectoryName, Flag, SpecialFile, Local, Descriptor, Encodable, LocalSizesAgree,
         Crc32.ChecksumValue;
    MemberFields(buf, o, m);
  }

  lemma RegionReadsBack(buf: seq<byte>, o: nat, m: Member, codec: Codec)
    requires ValidMember(m, codec) && Encodable(m) && Holds(buf, o, Local(m))
    ensures RegionEnd(buf, EntryOf(m, o), o + 30 + |m.nameBytes| + |m.payload|) == Ok(o + LocalSize(m))
  {
    hide U16, U32, StaysInside, IsDirectoryName, Flag, SpecialFile, Local, Descriptor, Encodable, Crc, Holds;
    MemberFields(buf, o, m);
    if m.described {
      DescriptorFields(buf, o + 30 + |m.nameBytes| + |m.payload|, m);
    }
  }

  lemma LocalReadsBack(buf: seq<byte>, o: nat, m: Member, codec: Codec)
    requires ValidMember(m, codec) && Encodable(m) && Holds(buf, o, Local(m))
    ensures var dataEnd := o + 30 + |m.nameBytes| + |m.payload|;
            ExtractPayload(buf, EntryOf(m, o), codec) == Ok(Payload(m.content, dataEnd)) &&
            RegionEnd(buf, EntryOf(m, o), dataEnd) == Ok(o + LocalSize(m))
  {
    hide ValidMember, Encodable, Local, Holds, LocalPrefix, LocalPayload, RegionEnd;
    PrefixReadsBack(buf, o, m, codec);
    PayloadReadsBack(buf, o, m, codec);
    RegionReadsBack(buf, o, m, codec);
  }

  lemma CentralPrefixReadsBack(buf: seq<byte>, pos: nat, m: Member, offset: nat, limit: nat, codec: Codec)
    requires ValidMember(m, codec) && Encodable(m) && offset < UINT32_MAX && Holds(buf, pos, Central(m, offset))
    requires pos + CentralSize(m) <= limit <= |buf|
    ensures CentralPrefix(buf, pos, limit, codec)
         == Ok(CentralHeader(EntryOf(m, offset), m.madeBy, m.externalAttrs, pos + 46 + |m.nameBytes|, 0,
                             CentralSize(m)))
  {
    hide U16, U32, StaysInside, SafeName, IsDirectoryName, Flag, Crc, SpecialFile, Central, Encodable;
    SafeNameExact(m.name);
    CentralFields(buf, pos, m, offset);
  }

  lemma NotRefused(m: Member, offset: nat, extra: nat, seen: set<string>, codec: Codec)
    requires ValidMember(m, codec) && m.name !in seen && forall n :: n in seen ==> !IsDirectoryName(n)
    ensures CentralRefusal(CentralHeader(EntryOf(m, offset), m.madeBy, m.externalAttrs, extra, 0, CentralSize(m)), seen)
         == None
  {
    assert IsDirectoryName(m.name + "/");
    hide StaysInside, Flag, Crc, SpecialFile;
  }

  lemma CentralReadsBack(buf: seq<byte>, pos: nat, m: Member, offset: nat, limit: nat, seen: set<string>, codec: Codec)
    requires ValidMember(m, codec) && Encodable(m) && offset < UINT32_MAX && Holds(buf, pos, Central(m, offset))
    requires pos + CentralSize(m) <= limit <= |buf|
    requires m.name !in seen && forall n :: n in seen ==> !IsDirectoryName(n)
    ensures var r := CentralRecord(buf, pos, limit, seen, codec);
            r.Ok? && r.value.entry == EntryOf(m, offset) && r.value.size == CentralSize(m)
  {
    hide ValidMember, Encodable, Holds, Central, CentralPrefix, CentralRefusal, EntryOf, CentralSize;
    CentralPrefixReadsBack(buf, pos, m, offset, limit, codec);
    NotRefused(m, offset, pos + 46 + |m.nameBytes|, seen, codec);
  }

  // ----- the whole archive

  ghost predicate AllValid(ms: seq<Member>, codec: Codec) {
    forall i :: 0 <= i < |ms| ==> ValidMember(ms[i], codec)
  }

  ghost predicate DistinctMembers(ms: seq<Member>) {
    forall i, j :: 0 <= i < j < |ms| ==> ms[i].name != ms[j].name
  }

  /** The directory entries of members written from `offset` on. */
  function EntriesOf(ms: seq<Member>, offset: nat): (es: seq<CentralEntry>)
    ensures |es| == |ms|
    decreases |ms|
  {
    if ms == [] then [] else [EntryOf(ms[0], offset)] + EntriesOf(ms[1..], offset + LocalSize(ms[0]))
  }

  function RegionsOf(ms: seq<Member>, offset: nat): seq<Region>
    decreases |ms|
  {
    if ms == [] then []
    else [Region(offset, offset + LocalSize(ms[0]))] + RegionsOf(ms[1..], offset + LocalSize(ms[0]))
  }

  function ContentsOf(ms: seq<Member>): (cs: seq<seq<byte>>)
    ensures |cs| == |ms|
  {
    seq(|ms|, i requires 0 <= i < |ms| => ms[i].content)
  }

  function ContentTotal(ms: seq<Member>): nat {
    if ms == [] then 0 else |ms[0].content| + ContentTotal(ms[1..])
  }

  lemma WalkStep(buf: seq<byte>, pos: nat, count: nat, limit: nat, seen: set<string>, codec: Codec)
    requires limit <= |buf| && count > 0 && CentralRecord(buf, pos, limit, seen, codec).Ok?
    ensures var h := CentralRecord(buf, pos, limit, seen, codec).value;
            WalkCentral(buf, pos, count, limit, seen, codec)
              == WithFirst(FilesOf(h), WalkCentral(buf, pos + h.size, count - 1, limit, seen + {h.entry.name}, codec))
  {
    hide CentralRecord;
  }

  /** What every list of members to write satisfies, head and tail. */
  lemma MembersTail(ms: seq<Member>, codec: Codec)
    requires ms != [] && AllValid(ms, codec) && AllEncodable(ms)
    ensures ValidMember(ms[0], codec) && Encodable(ms[0])
    ensures AllValid(ms[1..], codec) && AllEncodable(ms[1..])
    ensures DistinctMembers(ms) ==> DistinctMembers(ms[1..]) && NameFree(ms[1..], {ms[0].name})
  {
    hide ValidMember, Encodable;
  }

  ghost predicate NameFree(ms: seq<Member>, seen: set<string>) {
    forall i :: 0 <= i < |ms| ==> ms[i].name !in seen
  }

  lemma NameFreeTail(ms: seq<Member>, seen: set<string>)
    requires ms != [] && NameFree(ms, seen) && NameFree(ms[1..], {ms[0].name})
    ensures ms[0].name !in seen && NameFree(ms[1..], seen + {ms[0].name})
  {
    assert forall i :: 0 <= i < |ms[1..]| ==> ms[1..][i] == ms[i + 1];
  }

  ghost predicate FileNames(seen: set<string>) {
    forall n :: n in seen ==> !IsDirectoryName(n)
  }

  lemma FileNamesGrow(seen: set<string>, m: Member, codec: Codec)
    requires FileNames(seen) && ValidMember(m, codec)
    ensures FileNames(seen + {m.name}) && !IsDirectoryName(m.name)
  {
    hide StaysInside, Flag, SpecialFile, IsDirectoryName;
  }

  /** The first record is read back as its entry, and the others are held right behind it. */
  lemma FirstReadsBack(buf: seq<byte>, pos: nat, ms: seq<Member>, offset: nat, limit: nat, seen: set<string>,
                       codec: Codec)
    requires ms != [] && AllValid(ms, codec) && AllEncodable(ms)
    requires offset + LocalsSize(ms) < UINT32_MAX && Holds(buf, pos, Centrals(ms, offset))
    requires pos + CentralsSize(ms) <= limit <= |buf|
    requires FileNames(seen) && ms[0].name !in seen
    ensures var r := CentralRecord(buf, pos, limit, seen, codec);
            r.Ok? && r.value.entry.name == ms[0].name && r.value.size == CentralSize(ms[0]) &&
            FilesOf(r.value) == [EntryOf(ms[0], offset)]
    ensures FileNames(seen + {ms[0].name})
    ensures Holds(buf, pos + CentralSize(ms[0]), Centrals(ms[1..], offset + LocalSize(ms[0])))
  {
    hide Holds, Central, Encodable, CentralRecord, IsDirectoryName, ValidMember, LocalSize, CentralSize, AllValid,
         AllEncodable, DistinctMembers, NameFree, StaysInside, Flag, Crc, CentralPrefix, CentralRefusal;
    MembersTail(ms, codec);
    RecordSizes(ms[0], offset);
    HoldsPart(buf, pos, Central(ms[0], offset), Centrals(ms[1..], offset + LocalSize(ms[0])));
    CentralReadsBack(buf, pos, ms[0], offset, limit, seen, codec);
    FileNamesGrow(seen, ms[0], codec);
  }

  lemma {:induction false} WalkReadsBack(buf: seq<byte>, pos: nat, ms: seq<Member>, offset: nat, limit: nat,
                                         seen: set<string>, codec: Codec)
    requires AllValid(ms, codec) && AllEncodable(ms) && DistinctMembers(ms)
    requires offset + LocalsSize(ms) < UINT32_MAX && Holds(buf, pos, Centrals(ms, offset))
    requires pos + CentralsSize(ms) <= limit <= |buf|
    requires FileNames(seen) && NameFree(ms, seen)
    ensures WalkCentral(buf, pos, |ms|, limit, seen, codec)
         == Ok(Directory(EntriesOf(ms, offset), pos + CentralsSize(ms)))
    decreases |ms|
  {
    hide Holds, Centrals, Encodable, CentralRecord, FilesOf, ValidMember, LocalSize, CentralSize, AllValid,
         AllEncodable, DistinctMembers, NameFree, FileNames, EntryOf;
    if ms == [] {
    } else {
      var m, rest := ms[0], ms[1..];
      MembersTail(ms, codec);
      NameFreeTail(ms, seen);
      FirstReadsBack(buf, pos, ms, offset, limit, seen, codec);
      WalkReadsBack(buf, pos + CentralSize(m), rest, offset + LocalSize(m), limit, seen + {m.name}, codec);
      WalkStep(buf, pos, |ms|, limit, seen, codec);
    }
  }

  lemma ExtractStep(buf: seq<byte>, entries: seq<CentralEntry>, total: nat, cdOffset: nat, codec: Codec,
                    p: Payload, end: nat)
    requires entries != [] && ExtractPayload(buf, entries[0], codec) == Ok(p)
    requires RegionEnd(buf, entries[0], p.dataEnd) == Ok(end)
    requires total + |p.data| <= MAX_TOTAL_BYTES && end <= cdOffset
    ensures ExtractAll(buf, entries, total, cdOffset, codec)
         == Extracted(p.data, Region(entries[0].offset, end),
                      ExtractAll(buf, entries[1..], total + |p.data|, cdOffset, codec))
  {
    hide ExtractPayload, RegionEnd, Extracted;
  }

  lemma {:induction false} ExtractReadsBack(buf: seq<byte>, ms: seq<Member>, offset: nat, total: nat, cdOffset: nat,
                                            codec: Codec)
    requires AllValid(ms, codec) && AllEncodable(ms) && Holds(buf, offset, Locals(ms))
    requires offset + LocalsSize(ms) <= cdOffset && total + ContentTotal(ms) <= MAX_TOTAL_BYTES
    ensures ExtractAll(buf, EntriesOf(ms, offset), total, cdOffset, codec)
         == Ok(Extraction(ContentsOf(ms), RegionsOf(ms, offset), total + ContentTotal(ms)))
    decreases |ms|
  {
    hide Holds, Local, Encodable, ExtractPayload, RegionEnd, ValidMember, LocalSize, AllValid, AllEncodable, Crc,
         DistinctMembers, NameFree;
    if ms == [] {
      assert ContentsOf(ms) == [];
    } else {
      var m, rest := ms[0], ms[1..];
      MembersTail(ms, codec);
      RecordSizes(m, 0);
      HoldsPart(buf, offset, Local(m), Locals(rest));
      LocalReadsBack(buf, offset, m, codec);
      ExtractReadsBack(buf, rest, offset + LocalSize(m), total + |m.content|, cdOffset, codec);
      assert EntriesOf(ms, offset)[1..] == EntriesOf(rest, offset + LocalSize(m));
      var dataEnd := offset + 30 + |m.nameBytes| + |m.payload|;
      ExtractStep(buf, EntriesOf(ms, offset), total, cdOffset, codec, Payload(m.content, dataEnd),
                  offset + LocalSize(m));
      assert ContentsOf(ms) == [m.content] + ContentsOf(rest);
    }
  }

  lemma {:induction false} NamesOfEntries(ms: seq<Member>, offset: nat)
    ensures forall i :: 0 <= i < |ms| ==> EntriesOf(ms, offset)[i].name == ms[i].name
    decreases |ms|
  {
    if ms != [] {
      NamesOfEntries(ms[1..], offset + LocalSize(ms[0]));
    }
  }

  lemma {:induction false} RegionsLaidOut(ms: seq<Member>, offset: nat)
    ensures AllDisjoint(RegionsOf(ms, offset))
    ensures forall i :: 0 <= i < |RegionsOf(ms, offset)| ==> RegionsOf(ms, offset)[i].start >= offset
    decreases |ms|
  {
    hide LocalSize;
    if ms != [] {
      var next := offset + LocalSize(ms[0]);
      RegionsLaidOut(ms[1..], next);
      var rs := RegionsOf(ms, offset);
      assert rs[1..] == RegionsOf(ms[1..], next);
      forall i | 1 <= i < |rs| ensures Disjoint(rs[0], rs[i]) && rs[i].start >= offset {
        assert rs[i] == rs[1..][i - 1];
      }
    }
  }

  /** Exactly one member is the manifest, and no other name resolves to it. */
  ghost predicate OneManifestMember(ms: seq<Member>) {
    && DistinctMembers(ms)
    && (exists i :: 0 <= i < |ms| && ms[i].name == MANIFEST_FILENAME)
    && (forall i :: 0 <= i < |ms| && ms[i].name != MANIFEST_FILENAME ==> !IsManifestAlias(ms[i].name))
  }

  lemma {:induction false} CountDistinct(entries: seq<CentralEntry>)
    requires DistinctNames(entries)
    ensures ManifestCount(entries)
            == if exists i :: 0 <= i < |entries| && entries[i].name == MANIFEST_FILENAME then 1 else 0
  {
    if entries != [] {
      var rest := entries[1..];
      assert forall i :: 0 <= i < |rest| ==> rest[i] == entries[i + 1];
      CountDistinct(rest);
      if exists i :: 0 <= i < |entries| && entries[i].name == MANIFEST_FILENAME {
        var i :| 0 <= i < |entries| && entries[i].name == MANIFEST_FILENAME;
        if i > 0 {
          assert rest[i - 1].name == MANIFEST_FILENAME;
        }
      }
    }
  }

  lemma {:induction false} TotalOfEntries(ms: seq<Member>, offset: nat)
    ensures DeclaredTotal(EntriesOf(ms, offset)) == ContentTotal(ms)
    decreases |ms|
  {
    if ms != [] {
      TotalOfEntries(ms[1..], offset + LocalSize(ms[0]));
      assert EntriesOf(ms, offset)[1..] == EntriesOf(ms[1..], offset + LocalSize(ms[0]));
    }
  }

  lemma DirectoryReadsBack(ms: seq<Member>, offset: nat)
    requires OneManifestMember(ms) && ContentTotal(ms) <= MAX_TOTAL_BYTES
    ensures DistinctNames(EntriesOf(ms, offset))
    ensures DirectoryRefusal(EntriesOf(ms, offset)) == None
  {
    hide IsManifestAlias, EntriesOf, ManifestCount, DeclaredTotal, ContentTotal;
    var es := EntriesOf(ms, offset);
    NamesOfEntries(ms, offset);
    assert DistinctNames(es);
    CountDistinct(es);
    assert ManifestCount(es) == 1 by {
      var i :| 0 <= i < |ms| && ms[i].name == MANIFEST_FILENAME;
      assert es[i].name == MANIFEST_FILENAME;
    }
    assert !HasAlias(es);
    TotalOfEntries(ms, offset);
  }

  /** What the members are, as a map. */
  function ContentMap(ms: seq<Member>): map<string, seq<byte>>
    requires DistinctMembers(ms)
  {
    map i | 0 <= i < |ms| :: ms[i].name := ms[i].content
  }

  /** The members respect every limit of the reader. */
  ghost predicate WithinLimits(ms: seq<Member>) {
    |ms| <= MAX_ENTRY_COUNT && ContentTotal(ms) <= MAX_TOTAL_BYTES &&
    LocalsSize(ms) + CentralsSize(ms) + 22 <= MAX_ARCHIVE_BYTES
  }

  /** Valid members within the reader's limits always fit the layout's fields. */
  lemma LimitsFit(ms: seq<Member>, codec: Codec)
    requires AllValid(ms, codec) && WithinLimits(ms)
    ensures ArchiveFits(ms)
  {
    hide ValidMember, Encodable, LocalsSize, CentralsSize, ContentTotal;
    forall i | 0 <= i < |ms| ensures Encodable(ms[i]) {
      ValidIsEncodable(ms[i], codec);
    }
  }

  lemma WrittenPlaces(ms: seq<Member>)
    requires ArchiveFits(ms)
    ensures var buf := Written(ms);
            Holds(buf, 0, Locals(ms)) && Holds(buf, LocalsSize(ms), Centrals(ms, 0)) &&
            Holds(buf, |buf| - 22, EndOfDirectory(|ms|, CentralsSize(ms), LocalsSize(ms)))
  {
    hide Locals, Centrals, EndOfDirectory, AllEncodable, LocalsSize, CentralsSize;
    var buf, l := Written(ms), Locals(ms);
    var tail := Centrals(ms, 0) + EndOfDirectory(|ms|, CentralsSize(ms), LocalsSize(ms));
    assert Holds(buf, 0, l + tail) by {
      assert buf[0..|l + tail|] == l + tail;
    }
    HoldsPart(buf, 0, l, tail);
    HoldsPart(buf, |l|, Centrals(ms, 0), EndOfDirectory(|ms|, CentralsSize(ms), LocalsSize(ms)));
    assert |EndOfDirectory(|ms|, CentralsSize(ms), LocalsSize(ms))| == 22 by {
      EndSize(|ms|, CentralsSize(ms), LocalsSize(ms));
    }
  }

  lemma EndSize(count: nat, size: nat, offset: nat)
    requires count <= UINT16_MAX && size <= UINT32_MAX && offset <= UINT32_MAX
    ensures |EndOfDirectory(count, size, offset)| == 22
  {
  }

  /** The four bytes, 20 before the end record, that make the reader take an archive for ZIP64. */
  predicate LooksZip64(buf: seq<byte>) {
    |buf| >= 42 && U32(buf, |buf| - 42) == SIG_ZIP64_LOCATOR
  }

  lemma EndReadsBack(ms: seq<Member>)
    requires ArchiveFits(ms) && WithinLimits(ms)
    ensures var buf := Written(ms);
            LastEocd(buf, |buf| - 22, EocdLow(buf)) == Some(|buf| - 22) &&
            ReadEndRecord(buf, |buf| - 22)
              == if LooksZip64(buf) then Err(UnsupportedZipFeature)
                 else Ok(EndRecord(|ms|, CentralsSize(ms), LocalsSize(ms)))
  {
    hide Locals, Centrals, EndOfDirectory, AllEncodable, LocalsSize, CentralsSize, ContentTotal, Written, Holds, U16,
         U32;
    WrittenPlaces(ms);
    EndFields(Written(ms), |Written(ms)| - 22, |ms|, CentralsSize(ms), LocalsSize(ms));
  }

  lemma ReadEntriesStep(buf: seq<byte>, end: EndRecord, codec: Codec, entries: seq<CentralEntry>, x: Extraction)
    requires end.cdOffset + end.cdSize <= |buf|
    requires WalkCentral(buf, end.cdOffset, end.count, end.cdOffset + end.cdSize, {}, codec)
          == Ok(Directory(entries, end.cdOffset + end.cdSize))
    requires DirectoryRefusal(entries) == None && ExtractAll(buf, entries, 0, end.cdOffset, codec) == Ok(x)
    requires AllDisjoint(x.regions) && |x.files| == |entries|
    ensures ReadEntries(buf, end, codec) == Ok(Archive(entries, x.regions, ToMap(entries, x.files)))
  {
    hide WalkCentral, DirectoryRefusal, ExtractAll, AllDisjoint, ToMap;
  }

  lemma ContentMapLookup(ms: seq<Member>)
    requires DistinctMembers(ms)
    ensures forall name :: name in ContentMap(ms) <==> exists i :: 0 <= i < |ms| && ms[i].name == name
    ensures forall i :: 0 <= i < |ms| ==> ms[i].name in ContentMap(ms) && ContentMap(ms)[ms[i].name] == ms[i].content
  {
  }

  lemma MapReadsBack(ms: seq<Member>)
    requires DistinctMembers(ms)
    ensures ToMap(EntriesOf(ms, 0), ContentsOf(ms)) == ContentMap(ms)
  {
    hide EntriesOf, ToMap, ContentMap, DistinctMembers;
    var es, cs := EntriesOf(ms, 0), ContentsOf(ms);
    NamesOfEntries(ms, 0);
    assert DistinctNames(es) by { DistinctNamesOf(ms, es); }
    ToMapLookup(es, cs);
    ContentMapLookup(ms);
    var files, cm := ToMap(es, cs), ContentMap(ms);
    forall name ensures name in files <==> name in cm {
      if name in files {
        var i :| 0 <= i < |es| && es[i].name == name;
        assert ms[i].name in cm;
      }
      if name in cm {
        var i :| 0 <= i < |ms| && ms[i].name == name;
        assert es[i].name in files;
      }
    }
    forall name | name in files ensures files[name] == cm[name] {
      var i :| 0 <= i < |es| && es[i].name == name;
      assert files[es[i].name] == cs[i] && cm[ms[i].name] == ms[i].content;
    }
  }

  lemma DistinctNamesOf(ms: seq<Member>, es: seq<CentralEntry>)
    requires DistinctMembers(ms) && |es| == |ms| && forall i :: 0 <= i < |ms| ==> es[i].name == ms[i].name
    ensures DistinctNames(es)
  {
  }

  lemma EntriesReadBack(ms: seq<Member>, codec: Codec)
    requires AllValid(ms, codec) && ArchiveFits(ms) && WithinLimits(ms) && OneManifestMember(ms)
    ensures ReadEntries(Written(ms), EndRecord(|ms|, CentralsSize(ms), LocalsSize(ms)), codec)
         == Ok(Archive(EntriesOf(ms, 0), RegionsOf(ms, 0), ContentMap(ms)))
  {
    hide Locals, Centrals, LocalsSize, CentralsSize, ContentTotal, Holds, ValidMember, Encodable, WalkCentral,
         ExtractAll, DirectoryRefusal, IsManifestAlias, AllDisjoint, EntriesOf, RegionsOf, ToMap, AllValid,
         AllEncodable, DistinctMembers, ContentMap, ReadEntries, ContentsOf, EndOfDirectory;
    var buf := Written(ms);
    WrittenPlaces(ms);
    assert FileNames({}) && NameFree(ms, {});
    WalkReadsBack(buf, LocalsSize(ms), ms, 0, LocalsSize(ms) + CentralsSize(ms), {}, codec);
    DirectoryReadsBack(ms, 0);
    ExtractReadsBack(buf, ms, 0, 0, LocalsSize(ms), codec);
    RegionsLaidOut(ms, 0);
    MapReadsBack(ms);
    ReadEntriesStep(buf, EndRecord(|ms|, CentralsSize(ms), LocalsSize(ms)), codec, EntriesOf(ms, 0),
                    Extraction(ContentsOf(ms), RegionsOf(ms, 0), ContentTotal(ms)));
  }

  /**
   Reading what was written gives back exactly the names and bytes, for stored and deflated members, with and
   without data descriptors, unless the archive happens to look like ZIP64, and then it is refused as such.
   */
  lemma RoundTrip(ms: seq<Member>, codec: Codec)
    requires AllValid(ms, codec) && OneManifestMember(ms) && WithinLimits(ms)
    ensures ArchiveFits(ms)
    ensures var buf := Written(ms);
            var r := Reading(buf, codec);
            if LooksZip64(buf) then r == Err(UnsupportedZipFeature)
            else r.Ok? && r.value.files == ContentMap(ms)
  {
    hide Locals, Centrals, LocalsSize, CentralsSize, ContentTotal, ValidMember, Encodable, ReadEntries, IsManifestAlias,
         LastEocd, EocdLow, ReadEndRecord, U16, U32, AllValid, AllEncodable, ContentMap, EndOfDirectory, EntriesOf,
         RegionsOf;
    LimitsFit(ms, codec);
    EndReadsBack(ms);
    EntriesReadBack(ms, codec);
  }
}
