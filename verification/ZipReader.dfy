/**
 The hand-written ZIP reader of `backend/src/exportIntegrity.js`: end-of-central-directory search,
 central directory walk, per-entry extraction and the region-overlap check.

 Each loop is a method proved equal to a function of the buffer; the soundness and round-trip
 theorems are about those functions. UTF-8 decoding and raw inflate are parameters (`Codec`).
 */
module ZipReader {
  import opened Wrappers
  import opened Bytes
  import opened Text
  import opened EntryNames
  import Crc32

  datatype ImportError =
    | InvalidArchive | ArchiveLimitExceeded | UnsupportedZipFeature | UnsafeEntryName | DuplicateEntry
    | MultipleManifests | MissingManifest | Crc32Mismatch | OutOfRangeRead

  datatype Inflation = Inflated(data: seq<byte>) | OutputTooLarge | CorruptStream

  datatype Codec = Codec(decodeUtf8: seq<byte> -> Option<string>, inflateRaw: seq<byte> -> Inflation)

  const SIG_LOCAL := 0x0403_4b50
  const SIG_CENTRAL := 0x0201_4b50
  const SIG_EOCD := 0x0605_4b50
  const SIG_ZIP64_LOCATOR := 0x0706_4b50
  const SIG_DESCRIPTOR := 0x0807_4b50

  const METHOD_STORED := 0
  const METHOD_DEFLATED := 8

  const MAX_ARCHIVE_BYTES := 512 * 1024 * 1024
  const MAX_ENTRY_COUNT := 10_000
  const MAX_INDIVIDUAL_BYTES := 256 * 1024 * 1024
  const MAX_TOTAL_BYTES := 1024 * 1024 * 1024

  const UINT16_MAX := 0xFFFF
  const UINT32_MAX := 0xFFFF_FFFF

  /** `buf.readUInt16LE(p)`, for a read inside the buffer. */
  function U16(buf: seq<byte>, p: nat): nat
    requires p + 2 <= |buf|
  {
    buf[p] as int + 0x100 * buf[p + 1] as int
  }

  /** `buf.readUInt32LE(p)`, for a read inside the buffer. */
  function U32(buf: seq<byte>, p: nat): nat
    requires p + 4 <= |buf|
  {
    buf[p] as int + 0x100 * buf[p + 1] as int + 0x1_0000 * buf[p + 2] as int + 0x100_0000 * buf[p + 3] as int
  }

  /** Whether bit `weight` (a power of two) is set. */
  predicate Flag(flags: nat, weight: nat)
    requires weight > 0
  {
    flags / weight % 2 == 1
  }

  // ----- end of central directory

  predicate EocdAt(buf: seq<byte>, p: nat) {
    p + 22 <= |buf| && U32(buf, p) == SIG_EOCD && p + 22 + U16(buf, p + 20) == |buf|
  }

  /** The last record position at or below `from` and at or above `low`. */
  function LastEocd(buf: seq<byte>, from: int, low: nat): (r: Option<nat>)
    requires from + 22 <= |buf|
    ensures r.Some? ==> low <= r.value <= from && EocdAt(buf, r.value)
    ensures forall p: nat :: low <= p <= from && EocdAt(buf, p) ==> r.Some? && p <= r.value
    decreases from
  {
    if from < low then None
    else if EocdAt(buf, from) then Some(from)
    else LastEocd(buf, from - 1, low)
  }

  function EocdLow(buf: seq<byte>): nat {
    if |buf| - 22 - 65535 > 0 then |buf| - 22 - 65535 else 0
  }

  method FindEocd(buf: seq<byte>) returns (r: Option<nat>)
    ensures r == LastEocd(buf, |buf| - 22, EocdLow(buf))
  {
    var low := EocdLow(buf);
    var pos := |buf| - 22;
    while pos >= low
      invariant pos + 22 <= |buf|
      invariant LastEocd(buf, pos, low) == LastEocd(buf, |buf| - 22, low)
    {
      if U32(buf, pos) == SIG_EOCD {
        var commentLen := U16(buf, pos + 20);
        if pos + 22 + commentLen == |buf| {
          return Some(pos);
        }
      }
      pos := pos - 1;
    }
    return None;
  }

  // ----- extra fields

  datatype ExtraScan = NoZip64 | HasZip64 | ReadsOutOfRange

  /** Walks the extra-field records in `[p, end)`, looking for the ZIP64 field. */
  function ScanExtra(buf: seq<byte>, p: nat, end: nat): ExtraScan
    decreases end - p
  {
    if p + 4 > end then NoZip64
    else if p + 4 > |buf| then ReadsOutOfRange
    else if U16(buf, p) == 1 then HasZip64
    else ScanExtra(buf, p + 4 + U16(buf, p + 2), end)
  }

  method ScanExtraFields(buf: seq<byte>, start: nat, length: nat) returns (r: ExtraScan)
    ensures r == ScanExtra(buf, start, start + length)
  {
    var pos := start;
    while pos + 4 <= start + length
      invariant ScanExtra(buf, pos, start + length) == ScanExtra(buf, start, start + length)
      decreases start + length - pos
    {
      if pos + 4 > |buf| {
        return ReadsOutOfRange;
      }
      var fieldId := U16(buf, pos);
      var fieldSize := U16(buf, pos + 2);
      if fieldId == 1 {
        return HasZip64;
      }
      pos := pos + 4 + fieldSize;
    }
    return NoZip64;
  }

  // ----- central directory

  datatype CentralEntry = CentralEntry(
    name: string, method_: nat, flags: nat, crc: nat, compressedSize: nat, uncompressedSize: nat, offset: nat)

  datatype CentralHeader = CentralHeader(
    entry: CentralEntry, madeBy: nat, externalAttrs: nat, extraStart: nat, extraLength: nat, size: nat)

  function StripTrailingSlash(name: string): string {
    if name != "" && name[|name| - 1] == '/' then name[..|name| - 1] else name
  }

  predicate IsLetter(c: char) { 'A' <= c <= 'Z' || 'a' <= c <= 'z' }

  predicate DriveAbsolute(name: string) {
    |name| >= 3 && IsLetter(name[0]) && name[1] == ':' && name[2] == '/'
  }

  /** The reader's own notion of a name it will accept. */
  predicate SafeName(name: string) {
    name != "" && '\0' !in name && '\\' !in name && name[0] != '/' &&
    ".." !in Split(StripTrailingSlash(name), '/') && !DriveAbsolute(name)
  }

  predicate IsDirectoryName(name: string) {
    name != "" && name[|name| - 1] == '/'
  }

  /** The checks on one central record up to its extra fields, in the order the reader makes them. */
  function CentralPrefix(buf: seq<byte>, pos: nat, limit: nat, codec: Codec): Result<CentralHeader, ImportError>
    requires limit <= |buf|
  {
    if pos + 46 > limit then Err(InvalidArchive)
    else if U32(buf, pos) != SIG_CENTRAL then Err(InvalidArchive)
    else
      var flags, compressed, uncompressed := U16(buf, pos + 8), U32(buf, pos + 20), U32(buf, pos + 24);
      var nameLength, extraLength, commentLength := U16(buf, pos + 28), U16(buf, pos + 30), U16(buf, pos + 32);
      var offset := U32(buf, pos + 42);
      var size := 46 + nameLength + extraLength + commentLength;
      if pos + size > limit then Err(InvalidArchive)
      else if compressed == UINT32_MAX || uncompressed == UINT32_MAX || offset == UINT32_MAX then
        Err(UnsupportedZipFeature)
      else
        match codec.decodeUtf8(buf[pos + 46..pos + 46 + nameLength])
        case None => Err(InvalidArchive)
        case Some(name) =>
          if Flag(flags, 0x01) || Flag(flags, 0x40) then Err(UnsupportedZipFeature)
          else if !SafeName(name) then Err(UnsafeEntryName)
          else if U16(buf, pos + 6) >= 45 then Err(UnsupportedZipFeature)
          else
            Ok(CentralHeader(
                 CentralEntry(name, U16(buf, pos + 10), flags, U32(buf, pos + 16), compressed, uncompressed, offset),
                 U16(buf, pos + 4), U32(buf, pos + 38), pos + 46 + nameLength, extraLength, size))
  }

  /** Symlinks and device files recorded by a Unix host are refused; `0`, regular and directory types pass. */
  predicate SpecialFile(madeBy: nat, externalAttrs: nat) {
    var fileType := externalAttrs / 0x1_0000 / 0x1000;
    madeBy / 0x100 == 3 && fileType != 0 && fileType != 8 && fileType != 4
  }

  /** The checks on one central record after its extra fields; `Some` is the refusal. */
  function CentralRefusal(h: CentralHeader, seen: set<string>): Option<ImportError> {
    var e := h.entry;
    if SpecialFile(h.madeBy, h.externalAttrs) then Some(UnsupportedZipFeature)
    else if e.name in seen then Some(DuplicateEntry)
    else if IsDirectoryName(e.name) && e.name[..|e.name| - 1] in seen then Some(UnsafeEntryName)
    else if !IsDirectoryName(e.name) && e.name + "/" in seen then Some(UnsafeEntryName)
    else if IsDirectoryName(e.name) then
      if e.method_ != METHOD_STORED || e.compressedSize != 0 || e.uncompressedSize != 0 then Some(InvalidArchive)
      else None
    else if e.method_ != METHOD_STORED && e.method_ != METHOD_DEFLATED then Some(UnsupportedZipFeature)
    else if e.uncompressedSize > MAX_INDIVIDUAL_BYTES then Some(ArchiveLimitExceeded)
    else None
  }

  /** One central record, complete. */
  function CentralRecord(buf: seq<byte>, pos: nat, limit: nat, seen: set<string>, codec: Codec)
    : Result<CentralHeader, ImportError>
    requires limit <= |buf|
  {
    match CentralPrefix(buf, pos, limit, codec)
    case Err(e) => Err(e)
    case Ok(h) =>
      match ScanExtra(buf, h.extraStart, h.extraStart + h.extraLength)
      case HasZip64 => Err(UnsupportedZipFeature)
      case ReadsOutOfRange => Err(OutOfRangeRead)
      case NoZip64 =>
        match CentralRefusal(h, seen)
        case Some(e) => Err(e)
        case None => Ok(h)
  }

  datatype Directory = Directory(entries: seq<CentralEntry>, end: nat)

  function FilesOf(h: CentralHeader): seq<CentralEntry> {
    if IsDirectoryName(h.entry.name) then [] else [h.entry]
  }

  /** The walk over `count` records from `pos`: the file entries in order, and where it stopped. */
  function WalkCentral(buf: seq<byte>, pos: nat, count: nat, limit: nat, seen: set<string>, codec: Codec)
    : Result<Directory, ImportError>
    requires limit <= |buf|
    decreases count
  {
    if count == 0 then Ok(Directory([], pos))
    else
      match CentralRecord(buf, pos, limit, seen, codec)
      case Err(e) => Err(e)
      case Ok(h) =>
        WithFirst(FilesOf(h), WalkCentral(buf, pos + h.size, count - 1, limit, seen + {h.entry.name}, codec))
  }

  function WithFirst(first: seq<CentralEntry>, rest: Result<Directory, ImportError>): Result<Directory, ImportError> {
    match rest
    case Err(e) => Err(e)
    case Ok(d) => Ok(Directory(first + d.entries, d.end))
  }

  lemma WithFirstEmpty(r: Result<Directory, ImportError>)
    ensures WithFirst([], r) == r
  {
    if r.Ok? {
      assert [] + r.value.entries == r.value.entries;
    }
  }

  lemma WithFirstTwice(a: seq<CentralEntry>, b: seq<CentralEntry>, r: Result<Directory, ImportError>)
    ensures WithFirst(a, WithFirst(b, r)) == WithFirst(a + b, r)
  {
    if r.Ok? {
      assert a + (b + r.value.entries) == a + b + r.value.entries;
    }
  }

  lemma WithFirstDone(a: seq<CentralEntry>, pos: nat)
    ensures WithFirst(a, Ok(Directory([], pos))) == Ok(Directory(a, pos))
    ensures forall e :: WithFirst(a, Err(e)) == Err(e)
  {
    assert a + [] == a;
  }

  method WalkCentralDirectory(buf: seq<byte>, cdOffset: nat, cdSize: nat, count: nat, codec: Codec)
    returns (r: Result<Directory, ImportError>)
    requires cdOffset + cdSize <= |buf|
    ensures r == WalkCentral(buf, cdOffset, count, cdOffset + cdSize, {}, codec)
  {
    hide CentralPrefix, CentralRefusal, ScanExtra, FilesOf, WithFirst;
    var limit := cdOffset + cdSize;
    var entries: seq<CentralEntry> := [];
    var nameSet: set<string> := {};
    var pos: nat := cdOffset;
    var i := 0;
    WithFirstEmpty(WalkCentral(buf, cdOffset, count, limit, {}, codec));
    while i < count
      invariant 0 <= i <= count
      invariant WalkCentral(buf, cdOffset, count, limit, {}, codec)
        == WithFirst(entries, WalkCentral(buf, pos, count - i, limit, nameSet, codec))
    {
      WithFirstDone(entries, pos);
      var prefix := CentralPrefix(buf, pos, limit, codec);
      if prefix.Err? {
        return Err(prefix.error);
      }
      var h := prefix.value;
      var extra := ScanExtraFields(buf, h.extraStart, h.extraLength);
      if extra.HasZip64? {
        return Err(UnsupportedZipFeature);
      }
      if extra.ReadsOutOfRange? {
        return Err(OutOfRangeRead);
      }
      var refusal := CentralRefusal(h, nameSet);
      if refusal.Some? {
        return Err(refusal.value);
      }
      WithFirstTwice(entries, FilesOf(h),
                     WalkCentral(buf, pos + h.size, count - i - 1, limit, nameSet + {h.entry.name}, codec));
      nameSet := nameSet + {h.entry.name};
      entries := entries + FilesOf(h);
      pos := pos + h.size;
      i := i + 1;
    }
    WithFirstDone(entries, pos);
    return Ok(Directory(entries, pos));
  }

  // ----- checks over the whole directory

  function ManifestCount(entries: seq<CentralEntry>): nat {
    if entries == [] then 0
    else (if entries[0].name == MANIFEST_FILENAME then 1 else 0) + ManifestCount(entries[1..])
  }

  function DeclaredTotal(entries: seq<CentralEntry>): nat {
    if entries == [] then 0 else entries[0].uncompressedSize + DeclaredTotal(entries[1..])
  }

  predicate HasAlias(entries: seq<CentralEntry>) {
    exists i :: 0 <= i < |entries| && entries[i].name != MANIFEST_FILENAME && IsManifestAlias(entries[i].name)
  }

  function DirectoryRefusal(entries: seq<CentralEntry>): Option<ImportError> {
    if HasAlias(entries) then Some(MultipleManifests)
    else if ManifestCount(entries) == 0 then Some(MissingManifest)
    else if ManifestCount(entries) > 1 then Some(MultipleManifests)
    else if DeclaredTotal(entries) > MAX_TOTAL_BYTES then Some(ArchiveLimitExceeded)
    else None
  }

  lemma {:induction false} CountsSplit(a: seq<CentralEntry>, e: CentralEntry)
    ensures ManifestCount(a + [e]) == ManifestCount(a) + (if e.name == MANIFEST_FILENAME then 1 else 0)
    ensures DeclaredTotal(a + [e]) == DeclaredTotal(a) + e.uncompressedSize
  {
    if a == [] {
      assert a + [e] == [e];
      assert ManifestCount([e][1..]) == 0;
    } else {
      assert (a + [e])[1..] == a[1..] + [e];
      CountsSplit(a[1..], e);
    }
  }

  lemma {:induction false} TotalOfPrefix(a: seq<CentralEntry>, k: nat)
    requires k <= |a|
    ensures DeclaredTotal(a[..k]) <= DeclaredTotal(a)
    decreases |a| - k
  {
    if k < |a| {
      assert a[..k + 1] == a[..k] + [a[k]];
      CountsSplit(a[..k], a[k]);
      TotalOfPrefix(a, k + 1);
    } else {
      assert a[..k] == a;
    }
  }

  /** The alias loop, the manifest count and the declared-total loop with its early exit. */
  method CheckDirectory(entries: seq<CentralEntry>) returns (refusal: Option<ImportError>)
    ensures refusal == DirectoryRefusal(entries)
  {
    var i := 0;
    while i < |entries|
      invariant 0 <= i <= |entries|
      invariant !HasAlias(entries[..i])
    {
      var entry := entries[i];
      if entry.name != MANIFEST_FILENAME {
        var norm := NormalizeEntryName(entry.name);
        if norm == MANIFEST_FILENAME {
          return Some(MultipleManifests);
        }
      }
      i := i + 1;
    }
    assert entries[..i] == entries;
    var manifestCount := 0;
    i := 0;
    while i < |entries|
      invariant 0 <= i <= |entries|
      invariant manifestCount == ManifestCount(entries[..i])
    {
      assert entries[..i + 1] == entries[..i] + [entries[i]];
      CountsSplit(entries[..i], entries[i]);
      if entries[i].name == MANIFEST_FILENAME {
        manifestCount := manifestCount + 1;
      }
      i := i + 1;
    }
    assert entries[..i] == entries;
    if manifestCount == 0 {
      return Some(MissingManifest);
    }
    if manifestCount > 1 {
      return Some(MultipleManifests);
    }
    var total := 0;
    i := 0;
    while i < |entries|
      invariant 0 <= i <= |entries|
      invariant total == DeclaredTotal(entries[..i]) <= MAX_TOTAL_BYTES
    {
      assert entries[..i + 1] == entries[..i] + [entries[i]];
      CountsSplit(entries[..i], entries[i]);
      total := total + entries[i].uncompressedSize;
      i := i + 1;
      if total > MAX_TOTAL_BYTES {
        TotalOfPrefix(entries, i);
        return Some(ArchiveLimitExceeded);
      }
    }
    assert entries[..i] == entries;
    return None;
  }

  // ----- extraction of one entry

  datatype Region = Region(start: nat, end: nat)

  datatype Payload = Payload(data: seq<byte>, dataEnd: nat)

  /** The local header cross-check up to the local extra fields: where those fields start and end. */
  function LocalPrefix(buf: seq<byte>, e: CentralEntry, codec: Codec): (r: Result<Region, ImportError>)
    ensures r.Ok? ==> e.offset + 30 <= |buf| && r.value.start <= r.value.end
  {
    var o := e.offset;
    if o + 30 > |buf| then Err(InvalidArchive)
    else if U32(buf, o) != SIG_LOCAL then Err(InvalidArchive)
    else
      var nameLength, extraLength := U16(buf, o + 26), U16(buf, o + 28);
      if o + 30 + nameLength > |buf| then Err(InvalidArchive)
      else
        match codec.decodeUtf8(buf[o + 30..o + 30 + nameLength])
        case None => Err(InvalidArchive)
        case Some(localName) =>
          if localName != e.name then Err(InvalidArchive)
          else if U16(buf, o + 4) >= 45 then Err(UnsupportedZipFeature)
          else if U16(buf, o + 8) != e.method_ then Err(InvalidArchive)
          else if U16(buf, o + 6) != e.flags then Err(InvalidArchive)
          else Ok(Region(o + 30 + nameLength, o + 30 + nameLength + extraLength))
  }

  predicate HasDescriptor(e: CentralEntry) { Flag(e.flags, 0x08) }

  /** Whether the local sizes and checksum are what the descriptor flag calls for. */
  predicate LocalSizesAgree(buf: seq<byte>, e: CentralEntry)
    requires e.offset + 30 <= |buf|
  {
    var crc, compressed, uncompressed := U32(buf, e.offset + 14), U32(buf, e.offset + 18), U32(buf, e.offset + 22);
    if HasDescriptor(e) then crc == 0 && compressed == 0 && uncompressed == 0
    else crc == e.crc && compressed == e.compressedSize && uncompressed == e.uncompressedSize
  }

  function Decompress(e: CentralEntry, compressed: seq<byte>, codec: Codec): Result<seq<byte>, ImportError> {
    if e.method_ == METHOD_STORED then
      if e.compressedSize != e.uncompressedSize then Err(InvalidArchive) else Ok(compressed)
    else
      match codec.inflateRaw(compressed)
      case OutputTooLarge => Err(ArchiveLimitExceeded)
      case CorruptStream => Err(InvalidArchive)
      case Inflated(data) => if |data| > MAX_INDIVIDUAL_BYTES then Err(ArchiveLimitExceeded) else Ok(data)
  }

  /** Everything about an entry's own bytes, from the end of its local extra fields on. */
  function LocalPayload(buf: seq<byte>, e: CentralEntry, dataStart: nat, codec: Codec): Result<Payload, ImportError>
    requires e.offset + 30 <= |buf|
  {
    if !LocalSizesAgree(buf, e) then Err(InvalidArchive)
    else if dataStart + e.compressedSize > |buf| then Err(InvalidArchive)
    else
      match Decompress(e, buf[dataStart..dataStart + e.compressedSize], codec)
      case Err(err) => Err(err)
      case Ok(data) =>
        if |data| != e.uncompressedSize then Err(InvalidArchive)
        else if Crc32.ChecksumValue(data) != e.crc then Err(Crc32Mismatch)
        else Ok(Payload(data, dataStart + e.compressedSize))
  }

  /** Where the entry's region ends: after its data, or after a matching data descriptor. */
  function RegionEnd(buf: seq<byte>, e: CentralEntry, dataEnd: nat): Result<nat, ImportError> {
    if !HasDescriptor(e) then Ok(dataEnd)
    else
      var d := if dataEnd + 4 <= |buf| && U32(buf, dataEnd) == SIG_DESCRIPTOR then dataEnd + 4 else dataEnd;
      if d + 12 > |buf| then Err(InvalidArchive)
      else if U32(buf, d) != e.crc || U32(buf, d + 4) != e.compressedSize || U32(buf, d + 8) != e.uncompressedSize then
        Err(InvalidArchive)
      else Ok(d + 12)
  }

  /** One entry up to its checksum. */
  function ExtractPayload(buf: seq<byte>, e: CentralEntry, codec: Codec): Result<Payload, ImportError> {
    match LocalPrefix(buf, e, codec)
    case Err(err) => Err(err)
    case Ok(extra) =>
      match ScanExtra(buf, extra.start, extra.end)
      case HasZip64 => Err(UnsupportedZipFeature)
      case ReadsOutOfRange => Err(OutOfRangeRead)
      case NoZip64 => LocalPayload(buf, e, extra.end, codec)
  }

  datatype Extraction = Extraction(files: seq<seq<byte>>, regions: seq<Region>, total: nat)

  /** Extraction of the entries in order, with the running total the source keeps. */
  function ExtractAll(buf: seq<byte>, entries: seq<CentralEntry>, total: nat, cdOffset: nat, codec: Codec)
    : Result<Extraction, ImportError>
    decreases |entries|
  {
    if entries == [] then Ok(Extraction([], [], total))
    else
      var e := entries[0];
      match ExtractPayload(buf, e, codec)
      case Err(err) => Err(err)
      case Ok(p) =>
        if total + |p.data| > MAX_TOTAL_BYTES then Err(ArchiveLimitExceeded)
        else
          match RegionEnd(buf, e, p.dataEnd)
          case Err(err) => Err(err)
          case Ok(end) =>
            if end > cdOffset then Err(InvalidArchive)
            else
              Extracted(p.data, Region(e.offset, end),
                        ExtractAll(buf, entries[1..], total + |p.data|, cdOffset, codec))
  }

  function Extracted(data: seq<byte>, region: Region, rest: Result<Extraction, ImportError>)
    : Result<Extraction, ImportError>
  {
    match rest
    case Err(e) => Err(e)
    case Ok(x) => Ok(Extraction([data] + x.files, [region] + x.regions, x.total))
  }

  function After(files: seq<seq<byte>>, regions: seq<Region>, rest: Result<Extraction, ImportError>)
    : Result<Extraction, ImportError>
  {
    match rest
    case Err(e) => Err(e)
    case Ok(x) => Ok(Extraction(files + x.files, regions + x.regions, x.total))
  }

  lemma AfterExtracted(files: seq<seq<byte>>, regions: seq<Region>, data: seq<byte>, region: Region,
                       rest: Result<Extraction, ImportError>)
    ensures After(files, regions, Extracted(data, region, rest)) == After(files + [data], regions + [region], rest)
  {
    if rest.Ok? {
      assert files + ([data] + rest.value.files) == files + [data] + rest.value.files;
      assert regions + ([region] + rest.value.regions) == regions + [region] + rest.value.regions;
    }
  }

  lemma AfterEmpty(r: Result<Extraction, ImportError>)
    ensures After([], [], r) == r
  {
    if r.Ok? {
      assert [] + r.value.files == r.value.files && [] + r.value.regions == r.value.regions;
    }
  }

  method ExtractEntries(buf: seq<byte>, entries: seq<CentralEntry>, cdOffset: nat, codec: Codec)
    returns (r: Result<Extraction, ImportError>)
    ensures r == ExtractAll(buf, entries, 0, cdOffset, codec)
  {
    hide LocalPrefix, ScanExtra, LocalPayload, RegionEnd, Extracted;
    var files: seq<seq<byte>> := [];
    var localRegions: seq<Region> := [];
    var totalExtracted: nat := 0;
    var i := 0;
    AfterEmpty(ExtractAll(buf, entries, 0, cdOffset, codec));
    assert entries[0..] == entries;
    while i < |entries|
      invariant 0 <= i <= |entries|
      invariant ExtractAll(buf, entries, 0, cdOffset, codec)
        == After(files, localRegions, ExtractAll(buf, entries[i..], totalExtracted, cdOffset, codec))
    {
      var e := entries[i];
      assert entries[i..][1..] == entries[i + 1..];
      var prefix := LocalPrefix(buf, e, codec);
      if prefix.Err? {
        return Err(prefix.error);
      }
      var extra := ScanExtraFields(buf, prefix.value.start, prefix.value.end - prefix.value.start);
      if extra.HasZip64? {
        return Err(UnsupportedZipFeature);
      }
      if extra.ReadsOutOfRange? {
        return Err(OutOfRangeRead);
      }
      var payload := LocalPayload(buf, e, prefix.value.end, codec);
      if payload.Err? {
        return Err(payload.error);
      }
      var data := payload.value.data;
      totalExtracted := totalExtracted + |data|;
      if totalExtracted > MAX_TOTAL_BYTES {
        return Err(ArchiveLimitExceeded);
      }
      var end := RegionEnd(buf, e, payload.value.dataEnd);
      if end.Err? {
        return Err(end.error);
      }
      if end.value > cdOffset {
        return Err(InvalidArchive);
      }
      AfterExtracted(files, localRegions, data, Region(e.offset, end.value),
                     ExtractAll(buf, entries[i + 1..], totalExtracted, cdOffset, codec));
      localRegions := localRegions + [Region(e.offset, end.value)];
      files := files + [data];
      i := i + 1;
    }
    assert files + [] == files && localRegions + [] == localRegions;
    return Ok(Extraction(files, localRegions, totalExtracted));
  }

  // ----- overlap

  predicate Disjoint(a: Region, b: Region) { a.end <= b.start || b.end <= a.start }

  /** No two regions of the list share a byte. */
  predicate AllDisjoint(rs: seq<Region>) {
    rs == [] || ((forall i :: 1 <= i < |rs| ==> Disjoint(rs[0], rs[i])) && AllDisjoint(rs[1..]))
  }

  function InsertByStart(r: Region, sorted: seq<Region>): seq<Region> {
    if sorted == [] || r.start <= sorted[0].start then [r] + sorted
    else [sorted[0]] + InsertByStart(r, sorted[1..])
  }

  /** The list sorted by start offset, as `Array.prototype.sort` leaves it. */
  function SortByStart(rs: seq<Region>): seq<Region> {
    if rs == [] then [] else InsertByStart(rs[0], SortByStart(rs[1..]))
  }

  ghost predicate SortedByStart(rs: seq<Region>) {
    forall i, j :: 0 <= i < j < |rs| ==> rs[i].start <= rs[j].start
  }

  ghost predicate NonEmptyRegions(rs: seq<Region>) {
    forall i :: 0 <= i < |rs| ==> rs[i].start < rs[i].end
  }

  lemma {:induction false} InsertElements(r: Region, sorted: seq<Region>)
    ensures forall x :: x in InsertByStart(r, sorted) <==> x == r || x in sorted
    ensures SortedByStart(sorted) ==> SortedByStart(InsertByStart(r, sorted))
  {
    if sorted != [] && r.start > sorted[0].start {
      InsertElements(r, sorted[1..]);
      assert sorted == [sorted[0]] + sorted[1..];
      if SortedByStart(sorted) {
        var rest := InsertByStart(r, sorted[1..]);
        forall j | 0 <= j < |rest| ensures sorted[0].start <= rest[j].start {
          assert rest[j] in rest;
        }
      }
    }
  }

  lemma DisjointFromAll(first: Region, rest: seq<Region>)
    ensures AllDisjoint([first] + rest) <==> (forall x :: x in rest ==> Disjoint(first, x)) && AllDisjoint(rest)
  {
    var rs := [first] + rest;
    assert rs[1..] == rest;
    assert forall i :: 1 <= i < |rs| ==> rs[i] == rest[i - 1];
    assert forall i :: 0 <= i < |rest| ==> rs[i + 1] == rest[i];
  }

  lemma {:induction false} InsertDisjoint(r: Region, sorted: seq<Region>)
    ensures AllDisjoint(InsertByStart(r, sorted)) <==> AllDisjoint([r] + sorted)
  {
    if sorted != [] && r.start > sorted[0].start {
      var head, tail := sorted[0], sorted[1..];
      assert sorted == [head] + tail;
      InsertDisjoint(r, tail);
      InsertElements(r, tail);
      DisjointFromAll(head, InsertByStart(r, tail));
      DisjointFromAll(r, tail);
      DisjointFromAll(r, sorted);
      DisjointFromAll(head, tail);
      assert forall x :: x in sorted <==> x == head || x in tail;
      assert InsertByStart(r, sorted) == [head] + InsertByStart(r, tail);
      assert Disjoint(head, r) == Disjoint(r, head);
    }
  }

  /** Sorting orders the list and changes neither its elements nor whether they are disjoint. */
  lemma {:induction false} SortProperties(rs: seq<Region>)
    ensures SortedByStart(SortByStart(rs))
    ensures forall x :: x in SortByStart(rs) <==> x in rs
    ensures AllDisjoint(SortByStart(rs)) <==> AllDisjoint(rs)
  {
    if rs != [] {
      var head, tail := rs[0], rs[1..];
      assert rs == [head] + tail;
      SortProperties(tail);
      InsertElements(head, SortByStart(tail));
      InsertDisjoint(head, SortByStart(tail));
      DisjointFromAll(head, SortByStart(tail));
      DisjointFromAll(head, tail);
    }
  }

  ghost predicate AdjacentClear(rs: seq<Region>) {
    forall i :: 1 <= i < |rs| ==> rs[i - 1].end <= rs[i].start
  }

  /** After sorting by start, looking at neighbours decides disjointness of every pair. */
  lemma {:induction false} AdjacentSuffices(rs: seq<Region>)
    requires SortedByStart(rs) && NonEmptyRegions(rs)
    ensures AdjacentClear(rs) <==> AllDisjoint(rs)
  {
    if rs != [] {
      AdjacentSuffices(rs[1..]);
      if AdjacentClear(rs) {
        forall i | 1 <= i < |rs| ensures Disjoint(rs[0], rs[i]) {
          assert rs[1].start <= rs[i].start;
        }
      }
      if AllDisjoint(rs) && |rs| > 1 {
        assert Disjoint(rs[0], rs[1]);
        forall i | 1 <= i < |rs| ensures rs[i - 1].end <= rs[i].start {
          if i > 1 {
            assert rs[1..][i - 1] == rs[i] && rs[1..][i - 2] == rs[i - 1];
          }
        }
      }
    }
  }

  lemma SameElementsNonEmpty(rs: seq<Region>, sorted: seq<Region>)
    requires NonEmptyRegions(rs) && forall x :: x in sorted ==> x in rs
    ensures NonEmptyRegions(sorted)
  {
    forall i | 0 <= i < |sorted| ensures sorted[i].start < sorted[i].end {
      assert sorted[i] in rs;
    }
  }

  method RegionsOverlap(regions: seq<Region>) returns (overlap: bool)
    requires NonEmptyRegions(regions)
    ensures overlap <==> !AllDisjoint(regions)
  {
    hide SortByStart, AllDisjoint;
    var sorted := SortByStart(regions);
    SortProperties(regions);
    SameElementsNonEmpty(regions, sorted);
    AdjacentSuffices(sorted);
    var i := 1;
    while i < |sorted|
      invariant 1 <= i && (i <= |sorted| || sorted == [])
      invariant forall k :: 1 <= k < i && k < |sorted| ==> sorted[k - 1].end <= sorted[k].start
    {
      if sorted[i].start < sorted[i - 1].end {
        return true;
      }
      i := i + 1;
    }
    return false;
  }

  // ----- the whole reader

  datatype Archive = Archive(entries: seq<CentralEntry>, regions: seq<Region>, files: map<string, seq<byte>>)

  /** Names to bytes, entry by entry. */
  function ToMap(entries: seq<CentralEntry>, files: seq<seq<byte>>): map<string, seq<byte>>
    requires |entries| == |files|
  {
    MapOfFirst(entries, files, |entries|)
  }

  /** The map after the first `n` entries: a later entry of the same name would win. */
  function MapOfFirst(entries: seq<CentralEntry>, files: seq<seq<byte>>, n: nat): map<string, seq<byte>>
    requires n <= |entries| == |files|
  {
    if n == 0 then map[] else MapOfFirst(entries, files, n - 1)[entries[n - 1].name := files[n - 1]]
  }

  /** The end record fields the reader uses, with the refusals it makes before walking anything. */
  datatype EndRecord = EndRecord(count: nat, cdSize: nat, cdOffset: nat)

  function ReadEndRecord(buf: seq<byte>, p: nat): (r: Result<EndRecord, ImportError>)
    requires p + 22 <= |buf|
    ensures r.Ok? ==> r.value.cdOffset + r.value.cdSize <= |buf|
  {
    var diskNumber, cdDisk := U16(buf, p + 4), U16(buf, p + 6);
    var countDisk, countTotal := U16(buf, p + 8), U16(buf, p + 10);
    var cdSize, cdOffset := U32(buf, p + 12), U32(buf, p + 16);
    if p >= 20 && U32(buf, p - 20) == SIG_ZIP64_LOCATOR then Err(UnsupportedZipFeature)
    else if diskNumber != 0 || cdDisk != 0 then Err(UnsupportedZipFeature)
    else if countDisk != countTotal then Err(InvalidArchive)
    else if countTotal == UINT16_MAX || cdSize == UINT32_MAX || cdOffset == UINT32_MAX then Err(UnsupportedZipFeature)
    else if countTotal > MAX_ENTRY_COUNT then Err(ArchiveLimitExceeded)
    else if cdOffset + cdSize > |buf| then Err(InvalidArchive)
    else Ok(EndRecord(countTotal, cdSize, cdOffset))
  }

  function ReadEntries(buf: seq<byte>, end: EndRecord, codec: Codec): Result<Archive, ImportError>
    requires end.cdOffset + end.cdSize <= |buf|
  {
    match WalkCentral(buf, end.cdOffset, end.count, end.cdOffset + end.cdSize, {}, codec)
    case Err(e) => Err(e)
    case Ok(directory) =>
      if directory.end != end.cdOffset + end.cdSize then Err(InvalidArchive)
      else
        match DirectoryRefusal(directory.entries)
        case Some(e) => Err(e)
        case None =>
          match ExtractAll(buf, directory.entries, 0, end.cdOffset, codec)
          case Err(e) => Err(e)
          case Ok(x) =>
            ExtractAllShape(buf, directory.entries, 0, end.cdOffset, codec);
            if !AllDisjoint(x.regions) then Err(InvalidArchive)
            else Ok(Archive(directory.entries, x.regions, ToMap(directory.entries, x.files)))
  }

  /** The reader up to, and not including, the manifest. */
  function Reading(buf: seq<byte>, codec: Codec): Result<Archive, ImportError> {
    if |buf| > MAX_ARCHIVE_BYTES then Err(ArchiveLimitExceeded)
    else if |buf| < 22 then Err(InvalidArchive)
    else
      match LastEocd(buf, |buf| - 22, EocdLow(buf))
      case None => Err(InvalidArchive)
      case Some(p) =>
        match ReadEndRecord(buf, p)
        case Err(e) => Err(e)
        case Ok(end) => ReadEntries(buf, end, codec)
  }

  method ReadArchive(buf: seq<byte>, codec: Codec) returns (r: Result<Archive, ImportError>)
    ensures r == Reading(buf, codec)
  {
    hide WalkCentral, ExtractAll, DirectoryRefusal, AllDisjoint, ReadEndRecord, EocdAt, EocdLow, LastEocd, ToMap;
    if |buf| > MAX_ARCHIVE_BYTES {
      return Err(ArchiveLimitExceeded);
    }
    if |buf| < 22 {
      return Err(InvalidArchive);
    }
    var eocd := FindEocd(buf);
    if eocd.None? {
      return Err(InvalidArchive);
    }
    var end := ReadEndRecord(buf, eocd.value);
    if end.Err? {
      return Err(end.error);
    }
    var cdOffset, cdSize := end.value.cdOffset, end.value.cdSize;
    var directory := WalkCentralDirectory(buf, cdOffset, cdSize, end.value.count, codec);
    if directory.Err? {
      return Err(directory.error);
    }
    var entries := directory.value.entries;
    if directory.value.end != cdOffset + cdSize {
      return Err(InvalidArchive);
    }
    var refusal := CheckDirectory(entries);
    if refusal.Some? {
      return Err(refusal.value);
    }
    var extraction := ExtractEntries(buf, entries, cdOffset, codec);
    if extraction.Err? {
      return Err(extraction.error);
    }
    ExtractAllShape(buf, entries, 0, cdOffset, codec);
    var overlap := RegionsOverlap(extraction.value.regions);
    if overlap {
      return Err(InvalidArchive);
    }
    return Ok(Archive(entries, extraction.value.regions, ToMap(entries, extraction.value.files)));
  }

  /** An entry's region is at least its fixed header. */
  lemma LocalRegionGrows(buf: seq<byte>, e: CentralEntry, codec: Codec)
    ensures var p := ExtractPayload(buf, e, codec);
            p.Ok? ==> p.value.dataEnd >= e.offset + 30 &&
                      (RegionEnd(buf, e, p.value.dataEnd).Ok? ==>
                         RegionEnd(buf, e, p.value.dataEnd).value >= p.value.dataEnd)
  {
    hide ScanExtra, Decompress, LocalSizesAgree;
  }

  /** One file and one region per entry; every region starts at its entry's header and is not empty. */
  lemma {:induction false} ExtractAllShape(buf: seq<byte>, entries: seq<CentralEntry>, total: nat, cdOffset: nat,
                                           codec: Codec)
    ensures var r := ExtractAll(buf, entries, total, cdOffset, codec);
            r.Ok? ==> |r.value.files| == |entries| == |r.value.regions| && NonEmptyRegions(r.value.regions)
    decreases |entries|
  {
    hide LocalPrefix, ScanExtra, LocalPayload, RegionEnd;
    var r := ExtractAll(buf, entries, total, cdOffset, codec);
    if entries != [] && r.Ok? {
      LocalRegionGrows(buf, entries[0], codec);
      var p := ExtractPayload(buf, entries[0], codec).value;
      ExtractAllShape(buf, entries[1..], total + |p.data|, cdOffset, codec);
    }
  }
}
