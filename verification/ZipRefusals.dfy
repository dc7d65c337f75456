/** Which refusal the ZIP reader ends in: at every stage, the code of the first check in order that fails. */
module ZipRefusals {
  import opened Wrappers
  import opened Bytes
  import opened EntryNames
  import opened ZipReader
  import opened ZipSoundness
  import opened ZipExact
  import Crc32

  type CodedChecks = Checks<ImportError>

  function ErrorOf<T>(r: Result<T, ImportError>): Option<ImportError> {
    match r case Ok(_) => None case Err(e) => Some(e)
  }

  // ----- the end record

  /** What is asked of the end record at `p`. */
  ghost function EndChecks(buf: seq<byte>, p: nat): CodedChecks
    requires p + 22 <= |buf|
  {
    var size, offset := U32(buf, p + 12), U32(buf, p + 16);
    [(p >= 20 ==> U32(buf, p - 20) != 0x0706_4b50, UnsupportedZipFeature),
     (U16(buf, p + 4) == 0 && U16(buf, p + 6) == 0, UnsupportedZipFeature),
     (U16(buf, p + 8) == U16(buf, p + 10), InvalidArchive),
     (U16(buf, p + 10) != 0xFFFF && size != 0xFFFF_FFFF && offset != 0xFFFF_FFFF, UnsupportedZipFeature),
     (U16(buf, p + 10) <= 10_000, ArchiveLimitExceeded),
     (offset + size <= |buf|, InvalidArchive)]
  }

  lemma EndRefused(buf: seq<byte>, p: nat)
    requires p + 22 <= |buf|
    ensures FirstFailing(EndChecks(buf, p), ErrorOf(ReadEndRecord(buf, p)))
  {
    hide U16, U32;
    var c := EndChecks(buf, p);
    assert !c[0].0 || !c[1].0 || !c[2].0 || !c[3].0 || !c[4].0 || !c[5].0 || ReadEndRecord(buf, p).Ok?;
  }

  // ----- one directory record

  /** What is asked of a record whose name has been decoded, up to its extra fields. */
  ghost function HeadChecks(buf: seq<byte>, pos: nat, name: string): CodedChecks
    requires pos + 46 <= |buf|
  {
    [(Unencrypted(RecordEntry(buf, pos, name)), UnsupportedZipFeature), (StaysInside(name), UnsafeEntryName),
     (U16(buf, pos + 6) < 45, UnsupportedZipFeature)]
  }

  /** What is asked of a record after its extra fields, with the names `seen` before it. */
  ghost function TailChecks(h: CentralHeader, seen: set<string>): CodedChecks {
    var e, name := h.entry, h.entry.name;
    [(!Special(h.madeBy, h.externalAttrs), UnsupportedZipFeature),
     (name !in seen, DuplicateEntry),
     (Slashed(name) ==> name[..|name| - 1] !in seen, UnsafeEntryName),
     (!Slashed(name) ==> name + "/" !in seen, UnsafeEntryName),
     (Slashed(name) ==> e.method_ == 0 && e.compressedSize == 0 && e.uncompressedSize == 0, InvalidArchive),
     (!Slashed(name) ==> e.method_ == 0 || e.method_ == 8, UnsupportedZipFeature),
     (!Slashed(name) ==> e.uncompressedSize <= 268_435_456, ArchiveLimitExceeded)]
  }

  lemma TailRefused(h: CentralHeader, seen: set<string>)
    ensures FirstFailing(TailChecks(h, seen), CentralRefusal(h, seen))
  {
    hide SpecialFile, Special;
    SpecialExact(h.madeBy, h.externalAttrs);
    var c := TailChecks(h, seen);
    assert !c[0].0 || !c[1].0 || !c[2].0 || !c[3].0 || !c[4].0 || !c[5].0 || !c[6].0 || CentralRefusal(h, seen).None?;
  }

  ghost function RecordChecks(buf: seq<byte>, pos: nat, limit: nat, seen: set<string>, codec: Codec): CodedChecks
    requires limit <= |buf|
  {
    if pos + 46 > limit then [(false, InvalidArchive)]
    else
      [(U32(buf, pos) == 0x0201_4b50, InvalidArchive), (pos + RecordSize(buf, pos) <= limit, InvalidArchive)] +
      if pos + RecordSize(buf, pos) > limit then []
      else
        var name := codec.decodeUtf8(buf[pos + 46..pos + 46 + U16(buf, pos + 28)]);
        [(U32(buf, pos + 20) != 0xFFFF_FFFF && U32(buf, pos + 24) != 0xFFFF_FFFF && U32(buf, pos + 42) != 0xFFFF_FFFF,
          UnsupportedZipFeature),
         (name.Some?, InvalidArchive)] +
        if name.None? then []
        else
          var h := HeaderAt(buf, pos, name.value);
          HeadChecks(buf, pos, name.value) +
          ([(NoZip64Field(buf, h.extraStart, h.extraStart + h.extraLength), UnsupportedZipFeature)]
           + TailChecks(h, seen))
  }

  lemma HeaderIs(buf: seq<byte>, pos: nat, limit: nat, codec: Codec)
    requires limit <= |buf| && CentralPrefix(buf, pos, limit, codec).Ok?
    ensures pos + 46 <= limit
    ensures var h := CentralPrefix(buf, pos, limit, codec).value; h == HeaderAt(buf, pos, h.entry.name)
    ensures pos + RecordSize(buf, pos) <= limit
  {
    PrefixExact(buf, pos, limit, CentralPrefix(buf, pos, limit, codec).value, codec);
  }

  lemma RecordSteps(buf: seq<byte>, pos: nat, limit: nat, seen: set<string>, codec: Codec)
    requires limit <= |buf| && CentralPrefix(buf, pos, limit, codec).Ok?
    ensures var h := CentralPrefix(buf, pos, limit, codec).value;
            ErrorOf(CentralRecord(buf, pos, limit, seen, codec)) ==
            match ScanExtra(buf, h.extraStart, h.extraStart + h.extraLength)
            case HasZip64 => Some(UnsupportedZipFeature)
            case ReadsOutOfRange => Some(OutOfRangeRead)
            case NoZip64 => CentralRefusal(h, seen)
  {
    hide CentralPrefix, ScanExtra, CentralRefusal;
  }

  lemma ExtraWithin(buf: seq<byte>, pos: nat, limit: nat, name: string)
    requires pos + 46 <= limit <= |buf| && pos + RecordSize(buf, pos) <= limit
    ensures var h := HeaderAt(buf, pos, name); h.extraStart + h.extraLength <= |buf|
  {
    hide U16, U32;
  }

  lemma OneCheck(passes: bool, e: ImportError)
    ensures FirstFailing([(passes, e)], if passes then None else Some(e))
  {
    assert passes || ![(passes, e)][0].0;
  }

  /** The extra fields and what comes after them. */
  lemma RestRefused(buf: seq<byte>, pos: nat, limit: nat, seen: set<string>, codec: Codec)
    requires limit <= |buf| && CentralPrefix(buf, pos, limit, codec).Ok?
    ensures var h := CentralPrefix(buf, pos, limit, codec).value;
            FirstFailing([(NoZip64Field(buf, h.extraStart, h.extraStart + h.extraLength), UnsupportedZipFeature)]
                         + TailChecks(h, seen), ErrorOf(CentralRecord(buf, pos, limit, seen, codec)))
  {
    hide CentralPrefix, CentralRecord, ScanExtra, NoZip64Field, CentralRefusal, TailChecks, FirstFailing, HeaderAt,
         RecordSize, U16, U32;
    HeaderIs(buf, pos, limit, codec);
    var h := CentralPrefix(buf, pos, limit, codec).value;
    ExtraWithin(buf, pos, limit, h.entry.name);
    RecordSteps(buf, pos, limit, seen, codec);
    ScanExact(buf, h.extraStart, h.extraStart + h.extraLength);
    ScanWithin(buf, h.extraStart, h.extraStart + h.extraLength);
    TailRefused(h, seen);
    var passes := NoZip64Field(buf, h.extraStart, h.extraStart + h.extraLength);
    OneCheck(passes, UnsupportedZipFeature);
    FirstFailingThen([(passes, UnsupportedZipFeature)], TailChecks(h, seen),
                     if passes then None else Some(UnsupportedZipFeature), CentralRefusal(h, seen));
  }

  lemma HeadRefused(buf: seq<byte>, pos: nat, limit: nat, name: string, codec: Codec)
    requires limit <= |buf| && pos + 46 <= limit && U32(buf, pos) == 0x0201_4b50 && pos + RecordSize(buf, pos) <= limit
    requires codec.decodeUtf8(buf[pos + 46..pos + 46 + U16(buf, pos + 28)]) == Some(name)
    requires U32(buf, pos + 20) != 0xFFFF_FFFF && U32(buf, pos + 24) != 0xFFFF_FFFF && U32(buf, pos + 42) != 0xFFFF_FFFF
    ensures FirstFailing(HeadChecks(buf, pos, name), ErrorOf(CentralPrefix(buf, pos, limit, codec)))
  {
    FlagsExact(RecordEntry(buf, pos, name));
    SafeNameExact(name);
    hide U16, U32, Flag, Unencrypted, SafeName, StaysInside;
    var c := HeadChecks(buf, pos, name);
    assert !c[0].0 || !c[1].0 || !c[2].0 || CentralPrefix(buf, pos, limit, codec).Ok?;
  }

  /** A directory record is refused with the code of the first thing in order that is wrong with it. */
  lemma RecordRefused(buf: seq<byte>, pos: nat, limit: nat, seen: set<string>, codec: Codec)
    requires limit <= |buf|
    ensures FirstFailing(RecordChecks(buf, pos, limit, seen, codec),
                         ErrorOf(CentralRecord(buf, pos, limit, seen, codec)))
  {
    hide U16, U32, HeadChecks, TailChecks, NoZip64Field, CentralRefusal, ScanExtra;
    var refusal := ErrorOf(CentralRecord(buf, pos, limit, seen, codec));
    var checks := RecordChecks(buf, pos, limit, seen, codec);
    if pos + 46 > limit {
      assert !checks[0].0;
      return;
    }
    if U32(buf, pos) != 0x0201_4b50 {
      assert !checks[0].0;
      return;
    }
    if pos + RecordSize(buf, pos) > limit {
      assert !checks[1].0;
      return;
    }
    var name := codec.decodeUtf8(buf[pos + 46..pos + 46 + U16(buf, pos + 28)]);
    if U32(buf, pos + 20) == 0xFFFF_FFFF || U32(buf, pos + 24) == 0xFFFF_FFFF || U32(buf, pos + 42) == 0xFFFF_FFFF {
      assert !checks[2].0;
      return;
    }
    if name.None? {
      assert !checks[3].0;
      return;
    }
    NamedRefused(buf, pos, limit, seen, name.value, codec);
  }

  lemma NamedRefused(buf: seq<byte>, pos: nat, limit: nat, seen: set<string>, name: string, codec: Codec)
    requires limit <= |buf| && pos + 46 <= limit && U32(buf, pos) == 0x0201_4b50 && pos + RecordSize(buf, pos) <= limit
    requires codec.decodeUtf8(buf[pos + 46..pos + 46 + U16(buf, pos + 28)]) == Some(name)
    requires U32(buf, pos + 20) != 0xFFFF_FFFF && U32(buf, pos + 24) != 0xFFFF_FFFF && U32(buf, pos + 42) != 0xFFFF_FFFF
    ensures FirstFailing(RecordChecks(buf, pos, limit, seen, codec),
                         ErrorOf(CentralRecord(buf, pos, limit, seen, codec)))
  {
    var fixed: CodedChecks :=
      [(U32(buf, pos) == 0x0201_4b50, InvalidArchive), (pos + RecordSize(buf, pos) <= limit, InvalidArchive)];
    var named: CodedChecks :=
      [(U32(buf, pos + 20) != 0xFFFF_FFFF && U32(buf, pos + 24) != 0xFFFF_FFFF && U32(buf, pos + 42) != 0xFFFF_FFFF,
        UnsupportedZipFeature), (true, InvalidArchive)];
    assert FirstFailing(fixed, None) && FirstFailing(named, None);
    hide U16, U32, HeadChecks, TailChecks, NoZip64Field, CentralRefusal, ScanExtra, CentralPrefix, FirstFailing,
         RecordSize, HeaderAt;
    var prefix, record := CentralPrefix(buf, pos, limit, codec), CentralRecord(buf, pos, limit, seen, codec);
    var h := HeaderAt(buf, pos, name);
    var head := HeadChecks(buf, pos, name);
    var rest: CodedChecks :=
      [(NoZip64Field(buf, h.extraStart, h.extraStart + h.extraLength), UnsupportedZipFeature)] + TailChecks(h, seen);
    HeadRefused(buf, pos, limit, name, codec);
    if prefix.Ok? {
      NameIs(buf, pos, limit, name, codec);
      RestRefused(buf, pos, limit, seen, codec);
    }
    FirstFailingThen(head, rest, ErrorOf(prefix), ErrorOf(record));
    FirstFailingThen(named, head + rest, None, ErrorOf(record));
    FirstFailingThen(fixed, named + (head + rest), None, ErrorOf(record));
    assert RecordChecks(buf, pos, limit, seen, codec) == fixed + (named + (head + rest));
  }

  lemma NameIs(buf: seq<byte>, pos: nat, limit: nat, name: string, codec: Codec)
    requires limit <= |buf| && CentralPrefix(buf, pos, limit, codec).Ok? && pos + 46 <= limit
    requires pos + RecordSize(buf, pos) <= limit
    requires codec.decodeUtf8(buf[pos + 46..pos + 46 + U16(buf, pos + 28)]) == Some(name)
    ensures CentralPrefix(buf, pos, limit, codec).value == HeaderAt(buf, pos, name)
  {
    PrefixExact(buf, pos, limit, CentralPrefix(buf, pos, limit, codec).value, codec);
  }

  // ----- the directory

  function NamesOf(hs: seq<CentralHeader>): set<string> {
    set i | 0 <= i < |hs| :: hs[i].entry.name
  }

  /** After the records `hs`, the next is refused. */
  ghost predicate StopsAfter(buf: seq<byte>, pos: nat, limit: nat, seen: set<string>, hs: seq<CentralHeader>, at: nat,
                             codec: Codec, e: ImportError)
    requires limit <= |buf|
  {
    && Records(buf, pos, at, limit, hs, codec) && NamesFollow(seen, hs)
    && FirstFailing(RecordChecks(buf, at, limit, seen + NamesOf(hs), codec), Some(e))
  }

  /** A refused walk has read some records, and the next one is what it is refused for. */
  lemma {:induction false} WalkRefused(buf: seq<byte>, pos: nat, count: nat, limit: nat, seen: set<string>,
                                       codec: Codec) returns (hs: seq<CentralHeader>, at: nat)
    requires limit <= |buf| && WalkCentral(buf, pos, count, limit, seen, codec).Err?
    ensures |hs| < count
    ensures StopsAfter(buf, pos, limit, seen, hs, at, codec, WalkCentral(buf, pos, count, limit, seen, codec).error)
    decreases count
  {
    hide CentralRecord, RecordAsRequired, MayFollowAll, FilesOf, RecordChecks, FirstFailing;
    RecordRefused(buf, pos, limit, seen, codec);
    var r := CentralRecord(buf, pos, limit, seen, codec);
    if r.Err? {
      hs, at := [], pos;
      assert seen + NamesOf([]) == seen;
    } else {
      var h := r.value;
      var rest;
      rest, at := WalkRefused(buf, pos + h.size, count - 1, limit, seen + {h.entry.name}, codec);
      RecordExact(buf, pos, limit, seen, h, codec);
      hs := [h] + rest;
      assert hs[1..] == rest;
      NamesFirst(hs);
      assert seen + {h.entry.name} + NamesOf(rest) == seen + NamesOf(hs);
    }
  }

  lemma NamesFirst(hs: seq<CentralHeader>)
    requires hs != []
    ensures NamesOf(hs) == {hs[0].entry.name} + NamesOf(hs[1..])
  {
    forall i | 0 < i < |hs| ensures hs[i].entry.name in NamesOf(hs[1..]) {
      assert hs[1..][i - 1] == hs[i];
    }
    forall i | 0 <= i < |hs[1..]| ensures hs[1..][i].entry.name in NamesOf(hs) {
      assert hs[1..][i] == hs[i + 1];
    }
  }

  /** What is asked of all the entries together. */
  ghost function DirectoryChecks(entries: seq<CentralEntry>): CodedChecks {
    [(forall e <- entries :: e.name != "version-manifest.json" ==> Normalized(e.name) != "version-manifest.json",
      MultipleManifests),
     (exists e <- entries :: e.name == "version-manifest.json", MissingManifest),
     (forall i, j :: 0 <= i < j < |entries| ==>
        !(entries[i].name == entries[j].name == "version-manifest.json"), MultipleManifests),
     (DeclaredTotal(entries) <= 1_073_741_824, ArchiveLimitExceeded)]
  }

  lemma {:induction false} ManifestsCounted(entries: seq<CentralEntry>)
    ensures ManifestCount(entries) == 0 <==> !exists e <- entries :: e.name == "version-manifest.json"
    ensures ManifestCount(entries) <= 1
       <==> forall i, j :: 0 <= i < j < |entries| ==>
              !(entries[i].name == entries[j].name == "version-manifest.json")
  {
    if entries != [] {
      var first, rest := entries[0], entries[1..];
      ManifestsCounted(rest);
      assert entries == [first] + rest;
      assert forall i :: 0 <= i < |rest| ==> rest[i] == entries[i + 1];
      assert forall i :: 0 < i < |entries| ==> entries[i] == rest[i - 1];
      if first.name == "version-manifest.json" {
        assert (exists e <- rest :: e.name == "version-manifest.json")
          <==> exists j :: 0 < j < |entries| && entries[j].name == "version-manifest.json";
      }
    }
  }

  lemma DirectoryRefused(entries: seq<CentralEntry>)
    ensures FirstFailing(DirectoryChecks(entries), DirectoryRefusal(entries))
  {
    hide Normalized, ManifestCount;
    ManifestsCounted(entries);
    var c := DirectoryChecks(entries);
    assert c[0].0 <==> !HasAlias(entries);
    assert !c[0].0 || !c[1].0 || !c[2].0 || !c[3].0 || DirectoryRefusal(entries).None?;
  }

  // ----- one entry

  /** What is asked of an entry's local header up to its extra fields. */
  ghost function LocalChecks(buf: seq<byte>, e: CentralEntry, codec: Codec): CodedChecks {
    if e.offset + 30 > |buf| then [(false, InvalidArchive)]
    else
      [(U32(buf, e.offset) == 0x0403_4b50, InvalidArchive), (NameEnd(buf, e) <= |buf|, InvalidArchive),
       (NameEnd(buf, e) <= |buf| ==> codec.decodeUtf8(buf[e.offset + 30..NameEnd(buf, e)]) == Some(e.name),
        InvalidArchive),
       (U16(buf, e.offset + 4) < 45, UnsupportedZipFeature), (U16(buf, e.offset + 8) == e.method_, InvalidArchive),
       (U16(buf, e.offset + 6) == e.flags, InvalidArchive)]
  }

  lemma LocalRefused(buf: seq<byte>, e: CentralEntry, codec: Codec)
    ensures FirstFailing(LocalChecks(buf, e, codec), ErrorOf(LocalPrefix(buf, e, codec)))
  {
    hide U16, U32;
    var c := LocalChecks(buf, e, codec);
    assert !c[0].0 || !c[1].0 || !c[2].0 || !c[3].0 || !c[4].0 || !c[5].0 || LocalPrefix(buf, e, codec).Ok?;
  }

  /** The extra fields: no record past the buffer, and none of them ZIP64. */
  ghost function ExtraChecks(buf: seq<byte>, p: nat, end: nat): CodedChecks {
    [(!RunsPast(buf, p, end), OutOfRangeRead), (NoZip64Field(buf, p, end), UnsupportedZipFeature)]
  }

  /** What an entry's data is once decompressed, if it can be. */
  function DataOf(e: CentralEntry, raw: seq<byte>, codec: Codec): Option<seq<byte>> {
    if e.method_ == 0 then Some(raw)
    else match codec.inflateRaw(raw) case Inflated(data) => Some(data) case _ => None
  }

  /** What is asked of an entry's contents, found in `[start, start + compressedSize)`. */
  ghost function DataChecks(buf: seq<byte>, e: CentralEntry, start: nat, codec: Codec): CodedChecks
    requires e.offset + 30 <= |buf|
  {
    var gone := Described(e);
    [(U32(buf, e.offset + 14) == (if gone then 0 else e.crc) &&
      U32(buf, e.offset + 18) == (if gone then 0 else e.compressedSize) &&
      U32(buf, e.offset + 22) == (if gone then 0 else e.uncompressedSize), InvalidArchive),
     (start + e.compressedSize <= |buf|, InvalidArchive)] +
    if start + e.compressedSize > |buf| then []
    else
      var raw := buf[start..start + e.compressedSize];
      [(e.method_ == 0 ==> e.compressedSize == e.uncompressedSize, InvalidArchive),
       (e.method_ != 0 ==> codec.inflateRaw(raw) != OutputTooLarge, ArchiveLimitExceeded),
       (DataOf(e, raw, codec).Some?, InvalidArchive)] +
      match DataOf(e, raw, codec)
      case None => []
      case Some(data) =>
        [(e.method_ != 0 ==> |data| <= 268_435_456, ArchiveLimitExceeded),
         (|data| == e.uncompressedSize, InvalidArchive), (Crc32.ChecksumValue(data) == e.crc, Crc32Mismatch)]
  }

  lemma DataRefused(buf: seq<byte>, e: CentralEntry, start: nat, codec: Codec)
    requires e.offset + 30 <= |buf|
    ensures FirstFailing(DataChecks(buf, e, start, codec), ErrorOf(LocalPayload(buf, e, start, codec)))
  {
    FlagsExact(e);
    hide U32, Crc32.ChecksumValue, Described, HasDescriptor;
    var c := DataChecks(buf, e, start, codec);
    if !c[0].0 || !c[1].0 {
      return;
    }
    var raw := buf[start..start + e.compressedSize];
    if !c[2].0 || !c[3].0 || !c[4].0 {
      return;
    }
    assert !c[5].0 || !c[6].0 || !c[7].0 || LocalPayload(buf, e, start, codec).Ok?;
  }

  /** An entry is refused, up to its checksum, with the code of the first thing in order that is wrong with it. */
  ghost function PayloadChecks(buf: seq<byte>, e: CentralEntry, codec: Codec): CodedChecks {
    LocalChecks(buf, e, codec) +
    if e.offset + 30 > |buf| then []
    else ExtraChecks(buf, NameEnd(buf, e), DataStart(buf, e)) + DataChecks(buf, e, DataStart(buf, e), codec)
  }

  lemma PayloadRefused(buf: seq<byte>, e: CentralEntry, codec: Codec)
    ensures FirstFailing(PayloadChecks(buf, e, codec), ErrorOf(ExtractPayload(buf, e, codec)))
  {
    hide LocalPrefix, LocalPayload, LocalChecks, DataChecks, ScanExtra, RunsPast, NoZip64Field, U16, U32, NameEnd,
         DataStart;
    LocalRefused(buf, e, codec);
    PrefixFacts(buf, e, codec);
    var prefix, payload := LocalPrefix(buf, e, codec), ExtractPayload(buf, e, codec);
    var later: CodedChecks :=
      if e.offset + 30 > |buf| then []
      else ExtraChecks(buf, NameEnd(buf, e), DataStart(buf, e)) + DataChecks(buf, e, DataStart(buf, e), codec);
    if prefix.Ok? {
      var p, end := NameEnd(buf, e), DataStart(buf, e);
      ScanExact(buf, p, end);
      ScanRunsPast(buf, p, end);
      DataRefused(buf, e, end, codec);
      var extra := match ScanExtra(buf, p, end) case NoZip64 => None case HasZip64 => Some(UnsupportedZipFeature)
                                                case ReadsOutOfRange => Some(OutOfRangeRead);
      var c := ExtraChecks(buf, p, end);
      assert !c[0].0 || !c[1].0 || extra.None?;
      FirstFailingThen(c, DataChecks(buf, e, end, codec), extra, ErrorOf(LocalPayload(buf, e, end, codec)));
    }
    FirstFailingThen(LocalChecks(buf, e, codec), later, ErrorOf(prefix), ErrorOf(payload));
  }

  // ----- the whole archive

  /** What is asked of an entry once its data is there: the total so far, the descriptor, an end below the directory. */
  ghost function RegionChecks(buf: seq<byte>, e: CentralEntry, p: Payload, total: nat, cdOffset: nat): CodedChecks {
    [(total + |p.data| <= 1_073_741_824, ArchiveLimitExceeded),
     (exists end: nat :: EndsAt(buf, e, p.dataEnd, end) && end <= cdOffset, InvalidArchive)]
  }

  /** Entry `k` is the first that cannot be extracted, and this is why. */
  ghost predicate StopsAt(buf: seq<byte>, entries: seq<CentralEntry>, k: nat, total: nat, cdOffset: nat, codec: Codec,
                          x: ImportError)
    requires k < |entries|
  {
    && (forall i :: 0 <= i < k ==> ExtractPayload(buf, entries[i], codec).Ok?)
    && match ExtractPayload(buf, entries[k], codec)
       case Err(_) => FirstFailing(PayloadChecks(buf, entries[k], codec), Some(x))
       case Ok(p) =>
         FirstFailing(RegionChecks(buf, entries[k], p, total + DeclaredTotal(entries[..k]), cdOffset), Some(x))
  }

  lemma RegionRefused(buf: seq<byte>, e: CentralEntry, p: Payload, total: nat, cdOffset: nat, x: ImportError)
    requires if total + |p.data| > 1_073_741_824 then x == ArchiveLimitExceeded
             else if RegionEnd(buf, e, p.dataEnd).Err? then x == RegionEnd(buf, e, p.dataEnd).error
             else RegionEnd(buf, e, p.dataEnd).value > cdOffset && x == InvalidArchive
    ensures FirstFailing(RegionChecks(buf, e, p, total, cdOffset), Some(x))
  {
    hide EndsAt, U32, HasDescriptor;
    forall end: nat ensures RegionEnd(buf, e, p.dataEnd) == Ok(end) <==> EndsAt(buf, e, p.dataEnd, end) {
      RegionEndExact(buf, e, p.dataEnd, end);
    }
    var c := RegionChecks(buf, e, p, total, cdOffset);
    assert !c[0].0 || !c[1].0;
  }

  lemma PayloadSize(buf: seq<byte>, e: CentralEntry, codec: Codec)
    ensures var p := ExtractPayload(buf, e, codec); p.Ok? ==> |p.value.data| == e.uncompressedSize
  {
    PayloadFacts(buf, e, codec);
    hide ExtractPayload, LocalHeaderAgrees;
  }

  lemma {:induction false} ExtractRefused(buf: seq<byte>, entries: seq<CentralEntry>, total: nat, cdOffset: nat,
                                          codec: Codec) returns (k: nat)
    requires ExtractAll(buf, entries, total, cdOffset, codec).Err?
    ensures k < |entries|
    ensures StopsAt(buf, entries, k, total, cdOffset, codec, ExtractAll(buf, entries, total, cdOffset, codec).error)
    decreases |entries|
  {
    hide ExtractPayload, RegionEnd, PayloadChecks, RegionChecks, FirstFailing;
    var e, x := entries[0], ExtractAll(buf, entries, total, cdOffset, codec).error;
    var p := ExtractPayload(buf, e, codec);
    PayloadRefused(buf, e, codec);
    if p.Err? || total + |p.value.data| > MAX_TOTAL_BYTES || RegionEnd(buf, e, p.value.dataEnd).Err? ||
       RegionEnd(buf, e, p.value.dataEnd).value > cdOffset
    {
      k := 0;
      if p.Ok? {
        RegionRefused(buf, e, p.value, total, cdOffset, x);
      }
    } else {
      var rest := entries[1..];
      PayloadSize(buf, e, codec);
      var j := ExtractRefused(buf, rest, total + |p.value.data|, cdOffset, codec);
      k := j + 1;
      TotalSplit(entries[..k]);
      assert entries[..k][1..] == rest[..j];
      forall i | 0 <= i < k ensures ExtractPayload(buf, entries[i], codec).Ok? {
        assert i > 0 ==> entries[i] == rest[i - 1];
      }
    }
  }

  /** Where, in the directory and its files, a reader that got past the end record stops, and with which code. */
  ghost predicate EntriesStop(buf: seq<byte>, end: EndRecord, codec: Codec, x: ImportError)
    requires end.cdOffset + end.cdSize <= |buf|
  {
    var limit := end.cdOffset + end.cdSize;
    || (exists hs, at :: |hs| < end.count && StopsAfter(buf, end.cdOffset, limit, {}, hs, at, codec, x))
    || (exists hs, at ::
          && |hs| == end.count && Records(buf, end.cdOffset, at, limit, hs, codec) && at != limit
          && x == InvalidArchive)
    || exists hs ::
         && DirectoryAsRequired(buf, end, hs, codec)
         && (FirstFailing(DirectoryChecks(FileEntries(hs)), Some(x)) || FilesStop(buf, end, FileEntries(hs), codec, x))
  }

  /** An entry cannot be extracted, or all can and two of their regions overlap. */
  ghost predicate FilesStop(buf: seq<byte>, end: EndRecord, entries: seq<CentralEntry>, codec: Codec, x: ImportError) {
    FirstFailing(DirectoryChecks(entries), None) &&
    ((exists k: nat :: k < |entries| && StopsAt(buf, entries, k, 0, end.cdOffset, codec, x)) ||
     (x == InvalidArchive && exists regions :: Regions(buf, entries, regions) && Overlap(regions)))
  }

  ghost predicate Regions(buf: seq<byte>, entries: seq<CentralEntry>, regions: seq<Region>) {
    |regions| == |entries| && forall i :: 0 <= i < |entries| ==> RegionOf(buf, entries[i], regions[i])
  }

  ghost predicate Overlap(regions: seq<Region>) {
    exists i, j :: 0 <= i < j < |regions| && regions[j].start < regions[i].end && regions[i].start < regions[j].end
  }

  /** From the local header through data and descriptor. */
  ghost predicate RegionOf(buf: seq<byte>, e: CentralEntry, r: Region) {
    r.start == e.offset && e.offset + 30 <= |buf| && EndsAt(buf, e, DataStart(buf, e) + e.compressedSize, r.end)
  }

  lemma FilesRefused(buf: seq<byte>, end: EndRecord, entries: seq<CentralEntry>, codec: Codec, x: ImportError)
    requires DirectoryRefusal(entries).None?
    requires match ExtractAll(buf, entries, 0, end.cdOffset, codec)
             case Err(e) => x == e
             case Ok(extraction) => !AllDisjoint(extraction.regions) && x == InvalidArchive
    ensures FilesStop(buf, end, entries, codec, x)
  {
    hide DirectoryChecks, StopsAt, EndsAt, FaithfulData, ExtractAll, DirectoryRefusal, AllDisjoint, FirstFailing,
         HasDescriptor, U16, U32, Described;
    DirectoryRefused(entries);
    if ExtractAll(buf, entries, 0, end.cdOffset, codec).Err? {
      var k := ExtractRefused(buf, entries, 0, end.cdOffset, codec);
    } else {
      ExtractionFaithful(buf, entries, 0, end.cdOffset, codec);
      var regions := ExtractAll(buf, entries, 0, end.cdOffset, codec).value.regions;
      DisjointPairs(regions);
      assert Regions(buf, entries, regions) && Overlap(regions);
    }
  }

  lemma EntriesRefused(buf: seq<byte>, end: EndRecord, codec: Codec)
    requires end.cdOffset + end.cdSize <= |buf| && ReadEntries(buf, end, codec).Err?
    ensures EntriesStop(buf, end, codec, ReadEntries(buf, end, codec).error)
  {
    hide WalkCentral, ExtractAll, DirectoryRefusal, AllDisjoint, ToMap, Records, StopsAfter, FilesStop, DirectoryChecks,
         FirstFailing, FileEntries, MayFollow;
    var limit := end.cdOffset + end.cdSize;
    var walk := WalkCentral(buf, end.cdOffset, end.count, limit, {}, codec);
    var x := ReadEntries(buf, end, codec).error;
    if walk.Err? {
      var hs, at := WalkRefused(buf, end.cdOffset, end.count, limit, {}, codec);
    } else {
      var hs := WalkRecords(buf, end.cdOffset, end.count, limit, {}, codec);
      if walk.value.end == limit {
        FollowPairs({}, hs);
        DirectoryRefused(FileEntries(hs));
        if DirectoryRefusal(FileEntries(hs)).None? {
          FilesRefused(buf, end, FileEntries(hs), codec, x);
        }
        assert DirectoryAsRequired(buf, end, hs, codec);
      }
    }
  }

  /** Every refusal of the reader, with its code: the size, the end record, the directory, or an entry. */
  lemma ReaderRefused(buf: seq<byte>, codec: Codec)
    requires Reading(buf, codec).Err?
    ensures var x := Reading(buf, codec).error;
            if |buf| > 536_870_912 then x == ArchiveLimitExceeded
            else if forall p: nat :: !LastEnd(buf, p) then x == InvalidArchive
            else exists p: nat ::
              && LastEnd(buf, p) && p + 22 <= |buf|
              && (FirstFailing(EndChecks(buf, p), Some(x)) ||
                  exists end :: EndRecordAsRequired(buf, p, end) && EntriesStop(buf, end, codec, x))
  {
    hide ReadEntries, EocdAt, LastEnd, EocdLow, ReadEndRecord, EntriesStop, EndChecks, FirstFailing,
         EndRecordAsRequired;
    if 22 <= |buf| <= MAX_ARCHIVE_BYTES && LastEocd(buf, |buf| - 22, EocdLow(buf)).Some? {
      var p := LastEocd(buf, |buf| - 22, EocdLow(buf)).value;
      EndFound(buf);
      EndRefused(buf, p);
      if ReadEndRecord(buf, p).Ok? {
        var end := ReadEndRecord(buf, p).value;
        EndRecordExact(buf, p, end);
        EntriesRefused(buf, end, codec);
      }
    } else if |buf| <= MAX_ARCHIVE_BYTES {
      EndMissing(buf);
    }
  }

  lemma EndFound(buf: seq<byte>)
    requires 22 <= |buf| && LastEocd(buf, |buf| - 22, EocdLow(buf)).Some?
    ensures LastEnd(buf, LastEocd(buf, |buf| - 22, EocdLow(buf)).value)
  {
    hide EocdAt, EndAt, EocdLow;
    EndAtExact(buf);
    EocdFits(buf);
  }

  lemma EndMissing(buf: seq<byte>)
    requires |buf| < 22 || LastEocd(buf, |buf| - 22, EocdLow(buf)).None?
    ensures forall p: nat :: !LastEnd(buf, p)
  {
    hide EocdAt, EndAt, EocdLow;
    EndAtExact(buf);
    EocdFits(buf);
  }
}
