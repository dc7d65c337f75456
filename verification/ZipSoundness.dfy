/** What acceptance by the ZIP reader means, for every buffer. */
module ZipSoundness {
  import opened Wrappers
  import opened Bytes
  import opened EntryNames
  import opened ZipReader
  import Text
  import Crc32

  /** The size a central record claims: fixed part, name, extra fields and comment (APPNOTE 4.3.12). */
  function RecordSize(buf: seq<byte>, pos: nat): nat
    requires pos + 46 <= |buf|
  {
    46 + U16(buf, pos + 28) + U16(buf, pos + 30) + U16(buf, pos + 32)
  }

  /** The entry a central record describes, once its name has been decoded. */
  function RecordEntry(buf: seq<byte>, pos: nat, name: string): CentralEntry
    requires pos + 46 <= |buf|
  {
    CentralEntry(name, U16(buf, pos + 10), U16(buf, pos + 8), U32(buf, pos + 16), U32(buf, pos + 20),
                 U32(buf, pos + 24), U32(buf, pos + 42))
  }

  /** `[pos, end)` is exactly `n` central records laid end to end, and `entries` lists those that are files. */
  ghost predicate Listing(buf: seq<byte>, pos: nat, n: nat, end: nat, entries: seq<CentralEntry>, codec: Codec)
    decreases n
  {
    if n == 0 then pos == end && entries == []
    else
      pos + 46 <= |buf| && U32(buf, pos) == 0x0201_4b50 && pos + RecordSize(buf, pos) <= end && end <= |buf| &&
      var next := pos + RecordSize(buf, pos);
      match codec.decodeUtf8(buf[pos + 46..pos + 46 + U16(buf, pos + 28)])
      case None => false
      case Some(name) =>
        if Slashed(name) then Listing(buf, next, n - 1, end, entries, codec)
        else entries != [] && entries[0] == RecordEntry(buf, pos, name) &&
             Listing(buf, next, n - 1, end, entries[1..], codec)
  }

  /** Two dots at position `i`, with an end of the name or a slash on each side. */
  predicate DotsAt(name: string, i: nat) {
    && i + 2 <= |name| && name[i] == '.' && name[i + 1] == '.'
    && (i > 0 ==> name[i - 1] == '/') && (i + 2 < |name| ==> name[i + 2] == '/')
  }

  /** A relative path with forward slashes and no `..` between them: it stays in the directory it is unpacked to. */
  predicate StaysInside(name: string) {
    && name != "" && '\0' !in name && '\\' !in name && name[0] != '/'
    && !(|name| >= 3 && ('A' <= name[0] <= 'Z' || 'a' <= name[0] <= 'z') && name[1] == ':' && name[2] == '/')
    && forall i: nat :: i < |name| ==> !DotsAt(name, i)
  }

  lemma DotsStand(name: string, i: nat)
    ensures DotsAt(name, i) <==> Text.StandsAt(StripTrailingSlash(name), '/', "..", i)
  {
    var s := StripTrailingSlash(name);
    if i + 2 <= |s| {
      assert s[i..i + 2] == [name[i], name[i + 1]];
    }
  }

  /** The names the reader does not refuse as unsafe are exactly those. */
  lemma SafeNameExact(name: string)
    ensures SafeName(name) <==> StaysInside(name)
  {
    hide DotsAt, Text.StandsAt, StripTrailingSlash, Text.Split;
    Text.PartStands(StripTrailingSlash(name), '/', "..");
    forall i: nat ensures DotsAt(name, i) <==> Text.StandsAt(StripTrailingSlash(name), '/', "..", i) {
      DotsStand(name, i);
    }
    forall i: nat | DotsAt(name, i) ensures i < |name| {
      DotsFit(name, i);
    }
  }

  lemma DotsFit(name: string, i: nat)
    requires DotsAt(name, i)
    ensures i < |name|
  {
  }

  /** Neither kind of encryption flag is set. */
  predicate Unencrypted(e: CentralEntry) { e.flags % 2 == 0 && e.flags / 64 % 2 == 0 }

  /** A data descriptor follows the contents: bit 3 of the flags. */
  predicate Described(e: CentralEntry) { e.flags / 8 % 2 == 1 }

  /** A directory's name ends in a slash. */
  predicate Slashed(name: string) { |name| > 0 && name[|name| - 1] == '/' }

  lemma FlagsExact(e: CentralEntry)
    ensures Unencrypted(e) <==> !Flag(e.flags, 0x01) && !Flag(e.flags, 0x40)
    ensures Described(e) <==> HasDescriptor(e)
  {
  }

  lemma CentralPrefixShape(buf: seq<byte>, pos: nat, limit: nat, codec: Codec)
    requires limit <= |buf|
    ensures var r := CentralPrefix(buf, pos, limit, codec);
            r.Ok? ==> pos + 46 <= limit && U32(buf, pos) == SIG_CENTRAL &&
                      r.value.size == RecordSize(buf, pos) && pos + r.value.size <= limit &&
                      codec.decodeUtf8(buf[pos + 46..pos + 46 + U16(buf, pos + 28)]) == Some(r.value.entry.name) &&
                      r.value.entry == RecordEntry(buf, pos, r.value.entry.name) &&
                      SafeName(r.value.entry.name) && Unencrypted(r.value.entry) &&
                      r.value.extraStart + r.value.extraLength <= limit
    ensures CentralPrefix(buf, pos, limit, codec) != Err(OutOfRangeRead)
  {
    hide SafeName, Flag, Unencrypted;
    var r := CentralPrefix(buf, pos, limit, codec);
    if r.Ok? {
      FlagsExact(r.value.entry);
    }
  }

  lemma {:induction false} WalkListsRecords(buf: seq<byte>, pos: nat, count: nat, limit: nat, seen: set<string>,
                                            codec: Codec)
    requires pos <= limit <= |buf|
    ensures var r := WalkCentral(buf, pos, count, limit, seen, codec);
            r.Ok? ==> Listing(buf, pos, count, r.value.end, r.value.entries, codec) &&
                      pos <= r.value.end <= limit && |r.value.entries| <= count
    decreases count
  {
    hide CentralPrefix, CentralRefusal, ScanExtra, SafeName, Unencrypted, U16, U32, RecordEntry;
    var r := WalkCentral(buf, pos, count, limit, seen, codec);
    if count != 0 && r.Ok? {
      CentralPrefixShape(buf, pos, limit, codec);
      var h := CentralRecord(buf, pos, limit, seen, codec).value;
      WalkListsRecords(buf, pos + h.size, count - 1, limit, seen + {h.entry.name}, codec);
      var rest := WalkCentral(buf, pos + h.size, count - 1, limit, seen + {h.entry.name}, codec).value.entries;
      assert IsDirectoryName(h.entry.name) ==> r.value.entries == rest;
      assert !IsDirectoryName(h.entry.name) ==> r.value.entries == [h.entry] + rest && r.value.entries[1..] == rest;
    }
  }

  /** A file entry the walk may return: safe name, no encryption, supported method, individual limit. */
  predicate AcceptableEntry(e: CentralEntry) {
    StaysInside(e.name) && !Slashed(e.name) && Unencrypted(e) &&
    (e.method_ == 0 || e.method_ == 8) && e.uncompressedSize <= 268_435_456
  }

  ghost predicate DistinctNames(entries: seq<CentralEntry>) {
    forall i, j :: 0 <= i < j < |entries| ==> entries[i].name != entries[j].name
  }

  lemma RefusalPasses(h: CentralHeader, seen: set<string>)
    requires CentralRefusal(h, seen).None? && SafeName(h.entry.name) && Unencrypted(h.entry)
    ensures h.entry.name !in seen
    ensures !IsDirectoryName(h.entry.name) ==> AcceptableEntry(h.entry)
  {
    hide SafeName, StaysInside, Unencrypted;
    SafeNameExact(h.entry.name);
  }

  lemma {:induction false} WalkEntries(buf: seq<byte>, pos: nat, count: nat, limit: nat, seen: set<string>,
                                       codec: Codec)
    requires limit <= |buf|
    ensures var r := WalkCentral(buf, pos, count, limit, seen, codec);
            r.Ok? ==> DistinctNames(r.value.entries) &&
                      (forall i :: 0 <= i < |r.value.entries| ==>
                         r.value.entries[i].name !in seen && AcceptableEntry(r.value.entries[i]))
    decreases count
  {
    hide CentralPrefix, CentralRefusal, ScanExtra, SafeName, Unencrypted, AcceptableEntry;
    var r := WalkCentral(buf, pos, count, limit, seen, codec);
    if count != 0 && r.Ok? {
      CentralPrefixShape(buf, pos, limit, codec);
      var h := CentralRecord(buf, pos, limit, seen, codec).value;
      RefusalPasses(h, seen);
      var rest := WalkCentral(buf, pos + h.size, count - 1, limit, seen + {h.entry.name}, codec);
      WalkEntries(buf, pos + h.size, count - 1, limit, seen + {h.entry.name}, codec);
      if !IsDirectoryName(h.entry.name) {
        assert r.value.entries == [h.entry] + rest.value.entries;
      } else {
        assert r.value.entries == rest.value.entries;
      }
    }
  }

  /** Where an entry's data starts, by its local header (APPNOTE 4.3.7). */
  function DataStart(buf: seq<byte>, e: CentralEntry): nat
    requires e.offset + 30 <= |buf|
  {
    e.offset + 30 + U16(buf, e.offset + 26) + U16(buf, e.offset + 28)
  }

  /** Where an entry's local name ends. */
  function NameEnd(buf: seq<byte>, e: CentralEntry): nat
    requires e.offset + 30 <= |buf|
  {
    e.offset + 30 + U16(buf, e.offset + 26)
  }

  /**
   The local header repeats the directory (APPNOTE 4.3.7): the name, the flags, the method, and the sizes and checksum,
   which are zero instead when a data descriptor carries them. Nothing in it is ZIP64.
   */
  ghost predicate LocalHeaderAgrees(buf: seq<byte>, e: CentralEntry, codec: Codec) {
    && e.offset + 30 <= |buf| && U32(buf, e.offset) == 0x0403_4b50 && U16(buf, e.offset + 4) < 45
    && U16(buf, e.offset + 6) == e.flags && U16(buf, e.offset + 8) == e.method_
    && NameEnd(buf, e) <= |buf| && codec.decodeUtf8(buf[e.offset + 30..NameEnd(buf, e)]) == Some(e.name)
    && ScanExtra(buf, NameEnd(buf, e), DataStart(buf, e)) == NoZip64
    && var described := Described(e);
    && U32(buf, e.offset + 14) == (if described then 0 else e.crc)
    && U32(buf, e.offset + 18) == (if described then 0 else e.compressedSize)
    && U32(buf, e.offset + 22) == (if described then 0 else e.uncompressedSize)
  }

  /** `data` is what the bytes after the local header hold, and has the declared size and checksum. */
  ghost predicate FaithfulData(buf: seq<byte>, e: CentralEntry, data: seq<byte>, codec: Codec) {
    && e.offset + 30 <= |buf| && DataStart(buf, e) + e.compressedSize <= |buf|
    && var raw := buf[DataStart(buf, e)..DataStart(buf, e) + e.compressedSize];
    && (e.method_ == 0 ==> data == raw)
    && (e.method_ != 0 ==> codec.inflateRaw(raw) == Inflated(data))
    && |data| == e.uncompressedSize && Crc32.ChecksumValue(data) == e.crc
  }

  /**
   The region that holds data up to `dataEnd` ends at `end`: right there without a descriptor; otherwise past the
   descriptor's optional signature and three fields, which hold the directory's values (APPNOTE 4.3.9).
   */
  ghost predicate EndsAt(buf: seq<byte>, e: CentralEntry, dataEnd: nat, end: nat) {
    if !Described(e) then end == dataEnd
    else
      && dataEnd + 12 <= end <= |buf|
      && end == (if U32(buf, dataEnd) == 0x0807_4b50 then dataEnd + 16 else dataEnd + 12)
      && U32(buf, end - 12) == e.crc && U32(buf, end - 8) == e.compressedSize && U32(buf, end - 4) == e.uncompressedSize
  }

  /** What one accepted entry guarantees about its header, its bytes and its region, header through descriptor. */
  ghost predicate FaithfulEntry(buf: seq<byte>, e: CentralEntry, data: seq<byte>, region: Region, cdOffset: nat,
                                codec: Codec)
  {
    LocalHeaderAgrees(buf, e, codec) && FaithfulData(buf, e, data, codec) &&
    region.start == e.offset && EndsAt(buf, e, DataStart(buf, e) + e.compressedSize, region.end) &&
    region.end <= cdOffset
  }

  lemma PrefixFacts(buf: seq<byte>, e: CentralEntry, codec: Codec)
    ensures var r := LocalPrefix(buf, e, codec);
            r.Ok? ==> r.value.start == NameEnd(buf, e) <= |buf| && r.value.end == DataStart(buf, e) &&
                      U32(buf, e.offset) == SIG_LOCAL && U16(buf, e.offset + 4) < 45 &&
                      U16(buf, e.offset + 6) == e.flags && U16(buf, e.offset + 8) == e.method_ &&
                      codec.decodeUtf8(buf[e.offset + 30..NameEnd(buf, e)]) == Some(e.name)
  {
    hide U16, U32;
  }

  lemma PayloadFacts(buf: seq<byte>, e: CentralEntry, codec: Codec)
    ensures var p := ExtractPayload(buf, e, codec);
            p.Ok? ==> LocalHeaderAgrees(buf, e, codec) && FaithfulData(buf, e, p.value.data, codec) &&
                      p.value.dataEnd == DataStart(buf, e) + e.compressedSize
  {
    hide ScanExtra, Crc32.ChecksumValue, LocalPrefix, U16, U32, NameEnd, DataStart, HasDescriptor, Described;
    PrefixFacts(buf, e, codec);
    FlagsExact(e);
  }

  /** The reader puts the end of a region exactly there. */
  lemma RegionEndExact(buf: seq<byte>, e: CentralEntry, dataEnd: nat, end: nat)
    ensures RegionEnd(buf, e, dataEnd) == Ok(end) <==> EndsAt(buf, e, dataEnd, end)
  {
    hide U32, HasDescriptor, Described;
    FlagsExact(e);
  }

  lemma {:induction false} ExtractionFaithful(buf: seq<byte>, entries: seq<CentralEntry>, total: nat, cdOffset: nat,
                                              codec: Codec)
    ensures var r := ExtractAll(buf, entries, total, cdOffset, codec);
            r.Ok? ==> |r.value.files| == |entries| == |r.value.regions| &&
                      r.value.total == total + DeclaredTotal(entries) &&
                      (forall i :: 0 <= i < |entries| ==>
                         FaithfulEntry(buf, entries[i], r.value.files[i], r.value.regions[i], cdOffset, codec))
    decreases |entries|
  {
    hide ExtractPayload, RegionEnd, FaithfulEntry;
    var r := ExtractAll(buf, entries, total, cdOffset, codec);
    if entries != [] && r.Ok? {
      var e := entries[0];
      var p := ExtractPayload(buf, e, codec).value;
      var end := RegionEnd(buf, e, p.dataEnd).value;
      FirstFaithful(buf, e, cdOffset, codec);
      var rest := ExtractAll(buf, entries[1..], total + |p.data|, cdOffset, codec);
      ExtractionFaithful(buf, entries[1..], total + |p.data|, cdOffset, codec);
      assert r.value.files == [p.data] + rest.value.files;
      assert r.value.regions == [Region(e.offset, end)] + rest.value.regions;
    }
  }

  lemma FirstFaithful(buf: seq<byte>, e: CentralEntry, cdOffset: nat, codec: Codec)
    requires ExtractPayload(buf, e, codec).Ok?
    requires RegionEnd(buf, e, ExtractPayload(buf, e, codec).value.dataEnd).Ok?
    requires RegionEnd(buf, e, ExtractPayload(buf, e, codec).value.dataEnd).value <= cdOffset
    ensures var p := ExtractPayload(buf, e, codec).value;
            |p.data| == e.uncompressedSize &&
            FaithfulEntry(buf, e, p.data, Region(e.offset, RegionEnd(buf, e, p.dataEnd).value), cdOffset, codec)
  {
    hide ExtractPayload, RegionEnd, LocalHeaderAgrees, EndsAt;
    PayloadFacts(buf, e, codec);
    var dataEnd := ExtractPayload(buf, e, codec).value.dataEnd;
    RegionEndExact(buf, e, dataEnd, RegionEnd(buf, e, dataEnd).value);
  }

  /** Extraction as it would be without the second size budget. */
  function ExtractUnbudgeted(buf: seq<byte>, entries: seq<CentralEntry>, total: nat, cdOffset: nat, codec: Codec)
    : Result<Extraction, ImportError>
    decreases |entries|
  {
    if entries == [] then Ok(Extraction([], [], total))
    else
      var e := entries[0];
      match ExtractPayload(buf, e, codec)
      case Err(err) => Err(err)
      case Ok(p) =>
        match RegionEnd(buf, e, p.dataEnd)
        case Err(err) => Err(err)
        case Ok(end) =>
          if end > cdOffset then Err(InvalidArchive)
          else
            Extracted(p.data, Region(e.offset, end),
                      ExtractUnbudgeted(buf, entries[1..], total + |p.data|, cdOffset, codec))
  }

  lemma PayloadSize(buf: seq<byte>, e: CentralEntry, codec: Codec)
    ensures ExtractPayload(buf, e, codec).Ok? ==>
              |ExtractPayload(buf, e, codec).value.data| == e.uncompressedSize
  {
    hide ExtractPayload, LocalHeaderAgrees;
    PayloadFacts(buf, e, codec);
  }

  /** Once the declared total fits, the running-total check during extraction never fires. */
  lemma {:induction false} SecondBudgetNeverFires(buf: seq<byte>, entries: seq<CentralEntry>, total: nat, cdOffset: nat,
                                                  codec: Codec)
    requires total + DeclaredTotal(entries) <= MAX_TOTAL_BYTES
    ensures ExtractAll(buf, entries, total, cdOffset, codec) == ExtractUnbudgeted(buf, entries, total, cdOffset, codec)
    decreases |entries|
  {
    hide ExtractPayload, RegionEnd, Extracted, FaithfulData;
    if entries != [] {
      PayloadSize(buf, entries[0], codec);
      var p := ExtractPayload(buf, entries[0], codec);
      if p.Ok? {
        SecondBudgetNeverFires(buf, entries[1..], total + |p.value.data|, cdOffset, codec);
      }
    }
  }

  lemma {:induction false} DisjointPairs(rs: seq<Region>)
    ensures AllDisjoint(rs) <==> forall i, j :: 0 <= i < j < |rs| ==> Disjoint(rs[i], rs[j])
  {
    if rs != [] {
      DisjointPairs(rs[1..]);
      assert forall i :: 1 <= i < |rs| ==> rs[i] == rs[1..][i - 1];
      if AllDisjoint(rs) {
        forall i, j | 0 <= i < j < |rs| ensures Disjoint(rs[i], rs[j]) {
          if i > 0 {
            assert Disjoint(rs[1..][i - 1], rs[1..][j - 1]);
          }
        }
      }
    }
  }

  lemma {:induction false} MapOfFirstLookup(entries: seq<CentralEntry>, files: seq<seq<byte>>, n: nat)
    requires n <= |entries| == |files| && DistinctNames(entries)
    ensures forall i :: 0 <= i < n ==>
              entries[i].name in MapOfFirst(entries, files, n) &&
              MapOfFirst(entries, files, n)[entries[i].name] == files[i]
    ensures forall name :: name in MapOfFirst(entries, files, n) ==> exists i :: 0 <= i < n && entries[i].name == name
  {
    if n != 0 {
      MapOfFirstLookup(entries, files, n - 1);
      var front := MapOfFirst(entries, files, n - 1);
      forall name | name in MapOfFirst(entries, files, n) ensures exists i :: 0 <= i < n && entries[i].name == name {
        if name in front {
          var i :| 0 <= i < n - 1 && entries[i].name == name;
        } else {
          assert entries[n - 1].name == name;
        }
      }
    }
  }

  lemma ToMapLookup(entries: seq<CentralEntry>, files: seq<seq<byte>>)
    requires |entries| == |files| && DistinctNames(entries)
    ensures forall name :: name in ToMap(entries, files) <==> exists i :: 0 <= i < |entries| && entries[i].name == name
    ensures forall i :: 0 <= i < |entries| ==>
              entries[i].name in ToMap(entries, files) && ToMap(entries, files)[entries[i].name] == files[i]
  {
    hide MapOfFirst, DistinctNames;
    MapOfFirstLookup(entries, files, |entries|);
  }

  lemma {:induction false} OneManifest(entries: seq<CentralEntry>)
    requires ManifestCount(entries) != 0
    ensures exists i :: 0 <= i < |entries| && entries[i].name == MANIFEST_FILENAME
  {
    if entries[0].name != MANIFEST_FILENAME {
      OneManifest(entries[1..]);
      var i :| 0 <= i < |entries[1..]| && entries[1..][i].name == MANIFEST_FILENAME;
      assert entries[i + 1].name == MANIFEST_FILENAME;
    }
  }

  /** The last end record in the last 65557 bytes whose comment reaches the end of the buffer. */
  ghost predicate LastEnd(buf: seq<byte>, p: nat) {
    EndAt(buf, p) && |buf| <= p + 65_557 && forall q: nat :: p < q ==> !EndAt(buf, q)
  }

  /** An end record (APPNOTE 4.3.16) at `p`, with everything after it its comment. */
  predicate EndAt(buf: seq<byte>, p: nat) {
    p + 22 <= |buf| && U32(buf, p) == 0x0605_4b50 && p + 22 + U16(buf, p + 20) == |buf|
  }

  lemma EndAtExact(buf: seq<byte>)
    ensures forall q: nat :: EocdAt(buf, q) <==> EndAt(buf, q)
    ensures EocdLow(buf) == if |buf| > 65_557 then |buf| - 65_557 else 0
  {
  }

  /** The end record the reader settles on, and what it says. */
  ghost predicate EndOf(buf: seq<byte>, p: nat, end: EndRecord) {
    LastEnd(buf, p) && ReadEndRecord(buf, p) == Ok(end)
  }

  /** `a` holds the files of a directory: contents, headers and regions as they have to be. */
  ghost predicate FilesAsRequired(buf: seq<byte>, end: EndRecord, a: Archive, codec: Codec) {
    && DeclaredTotal(a.entries) <= 1_073_741_824 && |a.regions| == |a.entries|
    && (forall name :: name in a.files <==> exists i :: 0 <= i < |a.entries| && a.entries[i].name == name)
    && (forall i :: 0 <= i < |a.entries| ==>
          a.entries[i].name in a.files &&
          FaithfulEntry(buf, a.entries[i], a.files[a.entries[i].name], a.regions[i], end.cdOffset, codec))
    && (forall i, j :: 0 <= i < j < |a.regions| ==>
          a.regions[i].end <= a.regions[j].start || a.regions[j].end <= a.regions[i].start)
    && "version-manifest.json" in a.files
    && (forall name :: name in a.files && name != "version-manifest.json" ==>
          Normalized(name) != "version-manifest.json")
  }

  /** Every guarantee about an accepted archive, relative to its end record. */
  ghost predicate SoundArchive(buf: seq<byte>, a: Archive, end: EndRecord, codec: Codec) {
    && Listing(buf, end.cdOffset, end.count, end.cdOffset + end.cdSize, a.entries, codec)
    && |a.entries| <= end.count <= 10_000
    && DistinctNames(a.entries)
    && (forall i :: 0 <= i < |a.entries| ==> AcceptableEntry(a.entries[i]))
    && FilesAsRequired(buf, end, a, codec)
  }

  lemma AliasFree(entries: seq<CentralEntry>)
    requires DirectoryRefusal(entries).None?
    ensures forall i :: 0 <= i < |entries| && entries[i].name != "version-manifest.json" ==>
              Normalized(entries[i].name) != "version-manifest.json"
    ensures DeclaredTotal(entries) <= 1_073_741_824 && ManifestCount(entries) == 1
  {
    hide Normalized;
  }

  lemma EntriesSound(buf: seq<byte>, end: EndRecord, codec: Codec)
    requires end.cdOffset + end.cdSize <= |buf| && end.count <= MAX_ENTRY_COUNT
    requires ReadEntries(buf, end, codec).Ok?
    ensures SoundArchive(buf, ReadEntries(buf, end, codec).value, end, codec)
  {
    hide WalkCentral, ExtractAll, DirectoryRefusal, AllDisjoint, ToMap, AcceptableEntry, FaithfulEntry, Normalized,
         Listing;
    var a := ReadEntries(buf, end, codec).value;
    var limit := end.cdOffset + end.cdSize;
    WalkListsRecords(buf, end.cdOffset, end.count, limit, {}, codec);
    WalkEntries(buf, end.cdOffset, end.count, limit, {}, codec);
    var x := ExtractAll(buf, a.entries, 0, end.cdOffset, codec).value;
    ExtractionFaithful(buf, a.entries, 0, end.cdOffset, codec);
    DisjointPairs(x.regions);
    ToMapLookup(a.entries, x.files);
    AliasFree(a.entries);
    OneManifest(a.entries);
    forall name | name in a.files && name != "version-manifest.json"
      ensures Normalized(name) != "version-manifest.json"
    {
      var i :| 0 <= i < |a.entries| && a.entries[i].name == name;
    }
  }

  /** Whenever the reader accepts, the archive it returns has every one of the properties above. */
  lemma ReaderSound(buf: seq<byte>, codec: Codec)
    requires Reading(buf, codec).Ok?
    ensures |buf| <= 536_870_912
    ensures exists p: nat, end: EndRecord ::
              EndOf(buf, p, end) && SoundArchive(buf, Reading(buf, codec).value, end, codec)
  {
    hide ReadEntries, SoundArchive;
    var p := LastEocd(buf, |buf| - 22, EocdLow(buf)).value;
    var end := ReadEndRecord(buf, p).value;
    EntriesSound(buf, end, codec);
    EndAtExact(buf);
    assert EndOf(buf, p, end);
  }

  // ----- reads outside the buffer

  /** Extra fields that end inside the buffer are never read outside it. */
  lemma {:induction false} ScanWithin(buf: seq<byte>, p: nat, end: nat)
    requires end <= |buf|
    ensures ScanExtra(buf, p, end) != ReadsOutOfRange
    decreases end - p
  {
    hide U16;
    if p + 4 <= end && U16(buf, p) != 1 {
      ScanWithin(buf, p + 4 + U16(buf, p + 2), end);
    }
  }

  lemma RecordWithin(buf: seq<byte>, pos: nat, limit: nat, seen: set<string>, codec: Codec)
    requires limit <= |buf|
    ensures CentralRecord(buf, pos, limit, seen, codec) != Err(OutOfRangeRead)
  {
    hide CentralPrefix, ScanExtra, SafeName, Unencrypted, RecordEntry, U16, U32;
    CentralPrefixShape(buf, pos, limit, codec);
    if CentralPrefix(buf, pos, limit, codec).Ok? {
      var h := CentralPrefix(buf, pos, limit, codec).value;
      ScanWithin(buf, h.extraStart, h.extraStart + h.extraLength);
    }
  }

  /** The directory walk never reads outside the buffer. */
  lemma {:induction false} WalkWithin(buf: seq<byte>, pos: nat, count: nat, limit: nat, seen: set<string>, codec: Codec)
    requires limit <= |buf|
    ensures WalkCentral(buf, pos, count, limit, seen, codec) != Err(OutOfRangeRead)
    decreases count
  {
    hide CentralRecord, FilesOf;
    if count != 0 {
      RecordWithin(buf, pos, limit, seen, codec);
      var r := CentralRecord(buf, pos, limit, seen, codec);
      if r.Ok? {
        WalkWithin(buf, pos + r.value.size, count - 1, limit, seen + {r.value.entry.name}, codec);
      }
    }
  }

  /** Whole extra-field records, none of them ZIP64, lead from `p` to `q`. */
  ghost predicate Leads(buf: seq<byte>, p: nat, q: nat)
    decreases q - p
  {
    p == q || (p < q && p + 4 <= |buf| && U16(buf, p) != 1 && Leads(buf, p + 4 + U16(buf, p + 2), q))
  }

  /** A record starts inside the declared extra field with its four fixed bytes reaching past the buffer. */
  ghost predicate RunsPast(buf: seq<byte>, p: nat, end: nat) {
    exists q: nat :: Leads(buf, p, q) && q + 4 <= end && |buf| < q + 4
  }

  lemma {:induction false} ScanRunsPast(buf: seq<byte>, p: nat, end: nat)
    ensures ScanExtra(buf, p, end) == ReadsOutOfRange <==> RunsPast(buf, p, end)
    decreases end - p
  {
    hide U16;
    if p + 4 <= end && p + 4 <= |buf| && U16(buf, p) != 1 {
      var next := p + 4 + U16(buf, p + 2);
      ScanRunsPast(buf, next, end);
      if RunsPast(buf, next, end) {
        var q: nat :| Leads(buf, next, q) && q + 4 <= end && |buf| < q + 4;
        LeadsForward(buf, next, q);
        assert Leads(buf, p, q);
      }
      if RunsPast(buf, p, end) {
        var q: nat :| Leads(buf, p, q) && q + 4 <= end && |buf| < q + 4;
        assert Leads(buf, next, q);
      }
    } else if p + 4 <= end && |buf| < p + 4 {
      assert Leads(buf, p, p);
    } else {
      forall q: nat | Leads(buf, p, q) && q + 4 <= end ensures !(|buf| < q + 4) {
        LeadsForward(buf, p, q);
      }
    }
  }

  lemma LeadsForward(buf: seq<byte>, p: nat, q: nat)
    requires Leads(buf, p, q)
    ensures p <= q
  {
  }

  /**
   One entry makes the reader read outside the buffer exactly when its local header agrees up to the extra field and
   the records of that field run past the buffer; so only when the field itself is declared to.
   */
  lemma OutOfRangeExact(buf: seq<byte>, e: CentralEntry, codec: Codec)
    ensures ExtractPayload(buf, e, codec) == Err(OutOfRangeRead)
       <==> LocalPrefix(buf, e, codec).Ok? && RunsPast(buf, NameEnd(buf, e), DataStart(buf, e))
    ensures ExtractPayload(buf, e, codec) == Err(OutOfRangeRead) ==> DataStart(buf, e) > |buf|
  {
    hide ScanExtra, RunsPast, U16, U32, LocalPayload, LocalPrefix, NameEnd, DataStart;
    PrefixFacts(buf, e, codec);
    if LocalPrefix(buf, e, codec).Ok? {
      PayloadInRange(buf, e, LocalPrefix(buf, e, codec).value.end, codec);
      ScanRunsPast(buf, NameEnd(buf, e), DataStart(buf, e));
      if DataStart(buf, e) <= |buf| {
        ScanWithin(buf, NameEnd(buf, e), DataStart(buf, e));
      }
    } else {
      PrefixInRange(buf, e, codec);
    }
  }

  lemma PayloadInRange(buf: seq<byte>, e: CentralEntry, dataStart: nat, codec: Codec)
    requires e.offset + 30 <= |buf|
    ensures LocalPayload(buf, e, dataStart, codec) != Err(OutOfRangeRead)
  {
    hide LocalSizesAgree, Crc32.ChecksumValue;
  }

  lemma PrefixInRange(buf: seq<byte>, e: CentralEntry, codec: Codec)
    ensures LocalPrefix(buf, e, codec) != Err(OutOfRangeRead)
  {
    hide U16, U32;
  }

  /** Extraction ends in such a read only at some entry that makes one. */
  lemma {:induction false} ExtractionOutOfRange(buf: seq<byte>, entries: seq<CentralEntry>, total: nat, cdOffset: nat,
                                                codec: Codec) returns (i: nat)
    requires ExtractAll(buf, entries, total, cdOffset, codec) == Err(OutOfRangeRead)
    ensures i < |entries| && ExtractPayload(buf, entries[i], codec) == Err(OutOfRangeRead)
    decreases |entries|
  {
    hide ExtractPayload, U32;
    var p := ExtractPayload(buf, entries[0], codec);
    if p.Err? {
      i := 0;
    } else {
      i := ExtractionOutOfRange(buf, entries[1..], total + |p.value.data|, cdOffset, codec);
      i := i + 1;
    }
  }

  /** The whole reader ends in such a read only at a listed entry whose declared local extra field leaves the buffer. */
  lemma ReadingOutOfRange(buf: seq<byte>, codec: Codec) returns (e: CentralEntry)
    requires Reading(buf, codec) == Err(OutOfRangeRead)
    ensures AcceptableEntry(e) && LocalPrefix(buf, e, codec).Ok? && DataStart(buf, e) > |buf|
    ensures RunsPast(buf, NameEnd(buf, e), DataStart(buf, e))
  {
    hide WalkCentral, ExtractAll, DirectoryRefusal, ExtractPayload, AcceptableEntry, LocalPrefix, RunsPast, U32, U16,
         AllDisjoint, ToMap, LastEocd, EocdLow, NameEnd, DataStart;
    var p := LastEocd(buf, |buf| - 22, EocdLow(buf)).value;
    var end := ReadEndRecord(buf, p).value;
    var limit := end.cdOffset + end.cdSize;
    WalkWithin(buf, end.cdOffset, end.count, limit, {}, codec);
    WalkEntries(buf, end.cdOffset, end.count, limit, {}, codec);
    var entries := WalkCentral(buf, end.cdOffset, end.count, limit, {}, codec).value.entries;
    DirectoryInRange(entries);
    var i := ExtractionOutOfRange(buf, entries, 0, end.cdOffset, codec);
    e := entries[i];
    OutOfRangeExact(buf, e, codec);
  }

  lemma DirectoryInRange(entries: seq<CentralEntry>)
    ensures DirectoryRefusal(entries) != Some(OutOfRangeRead)
  {
    hide HasAlias, ManifestCount, DeclaredTotal;
  }

  /** A local header for "a" that declares four bytes of extra field and ends with its name. */
  const CUT_HEADER: seq<byte> :=
    [0x50, 0x4b, 0x03, 0x04, 20, 0, 0, 0, 0, 0, 0, 0, 0, 0, 0, 0, 0, 0, 0, 0, 0, 0, 0, 0, 0, 0, 1, 0, 4, 0, 97]

  lemma CutHeaderReadsPast(codec: Codec)
    requires codec.decodeUtf8([97]) == Some("a")
    ensures ExtractPayload(CUT_HEADER, CentralEntry("a", METHOD_STORED, 0, 0, 0, 0, 0), codec) == Err(OutOfRangeRead)
  {
    assert CUT_HEADER[30..31] == [97];
  }
}
