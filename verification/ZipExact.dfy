/** Which buffers the ZIP reader accepts, and as what: exactly the ones described here, field by field. */
module ZipExact {
  import opened Wrappers
  import opened Bytes
  import opened EntryNames
  import opened ZipReader
  import opened ZipSoundness

  // ----- one central record

  /** No record of the extra field in `[p, end)` is ZIP64, and none starts past the buffer. */
  ghost predicate NoZip64Field(buf: seq<byte>, p: nat, end: nat) {
    forall q: nat :: Leads(buf, p, q) && q + 4 <= end ==> q + 4 <= |buf| && U16(buf, q) != 1
  }

  lemma {:induction false} ScanExact(buf: seq<byte>, p: nat, end: nat)
    ensures ScanExtra(buf, p, end) == NoZip64 <==> NoZip64Field(buf, p, end)
    decreases end - p
  {
    hide U16;
    assert Leads(buf, p, p);
    if p + 4 <= end && p + 4 <= |buf| && U16(buf, p) != 1 {
      var next := p + 4 + U16(buf, p + 2);
      ScanExact(buf, next, end);
      forall q: nat | Leads(buf, next, q) ensures Leads(buf, p, q) {
        LeadsForward(buf, next, q);
      }
      assert forall q: nat :: Leads(buf, p, q) && q != p ==> Leads(buf, next, q);
    } else if p + 4 > end {
      forall q: nat | Leads(buf, p, q) && q + 4 <= end ensures false {
        LeadsForward(buf, p, q);
      }
    }
  }

  /** The header a central record spells, once its name has been decoded (APPNOTE 4.3.12). */
  function HeaderAt(buf: seq<byte>, pos: nat, name: string): CentralHeader
    requires pos + 46 <= |buf|
  {
    CentralHeader(RecordEntry(buf, pos, name), U16(buf, pos + 4), U32(buf, pos + 38), pos + 46 + U16(buf, pos + 28),
                  U16(buf, pos + 30), RecordSize(buf, pos))
  }

  /** A file is stored or deflated and within its limit; a directory is stored and empty. */
  predicate FileOrEmptyDirectory(e: CentralEntry) {
    if Slashed(e.name) then e.method_ == 0 && e.compressedSize == 0 && e.uncompressedSize == 0
    else (e.method_ == 0 || e.method_ == 8) && e.uncompressedSize <= 268_435_456
  }

  /** Made on Unix, as a type of file other than a regular one, a directory or none: the top four attribute bits. */
  predicate Special(madeBy: nat, externalAttrs: nat) {
    madeBy / 256 == 3 && externalAttrs / 0x1000_0000 !in [0, 4, 8]
  }

  lemma SpecialExact(madeBy: nat, externalAttrs: nat)
    ensures SpecialFile(madeBy, externalAttrs) <==> Special(madeBy, externalAttrs)
  {
    assert externalAttrs / 0x1_0000 / 0x1000 == externalAttrs / 0x1000_0000;
  }

  /** The bytes at `pos` are the central record `h`, and it asks for nothing the reader refuses. */
  ghost predicate RecordAsRequired(buf: seq<byte>, pos: nat, limit: nat, h: CentralHeader, codec: Codec)
    requires limit <= |buf|
  {
    && pos + 46 <= limit && U32(buf, pos) == 0x0201_4b50 && pos + RecordSize(buf, pos) <= limit
    && codec.decodeUtf8(buf[pos + 46..pos + 46 + U16(buf, pos + 28)]) == Some(h.entry.name)
    && h == HeaderAt(buf, pos, h.entry.name)
    && U16(buf, pos + 6) < 45 && h.entry.compressedSize != 0xFFFF_FFFF && h.entry.uncompressedSize != 0xFFFF_FFFF
    && h.entry.offset != 0xFFFF_FFFF && NoZip64Field(buf, h.extraStart, h.extraStart + h.extraLength)
    && StaysInside(h.entry.name) && Unencrypted(h.entry) && !Special(h.madeBy, h.externalAttrs)
    && FileOrEmptyDirectory(h.entry)
  }

  /**
   A name may follow one that was seen before: it is another, not that name as a directory and, unless it is a
   directory itself, not that directory as a file.
   */
  predicate MayFollow(seen: string, name: string) {
    && name != seen
    && (Slashed(name) ==> name[..|name| - 1] != seen)
    && (!Slashed(name) ==> name + "/" != seen)
  }

  ghost predicate MayFollowAll(seen: set<string>, name: string) {
    forall n <- seen :: MayFollow(n, name)
  }

  lemma PrefixExact(buf: seq<byte>, pos: nat, limit: nat, h: CentralHeader, codec: Codec)
    requires limit <= |buf|
    ensures CentralPrefix(buf, pos, limit, codec) == Ok(h)
       <==> && pos + 46 <= limit && U32(buf, pos) == 0x0201_4b50 && pos + RecordSize(buf, pos) <= limit
            && codec.decodeUtf8(buf[pos + 46..pos + 46 + U16(buf, pos + 28)]) == Some(h.entry.name)
            && h == HeaderAt(buf, pos, h.entry.name)
            && U16(buf, pos + 6) < 45 && h.entry.compressedSize != 0xFFFF_FFFF
            && h.entry.uncompressedSize != 0xFFFF_FFFF && h.entry.offset != 0xFFFF_FFFF
            && StaysInside(h.entry.name) && Unencrypted(h.entry)
  {
    hide SafeName, StaysInside, Flag, U16, U32, Unencrypted;
    SafeNameExact(h.entry.name);
    FlagsExact(h.entry);
  }

  lemma RefusalExact(h: CentralHeader, seen: set<string>)
    ensures CentralRefusal(h, seen).None?
       <==> !Special(h.madeBy, h.externalAttrs) && MayFollowAll(seen, h.entry.name) && FileOrEmptyDirectory(h.entry)
  {
    hide SpecialFile, Special;
    SpecialExact(h.madeBy, h.externalAttrs);
    var name := h.entry.name;
    if name in seen || (IsDirectoryName(name) && name[..|name| - 1] in seen) ||
       (!IsDirectoryName(name) && name + "/" in seen)
    {
      assert !MayFollowAll(seen, name);
    }
  }

  lemma RecordExact(buf: seq<byte>, pos: nat, limit: nat, seen: set<string>, h: CentralHeader, codec: Codec)
    requires limit <= |buf|
    ensures CentralRecord(buf, pos, limit, seen, codec) == Ok(h)
       <==> RecordAsRequired(buf, pos, limit, h, codec) && MayFollowAll(seen, h.entry.name)
  {
    hide CentralPrefix, CentralRefusal, StaysInside, Unencrypted, U16, U32, SpecialFile, FileOrEmptyDirectory, HeaderAt,
         RecordSize, MayFollowAll, NoZip64Field, ScanExtra;
    PrefixExact(buf, pos, limit, h, codec);
    RefusalExact(h, seen);
    ScanExact(buf, h.extraStart, h.extraStart + h.extraLength);
  }

  // ----- the directory

  /** `[pos, end)` is exactly the records `hs`, end to end. */
  ghost predicate Records(buf: seq<byte>, pos: nat, end: nat, limit: nat, hs: seq<CentralHeader>, codec: Codec)
    requires limit <= |buf|
    decreases |hs|
  {
    if hs == [] then pos == end
    else RecordAsRequired(buf, pos, limit, hs[0], codec) && Records(buf, pos + hs[0].size, end, limit, hs[1..], codec)
  }

  /** The records that are files. */
  function FileEntries(hs: seq<CentralHeader>): seq<CentralEntry> {
    if hs == [] then [] else (if Slashed(hs[0].entry.name) then [] else [hs[0].entry]) + FileEntries(hs[1..])
  }

  ghost predicate NamesFollow(seen: set<string>, hs: seq<CentralHeader>)
    decreases |hs|
  {
    hs == [] || (MayFollowAll(seen, hs[0].entry.name) && NamesFollow(seen + {hs[0].entry.name}, hs[1..]))
  }

  /** Names in order means: each may follow every one before it. */
  lemma {:induction false} FollowPairs(seen: set<string>, hs: seq<CentralHeader>)
    ensures NamesFollow(seen, hs)
       <==> (forall i :: 0 <= i < |hs| ==> MayFollowAll(seen, hs[i].entry.name)) &&
            forall i, j :: 0 <= i < j < |hs| ==> MayFollow(hs[i].entry.name, hs[j].entry.name)
    decreases |hs|
  {
    hide MayFollow;
    if hs != [] {
      var first, rest := hs[0].entry.name, hs[1..];
      FollowPairs(seen + {first}, rest);
      assert forall i :: 0 <= i < |rest| ==> rest[i] == hs[i + 1];
      assert forall i :: 0 < i < |hs| ==> hs[i] == rest[i - 1];
      forall name ensures MayFollowAll(seen + {first}, name) <==> MayFollowAll(seen, name) && MayFollow(first, name) {
        assert first in seen + {first};
      }
    }
  }

  lemma {:induction false} WalkRecords(buf: seq<byte>, pos: nat, count: nat, limit: nat, seen: set<string>,
                                       codec: Codec) returns (hs: seq<CentralHeader>)
    requires limit <= |buf| && WalkCentral(buf, pos, count, limit, seen, codec).Ok?
    ensures var d := WalkCentral(buf, pos, count, limit, seen, codec).value;
            && |hs| == count && Records(buf, pos, d.end, limit, hs, codec) && NamesFollow(seen, hs)
            && d.entries == FileEntries(hs)
    decreases count
  {
    hide CentralRecord, RecordAsRequired, MayFollowAll;
    hs := [];
    if count > 0 {
      var h := CentralRecord(buf, pos, limit, seen, codec).value;
      RecordExact(buf, pos, limit, seen, h, codec);
      var rest := WalkRecords(buf, pos + h.size, count - 1, limit, seen + {h.entry.name}, codec);
      hs := [h] + rest;
      assert hs[1..] == rest;
    }
  }

  lemma {:induction false} RecordsWalk(buf: seq<byte>, pos: nat, end: nat, limit: nat, seen: set<string>,
                                       hs: seq<CentralHeader>, codec: Codec)
    requires limit <= |buf| && Records(buf, pos, end, limit, hs, codec) && NamesFollow(seen, hs)
    ensures WalkCentral(buf, pos, |hs|, limit, seen, codec) == Ok(Directory(FileEntries(hs), end))
    decreases |hs|
  {
    hide CentralRecord, RecordAsRequired, MayFollowAll;
    if hs != [] {
      RecordExact(buf, pos, limit, seen, hs[0], codec);
      RecordsWalk(buf, pos + hs[0].size, end, limit, seen + {hs[0].entry.name}, hs[1..], codec);
    }
  }

  // ----- the entries

  /** With distinct names, one manifest and no second one is a manifest somewhere. */
  lemma {:induction false} ManifestOnce(entries: seq<CentralEntry>)
    requires DistinctNames(entries)
    ensures ManifestCount(entries)
         == if exists i :: 0 <= i < |entries| && entries[i].name == MANIFEST_FILENAME then 1 else 0
  {
    if entries != [] {
      var rest := entries[1..];
      ManifestOnce(rest);
      assert forall i :: 0 <= i < |rest| ==> rest[i] == entries[i + 1];
      assert forall i :: 0 < i < |entries| ==> entries[i] == rest[i - 1];
      if i :| 0 <= i < |entries| && entries[i].name == MANIFEST_FILENAME {
        assert i == 0 || rest[i - 1].name == MANIFEST_FILENAME;
      }
    }
  }

  /** One entry is extracted as these bytes exactly when header and data are as required. */
  lemma PayloadExact(buf: seq<byte>, e: CentralEntry, data: seq<byte>, codec: Codec)
    requires AcceptableEntry(e)
    requires LocalHeaderAgrees(buf, e, codec) && FaithfulData(buf, e, data, codec)
    ensures ExtractPayload(buf, e, codec) == Ok(Payload(data, DataStart(buf, e) + e.compressedSize))
  {
    hide ScanExtra, Crc32.ChecksumValue, U16, U32, HasDescriptor, Described, StaysInside, Unencrypted;
    FlagsExact(e);
  }

  lemma FirstExtracted(buf: seq<byte>, entries: seq<CentralEntry>, data: seq<byte>, region: Region, total: nat,
                       cdOffset: nat, codec: Codec)
    requires entries != [] && AcceptableEntry(entries[0])
    requires FaithfulEntry(buf, entries[0], data, region, cdOffset, codec)
    requires total + entries[0].uncompressedSize <= MAX_TOTAL_BYTES
    ensures |data| == entries[0].uncompressedSize
    ensures ExtractAll(buf, entries, total, cdOffset, codec)
         == Extracted(data, region, ExtractAll(buf, entries[1..], total + |data|, cdOffset, codec))
  {
    hide ExtractPayload, RegionEnd, AcceptableEntry, LocalHeaderAgrees, EndsAt, Extracted, U16, U32;
    var e := entries[0];
    PayloadExact(buf, e, data, codec);
    RegionEndExact(buf, e, DataStart(buf, e) + e.compressedSize, region.end);
  }

  lemma {:induction false} FaithfulExtracted(buf: seq<byte>, entries: seq<CentralEntry>, files: seq<seq<byte>>,
                                             regions: seq<Region>, total: nat, cdOffset: nat, codec: Codec)
    requires |files| == |regions| == |entries| && total + DeclaredTotal(entries) <= MAX_TOTAL_BYTES
    requires forall i :: 0 <= i < |entries| ==>
               AcceptableEntry(entries[i]) && FaithfulEntry(buf, entries[i], files[i], regions[i], cdOffset, codec)
    ensures ExtractAll(buf, entries, total, cdOffset, codec)
         == Ok(Extraction(files, regions, total + DeclaredTotal(entries)))
    decreases |entries|
  {
    hide ExtractPayload, RegionEnd, AcceptableEntry, FaithfulEntry;
    if entries != [] {
      hide ExtractAll, DeclaredTotal, Extracted;
      var es, fs, rs := entries[1..], files[1..], regions[1..];
      assert AcceptableEntry(entries[0]) && FaithfulEntry(buf, entries[0], files[0], regions[0], cdOffset, codec);
      forall i | 0 <= i < |es|
        ensures AcceptableEntry(es[i]) && FaithfulEntry(buf, es[i], fs[i], rs[i], cdOffset, codec)
      {
        assert es[i] == entries[i + 1] && fs[i] == files[i + 1] && rs[i] == regions[i + 1];
      }
      TotalSplit(entries);
      FirstExtracted(buf, entries, files[0], regions[0], total, cdOffset, codec);
      FaithfulExtracted(buf, es, fs, rs, total + |files[0]|, cdOffset, codec);
      ExtractedFirst(files, regions, total + DeclaredTotal(entries));
    }
  }

  lemma TotalSplit(entries: seq<CentralEntry>)
    requires entries != []
    ensures DeclaredTotal(entries) == entries[0].uncompressedSize + DeclaredTotal(entries[1..])
  {
  }

  lemma ExtractedFirst(files: seq<seq<byte>>, regions: seq<Region>, total: nat)
    requires files != [] && regions != []
    ensures Extracted(files[0], regions[0], Ok(Extraction(files[1..], regions[1..], total)))
         == Ok(Extraction(files, regions, total))
  {
    assert [files[0]] + files[1..] == files && [regions[0]] + regions[1..] == regions;
  }

  // ----- the whole archive

  /** The end record at `p` says this, and asks for nothing the reader refuses (APPNOTE 4.3.16). */
  ghost predicate EndRecordAsRequired(buf: seq<byte>, p: nat, end: EndRecord)
    requires p + 22 <= |buf|
  {
    && (p >= 20 ==> U32(buf, p - 20) != 0x0706_4b50) && U16(buf, p + 4) == 0 && U16(buf, p + 6) == 0
    && U16(buf, p + 8) == U16(buf, p + 10) == end.count && end.count <= 10_000
    && U32(buf, p + 12) == end.cdSize != 0xFFFF_FFFF && U32(buf, p + 16) == end.cdOffset != 0xFFFF_FFFF
    && end.cdOffset + end.cdSize <= |buf|
  }

  lemma EndRecordExact(buf: seq<byte>, p: nat, end: EndRecord)
    requires p + 22 <= |buf|
    ensures ReadEndRecord(buf, p) == Ok(end) <==> EndRecordAsRequired(buf, p, end)
  {
    hide U16, U32;
  }

  /** `hs` are the records of the directory, and their names may stand beside each other. */
  ghost predicate DirectoryAsRequired(buf: seq<byte>, end: EndRecord, hs: seq<CentralHeader>, codec: Codec)
    requires end.cdOffset + end.cdSize <= |buf|
  {
    var limit := end.cdOffset + end.cdSize;
    && |hs| == end.count && Records(buf, end.cdOffset, limit, limit, hs, codec)
    && forall i, j :: 0 <= i < j < |hs| ==> MayFollow(hs[i].entry.name, hs[j].entry.name)
  }

  /** Every file record is an acceptable entry, and names in order are distinct. */
  lemma {:induction false} FilesAcceptable(buf: seq<byte>, pos: nat, end: nat, limit: nat, hs: seq<CentralHeader>,
                                           codec: Codec)
    requires limit <= |buf| && Records(buf, pos, end, limit, hs, codec)
    requires forall i, j :: 0 <= i < j < |hs| ==> MayFollow(hs[i].entry.name, hs[j].entry.name)
    ensures DistinctNames(FileEntries(hs)) && forall e <- FileEntries(hs) :: AcceptableEntry(e)
    ensures forall e <- FileEntries(hs) :: exists i :: 0 <= i < |hs| && hs[i].entry == e
    decreases |hs|
  {
    hide StaysInside, Unencrypted, NoZip64Field, SpecialFile, U16, U32, HeaderAt, RecordSize;
    if hs != [] {
      var rest := hs[1..];
      FilesAcceptable(buf, pos + hs[0].size, end, limit, rest, codec);
      forall e <- FileEntries(rest)
        ensures e.name != hs[0].entry.name && exists i :: 0 <= i < |hs| && hs[i].entry == e
      {
        var i :| 0 <= i < |rest| && rest[i].entry == e;
        assert hs[i + 1].entry == e;
      }
      var tail := FileEntries(rest);
      assert forall i :: 0 <= i < |tail| ==> tail[i] in tail;
    }
  }

  /** The contents that `a` holds, entry by entry. */
  function ContentsIn(a: Archive): (files: seq<seq<byte>>)
    requires forall i :: 0 <= i < |a.entries| ==> a.entries[i].name in a.files
    ensures |files| == |a.entries|
  {
    seq(|a.entries|, i requires 0 <= i < |a.entries| => a.files[a.entries[i].name])
  }

  lemma ContentsExtracted(buf: seq<byte>, end: EndRecord, a: Archive, codec: Codec)
    requires FilesAsRequired(buf, end, a, codec) && forall i :: 0 <= i < |a.entries| ==> AcceptableEntry(a.entries[i])
    ensures ExtractAll(buf, a.entries, 0, end.cdOffset, codec)
         == Ok(Extraction(ContentsIn(a), a.regions, DeclaredTotal(a.entries)))
    ensures AllDisjoint(a.regions) && (DistinctNames(a.entries) ==> ToMap(a.entries, ContentsIn(a)) == a.files)
  {
    hide FaithfulEntry, AcceptableEntry, IsManifestAlias, ExtractAll, AllDisjoint, ToMap, DistinctNames;
    FaithfulExtracted(buf, a.entries, ContentsIn(a), a.regions, 0, end.cdOffset, codec);
    DisjointPairs(a.regions);
    if DistinctNames(a.entries) { MapIsOf(a.entries, ContentsIn(a), a.files); }
  }

  /** A map with these names and contents is the one the reader builds. */
  lemma MapIsOf(entries: seq<CentralEntry>, files: seq<seq<byte>>, m: map<string, seq<byte>>)
    requires |entries| == |files| && DistinctNames(entries)
    requires forall name :: name in m <==> exists i :: 0 <= i < |entries| && entries[i].name == name
    requires forall i :: 0 <= i < |entries| ==> entries[i].name in m && m[entries[i].name] == files[i]
    ensures ToMap(entries, files) == m
  {
    hide ToMap, DistinctNames;
    ToMapLookup(entries, files);
    var t := ToMap(entries, files);
    forall name | name in m ensures name in t && t[name] == m[name] {
      var i :| 0 <= i < |entries| && entries[i].name == name;
    }
    assert t.Keys == m.Keys;
  }

  lemma DirectoryPasses(buf: seq<byte>, end: EndRecord, a: Archive, codec: Codec)
    requires FilesAsRequired(buf, end, a, codec) && DistinctNames(a.entries)
    ensures DirectoryRefusal(a.entries) == None
  {
    hide FaithfulEntry, Normalized, DistinctNames;
    ManifestOnce(a.entries);
  }

  lemma EntriesExact(buf: seq<byte>, end: EndRecord, a: Archive, hs: seq<CentralHeader>, codec: Codec)
    requires end.cdOffset + end.cdSize <= |buf| && DirectoryAsRequired(buf, end, hs, codec)
    requires a.entries == FileEntries(hs) && FilesAsRequired(buf, end, a, codec)
    ensures ReadEntries(buf, end, codec) == Ok(a)
  {
    hide Records, AcceptableEntry, AllDisjoint, ToMap, ExtractAll, WalkCentral, NamesFollow, MayFollow, DistinctNames,
         FilesAsRequired, DirectoryRefusal, FileEntries, ContentsIn;
    var limit := end.cdOffset + end.cdSize;
    FollowPairs({}, hs);
    NothingSeen(hs);
    RecordsWalk(buf, end.cdOffset, limit, limit, {}, hs, codec);
    FilesAcceptable(buf, end.cdOffset, limit, limit, hs, codec);
    assert forall i :: 0 <= i < |a.entries| ==> a.entries[i] in a.entries;
    DirectoryPasses(buf, end, a, codec);
    ContentsExtracted(buf, end, a, codec);
  }

  lemma NothingSeen(hs: seq<CentralHeader>)
    ensures forall i :: 0 <= i < |hs| ==> MayFollowAll({}, hs[i].entry.name)
  {
  }

  /** All that acceptance takes, with the end record and the directory it is about. */
  ghost predicate Accepts(buf: seq<byte>, a: Archive, p: nat, end: EndRecord, hs: seq<CentralHeader>, codec: Codec) {
    && LastEnd(buf, p) && EndRecordAsRequired(buf, p, end) && DirectoryAsRequired(buf, end, hs, codec)
    && a.entries == FileEntries(hs) && FilesAsRequired(buf, end, a, codec)
  }

  lemma EntriesAccepted(buf: seq<byte>, end: EndRecord, codec: Codec) returns (hs: seq<CentralHeader>)
    requires end.cdOffset + end.cdSize <= |buf| && end.count <= 10_000
    requires ReadEntries(buf, end, codec).Ok?
    ensures var a := ReadEntries(buf, end, codec).value;
            && DirectoryAsRequired(buf, end, hs, codec) && a.entries == FileEntries(hs)
            && FilesAsRequired(buf, end, a, codec)
  {
    hide Records, FaithfulEntry, AcceptableEntry, AllDisjoint, ToMap, IsManifestAlias, ExtractAll, WalkCentral,
         NamesFollow, MayFollow, Listing, DistinctNames, DirectoryRefusal;
    EntriesSound(buf, end, codec);
    hs := WalkRecords(buf, end.cdOffset, end.count, end.cdOffset + end.cdSize, {}, codec);
    FollowPairs({}, hs);
  }

  lemma ReadingAccepted(buf: seq<byte>, codec: Codec) returns (p: nat, end: EndRecord, hs: seq<CentralHeader>)
    requires Reading(buf, codec).Ok?
    ensures Accepts(buf, Reading(buf, codec).value, p, end, hs, codec)
  {
    hide ReadEntries, EocdAt, EndAt, EocdLow, ReadEndRecord, DirectoryAsRequired, FilesAsRequired;
    p := LastEocd(buf, |buf| - 22, EocdLow(buf)).value;
    EocdFits(buf);
    EndAtExact(buf);
    end := ReadEndRecord(buf, p).value;
    EndRecordExact(buf, p, end);
    hs := EntriesAccepted(buf, end, codec);
  }

  lemma EocdFits(buf: seq<byte>)
    ensures forall q: nat :: EocdAt(buf, q) ==> q <= |buf| - 22
  {
  }

  lemma AcceptedReading(buf: seq<byte>, a: Archive, p: nat, end: EndRecord, hs: seq<CentralHeader>, codec: Codec)
    requires |buf| <= 536_870_912 && Accepts(buf, a, p, end, hs, codec)
    ensures Reading(buf, codec) == Ok(a)
  {
    hide ReadEntries, EocdAt, EndAt, EocdLow, ReadEndRecord, DirectoryAsRequired, FilesAsRequired;
    EocdFits(buf);
    EndAtExact(buf);
    assert LastEocd(buf, |buf| - 22, EocdLow(buf)) == Some(p);
    EndRecordExact(buf, p, end);
    EntriesExact(buf, end, a, hs, codec);
  }

  /**
   The reader accepts a buffer as the archive `a` if and only if the buffer is within the size limit and ends in an end
   record, whose directory is exactly a list of records as required, whose files `a` holds, as required.
   */
  lemma ReaderExact(buf: seq<byte>, codec: Codec, a: Archive)
    ensures Reading(buf, codec) == Ok(a)
       <==> |buf| <= 536_870_912 &&
            exists p: nat, end: EndRecord, hs: seq<CentralHeader> :: Accepts(buf, a, p, end, hs, codec)
  {
    hide Accepts;
    if Reading(buf, codec) == Ok(a) {
      hide Reading;
      var p, end, hs := ReadingAccepted(buf, codec);
      WithinSize(buf, codec);
    } else if |buf| <= 536_870_912 {
      hide Reading;
      forall p: nat, end: EndRecord, hs: seq<CentralHeader> ensures !Accepts(buf, a, p, end, hs, codec) {
        if Accepts(buf, a, p, end, hs, codec) { AcceptedReading(buf, a, p, end, hs, codec); }
      }
    }
  }

  lemma WithinSize(buf: seq<byte>, codec: Codec)
    requires Reading(buf, codec).Ok?
    ensures |buf| <= 536_870_912
  {
    hide ReadEntries, LastEocd, EocdLow, ReadEndRecord;
  }
}
