/**
 Export and import of a whole bundle: `validateArchiveBuffer` of `backend/src/exportIntegrity.js`, and the theorem
 that what a careful export run archives is imported back, byte for byte.

 `JSON.parse` is a parameter, from the manifest's bytes to its value.
 */
module Bundle {
  import opened Wrappers
  import opened Bytes
  import opened OrderedMap
  import opened JsonValue
  import opened EntryNames
  import Text
  import Z = ZipReader
  import R = ZipRoundTrip
  import M = Manifest
  import T = Tracker

  type Parser = seq<byte> -> Option<Json>

  datatype ImportFailure = BadArchive(archive: Z.ImportError) | ManifestNotJson | BadManifest(manifest: M.ManifestError)

  datatype Imported = Imported(summary: M.Summary, manifest: Json, entries: map<string, seq<byte>>)

  ghost function Import(buf: seq<byte>, codec: Z.Codec, parse: Parser, digest: M.Digest)
    : Result<Imported, ImportFailure>
  {
    match Z.Reading(buf, codec)
    case Err(e) => Err(BadArchive(e))
    case Ok(a) =>
      match (if MANIFEST_FILENAME in a.files then parse(a.files[MANIFEST_FILENAME]) else None)
      case None => Err(ManifestNotJson)
      case Some(manifest) =>
        match M.Verdict(manifest, a.files, digest)
        case Err(e) => Err(BadManifest(e))
        case Ok(summary) => Ok(Imported(summary, manifest, a.files))
  }

  method ValidateArchiveBuffer(buf: seq<byte>, codec: Z.Codec, parse: Parser, digest: M.Digest)
    returns (r: Result<Imported, ImportFailure>)
    ensures r == Import(buf, codec, parse, digest)
  {
    hide Z.Reading, M.Verdict;
    var a := Z.ReadArchive(buf, codec);
    if a.Err? {
      return Err(BadArchive(a.error));
    }
    var files := a.value.files;
    var manifest := if MANIFEST_FILENAME in files then parse(files[MANIFEST_FILENAME]) else None;
    if manifest.None? {
      return Err(ManifestNotJson);
    }
    var verdict := M.ValidateArchiveManifest(manifest.value, files, digest);
    if verdict.Err? {
      return Err(BadManifest(verdict.error));
    }
    return Ok(Imported(verdict.value, manifest.value, files));
  }

  /** The archived members as a map. */
  function ArchivedMap(archived: seq<T.Written>): map<string, seq<byte>>
    requires T.Unique(T.ArchiveNames(archived))
  {
    map i | 0 <= i < |archived| :: archived[i].name := archived[i].bytes
  }

  /** Everything the export pipeline has to have done: a careful run, fully drained, with nothing missing. */
  ghost predicate FinishedExport(events: seq<T.Event>, w: T.World, digest: M.Digest) {
    w == T.Run(T.EMPTY, events, digest) && T.CarefulRun(T.EMPTY, events, digest) && w.queue == [] &&
    T.MissingStreamed(w) == {}
  }

  lemma FinishedFacts(events: seq<T.Event>, w: T.World, digest: M.Digest)
    requires FinishedExport(events, w, digest)
    ensures T.Unique(T.ArchiveNames(w.archived)) && DistinctKeys(w.checksums)
    ensures forall name :: T.Registered(w, name) <==> T.Archived(w, name)
    ensures forall i :: 0 <= i < |w.archived| ==>
              Lookup(w.checksums, w.archived[i].name) == Some(digest(w.archived[i].bytes))
  {
    hide T.Run, T.CarefulRun, T.Unique, T.Archived, T.Registered, Lookup;
    T.NothingMissingMeansComplete(events, digest);
    EmptyWorld(digest);
    T.RunAccounted(T.EMPTY, events, digest);
    T.RunUnique(T.EMPTY, events, digest);
    assert T.NamesInOrder(w) == T.ArchiveNames(w.archived);
    forall i | 0 <= i < |w.archived|
      ensures Lookup(w.checksums, w.archived[i].name) == Some(digest(w.archived[i].bytes))
    {
      T.CarefulForEach(T.EMPTY, events, w.archived[i].name, digest);
      T.RunFaithful(T.EMPTY, events, w.archived[i].name, digest);
    }
  }

  lemma EmptyWorld(digest: M.Digest)
    ensures T.Accounted(T.EMPTY) && T.Unique(T.NamesInOrder(T.EMPTY))
    ensures forall name :: T.Faithful(T.EMPTY, name, digest)
  {
  }

  lemma ArchivedLookup(archived: seq<T.Written>)
    requires T.Unique(T.ArchiveNames(archived))
    ensures forall name ::
              name in ArchivedMap(archived) <==> exists i :: 0 <= i < |archived| && archived[i].name == name
    ensures forall i :: 0 <= i < |archived| ==>
              archived[i].name in ArchivedMap(archived) && ArchivedMap(archived)[archived[i].name] == archived[i].bytes
  {
    assert forall i, j :: 0 <= i < j < |archived| ==> archived[i].name != archived[j].name by {
      forall i, j | 0 <= i < j < |archived| ensures archived[i].name != archived[j].name {
        assert T.ArchiveNames(archived)[i] != T.ArchiveNames(archived)[j];
      }
    }
  }

  lemma ChecksumNames(w: T.World, entries: map<string, seq<byte>>)
    requires forall name :: T.Registered(w, name) <==> T.Archived(w, name)
    requires forall name :: name in entries <==> T.Archived(w, name) || name == MANIFEST_FILENAME
    requires M.NoAlias(Keys(w.checksums))
    ensures forall name :: name in Keys(w.checksums) <==> name in M.CoveredNames(entries)
  {
    hide IsManifestAlias, T.Archived;
    ManifestIsAlias();
    M.NoAliasMembers(Keys(w.checksums));
    forall name ensures name in Keys(w.checksums) <==> name in M.CoveredNames(entries) {
      HasIffKey(w.checksums, name);
    }
  }

  /** The checksums of a finished export cover exactly the archive, manifest aside. */
  lemma FinishedCovers(events: seq<T.Event>, w: T.World, manifestBytes: seq<byte>, digest: M.Digest)
    requires FinishedExport(events, w, digest)
    requires M.NoAlias(Keys(w.checksums))
    ensures T.Unique(T.ArchiveNames(w.archived))
    ensures M.Covers(w.checksums, ArchivedMap(w.archived)[MANIFEST_FILENAME := manifestBytes], digest)
  {
    hide FinishedExport, T.Unique, ArchivedMap, Lookup, DistinctKeys, M.NoAlias, T.Registered;
    FinishedFacts(events, w, digest);
    ArchivedLookup(w.archived);
    var files := ArchivedMap(w.archived);
    var entries := files[MANIFEST_FILENAME := manifestBytes];
    ChecksumNames(w, entries);
    forall i | 0 <= i < |w.checksums|
      ensures w.checksums[i].0 in entries && w.checksums[i].1 == digest(entries[w.checksums[i].0])
    {
      assert Keys(w.checksums)[i] == w.checksums[i].0;
      assert w.checksums[i].0 in M.CoveredNames(entries);
      assert w.checksums[i].0 in files && w.checksums[i].0 != MANIFEST_FILENAME;
      CoveredDigest(w, i, files, digest);
    }
  }

  lemma CoveredDigest(w: T.World, i: nat, files: map<string, seq<byte>>, digest: M.Digest)
    requires i < |w.checksums| && DistinctKeys(w.checksums)
    requires forall k :: 0 <= k < |w.archived| ==>
               Lookup(w.checksums, w.archived[k].name) == Some(digest(w.archived[k].bytes))
    requires forall name :: name in files <==> exists k :: 0 <= k < |w.archived| && w.archived[k].name == name
    requires forall k :: 0 <= k < |w.archived| ==>
               w.archived[k].name in files && files[w.archived[k].name] == w.archived[k].bytes
    ensures w.checksums[i].0 in files ==> w.checksums[i].1 == digest(files[w.checksums[i].0])
  {
    LookupAt(w.checksums, i);
    hide Lookup;
    if w.checksums[i].0 in files {
      var k :| 0 <= k < |w.archived| && w.archived[k].name == w.checksums[i].0;
    }
  }

  lemma ManifestIsAlias()
    ensures IsManifestAlias(MANIFEST_FILENAME)
  {
    assert '/' !in MANIFEST_FILENAME;
    Text.SplitWhole(MANIFEST_FILENAME, '/');
    CleanNameIsFixed(MANIFEST_FILENAME);
  }

  /** The manifest built from a finished export is accepted against what was archived. */
  lemma ExportIsAccepted(events: seq<T.Event>, w: T.World, state: Json, delivery: seq<Json>, id: M.AppIdentity,
                         timestamp: string, manifestBytes: seq<byte>, digest: M.Digest)
    requires FinishedExport(events, w, digest)
    requires M.ExportableState(state) && forall b: seq<byte> :: M.IsChecksum(digest(b))
    requires CollisionFree(Keys(w.checksums)) && M.NoAlias(Keys(w.checksums))
    ensures T.Unique(T.ArchiveNames(w.archived))
    ensures M.Verdict(M.BuildVersionManifest(state, w.checksums, delivery, id, timestamp),
                      ArchivedMap(w.archived)[MANIFEST_FILENAME := manifestBytes], digest).Ok?
  {
    hide FinishedExport, M.ExportableState, M.IsChecksum, CollisionFree, M.NoAlias, M.Covers, M.Verdict, ArchivedMap;
    FinishedCovers(events, w, manifestBytes, digest);
    M.ProducedIsAccepted(state, w.checksums, delivery, id, timestamp,
                         ArchivedMap(w.archived)[MANIFEST_FILENAME := manifestBytes], digest);
  }

  /** `ms` carries the archived members in order, then the manifest. */
  ghost predicate Carries(ms: seq<R.Member>, archived: seq<T.Written>, manifestBytes: seq<byte>) {
    && |ms| == |archived| + 1
    && (forall i :: 0 <= i < |archived| ==> ms[i].name == archived[i].name && ms[i].content == archived[i].bytes)
    && ms[|archived|].name == MANIFEST_FILENAME && ms[|archived|].content == manifestBytes
  }

  lemma CarriedMembers(ms: seq<R.Member>, w: T.World, manifestBytes: seq<byte>)
    requires Carries(ms, w.archived, manifestBytes) && T.Unique(T.ArchiveNames(w.archived))
    requires forall name :: T.Registered(w, name) <==> T.Archived(w, name)
    requires M.NoAlias(Keys(w.checksums))
    ensures R.OneManifestMember(ms)
    ensures R.ContentMap(ms) == ArchivedMap(w.archived)[MANIFEST_FILENAME := manifestBytes]
  {
    hide IsManifestAlias;
    ManifestIsAlias();
    var n := |w.archived|;
    forall i | 0 <= i < n ensures !IsManifestAlias(ms[i].name) {
      assert T.Archived(w, w.archived[i].name);
      HasIffKey(w.checksums, ms[i].name);
      M.NoAliasMembers(Keys(w.checksums));
    }
    forall i, j | 0 <= i < j < |ms| ensures ms[i].name != ms[j].name {
      if j < n {
        assert T.ArchiveNames(w.archived)[i] != T.ArchiveNames(w.archived)[j];
      }
    }
    assert ms[n].name == MANIFEST_FILENAME;
    hide R.ContentMap, ArchivedMap, T.Registered, T.Archived;
    CarriedMap(ms, w.archived, manifestBytes);
  }

  /** `m` maps exactly the first `n` names to their bytes. */
  ghost predicate Maps(m: map<string, seq<byte>>, names: seq<string>, bytes: seq<seq<byte>>) {
    |names| == |bytes| &&
    (forall name :: name in m <==> name in names) && (forall i :: 0 <= i < |names| ==> m[names[i]] == bytes[i])
  }

  function ArchivedBytes(archived: seq<T.Written>): (bs: seq<seq<byte>>)
    ensures |bs| == |archived| && forall i :: 0 <= i < |bs| ==> bs[i] == archived[i].bytes
  {
    seq(|archived|, i requires 0 <= i < |archived| => archived[i].bytes)
  }

  lemma ArchiveMaps(archived: seq<T.Written>)
    requires T.Unique(T.ArchiveNames(archived))
    ensures Maps(ArchivedMap(archived), T.ArchiveNames(archived), ArchivedBytes(archived))
  {
    ArchivedLookup(archived);
    hide ArchivedMap, T.Unique;
    var m, names := ArchivedMap(archived), T.ArchiveNames(archived);
    forall name ensures name in m <==> name in names {
      if name in m {
        var i :| 0 <= i < |archived| && archived[i].name == name;
        assert names[i] == name;
      }
      if name in names {
        var i :| 0 <= i < |names| && names[i] == name;
        assert archived[i].name in m;
      }
    }
    forall i | 0 <= i < |names| ensures m[names[i]] == ArchivedBytes(archived)[i] {
      assert m[archived[i].name] == archived[i].bytes;
    }
  }

  lemma CarriedMap(ms: seq<R.Member>, archived: seq<T.Written>, manifestBytes: seq<byte>)
    requires Carries(ms, archived, manifestBytes) && T.Unique(T.ArchiveNames(archived)) && R.DistinctMembers(ms)
    ensures R.ContentMap(ms) == ArchivedMap(archived)[MANIFEST_FILENAME := manifestBytes]
  {
    var names := T.ArchiveNames(archived) + [MANIFEST_FILENAME];
    assert MANIFEST_FILENAME !in T.ArchiveNames(archived) by {
      forall i | 0 <= i < |archived| ensures T.ArchiveNames(archived)[i] != MANIFEST_FILENAME {
        assert ms[i].name != ms[|archived|].name;
      }
    }
    assert R.ContentsOf(ms) == ArchivedBytes(archived) + [manifestBytes];
    hide R.ContentMap, ArchivedMap, T.Unique, Maps, R.ContentsOf;
    ArchiveMaps(archived);
  }

  /**
   End to end: a careful, finished export, written as a ZIP archive with its manifest last, imports successfully
   and yields exactly the archived names and bytes, unless the archive happens to look like ZIP64.
   */
  lemma ExportImports(events: seq<T.Event>, w: T.World, state: Json, delivery: seq<Json>, id: M.AppIdentity,
                      timestamp: string, manifestBytes: seq<byte>, ms: seq<R.Member>, codec: Z.Codec, parse: Parser,
                      digest: M.Digest)
    requires FinishedExport(events, w, digest)
    requires M.ExportableState(state) && forall b: seq<byte> :: M.IsChecksum(digest(b))
    requires CollisionFree(Keys(w.checksums)) && M.NoAlias(Keys(w.checksums))
    requires parse(manifestBytes) == Some(M.BuildVersionManifest(state, w.checksums, delivery, id, timestamp))
    requires Carries(ms, w.archived, manifestBytes)
    requires R.AllValid(ms, codec) && R.WithinLimits(ms)
    ensures T.Unique(T.ArchiveNames(w.archived)) && R.ArchiveFits(ms)
    ensures var r := Import(R.Written(ms), codec, parse, digest);
            if R.LooksZip64(R.Written(ms)) then r == Err(BadArchive(Z.UnsupportedZipFeature))
            else r.Ok? && r.value.entries == ArchivedMap(w.archived)[MANIFEST_FILENAME := manifestBytes]
  {
    hide FinishedExport, M.ExportableState, M.IsChecksum, CollisionFree, M.NoAlias, M.Verdict, ArchivedMap, Carries,
         R.AllValid, R.ArchiveFits, R.WithinLimits, R.OneManifestMember, Z.Reading, Z.U32, R.Written, R.ContentMap,
         T.Registered, T.Archived, T.Unique, M.BuildVersionManifest;
    FinishedFacts(events, w, digest);
    ExportIsAccepted(events, w, state, delivery, id, timestamp, manifestBytes, digest);
    CarriedMembers(ms, w, manifestBytes);
    R.RoundTrip(ms, codec);
  }
}
