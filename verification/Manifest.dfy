/**
 The version manifest of `backend/src/exportIntegrity.js`: what the producer writes and what the importer accepts.
 SHA-256 is a parameter, as the function from bytes to its `sha256:<hex>` text.
 */
module Manifest {
  import opened Wrappers
  import opened Bytes
  import opened OrderedMap
  import opened JsonValue
  import opened EntryNames
  import opened VersionPolicy

  const MANIFEST_SCHEMA_VERSION := "1.0.0"
  const COMPATIBLE_STATE_SCHEMA_VERSION := 3.0

  datatype ManifestError =
    | MalformedManifest | UnsupportedManifestSchema | IncompatibleStateSchema | UnsupportedVersion | UnlockedVersion
    | IncompatibleManifestSchema | InvalidChecksumAlgorithm | ManifestSelfReference | InvalidChecksumFormat
    | NameCollision | MissingFile | UnlistedFile | ChecksumMismatch

  datatype Summary = Summary(selectedMinor: string, fileCount: nat)

  type Digest = seq<byte> -> string

  predicate IsHexDigit(c: char) { '0' <= c <= '9' || 'a' <= c <= 'f' }

  /** `^sha256:[0-9a-f]{64}$` */
  predicate IsChecksum(s: string) {
    |s| == 71 && s[..7] == "sha256:" && forall i :: 7 <= i < 71 ==> IsHexDigit(s[i])
  }

  /** The prefix and 64 of the sixteen digits. */
  lemma ChecksumForm(s: string)
    ensures IsChecksum(s)
       <==> exists digits :: s == "sha256:" + digits && |digits| == 64 && forall c <- digits :: c in "0123456789abcdef"
  {
    HexDigits();
    hide IsHexDigit;
    if IsChecksum(s) {
      assert s == "sha256:" + s[7..];
      forall c <- s[7..] ensures IsHexDigit(c) {
        var i :| 0 <= i < 64 && s[7..][i] == c;
        assert s[7 + i] == c;
      }
    }
    forall digits | s == "sha256:" + digits && |digits| == 64 && (forall c <- digits :: c in "0123456789abcdef")
      ensures IsChecksum(s)
    {
      forall i | 7 <= i < 71 ensures IsHexDigit(s[i]) {
        assert s[i] == digits[i - 7];
        assert digits[i - 7] in digits;
      }
    }
  }

  lemma HexDigits()
    ensures forall c :: IsHexDigit(c) <==> c in "0123456789abcdef"
  {
    forall c ensures IsHexDigit(c) <==> c in "0123456789abcdef" {
      var all := "0123456789abcdef";
      if '0' <= c <= '9' {
        assert all[c as int - '0' as int] == c;
      } else if 'a' <= c <= 'f' {
        assert all[c as int - 'a' as int + 10] == c;
      }
    }
  }

  predicate IsObj(v: Option<Json>) { v.Some? && v.value.Obj? }

  predicate IsStr(v: Option<Json>) { v.Some? && v.value.Str? }

  predicate IsNum(v: Option<Json>) { v.Some? && v.value.Num? }

  predicate IsArr(v: Option<Json>) { v.Some? && v.value.Arr? }

  // ----- header

  function GeneratedRefusal(generated: Option<Json>): Option<ManifestError> {
    if !IsObj(generated) then Some(MalformedManifest)
    else
      var version, app := Prop(generated, "stateSchemaVersion"), Prop(generated, "appIdentity");
      if !(version.Some? && version.value.Num?) then Some(MalformedManifest)
      else if version.value.number != COMPATIBLE_STATE_SCHEMA_VERSION then Some(IncompatibleStateSchema)
      else if !IsStr(Prop(generated, "timestamp")) || !IsObj(app) then Some(MalformedManifest)
      else if !IsStr(Prop(app, "version")) || !IsStr(Prop(app, "commit")) || !IsStr(Prop(app, "buildTime")) then
        Some(MalformedManifest)
      else None
  }

  function OpenshiftRefusal(openshift: Option<Json>): Option<ManifestError> {
    if !IsObj(openshift) then Some(MalformedManifest)
    else
      var minor, locked := Prop(openshift, "selectedMinor"), Prop(openshift, "lockedVersion");
      if !IsStr(minor) then Some(MalformedManifest)
      else if minor.value.text !in SUPPORTED_MINORS then Some(UnsupportedVersion)
      else if !IsStr(Prop(openshift, "selectedPatch")) then Some(MalformedManifest)
      else if !(locked.Some? && locked.value.Bool?) then Some(MalformedManifest)
      else if !locked.value.flag then Some(UnlockedVersion)
      else None
  }

  function CompatibilityRefusal(compatibility: Option<Json>): Option<ManifestError> {
    if !IsObj(compatibility) then Some(MalformedManifest)
    else
      var minimum := Prop(compatibility, "minimumManifestSchemaVersion");
      var formats := Prop(compatibility, "stateFormatCompatible");
      if !IsStr(minimum) then Some(MalformedManifest)
      else if minimum.value.text != MANIFEST_SCHEMA_VERSION then Some(IncompatibleManifestSchema)
      else if !IsArr(formats) then Some(MalformedManifest)
      else if Num(COMPATIBLE_STATE_SCHEMA_VERSION) !in formats.value.items then Some(IncompatibleStateSchema)
      else if !IsArr(Prop(compatibility, "warnings")) then Some(MalformedManifest)
      else None
  }

  function IntegrityRefusal(integrity: Option<Json>): Option<ManifestError> {
    if !IsObj(integrity) then Some(MalformedManifest)
    else
      var algorithm := Prop(integrity, "algorithm");
      if !IsStr(algorithm) then Some(MalformedManifest)
      else if algorithm.value.text != "sha-256" then Some(InvalidChecksumAlgorithm)
      else if Prop(integrity, "format") != Some(Str("lowercase-hex")) then Some(MalformedManifest)
      else if !IsObj(Prop(integrity, "files")) then Some(MalformedManifest)
      else None
  }

  /** Every check before the checksum section, in the order the importer makes them. */
  function HeaderRefusal(manifest: Json): Option<ManifestError> {
    var m := Some(manifest);
    var schema := Prop(m, "manifestSchemaVersion");
    if !IsObj(m) || !IsStr(schema) then Some(MalformedManifest)
    else if schema.value.text != MANIFEST_SCHEMA_VERSION then Some(UnsupportedManifestSchema)
    else if GeneratedRefusal(Prop(m, "generated")).Some? then GeneratedRefusal(Prop(m, "generated"))
    else if OpenshiftRefusal(Prop(m, "openshift")).Some? then OpenshiftRefusal(Prop(m, "openshift"))
    else if CompatibilityRefusal(Prop(m, "compatibility")).Some? then CompatibilityRefusal(Prop(m, "compatibility"))
    else IntegrityRefusal(Prop(m, "integrity"))
  }

  function ChecksumSection(manifest: Json): Assoc<Json> {
    match Prop(Prop(Some(manifest), "integrity"), "files") case Some(Obj(files)) => files case _ => []
  }

  function SelectedMinor(manifest: Json): string {
    match Prop(Prop(Some(manifest), "openshift"), "selectedMinor") case Some(Str(minor)) => minor case _ => ""
  }

  // ----- acceptance, as a statement about the whole manifest and archive

  ghost predicate NoAlias(names: seq<string>) {
    forall i :: 0 <= i < |names| ==> !IsManifestAlias(names[i])
  }

  /** The names of the archive that must be covered by a checksum. */
  function CoveredNames(entries: map<string, seq<byte>>): set<string> {
    entries.Keys - {MANIFEST_FILENAME}
  }

  ghost predicate WellFormedChecksums(files: Assoc<Json>) {
    forall i :: 0 <= i < |files| ==> files[i].1.Str? && IsChecksum(files[i].1.text)
  }

  /** What the header has to say, field by field. */
  ghost predicate HeaderAsRequired(manifest: Json) {
    var m := Some(manifest);
    var generated, openshift := Prop(m, "generated"), Prop(m, "openshift");
    var app := Prop(generated, "appIdentity");
    var compatibility, integrity := Prop(m, "compatibility"), Prop(m, "integrity");
    && Prop(m, "manifestSchemaVersion") == Some(Str("1.0.0"))
    && Prop(generated, "stateSchemaVersion") == Some(Num(3.0))
    && IsStr(Prop(generated, "timestamp"))
    && IsStr(Prop(app, "version")) && IsStr(Prop(app, "commit")) && IsStr(Prop(app, "buildTime"))
    && Prop(openshift, "selectedMinor") in [Some(Str("4.20")), Some(Str("4.21")), Some(Str("4.22"))]
    && IsStr(Prop(openshift, "selectedPatch"))
    && Prop(openshift, "lockedVersion") == Some(Bool(true))
    && Prop(compatibility, "minimumManifestSchemaVersion") == Some(Str("1.0.0"))
    && IsArr(Prop(compatibility, "stateFormatCompatible"))
    && Num(3.0) in Prop(compatibility, "stateFormatCompatible").value.items
    && IsArr(Prop(compatibility, "warnings"))
    && Prop(integrity, "algorithm") == Some(Str("sha-256"))
    && Prop(integrity, "format") == Some(Str("lowercase-hex"))
    && IsObj(Prop(integrity, "files"))
  }

  // ----- which code a refused header gets

  /** What the importer asks of each section of a header, in the order it asks, with the code of each refusal. */
  ghost function GeneratedChecks(generated: Option<Json>): Checks<ManifestError> {
    var version, app := Prop(generated, "stateSchemaVersion"), Prop(generated, "appIdentity");
    [(IsNum(version), MalformedManifest),
     (version == Some(Num(3.0)), IncompatibleStateSchema),
     (IsStr(Prop(generated, "timestamp")), MalformedManifest),
     (IsStr(Prop(app, "version")) && IsStr(Prop(app, "commit")) && IsStr(Prop(app, "buildTime")), MalformedManifest)]
  }

  ghost function OpenshiftChecks(openshift: Option<Json>): Checks<ManifestError> {
    var minor, locked := Prop(openshift, "selectedMinor"), Prop(openshift, "lockedVersion");
    [(IsStr(minor), MalformedManifest),
     (minor in [Some(Str("4.20")), Some(Str("4.21")), Some(Str("4.22"))], UnsupportedVersion),
     (IsStr(Prop(openshift, "selectedPatch")), MalformedManifest),
     (locked in [Some(Bool(true)), Some(Bool(false))], MalformedManifest),
     (locked == Some(Bool(true)), UnlockedVersion)]
  }

  ghost function CompatibilityChecks(compatibility: Option<Json>): Checks<ManifestError> {
    var minimum := Prop(compatibility, "minimumManifestSchemaVersion");
    var formats := Prop(compatibility, "stateFormatCompatible");
    [(IsStr(minimum), MalformedManifest),
     (minimum == Some(Str("1.0.0")), IncompatibleManifestSchema),
     (IsArr(formats), MalformedManifest),
     (formats.Some? && formats.value.Arr? && Num(3.0) in formats.value.items, IncompatibleStateSchema),
     (IsArr(Prop(compatibility, "warnings")), MalformedManifest)]
  }

  ghost function IntegrityChecks(integrity: Option<Json>): Checks<ManifestError> {
    var algorithm := Prop(integrity, "algorithm");
    [(IsStr(algorithm), MalformedManifest),
     (algorithm == Some(Str("sha-256")), InvalidChecksumAlgorithm),
     (Prop(integrity, "format") == Some(Str("lowercase-hex")), MalformedManifest),
     (IsObj(Prop(integrity, "files")), MalformedManifest)]
  }

  ghost function HeaderChecks(manifest: Json): Checks<ManifestError> {
    var schema := Prop(Some(manifest), "manifestSchemaVersion");
    [(IsStr(schema), MalformedManifest), (schema == Some(Str("1.0.0")), UnsupportedManifestSchema)]
    + (GeneratedChecks(Prop(Some(manifest), "generated"))
    + (OpenshiftChecks(Prop(Some(manifest), "openshift"))
    + (CompatibilityChecks(Prop(Some(manifest), "compatibility"))
    + IntegrityChecks(Prop(Some(manifest), "integrity")))))
  }

  lemma GeneratedRefused(generated: Option<Json>)
    ensures FirstFailing(GeneratedChecks(generated), GeneratedRefusal(generated))
  {
    hide Lookup;
    var c := GeneratedChecks(generated);
    assert !c[0].0 || !c[1].0 || !c[2].0 || !c[3].0 || GeneratedRefusal(generated).None?;
  }

  lemma OpenshiftRefused(openshift: Option<Json>)
    ensures FirstFailing(OpenshiftChecks(openshift), OpenshiftRefusal(openshift))
  {
    hide Lookup;
    var c := OpenshiftChecks(openshift);
    assert !c[0].0 || !c[1].0 || !c[2].0 || !c[3].0 || !c[4].0 || OpenshiftRefusal(openshift).None?;
  }

  lemma CompatibilityRefused(compatibility: Option<Json>)
    ensures FirstFailing(CompatibilityChecks(compatibility), CompatibilityRefusal(compatibility))
  {
    hide Lookup;
    var c := CompatibilityChecks(compatibility);
    assert !c[0].0 || !c[1].0 || !c[2].0 || !c[3].0 || !c[4].0 || CompatibilityRefusal(compatibility).None?;
  }

  lemma IntegrityRefused(integrity: Option<Json>)
    ensures FirstFailing(IntegrityChecks(integrity), IntegrityRefusal(integrity))
  {
    hide Lookup;
    var c := IntegrityChecks(integrity);
    assert !c[0].0 || !c[1].0 || !c[2].0 || !c[3].0 || IntegrityRefusal(integrity).None?;
  }

  /** A header is refused with the code of the first thing in order that it does not say. */
  lemma HeaderRefused(manifest: Json)
    ensures FirstFailing(HeaderChecks(manifest), HeaderRefusal(manifest))
  {
    hide Lookup, GeneratedChecks, GeneratedRefusal, OpenshiftChecks, OpenshiftRefusal, CompatibilityChecks,
         CompatibilityRefusal, IntegrityChecks, IntegrityRefusal;
    var m := Some(manifest);
    var g, o := Prop(m, "generated"), Prop(m, "openshift");
    var c, i := Prop(m, "compatibility"), Prop(m, "integrity");
    GeneratedRefused(g);
    OpenshiftRefused(o);
    CompatibilityRefused(c);
    IntegrityRefused(i);
    var last := if CompatibilityRefusal(c).Some? then CompatibilityRefusal(c) else IntegrityRefusal(i);
    var later := if OpenshiftRefusal(o).Some? then OpenshiftRefusal(o) else last;
    var rest := if GeneratedRefusal(g).Some? then GeneratedRefusal(g) else later;
    FirstFailingThen(CompatibilityChecks(c), IntegrityChecks(i), CompatibilityRefusal(c), IntegrityRefusal(i));
    FirstFailingThen(OpenshiftChecks(o), CompatibilityChecks(c) + IntegrityChecks(i), OpenshiftRefusal(o), last);
    FirstFailingThen(GeneratedChecks(g), OpenshiftChecks(o) + (CompatibilityChecks(c) + IntegrityChecks(i)),
                     GeneratedRefusal(g), later);
    var schema := Prop(m, "manifestSchemaVersion");
    var first := if !IsStr(schema) then Some(MalformedManifest)
                 else if schema != Some(Str("1.0.0")) then Some(UnsupportedManifestSchema) else None;
    var own: Checks<ManifestError> :=
      [(IsStr(schema), MalformedManifest), (schema == Some(Str("1.0.0")), UnsupportedManifestSchema)];
    assert !own[0].0 || !own[1].0 || first.None?;
    FirstFailingThen(own, GeneratedChecks(g) + (OpenshiftChecks(o) + (CompatibilityChecks(c) + IntegrityChecks(i))),
                     first, rest);
  }

  /** The staged header checks pass exactly the headers that say all of it. */
  lemma HeaderExact(manifest: Json)
    ensures HeaderRefusal(manifest).None? <==> HeaderAsRequired(manifest)
  {
    hide Lookup;
    if HeaderRefusal(manifest).None? {
      assert Prop(Prop(Some(manifest), "openshift"), "selectedMinor") == Some(Str(SelectedMinor(manifest)));
    }
  }

  /** Acceptance: header, exact coverage, no aliasing names, and every digest right. */
  ghost predicate Acceptable(manifest: Json, entries: map<string, seq<byte>>, digest: Digest) {
    HeaderAsRequired(manifest) &&
    var files := ChecksumSection(manifest);
    && (forall name :: name in Keys(files) <==> name in CoveredNames(entries))
    && CollisionFree(Keys(files)) && NoAlias(Keys(files))
    && WellFormedChecksums(files)
    && (forall i :: 0 <= i < |files| ==> files[i].0 in entries && files[i].1 == Str(digest(entries[files[i].0])))
  }

  // ----- the importer

  /** The alias and format loop over the checksum keys: the first offence decides the code. */
  function KeyRefusal(files: Assoc<Json>): (r: Option<ManifestError>)
    ensures r.None? <==> NoAlias(Keys(files)) && WellFormedChecksums(files)
  {
    hide IsManifestAlias, IsChecksum;
    if files == [] then None
    else if IsManifestAlias(files[0].0) then
      assert IsManifestAlias(Keys(files)[0]);
      Some(ManifestSelfReference)
    else if !files[0].1.Str? || !IsChecksum(files[0].1.text) then Some(InvalidChecksumFormat)
    else
      assert Keys(files) == [files[0].0] + Keys(files[1..]);
      assert forall i :: 0 <= i < |files[1..]| ==> files[1..][i] == files[i + 1];
      KeyRefusal(files[1..])
  }

  ghost predicate AliasIn(names: set<string>) {
    exists name :: name in names && IsManifestAlias(name)
  }

  ghost predicate CollisionIn(names: set<string>) {
    exists a, b :: a in names && b in names && a != b && Normalized(a) == Normalized(b)
  }

  ghost predicate DigestsMatch(files: Assoc<Json>, entries: map<string, seq<byte>>, digest: Digest) {
    forall i :: 0 <= i < |files| ==> files[i].0 in entries && files[i].1 == Str(digest(entries[files[i].0]))
  }

  /** The verdict on a manifest whose header passed, with the code of the first failing check. */
  ghost function ChecksumVerdict(files: Assoc<Json>, entries: map<string, seq<byte>>, digest: Digest)
    : Option<ManifestError>
  {
    if Has(files, MANIFEST_FILENAME) then Some(ManifestSelfReference)
    else if KeyRefusal(files).Some? then KeyRefusal(files)
    else LaterVerdict(files, entries, digest)
  }

  ghost function Verdict(manifest: Json, entries: map<string, seq<byte>>, digest: Digest)
    : Result<Summary, ManifestError>
  {
    if HeaderRefusal(manifest).Some? then Err(HeaderRefusal(manifest).value)
    else
      var files := ChecksumSection(manifest);
      match ChecksumVerdict(files, entries, digest)
      case Some(e) => Err(e)
      case None => Ok(Summary(SelectedMinor(manifest), |files|))
  }

  /** Each checksum key in turn: no spelling of the manifest's name, and a well-formed checksum. */
  ghost function KeyChecks(files: Assoc<Json>): Checks<ManifestError> {
    if files == [] then []
    else
      [(Normalized(files[0].0) != "version-manifest.json", ManifestSelfReference),
       (files[0].1.Str? && IsChecksum(files[0].1.text), InvalidChecksumFormat)] + KeyChecks(files[1..])
  }

  /** A name of the archive that needs a checksum. */
  ghost predicate NeedsChecksum(entries: map<string, seq<byte>>, name: string) {
    name in entries && name != "version-manifest.json"
  }

  /** What the importer asks of checksums and archive, in the order it asks, with the code of each refusal. */
  ghost function ChecksumChecks(files: Assoc<Json>, entries: map<string, seq<byte>>, digest: Digest)
    : Checks<ManifestError>
  {
    [("version-manifest.json" !in Keys(files), ManifestSelfReference)] +
    (KeyChecks(files) + LaterChecks(files, entries, digest))
  }

  /** Once the keys are well-formed. */
  ghost function LaterChecks(files: Assoc<Json>, entries: map<string, seq<byte>>, digest: Digest)
    : Checks<ManifestError>
  {
    [(forall i, j :: 0 <= i < j < |files| ==> Normalized(files[i].0) != Normalized(files[j].0), NameCollision),
     (forall name :: NeedsChecksum(entries, name) ==> Normalized(name) != "version-manifest.json",
      ManifestSelfReference),
     (forall a, b :: NeedsChecksum(entries, a) && NeedsChecksum(entries, b) && a != b ==>
        Normalized(a) != Normalized(b), NameCollision),
     (forall name :: name in Keys(files) ==> NeedsChecksum(entries, name), MissingFile),
     (forall name :: NeedsChecksum(entries, name) ==> name in Keys(files), UnlistedFile),
     (forall i :: 0 <= i < |files| ==> files[i].0 in entries && files[i].1 == Str(digest(entries[files[i].0])),
      ChecksumMismatch)]
  }

  ghost function LaterVerdict(files: Assoc<Json>, entries: map<string, seq<byte>>, digest: Digest)
    : Option<ManifestError>
  {
    var names := CoveredNames(entries);
    if !CollisionFree(Keys(files)) then Some(NameCollision)
    else if AliasIn(names) then Some(ManifestSelfReference)
    else if CollisionIn(names) then Some(NameCollision)
    else if exists name :: name in Keys(files) && name !in names then Some(MissingFile)
    else if exists name :: name in names && name !in Keys(files) then Some(UnlistedFile)
    else if !DigestsMatch(files, entries, digest) then Some(ChecksumMismatch)
    else None
  }

  lemma LaterConditions(files: Assoc<Json>, entries: map<string, seq<byte>>, digest: Digest)
    ensures var c := LaterChecks(files, entries, digest);
            var names := CoveredNames(entries);
            && (c[0].0 <==> CollisionFree(Keys(files))) && (c[1].0 <==> !AliasIn(names))
            && (c[2].0 <==> !CollisionIn(names))
            && (c[3].0 <==> !exists name :: name in Keys(files) && name !in names)
            && (c[4].0 <==> !exists name :: name in names && name !in Keys(files))
            && (c[5].0 <==> DigestsMatch(files, entries, digest))
  {
    hide Normalized;
    assert forall name :: NeedsChecksum(entries, name) <==> name in CoveredNames(entries);
  }

  lemma FirstOfSix(c: Checks<ManifestError>)
    requires |c| == 6
    ensures FirstFailing(c, if !c[0].0 then Some(c[0].1) else if !c[1].0 then Some(c[1].1)
                            else if !c[2].0 then Some(c[2].1) else if !c[3].0 then Some(c[3].1)
                            else if !c[4].0 then Some(c[4].1) else if !c[5].0 then Some(c[5].1) else None)
  {
  }

  lemma LaterRefused(files: Assoc<Json>, entries: map<string, seq<byte>>, digest: Digest)
    ensures FirstFailing(LaterChecks(files, entries, digest), LaterVerdict(files, entries, digest))
  {
    hide Normalized, CollisionFree, AliasIn, CollisionIn, DigestsMatch, FirstFailing, NeedsChecksum, CoveredNames, Keys;
    LaterConditions(files, entries, digest);
    FirstOfSix(LaterChecks(files, entries, digest));
  }

  lemma {:induction false} KeysRefused(files: Assoc<Json>)
    ensures FirstFailing(KeyChecks(files), KeyRefusal(files))
  {
    hide IsChecksum, Normalized;
    if files != [] {
      KeysRefused(files[1..]);
      var own: Checks<ManifestError> := [(Normalized(files[0].0) != "version-manifest.json", ManifestSelfReference),
                          (files[0].1.Str? && IsChecksum(files[0].1.text), InvalidChecksumFormat)];
      var first := if !own[0].0 then Some(own[0].1) else if !own[1].0 then Some(own[1].1) else None;
      FirstFailingThen(own, KeyChecks(files[1..]), first, KeyRefusal(files[1..]));
    }
  }

  /** Checksums are refused with the code of the first thing in order that fails. */
  lemma ChecksumsRefused(files: Assoc<Json>, entries: map<string, seq<byte>>, digest: Digest)
    ensures FirstFailing(ChecksumChecks(files, entries, digest), ChecksumVerdict(files, entries, digest))
  {
    hide IsChecksum, Normalized, KeyChecks, KeyRefusal, Has;
    HasIffKey(files, "version-manifest.json");
    KeysRefused(files);
    LaterRefused(files, entries, digest);
    var last, later := LaterChecks(files, entries, digest), LaterVerdict(files, entries, digest);
    FirstFailingThen(KeyChecks(files), last, KeyRefusal(files), later);
    var own: Checks<ManifestError> := [("version-manifest.json" !in Keys(files), ManifestSelfReference)];
    var first := if !own[0].0 then Some(ManifestSelfReference) else None;
    assert !own[0].0 || first.None?;
    FirstFailingThen(own, KeyChecks(files) + last, first, if KeyRefusal(files).Some? then KeyRefusal(files) else later);
  }

  method CheckChecksumKeys(files: Assoc<Json>) returns (refusal: Option<ManifestError>)
    ensures refusal == KeyRefusal(files)
  {
    var i := 0;
    assert files[0..] == files;
    while i < |files|
      invariant 0 <= i <= |files| && KeyRefusal(files[i..]) == KeyRefusal(files)
    {
      assert files[i..][1..] == files[i + 1..];
      if IsManifestAlias(files[i].0) {
        return Some(ManifestSelfReference);
      }
      if !files[i].1.Str? || !IsChecksum(files[i].1.text) {
        return Some(InvalidChecksumFormat);
      }
      i := i + 1;
    }
    return None;
  }

  /** `Object.keys`, in some order. */
  method KeysOf(names: set<string>) returns (ks: seq<string>)
    ensures forall name :: name in ks <==> name in names
    ensures forall i, j :: 0 <= i < j < |ks| ==> ks[i] != ks[j]
  {
    ks := [];
    var rest := names;
    while rest != {}
      invariant forall name :: name in names <==> name in ks || name in rest
      invariant forall name :: name in ks ==> name !in rest
      invariant forall i, j :: 0 <= i < j < |ks| ==> ks[i] != ks[j]
      decreases |rest|
    {
      var name :| name in rest;
      rest := rest - {name};
      ks := ks + [name];
    }
  }

  method AnyAlias(names: seq<string>) returns (r: bool)
    ensures r <==> exists name :: name in names && IsManifestAlias(name)
  {
    hide IsManifestAlias;
    var i := 0;
    while i < |names|
      invariant 0 <= i <= |names| && forall k :: 0 <= k < i ==> !IsManifestAlias(names[k])
    {
      if IsManifestAlias(names[i]) {
        return true;
      }
      i := i + 1;
    }
    return false;
  }

  method CheckDigests(files: Assoc<Json>, entries: map<string, seq<byte>>, digest: Digest) returns (ok: bool)
    requires forall i :: 0 <= i < |files| ==> files[i].0 in entries
    ensures ok <==> DigestsMatch(files, entries, digest)
  {
    var i := 0;
    while i < |files|
      invariant 0 <= i <= |files| && DigestsMatch(files[..i], entries, digest)
    {
      var computed := digest(entries[files[i].0]);
      if files[i].1 != Str(computed) {
        return false;
      }
      i := i + 1;
    }
    assert files[..i] == files;
    return true;
  }

  method ValidateArchiveManifest(manifest: Json, entries: map<string, seq<byte>>, digest: Digest)
    returns (r: Result<Summary, ManifestError>)
    ensures r == Verdict(manifest, entries, digest)
  {
    hide HeaderRefusal, IsManifestAlias, IsChecksum, CollisionFree, Normalized, KeyRefusal, DigestsMatch, Has;
    var refusal := HeaderRefusal(manifest);
    if refusal.Some? {
      return Err(refusal.value);
    }
    var files := ChecksumSection(manifest);
    if Has(files, MANIFEST_FILENAME) {
      return Err(ManifestSelfReference);
    }
    var manifestNames := Keys(files);
    var keyRefusal := CheckChecksumKeys(files);
    if keyRefusal.Some? {
      return Err(keyRefusal.value);
    }
    var collision := DetectNameCollisions(manifestNames);
    if collision.Some? {
      return Err(NameCollision);
    }
    var archiveNames := KeysOf(CoveredNames(entries));
    var alias := AnyAlias(archiveNames);
    if alias {
      return Err(ManifestSelfReference);
    }
    collision := DetectNameCollisions(archiveNames);
    CollisionOfKeys(archiveNames, CoveredNames(entries));
    if collision.Some? {
      return Err(NameCollision);
    }
    if exists i :: 0 <= i < |manifestNames| && manifestNames[i] !in archiveNames {
      return Err(MissingFile);
    }
    if exists i :: 0 <= i < |archiveNames| && archiveNames[i] !in manifestNames {
      return Err(UnlistedFile);
    }
    assert forall i :: 0 <= i < |files| ==> manifestNames[i] in archiveNames;
    var ok := CheckDigests(files, entries, digest);
    if !ok {
      return Err(ChecksumMismatch);
    }
    return Ok(Summary(SelectedMinor(manifest), |files|));
  }

  lemma CollisionOfKeys(ks: seq<string>, names: set<string>)
    requires forall name :: name in ks <==> name in names
    requires forall i, j :: 0 <= i < j < |ks| ==> ks[i] != ks[j]
    ensures CollisionFree(ks) <==> !CollisionIn(names)
  {
    hide Normalized;
    if CollisionIn(names) {
      var a, b :| a in names && b in names && a != b && Normalized(a) == Normalized(b);
      var i :| 0 <= i < |ks| && ks[i] == a;
      var j :| 0 <= j < |ks| && ks[j] == b;
      assert i < j || j < i;
    }
    if !CollisionFree(ks) {
      var i, j :| 0 <= i < j < |ks| && Normalized(ks[i]) == Normalized(ks[j]);
      assert ks[i] in names && ks[j] in names && ks[i] != ks[j];
    }
  }

  /** The importer accepts exactly the acceptable manifests. */
  lemma AcceptanceExact(manifest: Json, entries: map<string, seq<byte>>, digest: Digest)
    ensures Verdict(manifest, entries, digest).Ok? <==> Acceptable(manifest, entries, digest)
  {
    hide HeaderRefusal, HeaderAsRequired, IsChecksum, KeyRefusal, Has, WellFormedChecksums;
    HeaderExact(manifest);
    if HeaderRefusal(manifest).None? {
      var files := ChecksumSection(manifest);
      hide IsManifestAlias, Normalized;
      HasIffKey(files, MANIFEST_FILENAME);
      if Acceptable(manifest, entries, digest) {
        assert Keys(files)[..] == Keys(files);
        assert !AliasIn(CoveredNames(entries)) by { NoAliasMembers(Keys(files)); }
        assert !CollisionIn(CoveredNames(entries)) by { NoCollisionMembers(Keys(files)); }
      }
    }
  }

  /** The summary of an accepted manifest names its minor and counts its checksums. */
  lemma SummaryExact(manifest: Json, entries: map<string, seq<byte>>, digest: Digest)
    requires Verdict(manifest, entries, digest).Ok?
    ensures var summary := Verdict(manifest, entries, digest).value;
            var files := Prop(Prop(Some(manifest), "integrity"), "files");
            && Prop(Prop(Some(manifest), "openshift"), "selectedMinor") == Some(Str(summary.selectedMinor))
            && files.Some? && files.value.Obj? && summary.fileCount == |files.value.fields|
  {
    hide ChecksumVerdict, HeaderRefusal, Lookup;
    HeaderExact(manifest);
  }

  lemma NoAliasMembers(names: seq<string>)
    requires NoAlias(names)
    ensures forall name :: name in names ==> !IsManifestAlias(name)
  {
    hide IsManifestAlias;
  }

  lemma NoCollisionMembers(names: seq<string>)
    requires CollisionFree(names)
    ensures forall a, b :: a in names && b in names && a != b ==> Normalized(a) != Normalized(b)
  {
    hide Normalized;
    forall a, b | a in names && b in names && a != b ensures Normalized(a) != Normalized(b) {
      var i :| 0 <= i < |names| && names[i] == a;
      var j :| 0 <= j < |names| && names[j] == b;
      assert i < j || j < i;
    }
  }

  // ----- the producer

  datatype AppIdentity = AppIdentity(version: string, commit: string, buildTime: string)

  /** A property whose value may be `undefined`, which serialisation drops. */
  function Field(key: string, value: Option<Json>): Assoc<Json> {
    if value.Some? then [(key, value.value)] else []
  }

  /** `a || b` */
  function OrElse(a: Option<Json>, b: Option<Json>): Option<Json> {
    if Truthy(a) then a else b
  }

  /** `a ?? b` */
  function Coalesce(a: Option<Json>, b: Json): Json {
    if a.None? || a.value == Null then b else a.value
  }

  function SchemaVersionOf(state: Json): Json {
    Coalesce(Prop(Prop(Some(state), "version"), "_schemaVersion"), Num(3.0))
  }

  function MinorOf(state: Json): Option<Json> {
    Prop(Prop(Some(state), "version"), "selectedMinor")
  }

  function PatchOf(state: Json): Option<Json> {
    OrElse(Prop(Prop(Some(state), "version"), "selectedPatch"), Prop(Prop(Some(state), "release"), "patchVersion"))
  }

  predicate LockedOf(state: Json) {
    Prop(Prop(Some(state), "version"), "locked") == Some(Bool(true))
  }

  function Strings(values: Assoc<string>): (j: Assoc<Json>)
    ensures |j| == |values|
  {
    seq(|values|, i requires 0 <= i < |values| => (values[i].0, Str(values[i].1)))
  }

  function GeneratedSection(state: Json, id: AppIdentity, timestamp: string): Json {
    Obj([("timestamp", Str(timestamp)),
         ("appIdentity", Obj([("version", Str(id.version)), ("commit", Str(id.commit)),
                              ("buildTime", Str(id.buildTime))])),
         ("stateSchemaVersion", SchemaVersionOf(state))])
  }

  function OpenshiftSection(state: Json): Json {
    Obj(Field("selectedMinor", MinorOf(state)) + Field("selectedPatch", PatchOf(state)) +
        [("lockedVersion", Bool(LockedOf(state)))])
  }

  const COMPATIBILITY_SECTION: Json :=
    Obj([("minimumManifestSchemaVersion", Str(MANIFEST_SCHEMA_VERSION)), ("stateFormatCompatible", Arr([Num(3.0)])),
         ("warnings", Arr([]))])

  function IntegritySection(checksums: Assoc<string>): Json {
    Obj([("algorithm", Str("sha-256")), ("format", Str("lowercase-hex")), ("files", Obj(Strings(checksums)))])
  }

  function BuildVersionManifest(state: Json, checksums: Assoc<string>, delivery: seq<Json>, id: AppIdentity,
                                timestamp: string): Json
  {
    Obj([("manifestSchemaVersion", Str(MANIFEST_SCHEMA_VERSION)),
         ("generated", GeneratedSection(state, id, timestamp)),
         ("openshift", OpenshiftSection(state)),
         ("compatibility", COMPATIBILITY_SECTION),
         ("delivery", Obj([("requested", Arr(delivery))])),
         ("integrity", IntegritySection(checksums))])
  }

  /**
   The states whose export the importer can accept, by their properties: a locked release of a supported minor, state
   version 3 or none, and a patch that is text, in either of its two places.
   */
  predicate ExportableState(state: Json) {
    var version, release := Prop(Some(state), "version"), Prop(Some(state), "release");
    var patch := Prop(version, "selectedPatch");
    && Prop(version, "locked") == Some(Bool(true))
    && Prop(version, "selectedMinor") in [Some(Str("4.20")), Some(Str("4.21")), Some(Str("4.22"))]
    && Prop(version, "_schemaVersion") in [None, Some(Null), Some(Num(3.0))]
    && if Truthy(patch) then IsStr(patch) else IsStr(Prop(release, "patchVersion"))
  }

  lemma ManifestSections(state: Json, checksums: Assoc<string>, delivery: seq<Json>, id: AppIdentity, timestamp: string)
    ensures var m := Some(BuildVersionManifest(state, checksums, delivery, id, timestamp));
            && Prop(m, "manifestSchemaVersion") == Some(Str(MANIFEST_SCHEMA_VERSION))
            && Prop(m, "generated") == Some(GeneratedSection(state, id, timestamp))
            && Prop(m, "openshift") == Some(OpenshiftSection(state))
            && Prop(m, "compatibility") == Some(COMPATIBILITY_SECTION)
            && Prop(Prop(m, "delivery"), "requested") == Some(Arr(delivery))
            && Prop(m, "integrity") == Some(IntegritySection(checksums))
  {
    hide GeneratedSection, OpenshiftSection, IntegritySection;
    var f := BuildVersionManifest(state, checksums, delivery, id, timestamp).fields;
    SkipKey(f, "generated");
    SkipKey(f, "openshift");
    SkipKey(f[1..], "openshift");
    SkipKey(f, "compatibility");
    SkipKey(f[1..], "compatibility");
    SkipKey(f[1..][1..], "compatibility");
    SkipKey(f, "delivery");
    SkipKey(f[1..], "delivery");
    SkipKey(f[1..][1..], "delivery");
    SkipKey(f[1..][1..][1..], "delivery");
    SkipKey(f, "integrity");
    SkipKey(f[1..], "integrity");
    SkipKey(f[1..][1..], "integrity");
    SkipKey(f[1..][1..][1..], "integrity");
    SkipKey(f[1..][1..][1..][1..], "integrity");
  }

  lemma SkipKey(f: Assoc<Json>, key: string)
    requires f != [] && f[0].0 != key
    ensures Lookup(f, key) == Lookup(f[1..], key)
  {
  }

  lemma GeneratedAccepted(state: Json, id: AppIdentity, timestamp: string)
    ensures GeneratedRefusal(Some(GeneratedSection(state, id, timestamp))).None? <==> SchemaVersionOf(state) == Num(3.0)
    ensures var g := Some(GeneratedSection(state, id, timestamp));
            && Prop(g, "timestamp") == Some(Str(timestamp))
            && Prop(g, "stateSchemaVersion") == Some(SchemaVersionOf(state))
            && Prop(Prop(g, "appIdentity"), "version") == Some(Str(id.version))
            && Prop(Prop(g, "appIdentity"), "commit") == Some(Str(id.commit))
            && Prop(Prop(g, "appIdentity"), "buildTime") == Some(Str(id.buildTime))
  {
    hide SchemaVersionOf;
    var g := GeneratedSection(state, id, timestamp).fields;
    SkipKey(g, "appIdentity");
    SkipKey(g, "stateSchemaVersion");
    SkipKey(g[1..], "stateSchemaVersion");
    var a := g[1].1.fields;
    SkipKey(a, "commit");
    SkipKey(a, "buildTime");
    SkipKey(a[1..], "buildTime");
  }

  lemma LookupAppend(a: Assoc<Json>, b: Assoc<Json>, key: string)
    ensures |a| == 1 && a[0].0 == key ==> Lookup(a + b, key) == Some(a[0].1)
    ensures (a == [] || (|a| == 1 && a[0].0 != key)) ==> Lookup(a + b, key) == Lookup(b, key)
  {
    if a == [] {
      assert a + b == b;
    } else {
      assert |a| == 1 ==> (a + b)[1..] == b;
    }
  }

  lemma OpenshiftProps(state: Json)
    ensures var o := Some(OpenshiftSection(state));
            && Prop(o, "selectedMinor") == MinorOf(state) && Prop(o, "selectedPatch") == PatchOf(state)
            && Prop(o, "lockedVersion") == Some(Bool(LockedOf(state)))
  {
    hide MinorOf, PatchOf, LockedOf, Lookup;
    var minor, patch := Field("selectedMinor", MinorOf(state)), Field("selectedPatch", PatchOf(state));
    var locked: Assoc<Json> := [("lockedVersion", Bool(LockedOf(state)))];
    assert minor + patch + locked == minor + (patch + locked);
    LookupInThree(minor, patch, locked, "selectedMinor");
    LookupInThree(minor, patch, locked, "selectedPatch");
    LookupInThree(minor, patch, locked, "lockedVersion");
  }

  /** Looking a key up in three optional one-key sections laid end to end. */
  lemma LookupInThree(a: Assoc<Json>, b: Assoc<Json>, c: Assoc<Json>, key: string)
    requires |a| <= 1 && |b| <= 1 && |c| == 1
    ensures Lookup(a + (b + c), key)
         == if a != [] && a[0].0 == key then Some(a[0].1)
            else if b != [] && b[0].0 == key then Some(b[0].1)
            else if c[0].0 == key then Some(c[0].1) else None
  {
    LookupAppend(a, b + c, key);
    LookupAppend(b, c, key);
  }

  lemma OpenshiftAccepted(state: Json)
    ensures OpenshiftRefusal(Some(OpenshiftSection(state))).None? <==>
              IsStr(MinorOf(state)) && MinorOf(state).value.text in SUPPORTED_MINORS && IsStr(PatchOf(state)) &&
              LockedOf(state)
  {
    OpenshiftProps(state);
    hide MinorOf, PatchOf, LockedOf, Prop;
  }

  lemma CompatibilityAccepted()
    ensures CompatibilityRefusal(Some(COMPATIBILITY_SECTION)).None?
    ensures var c := Some(COMPATIBILITY_SECTION);
            && Prop(c, "minimumManifestSchemaVersion") == Some(Str("1.0.0"))
            && Prop(c, "stateFormatCompatible") == Some(Arr([Num(3.0)])) && Prop(c, "warnings") == Some(Arr([]))
  {
    var c := COMPATIBILITY_SECTION.fields;
    SkipKey(c, "stateFormatCompatible");
    SkipKey(c, "warnings");
    SkipKey(c[1..], "warnings");
    assert Num(3.0) in [Num(3.0)];
  }

  lemma IntegrityAccepted(checksums: Assoc<string>)
    ensures IntegrityRefusal(Some(IntegritySection(checksums))).None?
    ensures Prop(Some(IntegritySection(checksums)), "files") == Some(Obj(Strings(checksums)))
    ensures Prop(Some(IntegritySection(checksums)), "algorithm") == Some(Str("sha-256"))
    ensures Prop(Some(IntegritySection(checksums)), "format") == Some(Str("lowercase-hex"))
  {
    hide Strings;
    var f := IntegritySection(checksums).fields;
    SkipKey(f, "format");
    SkipKey(f, "files");
    SkipKey(f[1..], "files");
  }

  lemma StatePaths(state: Json)
    ensures SchemaVersionOf(state) == Num(3.0) && IsStr(MinorOf(state)) &&
            MinorOf(state).value.text in SUPPORTED_MINORS && IsStr(PatchOf(state)) && LockedOf(state)
       <==> ExportableState(state)
  {
    hide Prop;
  }

  /** Every field of a produced manifest, by its path. */
  lemma ProducedFields(state: Json, checksums: Assoc<string>, delivery: seq<Json>, id: AppIdentity, timestamp: string)
    ensures var m := Some(BuildVersionManifest(state, checksums, delivery, id, timestamp));
            var generated, openshift := Prop(m, "generated"), Prop(m, "openshift");
            var compatibility, integrity := Prop(m, "compatibility"), Prop(m, "integrity");
            var version, release := Prop(Some(state), "version"), Prop(Some(state), "release");
            var schema, patch := Prop(version, "_schemaVersion"), Prop(version, "selectedPatch");
            && Prop(m, "manifestSchemaVersion") == Some(Str("1.0.0"))
            && Prop(generated, "timestamp") == Some(Str(timestamp))
            && Prop(Prop(generated, "appIdentity"), "version") == Some(Str(id.version))
            && Prop(Prop(generated, "appIdentity"), "commit") == Some(Str(id.commit))
            && Prop(Prop(generated, "appIdentity"), "buildTime") == Some(Str(id.buildTime))
            && Prop(generated, "stateSchemaVersion")
              == (if schema in [None, Some(Null)] then Some(Num(3.0)) else schema)
            && Prop(openshift, "selectedMinor") == Prop(version, "selectedMinor")
            && Prop(openshift, "selectedPatch") == (if Truthy(patch) then patch else Prop(release, "patchVersion"))
            && Prop(openshift, "lockedVersion") == Some(Bool(Prop(version, "locked") == Some(Bool(true))))
            && Prop(compatibility, "minimumManifestSchemaVersion") == Some(Str("1.0.0"))
            && Prop(compatibility, "stateFormatCompatible") == Some(Arr([Num(3.0)]))
            && Prop(compatibility, "warnings") == Some(Arr([]))
            && Prop(Prop(m, "delivery"), "requested") == Some(Arr(delivery))
            && Prop(integrity, "algorithm") == Some(Str("sha-256"))
            && Prop(integrity, "format") == Some(Str("lowercase-hex"))
            && forall name :: Prop(Prop(integrity, "files"), name)
                 == match Lookup(checksums, name) { case None => None case Some(d) => Some(Str(d)) }
  {
    hide GeneratedSection, OpenshiftSection, IntegritySection, Strings, MinorOf, PatchOf, LockedOf, SchemaVersionOf,
         BuildVersionManifest, GeneratedRefusal, IntegrityRefusal;
    ManifestSections(state, checksums, delivery, id, timestamp);
    GeneratedAccepted(state, id, timestamp);
    OpenshiftProps(state);
    CompatibilityAccepted();
    IntegrityAccepted(checksums);
    StateReadings(state);
    forall name ensures Lookup(Strings(checksums), name)
      == match Lookup(checksums, name) { case None => None case Some(d) => Some(Str(d)) }
    {
      StringsLookup(checksums, name);
    }
  }

  lemma StateReadings(state: Json)
    ensures var version, release := Prop(Some(state), "version"), Prop(Some(state), "release");
            var schema, patch := Prop(version, "_schemaVersion"), Prop(version, "selectedPatch");
            && Some(SchemaVersionOf(state)) == (if schema in [None, Some(Null)] then Some(Num(3.0)) else schema)
            && MinorOf(state) == Prop(version, "selectedMinor")
            && PatchOf(state) == (if Truthy(patch) then patch else Prop(release, "patchVersion"))
            && LockedOf(state) == (Prop(version, "locked") == Some(Bool(true)))
  {
    hide Prop;
  }

  lemma {:induction false} StringsLookup(checksums: Assoc<string>, name: string)
    ensures Lookup(Strings(checksums), name)
         == match Lookup(checksums, name) { case None => None case Some(d) => Some(Str(d)) }
  {
    if checksums != [] {
      StringsLookup(checksums[1..], name);
      assert Strings(checksums)[1..] == Strings(checksums[1..]);
    }
  }

  /** The importer accepts the header of a produced manifest exactly when the state is exportable. */
  lemma ProducedHeader(state: Json, checksums: Assoc<string>, delivery: seq<Json>, id: AppIdentity, timestamp: string)
    ensures var manifest := BuildVersionManifest(state, checksums, delivery, id, timestamp);
            (HeaderRefusal(manifest).None? <==> ExportableState(state)) &&
            (HeaderRefusal(manifest).None? ==> ChecksumSection(manifest) == Strings(checksums))
  {
    hide Prop, GeneratedRefusal, OpenshiftRefusal, CompatibilityRefusal, IntegrityRefusal, GeneratedSection,
         OpenshiftSection, IntegritySection, Strings, MinorOf, PatchOf, LockedOf, SchemaVersionOf, ExportableState;
    ManifestSections(state, checksums, delivery, id, timestamp);
    GeneratedAccepted(state, id, timestamp);
    OpenshiftAccepted(state);
    CompatibilityAccepted();
    IntegrityAccepted(checksums);
    StatePaths(state);
  }

  /** Every recorded checksum is the digest of the archived bytes of that name, and nothing else is archived. */
  ghost predicate Covers(checksums: Assoc<string>, entries: map<string, seq<byte>>, digest: Digest) {
    && DistinctKeys(checksums)
    && (forall name :: name in Keys(checksums) <==> name in CoveredNames(entries))
    && (forall i :: 0 <= i < |checksums| ==>
          checksums[i].0 in entries && checksums[i].1 == digest(entries[checksums[i].0]))
  }

  /** What is produced is accepted: names that stay distinct and never alias the manifest, and right digests. */
  lemma ProducedIsAccepted(state: Json, checksums: Assoc<string>, delivery: seq<Json>, id: AppIdentity,
                           timestamp: string, entries: map<string, seq<byte>>, digest: Digest)
    requires ExportableState(state) && forall b: seq<byte> :: IsChecksum(digest(b))
    requires Covers(checksums, entries, digest)
    requires CollisionFree(Keys(checksums)) && NoAlias(Keys(checksums))
    ensures Verdict(BuildVersionManifest(state, checksums, delivery, id, timestamp), entries, digest).Ok?
  {
    hide IsChecksum, IsManifestAlias, Normalized, ExportableState, HeaderRefusal, HeaderAsRequired,
         BuildVersionManifest, Verdict;
    var manifest := BuildVersionManifest(state, checksums, delivery, id, timestamp);
    HeaderExact(manifest);
    ProducedHeader(state, checksums, delivery, id, timestamp);
    var files := ChecksumSection(manifest);
    assert Keys(files) == Keys(checksums);
    assert Acceptable(manifest, entries, digest);
    AcceptanceExact(manifest, entries, digest);
  }
}
