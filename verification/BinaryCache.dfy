/**
 The provenance record beside a cached executable (`backend/src/binaryProvenance.js`): written by hash, stage and
 rename, removed in two steps, and consulted before the executable is used. The file system is the state, every step can
 be the last one before a crash, and several writers may be at work at once.
 */
module BinaryCache {
  import opened Wrappers
  import opened Bytes
  import opened OrderedMap
  import opened JsonValue

  const SCHEMA_VERSION := Num(1.0)
  const IDENTITY_FIELDS := ["tool", "version", "platform", "arch", "variant", "tarballSha256"]

  /** The place of an identity field in the order of the checks; 6 is for any other name. */
  function Place(f: string): nat {
    if f == "tool" then 0 else if f == "version" then 1 else if f == "platform" then 2
    else if f == "arch" then 3 else if f == "variant" then 4 else if f == "tarballSha256" then 5 else 6
  }

  /** SHA-256 and JSON text, which the model does not look inside. */
  datatype Library = Library(sha256: seq<byte> -> string, stringify: Json -> string, parse: string -> Option<Json>)

  /** What sits at the executable's path; `Other` is a link, directory or device, with what reading through it gives. */
  datatype File = Absent | Regular(bytes: seq<byte>) | Other(through: Option<seq<byte>>)

  function Contents(f: File): Option<seq<byte>> {
    match f
    case Absent => None
    case Regular(bytes) => Some(bytes)
    case Other(through) => through
  }

  datatype RecordFile = Missing | Unreadable | Holds(text: string)

  /** The fields a caller asks for, or a writer states; an absent field is one the caller leaves undefined. */
  type Identity = Assoc<string>

  // ----- the record

  function FirstFalsy(v: Json, fields: seq<string>): Option<string> {
    if fields == [] then None
    else if !Truthy(Prop(Some(v), fields[0])) then Some(fields[0])
    else FirstFalsy(v, fields[1..])
  }

  function AsObject(identity: Identity): Json {
    Obj(seq(|identity|, i requires 0 <= i < |identity| => (identity[i].0, Str(identity[i].1))))
  }

  /** The first identity field a write finds missing or empty. */
  function MissingField(identity: Identity): Option<string> {
    FirstFalsy(AsObject(identity), IDENTITY_FIELDS)
  }

  function Field(identity: Identity, name: string): Json {
    match Lookup(identity, name) case Some(s) => Str(s) case None => Null
  }

  function Optional(identity: Identity, name: string): Assoc<Json> {
    match Lookup(identity, name) case Some(s) => (if s == "" then [] else [(name, Str(s))]) case None => []
  }

  function RecordOf(identity: Identity, digest: string, recordedAt: string): Json {
    Obj([("schemaVersion", SCHEMA_VERSION),
         ("tool", Field(identity, "tool")),
         ("version", Field(identity, "version")),
         ("platform", Field(identity, "platform")),
         ("arch", Field(identity, "arch")),
         ("variant", Field(identity, "variant")),
         ("tarballSha256", Field(identity, "tarballSha256")),
         ("binarySha256", Str(digest)),
         ("recordedAt", Str(recordedAt))]
        + Optional(identity, "sourceUrl") + Optional(identity, "manifestUrl"))
  }

  function RecordText(lib: Library, identity: Identity, digest: string, recordedAt: string): string {
    lib.stringify(RecordOf(identity, digest, recordedAt)) + "\n"
  }

  /** `readBinaryProvenance`: an object, or nothing. */
  function ParsedRecord(lib: Library, file: RecordFile): Option<Json> {
    match file
    case Holds(text) => (
      match lib.parse(text)
      case Some(Obj(fields)) => Some(Obj(fields))
      case _ => None)
    case _ => None
  }

  // ----- the decision

  datatype Reason =
    | NothingThere | NotRegular | NoRecord | UnreadableRecord | UnsupportedSchema
    | Incomplete(field: string) | Mismatch(fields: seq<string>) | DigestMismatch

  datatype Outcome = Usable | Refused(reason: Reason) | Threw

  predicate IsHexDigest(v: Option<Json>) {
    match v
    case Some(Str(s)) => |s| == 64 && forall i :: 0 <= i < |s| ==> '0' <= s[i] <= '9' || 'a' <= s[i] <= 'f'
    case _ => false
  }

  /** The wanted field is left open, or the record holds exactly that string. */
  predicate Agrees(record: Json, wanted: Identity, field: string) {
    Has(wanted, field) ==> Prop(Some(record), field) == Some(Str(Lookup(wanted, field).value))
  }

  function Mismatched(record: Json, wanted: Identity, fields: seq<string>): seq<string> {
    if fields == [] then []
    else
      var n := |fields| - 1;
      Mismatched(record, wanted, fields[..n]) + if Agrees(record, wanted, fields[n]) then [] else [fields[n]]
  }

  /** Everything that can be refused without reading the executable. */
  function RecordRefusal(lib: Library, file: RecordFile, present: bool, wanted: Identity): Option<Reason> {
    match ParsedRecord(lib, file)
    case None => Some(if present then UnreadableRecord else NoRecord)
    case Some(record) =>
      if Prop(Some(record), "schemaVersion") != Some(SCHEMA_VERSION) then Some(UnsupportedSchema)
      else
        match FirstFalsy(record, IDENTITY_FIELDS)
        case Some(field) => Some(Incomplete(field))
        case None =>
          if !IsHexDigest(Prop(Some(record), "binarySha256")) then Some(Incomplete("binarySha256"))
          else
            var wrong := Mismatched(record, wanted, IDENTITY_FIELDS);
            if wrong != [] then Some(Mismatch(wrong)) else None
  }

  /**
   The outcome, from four separate looks at the file system: the path's kind, the record, whether a record is there
   at all, and finally the bytes.
   */
  function Decide(lib: Library, kind: File, file: RecordFile, present: bool, later: File, wanted: Identity): Outcome {
    match kind
    case Absent => Refused(NothingThere)
    case Other(_) => Refused(NotRegular)
    case Regular(_) =>
      match RecordRefusal(lib, file, present, wanted)
      case Some(reason) => Refused(reason)
      case None =>
        match Contents(later)
        case None => Threw
        case Some(bytes) =>
          if Prop(ParsedRecord(lib, file), "binarySha256") == Some(Str(lib.sha256(bytes))) then Usable
          else Refused(DigestMismatch)
  }

  // ----- the steps

  /** A write in progress: identity checked, executable hashed, record staged under a name of its own. */
  datatype Writer =
    | Begun(identity: Identity)
    | Hashed(identity: Identity, digest: string, recordedAt: string)
    | Staged(identity: Identity, digest: string, recordedAt: string, staging: string)

  datatype State = State(binary: File, record: RecordFile, writers: map<nat, Writer>)

  datatype Step =
    | Begin(writer: nat, identity: Identity)
    | Hash(writer: nat, recordedAt: string)
    | Stage(writer: nat, ok: bool)
    | Rename(writer: nat, ok: bool)
    | Crash(lost: set<nat>)
    | SetBinary(file: File)
    | RemoveBinary(ok: bool)
    | RemoveRecord(ok: bool)
    | Mangle(damaged: RecordFile)

  function Next(lib: Library, s: State, step: Step): State {
    match step
    case Begin(w, identity) =>
      if w in s.writers || MissingField(identity).Some? then s else s.(writers := s.writers[w := Begun(identity)])
    case Hash(w, recordedAt) =>
      if w in s.writers && s.writers[w].Begun? then
        match Contents(s.binary)
        case None => s.(writers := s.writers - {w})
        case Some(bytes) =>
          s.(writers := s.writers[w := Hashed(s.writers[w].identity, lib.sha256(bytes), recordedAt)])
      else s
    case Stage(w, ok) =>
      if w in s.writers && s.writers[w].Hashed? then
        var h := s.writers[w];
        if ok then s.(writers := s.writers[w := Staged(h.identity, h.digest, h.recordedAt,
                                                       RecordText(lib, h.identity, h.digest, h.recordedAt))])
        else s.(writers := s.writers - {w})
      else s
    case Rename(w, ok) =>
      if w in s.writers && s.writers[w].Staged? then
        s.(writers := s.writers - {w}, record := if ok then Holds(s.writers[w].staging) else s.record)
      else s
    case Crash(lost) => s.(writers := s.writers - lost)
    case SetBinary(file) => s.(binary := file)
    case RemoveBinary(ok) => if ok then s.(binary := Absent) else s
    case RemoveRecord(ok) => if ok then s.(record := Missing) else s
    case Mangle(file) => s.(record := file)
  }

  /** The cache of one executable, as one process works on it. */
  class Cache {
    const lib: Library
    var binary: File
    var record: RecordFile

    ghost function Disk(writers: map<nat, Writer>): State
      reads this
    {
      State(binary, record, writers)
    }

    constructor (lib: Library, binary: File, record: RecordFile)
      ensures this.lib == lib && this.binary == binary && this.record == record
    {
      this.lib, this.binary, this.record := lib, binary, record;
    }

    /** `Err` is a throw; the disk then is as it was. */
    method Write(identity: Identity, recordedAt: string, stageOk: bool, renameOk: bool) returns (r: Result<Json, ()>)
      modifies this`record
      ensures Disk(map[]) == Written(lib, old(Disk(map[])), identity, recordedAt, stageOk, renameOk)
      ensures r.Ok? <==> && (forall f :: Place(f) < 6 ==> Lookup(identity, f).Some? && Lookup(identity, f).value != "")
                         && Contents(binary).Some? && stageOk && renameOk
      ensures r.Ok? ==> Records(r.value, identity, lib.sha256(Contents(binary).value), recordedAt)
      ensures record == if r.Ok? then Holds(lib.stringify(r.value) + "\n") else old(record)
    {
      var i := 0;
      IdentityComplete(identity);
      assert IDENTITY_FIELDS[0..] == IDENTITY_FIELDS;
      while i < |IDENTITY_FIELDS|
        invariant 0 <= i <= |IDENTITY_FIELDS|
        invariant MissingField(identity) == FirstFalsy(AsObject(identity), IDENTITY_FIELDS[i..])
      {
        if !Truthy(Prop(Some(AsObject(identity)), IDENTITY_FIELDS[i])) {
          return Err(());
        }
        assert IDENTITY_FIELDS[i..][1..] == IDENTITY_FIELDS[i + 1..];
        i := i + 1;
      }
      var bytes := Contents(binary);
      if bytes.None? {
        return Err(());
      }
      var written := RecordOf(identity, lib.sha256(bytes.value), recordedAt);
      RecordFields(identity, lib.sha256(bytes.value), recordedAt);
      var staging := lib.stringify(written) + "\n";
      if !stageOk || !renameOk {
        return Err(());
      }
      record := Holds(staging);
      return Ok(written);
    }

    method Verify(wanted: Identity) returns (r: Outcome)
      ensures r == Decide(lib, binary, record, !record.Missing?, binary, wanted)
    {
      if binary.Absent? { return Refused(NothingThere); }
      if !binary.Regular? { return Refused(NotRegular); }
      var parsed := ParsedRecord(lib, record);
      if parsed.None? {
        return Refused(if record.Missing? then NoRecord else UnreadableRecord);
      }
      if Prop(parsed, "schemaVersion") != Some(SCHEMA_VERSION) { return Refused(UnsupportedSchema); }
      var i := 0;
      assert IDENTITY_FIELDS[0..] == IDENTITY_FIELDS;
      while i < |IDENTITY_FIELDS|
        invariant 0 <= i <= |IDENTITY_FIELDS|
        invariant FirstFalsy(parsed.value, IDENTITY_FIELDS) == FirstFalsy(parsed.value, IDENTITY_FIELDS[i..])
      {
        if !Truthy(Prop(parsed, IDENTITY_FIELDS[i])) {
          return Refused(Incomplete(IDENTITY_FIELDS[i]));
        }
        assert IDENTITY_FIELDS[i..][1..] == IDENTITY_FIELDS[i + 1..];
        i := i + 1;
      }
      if !IsHexDigest(Prop(parsed, "binarySha256")) { return Refused(Incomplete("binarySha256")); }
      var wrong: seq<string> := [];
      i := 0;
      while i < |IDENTITY_FIELDS|
        invariant 0 <= i <= |IDENTITY_FIELDS|
        invariant wrong == Mismatched(parsed.value, wanted, IDENTITY_FIELDS[..i])
      {
        assert IDENTITY_FIELDS[..i + 1][..i] == IDENTITY_FIELDS[..i];
        if !Agrees(parsed.value, wanted, IDENTITY_FIELDS[i]) {
          wrong := wrong + [IDENTITY_FIELDS[i]];
        }
        i := i + 1;
      }
      assert IDENTITY_FIELDS[..|IDENTITY_FIELDS|] == IDENTITY_FIELDS;
      if wrong != [] { return Refused(Mismatch(wrong)); }
      if Prop(parsed, "binarySha256") == Some(Str(lib.sha256(binary.bytes))) { return Usable; }
      return Refused(DigestMismatch);
    }

    method Discard(binaryGoes: bool, recordGoes: bool)
      modifies this`binary, this`record
      ensures Disk(map[])
           == Next(lib, Next(lib, old(Disk(map[])), RemoveBinary(binaryGoes)), RemoveRecord(recordGoes))
      ensures binary == (if binaryGoes then Absent else old(binary))
      ensures record == (if recordGoes then Missing else old(record))
    {
      if binaryGoes {
        binary := Absent;
      }
      if recordGoes {
        record := Missing;
      }
    }
  }

  /** One write carried through without interruption. */
  function Written(lib: Library, s: State, identity: Identity, at: string, stageOk: bool, renameOk: bool): State {
    var begun := Next(lib, s, Begin(0, identity));
    var hashed := Next(lib, begun, Hash(0, at));
    Next(lib, Next(lib, hashed, Stage(0, stageOk)), Rename(0, renameOk))
  }

  // ----- runs

  function StateAt(lib: Library, start: State, steps: seq<Step>, n: nat): State
    requires n <= |steps|
  {
    if n == 0 then start else Next(lib, StateAt(lib, start, steps, n - 1), steps[n - 1])
  }

  /** A crash changes nothing on the disk, and the writes it interrupts are gone until they begin anew. */
  lemma {:induction false} CrashedIsOver(lib: Library, start: State, steps: seq<Step>, c: nat, n: nat, w: nat)
    requires c < n <= |steps| && steps[c].Crash? && w in steps[c].lost
    requires forall i, identity :: c < i < n ==> steps[i] != Begin(w, identity)
    ensures w !in StateAt(lib, start, steps, n).writers
    ensures StateAt(lib, start, steps, c + 1).binary == StateAt(lib, start, steps, c).binary
    ensures StateAt(lib, start, steps, c + 1).record == StateAt(lib, start, steps, c).record
    decreases n
  {
    hide MissingField, RecordText, Contents;
    if n > c + 1 {
      CrashedIsOver(lib, start, steps, c, n - 1, w);
      if steps[n - 1].Begin? {
        assert steps[n - 1] != Begin(w, steps[n - 1].identity);
      }
    }
  }

  /** Step `h` hashed the executable for a write of this identity, and this is what it found. */
  ghost predicate HashedAt(lib: Library, start: State, steps: seq<Step>, h: nat, w: nat, identity: Identity,
                           digest: string, recordedAt: string)
    requires h < |steps|
  {
    var s := StateAt(lib, start, steps, h);
    && steps[h] == Hash(w, recordedAt) && w in s.writers && s.writers[w] == Begun(identity)
    && Contents(s.binary).Some? && digest == lib.sha256(Contents(s.binary).value)
  }

  /** A write under way has a complete identity, and past its first step a digest the executable really had. */
  lemma {:induction false} WriterTrace(lib: Library, start: State, steps: seq<Step>, n: nat, w: nat) returns (h: nat)
    requires n <= |steps| && start.writers == map[] && w in StateAt(lib, start, steps, n).writers
    ensures var x := StateAt(lib, start, steps, n).writers[w];
            && MissingField(x.identity).None?
            && (!x.Begun? ==> h < n && HashedAt(lib, start, steps, h, w, x.identity, x.digest, x.recordedAt))
            && (x.Staged? ==> x.staging == RecordText(lib, x.identity, x.digest, x.recordedAt))
    decreases n
  {
    hide MissingField, RecordText, Contents;
    var before, step := StateAt(lib, start, steps, n - 1), steps[n - 1];
    h := 0;
    if w in before.writers {
      h := WriterTrace(lib, start, steps, n - 1, w);
      if step.Hash? && step.writer == w && before.writers[w].Begun? {
        h := n - 1;
      }
    }
  }

  /** Step `r` moved the record of a completed write into place. */
  ghost predicate RenamedAt(lib: Library, start: State, steps: seq<Step>, r: nat, w: nat, identity: Identity,
                            digest: string, recordedAt: string)
    requires r < |steps|
  {
    var s := StateAt(lib, start, steps, r);
    && steps[r] == Rename(w, true) && w in s.writers
    && s.writers[w] == Staged(identity, digest, recordedAt, RecordText(lib, identity, digest, recordedAt))
  }

  datatype Origin = Origin(hash: nat, rename: nat, writer: nat, identity: Identity, digest: string, at: string)

  /** One write hashed the executable, then put its record in place, both before step `n`. */
  ghost predicate WrittenBy(lib: Library, start: State, steps: seq<Step>, n: nat, o: Origin)
    requires n <= |steps|
  {
    && o.hash < o.rename < n && MissingField(o.identity).None?
    && HashedAt(lib, start, steps, o.hash, o.writer, o.identity, o.digest, o.at)
    && RenamedAt(lib, start, steps, o.rename, o.writer, o.identity, o.digest, o.at)
  }

  /** How a record came to be in place: a completed write, damage, or it was there from the start. */
  datatype Source = ByWrite(origin: Origin) | ByDamage(step: nat) | FromStart

  /** The record has been the one in place at `n` ever since `from`. */
  ghost predicate KeptSince(lib: Library, start: State, steps: seq<Step>, from: nat, n: nat)
    requires n <= |steps|
  {
    forall k: nat :: from <= k <= n ==>
      StateAt(lib, start, steps, k).record == StateAt(lib, start, steps, n).record
  }

  ghost predicate PutBy(lib: Library, start: State, steps: seq<Step>, n: nat, source: Source)
    requires n <= |steps|
  {
    var file := StateAt(lib, start, steps, n).record;
    match source
    case ByWrite(o) =>
      && WrittenBy(lib, start, steps, n, o) && file == Holds(RecordText(lib, o.identity, o.digest, o.at))
      && KeptSince(lib, start, steps, o.rename + 1, n)
    case ByDamage(i) =>
      i < n && steps[i] == Mangle(file) && KeptSince(lib, start, steps, i + 1, n)
    case FromStart => start.record == file && KeptSince(lib, start, steps, 0, n)
  }

  /** In any run, a record in place is the whole record of a completed write, or what damage or the start left. */
  lemma {:induction false} RecordTrace(lib: Library, start: State, steps: seq<Step>, n: nat) returns (source: Source)
    requires n <= |steps| && start.writers == map[] && !StateAt(lib, start, steps, n).record.Missing?
    ensures PutBy(lib, start, steps, n, source)
    decreases n
  {
    hide MissingField, RecordText, Contents, HashedAt;
    if n == 0 {
      return FromStart;
    }
    var before, step := StateAt(lib, start, steps, n - 1), steps[n - 1];
    if step.Rename? && step.ok && step.writer in before.writers && before.writers[step.writer].Staged? {
      var x := before.writers[step.writer];
      var h := WriterTrace(lib, start, steps, n - 1, step.writer);
      source := ByWrite(Origin(h, n - 1, step.writer, x.identity, x.digest, x.recordedAt));
    } else if step.Mangle? {
      source := ByDamage(n - 1);
    } else {
      assert StateAt(lib, start, steps, n).record == before.record;
      source := RecordTrace(lib, start, steps, n - 1);
    }
  }

  /** JSON text written from a record reads back as that record. */
  ghost predicate ReadsBack(lib: Library) {
    forall identity, digest, at ::
      lib.parse(RecordText(lib, identity, digest, at)) == Some(RecordOf(identity, digest, at))
  }

  /** What a record says, field by field. */
  ghost predicate Records(record: Json, identity: Identity, digest: string, at: string) {
    && Prop(Some(record), "schemaVersion") == Some(Num(1.0))
    && (forall f :: Place(f) < 6 && Lookup(identity, f).Some? ==>
          Prop(Some(record), f) == Some(Str(Lookup(identity, f).value)))
    && Prop(Some(record), "binarySha256") == Some(Str(digest)) && Prop(Some(record), "recordedAt") == Some(Str(at))
    && forall f <- ["sourceUrl", "manifestUrl"] ::
         Prop(Some(record), f) == match Lookup(identity, f) {
           case Some(s) => if s == "" then None else Some(Str(s))
           case None => None
         }
  }

  /** The nine fields every record starts with, and the URLs that are there. */
  lemma RecordParts(identity: Identity, digest: string, at: string) returns (fixed: Assoc<Json>)
    ensures RecordOf(identity, digest, at)
         == Obj(fixed + (Optional(identity, "sourceUrl") + Optional(identity, "manifestUrl")))
    ensures |fixed| == 9 && DistinctKeys(fixed)
    ensures fixed[0] == ("schemaVersion", Num(1.0))
    ensures fixed[1] == ("tool", Field(identity, "tool")) && fixed[2] == ("version", Field(identity, "version"))
    ensures fixed[3] == ("platform", Field(identity, "platform")) && fixed[4] == ("arch", Field(identity, "arch"))
    ensures fixed[5] == ("variant", Field(identity, "variant"))
    ensures fixed[6] == ("tarballSha256", Field(identity, "tarballSha256"))
    ensures fixed[7] == ("binarySha256", Str(digest)) && fixed[8] == ("recordedAt", Str(at))
  {
    hide Field, Optional;
    fixed := RecordOf(identity, digest, at).fields[..9];
  }

  lemma RecordFields(identity: Identity, digest: string, at: string)
    ensures RecordOf(identity, digest, at).Obj? && Records(RecordOf(identity, digest, at), identity, digest, at)
  {
    hide RecordOf, Lookup, DistinctKeys, Optional;
    var fixed := RecordParts(identity, digest, at);
    var source, manifest := Optional(identity, "sourceUrl"), Optional(identity, "manifestUrl");
    var record := RecordOf(identity, digest, at);
    forall f ensures Lookup(record.fields, f)
      == if Lookup(fixed, f).Some? then Lookup(fixed, f)
         else if Lookup(source, f).Some? then Lookup(source, f) else Lookup(manifest, f)
    {
      LookupConcat(fixed, source + manifest, f);
      LookupConcat(source, manifest, f);
    }
    forall i | 0 <= i < 9 ensures Lookup(fixed, fixed[i].0) == Some(fixed[i].1) {
      LookupAt(fixed, i);
    }
    UrlsApart(fixed, identity);
    assert Prop(Some(record), fixed[0].0) == Some(Num(1.0));
    assert Prop(Some(record), fixed[7].0) == Some(Str(digest)) && Prop(Some(record), fixed[8].0) == Some(Str(at));
    forall f | Place(f) < 6 ensures Prop(Some(record), f) == Some(Field(identity, f)) {
      assert fixed[Place(f) + 1] == (f, Field(identity, f));
    }
  }

  lemma UrlsApart(fixed: Assoc<Json>, identity: Identity)
    requires |fixed| == 9 && (forall i :: 0 <= i < 9 ==> fixed[i].0 !in ["sourceUrl", "manifestUrl"])
    ensures forall f <- ["sourceUrl", "manifestUrl"] :: Lookup(fixed, f).None?
    ensures forall f <- ["sourceUrl", "manifestUrl"], g <- ["sourceUrl", "manifestUrl"] ::
              Lookup(Optional(identity, f), g) == if f != g then None else match Lookup(identity, f) {
                case Some(s) => if s == "" then None else Some(Str(s))
                case None => None
              }
  {
    HasIffKey(fixed, "sourceUrl");
    HasIffKey(fixed, "manifestUrl");
  }

  lemma {:induction false} MismatchedExact(record: Json, wanted: Identity, fields: seq<string>)
    ensures Mismatched(record, wanted, fields) == [] <==> forall f <- fields :: Agrees(record, wanted, f)
  {
    if fields != [] {
      MismatchedExact(record, wanted, fields[..|fields| - 1]);
      assert fields == fields[..|fields| - 1] + [fields[|fields| - 1]];
    }
  }

  lemma {:induction false} FalsyExact(v: Json, fields: seq<string>)
    ensures FirstFalsy(v, fields).None? <==> forall f <- fields :: Truthy(Prop(Some(v), f))
  {
    if fields != [] {
      FalsyExact(v, fields[1..]);
      assert fields == [fields[0]] + fields[1..];
    }
  }

  /** Reading through the path gives these bytes. */
  predicate Reads(f: File, bytes: seq<byte>) { f == Regular(bytes) || f == Other(Some(bytes)) }

  /** The record file holds this object. */
  predicate IsRecord(lib: Library, file: RecordFile, record: Json) {
    file.Holds? && record.Obj? && lib.parse(file.text) == Some(record)
  }

  lemma ContentsExact(f: File, bytes: seq<byte>)
    ensures Contents(f) == Some(bytes) <==> Reads(f, bytes)
  {
  }

  lemma RecordExact(lib: Library, file: RecordFile, record: Json)
    ensures ParsedRecord(lib, file) == Some(record) <==> IsRecord(lib, file, record)
  {
  }

  predicate IsDigest(s: string) { |s| == 64 && forall c <- s :: '0' <= c <= '9' || 'a' <= c <= 'f' }

  ghost predicate HasDigest(record: Json) {
    exists s :: Prop(Some(record), "binarySha256") == Some(Str(s)) && IsDigest(s)
  }

  /** A record of schema 1 with every field in it. */
  ghost predicate Complete(record: Json) {
    && Prop(Some(record), "schemaVersion") == Some(Num(1.0))
    && (forall f :: Place(f) < 6 ==> Truthy(Prop(Some(record), f)))
    && HasDigest(record)
  }

  /** The record differs from what is wanted in this field. */
  ghost predicate Differs(record: Json, wanted: Identity, f: string) {
    Lookup(wanted, f).Some? && Prop(Some(record), f) != Some(Str(Lookup(wanted, f).value))
  }

  /** What a usable outcome needs, field by field. */
  ghost predicate Vouches(lib: Library, record: Json, wanted: Identity, bytes: seq<byte>) {
    && Complete(record)
    && (forall f :: Place(f) < 6 ==> !Differs(record, wanted, f))
    && Prop(Some(record), "binarySha256") == Some(Str(lib.sha256(bytes)))
  }

  /** Usable exactly when a regular file's readable record vouches for the bytes found. */
  lemma UsableExact(lib: Library, kind: File, file: RecordFile, present: bool, later: File, wanted: Identity)
    ensures Decide(lib, kind, file, present, later, wanted) == Usable
       <==> kind.Regular? && exists record, bytes ::
              IsRecord(lib, file, record) && Reads(later, bytes) && Vouches(lib, record, wanted, bytes)
  {
    hide Complete, Differs, FirstFalsy, Mismatched, IsHexDigest, HasDigest, Prop;
    var parsed := ParsedRecord(lib, file);
    if parsed.Some? {
      assert IsRecord(lib, file, parsed.value);
      RefusalExact(lib, file, present, wanted, parsed.value);
      if Contents(later).Some? {
        assert Reads(later, Contents(later).value);
      }
    }
  }

  /** Short of the bytes, a record is refused unless it is complete and differs in no field. */
  lemma RefusalExact(lib: Library, file: RecordFile, present: bool, wanted: Identity, record: Json)
    requires IsRecord(lib, file, record)
    ensures RecordRefusal(lib, file, present, wanted).None?
       <==> Complete(record) && forall f :: Place(f) < 6 ==> !Differs(record, wanted, f)
  {
    hide FirstFalsy, Mismatched, Prop, Lookup, IsHexDigest, HasDigest, Truthy;
    MismatchedExact(record, wanted, IDENTITY_FIELDS);
    FalsyExact(record, IDENTITY_FIELDS);
    DigestForm(record);
    FieldsPlaced();
  }

  lemma DigestForm(record: Json)
    ensures IsHexDigest(Prop(Some(record), "binarySha256")) <==> HasDigest(record)
  {
    hide Prop;
    if IsHexDigest(Prop(Some(record), "binarySha256")) {
      var s := Prop(Some(record), "binarySha256").value.text;
      assert forall c <- s :: '0' <= c <= '9' || 'a' <= c <= 'f';
    } else if HasDigest(record) {
      var s := Prop(Some(record), "binarySha256").value.text;
      assert forall i :: 0 <= i < |s| ==> s[i] in s;
    }
  }

  lemma FieldsPlaced()
    ensures |IDENTITY_FIELDS| == 6 && forall i :: 0 <= i < 6 ==> Place(IDENTITY_FIELDS[i]) == i
    ensures forall f :: Place(f) < 6 <==> f in IDENTITY_FIELDS
  {
    assert "arch"[0] == 'a' && "tool"[0] == 't' && "version"[0] == 'v' && "variant"[1] == 'a' && "platform"[0] == 'p';
    forall f | Place(f) < 6 ensures f in IDENTITY_FIELDS {
      assert f == IDENTITY_FIELDS[Place(f)];
    }
  }

  /** The record file holds this record, or, for `None`, none. */
  ghost predicate RecordIs(lib: Library, file: RecordFile, record: Option<Json>) {
    match record
    case None => forall other :: !IsRecord(lib, file, other)
    case Some(r) => IsRecord(lib, file, r)
  }

  /** Every refusal, in order. */
  lemma RefusedExact(lib: Library, kind: File, file: RecordFile, present: bool, later: File, wanted: Identity,
                     record: Option<Json>)
    requires RecordIs(lib, file, record)
    ensures var r := Decide(lib, kind, file, present, later, wanted);
            if kind.Absent? then r == Refused(NothingThere)
            else if kind.Other? then r == Refused(NotRegular)
            else if record.None? then r == Refused(if present then UnreadableRecord else NoRecord)
            else if Prop(record, "schemaVersion") != Some(Num(1.0)) then r == Refused(UnsupportedSchema)
            else if exists f :: Place(f) < 6 && !Truthy(Prop(record, f)) then
              r.Refused? && r.reason.Incomplete? && FirstMissing(record.value, r.reason.field)
            else if !HasDigest(record.value) then r == Refused(Incomplete("binarySha256"))
            else if exists f :: Place(f) < 6 && Differs(record.value, wanted, f) then
              r.Refused? && r.reason.Mismatch? && AllDiffering(record.value, wanted, r.reason.fields)
            else if forall bytes :: !Reads(later, bytes) then r == Threw
            else r in {Usable, Refused(DigestMismatch)}
  {
    hide FirstFalsy, Mismatched, Prop, Lookup, Truthy, FirstMissing, AllDiffering;
    hide Differs, IsHexDigest, HasDigest, Place;
    var parsed := ParsedRecord(lib, file);
    assert parsed == record by {
      if parsed.Some? { assert IsRecord(lib, file, parsed.value); }
    }
    if parsed.Some? {
      DigestForm(parsed.value);
      FirstMissingField(parsed.value);
      DifferingFields(parsed.value, wanted);
      if FirstFalsy(parsed.value, IDENTITY_FIELDS).Some? {
        MissingWitness(parsed.value, FirstFalsy(parsed.value, IDENTITY_FIELDS).value);
      }
      if Contents(later).Some? {
        assert Reads(later, Contents(later).value);
      }
    }
  }

  lemma MissingWitness(record: Json, f: string)
    requires FirstMissing(record, f)
    ensures Place(f) < 6 && !Truthy(Prop(Some(record), f))
  {
  }

  /** The first identity field, in order, that is not there. */
  ghost predicate FirstMissing(record: Json, f: string) {
    && Place(f) < 6 && !Truthy(Prop(Some(record), f))
    && forall g :: Place(g) < Place(f) ==> Truthy(Prop(Some(record), g))
  }

  /** Exactly the identity fields that differ, in order. */
  ghost predicate AllDiffering(record: Json, wanted: Identity, fields: seq<string>) {
    && (forall f :: f in fields <==> Place(f) < 6 && Differs(record, wanted, f))
    && forall i, j :: 0 <= i < j < |fields| ==> Place(fields[i]) < Place(fields[j])
  }

  lemma {:induction false} FirstFalsyIs(v: Json, fields: seq<string>)
    ensures match FirstFalsy(v, fields)
            case None => true
            case Some(f) =>
              exists i :: 0 <= i < |fields| && fields[i] == f && !Truthy(Prop(Some(v), f)) &&
                          forall j :: 0 <= j < i ==> Truthy(Prop(Some(v), fields[j]))
  {
    hide Prop, Truthy;
    if fields != [] && !Truthy(Prop(Some(v), fields[0])) {
      assert fields[0] == FirstFalsy(v, fields).value;
    } else if FirstFalsy(v, fields).Some? {
      FirstFalsyIs(v, fields[1..]);
      var f := FirstFalsy(v, fields).value;
      var i :| 0 <= i < |fields[1..]| && fields[1..][i] == f && !Truthy(Prop(Some(v), f)) &&
               forall j :: 0 <= j < i ==> Truthy(Prop(Some(v), fields[1..][j]));
      assert fields[i + 1] == f;
      forall j | 0 <= j < i + 1 ensures Truthy(Prop(Some(v), fields[j])) {
        if j > 0 { assert fields[j] == fields[1..][j - 1]; }
      }
    }
  }

  lemma FirstMissingField(record: Json)
    ensures match FirstFalsy(record, IDENTITY_FIELDS)
            case None => forall f :: Place(f) < 6 ==> Truthy(Prop(Some(record), f))
            case Some(f) => FirstMissing(record, f)
  {
    hide Prop, Truthy;
    FieldsPlaced();
    FalsyExact(record, IDENTITY_FIELDS);
    FirstFalsyIs(record, IDENTITY_FIELDS);
    forall g | Place(g) < 6 ensures g == IDENTITY_FIELDS[Place(g)] {
    }
  }

  lemma {:induction false} MismatchedAll(record: Json, wanted: Identity, n: nat)
    requires n <= 6
    ensures var wrong := Mismatched(record, wanted, IDENTITY_FIELDS[..n]);
            && (forall f :: f in wrong <==> Place(f) < n && Differs(record, wanted, f))
            && forall i, j :: 0 <= i < j < |wrong| ==> Place(wrong[i]) < Place(wrong[j])
  {
    hide Prop, Lookup, Place;
    FieldsPlaced();
    if n > 0 {
      MismatchedAll(record, wanted, n - 1);
      assert IDENTITY_FIELDS[..n][..n - 1] == IDENTITY_FIELDS[..n - 1];
      var f := IDENTITY_FIELDS[n - 1];
      assert Agrees(record, wanted, f) <==> !Differs(record, wanted, f);
      var before := Mismatched(record, wanted, IDENTITY_FIELDS[..n - 1]);
      forall g ensures g in Mismatched(record, wanted, IDENTITY_FIELDS[..n])
                  <==> Place(g) < n && Differs(record, wanted, g)
      {
        if Place(g) == n - 1 { OnePlace(g, f); }
      }
      forall i | 0 <= i < |before| ensures Place(before[i]) < n - 1 {
        assert before[i] in before;
      }
    }
  }

  lemma OnePlace(f: string, g: string)
    requires Place(f) == Place(g) < 6
    ensures f == g
  {
  }

  lemma DifferingFields(record: Json, wanted: Identity)
    ensures AllDiffering(record, wanted, Mismatched(record, wanted, IDENTITY_FIELDS))
    ensures Mismatched(record, wanted, IDENTITY_FIELDS) == []
       <==> forall f :: Place(f) < 6 ==> !Differs(record, wanted, f)
  {
    hide Differs, Place, Mismatched;
    MismatchedAll(record, wanted, 6);
    assert IDENTITY_FIELDS[..6] == IDENTITY_FIELDS;
    var wrong := Mismatched(record, wanted, IDENTITY_FIELDS);
    if wrong != [] { assert wrong[0] in wrong; }
  }

  /** The verifier's four looks, at the path, the record, the record's presence and the bytes, find it usable. */
  ghost predicate FoundUsable(lib: Library, start: State, steps: seq<Step>, a: nat, b: nat, p: nat, c: nat,
                              wanted: Identity)
    requires a <= b <= p <= c <= |steps|
  {
    Decide(lib, StateAt(lib, start, steps, a).binary, StateAt(lib, start, steps, b).record,
           !StateAt(lib, start, steps, p).record.Missing?, StateAt(lib, start, steps, c).binary, wanted) == Usable
  }

  /**
   Whatever extraction, writes, removals, crashes and damage came before and between its looks at the file system, a
   usable outcome means: the bytes just read hash to the digest of a complete record that agrees with every field asked
   for, and that record is one that a completed write of this path put there, or else was left by damage or the start.
   */
  lemma UsableIsTraced(lib: Library, start: State, steps: seq<Step>, a: nat, b: nat, p: nat, c: nat, wanted: Identity)
      returns (source: Source)
    requires a <= b <= p <= c <= |steps| && start.writers == map[] && ReadsBack(lib)
    requires FoundUsable(lib, start, steps, a, b, p, c, wanted)
    ensures PutBy(lib, start, steps, b, source)
    ensures var record, now := ParsedRecord(lib, StateAt(lib, start, steps, b).record), StateAt(lib, start, steps, c);
            && record.Some? && Contents(now.binary).Some?
            && Vouches(lib, record.value, wanted, Contents(now.binary).value)
            && (source.ByWrite? ==>
                  && lib.sha256(Contents(now.binary).value) == source.origin.digest
                  && forall f :: Place(f) < 6 && Lookup(wanted, f).Some? ==>
                       Lookup(source.origin.identity, f) == Lookup(wanted, f))
  {
    hide Decide, StateAt, HashedAt, RenamedAt, KeptSince, RecordOf, RecordText, Contents, Complete;
    var file := StateAt(lib, start, steps, b).record;
    UsableExact(lib, StateAt(lib, start, steps, a).binary, file, !StateAt(lib, start, steps, p).record.Missing?,
                StateAt(lib, start, steps, c).binary, wanted);
    var record, bytes :| IsRecord(lib, file, record) && Reads(StateAt(lib, start, steps, c).binary, bytes) &&
                         Vouches(lib, record, wanted, bytes);
    RecordExact(lib, file, record);
    ContentsExact(StateAt(lib, start, steps, c).binary, bytes);
    source := RecordTrace(lib, start, steps, b);
    if source.ByWrite? {
      var o := source.origin;
      RecordFields(o.identity, o.digest, o.at);
      IdentityComplete(o.identity);
      assert ParsedRecord(lib, file) == Some(RecordOf(o.identity, o.digest, o.at));
    }
  }

  /** The text of a complete record, whoever wrote it. */
  ghost predicate Credible(lib: Library, file: RecordFile) {
    ParsedRecord(lib, file).Some? && Complete(ParsedRecord(lib, file).value)
  }

  /** Up to step `n`, neither damage nor the start left a complete record. */
  ghost predicate NothingForged(lib: Library, start: State, steps: seq<Step>, n: nat)
    requires n <= |steps|
  {
    !Credible(lib, start.record) && forall i :: 0 <= i < n && steps[i].Mangle? ==> !Credible(lib, steps[i].damaged)
  }

  /** Unless damage or the start left a complete record, a usable executable is one that a completed write hashed. */
  lemma UsableIsRecorded(lib: Library, start: State, steps: seq<Step>, a: nat, b: nat, p: nat, c: nat, wanted: Identity)
      returns (o: Origin)
    requires a <= b <= p <= c <= |steps| && start.writers == map[] && ReadsBack(lib)
    requires NothingForged(lib, start, steps, b) && FoundUsable(lib, start, steps, a, b, p, c, wanted)
    ensures WrittenBy(lib, start, steps, b, o)
    ensures Contents(StateAt(lib, start, steps, c).binary).Some?
    ensures lib.sha256(Contents(StateAt(lib, start, steps, c).binary).value) == o.digest
    ensures forall f :: Place(f) < 6 && Lookup(wanted, f).Some? ==> Lookup(o.identity, f) == Lookup(wanted, f)
  {
    hide FoundUsable, StateAt, WrittenBy, KeptSince, Contents, Complete, ParsedRecord;
    var source := UsableIsTraced(lib, start, steps, a, b, p, c, wanted);
    assert source.ByWrite?;
    o := source.origin;
  }

  /** Nothing the path held before step `n` is different from what it holds then and has the same digest. */
  ghost predicate NoCollision(lib: Library, start: State, steps: seq<Step>, n: nat)
    requires n <= |steps|
  {
    forall h: nat :: h < n ==>
      var was, now := Contents(StateAt(lib, start, steps, h).binary), Contents(StateAt(lib, start, steps, n).binary);
      was.Some? && now.Some? && lib.sha256(was.value) == lib.sha256(now.value) ==> was == now
  }

  /** The bytes read last are then the very ones that write hashed: damaged executables are never usable. */
  lemma UsableIsUnchanged(lib: Library, start: State, steps: seq<Step>, a: nat, b: nat, p: nat, c: nat,
                          wanted: Identity)
      returns (o: Origin)
    requires a <= b <= p <= c <= |steps| && start.writers == map[] && ReadsBack(lib)
    requires NothingForged(lib, start, steps, b) && FoundUsable(lib, start, steps, a, b, p, c, wanted)
    requires NoCollision(lib, start, steps, c)
    ensures WrittenBy(lib, start, steps, b, o)
    ensures Contents(StateAt(lib, start, steps, o.hash).binary) == Contents(StateAt(lib, start, steps, c).binary)
    ensures Contents(StateAt(lib, start, steps, c).binary).Some?
  {
    hide FoundUsable, StateAt, NothingForged, ReadsBack, MissingField, RecordText;
    o := UsableIsRecorded(lib, start, steps, a, b, p, c, wanted);
  }

  /** An executable with the record that a write of this identity leaves is usable for the identity. */
  lemma OwnRecordUsable(lib: Library, bytes: seq<byte>, identity: Identity, at: string)
    requires ReadsBack(lib) && MissingField(identity).None? && IsDigest(lib.sha256(bytes))
    ensures var file := Holds(RecordText(lib, identity, lib.sha256(bytes), at));
            Decide(lib, Regular(bytes), file, true, Regular(bytes), identity) == Usable
  {
    hide RecordOf, RecordText, IsHexDigest, Decide, MissingField;
    var digest := lib.sha256(bytes);
    var file := Holds(RecordText(lib, identity, digest, at));
    RecordFields(identity, digest, at);
    UsableExact(lib, Regular(bytes), file, true, Regular(bytes), identity);
    IdentityComplete(identity);
    var record := RecordOf(identity, digest, at);
    assert IsRecord(lib, file, record) && Reads(Regular(bytes), bytes);
    assert Vouches(lib, record, identity, bytes);
  }

  /** A write of `written`, whose record is then damaged into the one of `forged`. */
  function ForgingSteps(lib: Library, digest: string, written: Identity, forged: Identity, at: string): seq<Step> {
    [Begin(0, written), Hash(0, at), Stage(0, true), Rename(0, true),
     Mangle(Holds(RecordText(lib, forged, digest, at)))]
  }

  lemma ForgingStates(lib: Library, bytes: seq<byte>, written: Identity, forged: Identity, at: string)
    requires MissingField(written).None?
    ensures var start := State(Regular(bytes), Missing, map[]);
            var digest := lib.sha256(bytes);
            var steps := ForgingSteps(lib, digest, written, forged, at);
            var text := RecordText(lib, written, digest, at);
            && StateAt(lib, start, steps, 0) == start
            && StateAt(lib, start, steps, 1) == start.(writers := map[0 := Begun(written)])
            && StateAt(lib, start, steps, 2) == start.(writers := map[0 := Hashed(written, digest, at)])
            && StateAt(lib, start, steps, 3) == start.(writers := map[0 := Staged(written, digest, at, text)])
            && StateAt(lib, start, steps, 4) == State(Regular(bytes), Holds(text), map[])
            && StateAt(lib, start, steps, 5)
                == State(Regular(bytes), Holds(RecordText(lib, forged, digest, at)), map[])
  {
    hide RecordText, MissingField;
  }

  /** Without that condition it fails: damage that rewrites the identity alone makes it usable for one nobody wrote. */
  lemma RewrittenIdentityIsUsable(lib: Library, bytes: seq<byte>, written: Identity, forged: Identity, at: string)
    requires ReadsBack(lib) && IsDigest(lib.sha256(bytes))
    requires MissingField(written).None? && MissingField(forged).None?
    ensures var start := State(Regular(bytes), Missing, map[]);
            var steps := ForgingSteps(lib, lib.sha256(bytes), written, forged, at);
            && FoundUsable(lib, start, steps, 4, 4, 4, 4, written)
            && FoundUsable(lib, start, steps, 5, 5, 5, 5, forged)
            && forall o :: WrittenBy(lib, start, steps, 5, o) ==> o.identity == written
  {
    hide RecordOf, RecordText, IsHexDigest, Decide, MissingField;
    var start := State(Regular(bytes), Missing, map[]);
    var digest := lib.sha256(bytes);
    var steps := ForgingSteps(lib, digest, written, forged, at);
    ForgingStates(lib, bytes, written, forged, at);
    OwnRecordUsable(lib, bytes, written, at);
    OwnRecordUsable(lib, bytes, forged, at);
  }

  /** A completed write makes the bytes it hashed usable for its identity, until something changes. */
  lemma WriteThenUsable(lib: Library, s: State, identity: Identity, at: string)
    requires ReadsBack(lib) && s.binary.Regular? && 0 !in s.writers && MissingField(identity).None?
    requires IsDigest(lib.sha256(s.binary.bytes))
    ensures var t := Written(lib, s, identity, at, true, true);
            t.binary == s.binary && Decide(lib, t.binary, t.record, true, t.binary, identity) == Usable
  {
    hide RecordOf, RecordText, Decide, MissingField;
    var t := Written(lib, s, identity, at, true, true);
    assert t.binary == s.binary && t.record == Holds(RecordText(lib, identity, lib.sha256(s.binary.bytes), at));
    OwnRecordUsable(lib, s.binary.bytes, identity, at);
  }

  lemma {:induction false} ObjectLookup(identity: Identity, key: string)
    ensures Lookup(AsObject(identity).fields, key)
         == match Lookup(identity, key) { case Some(s) => Some(Str(s)) case None => None }
  {
    if identity != [] {
      ObjectLookup(identity[1..], key);
      assert AsObject(identity).fields[1..] == AsObject(identity[1..]).fields;
    }
  }

  lemma IdentityComplete(identity: Identity)
    ensures MissingField(identity).None?
       <==> forall f :: Place(f) < 6 ==> Lookup(identity, f).Some? && Lookup(identity, f).value != ""
  {
    hide FirstFalsy, Place;
    FieldsPlaced();
    FalsyExact(AsObject(identity), IDENTITY_FIELDS);
    forall f <- IDENTITY_FIELDS ensures Prop(Some(AsObject(identity)), f)
      == match Lookup(identity, f) { case Some(s) => Some(Str(s)) case None => None }
    {
      ObjectLookup(identity, f);
    }
  }

  /** However far a discard got, once either removal worked the executable is refused. */
  lemma HalfDiscardRefused(lib: Library, s: State, binaryGoes: bool, recordGoes: bool, wanted: Identity)
    requires binaryGoes || recordGoes
    ensures var t := Next(lib, Next(lib, s, RemoveBinary(binaryGoes)), RemoveRecord(recordGoes));
            var why := if t.binary.Absent? then NothingThere else if t.binary.Other? then NotRegular else NoRecord;
            Decide(lib, t.binary, t.record, !t.record.Missing?, t.binary, wanted) == Refused(why)
  {
  }

  /** Interrupted writes never leave half a record: undamaged, the file is missing or one whole record. */
  lemma {:induction false} NeverTorn(lib: Library, start: State, steps: seq<Step>, n: nat)
    requires n <= |steps| && start.writers == map[] && ReadsBack(lib) && start.record.Missing?
    requires forall i :: 0 <= i < n ==> !steps[i].Mangle?
    ensures StateAt(lib, start, steps, n).record.Missing? ||
            ParsedRecord(lib, StateAt(lib, start, steps, n).record).Some?
    decreases n
  {
    hide RecordOf, RecordText, MissingField, Contents;
    if n > 0 {
      NeverTorn(lib, start, steps, n - 1);
      var before, step := StateAt(lib, start, steps, n - 1), steps[n - 1];
      if step.Rename? && step.writer in before.writers && before.writers[step.writer].Staged? {
        var h := WriterTrace(lib, start, steps, n - 1, step.writer);
        var x := before.writers[step.writer];
        assert lib.parse(RecordText(lib, x.identity, x.digest, x.recordedAt))
            == Some(RecordOf(x.identity, x.digest, x.recordedAt));
        assert RecordOf(x.identity, x.digest, x.recordedAt).Obj? by {
          RecordFields(x.identity, x.digest, x.recordedAt);
        }
      }
    }
  }
}
