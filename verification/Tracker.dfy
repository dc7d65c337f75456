/**
 The integrity tracker of `backend/src/exportIntegrity.js`, with the archive queue that drains later and the file
 system it reads from.

 `World` is the whole state as a value, `Step` what one event does to it. The class below updates the same state in
 place, each method proved to make exactly its step; the theorems are about every run of steps.
 */
module Tracker {
  import opened Wrappers
  import opened Bytes
  import opened OrderedMap
  import Manifest

  type Digest = Manifest.Digest

  /** What the archiver will write for a member: bytes it already holds, or a path it opens when it gets there. */
  datatype Source = Held(bytes: seq<byte>) | AtPath(path: string)

  datatype Pending = Pending(name: string, source: Source)

  datatype Written = Written(name: string, bytes: seq<byte>)

  datatype Request = Request(members: seq<string>, reason: Option<string>)

  datatype World = World(
    files: map<string, seq<byte>>, queue: seq<Pending>, archived: seq<Written>,
    checksums: Assoc<string>, streamed: set<string>, archivedNames: set<string>, requested: Assoc<Request>)

  datatype Event =
    | Append(name: string, bytes: seq<byte>)
    | AddFile(name: string, path: string)
    | StreamFile(name: string, path: string, expected: Option<string>)
    | AddDirectory(listing: seq<(string, string)>)
    | RequestDeliverable(option: string, members: seq<string>)
    | FailDeliverable(option: string, reason: string)
    | Drain
    | FileWritten(path: string, bytes: seq<byte>)
    | FileRemoved(path: string)

  const EMPTY: World := World(map[], [], [], [], {}, {}, [])

  /** A member registered with bytes in hand: queued for the archive and checksummed. */
  function Hold(w: World, name: string, bytes: seq<byte>, digest: Digest): World {
    w.(queue := w.queue + [Pending(name, Held(bytes))], checksums := Put(w.checksums, name, digest(bytes)))
  }

  /** `expectedSha256` with or without its prefix. */
  function WithPrefix(expected: string): string {
    if "sha256:" <= expected then expected else "sha256:" + expected
  }

  /** An absent or empty expectation is no expectation. */
  predicate ExpectationMet(expected: Option<string>, actual: string) {
    expected.None? || expected.value == "" || actual == WithPrefix(expected.value)
  }

  function StepStream(w: World, name: string, path: string, expected: Option<string>, digest: Digest): World {
    if path !in w.files then w
    else
      var actual := digest(w.files[path]);
      if !ExpectationMet(expected, actual) then w
      else w.(queue := w.queue + [Pending(name, AtPath(path))], checksums := Put(w.checksums, name, actual),
              streamed := w.streamed + {name})
  }

  /** Files of a directory in listing order, stopping where one cannot be read. */
  function StepDirectory(w: World, listing: seq<(string, string)>, digest: Digest): World
    decreases |listing|
  {
    if listing == [] || listing[0].1 !in w.files then w
    else StepDirectory(Hold(w, listing[0].0, w.files[listing[0].1], digest), listing[1..], digest)
  }

  function StepFail(w: World, option: string, reason: string): World {
    match Lookup(w.requested, option)
    case None => w
    case Some(r) => w.(requested := Put(w.requested, option, r.(reason := Some(reason))))
  }

  /** The archiver takes the next member: a path that is gone is skipped, otherwise its current bytes are written. */
  function StepDrain(w: World): World {
    if w.queue == [] then w
    else
      var p, rest := w.queue[0], w.queue[1..];
      match p.source
      case Held(bytes) => WriteMember(w.(queue := rest), p.name, bytes)
      case AtPath(path) =>
        if path in w.files then WriteMember(w.(queue := rest), p.name, w.files[path]) else w.(queue := rest)
  }

  function WriteMember(w: World, name: string, bytes: seq<byte>): World {
    w.(archived := w.archived + [Written(name, bytes)], archivedNames := w.archivedNames + {name})
  }

  function Step(w: World, e: Event, digest: Digest): World {
    match e
    case Append(name, bytes) => Hold(w, name, bytes, digest)
    case AddFile(name, path) => if path in w.files then Hold(w, name, w.files[path], digest) else w
    case StreamFile(name, path, expected) => StepStream(w, name, path, expected, digest)
    case AddDirectory(listing) => StepDirectory(w, listing, digest)
    case RequestDeliverable(option, members) =>
      w.(requested := Put(w.requested, option, Request(members, None)))
    case FailDeliverable(option, reason) => StepFail(w, option, reason)
    case Drain => StepDrain(w)
    case FileWritten(path, bytes) => w.(files := w.files[path := bytes])
    case FileRemoved(path) => w.(files := w.files - {path})
  }

  function Run(w: World, events: seq<Event>, digest: Digest): World
    decreases |events|
  {
    if events == [] then w else Run(Step(w, events[0], digest), events[1..], digest)
  }

  // ----- reports

  predicate Registered(w: World, name: string) { Has(w.checksums, name) }

  function MissingStreamed(w: World): set<string> { w.streamed - w.archivedNames }

  function Filtered(names: seq<string>, w: World, keep: bool): (kept: seq<string>)
    ensures |kept| <= |names|
  {
    if names == [] then []
    else (if Registered(w, names[0]) == keep then [names[0]] else []) + Filtered(names[1..], w, keep)
  }

  datatype Unfulfilled = Unfulfilled(option: string, missing: seq<string>, reason: Option<string>)

  /** Requests with at least one member that was never registered. */
  function UnfulfilledOf(requested: Assoc<Request>, w: World): seq<Unfulfilled> {
    if requested == [] then []
    else
      var (option, r) := requested[0];
      var missing := Filtered(r.members, w, false);
      (if |missing| > 0 then [Unfulfilled(option, missing, r.reason)] else []) + UnfulfilledOf(requested[1..], w)
  }

  datatype Delivery = Delivery(option: string, members: seq<string>, included: seq<string>, fulfilled: bool,
                               failureReason: Option<string>)

  function DeliveryOf(option: string, r: Request, w: World): Delivery {
    var included := Filtered(r.members, w, true);
    Delivery(option, r.members, included, |included| == |r.members|, r.reason)
  }

  function DeliveryRecord(requested: Assoc<Request>, w: World): (ds: seq<Delivery>)
    ensures |ds| == |requested|
  {
    if requested == [] then []
    else [DeliveryOf(requested[0].0, requested[0].1, w)] + DeliveryRecord(requested[1..], w)
  }

  lemma {:induction false} FilterCounts(names: seq<string>, w: World)
    ensures |Filtered(names, w, true)| + |Filtered(names, w, false)| == |names|
    ensures |Filtered(names, w, true)| == |names| <==> forall i :: 0 <= i < |names| ==> Registered(w, names[i])
  {
    hide Registered;
    if names != [] {
      FilterCounts(names[1..], w);
      assert names == [names[0]] + names[1..];
      if |Filtered(names, w, true)| == |names| {
        forall i | 0 <= i < |names| ensures Registered(w, names[i]) {
          assert i > 0 ==> names[i] == names[1..][i - 1];
        }
      }
      if forall i :: 0 <= i < |names| ==> Registered(w, names[i]) {
        assert forall i :: 0 <= i < |names[1..]| ==> Registered(w, names[1..][i]) by {
          forall i | 0 <= i < |names[1..]| ensures Registered(w, names[1..][i]) {
            assert names[1..][i] == names[i + 1];
          }
        }
      }
    }
  }

  /** Every member of every request is registered. */
  ghost predicate AllKept(requested: Assoc<Request>, w: World) {
    forall i, j :: 0 <= i < |requested| && 0 <= j < |requested[i].1.members| ==>
      Registered(w, requested[i].1.members[j])
  }

  ghost predicate Kept(r: Request, w: World) {
    forall j :: 0 <= j < |r.members| ==> Registered(w, r.members[j])
  }

  lemma {:induction false} NothingMissingIffKept(requested: Assoc<Request>, w: World)
    ensures UnfulfilledOf(requested, w) == [] <==> AllKept(requested, w)
  {
    hide Registered;
    if requested != [] {
      NothingMissingIffKept(requested[1..], w);
      FilterCounts(requested[0].1.members, w);
      assert forall i :: 0 <= i < |requested[1..]| ==> requested[1..][i] == requested[i + 1];
      assert forall i :: 1 <= i < |requested| ==> requested[i] == requested[1..][i - 1];
    }
  }

  ghost predicate AllFulfilled(ds: seq<Delivery>) {
    forall i :: 0 <= i < |ds| ==> ds[i].fulfilled
  }

  lemma {:induction false} FulfilledIffKept(requested: Assoc<Request>, w: World)
    ensures AllFulfilled(DeliveryRecord(requested, w)) <==> AllKept(requested, w)
  {
    hide Registered;
    if requested != [] {
      var head, rest := requested[0].1, requested[1..];
      var ds := DeliveryRecord(requested, w);
      FulfilledIffKept(rest, w);
      FilterCounts(head.members, w);
      assert ds[1..] == DeliveryRecord(rest, w);
      assert AllFulfilled(ds) <==> ds[0].fulfilled && AllFulfilled(ds[1..]);
      assert forall i :: 0 <= i < |rest| ==> rest[i] == requested[i + 1];
      assert forall i :: 1 <= i < |requested| ==> requested[i] == rest[i - 1];
      assert AllKept(requested, w) <==> Kept(head, w) && AllKept(rest, w);
    }
  }

  /** Every `fulfilled` flag of the manifest is true exactly when nothing is reported as unfulfilled. */
  lemma FulfilledIffNothingMissing(requested: Assoc<Request>, w: World)
    ensures UnfulfilledOf(requested, w) == [] <==> AllFulfilled(DeliveryRecord(requested, w))
    ensures UnfulfilledOf(requested, w) == [] <==> AllKept(requested, w)
  {
    hide AllFulfilled, AllKept, UnfulfilledOf, DeliveryRecord;
    NothingMissingIffKept(requested, w);
    FulfilledIffKept(requested, w);
  }

  // ----- the safety invariant of one member

  /** Everything queued or archived under `name` agrees with its recorded checksum, as things stand now. */
  ghost predicate Faithful(w: World, name: string, digest: Digest) {
    && (forall i :: 0 <= i < |w.queue| && w.queue[i].name == name ==>
          Has(w.checksums, name) &&
          match w.queue[i].source
          case Held(bytes) => Lookup(w.checksums, name) == Some(digest(bytes))
          case AtPath(path) => path in w.files ==> Lookup(w.checksums, name) == Some(digest(w.files[path])))
    && (forall i :: 0 <= i < |w.archived| && w.archived[i].name == name ==>
          Lookup(w.checksums, name) == Some(digest(w.archived[i].bytes)))
  }

  /** The event registers `name`, if it succeeds. */
  predicate Registers(e: Event, name: string) {
    match e
    case Append(n, _) => n == name
    case AddFile(n, _) => n == name
    case StreamFile(n, _, _) => n == name
    case AddDirectory(listing) => exists i :: 0 <= i < |listing| && listing[i].0 == name
    case _ => false
  }

  /** The event names `name` at most once, and only when it is not registered yet. */
  predicate Fresh(w: World, e: Event, name: string) {
    (Registers(e, name) ==> !Registered(w, name)) &&
    (e.AddDirectory? ==>
      forall i, j :: 0 <= i < j < |e.listing| ==> !(e.listing[i].0 == name && e.listing[j].0 == name))
  }

  /** The event does not write a file that a queued member called `name` is still to be read from. */
  predicate Quiet(w: World, e: Event, name: string) {
    e.FileWritten? ==> forall i :: 0 <= i < |w.queue| ==> w.queue[i] != Pending(name, AtPath(e.path))
  }

  /** Condition on a whole run: `name` is registered at most once, its path quiet from registration to drain. */
  ghost predicate Careful(w: World, events: seq<Event>, name: string, digest: Digest)
    decreases |events|
  {
    events == [] ||
    (Fresh(w, events[0], name) && Quiet(w, events[0], name) &&
     Careful(Step(w, events[0], digest), events[1..], name, digest))
  }

  lemma HoldFaithful(w: World, name: string, bytes: seq<byte>, other: string, digest: Digest)
    requires Faithful(w, other, digest) && (name == other ==> !Registered(w, other))
    ensures Faithful(Hold(w, name, bytes, digest), other, digest)
  {
    LookupPut(w.checksums, name, digest(bytes), other);
    hide Put, Lookup;
    var next := Hold(w, name, bytes, digest);
    assert forall i :: 0 <= i < |w.queue| ==> next.queue[i] == w.queue[i];
  }

  lemma {:induction false} DirectoryFaithful(w: World, listing: seq<(string, string)>, other: string, digest: Digest)
    requires Faithful(w, other, digest)
    requires Fresh(w, AddDirectory(listing), other)
    ensures Faithful(StepDirectory(w, listing, digest), other, digest)
    decreases |listing|
  {
    hide Faithful;
    if listing != [] && listing[0].1 in w.files {
      var bytes := w.files[listing[0].1];
      assert listing[0].0 == other ==> Registers(AddDirectory(listing), other);
      HoldFaithful(w, listing[0].0, bytes, other, digest);
      LookupPut(w.checksums, listing[0].0, digest(bytes), other);
      assert forall i :: 0 <= i < |listing[1..]| ==> listing[1..][i] == listing[i + 1];
      DirectoryFaithful(Hold(w, listing[0].0, bytes, digest), listing[1..], other, digest);
    }
  }

  lemma StreamFaithful(w: World, name: string, path: string, expected: Option<string>, other: string, digest: Digest)
    requires Faithful(w, other, digest) && (name == other ==> !Registered(w, other))
    ensures Faithful(StepStream(w, name, path, expected, digest), other, digest)
  {
    if path in w.files {
      LookupPut(w.checksums, name, digest(w.files[path]), other);
      hide Put, Lookup, ExpectationMet;
      var next := StepStream(w, name, path, expected, digest);
      assert forall i :: 0 <= i < |w.queue| ==> next.queue[i] == w.queue[i];
    }
  }

  lemma DrainFaithful(w: World, name: string, digest: Digest)
    requires Faithful(w, name, digest)
    ensures Faithful(StepDrain(w), name, digest)
  {
    hide Lookup;
    if w.queue != [] {
      var next := StepDrain(w);
      assert forall i :: 0 <= i < |next.queue| ==> next.queue[i] == w.queue[i + 1];
      assert forall i :: 0 <= i < |w.archived| ==> next.archived[i] == w.archived[i];
    }
  }

  /** One event keeps the member's archived and pending bytes in agreement with its checksum. */
  lemma StepFaithful(w: World, e: Event, name: string, digest: Digest)
    requires Faithful(w, name, digest) && Fresh(w, e, name) && Quiet(w, e, name)
    ensures Faithful(Step(w, e, digest), name, digest)
  {
    match e
    case Append(n, bytes) => HoldFaithful(w, n, bytes, name, digest);
    case AddFile(n, path) => if path in w.files { HoldFaithful(w, n, w.files[path], name, digest); }
    case StreamFile(n, path, expected) => StreamFaithful(w, n, path, expected, name, digest);
    case AddDirectory(listing) => DirectoryFaithful(w, listing, name, digest);
    case Drain => DrainFaithful(w, name, digest);
    case _ =>
  }

  /** Over every run, each archived member's bytes hash to the checksum recorded under its name. */
  lemma {:induction false} RunFaithful(w: World, events: seq<Event>, name: string, digest: Digest)
    requires Faithful(w, name, digest) && Careful(w, events, name, digest)
    ensures Faithful(Run(w, events, digest), name, digest)
    decreases |events|
  {
    hide Faithful, Fresh, Quiet, Step;
    if events != [] {
      StepFaithful(w, events[0], name, digest);
      RunFaithful(Step(w, events[0], digest), events[1..], name, digest);
    }
  }

  /** The caller's exclusive-ownership condition is needed: rewriting a queued path breaks the agreement. */
  lemma RewrittenStreamDiverges(digest: Digest)
    requires digest([1]) != digest([2])
    ensures var events := [FileWritten("/tool", [1]), StreamFile("tool", "/tool", None), FileWritten("/tool", [2]),
                           Drain];
            var w := Run(EMPTY, events, digest);
            w.archived == [Written("tool", [2])] && Lookup(w.checksums, "tool") == Some(digest([1]))
  {
    var w1 := Step(EMPTY, FileWritten("/tool", [1]), digest);
    var w2 := Step(w1, StreamFile("tool", "/tool", None), digest);
    var w3 := Step(w2, FileWritten("/tool", [2]), digest);
    var w4 := Step(w3, Drain, digest);
    var events := [FileWritten("/tool", [1]), StreamFile("tool", "/tool", None), FileWritten("/tool", [2]), Drain];
    assert events[1..][1..][1..] == [Drain] && events[1..][1..] == [FileWritten("/tool", [2]), Drain];
    assert Run(w3, [Drain], digest) == w4;
    assert Run(w2, events[1..][1..], digest) == Run(w3, [Drain], digest);
    assert Run(w1, events[1..], digest) == Run(w2, events[1..][1..], digest);
  }

  // ----- expected digests

  /** The digest is the expected text; or the text has no `sha256:` in front and the digest is the text with it. */
  predicate DigestIs(actual: string, expected: string) {
    var prefixed := |expected| >= 7 && expected[..7] == "sha256:";
    (prefixed && actual == expected) || (!prefixed && actual == "sha256:" + expected)
  }

  /** The file there, if there is one, is what the caller expects; "" and nothing are no expectation. */
  predicate AsExpected(w: World, path: string, expected: Option<string>, digest: Digest) {
    path in w.files &&
    (expected.Some? && expected.value != "" ==> DigestIs(digest(w.files[path]), expected.value))
  }

  /**
   A file is registered for streaming if and only if it is there and its digest is the expected one, with or without
   the prefix; then under its digest, and otherwise nothing at all changes.
   */
  lemma StreamExact(w: World, name: string, path: string, expected: Option<string>, digest: Digest)
    ensures var next := Step(w, StreamFile(name, path, expected), digest);
            if AsExpected(w, path, expected, digest) then
              && next.files == w.files && next.archived == w.archived && next.archivedNames == w.archivedNames
              && next.requested == w.requested && next.streamed == w.streamed + {name}
              && next.queue == w.queue + [Pending(name, AtPath(path))]
              && forall other :: Lookup(next.checksums, other)
                   == if other == name then Some(digest(w.files[path])) else Lookup(w.checksums, other)
            else next == w
  {
    hide Put, Lookup;
    if path in w.files {
      forall other ensures Lookup(Put(w.checksums, name, digest(w.files[path])), other)
        == if other == name then Some(digest(w.files[path])) else Lookup(w.checksums, other)
      {
        LookupPut(w.checksums, name, digest(w.files[path]), other);
      }
    }
  }

  /** Events that do not register a name leave what is recorded of it as it is. */
  lemma {:induction false} RunKeepsChecksum(w: World, events: seq<Event>, name: string, digest: Digest)
    requires forall i :: 0 <= i < |events| ==> !Registers(events[i], name)
    ensures Lookup(Run(w, events, digest).checksums, name) == Lookup(w.checksums, name)
    ensures name in w.streamed ==> name in Run(w, events, digest).streamed
    decreases |events|
  {
    hide Step, Registers, Lookup;
    if events != [] {
      StepKeepsChecksum(w, events[0], name, digest);
      RunKeepsChecksum(Step(w, events[0], digest), events[1..], name, digest);
    }
  }

  lemma StepKeepsChecksum(w: World, e: Event, name: string, digest: Digest)
    requires !Registers(e, name)
    ensures Lookup(Step(w, e, digest).checksums, name) == Lookup(w.checksums, name)
    ensures name in w.streamed ==> name in Step(w, e, digest).streamed
  {
    hide Lookup, Put;
    match e
    case Append(n, bytes) => LookupPut(w.checksums, n, digest(bytes), name);
    case AddFile(n, path) => if path in w.files { LookupPut(w.checksums, n, digest(w.files[path]), name); }
    case StreamFile(n, path, expected) =>
      if path in w.files { LookupPut(w.checksums, n, digest(w.files[path]), name); }
    case AddDirectory(listing) => DirectoryKeepsChecksum(w, listing, name, digest);
    case _ =>
  }

  lemma {:induction false} DirectoryKeepsChecksum(w: World, listing: seq<(string, string)>, name: string,
                                                  digest: Digest)
    requires forall i :: 0 <= i < |listing| ==> listing[i].0 != name
    ensures Lookup(StepDirectory(w, listing, digest).checksums, name) == Lookup(w.checksums, name)
    ensures StepDirectory(w, listing, digest).streamed == w.streamed
    decreases |listing|
  {
    hide Lookup, Put;
    if listing != [] && listing[0].1 in w.files {
      LookupPut(w.checksums, listing[0].0, digest(w.files[listing[0].1]), name);
      DirectoryKeepsChecksum(Hold(w, listing[0].0, w.files[listing[0].1], digest), listing[1..], name, digest);
    }
  }

  /**
   After any run, a streamed member that was registered with an expected digest, and not again since, has exactly that
   digest recorded; a registration with another digest has left no trace.
   */
  lemma ExpectedIsRecorded(before: seq<Event>, name: string, path: string, expected: string, later: seq<Event>,
                           digest: Digest)
    requires expected != "" && forall i :: 0 <= i < |later| ==> !Registers(later[i], name)
    ensures var there := Run(EMPTY, before, digest);
            var end := Run(EMPTY, before + [StreamFile(name, path, Some(expected))] + later, digest);
            if AsExpected(there, path, Some(expected), digest) then
              name in end.streamed && Has(end.checksums, name) && DigestIs(Lookup(end.checksums, name).value, expected)
            else end == Run(there, later, digest)
  {
    hide Lookup, Registers, Step;
    var e := StreamFile(name, path, Some(expected));
    var there := Run(EMPTY, before, digest);
    var next := Step(there, e, digest);
    StreamExact(there, name, path, Some(expected), digest);
    RunConcat(EMPTY, before, [e] + later, digest);
    assert before + [e] + later == before + ([e] + later) && ([e] + later)[1..] == later;
    RunKeepsChecksum(next, later, name, digest);
  }

  lemma {:induction false} RunConcat(w: World, a: seq<Event>, b: seq<Event>, digest: Digest)
    ensures Run(w, a + b, digest) == Run(Run(w, a, digest), b, digest)
    decreases |a|
  {
    hide Step;
    if a == [] {
      assert a + b == b;
    } else {
      assert (a + b)[1..] == a[1..] + b;
      RunConcat(Step(w, a[0], digest), a[1..], b, digest);
    }
  }

  /** And in a careful run the bytes archived under its name are ones of that digest. */
  lemma ExpectedIsArchived(before: seq<Event>, name: string, path: string, expected: string, later: seq<Event>,
                           digest: Digest, i: nat)
    requires expected != "" && forall i :: 0 <= i < |later| ==> !Registers(later[i], name)
    requires AsExpected(Run(EMPTY, before, digest), path, Some(expected), digest)
    requires var events := before + [StreamFile(name, path, Some(expected))] + later;
             && Careful(EMPTY, events, name, digest)
             && i < |Run(EMPTY, events, digest).archived| && Run(EMPTY, events, digest).archived[i].name == name
    ensures var events := before + [StreamFile(name, path, Some(expected))] + later;
            DigestIs(digest(Run(EMPTY, events, digest).archived[i].bytes), expected)
  {
    hide Run, Careful, AsExpected, Lookup, Registers, DigestIs;
    ExpectedIsRecorded(before, name, path, expected, later, digest);
    RunFaithful(EMPTY, before + [StreamFile(name, path, Some(expected))] + later, name, digest);
  }

  // ----- what the other events do

  /** The first `k` files of the listing are there, and the next one, if any, is not. */
  predicate ReadableUpTo(w: World, listing: seq<(string, string)>, k: nat) {
    && k <= |listing| && (forall i :: 0 <= i < k ==> listing[i].1 in w.files)
    && (k < |listing| ==> listing[k].1 !in w.files)
  }

  lemma ReadableRest(w: World, held: World, listing: seq<(string, string)>, k: nat)
    requires 0 < k && held.files == w.files && ReadableUpTo(w, listing, k)
    ensures ReadableUpTo(held, listing[1..], k - 1)
  {
    assert forall i :: 0 <= i < |listing[1..]| ==> listing[1..][i] == listing[i + 1];
  }

  /** A directory's files are queued in order up to the first that cannot be read, each with its bytes then. */
  lemma {:induction false} DirectoryQueued(w: World, listing: seq<(string, string)>, digest: Digest, k: nat)
    requires ReadableUpTo(w, listing, k)
    ensures var next := Step(w, AddDirectory(listing), digest);
            && next.files == w.files && next.streamed == w.streamed && next.archived == w.archived
            && next.requested == w.requested && next.archivedNames == w.archivedNames
            && next.queue
              == w.queue + seq(k, i requires 0 <= i < k => Pending(listing[i].0, Held(w.files[listing[i].1])))
    decreases |listing|
  {
    hide Put;
    if k > 0 {
      var held, rest := Hold(w, listing[0].0, w.files[listing[0].1], digest), listing[1..];
      ReadableRest(w, held, listing, k);
      DirectoryQueued(held, rest, digest, k - 1);
      assert Step(w, AddDirectory(listing), digest) == Step(held, AddDirectory(rest), digest);
      var all := seq(k, i requires 0 <= i < k => Pending(listing[i].0, Held(w.files[listing[i].1])));
      var tail := seq(k - 1, i requires 0 <= i < k - 1 => Pending(rest[i].0, Held(w.files[rest[i].1])));
      assert all == [all[0]] + tail;
      assert w.queue + [all[0]] + tail == w.queue + ([all[0]] + tail);
    } else {
      assert w.queue + [] == w.queue;
    }
  }

  /** And each is recorded under the digest of these bytes, the last of a name winning; other names keep theirs. */
  lemma {:induction false} DirectoryRecorded(w: World, listing: seq<(string, string)>, digest: Digest, k: nat,
                                             name: string)
    requires ReadableUpTo(w, listing, k)
    ensures var recorded := Lookup(Step(w, AddDirectory(listing), digest).checksums, name);
            && (forall i :: 0 <= i < k && listing[i].0 == name && (forall j :: i < j < k ==> listing[j].0 != name) ==>
                  recorded == Some(digest(w.files[listing[i].1])))
            && ((forall i :: 0 <= i < k ==> listing[i].0 != name) ==> recorded == Lookup(w.checksums, name))
    decreases |listing|
  {
    hide Lookup, Put;
    if k > 0 {
      var (first, path) := listing[0];
      var held, rest := Hold(w, first, w.files[path], digest), listing[1..];
      ReadableRest(w, held, listing, k);
      DirectoryRecorded(held, rest, digest, k - 1, name);
      LookupPut(w.checksums, first, digest(w.files[path]), name);
      assert Step(w, AddDirectory(listing), digest) == Step(held, AddDirectory(rest), digest);
      assert forall i :: 0 <= i < |rest| ==> rest[i] == listing[i + 1];
      assert forall i :: 0 < i < |listing| ==> listing[i] == rest[i - 1];
    }
  }

  /** A streamed file removed before the archiver gets to it is left out of the archive, and reported missing. */
  lemma RemovedIsMissing(w: World, name: string, path: string, digest: Digest)
    requires w.queue != [] && w.queue[0] == Pending(name, AtPath(path))
    requires name in w.streamed && name !in w.archivedNames
    ensures var next := Run(w, [FileRemoved(path), Drain], digest);
            next.queue == w.queue[1..] && next.archived == w.archived && name in MissingStreamed(next)
  {
    var gone := Step(w, FileRemoved(path), digest);
    assert [FileRemoved(path), Drain][1..] == [Drain] && [Drain][1..] == [];
    assert Run(gone, [Drain], digest) == Run(Step(gone, Drain, digest), [], digest);
  }

  // ----- completeness: nothing registered is lost without being reported

  ghost predicate Queued(w: World, name: string) {
    exists i :: 0 <= i < |w.queue| && w.queue[i].name == name
  }

  ghost predicate Archived(w: World, name: string) {
    exists i :: 0 <= i < |w.archived| && w.archived[i].name == name
  }

  /** Every checksummed name is queued, archived or streamed; and only checksummed names are queued or archived. */
  ghost predicate Accounted(w: World) {
    && DistinctKeys(w.checksums)
    && (forall name :: Registered(w, name) ==> Queued(w, name) || Archived(w, name) || name in w.streamed)
    && (forall name :: Queued(w, name) || Archived(w, name) ==> Registered(w, name))
    && (forall name :: name in w.archivedNames <==> Archived(w, name))
    && (forall i :: 0 <= i < |w.queue| && w.queue[i].source.AtPath? ==> w.queue[i].name in w.streamed)
    && (forall name :: name in w.streamed ==> Registered(w, name))
  }

  /** What adding one queue entry under `name` does to the membership facts. */
  lemma EnqueueMembership(w: World, next: World, p: Pending, value: string)
    requires next.queue == w.queue + [p] && next.archived == w.archived
    requires next.checksums == Put(w.checksums, p.name, value)
    ensures forall name :: Queued(next, name) <==> Queued(w, name) || name == p.name
    ensures forall name :: Archived(next, name) <==> Archived(w, name)
    ensures forall name :: Registered(next, name) <==> Registered(w, name) || name == p.name
  {
    forall name ensures Queued(next, name) <==> Queued(w, name) || name == p.name {
      if Queued(w, name) {
        var i :| 0 <= i < |w.queue| && w.queue[i].name == name;
        assert next.queue[i].name == name;
      }
      if name == p.name {
        assert next.queue[|w.queue|].name == name;
      }
    }
    forall name ensures Registered(next, name) <==> Registered(w, name) || name == p.name {
      LookupPut(w.checksums, p.name, value, name);
    }
  }

  lemma EnqueueAccounted(w: World, next: World, p: Pending, value: string)
    requires Accounted(w) && next.queue == w.queue + [p] && next.archived == w.archived
    requires next.checksums == Put(w.checksums, p.name, value) && next.archivedNames == w.archivedNames
    requires next.streamed == if p.source.AtPath? then w.streamed + {p.name} else w.streamed
    ensures Accounted(next)
  {
    EnqueueMembership(w, next, p, value);
    PutDistinct(w.checksums, p.name, value);
    hide Registered, Queued, Archived, Put, DistinctKeys;
  }

  lemma {:induction false} DirectoryAccounted(w: World, listing: seq<(string, string)>, digest: Digest)
    requires Accounted(w)
    ensures Accounted(StepDirectory(w, listing, digest))
    decreases |listing|
  {
    hide Accounted;
    if listing != [] && listing[0].1 in w.files {
      var bytes := w.files[listing[0].1];
      var next := Hold(w, listing[0].0, bytes, digest);
      EnqueueAccounted(w, next, Pending(listing[0].0, Held(bytes)), digest(bytes));
      DirectoryAccounted(next, listing[1..], digest);
    }
  }

  lemma WriteMembership(w: World, name: string, bytes: seq<byte>)
    ensures forall n :: Archived(WriteMember(w, name, bytes), n) <==> Archived(w, n) || n == name
  {
    var next := WriteMember(w, name, bytes);
    forall n ensures Archived(next, n) <==> Archived(w, n) || n == name {
      if Archived(w, n) {
        var i :| 0 <= i < |w.archived| && w.archived[i].name == n;
        assert next.archived[i].name == n;
      }
      if n == name {
        assert next.archived[|w.archived|].name == n;
      }
    }
  }

  lemma DrainAccounted(w: World)
    requires Accounted(w)
    ensures Accounted(StepDrain(w))
  {
    if w.queue != [] {
      var p, middle, next := w.queue[0], w.(queue := w.queue[1..]), StepDrain(w);
      assert forall name :: Archived(middle, name) <==> Archived(w, name);
      assert forall i :: 0 <= i < |next.queue| ==> next.queue[i] == w.queue[i + 1];
      if p.source.Held? {
        WriteMembership(middle, p.name, p.source.bytes);
      } else if p.source.path in w.files {
        WriteMembership(middle, p.name, w.files[p.source.path]);
      }
      assert forall name :: Queued(next, name) <==> Queued(middle, name);
      assert forall name :: Registered(next, name) <==> Registered(w, name);
      assert Queued(w, p.name);
      hide Registered, Queued, Archived, DistinctKeys;
    }
  }

  lemma StepAccounted(w: World, e: Event, digest: Digest)
    requires Accounted(w)
    ensures Accounted(Step(w, e, digest))
  {
    var next := Step(w, e, digest);
    match e
    case Append(n, bytes) => EnqueueAccounted(w, next, Pending(n, Held(bytes)), digest(bytes));
    case AddFile(n, path) =>
      if path in w.files {
        EnqueueAccounted(w, next, Pending(n, Held(w.files[path])), digest(w.files[path]));
      }
    case StreamFile(n, path, expected) =>
      if path in w.files && ExpectationMet(expected, digest(w.files[path])) {
        EnqueueAccounted(w, next, Pending(n, AtPath(path)), digest(w.files[path]));
      }
    case AddDirectory(listing) => DirectoryAccounted(w, listing, digest);
    case Drain => DrainAccounted(w);
    case _ => SameAccounted(w, next);
  }

  lemma SameAccounted(w: World, next: World)
    requires Accounted(w) && next.queue == w.queue && next.archived == w.archived && next.checksums == w.checksums
    requires next.streamed == w.streamed && next.archivedNames == w.archivedNames
    ensures Accounted(next)
  {
    assert forall name :: Queued(next, name) <==> Queued(w, name);
    assert forall name :: Archived(next, name) <==> Archived(w, name);
    assert forall name :: Registered(next, name) <==> Registered(w, name);
  }

  lemma {:induction false} RunAccounted(w: World, events: seq<Event>, digest: Digest)
    requires Accounted(w)
    ensures Accounted(Run(w, events, digest))
    decreases |events|
  {
    hide Accounted, Step;
    if events != [] {
      StepAccounted(w, events[0], digest);
      RunAccounted(Step(w, events[0], digest), events[1..], digest);
    }
  }

  /**
   Once the archive has drained, an empty `missingStreamedMembers()` means the archive holds exactly the
   checksummed names; after any run at all.
   */
  lemma NothingMissingMeansComplete(events: seq<Event>, digest: Digest)
    ensures var w := Run(EMPTY, events, digest);
            w.queue == [] ==>
              (MissingStreamed(w) == {} <==> forall name :: Registered(w, name) <==> Archived(w, name))
  {
    assert Accounted(EMPTY);
    RunAccounted(EMPTY, events, digest);
    var w := Run(EMPTY, events, digest);
    hide Registered, Archived, Queued, DistinctKeys, Run;
    if w.queue == [] {
      if MissingStreamed(w) == {} {
        forall name | Registered(w, name) ensures Archived(w, name) {
          assert name !in MissingStreamed(w);
        }
      }
    }
  }

  // ----- no name is archived twice

  function QueueNames(queue: seq<Pending>): (ns: seq<string>)
    ensures |ns| == |queue| && forall i :: 0 <= i < |queue| ==> ns[i] == queue[i].name
  {
    seq(|queue|, i requires 0 <= i < |queue| => queue[i].name)
  }

  function ArchiveNames(archived: seq<Written>): (ns: seq<string>)
    ensures |ns| == |archived| && forall i :: 0 <= i < |archived| ==> ns[i] == archived[i].name
  {
    seq(|archived|, i requires 0 <= i < |archived| => archived[i].name)
  }

  /** Names in the order they are or will be archived. */
  function NamesInOrder(w: World): seq<string> { ArchiveNames(w.archived) + QueueNames(w.queue) }

  ghost predicate Unique(names: seq<string>) {
    forall i, j :: 0 <= i < j < |names| ==> names[i] != names[j]
  }

  lemma EnqueueUnique(w: World, next: World, p: Pending)
    requires Accounted(w) && Unique(NamesInOrder(w)) && !Registered(w, p.name)
    requires next.queue == w.queue + [p] && next.archived == w.archived
    ensures Unique(NamesInOrder(next))
  {
    assert NamesInOrder(next) == NamesInOrder(w) + [p.name];
  }

  lemma {:induction false} DirectoryUnique(w: World, listing: seq<(string, string)>, digest: Digest)
    requires Accounted(w) && Unique(NamesInOrder(w)) && forall name :: Fresh(w, AddDirectory(listing), name)
    ensures Unique(NamesInOrder(StepDirectory(w, listing, digest)))
    decreases |listing|
  {
    hide Accounted, Unique, NamesInOrder;
    if listing != [] && listing[0].1 in w.files {
      var first, bytes := listing[0].0, w.files[listing[0].1];
      var next := Hold(w, first, bytes, digest);
      assert Fresh(w, AddDirectory(listing), first) && Registers(AddDirectory(listing), first);
      EnqueueUnique(w, next, Pending(first, Held(bytes)));
      EnqueueAccounted(w, next, Pending(first, Held(bytes)), digest(bytes));
      forall name ensures Fresh(next, AddDirectory(listing[1..]), name) {
        assert Fresh(w, AddDirectory(listing), name);
        LookupPut(w.checksums, first, digest(bytes), name);
        assert forall i :: 0 <= i < |listing[1..]| ==> listing[1..][i] == listing[i + 1];
      }
      DirectoryUnique(next, listing[1..], digest);
    }
  }

  lemma DropOne(names: seq<string>, k: nat)
    requires k < |names| && Unique(names)
    ensures Unique(names[..k] + names[k + 1..])
  {
    var rest := names[..k] + names[k + 1..];
    forall i, j | 0 <= i < j < |rest| ensures rest[i] != rest[j] {
      assert rest[i] == names[if i < k then i else i + 1] && rest[j] == names[if j < k then j else j + 1];
    }
  }

  lemma DrainUnique(w: World)
    requires Unique(NamesInOrder(w))
    ensures Unique(NamesInOrder(StepDrain(w)))
  {
    hide Unique;
    if w.queue != [] {
      var next := StepDrain(w);
      if next.archived == w.archived {
        DropOne(NamesInOrder(w), |w.archived|);
        assert NamesInOrder(next) == NamesInOrder(w)[..|w.archived|] + NamesInOrder(w)[|w.archived| + 1..];
      } else {
        assert NamesInOrder(next) == NamesInOrder(w);
      }
    }
  }

  lemma StepUnique(w: World, e: Event, digest: Digest)
    requires Accounted(w) && Unique(NamesInOrder(w)) && forall name :: Fresh(w, e, name)
    ensures Unique(NamesInOrder(Step(w, e, digest)))
  {
    hide Accounted, Unique, NamesInOrder;
    var next := Step(w, e, digest);
    match e
    case Append(n, bytes) =>
      assert Fresh(w, e, n);
      EnqueueUnique(w, next, Pending(n, Held(bytes)));
    case AddFile(n, path) =>
      assert Fresh(w, e, n);
      if path in w.files {
        EnqueueUnique(w, next, Pending(n, Held(w.files[path])));
      }
    case StreamFile(n, path, expected) =>
      assert Fresh(w, e, n);
      if path in w.files && ExpectationMet(expected, digest(w.files[path])) {
        EnqueueUnique(w, next, Pending(n, AtPath(path)));
      }
    case AddDirectory(listing) => DirectoryUnique(w, listing, digest);
    case Drain => DrainUnique(w);
    case _ => SameNames(w, next);
  }

  lemma SameNames(w: World, next: World)
    requires next.queue == w.queue && next.archived == w.archived
    ensures NamesInOrder(next) == NamesInOrder(w)
  {
  }

  /** The condition of `Careful` for every name at once. */
  ghost predicate CarefulRun(w: World, events: seq<Event>, digest: Digest)
    decreases |events|
  {
    events == [] ||
    ((forall name :: Fresh(w, events[0], name) && Quiet(w, events[0], name)) &&
     CarefulRun(Step(w, events[0], digest), events[1..], digest))
  }

  lemma {:induction false} CarefulForEach(w: World, events: seq<Event>, name: string, digest: Digest)
    requires CarefulRun(w, events, digest)
    ensures Careful(w, events, name, digest)
    decreases |events|
  {
    hide Fresh, Quiet, Step;
    if events != [] {
      CarefulForEach(Step(w, events[0], digest), events[1..], name, digest);
    }
  }

  lemma {:induction false} RunUnique(w: World, events: seq<Event>, digest: Digest)
    requires Accounted(w) && Unique(NamesInOrder(w)) && CarefulRun(w, events, digest)
    ensures Unique(NamesInOrder(Run(w, events, digest)))
    decreases |events|
  {
    hide Accounted, Unique, NamesInOrder, Fresh, Quiet, Step;
    if events != [] {
      StepUnique(w, events[0], digest);
      StepAccounted(w, events[0], digest);
      RunUnique(Step(w, events[0], digest), events[1..], digest);
    }
  }

  // ----- the tracker as the source has it

  class FileSystem {
    var files: map<string, seq<byte>>

    constructor ()
      ensures files == map[]
    {
      files := map[];
    }
  }

  /** The archiver: members wait in a queue and are written one at a time. */
  class Archive {
    var queue: seq<Pending>
    var archived: seq<Written>

    constructor ()
      ensures queue == [] && archived == []
    {
      queue, archived := [], [];
    }
  }

  /** Most bytes one read window holds. */
  const STREAM_HASH_CHUNK_BYTES: nat := 64 * 1024

  /** Hashing in bounded windows, whatever each read returns, gives the digest of the whole file. */
  method ComputeSha256File(content: seq<byte>, digest: Digest) returns (d: string)
    ensures d == digest(content)
  {
    var hashed: seq<byte> := [];
    while |hashed| < |content|
      invariant |hashed| <= |content| && hashed == content[..|hashed|]
    {
      var bytesRead: nat :| 0 < bytesRead <= STREAM_HASH_CHUNK_BYTES && |hashed| + bytesRead <= |content|
        by { assert 0 < 1 <= STREAM_HASH_CHUNK_BYTES && |hashed| + 1 <= |content|; }
      hashed := hashed + content[|hashed|..|hashed| + bytesRead];
    }
    assert content[..|hashed|] == content;
    d := digest(hashed);
  }

  class IntegrityTracker {
    const digest: Digest
    const archive: Archive
    const fs: FileSystem
    var checksums: Assoc<string>
    var streamedMembers: set<string>
    var archivedMembers: set<string>
    var requested: Assoc<Request>

    constructor (archive: Archive, fs: FileSystem, digest: Digest)
      ensures this.archive == archive && this.fs == fs && this.digest == digest
      ensures checksums == [] && streamedMembers == {} && archivedMembers == {} && requested == []
    {
      this.archive, this.fs, this.digest := archive, fs, digest;
      checksums, streamedMembers, archivedMembers, requested := [], {}, {}, [];
    }

    ghost function State(): World
      reads this, archive, fs
    {
      World(fs.files, archive.queue, archive.archived, checksums, streamedMembers, archivedMembers, requested)
    }

    method Append(name: string, content: seq<byte>)
      modifies this`checksums, archive`queue
      ensures State() == Step(old(State()), Event.Append(name, content), digest)
    {
      archive.queue := archive.queue + [Pending(name, Held(content))];
      checksums := Put(checksums, name, digest(content));
    }

    /** Snapshots a file; `false` stands for the exception of an unreadable path. */
    method File(path: string, name: string) returns (ok: bool)
      modifies this`checksums, archive`queue
      ensures State() == Step(old(State()), AddFile(name, path), digest)
      ensures ok <==> path in fs.files
    {
      if path !in fs.files {
        return false;
      }
      var content := fs.files[path];
      archive.queue := archive.queue + [Pending(name, Held(content))];
      checksums := Put(checksums, name, digest(content));
      return true;
    }

    /** Registers a file to be read later; on a missing file or a wrong digest nothing at all has changed. */
    method StreamFile(path: string, name: string, expectedSha256: Option<string>) returns (ok: bool)
      modifies this`checksums, this`streamedMembers, archive`queue
      ensures State() == Step(old(State()), Event.StreamFile(name, path, expectedSha256), digest)
      ensures ok <==> AsExpected(State(), path, expectedSha256, digest)
      ensures ok ==> name in streamedMembers && Lookup(checksums, name) == Some(digest(fs.files[path]))
      ensures !ok ==> State() == old(State())
    {
      if path !in fs.files {
        return false;
      }
      var actual := ComputeSha256File(fs.files[path], digest);
      if expectedSha256.Some? && expectedSha256.value != "" {
        var normalized := WithPrefix(expectedSha256.value);
        if actual != normalized {
          return false;
        }
      }
      LookupPut(checksums, name, actual, name);
      checksums := Put(checksums, name, actual);
      streamedMembers := streamedMembers + {name};
      archive.queue := archive.queue + [Pending(name, AtPath(path))];
      return true;
    }

    method Directory(listing: seq<(string, string)>) returns (ok: bool)
      modifies this`checksums, archive`queue
      ensures State() == Step(old(State()), AddDirectory(listing), digest)
      ensures ok <==> forall i :: 0 <= i < |listing| ==> listing[i].1 in fs.files
    {
      var i := 0;
      assert listing[0..] == listing;
      while i < |listing|
        invariant 0 <= i <= |listing|
        invariant StepDirectory(State(), listing[i..], digest) == StepDirectory(old(State()), listing, digest)
        invariant forall k :: 0 <= k < i ==> listing[k].1 in fs.files
        modifies this`checksums, archive`queue
      {
        var (name, path) := listing[i];
        assert listing[i..][1..] == listing[i + 1..];
        if path !in fs.files {
          return false;
        }
        var content := fs.files[path];
        archive.queue := archive.queue + [Pending(name, Held(content))];
        checksums := Put(checksums, name, digest(content));
        i := i + 1;
      }
      return true;
    }

    method MissingStreamedMembers() returns (missing: set<string>)
      ensures missing == MissingStreamed(State())
    {
      missing := set name | name in streamedMembers && name !in archivedMembers;
    }

    method RequestDeliverable(option: string, members: seq<string>)
      modifies this`requested
      ensures State() == Step(old(State()), Event.RequestDeliverable(option, members), digest)
    {
      requested := Put(requested, option, Request(members, None));
    }

    method FailDeliverable(option: string, reason: string)
      modifies this`requested
      ensures State() == Step(old(State()), Event.FailDeliverable(option, reason), digest)
    {
      var entry := Lookup(requested, option);
      if entry.Some? {
        requested := Put(requested, option, entry.value.(reason := Some(reason)));
      }
    }

    method UnfulfilledRequests() returns (r: seq<Unfulfilled>)
      ensures r == UnfulfilledOf(requested, State())
    {
      r := [];
      var i := 0;
      assert requested[0..] == requested;
      while i < |requested|
        invariant 0 <= i <= |requested|
        invariant r + UnfulfilledOf(requested[i..], State()) == UnfulfilledOf(requested, State())
      {
        var (option, entry) := requested[i];
        assert requested[i..][1..] == requested[i + 1..];
        ghost var tail := UnfulfilledOf(requested[i + 1..], State());
        var missing := MissingMembers(entry.members);
        if |missing| > 0 {
          assert r + ([Unfulfilled(option, missing, entry.reason)] + tail)
              == r + [Unfulfilled(option, missing, entry.reason)] + tail;
          r := r + [Unfulfilled(option, missing, entry.reason)];
        } else {
          assert r + ([] + tail) == r + tail;
        }
        i := i + 1;
      }
      assert r + [] == r;
    }

    method MissingMembers(members: seq<string>) returns (missing: seq<string>)
      ensures missing == Filtered(members, State(), false)
    {
      missing := [];
      var i := 0;
      assert members[0..] == members;
      while i < |members|
        invariant 0 <= i <= |members|
        invariant missing + Filtered(members[i..], State(), false) == Filtered(members, State(), false)
      {
        assert members[i..][1..] == members[i + 1..];
        if !Has(checksums, members[i]) {
          missing := missing + [members[i]];
        }
        i := i + 1;
      }
      assert missing + [] == missing;
    }

    /** The archiver's next member, and the `entry` callback that notes it. */
    method DrainNext()
      modifies this`archivedMembers, archive
      ensures State() == Step(old(State()), Drain, digest)
    {
      if archive.queue == [] {
        return;
      }
      var p := archive.queue[0];
      archive.queue := archive.queue[1..];
      if p.source.Held? {
        archive.archived := archive.archived + [Written(p.name, p.source.bytes)];
        archivedMembers := archivedMembers + {p.name};
      } else if p.source.path in fs.files {
        archive.archived := archive.archived + [Written(p.name, fs.files[p.source.path])];
        archivedMembers := archivedMembers + {p.name};
      }
    }
  }
}
