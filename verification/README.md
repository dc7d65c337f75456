# OpenShift Airgap Architect: a verified model of its core

This project models the parts of OpenShift Airgap Architect whose correctness depends on more than one function at a
time, and proves what they promise. `dafny verify dfyconfig.toml` checks all of it (Dafny 4.11).

Code that works step by step is written as methods with loops and classes with fields; each is proved equal to a
function of its inputs or of the old state, and the theorems are about those functions and about whole runs of them.
SHA-256, HMAC, UTF-8 decoding, raw inflate, JSON text, `net.isIP`, `Number(text)`, `toLowerCase` and the regular
expressions of the configuration schema are function-valued parameters: every theorem holds for any such functions, and
where it needs something of them (that JSON text reads back, that a digest has no collision) it says so in `requires`.

## What is modelled

**Bundle export and import** (`backend/src/exportIntegrity.js`). `Crc32` proves the table-driven CRC equal to the
bit-serial one, and that it detects every change confined to four consecutive bytes. `ZipReader` is the reader, loop by
loop; `ZipSoundness` says what an accepted archive is like, `ZipExact` which buffers are accepted, field by field, in
both directions, and `ZipRefusals` with which code any other is refused; `ZipRoundTrip` writes archives as sections 4.3.7, 4.3.9, 4.3.12 and 4.3.16 of APPNOTE.TXT lay them out
(stored and deflated members, with and without data descriptors) and proves the reader gives them back. `EntryNames` and
`Manifest` are name normalisation and the manifest's producer and validator; `Tracker` is the integrity tracker together
with the archive queue and a file system that changes under it; `Bundle` joins them: what a careful, finished export
archives is imported back byte for byte.

**Network documents** (`backend/src/generate.js`, `shared/interfaceNaming.js`). `NmState` builds the interfaces, queues
the routes and filters them at the end; its theorems speak of the finished document. `NmDocument` says what is in that
document, row by row, on the host's own fields.

**Image sets** (`backend/src/imagesetConfigValidator.js`, `backend/src/generate.js`). `ImageSetValidator` is the
schema-directed walk that validates and rewrites, and `ImageSetFindings` says on the document alone which findings it
reports and what it keeps; `ImageSetParse` is the bounded node count; `ImageSetGenerator` groups the selected operators
and is checked against the validator's own rules, and `ImageSetDocument` says what a generated document holds.

**Addresses** (`shared/provisioningNetworkGateway.js`, `backend/src/configureFetchProxy.js`). `IpText` proves the IPv6
parser accepts exactly the spellings of an address; `Cidr` is range arithmetic on big integers, `NoProxy` the byte-mask
matcher, and for every literal host and base, with or without a zone id, and every prefix length it is proved exactly
when the two agree.

**Time and crashes** (`backend/src/feedbackRateLimit.js`, `backend/src/feedback.js`,
`backend/src/binaryProvenance.js`). `RateLimiter`, `Feedback` and `BinaryCache` are state machines; the theorems range
over every run, and for the cache over every interleaving with crashes and damage, whatever the damage leaves.

**Two smaller cores** (`shared/provisioningNetworkFamily.js`, `shared/stateSanitizer.js`). `ProvisioningFamily` refines
a store with a slot per family; `StateSanitizer` strips credentials from trees.

`Text`, `OrderedMap`, `JsonValue`, `Bytes` and `Wrappers` hold the JavaScript values the others share, and
`VersionPolicy` the supported minors.

## Where the code and its own text part

Each of these is kept as the code has it, with a lemma.

- `::` between eight groups is accepted, standing for no group at all; section 2.2 of RFC 4291 asks for one or more
  (`IpText.EmptyRunAccepted`).
- An IPv4-mapped address is compared as IPv4 by one address module and as IPv6 by the other, whether it is the host or
  the base of the prefix. `NoProxy.AgreementExact` says for which pairs the answers differ; `NoProxy.MappedHostDisagrees`,
  `NoProxy.MappedHostInAllSix`, `NoProxy.MappedBaseDisagrees` and `NoProxy.MappedPairDisagrees` are whole families of
  them, and `NoProxy.MappedHostInput` is `::ffff:a00:5` against `::/0`.
- Literals that only one of those modules reads, or that they read as different addresses, are part of the same
  condition (`NoProxy.AsWrittenWhen`, `NoProxy.UnreadDisagrees`): a zone id behind `::`
  (`NoProxy.ZonedBaseInput`: `fe80::1` against `fe80::%eth0/64`), a quad with a leading zero, which `net.isIP` refuses
  (`NoProxy.PaddedQuadInput`), a zone id behind a quad (`NoProxy.ZonedQuadInput`: `::1.2.3.4%a`).
- A client of the rate limiter that comes back exactly the seconds it was told later is refused once more if and only if
  the wait is a whole number of seconds and a full window's own wait is all of it, or the limit is zero
  (`RateLimiter.ToldRetryDecided`; inputs for both answers in `RateLimiter.ToldRetryInputs` and
  `RateLimiter.LooseWaitInput`).
- A feedback token can be accepted twice if the clean-up reads the clock later than the check by more than the minimum
  dwell (`Feedback.LaggingCleanupReplays`).
- The provenance record has no protection of its own: damage that leaves a complete record with another identity and a
  digest that still fits makes the executable usable for an identity nobody wrote
  (`BinaryCache.RewrittenIdentityIsUsable`). `BinaryCache.UsableIsTraced` says where a usable record can come from, in
  every run; without such damage it is a completed write (`BinaryCache.UsableIsRecorded`).
- The next hop of the primary row's routes is said to agree with the interface written for it by construction; an
  ethernet or bond row that still carries a `vlan.baseIface` breaks that (`NmState.NamingAgreement`,
  `NmState.StaleBaseDangles`).
- A bond member name with a blank at an end is listed as a port under a name no interface of the document has, and only
  such a one (`NmState.PortNamesInterface`).
- The extra-field loop of the local header reads before the bound on the data is checked; a read outside the buffer is
  the refusal `OutOfRangeRead` here. An entry causes it exactly when its local header agrees up to the extra field and
  the records of that field run past the buffer (`ZipSoundness.OutOfRangeExact`, `ZipSoundness.ReadingOutOfRange`; a
  concrete header in `ZipSoundness.CutHeaderReadsPast`); the directory walk never does (`ZipSoundness.WalkWithin`).

## Model

| member | source | states |
|---|---|---|
| `Crc32.BuildTable` | backend/src/exportIntegrity.js:12-22 | each of the 256 table entries is its index after eight single-bit steps with the reflected polynomial 0xEDB88320 |
| `Crc32.Compute` | backend/src/exportIntegrity.js:24-30 | the table-driven loop returns the bit-serial CRC (register preset to ones, result complemented) of any byte sequence |
| `Crc32.LookupIsEightSteps` | backend/src/exportIntegrity.js:26-28 | one table lookup xored with the shifted register feeds exactly eight input bits to the serial register |
| `Crc32.StepsFeedBits` | backend/src/exportIntegrity.js:24-30 | preloading the register with the input and stepping equals feeding the input bit by bit |
| `Crc32.RegisterInjective` | backend/src/exportIntegrity.js:24-30 | two registers that agree after the same bytes agreed before them |
| `Crc32.BurstDetected` | backend/src/exportIntegrity.js:24-30 | messages that differ only within four consecutive bytes have equal checksums if and only if they are equal |
| `EntryNames.NormalizeEntryName` | backend/src/exportIntegrity.js:363-372 | the loop computes the normal form the other rows speak of |
| `EntryNames.DetectNameCollisions` | backend/src/exportIntegrity.js:374-383 | a collision is reported exactly when two names share a normal form, and it is the first such pair in order |
| `EntryNames.NormalizedIsClean` | backend/src/exportIntegrity.js:363-372 | a normal form is empty or has no empty, `.` or `..` segment |
| `EntryNames.NormalizeIdempotent` | backend/src/exportIntegrity.js:363-372 | normalising twice is normalising once |
| `EntryNames.NormalizeFixedPoints` | backend/src/exportIntegrity.js:363-372 | the names left alone are exactly the empty one and those of clean segments only |
| `EntryNames.NormalizedAppend` | backend/src/exportIntegrity.js:363-372 | one more segment: an empty one or `.` changes nothing, `..` takes the last segment of the normal form away, any other is put behind it |
| `EntryNames.NormalizedSegment` | backend/src/exportIntegrity.js:363-372 | a name of one segment is its own normal form, unless it is empty or dots |
| `EntryNames.Detours` | backend/src/exportIntegrity.js:363-372 | `./x` and `a/../x` are other spellings of `x`, and `a/x` is not |
| `ZipReader.FindEocd` | backend/src/exportIntegrity.js:537-548 | finds the last position in the search window with the signature and a comment reaching the end of the file, if any |
| `ZipReader.LastEocd` | backend/src/exportIntegrity.js:537-548 | the position found qualifies and no qualifying position above it was passed over |
| `ZipReader.ScanExtraFields` | backend/src/exportIntegrity.js:853-863 | reports a ZIP64 field, or a read past the buffer, exactly where walking the records meets one first |
| `ZipReader.WalkCentralDirectory` | backend/src/exportIntegrity.js:597-765 | the loop returns the entries, the end position, or the first refusal of the recursive directory walk |
| `ZipReader.CheckDirectory` | backend/src/exportIntegrity.js:767-793 | aliases, the manifest count and the declared total are refused with the code of the first failing check |
| `ZipReader.ExtractEntries` | backend/src/exportIntegrity.js:795-975 | the loop returns the bytes, regions and running total, or the first refusal, of entry-by-entry extraction |
| `ZipReader.RegionsOverlap` | backend/src/exportIntegrity.js:977-983 | sorting and comparing neighbours reports an overlap exactly when some two regions overlap |
| `ZipReader.SortProperties` | backend/src/exportIntegrity.js:977-977 | sorting by start keeps the regions and whether they are pairwise disjoint |
| `ZipReader.AdjacentSuffices` | backend/src/exportIntegrity.js:978-983 | for sorted regions, neighbours clear of each other means all pairs disjoint, and conversely |
| `ZipReader.ReadArchive` | backend/src/exportIntegrity.js:550-983 | the reader accepts or refuses, with the same code, as the staged specification does, which `ZipExact.ReaderExact` and `ZipRefusals.ReaderRefused` spell out |
| `ZipSoundness.WalkListsRecords` | backend/src/exportIntegrity.js:597-760 | an accepted walk lists exactly the directory's records, laid end to end from the start offset |
| `ZipSoundness.WalkEntries` | backend/src/exportIntegrity.js:649-753 | accepted entry names are distinct, relative, without `..` between slashes and ends, backslash, NUL or drive letter, and files, with a supported method and a size within the limit |
| `ZipSoundness.SafeNameExact` | backend/src/exportIntegrity.js:649-675 | a name is not refused as unsafe exactly when it is non-empty, has no NUL and no backslash, starts with neither `/` nor a drive letter, and nowhere has two dots bounded on each side by `/` or an end of the name |
| `ZipSoundness.WalkWithin` | backend/src/exportIntegrity.js:597-692 | the directory walk never reads outside the buffer |
| `ZipSoundness.RegionEndExact` | backend/src/exportIntegrity.js:943-964 | the reader ends a region at the data without a descriptor, and otherwise right behind twelve bytes, after an optional signature, that repeat the directory's checksum and sizes; a missing or different descriptor is refused |
| `ZipSoundness.OutOfRangeExact` | backend/src/exportIntegrity.js:853-863 | an entry makes the reader read outside the buffer exactly when its local header agrees up to the extra field and the records of that field run past the buffer, so only if the field is declared to |
| `ZipSoundness.ExtractionFaithful` | backend/src/exportIntegrity.js:799-975 | every entry's local header repeats the directory (name, flags, method, sizes and checksum, or zeros with a descriptor), its bytes have the declared size and CRC, its region ends where the data or the matching descriptor ends, below the directory, and the running total equals the declared one |
| `ZipSoundness.SecondBudgetNeverFires` | backend/src/exportIntegrity.js:937-941 | once the declared total fits, extraction with and without the running-total check are the same |
| `ZipSoundness.DisjointPairs` | backend/src/exportIntegrity.js:977-983 | the recursive disjointness is disjointness of every pair |
| `ZipSoundness.EntriesSound` | backend/src/exportIntegrity.js:597-983 | relative to its end record, an accepted archive's entries are faithful to their local headers and bytes, and their regions, header through descriptor, are pairwise disjoint and below the directory |
| `ZipSoundness.ReaderSound` | backend/src/exportIntegrity.js:550-983 | whenever the reader accepts: the walk consumed exactly the declared directory size in the declared count of records, entries are unencrypted files with distinct names that stay inside, character by character, local headers agree with them, regions from header through matching descriptor are pairwise disjoint and below the directory, every file has its size and CRC, one manifest and no alias of it |
| `ZipSoundness.ReadingOutOfRange` | backend/src/exportIntegrity.js:795-863 | the whole reader ends in such a read only at a listed entry whose declared local extra field leaves the buffer |
| `ZipSoundness.CutHeaderReadsPast` | backend/src/exportIntegrity.js:853-863 | one such entry: a local header that declares four bytes of extra field and ends with its name |
| `ZipExact.ScanExact` | backend/src/exportIntegrity.js:682-692 | the extra-field scan passes exactly when no record reached from the start is ZIP64 and none starts past the buffer |
| `ZipExact.RecordExact` | backend/src/exportIntegrity.js:602-757 | a directory record is accepted, as these values, exactly when its bytes spell them and nothing in it is refused: placeholders, version, flags, a name that does not stay inside (said on its characters), ZIP64 field, special file, directory with contents, method, size, and a name that may not follow those seen |
| `ZipExact.FollowPairs` | backend/src/exportIntegrity.js:710-726 | checking each name against those seen before is checking every pair: no name twice, no file beside the directory of its name |
| `ZipExact.EndRecordExact` | backend/src/exportIntegrity.js:556-595 | the end record is accepted exactly when it is of one disk, consistent, within the limits and not ZIP64 |
| `ZipExact.EntriesExact` | backend/src/exportIntegrity.js:597-983 | whatever lists files as required in a directory as required is what the reader returns |
| `ZipExact.ReaderExact` | backend/src/exportIntegrity.js:537-983 | the reader accepts a buffer, as a given archive, if and only if the buffer is within the limit and ends in an end record whose directory is exactly records as required, directories included, and the archive holds exactly its files: header, contents, checksum, descriptor, disjoint regions, declared total, one manifest, no alias |
| `ZipRefusals.EndRefused` | backend/src/exportIntegrity.js:556-595 | the end record is refused with the code of the first thing in order that is wrong with it |
| `ZipRefusals.RecordRefused` | backend/src/exportIntegrity.js:597-757 | a directory record is refused with the code of the first thing, in order, that is wrong with it, each said on its bytes and its decoded name |
| `ZipRefusals.WalkRefused` | backend/src/exportIntegrity.js:597-765 | a refused walk has read some records as required, and the next one is what it is refused for |
| `ZipRefusals.DirectoryRefused` | backend/src/exportIntegrity.js:767-793 | the listed entries together are refused, in order, for an alias of the manifest's name, no manifest, two, or too much in all |
| `ZipRefusals.PayloadRefused` | backend/src/exportIntegrity.js:799-935 | an entry is refused with the code of the first thing, in order, that is wrong with its local header, extra fields, contents, size or checksum |
| `ZipRefusals.ReaderRefused` | backend/src/exportIntegrity.js:550-983 | every refusal of the reader, with its code: the size, no end record, or the first of these stages that stops |
| `ZipRoundTrip.LocalReadsBack` | backend/src/exportIntegrity.js:800-964 | a written local header, data and descriptor are read back as that member, ending where they end |
| `ZipRoundTrip.CentralReadsBack` | backend/src/exportIntegrity.js:602-759 | a written directory record is read back as its entry |
| `ZipRoundTrip.WalkReadsBack` | backend/src/exportIntegrity.js:597-765 | a written directory is read back as all its entries |
| `ZipRoundTrip.ExtractReadsBack` | backend/src/exportIntegrity.js:795-975 | the written members are extracted with their contents and consecutive regions |
| `ZipRoundTrip.LimitsFit` | backend/src/exportIntegrity.js:40-45 | valid members within the reader's limits overflow no field of the layout |
| `ZipRoundTrip.RoundTrip` | backend/src/exportIntegrity.js:537-983 | reading what is written for any valid members within the reader's limits yields exactly their names and bytes, unless the four bytes 20 before the end record spell the ZIP64 locator, and then it is refused as ZIP64; no layout field can overflow |
| `Manifest.CheckChecksumKeys` | backend/src/exportIntegrity.js:465-474 | the first offending checksum key decides the refusal, and there is none exactly when no key is an alias and every value is a well-formed checksum |
| `Manifest.CheckDigests` | backend/src/exportIntegrity.js:516-526 | true exactly when every recorded checksum is the digest of the entry of its name |
| `Manifest.ChecksumForm` | backend/src/exportIntegrity.js:10-10 | a checksum is `sha256:` and 64 of the sixteen lower-case hex digits |
| `Manifest.ChecksumsRefused` | backend/src/exportIntegrity.js:458-526 | checksums are refused with the code of the first check that fails, in order: the manifest's own name, aliases and malformed values key by key, colliding or missing or unlisted names, a wrong digest |
| `Manifest.CollisionOfKeys` | backend/src/exportIntegrity.js:476-502 | comparing listed names pairwise decides whether any two distinct names share a normal form |
| `Manifest.HeaderExact` | backend/src/exportIntegrity.js:389-456 | the staged header checks pass exactly when the manifest and minimum reader schema versions are 1.0.0, the state version is 3 and among the compatible formats, timestamp, version, commit and build time are text, the minor is supported, the patch text, the release locked, warnings a list, and a sha-256 lowercase-hex checksum section is there |
| `Manifest.HeaderRefused` | backend/src/exportIntegrity.js:389-456 | a header is refused with the code of the first thing, in order, that it does not say, each thing said by its path |
| `Manifest.ValidateArchiveManifest` | backend/src/exportIntegrity.js:389-535 | the validator returns the summary, or the code of the first failing check |
| `Manifest.AcceptanceExact` | backend/src/exportIntegrity.js:389-535 | accepted exactly when the header has the required values field by field, the checksum keys are the archive names other than the manifest, normal forms are distinct and none is the manifest's, and every digest matches |
| `Manifest.SummaryExact` | backend/src/exportIntegrity.js:528-534 | the summary names the manifest's minor and counts its checksums |
| `Manifest.ProducedHeader` | backend/src/exportIntegrity.js:117-158 | the importer accepts the header of a produced manifest exactly when `version.locked` is true, `version.selectedMinor` a supported text, `version._schemaVersion` missing, null or 3, and the patch (`version.selectedPatch` if truthy, else `release.patchVersion`) text |
| `Manifest.ProducedFields` | backend/src/exportIntegrity.js:117-158 | every field of a produced manifest, by its path in the manifest and the path in the state it is read from |
| `Manifest.ProducedIsAccepted` | backend/src/exportIntegrity.js:117-158 | a produced manifest validates against entries that carry the checksummed bytes under names distinct after normalisation and no alias |
| `Tracker.ComputeSha256File` | backend/src/exportIntegrity.js:69-82 | hashing in bounded windows gives the digest of the whole content, whatever each read returns |
| `Tracker.IntegrityTracker.Append` | backend/src/exportIntegrity.js:204-207 | queues the bytes in hand and records their digest, changing nothing else |
| `Tracker.IntegrityTracker.File` | backend/src/exportIntegrity.js:222-227 | snapshots a readable file as an append; an unreadable one changes nothing |
| `Tracker.IntegrityTracker.StreamFile` | backend/src/exportIntegrity.js:257-278 | registers a file to be read later with its present digest exactly when it is there and its digest is the expected one, with or without the `sha256:` in front; otherwise the whole state is as it was |
| `Tracker.StreamExact` | backend/src/exportIntegrity.js:257-278 | for every expectation: the file is registered if and only if it is there and its digest is the expected text, or `sha256:` and that text when it does not start so; the new state field by field, or no change at all |
| `Tracker.ExpectedIsRecorded` | backend/src/exportIntegrity.js:257-278 | after any run, a member streamed with an expected digest, and not registered again since, has exactly that digest recorded; a registration with another left no trace |
| `Tracker.ExpectedIsArchived` | backend/src/exportIntegrity.js:235-278 | and in a careful run the bytes archived under its name hash to the expected digest |
| `Tracker.IntegrityTracker.Directory` | backend/src/exportIntegrity.js:326-333 | appends a listing's files in order, stopping at the first that cannot be read |
| `Tracker.DirectoryQueued` | backend/src/exportIntegrity.js:326-333 | a directory's files are queued in order, with their bytes, up to the first that cannot be read |
| `Tracker.DirectoryRecorded` | backend/src/exportIntegrity.js:326-333 | and each is recorded under the digest of these bytes, other names keeping theirs |
| `Tracker.IntegrityTracker.MissingStreamedMembers` | backend/src/exportIntegrity.js:286-288 | the streamed names not yet archived |
| `Tracker.RemovedIsMissing` | backend/src/exportIntegrity.js:286-288 | a streamed file removed before the archiver gets to it is left out and reported missing |
| `Tracker.IntegrityTracker.RequestDeliverable` | backend/src/exportIntegrity.js:297-299 | records the promise before the work |
| `Tracker.IntegrityTracker.FailDeliverable` | backend/src/exportIntegrity.js:305-308 | records a reason for a known request and never a member |
| `Tracker.IntegrityTracker.UnfulfilledRequests` | backend/src/exportIntegrity.js:317-325 | lists, in order, exactly the requests with unregistered members, and those members |
| `Tracker.IntegrityTracker.DrainNext` | backend/src/exportIntegrity.js:163-171 | the archiver writes the next member from memory or from the file as it is now, or skips a file that is gone |
| `Tracker.FulfilledIffNothingMissing` | backend/src/exportIntegrity.js:190-201 | all `fulfilled` flags are true exactly when no request is reported unfulfilled |
| `Tracker.StepFaithful` | backend/src/exportIntegrity.js:204-333 | one event keeps a member's archived and pending bytes in agreement with its checksum |
| `Tracker.RunFaithful` | backend/src/exportIntegrity.js:204-333 | over any interleaving of calls, drains and file changes, archived bytes hash to the recorded checksum; only streamed members need their path left alone until drained |
| `Tracker.RewrittenStreamDiverges` | backend/src/exportIntegrity.js:235-241 | the exclusive-ownership condition is needed: a concrete run that rewrites a streamed path archives other bytes |
| `Tracker.RunAccounted` | backend/src/exportIntegrity.js:161-171 | over any run, every checksummed name is queued, archived or streamed, and only checksummed names are |
| `Tracker.NothingMissingMeansComplete` | backend/src/exportIntegrity.js:286-288 | once drained, nothing is reported missing exactly when the archive holds the checksummed names |
| `Tracker.RunUnique` | backend/src/exportIntegrity.js:204-333 | over runs that register each name once, no name is queued or archived twice |
| `Bundle.ValidateArchiveBuffer` | backend/src/exportIntegrity.js:550-995 | reader, JSON and manifest validator in sequence, each with its own failure |
| `Bundle.ExportIsAccepted` | backend/src/exportIntegrity.js:160-341 | the manifest built after a careful, drained run with nothing missing validates against what was archived |
| `Bundle.ExportImports` | backend/src/exportIntegrity.js:117-983 | end to end: such an export, written as an archive with its manifest last, imports with exactly the archived names and bytes, unless it looks like ZIP64, and then it is refused as that |
| `IpText.AccumulateGroups` | shared/provisioningNetworkGateway.js:102-107 | the value of the groups read as base 65536, or nothing if one is not one to four hex digits |
| `IpText.Ipv6ToBigInt` | shared/provisioningNetworkGateway.js:74-108 | the method computes the parse the spelling theorems are about |
| `IpText.SpellingParses` | shared/provisioningNetworkGateway.js:54-108 | every spelling of an address, with or without `::`, a quad tail, blanks and a zone, parses to its value |
| `IpText.ParsedHasSpelling` | shared/provisioningNetworkGateway.js:74-108 | whatever parses is such a spelling |
| `IpText.ParserIsExact` | shared/provisioningNetworkGateway.js:54-108 | the parser returns a value exactly when the text is a spelling of it |
| `IpText.WordsRoundTrip` | shared/provisioningNetworkGateway.js:102-107 | splitting a value into 16-bit words and accumulating them gives it back |
| `IpText.CanonicalSpelling` | shared/provisioningNetworkGateway.js:74-108 | every 128-bit value has a spelling |
| `IpText.EmptyRunAccepted` | shared/provisioningNetworkGateway.js:93-100 | `::` between eight groups parses as if it were not there |
| `Cidr.ParseIp` | shared/provisioningNetworkGateway.js:124-135 | family and value of an address, IPv4-mapped ones filed under IPv4 |
| `Cidr.ParseCidr` | shared/provisioningNetworkGateway.js:141-154 | the block of a text, or nothing for a bad base or a prefix length out of range |
| `Cidr.BlockIsPrefix` | shared/provisioningNetworkGateway.js:150-153 | an address lies between start and end exactly when it shares the leading bits of the base, as section 3.1 of RFC 4632 means it |
| `Cidr.SharedMeansWithin` | shared/provisioningNetworkGateway.js:150-153 | two blocks with a common address are nested, the longer prefix inside |
| `Cidr.NestedOrApart` | shared/provisioningNetworkGateway.js:141-154 | any two blocks are nested or have no address in common |
| `Cidr.ValidateProvisioningNetworkGateway` | shared/provisioningNetworkGateway.js:184-254 | valid exactly when blank, or an address inside its network, outside its DHCP range and not the cluster's own; otherwise exactly the errors of the defects there are, in order |
| `Cidr.GatewayExact` | shared/provisioningNetworkGateway.js:184-254 | an error is reported exactly when it is deserved: no text, no address, a network of the other family, outside the network, between the two ends of a well-formed DHCP range of its family, or the cluster's own address |
| `Cidr.DhcpExact` | shared/provisioningNetworkGateway.js:225-240 | the range counts only when the text is two addresses of the gateway's family with one comma between them |
| `NoProxy.MatchesEntry` | backend/src/configureFetchProxy.js:102-112 | the counting-down mask loop answers whether lengths match and all masked bytes agree |
| `NoProxy.MaskLoopIsPrefix` | backend/src/configureFetchProxy.js:104-111 | masked bytes agree exactly when the leading bits of the two big-endian values do |
| `NoProxy.MatcherAgreesWithRange` | backend/src/configureFetchProxy.js:99-113 | for equal-length addresses and any prefix, the mask loop is true exactly when the value lies in the big-integer range |
| `NoProxy.IpToBytes` | backend/src/configureFetchProxy.js:54-81 | the bytes of a literal, or none |
| `NoProxy.ParseNoProxyCidrs` | backend/src/configureFetchProxy.js:84-96 | the well-formed CIDR entries of the list, in order |
| `NoProxy.HostInNoProxyCidr` | backend/src/configureFetchProxy.js:99-113 | true exactly when the host is a literal and some entry matches it |
| `NoProxy.LiteralBytes` | backend/src/configureFetchProxy.js:54-81 | for every literal, with or without a zone id, the bytes are the address the matcher reads, most significant first, and there are none exactly when it reads none |
| `NoProxy.MatcherIsNumeric` | backend/src/configureFetchProxy.js:99-113 | from text to verdict, the matcher compares the two addresses it reads, mapped or not, zoned or not |
| `NoProxy.ImplementationsAgree` | backend/src/configureFetchProxy.js:54-113 | for literals that are not IPv4-mapped and are read as they are written, the two modules give one answer, from text to verdict |
| `NoProxy.AsWrittenWhen` | backend/src/configureFetchProxy.js:54-81 | a literal `net.isIP` takes is read as it is written unless a zone id follows `::` or a quad; it is not read at all exactly when refused, or zoned behind `::`, or zoned behind a quad and not compressed |
| `NoProxy.AgreementExact` | shared/provisioningNetworkGateway.js:124-154 | for every literal host and base, mapped or not, zoned or not, accepted by `net.isIP` or not, and every prefix length of the base's family, the two modules give one answer exactly off the listed pairs, told apart by what the matcher reads, which side is mapped, the prefix length, and which address lies in which block |
| `NoProxy.OverlongAgree` | shared/provisioningNetworkGateway.js:147-149 | a prefix longer than the base's family allows is taken by neither |
| `NoProxy.MappedHostDisagrees` | shared/provisioningNetworkGateway.js:130-133 | every mapped host lies in the prefix of all IPv4 addresses for the one module and not for the other |
| `NoProxy.MappedHostInAllSix` | shared/provisioningNetworkGateway.js:130-133 | every mapped host lies in the prefix of all IPv6 addresses for the matcher, if it reads both, and not for the other |
| `NoProxy.MappedBaseDisagrees` | shared/provisioningNetworkGateway.js:141-154 | a mapped base of prefix zero holds every quad for the one module and none for the matcher |
| `NoProxy.MappedPairDisagrees` | shared/provisioningNetworkGateway.js:141-154 | two mapped addresses and a prefix of 33 to 96: inside for the matcher, not a prefix at all for the other |
| `NoProxy.MappedHostInput` | backend/src/configureFetchProxy.js:99-113 | the concrete pair `::ffff:a00:5` and `::/0` |
| `NoProxy.UnreadDisagrees` | backend/src/configureFetchProxy.js:54-81 | a literal that the matcher does not read: with the zero prefix the other module takes in every host of the family |
| `NoProxy.ZonedBaseInput` | backend/src/configureFetchProxy.js:85-96 | the concrete pair `fe80::1` and `fe80::%eth0/64`, neither mapped: no entry for the matcher, inside for the other |
| `NoProxy.PaddedQuadInput` | shared/provisioningNetworkGateway.js:52-71 | the concrete pair `010.0.0.5` and `10.0.0.0/8`: not a literal for the matcher, inside for the other |
| `NoProxy.ZonedQuadInput` | backend/src/configureFetchProxy.js:59-68 | `::1.2.3.4%a` is `::1` for the matcher and `::1.2.3.4` for the other |
| `RateLimiter.Prune` | backend/src/feedbackRateLimit.js:16-20 | drops the leading entries older than the cutoff and no others |
| `RateLimiter.Limiter.Request` | backend/src/feedbackRateLimit.js:31-72 | the verdict and the whole seconds a refused client is told, rounded up over both windows, and the new buckets of one request |
| `RateLimiter.RunKeeps` | backend/src/feedbackRateLimit.js:31-72 | over every run with a forward clock, each bucket holds the admissions not yet out of its window, and admissions are spaced by both limits |
| `RateLimiter.VerdictExact` | backend/src/feedbackRateLimit.js:36-69 | after any run with a forward clock, a request is admitted exactly when fewer admissions of its key than the limit lie within the last window, for each window in force |
| `RateLimiter.WaitExact` | backend/src/feedbackRateLimit.js:50-59 | a refusal's wait is the longer of the two windows' waits: until the oldest admission within a window leaves it, or the whole window if there is none |
| `RateLimiter.AfterExact` | backend/src/feedbackRateLimit.js:32-69 | one request leaves other keys alone, adds a key only if it is admitted, and keeps no hit older than its window |
| `RateLimiter.SlidingWindow` | backend/src/feedbackRateLimit.js:38-69 | no closed interval of a window's length holds more than its limit of admissions of one key, for both windows |
| `RateLimiter.OtherKeysIrrelevant` | backend/src/feedbackRateLimit.js:32-36 | a key's bucket and admissions are those of the run with every other key left out |
| `RateLimiter.RefusalsOnlyPrune` | backend/src/feedbackRateLimit.js:50-65 | refused requests leave nothing behind that a later refresh can see |
| `RateLimiter.RunContinues` | backend/src/feedbackRateLimit.js:31-69 | running on from a run is running the whole |
| `RateLimiter.RetryIsHonest` | backend/src/feedbackRateLimit.js:50-65 | after a refusal, a request strictly later than the wait, with no admission of its key in between, is admitted exactly when the limit is not zero |
| `RateLimiter.ExactRetryDecided` | backend/src/feedbackRateLimit.js:16-65 | a request exactly at the end of the wait in milliseconds is refused again if and only if a full window's own wait is all of it, or the limit is zero |
| `RateLimiter.ToldRetryDecided` | backend/src/feedbackRateLimit.js:50-65 | a request exactly the told seconds later is refused again if and only if, besides, the wait is a whole number of seconds |
| `RateLimiter.ToldRetryInputs` | backend/src/feedbackRateLimit.js:50-65 | one client refused again after the 59 seconds it was told, and one admitted after its 60 |
| `RateLimiter.LooseWaitInput` | backend/src/feedbackRateLimit.js:53-59 | with both windows on, a client admitted at the very end of a wait that a window with room dictates |
| `Feedback.ChallengeStore.Cleanup` | backend/src/feedback.js:34-39 | removes exactly the nonces older than the lifetime |
| `Feedback.ChallengeStore.Verify` | backend/src/feedback.js:232-271 | the verdict on a token, and the map of used nonces after it |
| `Feedback.AcceptedExact` | backend/src/feedback.js:232-271 | a call is accepted if and only if the second `.`-part of its token is the signature of the text its first part decodes to, that text parses, nonce and issue date are set, the call is between dwell and expiry, and the nonce is not remembered |
| `Feedback.RefusedExact` | backend/src/feedback.js:232-271 | every refusal's reason, in the order of the checks |
| `Feedback.AfterExact` | backend/src/feedback.js:34-39 | a genuine token in time cleans the map up and puts its nonce there, with the time of the call if it was new; out of time nothing changes |
| `Feedback.ForgedChangesNothing` | backend/src/feedback.js:232-271 | a token that is not genuine leaves the map as it was |
| `Feedback.RunAccepts` | backend/src/feedback.js:232-271 | in any run, a call is accepted if and only if its token is genuine and in time, and no earlier accepted call spent its nonce so lately that no clean-up since, nor this call's own, has forgotten it |
| `Feedback.UsedIsRemembered` | backend/src/feedback.js:264-268 | a used nonce stays in the map while a token of its issue date could be presented |
| `Feedback.AcceptedAtMostOnce` | backend/src/feedback.js:232-271 | no two calls of a run are accepted for one nonce and issue date, if the clean-up's clock lags the check's by at most the minimum dwell |
| `Feedback.TokenAcceptedAtMostOnce` | backend/src/feedback.js:232-271 | in particular the same token |
| `Feedback.LaggingCleanupReplays` | backend/src/feedback.js:253-268 | for any larger lag, any acceptable token has a run that accepts it twice |
| `Feedback.HeldWasAccepted` | backend/src/feedback.js:264-268 | every entry of the map was put there by an accepted call that no clean-up has outlived |
| `Feedback.AcceptedIsHeld` | backend/src/feedback.js:264-268 | every such call is still in the map, with its time |
| `Feedback.HeldIsRecent` | backend/src/feedback.js:34-39 | after a clean-up the map holds only nonces used within the last lifetime |
| `Feedback.CreatedOpens` | backend/src/feedback.js:216-230 | a created token opens as its nonce and issue date |
| `Feedback.CreatedIsAccepted` | backend/src/feedback.js:216-271 | after any run that has not used its nonce, a created token is accepted exactly between its dwell time and its expiry |
| `BinaryCache.Cache.Write` | backend/src/binaryProvenance.js:90-121 | one uninterrupted write is begin, hash, stage and rename; on any failure the disk is unchanged |
| `BinaryCache.RecordFields` | backend/src/binaryProvenance.js:97-109 | a written record says, field by field, schema 1, the six identity fields, the digest of the bytes, the time, and the URLs that are there |
| `BinaryCache.Cache.Verify` | backend/src/binaryProvenance.js:156-226 | the outcome with the first reason in order, on a disk at rest |
| `BinaryCache.Cache.Discard` | backend/src/binaryProvenance.js:236-239 | two removals, each of which may fail unnoticed |
| `BinaryCache.IdentityComplete` | backend/src/binaryProvenance.js:91-95 | a write goes ahead exactly when tool, version, platform, arch, variant and tarballSha256 are all there and not blank |
| `BinaryCache.WriterTrace` | backend/src/binaryProvenance.js:97-114 | in any run, a staged digest is what the executable hashed to at an earlier step of the same write |
| `BinaryCache.RecordTrace` | backend/src/binaryProvenance.js:111-120 | in any run, whatever damage does, a record in place is the whole record of a completed write, or what damage or the start left, and has been in place ever since |
| `BinaryCache.NeverTorn` | backend/src/binaryProvenance.js:82-89 | with crashes between any steps, an undamaged record file is missing or one whole record |
| `BinaryCache.CrashedIsOver` | backend/src/binaryProvenance.js:82-121 | a crash changes nothing on the disk, and the writes it interrupts are gone until they begin anew |
| `BinaryCache.UsableExact` | backend/src/binaryProvenance.js:156-226 | usable exactly when a regular file's record parses to an object with schema version 1, the six identity fields, none of them other than wanted, and, as 64 hex digits, the digest of the bytes read |
| `BinaryCache.RefusedExact` | backend/src/binaryProvenance.js:156-226 | the reason of every refusal, in order: absent, not a regular file, no or unreadable record, schema, the first missing field, all differing fields in order, digest; a throw when the bytes cannot be read |
| `BinaryCache.UsableIsTraced` | backend/src/binaryProvenance.js:90-239 | over every run, any damage, and however the disk changes between the verifier's looks: usable means the bytes just read hash to the digest of a complete record that agrees with every field asked for, put there by a completed write of this path, by damage or by the start; if by a write, it hashed the path to that digest for that identity |
| `BinaryCache.UsableIsRecorded` | backend/src/binaryProvenance.js:90-239 | unless damage or the start left a complete record, usable means a completed write hashed this path to the digest of the bytes just read, for an identity matching every field asked for |
| `BinaryCache.UsableIsUnchanged` | backend/src/binaryProvenance.js:213-225 | then the bytes read last are the ones that write read, if no earlier contents of the path collide with them, at any four moments of the verifier's looks |
| `BinaryCache.RewrittenIdentityIsUsable` | backend/src/binaryProvenance.js:156-226 | that condition is needed: after a write for one identity, damage that rewrites the record for another makes the bytes usable for it, which no write was for |
| `BinaryCache.WriteThenUsable` | backend/src/binaryProvenance.js:90-226 | a completed write makes a regular file usable for its identity |
| `BinaryCache.HalfDiscardRefused` | backend/src/binaryProvenance.js:228-239 | once either removal has worked the cache is refused, with the reason that half gives |
| `ProvisioningFamily.SelectedProvisioningFamily` | shared/provisioningNetworkFamily.js:210-214 | the stored family, else the CIDR's, else IPv4 |
| `ProvisioningFamily.SelectedExact` | shared/provisioningNetworkFamily.js:210-214 | the stored family if it is one of the two, else the one the stored CIDR reads as, else IPv4 |
| `ProvisioningFamily.SwitchProvisioningFamily` | shared/provisioningNetworkFamily.js:239-260 | the patch of a switch, or nothing for an unknown family or the current one |
| `ProvisioningFamily.SwitchRefines` | shared/provisioningNetworkFamily.js:239-260 | from any state, a switch selects the other slot and changes the contents of neither |
| `ProvisioningFamily.SwitchLeavesOthers` | shared/provisioningNetworkFamily.js:185-197 | fields not bound to a family survive a switch untouched |
| `ProvisioningFamily.SwitchByName` | shared/provisioningNetworkFamily.js:239-260 | a switch stores the choice, parks the five named fields in the old family's draft and takes them from the new family's, blank where there is nothing |
| `ProvisioningFamily.EditRefines` | shared/provisioningNetworkFamily.js:202-214 | with a stored family, editing any field edits the selected slot only |
| `ProvisioningFamily.RunRefinesStore` | shared/provisioningNetworkFamily.js:191-260 | every run of edits and switches keeps the live fields equal to the selected slot and the draft to the other |
| `ProvisioningFamily.SwitchBackRestores` | shared/provisioningNetworkFamily.js:239-260 | away and back restores the five fields, null and missing as blank, and leaves the rest |
| `StateSanitizer.SanitizedIsClean` | shared/stateSanitizer.js:65-117 | no sensitive key remains at any depth |
| `StateSanitizer.SecretsDoNotMatter` | shared/stateSanitizer.js:65-117 | the result is the same whatever stands under sensitive keys, or whether they are there |
| `StateSanitizer.PathView` | shared/stateSanitizer.js:65-117 | path by path: nothing under a sensitive key, the sanitized original everywhere else |
| `StateSanitizer.SanitizedByName` | shared/stateSanitizer.js:65-117 | path by path: nothing under a key that is, up to case, one of the twenty-six words, and the sanitized original everywhere else |
| `StateSanitizer.FixedIffClean` | shared/stateSanitizer.js:65-117 | a tree is left as it is exactly when it has no sensitive key |
| `StateSanitizer.SanitizeTwice` | shared/stateSanitizer.js:65-117 | sanitizing is idempotent |
| `StateSanitizer.UpdatedAt` | shared/stateSanitizer.js:133-225 | one listed deletion or rewrite, path by path: the value there is gone, or has the rest of the route done to it, or is left alone |
| `StateSanitizer.UpdatedAllAt` | shared/stateSanitizer.js:133-225 | all listed deletions and rewrites in order, path by path |
| `StateSanitizer.OffRoutes` | shared/stateSanitizer.js:133-225 | a value that no route reaches is left as it was |
| `StateSanitizer.PersistedView` | shared/stateSanitizer.js:127-230 | for every path of what is stored: nothing under a sensitive key or where a listed deletion leads; elsewhere the value with the rest of each listed route done to it, sanitized |
| `StateSanitizer.ClearedIsGone` | shared/stateSanitizer.js:127-230 | nothing stored stands at any of the cleared places, each named by its path, inside lists too |
| `StateSanitizer.PersistedWhen` | shared/stateSanitizer.js:127-145 | a state is refused only for a blueprint or credentials that are a truthy text, number or flag |
| `StateSanitizer.ProxyRewritten` | shared/stateSanitizer.js:208-217 | where a proxy URL stood, its rewritten form stands |
| `InterfaceNaming.ResolveBase` | shared/interfaceNaming.js:87-93 | the base name is trimmed |
| `InterfaceNaming.ResolveVlan` | shared/interfaceNaming.js:104-110 | the VLAN name is trimmed, also when composed |
| `InterfaceNaming.ResolveEffective` | shared/interfaceNaming.js:125-130 | the effective name is trimmed |
| `NmState.Builder.AddGatewayRoutes` | backend/src/generate.js:1706-1721 | the default routes, by family, of a static primary row |
| `NmState.Builder.AddIpConfig` | backend/src/generate.js:1621-1697 | addresses of the interface just added, the families recorded for it, and the error of a static primary without any |
| `NmState.Builder.AddBondMemberEthernets` | backend/src/generate.js:1878-1884 | one ethernet per named member, in order |
| `NmState.Builder.AddBond` | backend/src/generate.js:1851-1867 | the bond with its default name and mode and its non-empty ports |
| `NmState.Builder.AddVlan` | backend/src/generate.js:1899-1913 | the VLAN named and based by the shared naming rules |
| `NmState.Builder.AddLinks` | backend/src/generate.js:1919-1941 | all links of a row of any of the four types, its carrier last and addressed |
| `NmState.Builder.AddVrfInterface` | backend/src/generate.js:1943-1969 | the VRF with its ports, or the error of a blank name or a bad table |
| `NmState.Builder.AddExtraRoutes` | backend/src/generate.js:1760-1780 | queues exactly the complete entries, with their family and next-hop interface; `NmState.ExtraRouteExact` says on the entry's text which family that is |
| `NmState.Builder.FlushExtraRoutes` | backend/src/generate.js:1790-1803 | emits the queued routes whose family is not known to be off on their next-hop interface |
| `NmState.Builder.CheckNames` | backend/src/generate.js:2049-2059 | the first blank or repeated name |
| `NmState.AddRow` | backend/src/generate.js:1993-2045 | links, VRF and queued routes of one row, or its first error |
| `NmState.BuildNmState` | backend/src/generate.js:1557-2062 | the document, or the first error, of the row-by-row description, which the `NmDocument` rows spell out |
| `NmState.NameErrorExact` | backend/src/generate.js:2049-2059 | the name check passes exactly when trimmed names are non-empty and distinct |
| `NmState.BuiltExact` | backend/src/generate.js:1557-2062 | a document is built exactly when no row is in error and names are in order, and then its names are distinct |
| `NmState.KnownIsCarried` | backend/src/generate.js:1691-1696 | what the families map says of a name is what the one addressed interface of that name says |
| `NmState.VlanSitsOnBase` | backend/src/generate.js:1886-1913 | every VLAN interface of a document is the carrier of a VLAN row, directly follows a named link, and sits on it unless its row names another base |
| `NmState.VlanRowInPlace` | backend/src/generate.js:1886-1913 | conversely every VLAN row has its VLAN there, on that base |
| `NmState.PortsAreMembers` | backend/src/generate.js:1859-1884 | a bond's ports are its emitted members exactly when no member name has a blank at an end |
| `NmState.BondPortsInPlace` | backend/src/generate.js:1851-1884 | in the document, the ports name the interfaces just before the bond under the same condition |
| `NmState.PortNamesInterface` | backend/src/generate.js:1851-1884 | in every built document a port of a bond names an interface of the document exactly when it has no blank at an end |
| `NmState.ExtraRouteExact` | backend/src/generate.js:1745-1803 | an extra route of any row, with destination, next hop and interface, is emitted as these three texts exactly when no addressed interface of that name has off IPv6 (a destination with a colon), IPv4 (one with a dot instead), or else the next hop's family |
| `NmState.ExtraRoutesAreAuthored` | backend/src/generate.js:1760-1803 | every other emitted route is some row's entry with destination, next hop and interface all there, as these three texts |
| `NmState.NamingAgreement` | backend/src/generate.js:2064-2081 | the primary's next hop is the interface that got its addresses: always for VLAN rows, otherwise exactly when the name has no outer blank and the VLAN base is blank or equal to it |
| `NmState.StaleBaseDangles` | backend/src/generate.js:2075-2081 | a concrete ethernet row with a leftover base sends its default route out of an interface that is not there |
| `NmState.StaticPrimaryAddressed` | backend/src/generate.js:1645-1689 | a static primary row has an enabled family in every built document |
| `NmState.UnnamedRowsIrrelevant` | backend/src/generate.js:1973-1995 | additional rows without a name change neither error nor document |
| `NmDocument.RowTaken` | backend/src/generate.js:1973-1995 | one more additional row is one more row of the document, unless it does not name its device |
| `NmDocument.AdditionalPlaced` | backend/src/generate.js:1993-2045 | rows other than the first are addressed as they ask and attach to the name their links are known by |
| `NmDocument.RowAddresses` | backend/src/generate.js:1621-1664 | the addresses of every row: IPv4 off outside an IPv4 or dual stack, by DHCP, or what the CIDR gives; IPv6 off outside an IPv6 or dual stack, or what its CIDR gives |
| `NmDocument.LinksExact` | backend/src/generate.js:1851-1941 | the interfaces of a row of any type, in order: members, bond with ports, mode and default name, VLAN with its base, id and name |
| `NmDocument.MemberAdded` | backend/src/generate.js:1859-1884 | one more bond member is one more ethernet under its trimmed name, unless that is empty, and one more port, unless it is empty |
| `NmDocument.EntryAdded` | backend/src/generate.js:1955-1962 | one more comma-separated VRF port is its trimmed text, unless that is empty |
| `NmDocument.LogicalName` | backend/src/generate.js:1993-2045 | what a row's VRF and routes attach to |
| `NmDocument.VrfExact` | backend/src/generate.js:1943-1969 | a row's block ends with its VRF, by name, table and ports, if that is on and the row has a name to attach it to, else with its carrier |
| `NmDocument.GatewaysExact` | backend/src/generate.js:1706-1721 | default routes come first, IPv4 then IPv6, each for a static primary with a gateway in a stack of that family |
| `NmDocument.RowErrorExact` | backend/src/generate.js:1675-1689 | a row's own error: a static primary without any address, else a VRF without a name or a whole-number table |
| `NmDocument.ErrorExact` | backend/src/generate.js:1557-2062 | what is reported: the first row's error, and only without any the first blank or repeated name |
| `ImageSetParse.Counter.Count` | backend/src/imagesetConfigValidator.js:189-197 | counts exactly up to the limit, and never beyond one more |
| `ImageSetParse.TooManyNodes` | backend/src/imagesetConfigValidator.js:189-198 | refused exactly when the whole tree has more than 20000 values, despite the early exits |
| `ImageSetValidator.BuildChildIndex` | backend/src/imagesetConfigValidator.js:252-262 | for every path, the map from lower-case keys to documented keys of its children |
| `ImageSetValidator.ChildIsField` | backend/src/imagesetConfigValidator.js:249-262 | every documented key it offers is a field of the schema, found under its own lower case |
| `ImageSetValidator.Walker.Walk` | backend/src/imagesetConfigValidator.js:311-418 | value, errors and warnings of the walk, appended to what was found before |
| `ImageSetValidator.Walker.WalkObject` | backend/src/imagesetConfigValidator.js:320-373 | members in order: unknown, repeated, misspelt, null and kept ones, then missing required fields |
| `ImageSetValidator.Walker.Meet` | backend/src/imagesetConfigValidator.js:323-355 | the findings of one member before its value is walked, and whether it is |
| `ImageSetValidator.Walker.CheckString` | backend/src/imagesetConfigValidator.js:282-309 | the findings of one text value, in order |
| `ImageSetValidator.Walker.CheckSemantics` | backend/src/imagesetConfigValidator.js:430-480 | the whole-document findings, in order |
| `ImageSetValidator.ValidateImageSetConfigDocument` | backend/src/imagesetConfigValidator.js:274-427 | the report of a document |
| `ImageSetValidator.CanonicalFixed` | backend/src/imagesetConfigValidator.js:325-346 | a documented key is read as itself and is a schema field |
| `ImageSetValidator.WalkUnchanged` | backend/src/imagesetConfigValidator.js:311-418 | a document of documented keys, each once, without nulls and with the right kinds of value is its own normalised form |
| `ImageSetValidator.WalkStructural` | backend/src/imagesetConfigValidator.js:311-418 | the walk never reports duplicates, mixed filters or an empty mirror; those come from the whole-document rules only |
| `ImageSetValidator.WalkAgain` | backend/src/imagesetConfigValidator.js:311-418 | the value of a clean walk walks to itself without error |
| `ImageSetValidator.NormalizedIsFixed` | backend/src/imagesetConfigValidator.js:266-427 | for every well-formed schema, the normalised form of a valid document is valid, normalises to itself, and repeats exactly the warnings not about key case or nulls |
| `ImageSetFindings.ReadAsExact` | backend/src/imagesetConfigValidator.js:252-262 | a key is read as the last field of its parent with the same lower case |
| `ImageSetFindings.WalkExact` | backend/src/imagesetConfigValidator.js:282-418 | for every well-formed schema, value and path: an error or a warning is reported exactly when it is one of the value's, said by recursion on the document: wrong types, unknown, repeated, misspelt and null keys, missing required fields, each rule on texts, numbers and list items, with path, code and authority |
| `ImageSetFindings.RequiredExact` | backend/src/imagesetConfigValidator.js:356-372 | a required field is reported missing exactly when no member read as it gives it a value, with the authority that depends on whether it was written |
| `ImageSetFindings.WalkNormalises` | backend/src/imagesetConfigValidator.js:311-418 | each field of the normalised value is the normalised value of the first member read as it, and there is no other field |
| `ImageSetFindings.SemanticExact` | backend/src/imagesetConfigValidator.js:430-480 | the whole-document rules report exactly: nothing listed to mirror, a release channel, package or channel named before, a catalog and target given before, and a filtered channel in a filtered package |
| `ImageSetFindings.ReportExact` | backend/src/imagesetConfigValidator.js:274-427 | a report's errors, warnings and normalised document are exactly these |
| `ImageSetGenerator.GroupByCatalog` | backend/src/generate.js:2216-2241 | catalogs in order of first appearance, each with its packages |
| `ImageSetGenerator.BuildImageSetConfig` | backend/src/generate.js:2146-2246 | the document of a request, or the first guard that throws: no content group, an unsupported platform minor, an architecture not offered, an unsupported catalog minor |
| `ImageSetGenerator.GeneratedWhen` | backend/src/generate.js:2154-2179 | a document is written exactly for some content group, a supported minor and offered architecture if the platform is included, and a supported minor for the catalogs if operators are |
| `ImageSetGenerator.SelectionConserved` | backend/src/generate.js:2216-2244 | each package is listed under each catalog as often as it was selected there, each catalog once |
| `ImageSetGenerator.OrderKept` | backend/src/generate.js:2216-2241 | a catalog's packages are all its eligible operators, in order of selection |
| `ImageSetGenerator.GeneratedSatisfiesValidator` | backend/src/imagesetConfigValidator.js:448-479 | on a generated document the whole-document rules report a duplicate exactly when one catalog was asked for one name twice, and never mixed version filters |
| `ImageSetGenerator.GeneratedDocumented` | backend/src/generate.js:2193-2244 | under a schema that knows the generator's keys and types, a generated document uses documented keys only, each once and of the right kind |
| `ImageSetGenerator.GeneratedIsNormal` | backend/src/imagesetConfigValidator.js:274-427 | under such a schema the whole validator leaves the generated document as it is, reports a duplicate exactly when a (catalog, name) pair repeats, and never mixed version filters |
| `ImageSetDocument.TagExact` | backend/src/generate.js:2216-2224 | the version tag found in a catalog reference is the first `:v`, number, dot, number that no digit follows |
| `ImageSetDocument.EntryExact` | backend/src/generate.js:2216-2244 | each operator entry is one catalog, and its packages, with name, channel and version bounds, are in order exactly the selected operators of that catalog with a channel and no tag but the wanted version |
| `ImageSetDocument.EntryForEach` | backend/src/generate.js:2216-2244 | and every such operator's catalog has an entry |
| `ImageSetDocument.DocumentFields` | backend/src/generate.js:2181-2246 | every other field of a generated document, by its path |
| `ImageSetDocument.PlatformFields` | backend/src/generate.js:2193-2210 | the stable channel of the minor, bounded to the version on both sides, the architecture, and what is switched on |
| `ImageSetDocument.RefusedExact` | backend/src/generate.js:2154-2179 | the first guard that throws, in order, on the request's own fields |

## Left out

- `ZipRoundTrip.RoundTrip`: written archives have no comment, no extra fields and no directory entries; the reader handles all of them and `ZipExact.ReaderExact` covers them.
- `ZipReader.ReadArchive`: an input that is not a Buffer is not modelled; entries are a map, so JavaScript's prototype keys are not.
- `Manifest.ValidateArchiveManifest`: error details and message text; only the code of each refusal is kept.
- `Tracker.IntegrityTracker.File`: file modes are not archived; reads see the file at one moment.
- `Tracker.IntegrityTracker.Directory`: the recursive directory walk is given as its listing of names and paths.
- `Tracker.IntegrityTracker.DrainNext`: the archiver is a queue emptied one member at a time; its compression is the round trip's concern.
- `NoProxy.AgreementExact`: a zone id with a colon in it or with a dotted quad at its end, which the expression of `net.isIP` lets through; the matcher would read parts of it as groups.
- `NoProxy.IpToBytes`: for the same reason `parseInt` has no signs and no `0x`, and an octet read from a literal is below 256.
- `RateLimiter.Limiter.Request`: a bucket belongs to its map entry, so two entries never share one array; of the response only the seconds it reports are kept.
- `RateLimiter.RetryIsHonest`: admission times are positive, as `Date.now()` gives them; a zero would read as no hit at all in `|| current`.
- `Feedback.ChallengeStore.Verify`: a signed payload has a text nonce and an integer issue date, as `createChallengeToken` writes it; forged payloads of other shapes need the secret.
- `BinaryCache.Cache.Verify`: messages and the returned record; each look at the disk sees one moment, and the four looks may see different ones in `UsableIsRecorded`.
- `ProvisioningFamily.SwitchProvisioningFamily`: a stored draft collection that is text or a list spreads to index keys in JavaScript and to nothing here.
- `StateSanitizer.PersistedView`: the deletions on the private clone are applied as values in sequence, the state is a tree of JSON values, and spreading a list or text entry of `vcenters` or `nodes` gives nothing here instead of index keys; the rewriting of proxy URLs is a parameter.
- `NmState.BuildNmState`: MTU, SR-IOV, DNS and the numeric conversion of prefix lengths, VLAN ids and table ids; missing fields read as blank text, and `null` entries of lists do not occur.
- `ImageSetValidator.ValidateImageSetConfigDocument`: messages and the hint about a rejected path; the text-level rules (semantic versions, image references, URLs, credentials) are parameters.
- `ImageSetGenerator.BuildImageSetConfig`: how the state resolves to a minor, the support matrix behind the architecture guard, and the YAML text.
- `ImageSetGenerator.GeneratedIsNormal`: the text-level rules on versions and image references are parameters, so nothing is said of their findings; the YAML text between generator and validator is taken to read back as the document.
- The size, encoding, alias and depth bounds of `parseImageSetConfigText`: js-yaml decides most of them.
- `buildInstallConfig` and the field manual: long field-by-field copying with few invariants across functions.
- `sortNodes`: its comparator mixes numeric suffixes with locale order and is not transitive; nodes are taken as given.
- `validateProvisioningNetworkFamily`: independent field checks that would only add easy members.
- HTTP, SQLite, subprocess, registry and fetch code, and the user interface.
