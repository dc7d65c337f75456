/**
 What a generated image-set configuration says, field by field, and which operators are in it, read off the catalog
 references themselves.
 */
module ImageSetDocument {
  import opened Wrappers
  import opened Text
  import opened OrderedMap
  import opened JsonValue
  import opened ImageSetGenerator

  // ----- the version tag of a catalog reference

  predicate Number(s: string) { s != "" && forall c <- s :: '0' <= c <= '9' }

  /** `:v`, two numbers with a dot between them, and no further digit. */
  ghost predicate TagAt(s: string, i: nat, tag: string) {
    && i + 2 + |tag| <= |s| && s[i] == ':' && s[i + 1] == 'v' && s[i + 2..i + 2 + |tag|] == tag
    && (exists major, minor :: tag == major + "." + minor && Number(major) && Number(minor))
    && (i + 2 + |tag| < |s| ==> !('0' <= s[i + 2 + |tag|] <= '9'))
  }

  /** The tag that comes first. */
  ghost predicate FirstTag(s: string, tag: string) {
    exists i: nat :: TagAt(s, i, tag) && forall j: nat, other :: j < i ==> !TagAt(s, j, other)
  }

  lemma {:induction false} DigitsExact(s: string)
    ensures forall i :: 0 <= i < Digits(s) ==> '0' <= s[i] <= '9'
    ensures Digits(s) < |s| ==> !('0' <= s[Digits(s)] <= '9')
  {
    if s != "" && IsDigit(s[0]) {
      DigitsExact(s[1..]);
    }
  }

  /** A number followed by something else is as long as the digits it starts with. */
  lemma NumberDigits(s: string, n: nat)
    requires n <= |s| && (forall i :: 0 <= i < n ==> '0' <= s[i] <= '9') && (n < |s| ==> !('0' <= s[n] <= '9'))
    ensures Digits(s) == n
  {
    DigitsExact(s);
  }

  lemma DigitsAreNumber(s: string)
    requires Digits(s) > 0
    ensures Number(s[..Digits(s)]) && (Digits(s) < |s| ==> !('0' <= s[Digits(s)] <= '9'))
  {
    DigitsExact(s);
    assert forall i :: 0 <= i < Digits(s) ==> s[..Digits(s)][i] == s[i];
  }

  lemma TagIsHere(s: string)
    requires TagHere(s).Some?
    ensures TagAt(s, 0, TagHere(s).value)
  {
    hide Digits, Number;
    var major := Digits(s[2..]);
    var rest := s[2 + major..];
    var minor := Digits(rest[1..]);
    DigitsAreNumber(s[2..]);
    DigitsAreNumber(rest[1..]);
    var a, b := s[2..][..major], rest[1..][..minor];
    TagSpelled(s, major, minor);
    assert a == s[2..2 + major] && b == s[3 + major..3 + major + minor];
    assert 3 + major + minor < |s| ==> s[3 + major + minor] == rest[1..][minor];
  }

  /** A tag is its major number, a dot and its minor number. */
  lemma TagSpelled(s: string, major: nat, minor: nat)
    requires 3 + major + minor <= |s| && s[2 + major] == '.'
    ensures s[2..2 + major + 1 + minor] == s[2..2 + major] + "." + s[3 + major..3 + major + minor]
  {
  }

  lemma HereIsTag(s: string, tag: string)
    requires TagAt(s, 0, tag)
    ensures TagHere(s) == Some(tag)
  {
    hide Digits;
    var a, b :| tag == a + "." + b && Number(a) && Number(b);
    assert forall i :: 0 <= i < |tag| ==> s[2 + i] == tag[i];
    forall i | 0 <= i < |a| ensures '0' <= s[2..][i] <= '9' {
      assert s[2..][i] == tag[i] == a[i] && a[i] in a;
    }
    assert s[2..][|a|] == tag[|a|] == '.';
    NumberDigits(s[2..], |a|);
    var rest := s[2 + |a|..];
    assert rest[0] == '.';
    forall i | 0 <= i < |b| ensures '0' <= rest[1..][i] <= '9' {
      assert rest[1..][i] == s[2 + (|a| + 1 + i)] == tag[|a| + 1 + i] == b[i];
      assert b[i] in b;
    }
    assert |b| < |rest[1..]| ==> rest[1..][|b|] == s[2 + |tag|];
    NumberDigits(rest[1..], |b|);
  }

  lemma TagLater(s: string, i: nat, tag: string)
    requires s != ""
    ensures TagAt(s, i + 1, tag) <==> TagAt(s[1..], i, tag)
  {
    if i + 3 + |tag| <= |s| {
      assert s[1..][i + 2..i + 2 + |tag|] == s[i + 3..i + 3 + |tag|];
    }
  }

  /** The tag found is the first there is. */
  lemma {:induction false} TagExact(s: string)
    ensures match CatalogTag(s)
            case None => forall i: nat, tag :: !TagAt(s, i, tag)
            case Some(tag) => FirstTag(s, tag)
  {
    hide TagAt, TagHere;
    if s == "" {
      NoTagInNothing();
    } else {
      if TagHere(s).Some? {
        TagIsHere(s);
      } else {
        forall tag ensures !TagAt(s, 0, tag) {
          if TagAt(s, 0, tag) { HereIsTag(s, tag); }
        }
        TagExact(s[1..]);
        forall i: nat, tag ensures TagAt(s, i + 1, tag) <==> TagAt(s[1..], i, tag) {
          TagLater(s, i, tag);
        }
        forall j: nat, other | j > 0 && TagAt(s, j, other) ensures TagAt(s[1..], j - 1, other) {
          TagLater(s, j - 1, other);
        }
        if CatalogTag(s[1..]).Some? {
          var tag := CatalogTag(s[1..]).value;
          var i: nat :| TagAt(s[1..], i, tag) && forall j: nat, other :: j < i ==> !TagAt(s[1..], j, other);
          assert TagAt(s, i + 1, tag);
        }
      }
    }
  }

  lemma NoTagInNothing()
    ensures forall i: nat, tag :: !TagAt("", i, tag)
  {
  }

  lemma FirstTagUnique(s: string, a: string, b: string)
    requires FirstTag(s, a) && FirstTag(s, b)
    ensures a == b
  {
    hide TagAt;
    var i: nat :| TagAt(s, i, a) && forall j: nat, other :: j < i ==> !TagAt(s, j, other);
    var j: nat :| TagAt(s, j, b) && forall k: nat, other :: k < j ==> !TagAt(s, k, other);
    assert i == j;
    TagHereUnique(s, i, a, b);
  }

  lemma {:induction false} TagHereUnique(s: string, i: nat, a: string, b: string)
    requires TagAt(s, i, a) && TagAt(s, i, b)
    ensures a == b
    decreases i
  {
    if i == 0 {
      HereIsTag(s, a);
      HereIsTag(s, b);
    } else {
      TagLater(s, i - 1, a);
      TagLater(s, i - 1, b);
      TagHereUnique(s[1..], i - 1, a, b);
    }
  }

  /** An operator goes into the document if it has a catalog and a channel, and no version tag but the wanted one. */
  ghost predicate Fits(op: Operator, minor: string) {
    && op.catalogImage != "" && op.defaultChannel != ""
    && forall tag :: FirstTag(op.catalogImage, tag) ==> tag == minor
  }

  lemma EligibleExact(op: Operator, minor: string)
    ensures Eligible(op, minor) <==> Fits(op, minor)
  {
    hide FirstTag, TagAt;
    TagExact(op.catalogImage);
    if CatalogTag(op.catalogImage).Some? {
      forall tag | FirstTag(op.catalogImage, tag) ensures CatalogTag(op.catalogImage) == Some(tag) {
        FirstTagUnique(op.catalogImage, tag, CatalogTag(op.catalogImage).value);
      }
    } else {
      NoTagNoFirst(op.catalogImage);
    }
  }

  lemma NoTagNoFirst(s: string)
    requires forall i: nat, tag :: !TagAt(s, i, tag)
    ensures forall tag :: !FirstTag(s, tag)
  {
    hide TagAt;
  }

  // ----- operators in the document

  /** A package entry with this operator's name, channel and version bounds. */
  ghost predicate Describes(v: Json, op: Operator) {
    && Prop(Some(v), "name") == Some(Str(op.name))
    && exists channel ::
         && Prop(Some(v), "channels") == Some(Arr([channel]))
         && Prop(Some(channel), "name") == Some(Str(op.defaultChannel))
         && Prop(Some(channel), "minVersion") == (if op.minVersion == "" then None else Some(Str(op.minVersion)))
         && Prop(Some(channel), "maxVersion") == (if op.maxVersion == "" then None else Some(Str(op.maxVersion)))
  }

  lemma PackageDescribes(op: Operator)
    ensures Describes(PackageJson(PackageOf(op)), op)
  {
    hide Lookup;
    var p := PackageOf(op);
    var channel := ChannelJson(p);
    TwoFields("name", Str(p.name), "channels", Arr([channel]), "name");
    TwoFields("name", Str(p.name), "channels", Arr([channel]), "channels");
    ChannelLookup(p, "name");
    ChannelLookup(p, "minVersion");
    ChannelLookup(p, "maxVersion");
  }

  lemma ChannelLookup(p: Package, key: string)
    ensures Prop(Some(ChannelJson(p)), key)
         == if key == "name" then Some(Str(p.channel))
            else if key == "minVersion" && p.minVersion != "" then Some(Str(p.minVersion))
            else if key == "maxVersion" && p.maxVersion != "" then Some(Str(p.maxVersion)) else None
  {
    hide Lookup;
    var a: Assoc<Json> := [("name", Str(p.channel))];
    LookupConcat(a + WhenText("minVersion", p.minVersion), WhenText("maxVersion", p.maxVersion), key);
    LookupConcat(a, WhenText("minVersion", p.minVersion), key);
    NoField(key);
    OneField("name", Str(p.channel), key);
    OneField("minVersion", Str(p.minVersion), key);
    OneField("maxVersion", Str(p.maxVersion), key);
  }

  /** A catalog with its packages. */
  ghost predicate Catalog(v: Json, catalog: string, packages: seq<Json>) {
    Prop(Some(v), "catalog") == Some(Str(catalog)) && Prop(Some(v), "packages") == Some(Arr(packages))
  }

  /** The operators asked for, in order: none if a content choice leaves them out. */
  function Selected(r: Request): seq<Operator> {
    if r.content.None? || r.content.value.operators then r.operators else []
  }

  /** The version their catalogs must have: a profile's own choice, else the platform's. */
  function Wanted(r: Request): string {
    if r.content.Some? && r.chosenCatalogMinor.Some? then r.chosenCatalogMinor.value
    else if r.minor.Some? then r.minor.value
    else ""
  }

  lemma ChosenExact(r: Request)
    ensures ChosenOperators(r) == Selected(r)
    ensures forall i :: 0 <= i < |Selected(r)| ==>
              (Eligible(Selected(r)[i], r.CatalogMinor()) <==> Fits(Selected(r)[i], Wanted(r)))
  {
    hide Fits, Eligible;
    forall i | 0 <= i < |Selected(r)|
      ensures Eligible(Selected(r)[i], r.CatalogMinor()) <==> Fits(Selected(r)[i], Wanted(r))
    {
      EligibleExact(Selected(r)[i], Wanted(r));
    }
  }

  /**
   Every entry of the document is one catalog, and its packages are, in order of selection, exactly the fitting
   operators of that catalog.
   */
  lemma EntryExact(r: Request, c: nat) returns (catalog: string, packages: seq<Json>, from: seq<nat>)
    requires c < |OperatorEntries(r)|
    ensures Catalog(OperatorEntries(r)[c], catalog, packages) && |from| == |packages| > 0
    ensures forall a, b :: 0 <= a < b < |from| ==> from[a] < from[b]
    ensures forall a :: 0 <= a < |from| ==>
              && from[a] < |Selected(r)| && Describes(packages[a], Selected(r)[from[a]])
              && Selected(r)[from[a]].catalogImage == catalog && Fits(Selected(r)[from[a]], Wanted(r))
    ensures forall i :: 0 <= i < |Selected(r)| ==>
              Selected(r)[i].catalogImage == catalog && Fits(Selected(r)[i], Wanted(r)) ==> i in from
  {
    hide Lookup, Eligible, PackagesOf, Catalogs, PackageOf, PackageJson, Describes, Fits, Selected;
    ChosenExact(r);
    var ops, minor := ChosenOperators(r), r.CatalogMinor();
    var group := Grouped(ops, minor, |ops|)[c];
    catalog := group.0;
    packages := PackagesJson(group.1);
    var v := Arr(packages);
    TwoFields("catalog", Str(catalog), "packages", v, "catalog");
    TwoFields("catalog", Str(catalog), "packages", v, "packages");
    from := OrderKept(ops, minor, |ops|, catalog);
    ListedIffPackages(ops, minor, |ops|, catalog);
    forall a | 0 <= a < |from| ensures Describes(packages[a], ops[from[a]]) {
      PackageDescribes(ops[from[a]]);
    }
  }

  /** And every fitting operator's catalog has an entry. */
  lemma EntryForEach(r: Request, i: nat) returns (c: nat)
    requires i < |Selected(r)| && Fits(Selected(r)[i], Wanted(r))
    ensures c < |OperatorEntries(r)|
    ensures Prop(Some(OperatorEntries(r)[c]), "catalog") == Some(Str(Selected(r)[i].catalogImage))
  {
    hide Lookup, Eligible, PackagesOf, Catalogs, PackageOf, PackageJson, Fits, Selected;
    ChosenExact(r);
    var ops, minor := ChosenOperators(r), r.CatalogMinor();
    var catalog := ops[i].catalogImage;
    var from := OrderKept(ops, minor, |ops|, catalog);
    assert i in from;
    ListedIffPackages(ops, minor, |ops|, catalog);
    c :| 0 <= c < |Catalogs(ops, minor, |ops|)| && Catalogs(ops, minor, |ops|)[c] == catalog;
    var packages := Arr(PackagesJson(PackagesOf(ops, minor, |ops|, catalog)));
    TwoFields("catalog", Str(catalog), "packages", packages, "catalog");
  }

  // ----- the rest of the document

  /** Every other field of a generated document, by its path. */
  lemma DocumentFields(r: Request)
    ensures var doc := Some(DocumentOf(r, OperatorEntries(r)));
            var mirror := Prop(doc, "mirror");
            var all := r.content.None?;
            && Prop(doc, "apiVersion") == Some(Str("mirror.openshift.io/v2alpha1"))
            && Prop(doc, "kind") == Some(Str("ImageSetConfiguration"))
            && Prop(doc, "archiveSize") == (match r.archiveSize case None => None case Some(n) => Some(Num(n)))
            && Prop(mirror, "platform")
              == (if all || r.content.value.platform then Some(PlatformJson(r)) else None)
            && Prop(mirror, "operators")
              == (if all || r.content.value.operators then Some(Arr(OperatorEntries(r))) else None)
            && Prop(mirror, "additionalImages")
              == (if (all || r.content.value.additionalImages) && r.additionalImages != []
                  then Some(Arr(ImagesJson(r.additionalImages))) else None)
  {
    hide Lookup, MirrorFields, OperatorEntries, PlatformJson, ImagesJson;
    var entries := OperatorEntries(r);
    DocumentLookup(r, entries, "apiVersion");
    DocumentLookup(r, entries, "kind");
    DocumentLookup(r, entries, "archiveSize");
    DocumentLookup(r, entries, "mirror");
    MirrorLookup(r, entries, "platform");
    MirrorLookup(r, entries, "operators");
    MirrorLookup(r, entries, "additionalImages");
  }

  lemma DocumentLookup(r: Request, operators: seq<Json>, key: string)
    ensures Prop(Some(DocumentOf(r, operators)), key)
         == if key == "apiVersion" then Some(Str("mirror.openshift.io/v2alpha1"))
            else if key == "kind" then Some(Str("ImageSetConfiguration"))
            else if key == "archiveSize" && r.archiveSize.Some? then Some(Num(r.archiveSize.value))
            else if key == "mirror" then Some(Obj(MirrorFields(r, operators))) else None
  {
    hide Lookup, MirrorFields;
    var head: Assoc<Json> :=
      [("apiVersion", Str("mirror.openshift.io/v2alpha1")), ("kind", Str("ImageSetConfiguration"))];
    var size: Assoc<Json> := match r.archiveSize case Some(n) => [("archiveSize", Num(n))] case None => [];
    var last: Assoc<Json> := [("mirror", Obj(MirrorFields(r, operators)))];
    LookupConcat(head + size, last, key);
    LookupConcat(head, size, key);
    TwoFields("apiVersion", head[0].1, "kind", head[1].1, key);
    OneField("mirror", last[0].1, key);
    NoField(key);
    if r.archiveSize.Some? { OneField("archiveSize", Num(r.archiveSize.value), key); }
  }

  /** The platform: the stable channel of the minor, bounded to the version on both sides, and what is switched on. */
  lemma PlatformFields(r: Request)
    ensures var platform := Some(PlatformJson(r));
            && (exists channel ::
                  && Prop(platform, "channels") == Some(Arr([channel]))
                  && Prop(Some(channel), "name") == Some(Str("stable-" + (if r.minor.None? then "" else r.minor.value)))
                  && Prop(Some(channel), "minVersion") == Some(Str(r.version))
                  && Prop(Some(channel), "maxVersion") == Some(Str(r.version)))
            && Prop(platform, "architectures") == (if r.arch == "" then None else Some(Arr([Str(r.arch)])))
            && Prop(platform, "graph") == (if r.graph then Some(Bool(true)) else None)
            && Prop(platform, "kubeVirtContainer") == (if r.kubeVirt then Some(Bool(true)) else None)
  {
    hide Lookup;
    var name, version := Str("stable-" + r.PlatformMinor()), Str(r.version);
    var channel := Obj([("name", name), ("minVersion", version), ("maxVersion", version)]);
    ThreeFields("name", name, "minVersion", version, "maxVersion", version, "name");
    ThreeFields("name", name, "minVersion", version, "maxVersion", version, "minVersion");
    ThreeFields("name", name, "minVersion", version, "maxVersion", version, "maxVersion");
    PlatformLookup(r, channel, "channels");
    PlatformLookup(r, channel, "architectures");
    PlatformLookup(r, channel, "graph");
    PlatformLookup(r, channel, "kubeVirtContainer");
  }

  lemma ThreeFields(a: string, x: Json, b: string, y: Json, c: string, z: Json, wanted: string)
    ensures Lookup([(a, x), (b, y), (c, z)], wanted)
         == if wanted == a then Some(x) else if wanted == b then Some(y) else if wanted == c then Some(z) else None
  {
    hide Lookup;
    assert [(a, x), (b, y), (c, z)] == [(a, x), (b, y)] + [(c, z)];
    LookupConcat([(a, x), (b, y)], [(c, z)], wanted);
    TwoFields(a, x, b, y, wanted);
    OneField(c, z, wanted);
  }

  lemma PlatformLookup(r: Request, channel: Json, key: string)
    requires channel == Obj([("name", Str("stable-" + r.PlatformMinor())), ("minVersion", Str(r.version)),
                             ("maxVersion", Str(r.version))])
    ensures Prop(Some(PlatformJson(r)), key)
         == if key == "channels" then Some(Arr([channel]))
            else if key == "architectures" && r.arch != "" then Some(Arr([Str(r.arch)]))
            else if key == "graph" && r.graph then Some(Bool(true))
            else if key == "kubeVirtContainer" && r.kubeVirt then Some(Bool(true)) else None
  {
    hide Lookup;
    var a: Assoc<Json> := [("channels", Arr([channel]))];
    var b: Assoc<Json> := if r.arch == "" then [] else [("architectures", Arr([Str(r.arch)]))];
    var c, d := WhenSet("graph", r.graph), WhenSet("kubeVirtContainer", r.kubeVirt);
    LookupConcat(a + b + c, d, key);
    LookupConcat(a + b, c, key);
    LookupConcat(a, b, key);
    NoField(key);
    OneField("channels", Arr([channel]), key);
    OneField("architectures", Arr([Str(r.arch)]), key);
    OneField("graph", Bool(true), key);
    OneField("kubeVirtContainer", Bool(true), key);
  }

  /** Additional images are listed by name, in order. */
  lemma ImagesListed(names: seq<string>, i: nat)
    requires i < |names|
    ensures |ImagesJson(names)| == |names| && Prop(Some(ImagesJson(names)[i]), "name") == Some(Str(names[i]))
  {
    hide Lookup;
    OneField("name", Str(names[i]), "name");
  }

  // ----- which guard refuses

  /** The guards in order, each with what it refuses. */
  lemma RefusedExact(r: Request)
    ensures var minors := [Some("4.20"), Some("4.21"), Some("4.22")];
            var platform := r.content.None? || r.content.value.platform;
            if r.content == Some(Content(false, false, false)) then r.Refused() == Some(NoContentGroup)
            else if platform && r.minor !in minors then r.Refused() == Some(UnsupportedVersion)
            else if platform && !r.archOffered then r.Refused() == Some(UnsupportedArchitecture)
            else
              (r.Refused() == Some(UnsupportedVersion) <==>
                 && r.content.Some? && r.content.value.operators
                 && (if r.chosenCatalogMinor.Some? then r.chosenCatalogMinor !in minors else !platform)) &&
              (r.Refused().None? || r.Refused() == Some(UnsupportedVersion))
  {
  }
}
