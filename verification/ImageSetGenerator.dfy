/**
 Grouping the selected operators by catalog and laying the mirror document out (`buildImageSetConfig` of
 `backend/src/generate.js`), and what the validator's whole-document rules say of it.

 The minor a state resolves to, whether its architecture is offered, and the YAML text of the document are not modelled.
 */
module ImageSetGenerator {
  import opened Wrappers
  import opened Text
  import opened OrderedMap
  import opened JsonValue
  import opened VersionPolicy
  import V = ImageSetValidator

  /** A selected operator; a missing field reads as "". */
  datatype Operator =
    Operator(name: string, catalogImage: string, defaultChannel: string, minVersion: string, maxVersion: string)

  datatype Package = Package(name: string, channel: string, minVersion: string, maxVersion: string)

  // ----- the catalog tag, /:v(\\d+\\.\\d+)/

  /** How many digits a string starts with. */
  function Digits(s: string): (n: nat)
    ensures n <= |s|
  {
    if s != "" && IsDigit(s[0]) then 1 + Digits(s[1..]) else 0
  }

  /** The version of a tag that starts right here. */
  function TagHere(s: string): Option<string> {
    if |s| < 2 || s[0] != ':' || s[1] != 'v' then None
    else
      var major := Digits(s[2..]);
      var rest := s[2 + major..];
      if major == 0 || rest == "" || rest[0] != '.' then None
      else
        var minor := Digits(rest[1..]);
        if minor == 0 then None else Some(s[2..2 + major + 1 + minor])
  }

  /** The first one in the string. */
  function CatalogTag(s: string): Option<string> {
    if s == "" then None else if TagHere(s).Some? then TagHere(s) else CatalogTag(s[1..])
  }

  /** Selected with a catalog and a channel, and no tag of another minor. */
  predicate Eligible(op: Operator, minor: string) {
    op.catalogImage != "" && op.defaultChannel != "" &&
    match CatalogTag(op.catalogImage) case None => true case Some(tag) => tag == minor
  }

  function PackageOf(op: Operator): Package {
    Package(op.name, op.defaultChannel, op.minVersion, op.maxVersion)
  }

  // ----- grouping

  /** Catalogs of the first `n` operators, in order of first appearance. */
  function Catalogs(ops: seq<Operator>, minor: string, n: nat): seq<string>
    requires n <= |ops|
  {
    if n == 0 then []
    else
      var before, op := Catalogs(ops, minor, n - 1), ops[n - 1];
      if Eligible(op, minor) && op.catalogImage !in before then before + [op.catalogImage] else before
  }

  /** Packages of one catalog among the first `n` operators, in order. */
  function PackagesOf(ops: seq<Operator>, minor: string, n: nat, catalog: string): seq<Package>
    requires n <= |ops|
  {
    if n == 0 then []
    else
      var before, op := PackagesOf(ops, minor, n - 1, catalog), ops[n - 1];
      if Eligible(op, minor) && op.catalogImage == catalog then before + [PackageOf(op)] else before
  }

  function Grouped(ops: seq<Operator>, minor: string, n: nat): Assoc<seq<Package>>
    requires n <= |ops|
  {
    var cats := Catalogs(ops, minor, n);
    seq(|cats|, i requires 0 <= i < |cats| => (cats[i], PackagesOf(ops, minor, n, cats[i])))
  }

  method GroupByCatalog(ops: seq<Operator>, minor: string) returns (byCatalog: Assoc<seq<Package>>)
    ensures byCatalog == Grouped(ops, minor, |ops|)
  {
    hide Eligible, Grouped, Lookup, Put;
    byCatalog := [];
    NothingGrouped(ops, minor);
    var i := 0;
    while i < |ops|
      invariant 0 <= i <= |ops| && byCatalog == Grouped(ops, minor, i)
    {
      var op := ops[i];
      if Eligible(op, minor) {
        GroupStep(ops, minor, i);
        if !Has(byCatalog, op.catalogImage) {
          byCatalog := Put(byCatalog, op.catalogImage, []);
        }
        var packages := Lookup(byCatalog, op.catalogImage).value;
        byCatalog := Put(byCatalog, op.catalogImage, packages + [PackageOf(op)]);
      } else {
        GroupSkip(ops, minor, i);
      }
      i := i + 1;
    }
  }

  lemma NothingGrouped(ops: seq<Operator>, minor: string)
    ensures Grouped(ops, minor, 0) == []
  {
  }

  lemma {:induction false} CatalogsDistinct(ops: seq<Operator>, minor: string, n: nat)
    requires n <= |ops|
    ensures forall i, j :: 0 <= i < j < |Catalogs(ops, minor, n)| ==>
              Catalogs(ops, minor, n)[i] != Catalogs(ops, minor, n)[j]
  {
    hide Eligible;
    if n > 0 {
      CatalogsDistinct(ops, minor, n - 1);
    }
  }

  /** A catalog is listed exactly when it has packages. */
  lemma {:induction false} ListedIffPackages(ops: seq<Operator>, minor: string, n: nat, catalog: string)
    requires n <= |ops|
    ensures catalog in Catalogs(ops, minor, n) <==> PackagesOf(ops, minor, n, catalog) != []
  {
    hide Eligible;
    if n > 0 {
      ListedIffPackages(ops, minor, n - 1, catalog);
    }
  }

  lemma GroupedLookup(ops: seq<Operator>, minor: string, n: nat, catalog: string)
    requires n <= |ops|
    ensures DistinctKeys(Grouped(ops, minor, n)) && Keys(Grouped(ops, minor, n)) == Catalogs(ops, minor, n)
    ensures Lookup(Grouped(ops, minor, n), catalog)
         == if PackagesOf(ops, minor, n, catalog) == [] then None else Some(PackagesOf(ops, minor, n, catalog))
  {
    hide Catalogs, PackagesOf, Lookup;
    var g, cats := Grouped(ops, minor, n), Catalogs(ops, minor, n);
    CatalogsDistinct(ops, minor, n);
    ListedIffPackages(ops, minor, n, catalog);
    HasIffKey(g, catalog);
    assert Keys(g) == cats;
    if catalog in cats {
      var i :| 0 <= i < |cats| && cats[i] == catalog;
      LookupAt(g, i);
    }
  }

  lemma GroupSkip(ops: seq<Operator>, minor: string, n: nat)
    requires n < |ops| && !Eligible(ops[n], minor)
    ensures Grouped(ops, minor, n + 1) == Grouped(ops, minor, n)
  {
  }

  lemma {:induction false} SameByLookup<T>(a: Assoc<T>, b: Assoc<T>)
    requires Keys(a) == Keys(b) && DistinctKeys(a) && forall key <- Keys(a) :: Lookup(a, key) == Lookup(b, key)
    ensures a == b
  {
    hide Lookup;
    forall i | 0 <= i < |a| ensures a[i] == b[i] {
      assert Keys(a)[i] == a[i].0 && Keys(b)[i] == b[i].0;
      assert DistinctKeys(b) by { KeysDistinct(a, b); }
      LookupAt(a, i);
      LookupAt(b, i);
    }
  }

  lemma KeysDistinct<T>(a: Assoc<T>, b: Assoc<T>)
    requires Keys(a) == Keys(b) && DistinctKeys(a)
    ensures DistinctKeys(b)
  {
    forall i, j | 0 <= i < j < |b| ensures b[i].0 != b[j].0 {
      assert Keys(a)[i] == a[i].0 && Keys(a)[j] == a[j].0;
      assert Keys(b)[i] == b[i].0 && Keys(b)[j] == b[j].0;
    }
  }

  lemma CatalogsStep(ops: seq<Operator>, minor: string, n: nat)
    requires n < |ops| && Eligible(ops[n], minor)
    ensures var before, catalog := Catalogs(ops, minor, n), ops[n].catalogImage;
            Catalogs(ops, minor, n + 1) == if catalog in before then before else before + [catalog]
  {
    hide Eligible;
  }

  lemma PackagesStep(ops: seq<Operator>, minor: string, n: nat, key: string)
    requires n < |ops| && Eligible(ops[n], minor)
    ensures var before := PackagesOf(ops, minor, n, key);
            PackagesOf(ops, minor, n + 1, key)
              == if key == ops[n].catalogImage then before + [PackageOf(ops[n])] else before
  {
    hide Eligible;
  }

  /** One eligible operator through the map: a list for its catalog if there is none, then a push onto that list. */
  lemma GroupStep(ops: seq<Operator>, minor: string, n: nat)
    requires n < |ops| && Eligible(ops[n], minor)
    ensures var g, catalog := Grouped(ops, minor, n), ops[n].catalogImage;
            var ready := if Has(g, catalog) then g else Put(g, catalog, []);
            && Has(ready, catalog)
            && Put(ready, catalog, Lookup(ready, catalog).value + [PackageOf(ops[n])]) == Grouped(ops, minor, n + 1)
  {
    hide Eligible, Grouped, Lookup, Put, Catalogs, PackagesOf, DistinctKeys;
    var g, catalog := Grouped(ops, minor, n), ops[n].catalogImage;
    var ready := if Has(g, catalog) then g else Put(g, catalog, []);
    GroupedLookup(ops, minor, n, catalog);
    HasIffKey(g, catalog);
    CatalogsStep(ops, minor, n);
    PutKeys(g, catalog, []);
    LookupPut(g, catalog, [], catalog);
    if !Has(g, catalog) { PutDistinct(g, catalog, []); }
    var packages := Lookup(ready, catalog).value + [PackageOf(ops[n])];
    var after := Put(ready, catalog, packages);
    PutKeys(ready, catalog, packages);
    PutDistinct(ready, catalog, packages);
    GroupedLookup(ops, minor, n + 1, catalog);
    assert Keys(after) == Catalogs(ops, minor, n + 1);
    forall key | key in Keys(after) ensures Lookup(after, key) == Lookup(Grouped(ops, minor, n + 1), key) {
      LookupPut(ready, catalog, packages, key);
      LookupPut(g, catalog, [], key);
      PackagesStep(ops, minor, n, key);
      GroupedLookup(ops, minor, n, key);
      GroupedLookup(ops, minor, n + 1, key);
    }
    SameByLookup(after, Grouped(ops, minor, n + 1));
  }

  // ----- conservation

  /** Every package with its catalog, catalog after catalog. */
  function Listed(groups: Assoc<seq<Package>>): seq<(string, Package)> {
    if groups == [] then []
    else
      var n := |groups| - 1;
      Listed(groups[..n]) + Tagged(groups[n].0, groups[n].1)
  }

  function Tagged(catalog: string, packages: seq<Package>): seq<(string, Package)> {
    seq(|packages|, i requires 0 <= i < |packages| => (catalog, packages[i]))
  }

  /** The eligible operators of the selection, each with its catalog. */
  function Selected(ops: seq<Operator>, minor: string, n: nat): seq<(string, Package)>
    requires n <= |ops|
  {
    if n == 0 then []
    else
      Selected(ops, minor, n - 1) +
      if Eligible(ops[n - 1], minor) then [(ops[n - 1].catalogImage, PackageOf(ops[n - 1]))] else []
  }

  function CountOf(list: seq<(string, Package)>, item: (string, Package)): nat {
    if list == [] then 0 else CountOf(list[..|list| - 1], item) + if list[|list| - 1] == item then 1 else 0
  }

  lemma {:induction false} CountConcat(a: seq<(string, Package)>, b: seq<(string, Package)>, item: (string, Package))
    ensures CountOf(a + b, item) == CountOf(a, item) + CountOf(b, item)
  {
    if b == [] {
      assert a + b == a;
    } else {
      CountConcat(a, b[..|b| - 1], item);
      assert (a + b)[..|a + b| - 1] == a + b[..|b| - 1];
    }
  }

  lemma {:induction false} CountOther(catalog: string, packages: seq<Package>, item: (string, Package))
    requires catalog != item.0
    ensures CountOf(Tagged(catalog, packages), item) == 0
    decreases |packages|
  {
    if packages != [] {
      var n := |packages| - 1;
      assert Tagged(catalog, packages)[..n] == Tagged(catalog, packages[..n]);
      CountOther(catalog, packages[..n], item);
    }
  }

  /** With distinct catalogs, an item is counted only where its catalog is. */
  lemma {:induction false} CountListed(groups: Assoc<seq<Package>>, item: (string, Package))
    requires DistinctKeys(groups)
    ensures CountOf(Listed(groups), item)
         == match Lookup(groups, item.0) { case None => 0 case Some(ps) => CountOf(Tagged(item.0, ps), item) }
    decreases |groups|
  {
    hide Lookup, Tagged;
    if groups == [] {
      HasIffKey(groups, item.0);
    } else {
      var n := |groups| - 1;
      var front, last := groups[..n], groups[n];
      CountListed(front, item);
      CountConcat(Listed(front), Tagged(last.0, last.1), item);
      assert groups == front + [last];
      LookupConcat(front, [last], item.0);
      LookupOne(last, item.0);
      HasIffKey(front, item.0);
      if last.0 == item.0 {
        forall i | 0 <= i < n ensures Keys(front)[i] != item.0 {
          assert groups[i].0 != groups[n].0;
        }
      } else {
        CountOther(last.0, last.1, item);
      }
    }
  }

  lemma LookupOne(entry: (string, seq<Package>), key: string)
    ensures Lookup([entry], key) == if entry.0 == key then Some(entry.1) else None
  {
    assert [entry][1..] == [];
  }

  lemma {:induction false} CountSelected(ops: seq<Operator>, minor: string, n: nat, item: (string, Package))
    requires n <= |ops|
    ensures CountOf(Selected(ops, minor, n), item) == CountOf(Tagged(item.0, PackagesOf(ops, minor, n, item.0)), item)
  {
    hide Eligible;
    if n > 0 {
      CountSelected(ops, minor, n - 1, item);
      var op := ops[n - 1];
      var before := PackagesOf(ops, minor, n - 1, item.0);
      if Eligible(op, minor) {
        var one := (op.catalogImage, PackageOf(op));
        assert (Selected(ops, minor, n - 1) + [one])[..|Selected(ops, minor, n - 1)|] == Selected(ops, minor, n - 1);
        if op.catalogImage == item.0 {
          var tagged := Tagged(item.0, before + [PackageOf(op)]);
          assert tagged[..|tagged| - 1] == Tagged(item.0, before);
        }
      } else {
        assert Selected(ops, minor, n - 1) + [] == Selected(ops, minor, n - 1);
      }
    }
  }

  /**
   Nothing is lost, added or listed twice: each package appears under each catalog exactly as often as it was selected
   there, and each catalog is listed once.
   */
  lemma SelectionConserved(ops: seq<Operator>, minor: string, item: (string, Package))
    ensures CountOf(Listed(Grouped(ops, minor, |ops|)), item) == CountOf(Selected(ops, minor, |ops|), item)
    ensures DistinctKeys(Grouped(ops, minor, |ops|))
  {
    hide Grouped, Listed, Lookup, PackagesOf, Selected;
    GroupedLookup(ops, minor, |ops|, item.0);
    CountListed(Grouped(ops, minor, |ops|), item);
    CountSelected(ops, minor, |ops|, item);
  }

  /** And within a catalog the order is the order of selection. */
  lemma {:induction false} OrderKept(ops: seq<Operator>, minor: string, n: nat, catalog: string)
      returns (from: seq<nat>)
    requires n <= |ops|
    ensures |from| == |PackagesOf(ops, minor, n, catalog)|
    ensures forall a, b :: 0 <= a < b < |from| ==> from[a] < from[b]
    ensures forall a :: 0 <= a < |from| ==>
              from[a] < n && Eligible(ops[from[a]], minor) && ops[from[a]].catalogImage == catalog
              && PackagesOf(ops, minor, n, catalog)[a] == PackageOf(ops[from[a]])
    ensures forall i :: 0 <= i < n && Eligible(ops[i], minor) && ops[i].catalogImage == catalog ==> i in from
  {
    hide Eligible;
    from := [];
    if n > 0 {
      from := OrderKept(ops, minor, n - 1, catalog);
      if Eligible(ops[n - 1], minor) && ops[n - 1].catalogImage == catalog {
        var before := from;
        from := from + [n - 1];
        assert forall i :: i in before ==> i in from;
        assert from[|before|] == n - 1;
      }
    }
  }

  // ----- the document

  /** Which content groups a mirroring profile asks for. */
  datatype Content = Content(platform: bool, operators: bool, additionalImages: bool)

  predicate Supported(minor: Option<string>) { minor.Some? && minor.value in SUPPORTED_MINORS }

  datatype Refusal = NoContentGroup | UnsupportedVersion | UnsupportedArchitecture

  /**
   No `content` is the install workflow, with every group. The minor is what the state resolves to, if anything, and
   independent of the catalogs'; whether the architecture is offered at it comes out of the support matrix.
   */
  datatype Request = Request(
    content: Option<Content>, minor: Option<string>, chosenCatalogMinor: Option<string>, archOffered: bool,
    version: string, arch: string, graph: bool, kubeVirt: bool, archiveSize: Option<real>,
    additionalImages: seq<string>, operators: seq<Operator>)
  {
    predicate IncludePlatform() { content.None? || content.value.platform }

    predicate IncludeOperators() { content.None? || content.value.operators }

    predicate IncludeAdditional() { content.None? || content.value.additionalImages }

    function PlatformMinor(): string { match minor case Some(m) => m case None => "" }

    /** The minor that catalog tags have to match: a profile's own choice, else the platform's. */
    function CatalogMinor(): string {
      if content.Some? && IncludeOperators() && chosenCatalogMinor.Some? then chosenCatalogMinor.value
      else PlatformMinor()
    }

    /** A profile with operators checks its own choice, or else the minor of the platform it includes. */
    function CheckedCatalogMinor(): Option<string> {
      if chosenCatalogMinor.Some? then chosenCatalogMinor else if IncludePlatform() then minor else None
    }

    /** The first guard that throws. */
    function Refused(): Option<Refusal> {
      if !IncludePlatform() && !IncludeOperators() && !IncludeAdditional() then Some(NoContentGroup)
      else if IncludePlatform() && !Supported(minor) then Some(UnsupportedVersion)
      else if IncludePlatform() && !archOffered then Some(UnsupportedArchitecture)
      else if content.Some? && IncludeOperators() && !Supported(CheckedCatalogMinor()) then Some(UnsupportedVersion)
      else None
    }
  }

  function WhenText(key: string, text: string): Assoc<Json> { if text == "" then [] else [(key, Str(text))] }

  function WhenSet(key: string, flag: bool): Assoc<Json> { if flag then [(key, Bool(true))] else [] }

  function ChannelJson(p: Package): Json {
    Obj([("name", Str(p.channel))] + WhenText("minVersion", p.minVersion) + WhenText("maxVersion", p.maxVersion))
  }

  function PackageJson(p: Package): Json {
    Obj([("name", Str(p.name)), ("channels", Arr([ChannelJson(p)]))])
  }

  function PackagesJson(packages: seq<Package>): seq<Json> {
    seq(|packages|, i requires 0 <= i < |packages| => PackageJson(packages[i]))
  }

  function CatalogJson(group: (string, seq<Package>)): Json {
    Obj([("catalog", Str(group.0)), ("packages", Arr(PackagesJson(group.1)))])
  }

  function CatalogsJson(groups: Assoc<seq<Package>>): seq<Json> {
    seq(|groups|, i requires 0 <= i < |groups| => CatalogJson(groups[i]))
  }

  function PlatformJson(r: Request): Json {
    var channel := Obj([("name", Str("stable-" + r.PlatformMinor())), ("minVersion", Str(r.version)),
                        ("maxVersion", Str(r.version))]);
    Obj([("channels", Arr([channel]))]
        + (if r.arch == "" then [] else [("architectures", Arr([Str(r.arch)]))])
        + WhenSet("graph", r.graph) + WhenSet("kubeVirtContainer", r.kubeVirt))
  }

  function ImagesJson(names: seq<string>): seq<Json> {
    seq(|names|, i requires 0 <= i < |names| => Obj([("name", Str(names[i]))]))
  }

  function MirrorFields(r: Request, operators: seq<Json>): Assoc<Json> {
    (if r.IncludePlatform() then [("platform", PlatformJson(r))] else []) +
    (if r.IncludeOperators() then [("operators", Arr(operators))] else []) +
    (if r.IncludeAdditional() && r.additionalImages != []
     then [("additionalImages", Arr(ImagesJson(r.additionalImages)))] else [])
  }

  function ChosenOperators(r: Request): seq<Operator> { if r.IncludeOperators() then r.operators else [] }

  function OperatorEntries(r: Request): seq<Json> {
    CatalogsJson(Grouped(ChosenOperators(r), r.CatalogMinor(), |ChosenOperators(r)|))
  }

  function DocumentOf(r: Request, operators: seq<Json>): Json {
    Obj([("apiVersion", Str("mirror.openshift.io/v2alpha1")), ("kind", Str("ImageSetConfiguration"))]
        + (match r.archiveSize case Some(n) => [("archiveSize", Num(n))] case None => [])
        + [("mirror", Obj(MirrorFields(r, operators)))])
  }

  /** `Err` is a throw, with the guard it comes from. */
  method BuildImageSetConfig(r: Request) returns (doc: Result<Json, Refusal>)
    ensures doc == match r.Refused() {
                     case Some(e) => Err(e)
                     case None => Ok(DocumentOf(r, OperatorEntries(r)))
                   }
  {
    hide Grouped, MirrorFields;
    if !r.IncludePlatform() && !r.IncludeOperators() && !r.IncludeAdditional() {
      return Err(NoContentGroup);
    }
    if r.IncludePlatform() {
      if r.minor.None? || r.minor.value !in SUPPORTED_MINORS { return Err(UnsupportedVersion); }
      if !r.archOffered { return Err(UnsupportedArchitecture); }
    }
    if r.content.Some? && r.IncludeOperators() {
      var wanted := if r.chosenCatalogMinor.Some? then r.chosenCatalogMinor
                    else if r.IncludePlatform() then r.minor else None;
      if wanted.None? || wanted.value !in SUPPORTED_MINORS { return Err(UnsupportedVersion); }
    }
    var byCatalog := GroupByCatalog(ChosenOperators(r), r.CatalogMinor());
    var operators: seq<Json> := [];
    var i := 0;
    while i < |byCatalog|
      invariant 0 <= i <= |byCatalog| && operators == CatalogsJson(byCatalog)[..i]
    {
      operators := operators + [CatalogJson(byCatalog[i])];
      i := i + 1;
    }
    assert operators == CatalogsJson(byCatalog);
    return Ok(DocumentOf(r, operators));
  }

  /**
   A document is written exactly for a request with some content group whose platform, if included, has a supported
   minor and an architecture offered there, and whose catalogs, if operators are included, have a supported minor.
   */
  lemma GeneratedWhen(r: Request)
    ensures r.Refused().None?
       <==> && (r.IncludePlatform() || r.IncludeOperators() || r.IncludeAdditional())
            && (r.IncludePlatform() ==> r.PlatformMinor() in SUPPORTED_MINORS && r.archOffered)
            && (r.IncludeOperators() ==> r.CatalogMinor() in SUPPORTED_MINORS &&
                                         (r.IncludePlatform() || r.chosenCatalogMinor.Some?))
  {
    assert "" !in SUPPORTED_MINORS;
  }

  // ----- the validator's rules on a generated document

  predicate Reports(errors: seq<V.Finding>, code: V.Code) {
    exists i :: 0 <= i < |errors| && errors[i].code == code
  }

  lemma ReportsConcat(a: seq<V.Finding>, b: seq<V.Finding>, code: V.Code)
    ensures Reports(a + b, code) <==> Reports(a, code) || Reports(b, code)
  {
    forall i | 0 <= i < |b| ensures (a + b)[|a| + i] == b[i] {}
    forall i | 0 <= i < |a| ensures (a + b)[i] == a[i] {}
    if Reports(b, code) {
      var i :| 0 <= i < |b| && b[i].code == code;
      assert (a + b)[|a| + i].code == code;
    }
  }

  lemma ReportsOne(f: V.Finding, code: V.Code)
    ensures Reports([f], code) <==> f.code == code
    ensures !Reports([], code)
  {
    assert [f][0] == f;
  }

  lemma OneField(key: string, v: Json, wanted: string)
    ensures Lookup([(key, v)], wanted) == if key == wanted then Some(v) else None
  {
    var m := [(key, v)];
    assert m[1..] == [];
  }

  lemma TwoFields(a: string, x: Json, b: string, y: Json, wanted: string)
    ensures Lookup([(a, x), (b, y)], wanted) == if wanted == a then Some(x) else if wanted == b then Some(y) else None
  {
    hide Lookup;
    assert [(a, x), (b, y)] == [(a, x)] + [(b, y)];
    LookupConcat([(a, x)], [(b, y)], wanted);
    OneField(a, x, wanted);
    OneField(b, y, wanted);
  }

  lemma PackageFacts(p: Package)
    ensures !V.Filters(PackageJson(p)) && V.ListAt(Some(PackageJson(p)), "channels") == [ChannelJson(p)]
    ensures V.NameOf(PackageJson(p)) == if p.name == "" then None else Some(p.name)
  {
    hide Lookup, ChannelJson;
    var channels := Arr([ChannelJson(p)]);
    TwoFields("name", Str(p.name), "channels", channels, "name");
    TwoFields("name", Str(p.name), "channels", channels, "channels");
    TwoFields("name", Str(p.name), "channels", channels, "minVersion");
    TwoFields("name", Str(p.name), "channels", channels, "maxVersion");
  }

  /** A package with one channel and no filter of its own raises nothing about its channels. */
  lemma OneChannel(lib: V.Library, p: Package, here: string)
    ensures V.ChannelErrors(lib, false, [ChannelJson(p)], 1, here) == []
  {
    hide V.NameOf, V.ItemPath;
    var items := [ChannelJson(p)];
    V.NoNames(items);
    assert !V.RepeatsName(items, 0);
    assert V.ChannelErrors(lib, false, items, 0, here) == [];
  }

  /** Two packages of the list share a name. */
  ghost predicate NameRepeats(packages: seq<Package>, n: nat)
    requires n <= |packages|
  {
    exists a, b :: 0 <= a < b < n && packages[a].name == packages[b].name && packages[b].name != ""
  }

  lemma RepeatsIsRepeat(packages: seq<Package>, n: nat)
    requires n < |packages|
    ensures V.RepeatsName(PackagesJson(packages), n)
       <==> packages[n].name != "" && exists a :: 0 <= a < n && packages[a].name == packages[n].name
  {
    hide V.NameOf, PackageJson;
    forall i | 0 <= i < |packages|
      ensures V.NameOf(PackagesJson(packages)[i]) == if packages[i].name == "" then None else Some(packages[i].name)
    {
      PackageFacts(packages[i]);
    }
  }

  lemma {:induction false} PackagesReport(lib: V.Library, packages: seq<Package>, n: nat, base: string)
    requires n <= |packages|
    ensures var errors := V.PackageErrors(lib, PackagesJson(packages), n, base);
            && (Reports(errors, V.DuplicateEntry) <==> NameRepeats(packages, n))
            && !Reports(errors, V.MixedVersionFilters)
    decreases n
  {
    hide V.RepeatsName, V.ItemPath, PackageJson, V.At, V.ListAt, V.Filters, V.ChannelErrors, Reports;
    if n == 0 {
      ReportsOne(V.At("", V.WrongType, ""), V.DuplicateEntry);
      ReportsOne(V.At("", V.WrongType, ""), V.MixedVersionFilters);
    } else {
      PackagesReport(lib, packages, n - 1, base);
      var here := V.ItemPath(lib, base + ".packages", n - 1);
      PackageReport(lib, packages, n - 1, here);
      RepeatsIsRepeat(packages, n - 1);
      var before, now := V.PackageErrors(lib, PackagesJson(packages), n - 1, base),
                         V.PackageErrorsAt(lib, PackagesJson(packages), n - 1, here);
      ReportsConcat(before, now, V.DuplicateEntry);
      ReportsConcat(before, now, V.MixedVersionFilters);
    }
  }

  lemma PackageReport(lib: V.Library, packages: seq<Package>, j: nat, here: string)
    requires j < |packages|
    ensures var errors := V.PackageErrorsAt(lib, PackagesJson(packages), j, here);
            && (Reports(errors, V.DuplicateEntry) <==> V.RepeatsName(PackagesJson(packages), j))
            && !Reports(errors, V.MixedVersionFilters)
  {
    hide V.RepeatsName, V.ItemPath, PackageJson, V.ListAt, V.Filters, V.ChannelErrors, Reports;
    PackageFacts(packages[j]);
    OneChannel(lib, packages[j], here);
    assert PackagesJson(packages)[j] == PackageJson(packages[j]);
    var repeat := V.At(here + ".name", V.DuplicateEntry, "binary");
    ReportsOne(repeat, V.DuplicateEntry);
    ReportsOne(repeat, V.MixedVersionFilters);
    var first: seq<V.Finding> := if V.RepeatsName(PackagesJson(packages), j) then [repeat] else [];
    assert V.PackageErrorsAt(lib, PackagesJson(packages), j, here) == first + [];
    assert first + [] == first;
  }

  lemma CatalogFacts(lib: V.Library, group: (string, seq<Package>))
    ensures V.TargetOf(lib, CatalogJson(group)) == Some(group.0 + "|" + "" + "|" + "")
    ensures V.ListAt(Some(CatalogJson(group)), "packages") == PackagesJson(group.1)
  {
    hide Lookup, PackagesJson;
    var packages := Arr(PackagesJson(group.1));
    TwoFields("catalog", Str(group.0), "packages", packages, "catalog");
    TwoFields("catalog", Str(group.0), "packages", packages, "packages");
    TwoFields("catalog", Str(group.0), "packages", packages, "targetCatalog");
    TwoFields("catalog", Str(group.0), "packages", packages, "targetTag");
  }

  lemma TargetsDiffer(a: string, b: string)
    requires a != b
    ensures a + "|" + "" + "|" + "" != b + "|" + "" + "|" + ""
  {
    var x, y := a + "|" + "" + "|" + "", b + "|" + "" + "|" + "";
    assert x[..|a|] == a && y[..|b|] == b;
  }

  /** Distinct catalogs never repeat a target. */
  lemma NoTargetRepeats(lib: V.Library, groups: Assoc<seq<Package>>, n: nat)
    requires n < |groups| && DistinctKeys(groups)
    ensures V.TargetOf(lib, CatalogJson(groups[n])).Some?
    ensures V.TargetOf(lib, CatalogJson(groups[n])).value !in V.TargetsUpTo(lib, CatalogsJson(groups), n)
  {
    hide V.TargetOf, CatalogJson;
    CatalogFacts(lib, groups[n]);
    forall i | 0 <= i < n
      ensures V.TargetOf(lib, CatalogsJson(groups)[i]) != V.TargetOf(lib, CatalogJson(groups[n]))
    {
      CatalogFacts(lib, groups[i]);
      TargetsDiffer(groups[i].0, groups[n].0);
    }
  }

  ghost predicate SomeNameRepeats(groups: Assoc<seq<Package>>, n: nat)
    requires n <= |groups|
  {
    exists i :: 0 <= i < n && NameRepeats(groups[i].1, |groups[i].1|)
  }

  lemma {:induction false} CatalogsReport(lib: V.Library, groups: Assoc<seq<Package>>, n: nat)
    requires n <= |groups| && DistinctKeys(groups)
    ensures var errors := V.OperatorErrors(lib, CatalogsJson(groups), n);
            && (Reports(errors, V.DuplicateEntry) <==> SomeNameRepeats(groups, n))
            && !Reports(errors, V.MixedVersionFilters)
    decreases n
  {
    hide V.ItemPath, V.OperatorErrorsAt, CatalogJson, V.At, NameRepeats, Reports, CatalogsJson, DistinctKeys;
    if n == 0 {
      ReportsOne(V.At("", V.WrongType, ""), V.DuplicateEntry);
      ReportsOne(V.At("", V.WrongType, ""), V.MixedVersionFilters);
    } else {
      CatalogsReport(lib, groups, n - 1);
      var here := V.ItemPath(lib, "mirror.operators", n - 1);
      assert |CatalogsJson(groups)| == |groups| by { CatalogsLength(groups); }
      CatalogReport(lib, groups, n - 1, here);
      var before, now := V.OperatorErrors(lib, CatalogsJson(groups), n - 1),
                         V.OperatorErrorsAt(lib, CatalogsJson(groups), n - 1, here);
      ReportsConcat(before, now, V.DuplicateEntry);
      ReportsConcat(before, now, V.MixedVersionFilters);
    }
  }

  lemma CatalogsLength(groups: Assoc<seq<Package>>)
    ensures |CatalogsJson(groups)| == |groups|
  {
  }

  lemma CatalogReport(lib: V.Library, groups: Assoc<seq<Package>>, i: nat, here: string)
    requires i < |groups| && DistinctKeys(groups)
    ensures var errors := V.OperatorErrorsAt(lib, CatalogsJson(groups), i, here);
            && (Reports(errors, V.DuplicateEntry) <==> NameRepeats(groups[i].1, |groups[i].1|))
            && !Reports(errors, V.MixedVersionFilters)
  {
    hide V.TargetOf, V.TargetsUpTo, CatalogJson, V.ListAt, V.PackageErrors, NameRepeats, PackagesJson, DistinctKeys,
         Reports;
    var packages := groups[i].1;
    NoTargetRepeats(lib, groups, i);
    CatalogFacts(lib, groups[i]);
    assert CatalogsJson(groups)[i] == CatalogJson(groups[i]);
    assert |PackagesJson(packages)| == |packages| by { PackagesLength(packages); }
    PackagesReport(lib, packages, |packages|, here);
    assert V.OperatorErrorsAt(lib, CatalogsJson(groups), i, here)
        == [] + V.PackageErrors(lib, PackagesJson(packages), |packages|, here);
    assert [] + V.PackageErrors(lib, PackagesJson(packages), |packages|, here)
        == V.PackageErrors(lib, PackagesJson(packages), |packages|, here);
  }

  lemma PackagesLength(packages: seq<Package>)
    ensures |PackagesJson(packages)| == |packages|
  {
  }

  /** One (catalog, name) pair is selected twice. */
  ghost predicate PairRepeats(ops: seq<Operator>, minor: string, i: nat, j: nat) {
    i < j < |ops| && Eligible(ops[i], minor) && Eligible(ops[j], minor)
    && ops[i].catalogImage == ops[j].catalogImage && ops[i].name == ops[j].name && ops[j].name != ""
  }

  lemma PairIsNameRepeat(ops: seq<Operator>, minor: string)
    ensures var groups := Grouped(ops, minor, |ops|);
            SomeNameRepeats(groups, |groups|) <==> exists i: nat, j: nat :: PairRepeats(ops, minor, i, j)
  {
    hide Eligible, Catalogs, PackagesOf, PackageOf;
    var groups := Grouped(ops, minor, |ops|);
    forall k | 0 <= k < |groups| && NameRepeats(groups[k].1, |groups[k].1|)
      ensures exists i: nat, j: nat :: PairRepeats(ops, minor, i, j)
    {
      var i, j := RepeatToPair(ops, minor, groups[k].0);
      assert PairRepeats(ops, minor, i, j);
    }
    forall i: nat, j: nat | PairRepeats(ops, minor, i, j) ensures SomeNameRepeats(groups, |groups|) {
      PairToRepeat(ops, minor, i, j);
      var catalog := ops[i].catalogImage;
      ListedIffPackages(ops, minor, |ops|, catalog);
      var k :| 0 <= k < |groups| && Catalogs(ops, minor, |ops|)[k] == catalog;
      assert groups[k].1 == PackagesOf(ops, minor, |ops|, catalog);
    }
  }

  lemma RepeatToPair(ops: seq<Operator>, minor: string, catalog: string) returns (i: nat, j: nat)
    requires var ps := PackagesOf(ops, minor, |ops|, catalog); NameRepeats(ps, |ps|)
    ensures PairRepeats(ops, minor, i, j)
  {
    hide Eligible, PackagesOf;
    var ps := PackagesOf(ops, minor, |ops|, catalog);
    var from := OrderKept(ops, minor, |ops|, catalog);
    var a, b :| 0 <= a < b < |ps| && ps[a].name == ps[b].name && ps[b].name != "";
    i, j := from[a], from[b];
  }

  lemma PairToRepeat(ops: seq<Operator>, minor: string, i: nat, j: nat)
    requires PairRepeats(ops, minor, i, j)
    ensures var ps := PackagesOf(ops, minor, |ops|, ops[i].catalogImage); ps != [] && NameRepeats(ps, |ps|)
  {
    hide Eligible, PackagesOf;
    var catalog := ops[i].catalogImage;
    var ps := PackagesOf(ops, minor, |ops|, catalog);
    var from := OrderKept(ops, minor, |ops|, catalog);
    var a :| 0 <= a < |from| && from[a] == i;
    var b :| 0 <= b < |from| && from[b] == j;
    assert a < b;
    assert ps[a].name == ps[b].name;
  }

  lemma MirrorLookup(r: Request, operators: seq<Json>, wanted: string)
    ensures Lookup(MirrorFields(r, operators), wanted) ==
              if wanted == "platform" && r.IncludePlatform() then Some(PlatformJson(r))
              else if wanted == "operators" && r.IncludeOperators() then Some(Arr(operators))
              else if wanted == "additionalImages" && r.IncludeAdditional() && r.additionalImages != []
              then Some(Arr(ImagesJson(r.additionalImages)))
              else None
  {
    hide Lookup, PlatformJson, ImagesJson;
    var a: Assoc<Json> := if r.IncludePlatform() then [("platform", PlatformJson(r))] else [];
    var b: Assoc<Json> := if r.IncludeOperators() then [("operators", Arr(operators))] else [];
    var c: Assoc<Json> := if r.IncludeAdditional() && r.additionalImages != []
                          then [("additionalImages", Arr(ImagesJson(r.additionalImages)))] else [];
    NoField(wanted);
    OneField("platform", PlatformJson(r), wanted);
    OneField("operators", Arr(operators), wanted);
    OneField("additionalImages", Arr(ImagesJson(r.additionalImages)), wanted);
    LookupConcat(a + b, c, wanted);
    LookupConcat(a, b, wanted);
  }

  lemma NoField(wanted: string)
    ensures Lookup<Json>([], wanted) == None
  {
  }

  lemma DocumentMirror(r: Request, operators: seq<Json>)
    ensures Prop(Some(DocumentOf(r, operators)), "mirror") == Some(Obj(MirrorFields(r, operators)))
  {
    hide Lookup, MirrorFields;
    var head: Assoc<Json> :=
      [("apiVersion", Str("mirror.openshift.io/v2alpha1")), ("kind", Str("ImageSetConfiguration"))];
    var size: Assoc<Json> := match r.archiveSize case Some(n) => [("archiveSize", Num(n))] case None => [];
    var last: Assoc<Json> := [("mirror", Obj(MirrorFields(r, operators)))];
    LookupConcat(head + size, last, "mirror");
    LookupConcat(head, size, "mirror");
    assert head == [head[0]] + [head[1]];
    LookupConcat([head[0]], [head[1]], "mirror");
    OneField("apiVersion", head[0].1, "mirror");
    OneField("kind", head[1].1, "mirror");
    OneField("mirror", last[0].1, "mirror");
    NoField("mirror");
    if r.archiveSize.Some? { OneField("archiveSize", Num(r.archiveSize.value), "mirror"); }
  }

  lemma PlatformChannels(r: Request)
    ensures |V.ListAt(Some(PlatformJson(r)), "channels")| == 1
  {
    var fields := PlatformJson(r).fields;
    assert fields[0].0 == "channels";
  }

  lemma ShortListClean(lib: V.Library, items: seq<Json>)
    requires |items| <= 1
    ensures V.ReleaseChannelErrors(lib, items, |items|) == []
  {
    hide V.NameOf, V.ItemPath;
    V.NoNames(items);
    assert V.ReleaseChannelErrors(lib, items, 0) == [];
  }

  lemma NothingChosen(r: Request)
    requires !r.IncludeOperators()
    ensures OperatorEntries(r) == []
  {
  }

  /**
   The validator reports a duplicate in a generated document exactly when one catalog was asked for one name twice, and
   never mixed version filters.
   */
  lemma GeneratedSatisfiesValidator(lib: V.Library, r: Request)
    ensures var errors := V.SemanticErrors(lib, DocumentOf(r, OperatorEntries(r)));
            && (Reports(errors, V.DuplicateEntry)
                <==> exists i: nat, j: nat :: PairRepeats(ChosenOperators(r), r.CatalogMinor(), i, j))
            && !Reports(errors, V.MixedVersionFilters)
  {
    hide Grouped, V.OperatorErrors, V.ReleaseChannelErrors, V.NothingToMirror, Reports, MirrorFields, CatalogsJson,
         PairRepeats, Lookup, DistinctKeys, SomeNameRepeats, PlatformJson, ImagesJson, DocumentOf, V.At;
    var ops := ChosenOperators(r);
    var groups, entries := Grouped(ops, r.CatalogMinor(), |ops|), OperatorEntries(r);
    GroupedLookup(ops, r.CatalogMinor(), |ops|, "");
    CatalogsLength(groups);
    CatalogsReport(lib, groups, |groups|);
    PairIsNameRepeat(ops, r.CatalogMinor());
    DocumentMirror(r, entries);
    MirrorLookup(r, entries, "operators");
    MirrorLookup(r, entries, "platform");
    PlatformChannels(r);
    if !r.IncludeOperators() { NothingChosen(r); }
    var mirror := Some(Obj(MirrorFields(r, entries)));
    assert V.ListAt(mirror, "operators") == entries;
    var channels := V.ListAt(Prop(mirror, "platform"), "channels");
    ShortListClean(lib, channels);
    ErrorsOfMirror(lib, DocumentOf(r, entries), mirror, channels, entries);
  }

  lemma ErrorsOfMirror(lib: V.Library, doc: Json, mirror: Option<Json>, channels: seq<Json>, ops: seq<Json>)
    requires mirror == Prop(Some(doc), "mirror") && mirror.Some? && mirror.value.Obj?
    requires channels == V.ListAt(Prop(mirror, "platform"), "channels") && ops == V.ListAt(mirror, "operators")
    requires V.ReleaseChannelErrors(lib, channels, |channels|) == []
    ensures var errors := V.SemanticErrors(lib, doc);
            && (Reports(errors, V.DuplicateEntry) <==> Reports(V.OperatorErrors(lib, ops, |ops|), V.DuplicateEntry))
            && (Reports(errors, V.MixedVersionFilters)
                <==> Reports(V.OperatorErrors(lib, ops, |ops|), V.MixedVersionFilters))
  {
    hide V.OperatorErrors, V.ReleaseChannelErrors, V.NothingToMirror, Reports, V.ListAt, Prop;
    SemanticParts(lib, doc, mirror, channels, ops);
    hide V.SemanticErrors, V.At;
    var empty := V.At("mirror", V.EmptyMirror, "architect");
    var first: seq<V.Finding> := if V.NothingToMirror(mirror) then [empty] else [];
    var third := V.OperatorErrors(lib, ops, |ops|);
    ReportsConcat(first, third, V.DuplicateEntry);
    ReportsConcat(first, third, V.MixedVersionFilters);
    assert empty.code == V.EmptyMirror by { EmptyCode(); }
    ReportsOne(empty, V.DuplicateEntry);
    ReportsOne(empty, V.MixedVersionFilters);
  }

  lemma EmptyCode()
    ensures V.At("mirror", V.EmptyMirror, "architect").code == V.EmptyMirror
  {
  }

  lemma SemanticParts(lib: V.Library, doc: Json, mirror: Option<Json>, channels: seq<Json>, ops: seq<Json>)
    requires mirror == Prop(Some(doc), "mirror") && mirror.Some? && mirror.value.Obj?
    requires channels == V.ListAt(Prop(mirror, "platform"), "channels") && ops == V.ListAt(mirror, "operators")
    requires V.ReleaseChannelErrors(lib, channels, |channels|) == []
    ensures V.SemanticErrors(lib, doc)
         == (if V.NothingToMirror(mirror) then [V.At("mirror", V.EmptyMirror, "architect")] else [])
            + V.OperatorErrors(lib, ops, |ops|)
  {
    hide V.OperatorErrors, V.ReleaseChannelErrors, V.NothingToMirror, V.ListAt, Prop, V.At;
    assert [] + V.OperatorErrors(lib, ops, |ops|) == V.OperatorErrors(lib, ops, |ops|);
  }

  // ----- through the whole validator

  /** The schema documents this key below this path, with a value of this type. */
  ghost predicate Knows(lib: V.Library, fields: V.Fields, sp: string, key: string, kind: V.FieldType) {
    V.Canonical(lib, fields, sp, key) == Some(key) && V.SpecAt(fields, V.ChildKey(sp, key)).fieldType == kind
  }

  /** The keys the generator writes are documented, with the types it gives them. */
  ghost predicate KnowsGenerated(lib: V.Library, fields: V.Fields) {
    var mirror := V.ChildKey("", "mirror");
    var platform, operators := V.ChildKey(mirror, "platform"), V.ChildKey(mirror, "operators") + "[]";
    var releases, packages := V.ChildKey(platform, "channels") + "[]", V.ChildKey(operators, "packages") + "[]";
    && Knows(lib, fields, "", "apiVersion", V.StringType) && Knows(lib, fields, "", "kind", V.StringType)
    && Knows(lib, fields, "", "archiveSize", V.IntegerType) && Knows(lib, fields, "", "mirror", V.ObjectType)
    && Knows(lib, fields, mirror, "platform", V.ObjectType) && Knows(lib, fields, mirror, "operators", V.ObjectsType)
    && Knows(lib, fields, mirror, "additionalImages", V.ObjectsType)
    && Knows(lib, fields, platform, "channels", V.ObjectsType)
    && Knows(lib, fields, platform, "architectures", V.StringsType)
    && Knows(lib, fields, platform, "graph", V.BooleanType)
    && Knows(lib, fields, platform, "kubeVirtContainer", V.BooleanType)
    && KnowsChannel(lib, fields, releases)
    && Knows(lib, fields, operators, "catalog", V.StringType)
    && Knows(lib, fields, operators, "packages", V.ObjectsType)
    && Knows(lib, fields, packages, "name", V.StringType) && Knows(lib, fields, packages, "channels", V.ObjectsType)
    && KnowsChannel(lib, fields, V.ChildKey(packages, "channels") + "[]")
    && Knows(lib, fields, V.ChildKey(mirror, "additionalImages") + "[]", "name", V.StringType)
  }

  ghost predicate KnowsChannel(lib: V.Library, fields: V.Fields, sp: string) {
    Knows(lib, fields, sp, "name", V.StringType) && Knows(lib, fields, sp, "minVersion", V.StringType)
    && Knows(lib, fields, sp, "maxVersion", V.StringType)
  }

  /** Members that may stand below a path, each documented. */
  ghost predicate Fits(lib: V.Library, fields: V.Fields, sp: string, members: Assoc<Json>) {
    forall i :: 0 <= i < |members| ==>
      V.Canonical(lib, fields, sp, members[i].0) == Some(members[i].0) && !members[i].1.Null? &&
      V.Documented(lib, fields, members[i].1, V.ChildKey(sp, members[i].0))
  }

  lemma FitsConcat(lib: V.Library, fields: V.Fields, sp: string, a: Assoc<Json>, b: Assoc<Json>)
    requires Fits(lib, fields, sp, a) && Fits(lib, fields, sp, b)
    ensures Fits(lib, fields, sp, a + b)
  {
    hide V.Documented, V.Canonical;
  }

  lemma FitsOne(lib: V.Library, fields: V.Fields, sp: string, key: string, v: Json)
    requires V.Canonical(lib, fields, sp, key) == Some(key) && !v.Null?
    requires V.Documented(lib, fields, v, V.ChildKey(sp, key))
    ensures Fits(lib, fields, sp, [(key, v)]) && Fits(lib, fields, sp, [])
  {
  }

  /** A leaf of any kind the schema calls text, boolean or number. */
  lemma FitsLeaf(lib: V.Library, fields: V.Fields, sp: string, key: string, v: Json, kind: V.FieldType)
    requires Knows(lib, fields, sp, key, kind) && !v.Null?
    requires kind.StringType? || kind.BooleanType? || kind.IntegerType? || (kind.StringsType? && v.Arr?)
    ensures Fits(lib, fields, sp, [(key, v)]) && Fits(lib, fields, sp, [])
  {
    hide V.Canonical, V.SpecAt, V.ChildKey;
    FitsOne(lib, fields, sp, key, v);
  }

  lemma DocumentedObject(lib: V.Library, fields: V.Fields, sp: string, members: Assoc<Json>)
    requires V.SpecAt(fields, sp).fieldType == V.ObjectType && DistinctKeys(members) && Fits(lib, fields, sp, members)
    ensures V.Documented(lib, fields, Obj(members), sp)
  {
    hide V.Canonical, V.SpecAt, V.ChildKey, DistinctKeys;
  }

  lemma DocumentedList(lib: V.Library, fields: V.Fields, sp: string, items: seq<Json>)
    requires V.SpecAt(fields, sp).fieldType == V.ObjectsType
    requires forall i :: 0 <= i < |items| ==> V.Documented(lib, fields, items[i], sp + "[]")
    ensures V.Documented(lib, fields, Arr(items), sp)
  {
    hide V.SpecAt;
  }

  lemma ItemsAreMappings(fields: V.Fields, sp: string)
    ensures V.SpecAt(fields, sp + "[]").fieldType == V.ObjectType
  {
    assert (sp + "[]")[|sp + "[]"| - 2..] == "[]";
  }

  lemma ChannelDocumented(lib: V.Library, fields: V.Fields, sp: string, p: Package)
    requires KnowsChannel(lib, fields, sp + "[]")
    ensures V.Documented(lib, fields, ChannelJson(p), sp + "[]")
  {
    hide V.Canonical, V.SpecAt, V.ChildKey, V.Documented, Fits, Knows;
    var a: Assoc<Json> := [("name", Str(p.channel))];
    var b, c := WhenText("minVersion", p.minVersion), WhenText("maxVersion", p.maxVersion);
    FitsLeaf(lib, fields, sp + "[]", "name", Str(p.channel), V.StringType);
    FitsLeaf(lib, fields, sp + "[]", "minVersion", Str(p.minVersion), V.StringType);
    FitsLeaf(lib, fields, sp + "[]", "maxVersion", Str(p.maxVersion), V.StringType);
    FitsConcat(lib, fields, sp + "[]", a, b);
    FitsConcat(lib, fields, sp + "[]", a + b, c);
    ItemsAreMappings(fields, sp);
    DocumentedObject(lib, fields, sp + "[]", a + b + c);
  }

  lemma PackageDocumented(lib: V.Library, fields: V.Fields, sp: string, p: Package)
    requires Knows(lib, fields, sp + "[]", "name", V.StringType)
             && Knows(lib, fields, sp + "[]", "channels", V.ObjectsType)
    requires KnowsChannel(lib, fields, V.ChildKey(sp + "[]", "channels") + "[]")
    ensures V.Documented(lib, fields, PackageJson(p), sp + "[]")
  {
    hide V.Canonical, V.SpecAt, V.ChildKey, V.Documented, Fits, ChannelJson, KnowsChannel;
    var channels := Arr([ChannelJson(p)]);
    ChannelDocumented(lib, fields, V.ChildKey(sp + "[]", "channels"), p);
    DocumentedList(lib, fields, V.ChildKey(sp + "[]", "channels"), [ChannelJson(p)]);
    FitsLeaf(lib, fields, sp + "[]", "name", Str(p.name), V.StringType);
    FitsOne(lib, fields, sp + "[]", "channels", channels);
    FitsConcat(lib, fields, sp + "[]", [("name", Str(p.name))], [("channels", channels)]);
    ItemsAreMappings(fields, sp);
    assert [("name", Str(p.name))] + [("channels", channels)] == PackageJson(p).fields;
    DocumentedObject(lib, fields, sp + "[]", PackageJson(p).fields);
  }

  lemma CatalogDocumented(lib: V.Library, fields: V.Fields, sp: string, group: (string, seq<Package>))
    requires Knows(lib, fields, sp + "[]", "catalog", V.StringType)
             && Knows(lib, fields, sp + "[]", "packages", V.ObjectsType)
    requires var packages := V.ChildKey(sp + "[]", "packages") + "[]";
             && Knows(lib, fields, packages, "name", V.StringType)
             && Knows(lib, fields, packages, "channels", V.ObjectsType)
             && KnowsChannel(lib, fields, V.ChildKey(packages, "channels") + "[]")
    ensures V.Documented(lib, fields, CatalogJson(group), sp + "[]")
  {
    hide V.Canonical, V.SpecAt, V.ChildKey, V.Documented, Fits, PackageJson, KnowsChannel;
    var inner := V.ChildKey(sp + "[]", "packages");
    var packages := Arr(PackagesJson(group.1));
    forall i | 0 <= i < |PackagesJson(group.1)|
      ensures V.Documented(lib, fields, PackagesJson(group.1)[i], inner + "[]")
    {
      PackageDocumented(lib, fields, inner, group.1[i]);
    }
    DocumentedList(lib, fields, inner, PackagesJson(group.1));
    FitsLeaf(lib, fields, sp + "[]", "catalog", Str(group.0), V.StringType);
    FitsOne(lib, fields, sp + "[]", "packages", packages);
    FitsConcat(lib, fields, sp + "[]", [("catalog", Str(group.0))], [("packages", packages)]);
    ItemsAreMappings(fields, sp);
    assert [("catalog", Str(group.0))] + [("packages", packages)] == CatalogJson(group).fields;
    DocumentedObject(lib, fields, sp + "[]", CatalogJson(group).fields);
  }

  lemma PlatformDocumented(lib: V.Library, fields: V.Fields, sp: string, r: Request)
    requires V.SpecAt(fields, sp).fieldType == V.ObjectType
    requires Knows(lib, fields, sp, "channels", V.ObjectsType) && Knows(lib, fields, sp, "architectures", V.StringsType)
    requires Knows(lib, fields, sp, "graph", V.BooleanType)
             && Knows(lib, fields, sp, "kubeVirtContainer", V.BooleanType)
    requires KnowsChannel(lib, fields, V.ChildKey(sp, "channels") + "[]")
    ensures V.Documented(lib, fields, PlatformJson(r), sp) && PlatformJson(r).Obj?
  {
    hide V.Canonical, V.SpecAt, V.ChildKey, V.Documented, Fits, KnowsChannel;
    var channel := Obj([("name", Str("stable-" + r.PlatformMinor())), ("minVersion", Str(r.version)),
                        ("maxVersion", Str(r.version))]);
    var a: Assoc<Json> := [("channels", Arr([channel]))];
    var b: Assoc<Json> := if r.arch == "" then [] else [("architectures", Arr([Str(r.arch)]))];
    var c, d := WhenSet("graph", r.graph), WhenSet("kubeVirtContainer", r.kubeVirt);
    ReleaseDocumented(lib, fields, V.ChildKey(sp, "channels"), r);
    DocumentedList(lib, fields, V.ChildKey(sp, "channels"), [channel]);
    FitsOne(lib, fields, sp, "channels", Arr([channel]));
    FitsLeaf(lib, fields, sp, "architectures", Arr([Str(r.arch)]), V.StringsType);
    FitsLeaf(lib, fields, sp, "graph", Bool(true), V.BooleanType);
    FitsLeaf(lib, fields, sp, "kubeVirtContainer", Bool(true), V.BooleanType);
    FitsConcat(lib, fields, sp, a, b);
    FitsConcat(lib, fields, sp, a + b, c);
    FitsConcat(lib, fields, sp, a + b + c, d);
    assert DistinctKeys(a + b + c + d);
    DocumentedObject(lib, fields, sp, a + b + c + d);
  }

  lemma ReleaseDocumented(lib: V.Library, fields: V.Fields, sp: string, r: Request)
    requires KnowsChannel(lib, fields, sp + "[]")
    ensures V.Documented(lib, fields, Obj([("name", Str("stable-" + r.PlatformMinor())), ("minVersion", Str(r.version)),
                                           ("maxVersion", Str(r.version))]), sp + "[]")
  {
    hide V.Canonical, V.SpecAt, V.ChildKey, V.Documented, Fits, Knows;
    var a: Assoc<Json> := [("name", Str("stable-" + r.PlatformMinor()))];
    var b: Assoc<Json>, c: Assoc<Json> := [("minVersion", Str(r.version))], [("maxVersion", Str(r.version))];
    FitsLeaf(lib, fields, sp + "[]", "name", a[0].1, V.StringType);
    FitsLeaf(lib, fields, sp + "[]", "minVersion", b[0].1, V.StringType);
    FitsLeaf(lib, fields, sp + "[]", "maxVersion", c[0].1, V.StringType);
    FitsConcat(lib, fields, sp + "[]", a, b);
    FitsConcat(lib, fields, sp + "[]", a + b, c);
    ItemsAreMappings(fields, sp);
    assert a + b + c == [a[0], b[0], c[0]];
    DocumentedObject(lib, fields, sp + "[]", a + b + c);
  }

  lemma ImagesDocumented(lib: V.Library, fields: V.Fields, sp: string, names: seq<string>)
    requires V.SpecAt(fields, sp).fieldType == V.ObjectsType && Knows(lib, fields, sp + "[]", "name", V.StringType)
    ensures V.Documented(lib, fields, Arr(ImagesJson(names)), sp)
  {
    hide V.Canonical, V.SpecAt, V.ChildKey, V.Documented, Fits;
    ItemsAreMappings(fields, sp);
    forall i | 0 <= i < |names| ensures V.Documented(lib, fields, ImagesJson(names)[i], sp + "[]") {
      FitsLeaf(lib, fields, sp + "[]", "name", Str(names[i]), V.StringType);
      DocumentedObject(lib, fields, sp + "[]", [("name", Str(names[i]))]);
    }
    DocumentedList(lib, fields, sp, ImagesJson(names));
  }

  lemma MirrorDocumented(lib: V.Library, fields: V.Fields, r: Request)
    requires KnowsGenerated(lib, fields)
    ensures V.Documented(lib, fields, Obj(MirrorFields(r, OperatorEntries(r))), V.ChildKey("", "mirror"))
  {
    hide V.Canonical, V.SpecAt, V.ChildKey, V.Documented, Fits, KnowsChannel, PlatformJson, ImagesJson, CatalogJson,
         Grouped;
    var sp := V.ChildKey("", "mirror");
    var ops := ChosenOperators(r);
    var groups, entries := Grouped(ops, r.CatalogMinor(), |ops|), OperatorEntries(r);
    var a: Assoc<Json> := if r.IncludePlatform() then [("platform", PlatformJson(r))] else [];
    var b: Assoc<Json> := if r.IncludeOperators() then [("operators", Arr(entries))] else [];
    var c: Assoc<Json> := if r.IncludeAdditional() && r.additionalImages != []
                          then [("additionalImages", Arr(ImagesJson(r.additionalImages)))] else [];
    PlatformDocumented(lib, fields, V.ChildKey(sp, "platform"), r);
    FitsOne(lib, fields, sp, "platform", PlatformJson(r));
    forall i | 0 <= i < |entries| ensures V.Documented(lib, fields, entries[i], V.ChildKey(sp, "operators") + "[]") {
      CatalogDocumented(lib, fields, V.ChildKey(sp, "operators"), groups[i]);
    }
    DocumentedList(lib, fields, V.ChildKey(sp, "operators"), entries);
    FitsOne(lib, fields, sp, "operators", Arr(entries));
    ImagesDocumented(lib, fields, V.ChildKey(sp, "additionalImages"), r.additionalImages);
    FitsOne(lib, fields, sp, "additionalImages", Arr(ImagesJson(r.additionalImages)));
    FitsConcat(lib, fields, sp, a, b);
    FitsConcat(lib, fields, sp, a + b, c);
    assert DistinctKeys(a + b + c);
    DocumentedObject(lib, fields, sp, a + b + c);
  }

  lemma GeneratedDocumented(lib: V.Library, fields: V.Fields, r: Request)
    requires KnowsGenerated(lib, fields)
    ensures V.Documented(lib, fields, DocumentOf(r, OperatorEntries(r)), "")
  {
    hide V.Canonical, V.SpecAt, V.ChildKey, V.Documented, Fits, KnowsChannel, MirrorFields, OperatorEntries;
    var mirror := Obj(MirrorFields(r, OperatorEntries(r)));
    var a: Assoc<Json>, b: Assoc<Json> :=
      [("apiVersion", Str("mirror.openshift.io/v2alpha1"))], [("kind", Str("ImageSetConfiguration"))];
    var c: Assoc<Json> := match r.archiveSize case Some(n) => [("archiveSize", Num(n))] case None => [];
    MirrorDocumented(lib, fields, r);
    FitsLeaf(lib, fields, "", "apiVersion", a[0].1, V.StringType);
    FitsLeaf(lib, fields, "", "kind", b[0].1, V.StringType);
    if r.archiveSize.Some? { FitsLeaf(lib, fields, "", "archiveSize", Num(r.archiveSize.value), V.IntegerType); }
    FitsOne(lib, fields, "", "mirror", mirror);
    FitsConcat(lib, fields, "", a, b);
    FitsConcat(lib, fields, "", a + b, c);
    FitsConcat(lib, fields, "", a + b + c, [("mirror", mirror)]);
    assert a + b + c + [("mirror", mirror)] == DocumentOf(r, OperatorEntries(r)).fields;
    assert DistinctKeys(a + b + c + [("mirror", mirror)]);
    RootIsMapping(fields);
    DocumentedObject(lib, fields, "", a + b + c + [("mirror", mirror)]);
  }

  lemma RootIsMapping(fields: V.Fields)
    ensures V.SpecAt(fields, "").fieldType == V.ObjectType
  {
  }

  /**
   Through the whole validator: a generated document is its own normalised form, a duplicate is reported exactly when
   one catalog was asked for one name twice, and mixed version filters never.
   */
  lemma GeneratedIsNormal(lib: V.Library, fields: V.Fields, r: Request)
    requires KnowsGenerated(lib, fields)
    ensures var report := V.Validated(lib, fields, DocumentOf(r, OperatorEntries(r)));
            && report.normalized == Some(DocumentOf(r, OperatorEntries(r)))
            && (Reports(report.errors, V.DuplicateEntry)
                <==> exists i: nat, j: nat :: PairRepeats(ChosenOperators(r), r.CatalogMinor(), i, j))
            && !Reports(report.errors, V.MixedVersionFilters)
  {
    hide V.WalkOf, V.SemanticErrors, OperatorEntries, Reports, PairRepeats, V.Documented, KnowsGenerated;
    var doc := DocumentOf(r, OperatorEntries(r));
    GeneratedDocumented(lib, fields, r);
    V.WalkUnchanged(lib, fields, doc, "", "");
    GeneratedSatisfiesValidator(lib, r);
    var walked := V.WalkOf(lib, fields, doc, "", "").errors;
    V.WalkStructural(lib, fields, doc, "", "");
    StructuralSilent(walked);
    ReportsConcat(walked, V.SemanticErrors(lib, doc), V.DuplicateEntry);
    ReportsConcat(walked, V.SemanticErrors(lib, doc), V.MixedVersionFilters);
  }

  lemma StructuralSilent(errors: seq<V.Finding>)
    requires V.AllStructural(errors)
    ensures !Reports(errors, V.DuplicateEntry) && !Reports(errors, V.MixedVersionFilters)
  {
  }
}
