/**
 Structural validation of an ImageSetConfiguration against its schema, which also rewrites the document to the
 documented key spelling (`backend/src/imagesetConfigValidator.js`).

 Regular expressions over strings, `toLowerCase` and the text of an index are parameters. A finding keeps its path, code
 and authority; its message is not modelled.
 */
module ImageSetValidator {
  import opened Wrappers
  import opened Text
  import opened OrderedMap
  import opened JsonValue

  datatype FieldType = ObjectType | ObjectsType | StringsType | StringType | BooleanType | IntegerType | OtherType

  /** One entry of the schema's `fields`; `required` is the authority, or "" when optional. */
  datatype Spec = Spec(
    fieldType: FieldType, required: string, caseSensitiveKey: bool,
    allowed: Option<seq<string>>, itemAllowed: Option<seq<string>>, format: string, min: Option<real>)

  type Fields = Assoc<Spec>

  datatype Library = Library(
    lower: string -> string,
    semver: string -> bool,
    badReference: (string, bool) -> bool,
    shortName: string -> bool,
    httpUrl: string -> bool,
    credentialUrl: string -> bool,
    safeInteger: real -> bool,
    indexText: nat -> string,
    asText: Json -> string)

  datatype Code =
    | NotAMapping | WrongType | UnknownField | DuplicateKeyCase | KeyCase | NullValue | Required | InvalidValue
    | NotSemver | InvalidReference | ShortImageName | InvalidUrl | CredentialsInUrl | OutOfRange
    | EmptyMirror | DuplicateEntry | MixedVersionFilters

  datatype Finding = Finding(path: string, code: Code, authority: string)

  const ANYTHING := Spec(OtherType, "", false, None, None, "", None)
  const MAPPING := Spec(ObjectType, "", false, None, None, "", None)

  function At(path: string, code: Code, authority: string): Finding {
    Finding(if path == "" then "(document)" else path, code, authority)
  }

  // ----- the child index

  function ChildKey(parent: string, key: string): string { if parent == "" then key else parent + "." + key }

  function ParentOf(path: string): string {
    if LastIndexOf(path, '.') == -1 then "" else path[..LastIndexOf(path, '.')]
  }

  function KeyOf(path: string): string { path[LastIndexOf(path, '.') + 1..] }

  /** The children of one path, by lower-case key, over the first `n` fields. */
  function Children(lib: Library, fields: Fields, parent: string, n: nat): Assoc<string>
    requires n <= |fields|
  {
    if n == 0 then []
    else
      var before := Children(lib, fields, parent, n - 1);
      var path := fields[n - 1].0;
      if ParentOf(path) == parent then Put(before, lib.lower(KeyOf(path)), KeyOf(path)) else before
  }

  function ChildrenOf(lib: Library, fields: Fields, parent: string): Assoc<string> {
    Children(lib, fields, parent, |fields|)
  }

  function OrNone(index: Option<Assoc<string>>): Assoc<string> {
    match index case None => [] case Some(m) => m
  }

  method BuildChildIndex(lib: Library, fields: Fields) returns (index: Assoc<Assoc<string>>)
    ensures forall parent :: OrNone(Lookup(index, parent)) == ChildrenOf(lib, fields, parent)
  {
    hide LastIndexOf;
    index := [];
    var i := 0;
    while i < |fields|
      invariant 0 <= i <= |fields|
      invariant forall parent :: OrNone(Lookup(index, parent)) == Children(lib, fields, parent, i)
    {
      var parent, key := ParentOf(fields[i].0), KeyOf(fields[i].0);
      var inner := OrNone(Lookup(index, parent));
      ghost var before := index;
      var entry := Put(inner, lib.lower(key), key);
      index := Put(index, parent, entry);
      forall other ensures OrNone(Lookup(index, other)) == Children(lib, fields, other, i + 1) {
        LookupPut(before, parent, entry, other);
      }
      i := i + 1;
    }
  }

  /** A path is a dotted list of keys: it does not start with a dot. */
  ghost predicate WellFormed(fields: Fields) {
    forall i :: 0 <= i < |fields| ==> fields[i].0 == "" || fields[i].0[0] != '.'
  }

  /** Every child the index offers is a field of the schema, found under its own lower-case key. */
  lemma {:induction false} ChildIsField(lib: Library, fields: Fields, parent: string, n: nat, low: string)
    requires n <= |fields| && WellFormed(fields) && Has(Children(lib, fields, parent, n), low)
    ensures var key := Lookup(Children(lib, fields, parent, n), low).value;
            lib.lower(key) == low && Has(fields, ChildKey(parent, key))
  {
    assert n > 0;
    hide LastIndexOf, ParentOf, KeyOf, ChildKey, Lookup, Put;
    var path := fields[n - 1].0;
    var before := Children(lib, fields, parent, n - 1);
    if ParentOf(path) == parent {
      LookupPut(before, lib.lower(KeyOf(path)), KeyOf(path), low);
      if low == lib.lower(KeyOf(path)) {
        PathParts(path);
        HasIffKey(fields, path);
        assert Keys(fields)[n - 1] == path;
      } else {
        ChildIsField(lib, fields, parent, n - 1, low);
      }
    } else {
      ChildIsField(lib, fields, parent, n - 1, low);
    }
  }

  lemma PathParts(path: string)
    requires path == "" || path[0] != '.'
    ensures ChildKey(ParentOf(path), KeyOf(path)) == path
  {
    var dot := LastIndexOf(path, '.');
    if dot >= 0 {
      assert path == path[..dot] + [path[dot]] + path[dot + 1..];
    }
  }

  // ----- the walk

  function Ends(path: string): bool { |path| >= 2 && path[|path| - 2..] == "[]" }

  /** How the value at a schema path is described; `ANYTHING` stands for a missing entry, which no walk meets. */
  function SpecAt(fields: Fields, schemaPath: string): Spec {
    if schemaPath == "" || Ends(schemaPath) then MAPPING
    else match Lookup(fields, schemaPath) case Some(s) => s case None => ANYTHING
  }

  function Below(path: string, key: string): string { if path == "" then key else path + "." + key }

  function ReferenceErrors(lib: Library, spec: Spec, schemaPath: string, path: string, s: string): seq<Finding> {
    var catalog := schemaPath == "mirror.operators[].catalog";
    if spec.format == "image-reference" && lib.badReference(s, catalog)
    then [At(path, InvalidReference, if catalog then "binary" else "binary-at-run")] else []
  }

  function UrlErrors(lib: Library, spec: Spec, path: string, s: string): seq<Finding> {
    (if spec.format == "http-url-without-credentials" && s != "" && !lib.httpUrl(s)
     then [At(path, InvalidUrl, "architect")] else []) +
    (if lib.credentialUrl(s) then [At(path, CredentialsInUrl, "architect")] else [])
  }

  function StringErrors(lib: Library, spec: Spec, schemaPath: string, path: string, s: string): seq<Finding> {
    (if spec.allowed.Some? && s !in spec.allowed.value
     then [At(path, InvalidValue, if schemaPath == "kind" then "binary" else "architect")] else []) +
    (if spec.format == "semver" && s != "" && !lib.semver(s) then [At(path, NotSemver, "binary")] else []) +
    ReferenceErrors(lib, spec, schemaPath, path, s) + UrlErrors(lib, spec, path, s)
  }

  function StringWarnings(lib: Library, spec: Spec, schemaPath: string, path: string, s: string): seq<Finding> {
    if spec.format == "image-reference" && !lib.badReference(s, schemaPath == "mirror.operators[].catalog")
       && lib.shortName(s)
    then [At(path, ShortImageName, "architect")] else []
  }

  function ItemErrors(lib: Library, spec: Spec, path: string, item: Json): seq<Finding> {
    match item
    case Str(s) =>
      (if spec.itemAllowed.Some? && s !in spec.itemAllowed.value then [At(path, InvalidValue, "architect")] else []) +
      (if lib.credentialUrl(s) then [At(path, CredentialsInUrl, "architect")] else [])
    case _ => [At(path, WrongType, "binary")]
  }

  function IntegerErrors(lib: Library, spec: Spec, path: string, v: Json): seq<Finding> {
    match v
    case Num(n) =>
      if !lib.safeInteger(n) then [At(path, WrongType, "binary")]
      else if spec.min.Some? && n < spec.min.value then [At(path, OutOfRange, "architect")]
      else []
    case _ => [At(path, WrongType, "binary")]
  }

  datatype Walked = Walked(value: Json, errors: seq<Finding>, warnings: seq<Finding>)

  /** Where the loop over an object's members stands: what it has kept, which fields it has met, what it has found. */
  datatype Members = Members(kept: Assoc<Json>, seen: set<string>, errors: seq<Finding>, warnings: seq<Finding>)

  datatype Items = Items(values: seq<Json>, errors: seq<Finding>, warnings: seq<Finding>)

  function ItemPath(lib: Library, path: string, i: nat): string { path + "[" + lib.indexText(i) + "]" }

  /** The field a key stands for: `None` when there is none, or when it must be spelled exactly and is not. */
  function Canonical(lib: Library, fields: Fields, schemaPath: string, key: string): Option<string> {
    match Lookup(ChildrenOf(lib, fields, schemaPath), lib.lower(key))
    case None => None
    case Some(canonical) => if canonical == "" then None else Some(canonical)
  }

  function WalkOf(lib: Library, fields: Fields, v: Json, schemaPath: string, path: string): Walked
    decreases v, 1, 0
  {
    var spec := SpecAt(fields, schemaPath);
    match spec.fieldType
    case ObjectType =>
      if !v.Obj? then Walked(Null, [At(path, WrongType, "binary")], [])
      else
        var m := MembersWalked(lib, fields, v, |v.fields|, schemaPath, path);
        Walked(Obj(m.kept), m.errors + RequiredErrors(lib, fields, m, schemaPath, path), m.warnings)
    case ObjectsType =>
      if !v.Arr? then Walked(Null, [At(path, WrongType, "binary")], [])
      else
        var items := ItemsWalked(lib, fields, v, |v.items|, schemaPath, path);
        Walked(Arr(items.values), items.errors, items.warnings)
    case StringsType =>
      if !v.Arr? then Walked(Null, [At(path, WrongType, "binary")], [])
      else Walked(v, TextItemErrors(lib, spec, v.items, |v.items|, path), [])
    case StringType =>
      if !v.Str? then Walked(v, [At(path, WrongType, "binary")], [])
      else Walked(v, StringErrors(lib, spec, schemaPath, path, v.text),
                  StringWarnings(lib, spec, schemaPath, path, v.text))
    case BooleanType => Walked(v, if v.Bool? then [] else [At(path, WrongType, "binary")], [])
    case IntegerType => Walked(v, IntegerErrors(lib, spec, path, v), [])
    case OtherType => Walked(v, [], [])
  }

  function ItemsWalked(lib: Library, fields: Fields, v: Json, n: nat, schemaPath: string, path: string): Items
    requires v.Arr? && n <= |v.items|
    decreases v, 0, n
  {
    if n == 0 then Items([], [], [])
    else
      var before := ItemsWalked(lib, fields, v, n - 1, schemaPath, path);
      var w := WalkOf(lib, fields, v.items[n - 1], schemaPath + "[]", ItemPath(lib, path, n - 1));
      Items(before.values + [w.value], before.errors + w.errors, before.warnings + w.warnings)
  }

  function TextItemErrors(lib: Library, spec: Spec, items: seq<Json>, n: nat, path: string): seq<Finding>
    requires n <= |items|
  {
    if n == 0 then []
    else TextItemErrors(lib, spec, items, n - 1, path) + ItemErrors(lib, spec, ItemPath(lib, path, n - 1), items[n - 1])
  }

  /** What meeting a member says before its value is looked at; `true` when the value is then walked. */
  function Met(lib: Library, fields: Fields, m: Members, key: string, child: Json, schemaPath: string, path: string)
    : (Members, bool)
  {
    match Canonical(lib, fields, schemaPath, key)
    case None => (m.(errors := m.errors + [At(Below(path, key), UnknownField, "binary")]), false)
    case Some(canonical) =>
      if canonical in m.seen then
        (m.(errors := m.errors + [At(Below(path, key), DuplicateKeyCase, "architect")]), false)
      else
        var spec := match Lookup(fields, ChildKey(schemaPath, canonical)) case Some(s) => s case None => ANYTHING;
        var now := m.(seen := m.seen + {canonical});
        if key != canonical && spec.caseSensitiveKey then
          (now.(errors := m.errors + [At(Below(path, key), UnknownField, "binary")]), false)
        else
          var cased := if key == canonical then now
                       else now.(warnings := m.warnings + [At(Below(path, key), KeyCase, "architect")]);
          if child.Null? then
            (if spec.required != "" then cased
             else cased.(warnings := cased.warnings + [At(Below(path, canonical), NullValue, "architect")]), false)
          else (cased, true)
  }

  function MembersWalked(lib: Library, fields: Fields, v: Json, n: nat, schemaPath: string, path: string): Members
    requires v.Obj? && n <= |v.fields|
    decreases v, 0, n
  {
    if n == 0 then Members([], {}, [], [])
    else
      var before := MembersWalked(lib, fields, v, n - 1, schemaPath, path);
      var key := v.fields[n - 1].0;
      assert v.fields[n - 1].1 < v.fields[n - 1];
      var child := v.fields[n - 1].1;
      var (m, goOn) := Met(lib, fields, before, key, child, schemaPath, path);
      if !goOn then m
      else
        var canonical := Canonical(lib, fields, schemaPath, key).value;
        var w := WalkOf(lib, fields, child, ChildKey(schemaPath, canonical), Below(path, canonical));
        m.(kept := Put(m.kept, canonical, w.value), errors := m.errors + w.errors, warnings := m.warnings + w.warnings)
  }

  /** A required field is missing, null or blank. */
  predicate Lacking(kept: Assoc<Json>, canonical: string) {
    match Lookup(kept, canonical)
    case None => true
    case Some(v) => v.Null? || v == Str("")
  }

  function RequiredOf(fields: Fields, schemaPath: string, canonical: string): string {
    match Lookup(fields, ChildKey(schemaPath, canonical)) case Some(s) => s.required case None => ""
  }

  function RequiredUpTo(lib: Library, fields: Fields, m: Members, n: nat, schemaPath: string, path: string)
    : seq<Finding>
    requires n <= |ChildrenOf(lib, fields, schemaPath)|
  {
    if n == 0 then []
    else
      var canonical := ChildrenOf(lib, fields, schemaPath)[n - 1].1;
      var required := RequiredOf(fields, schemaPath, canonical);
      RequiredUpTo(lib, fields, m, n - 1, schemaPath, path) +
      if required == "" || !Lacking(m.kept, canonical) then []
      else [At(Below(path, canonical), Required, if canonical in m.seen then "architect" else required)]
  }

  function RequiredErrors(lib: Library, fields: Fields, m: Members, schemaPath: string, path: string): seq<Finding> {
    RequiredUpTo(lib, fields, m, |ChildrenOf(lib, fields, schemaPath)|, schemaPath, path)
  }

  // ----- the rules on the whole document

  function ListAt(v: Option<Json>, key: string): seq<Json> {
    match Prop(v, key) case Some(Arr(items)) => items case _ => []
  }

  /** A name that counts for the duplicate rules: non-empty text. */
  function NameOf(item: Json): Option<string> {
    match Prop(Some(item), "name") case Some(Str(s)) => (if s == "" then None else Some(s)) case _ => None
  }

  function NamesUpTo(items: seq<Json>, n: nat): set<string>
    requires n <= |items|
  {
    set i | 0 <= i < n && NameOf(items[i]).Some? :: NameOf(items[i]).value
  }

  predicate RepeatsName(items: seq<Json>, i: nat)
    requires i < |items|
  {
    NameOf(items[i]).Some? && NameOf(items[i]).value in NamesUpTo(items, i)
  }

  function ReleaseChannelErrors(lib: Library, items: seq<Json>, n: nat): seq<Finding>
    requires n <= |items|
  {
    if n == 0 then []
    else
      ReleaseChannelErrors(lib, items, n - 1) +
      if RepeatsName(items, n - 1)
      then [At(ItemPath(lib, "mirror.platform.channels", n - 1) + ".name", DuplicateEntry, "binary")] else []
  }

  predicate Filters(item: Json) {
    Truthy(Prop(Some(item), "minVersion")) || Truthy(Prop(Some(item), "maxVersion"))
  }

  function ChannelErrorsAt(lib: Library, filtered: bool, items: seq<Json>, k: nat, here: string): seq<Finding>
    requires k < |items|
  {
    (if RepeatsName(items, k) then [At(here + ".name", DuplicateEntry, "binary")] else []) +
    (if filtered && Filters(items[k]) then [At(here, MixedVersionFilters, "binary")] else [])
  }

  function ChannelErrors(lib: Library, filtered: bool, items: seq<Json>, n: nat, base: string): seq<Finding>
    requires n <= |items|
  {
    if n == 0 then []
    else
      ChannelErrors(lib, filtered, items, n - 1, base) +
      ChannelErrorsAt(lib, filtered, items, n - 1, ItemPath(lib, base + ".channels", n - 1))
  }

  function PackageErrorsAt(lib: Library, items: seq<Json>, j: nat, here: string): seq<Finding>
    requires j < |items|
  {
    var channels := ListAt(Some(items[j]), "channels");
    (if RepeatsName(items, j) then [At(here + ".name", DuplicateEntry, "binary")] else []) +
    ChannelErrors(lib, Filters(items[j]), channels, |channels|, here)
  }

  function PackageErrors(lib: Library, items: seq<Json>, n: nat, base: string): seq<Finding>
    requires n <= |items|
  {
    if n == 0 then []
    else
      PackageErrors(lib, items, n - 1, base) +
      PackageErrorsAt(lib, items, n - 1, ItemPath(lib, base + ".packages", n - 1))
  }

  function TextOr(lib: Library, v: Option<Json>): string {
    if !Truthy(v) then "" else match v.value case Str(s) => s case w => lib.asText(w)
  }

  /** A catalog with its target; `None` for an entry without a catalog name. */
  function TargetOf(lib: Library, op: Json): Option<string> {
    match Prop(Some(op), "catalog")
    case Some(Str(s)) =>
      Some(s + "|" + TextOr(lib, Prop(Some(op), "targetCatalog")) + "|" + TextOr(lib, Prop(Some(op), "targetTag")))
    case _ => None
  }

  function TargetsUpTo(lib: Library, ops: seq<Json>, n: nat): set<string>
    requires n <= |ops|
  {
    set i | 0 <= i < n && TargetOf(lib, ops[i]).Some? :: TargetOf(lib, ops[i]).value
  }

  function OperatorErrorsAt(lib: Library, ops: seq<Json>, i: nat, here: string): seq<Finding>
    requires i < |ops|
  {
    var packages := ListAt(Some(ops[i]), "packages");
    match TargetOf(lib, ops[i])
    case None => []
    case Some(target) =>
      (if target in TargetsUpTo(lib, ops, i) then [At(here + ".catalog", DuplicateEntry, "binary")] else []) +
      PackageErrors(lib, packages, |packages|, here)
  }

  function OperatorErrors(lib: Library, ops: seq<Json>, n: nat): seq<Finding>
    requires n <= |ops|
  {
    if n == 0 then []
    else
      OperatorErrors(lib, ops, n - 1) + OperatorErrorsAt(lib, ops, n - 1, ItemPath(lib, "mirror.operators", n - 1))
  }

  predicate NothingToMirror(mirror: Option<Json>) {
    && ListAt(Prop(mirror, "platform"), "channels") == [] && ListAt(mirror, "operators") == []
    && ListAt(mirror, "additionalImages") == [] && ListAt(mirror, "samples") == []
    && ListAt(Prop(mirror, "helm"), "local") == [] && ListAt(Prop(mirror, "helm"), "repositories") == []
  }

  function SemanticErrors(lib: Library, doc: Json): seq<Finding> {
    var mirror := Prop(Some(doc), "mirror");
    if mirror.None? || !mirror.value.Obj? then []
    else
      var channels, ops := ListAt(Prop(mirror, "platform"), "channels"), ListAt(mirror, "operators");
      (if NothingToMirror(mirror) then [At("mirror", EmptyMirror, "architect")] else []) +
      (ReleaseChannelErrors(lib, channels, |channels|) + OperatorErrors(lib, ops, |ops|))
  }

  datatype Report = Report(errors: seq<Finding>, warnings: seq<Finding>, normalized: Option<Json>) {
    predicate Valid() { errors == [] }
  }

  function Validated(lib: Library, fields: Fields, doc: Json): Report {
    if !doc.Obj? then Report([At("", NotAMapping, "binary")], [], None)
    else
      var w := WalkOf(lib, fields, doc, "", "");
      Report(w.errors + SemanticErrors(lib, w.value), w.warnings, Some(w.value))
  }

  lemma Regroup(a: seq<Finding>, b: seq<Finding>, c: seq<Finding>)
    ensures (a + b) + c == a + (b + c)
  {
  }

  lemma NoNames(items: seq<Json>)
    ensures NamesUpTo(items, 0) == {}
  {
  }

  lemma NoTargets(lib: Library, ops: seq<Json>)
    ensures TargetsUpTo(lib, ops, 0) == {}
  {
  }

  lemma NamesStep(items: seq<Json>, n: nat)
    requires n < |items|
    ensures NamesUpTo(items, n + 1)
         == if NameOf(items[n]).Some? then NamesUpTo(items, n) + {NameOf(items[n]).value} else NamesUpTo(items, n)
  {
    hide NameOf;
  }

  lemma TargetsStep(lib: Library, ops: seq<Json>, n: nat)
    requires n < |ops|
    ensures TargetsUpTo(lib, ops, n + 1)
         == if TargetOf(lib, ops[n]).Some? then TargetsUpTo(lib, ops, n) + {TargetOf(lib, ops[n]).value}
            else TargetsUpTo(lib, ops, n)
  {
    hide TargetOf;
  }

  /** Collects findings while it walks a document. */
  class Walker {
    const lib: Library
    const fields: Fields
    const children: Assoc<Assoc<string>>
    var errors: seq<Finding>
    var warnings: seq<Finding>

    ghost predicate Indexed() {
      forall parent :: OrNone(Lookup(children, parent)) == ChildrenOf(lib, fields, parent)
    }

    constructor (lib: Library, fields: Fields, children: Assoc<Assoc<string>>)
      ensures this.lib == lib && this.fields == fields && this.children == children && errors == [] && warnings == []
    {
      this.lib, this.fields, this.children := lib, fields, children;
      errors, warnings := [], [];
    }

    method Error(path: string, code: Code, authority: string)
      modifies this`errors
      ensures errors == old(errors) + [At(path, code, authority)]
    {
      errors := errors + [At(path, code, authority)];
    }

    method Warn(path: string, code: Code)
      modifies this`warnings
      ensures warnings == old(warnings) + [At(path, code, "architect")]
    {
      warnings := warnings + [At(path, code, "architect")];
    }

    method CheckReference(s: string, spec: Spec, schemaPath: string, path: string)
      modifies this`errors, this`warnings
      ensures errors == old(errors) + ReferenceErrors(lib, spec, schemaPath, path, s)
      ensures warnings == old(warnings) + StringWarnings(lib, spec, schemaPath, path, s)
    {
      hide At;
      if spec.format == "image-reference" {
        var catalog := schemaPath == "mirror.operators[].catalog";
        if lib.badReference(s, catalog) {
          Error(path, InvalidReference, if catalog then "binary" else "binary-at-run");
        } else if lib.shortName(s) {
          Warn(path, ShortImageName);
        }
      }
    }

    method CheckString(s: string, spec: Spec, schemaPath: string, path: string)
      modifies this`errors, this`warnings
      ensures errors == old(errors) + StringErrors(lib, spec, schemaPath, path, s)
      ensures warnings == old(warnings) + StringWarnings(lib, spec, schemaPath, path, s)
    {
      hide At, ReferenceErrors, UrlErrors, StringWarnings;
      if spec.allowed.Some? && s !in spec.allowed.value {
        Error(path, InvalidValue, if schemaPath == "kind" then "binary" else "architect");
      }
      if spec.format == "semver" && s != "" && !lib.semver(s) {
        Error(path, NotSemver, "binary");
      }
      CheckReference(s, spec, schemaPath, path);
      CheckUrl(s, spec, path);
    }

    method CheckUrl(s: string, spec: Spec, path: string)
      modifies this`errors
      ensures errors == old(errors) + UrlErrors(lib, spec, path, s)
    {
      hide At;
      if spec.format == "http-url-without-credentials" && s != "" && !lib.httpUrl(s) {
        Error(path, InvalidUrl, "architect");
      }
      if lib.credentialUrl(s) {
        Error(path, CredentialsInUrl, "architect");
      }
    }

    method Walk(v: Json, schemaPath: string, path: string) returns (out: Json)
      requires Indexed()
      modifies this`errors, this`warnings
      ensures out == WalkOf(lib, fields, v, schemaPath, path).value
      ensures errors == old(errors) + WalkOf(lib, fields, v, schemaPath, path).errors
      ensures warnings == old(warnings) + WalkOf(lib, fields, v, schemaPath, path).warnings
      decreases v, 1, 0
    {
      hide StringErrors, StringWarnings, ItemErrors, IntegerErrors, At, SpecAt, MembersWalked, ItemsWalked,
           TextItemErrors, RequiredErrors;
      var spec := SpecAt(fields, schemaPath);
      match spec.fieldType
      case ObjectType =>
        if !v.Obj? {
          Error(path, WrongType, "binary");
          return Null;
        }
        out := WalkObject(v, schemaPath, path);
      case ObjectsType =>
        if !v.Arr? {
          Error(path, WrongType, "binary");
          return Null;
        }
        out := WalkItems(v, schemaPath, path);
      case StringsType =>
        if !v.Arr? {
          Error(path, WrongType, "binary");
          return Null;
        }
        CheckItems(v.items, spec, path);
        return v;
      case StringType =>
        if !v.Str? {
          Error(path, WrongType, "binary");
          return v;
        }
        CheckString(v.text, spec, schemaPath, path);
        return v;
      case BooleanType =>
        if !v.Bool? {
          Error(path, WrongType, "binary");
        }
        return v;
      case IntegerType =>
        errors := errors + IntegerErrors(lib, spec, path, v);
        return v;
      case OtherType =>
        return v;
    }

    method CheckItems(items: seq<Json>, spec: Spec, path: string)
      modifies this`errors
      ensures errors == old(errors) + TextItemErrors(lib, spec, items, |items|, path)
    {
      hide ItemErrors;
      var i := 0;
      while i < |items|
        invariant 0 <= i <= |items|
        invariant errors == old(errors) + TextItemErrors(lib, spec, items, i, path)
      {
        errors := errors + ItemErrors(lib, spec, ItemPath(lib, path, i), items[i]);
        i := i + 1;
      }
    }

    method WalkItems(v: Json, schemaPath: string, path: string) returns (out: Json)
      requires v.Arr? && Indexed()
      modifies this`errors, this`warnings
      ensures var w := ItemsWalked(lib, fields, v, |v.items|, schemaPath, path);
              && out == Arr(w.values)
              && errors == old(errors) + w.errors && warnings == old(warnings) + w.warnings
      decreases v, 0
    {
      hide WalkOf;
      var values: seq<Json> := [];
      var i := 0;
      while i < |v.items|
        invariant 0 <= i <= |v.items|
        invariant values == ItemsWalked(lib, fields, v, i, schemaPath, path).values
        invariant errors == old(errors) + ItemsWalked(lib, fields, v, i, schemaPath, path).errors
        invariant warnings == old(warnings) + ItemsWalked(lib, fields, v, i, schemaPath, path).warnings
      {
        var w := Walk(v.items[i], schemaPath + "[]", ItemPath(lib, path, i));
        values := values + [w];
        i := i + 1;
      }
      return Arr(values);
    }

    method WalkObject(v: Json, schemaPath: string, path: string) returns (out: Json)
      requires v.Obj? && Indexed()
      modifies this`errors, this`warnings
      ensures var m := MembersWalked(lib, fields, v, |v.fields|, schemaPath, path);
              && out == Obj(m.kept) && warnings == old(warnings) + m.warnings
              && errors == old(errors) + m.errors + RequiredErrors(lib, fields, m, schemaPath, path)
      decreases v, 0
    {
      hide WalkOf, Met, Canonical, At, Put, RequiredUpTo;
      var kept: Assoc<Json> := [];
      var seen: set<string> := {};
      var i := 0;
      while i < |v.fields|
        invariant 0 <= i <= |v.fields|
        invariant kept == MembersWalked(lib, fields, v, i, schemaPath, path).kept
        invariant seen == MembersWalked(lib, fields, v, i, schemaPath, path).seen
        invariant errors == old(errors) + MembersWalked(lib, fields, v, i, schemaPath, path).errors
        invariant warnings == old(warnings) + MembersWalked(lib, fields, v, i, schemaPath, path).warnings
      {
        ghost var m := MembersWalked(lib, fields, v, i, schemaPath, path);
        var key := v.fields[i].0;
        assert v.fields[i].1 < v.fields[i];
        var child := v.fields[i].1;
        var goOn, canonical, nowSeen := Meet(key, child, seen, schemaPath, path, m);
        seen := nowSeen;
        if goOn {
          var w := Walk(child, ChildKey(schemaPath, canonical), Below(path, canonical));
          kept := Put(kept, canonical, w);
        }
        i := i + 1;
      }
      ghost var m := MembersWalked(lib, fields, v, |v.fields|, schemaPath, path);
      CheckRequired(kept, seen, schemaPath, path, m);
      return Obj(kept);
    }

    /** One member, up to the walk of its value. */
    method Meet(key: string, child: Json, seen: set<string>, schemaPath: string, path: string, ghost m: Members)
        returns (goOn: bool, canonical: string, nowSeen: set<string>)
      requires Indexed() && seen == m.seen
      modifies this`errors, this`warnings
      ensures var (now, walks) := Met(lib, fields, m, key, child, schemaPath, path);
              && goOn == walks && nowSeen == now.seen && now.kept == m.kept
              && (goOn ==> Canonical(lib, fields, schemaPath, key) == Some(canonical))
              && m.errors <= now.errors && errors == old(errors) + now.errors[|m.errors|..]
              && m.warnings <= now.warnings && warnings == old(warnings) + now.warnings[|m.warnings|..]
    {
      hide At, ChildrenOf;
      goOn, canonical, nowSeen := false, "", seen;
      var found := Lookup(OrNone(Lookup(children, schemaPath)), lib.lower(key));
      if found.None? || found.value == "" {
        Error(Below(path, key), UnknownField, "binary");
        return;
      }
      canonical := found.value;
      if canonical in seen {
        Error(Below(path, key), DuplicateKeyCase, "architect");
        return;
      }
      nowSeen := seen + {canonical};
      var spec := Lookup(fields, ChildKey(schemaPath, canonical));
      if key != canonical {
        if spec.Some? && spec.value.caseSensitiveKey {
          Error(Below(path, key), UnknownField, "binary");
          return;
        }
        Warn(Below(path, key), KeyCase);
      }
      if child.Null? {
        if spec.None? || spec.value.required == "" {
          Warn(Below(path, canonical), NullValue);
        }
        return;
      }
      goOn := true;
    }

    method CheckRequired(kept: Assoc<Json>, seen: set<string>, schemaPath: string, path: string, ghost m: Members)
      requires Indexed() && kept == m.kept && seen == m.seen
      modifies this`errors
      ensures errors == old(errors) + RequiredErrors(lib, fields, m, schemaPath, path)
    {
      hide At, ChildrenOf, Lacking, RequiredOf;
      var index := OrNone(Lookup(children, schemaPath));
      var i := 0;
      while i < |index|
        invariant 0 <= i <= |index|
        invariant errors == old(errors) + RequiredUpTo(lib, fields, m, i, schemaPath, path)
      {
        var canonical := index[i].1;
        var required := RequiredOf(fields, schemaPath, canonical);
        if required != "" && Lacking(kept, canonical) {
          Error(Below(path, canonical), Required, if canonical in seen then "architect" else required);
        }
        i := i + 1;
      }
    }

    method CheckReleaseChannels(items: seq<Json>)
      modifies this`errors
      ensures errors == old(errors) + ReleaseChannelErrors(lib, items, |items|)
    {
      hide At, NameOf, NamesUpTo;
      NoNames(items);
      var names: set<string> := {};
      var i := 0;
      while i < |items|
        invariant 0 <= i <= |items| && names == NamesUpTo(items, i)
        invariant errors == old(errors) + ReleaseChannelErrors(lib, items, i)
      {
        NamesStep(items, i);
        var name := NameOf(items[i]);
        if name.Some? {
          if name.value in names {
            Error(ItemPath(lib, "mirror.platform.channels", i) + ".name", DuplicateEntry, "binary");
          }
          names := names + {name.value};
        }
        i := i + 1;
      }
    }

    method CheckChannel(filtered: bool, items: seq<Json>, k: nat, names: set<string>, here: string)
      requires k < |items| && names == NamesUpTo(items, k)
      modifies this`errors
      ensures errors == old(errors) + ChannelErrorsAt(lib, filtered, items, k, here)
    {
      hide At, NameOf, NamesUpTo, Filters;
      if NameOf(items[k]).Some? && NameOf(items[k]).value in names {
        Error(here + ".name", DuplicateEntry, "binary");
      }
      if filtered && Filters(items[k]) {
        Error(here, MixedVersionFilters, "binary");
      }
    }

    method CheckChannels(filtered: bool, items: seq<Json>, base: string)
      modifies this`errors
      ensures errors == old(errors) + ChannelErrors(lib, filtered, items, |items|, base)
    {
      hide NameOf, NamesUpTo, ChannelErrorsAt, ItemPath;
      NoNames(items);
      var names: set<string> := {};
      var k := 0;
      while k < |items|
        invariant 0 <= k <= |items| && names == NamesUpTo(items, k)
        invariant errors == old(errors) + ChannelErrors(lib, filtered, items, k, base)
      {
        var here := ItemPath(lib, base + ".channels", k);
        CheckChannel(filtered, items, k, names, here);
        Regroup(old(errors), ChannelErrors(lib, filtered, items, k, base),
                ChannelErrorsAt(lib, filtered, items, k, here));
        NamesStep(items, k);
        if NameOf(items[k]).Some? {
          names := names + {NameOf(items[k]).value};
        }
        k := k + 1;
      }
    }

    method CheckPackage(items: seq<Json>, j: nat, names: set<string>, here: string)
      requires j < |items| && names == NamesUpTo(items, j)
      modifies this`errors
      ensures errors == old(errors) + PackageErrorsAt(lib, items, j, here)
    {
      hide At, NameOf, NamesUpTo, Filters, ListAt, ChannelErrors;
      if NameOf(items[j]).Some? && NameOf(items[j]).value in names {
        Error(here + ".name", DuplicateEntry, "binary");
      }
      CheckChannels(Filters(items[j]), ListAt(Some(items[j]), "channels"), here);
    }

    method CheckPackages(items: seq<Json>, base: string)
      modifies this`errors
      ensures errors == old(errors) + PackageErrors(lib, items, |items|, base)
    {
      hide NameOf, NamesUpTo, PackageErrorsAt, ItemPath;
      NoNames(items);
      var names: set<string> := {};
      var j := 0;
      while j < |items|
        invariant 0 <= j <= |items| && names == NamesUpTo(items, j)
        invariant errors == old(errors) + PackageErrors(lib, items, j, base)
      {
        var here := ItemPath(lib, base + ".packages", j);
        CheckPackage(items, j, names, here);
        Regroup(old(errors), PackageErrors(lib, items, j, base), PackageErrorsAt(lib, items, j, here));
        NamesStep(items, j);
        if NameOf(items[j]).Some? {
          names := names + {NameOf(items[j]).value};
        }
        j := j + 1;
      }
    }

    method CheckOperator(ops: seq<Json>, i: nat, targets: set<string>, here: string)
      requires i < |ops| && targets == TargetsUpTo(lib, ops, i)
      modifies this`errors
      ensures errors == old(errors) + OperatorErrorsAt(lib, ops, i, here)
    {
      hide At, TargetOf, TargetsUpTo, ListAt, PackageErrors;
      var target := TargetOf(lib, ops[i]);
      if target.None? {
        return;
      }
      if target.value in targets {
        Error(here + ".catalog", DuplicateEntry, "binary");
      }
      CheckPackages(ListAt(Some(ops[i]), "packages"), here);
    }

    method CheckOperators(ops: seq<Json>)
      modifies this`errors
      ensures errors == old(errors) + OperatorErrors(lib, ops, |ops|)
    {
      hide TargetOf, TargetsUpTo, OperatorErrorsAt, ItemPath;
      NoTargets(lib, ops);
      var targets: set<string> := {};
      var i := 0;
      while i < |ops|
        invariant 0 <= i <= |ops| && targets == TargetsUpTo(lib, ops, i)
        invariant errors == old(errors) + OperatorErrors(lib, ops, i)
      {
        var here := ItemPath(lib, "mirror.operators", i);
        CheckOperator(ops, i, targets, here);
        Regroup(old(errors), OperatorErrors(lib, ops, i), OperatorErrorsAt(lib, ops, i, here));
        TargetsStep(lib, ops, i);
        if TargetOf(lib, ops[i]).Some? {
          targets := targets + {TargetOf(lib, ops[i]).value};
        }
        i := i + 1;
      }
    }

    method CheckLists(channels: seq<Json>, ops: seq<Json>)
      modifies this`errors
      ensures errors
           == old(errors) + (ReleaseChannelErrors(lib, channels, |channels|) + OperatorErrors(lib, ops, |ops|))
    {
      hide ReleaseChannelErrors, OperatorErrors;
      CheckReleaseChannels(channels);
      CheckOperators(ops);
    }

    method CheckSemantics(doc: Json)
      modifies this`errors
      ensures errors == old(errors) + SemanticErrors(lib, doc)
    {
      hide At, ReleaseChannelErrors, OperatorErrors, ListAt, NothingToMirror, Prop;
      ghost var before := errors;
      var mirror := Prop(Some(doc), "mirror");
      if mirror.None? || !mirror.value.Obj? {
        return;
      }
      if NothingToMirror(mirror) {
        Error("mirror", EmptyMirror, "architect");
      }
      var channels, ops := ListAt(Prop(mirror, "platform"), "channels"), ListAt(mirror, "operators");
      ghost var first := if NothingToMirror(mirror) then [At("mirror", EmptyMirror, "architect")] else [];
      assert errors == before + first;
      CheckLists(channels, ops);
      Regroup(before, first, ReleaseChannelErrors(lib, channels, |channels|) + OperatorErrors(lib, ops, |ops|));
    }
  }

  method ValidateImageSetConfigDocument(lib: Library, fields: Fields, doc: Json) returns (r: Report)
    ensures r == Validated(lib, fields, doc)
  {
    hide At, WalkOf, SemanticErrors, ChildrenOf;
    var children := BuildChildIndex(lib, fields);
    var walker := new Walker(lib, fields, children);
    if !doc.Obj? {
      walker.Error("", NotAMapping, "binary");
      return Report(walker.errors, walker.warnings, None);
    }
    var normalized := walker.Walk(doc, "", "");
    walker.CheckSemantics(normalized);
    return Report(walker.errors, walker.warnings, Some(normalized));
  }

  // ----- normalising twice

  /** The warnings a second look would repeat: not those about spelling, which is fixed, or about dropped nulls. */
  function Lasting(warnings: seq<Finding>): seq<Finding> {
    if warnings == [] then []
    else
      var n := |warnings| - 1;
      Lasting(warnings[..n]) + if warnings[n].code.KeyCase? || warnings[n].code.NullValue? then [] else [warnings[n]]
  }

  lemma {:induction false} LastingConcat(a: seq<Finding>, b: seq<Finding>)
    ensures Lasting(a + b) == Lasting(a) + Lasting(b)
  {
    if b == [] {
      assert a + b == a;
    } else {
      var n := |b| - 1;
      LastingConcat(a, b[..n]);
      assert (a + b)[..|a + b| - 1] == a + b[..n];
    }
  }

  lemma {:induction false} LastingClean(warnings: seq<Finding>)
    ensures forall w <- Lasting(warnings) :: w in warnings && !w.code.KeyCase? && !w.code.NullValue?
  {
    if warnings != [] {
      LastingClean(warnings[..|warnings| - 1]);
    }
  }

  lemma {:induction false} PutNew(m: Assoc<Json>, key: string, value: Json)
    requires !Has(m, key)
    ensures Put(m, key, value) == m + [(key, value)]
  {
    if m != [] {
      PutNew(m[1..], key, value);
    }
  }

  function KeySet(m: Assoc<Json>): set<string> {
    set i | 0 <= i < |m| :: m[i].0
  }

  lemma KeySetSnoc(m: Assoc<Json>, key: string, value: Json)
    ensures KeySet(m + [(key, value)]) == KeySet(m) + {key}
    ensures Has(m, key) <==> key in KeySet(m)
  {
    var next := m + [(key, value)];
    assert next[|m|] == (key, value);
    forall i | 0 <= i < |m| ensures m[i].0 in KeySet(next) {
      assert next[i] == m[i];
    }
    forall i | 0 <= i < |next| ensures next[i].0 in KeySet(m) + {key} {
      if i < |m| { assert next[i] == m[i]; }
    }
    HasIffKey(m, key);
  }

  /** The loop over members depends only on the members it has met. */
  lemma {:induction false} MembersPrefix(lib: Library, fields: Fields, a: Json, b: Json, n: nat, sp: string,
                                         path: string)
    requires a.Obj? && b.Obj? && n <= |a.fields| && n <= |b.fields| && a.fields[..n] == b.fields[..n]
    ensures MembersWalked(lib, fields, a, n, sp, path) == MembersWalked(lib, fields, b, n, sp, path)
    decreases n
  {
    hide Met, WalkOf, Canonical;
    if n > 0 {
      assert a.fields[..n][..n - 1] == a.fields[..n - 1] && b.fields[..n][..n - 1] == b.fields[..n - 1];
      assert a.fields[..n][n - 1] == a.fields[n - 1] && b.fields[..n][n - 1] == b.fields[n - 1];
      MembersPrefix(lib, fields, a, b, n - 1, sp, path);
    }
  }

  lemma {:induction false} ItemsPrefix(lib: Library, fields: Fields, a: Json, b: Json, n: nat, sp: string, path: string)
    requires a.Arr? && b.Arr? && n <= |a.items| && n <= |b.items| && a.items[..n] == b.items[..n]
    ensures ItemsWalked(lib, fields, a, n, sp, path) == ItemsWalked(lib, fields, b, n, sp, path)
    decreases n
  {
    hide WalkOf;
    if n > 0 {
      assert a.items[..n][..n - 1] == a.items[..n - 1] && b.items[..n][..n - 1] == b.items[..n - 1];
      assert a.items[..n][n - 1] == a.items[n - 1] && b.items[..n][n - 1] == b.items[n - 1];
      ItemsPrefix(lib, fields, a, b, n - 1, sp, path);
    }
  }

  /** A documented key is read as itself. */
  lemma CanonicalFixed(lib: Library, fields: Fields, sp: string, key: string)
    requires WellFormed(fields) && Canonical(lib, fields, sp, key).Some?
    ensures var canonical := Canonical(lib, fields, sp, key).value;
            Canonical(lib, fields, sp, canonical) == Some(canonical) && Has(fields, ChildKey(sp, canonical))
  {
    hide Children;
    ChildIsField(lib, fields, sp, |fields|, lib.lower(key));
  }

  /** A member met a second time, under its documented key and with its normalised value. */
  lemma MetAgain(lib: Library, fields: Fields, m: Members, canonical: string, v: Json, sp: string, path: string)
    requires Canonical(lib, fields, sp, canonical) == Some(canonical) && canonical !in m.seen && !v.Null?
    ensures Met(lib, fields, m, canonical, v, sp, path) == (m.(seen := m.seen + {canonical}), true)
  {
    hide Canonical;
  }

  /** What meeting a member without error does. */
  lemma MetCleanly(lib: Library, fields: Fields, m: Members, key: string, child: Json, sp: string, path: string)
    requires Met(lib, fields, m, key, child, sp, path).0.errors == []
    ensures Canonical(lib, fields, sp, key).Some? && m.errors == []
    ensures var (now, goOn) := Met(lib, fields, m, key, child, sp, path);
            var canonical := Canonical(lib, fields, sp, key).value;
            && canonical !in m.seen && now.seen == m.seen + {canonical} && now.kept == m.kept
            && Lasting(now.warnings) == Lasting(m.warnings) && (goOn <==> !child.Null?)
  {
    hide Canonical, Lasting;
    var canonical := Canonical(lib, fields, sp, key).value;
    var cased, nulled := At(Below(path, key), KeyCase, "architect"), At(Below(path, canonical), NullValue, "architect");
    OneFleeting(m.warnings, cased);
    OneFleeting(m.warnings, nulled);
    OneFleeting(m.warnings + [cased], nulled);
  }

  lemma OneFleeting(warnings: seq<Finding>, w: Finding)
    requires w.code.KeyCase? || w.code.NullValue?
    ensures Lasting(warnings + [w]) == Lasting(warnings)
  {
    assert (warnings + [w])[..|warnings|] == warnings;
  }

  lemma NeverNull(lib: Library, fields: Fields, v: Json, sp: string, path: string)
    requires !v.Null? && WalkOf(lib, fields, v, sp, path).errors == []
    ensures !WalkOf(lib, fields, v, sp, path).value.Null?
  {
    hide MembersWalked, ItemsWalked, RequiredErrors, StringErrors, StringWarnings, SpecAt;
  }

  lemma {:induction false} RequiredAgain(lib: Library, fields: Fields, a: Members, b: Members, n: nat, sp: string,
                                         path: string)
    requires n <= |ChildrenOf(lib, fields, sp)| && a.kept == b.kept && RequiredUpTo(lib, fields, a, n, sp, path) == []
    ensures RequiredUpTo(lib, fields, b, n, sp, path) == []
  {
    hide ChildrenOf, Lacking, RequiredOf;
    if n > 0 {
      RequiredAgain(lib, fields, a, b, n - 1, sp, path);
    }
  }

  lemma {:induction false} MembersAgain(lib: Library, fields: Fields, v: Json, n: nat, sp: string, path: string)
    requires v.Obj? && n <= |v.fields| && WellFormed(fields)
    requires MembersWalked(lib, fields, v, n, sp, path).errors == []
    ensures var m := MembersWalked(lib, fields, v, n, sp, path);
            && KeySet(m.kept) <= m.seen
            && MembersWalked(lib, fields, Obj(m.kept), |m.kept|, sp, path)
            == Members(m.kept, KeySet(m.kept), [], Lasting(m.warnings))
    decreases v, 0, n
  {
    hide Met, WalkOf, Canonical, Lasting, KeySet, WellFormed;
    if n == 0 {
      NothingKept(lib, fields, sp, path);
    } else {
      var before := MembersWalked(lib, fields, v, n - 1, sp, path);
      var key := v.fields[n - 1].0;
      assert v.fields[n - 1].1 < v.fields[n - 1];
      var child := v.fields[n - 1].1;
      MetCleanly(lib, fields, before, key, child, sp, path);
      MembersAgain(lib, fields, v, n - 1, sp, path);
      if !child.Null? {
        var canonical := Canonical(lib, fields, sp, key).value;
        WalkAgain(lib, fields, child, ChildKey(sp, canonical), Below(path, canonical));
        var w := WalkOf(lib, fields, child, ChildKey(sp, canonical), Below(path, canonical));
        NeverNull(lib, fields, child, ChildKey(sp, canonical), Below(path, canonical));
        CanonicalFixed(lib, fields, sp, key);
        KeptGrows(lib, fields, before, canonical, w, sp, path);
        LastingConcat(Met(lib, fields, before, key, child, sp, path).0.warnings, w.warnings);
      }
    }
  }

  lemma NothingKept(lib: Library, fields: Fields, sp: string, path: string)
    ensures MembersWalked(lib, fields, Obj([]), 0, sp, path) == Members([], KeySet([]), [], Lasting([]))
  {
  }

  /** One more member kept, walked again. */
  lemma KeptGrows(lib: Library, fields: Fields, before: Members, canonical: string, w: Walked, sp: string, path: string)
    requires Canonical(lib, fields, sp, canonical) == Some(canonical) && canonical !in before.seen
    requires KeySet(before.kept) <= before.seen && !w.value.Null?
    requires MembersWalked(lib, fields, Obj(before.kept), |before.kept|, sp, path)
          == Members(before.kept, KeySet(before.kept), [], Lasting(before.warnings))
    requires WalkOf(lib, fields, w.value, ChildKey(sp, canonical), Below(path, canonical))
          == Walked(w.value, [], Lasting(w.warnings))
    ensures var kept := Put(before.kept, canonical, w.value);
            && KeySet(kept) <= before.seen + {canonical}
            && MembersWalked(lib, fields, Obj(kept), |kept|, sp, path)
            == Members(kept, KeySet(kept), [], Lasting(before.warnings) + Lasting(w.warnings))
  {
    hide Met, WalkOf, Canonical, Lasting, KeySet;
    KeySetSnoc(before.kept, canonical, w.value);
    PutNew(before.kept, canonical, w.value);
    var kept := Put(before.kept, canonical, w.value);
    var n := |before.kept|;
    assert kept[..n] == before.kept[..n] && kept[n] == (canonical, w.value);
    MembersPrefix(lib, fields, Obj(kept), Obj(before.kept), n, sp, path);
    var again := MembersWalked(lib, fields, Obj(kept), n, sp, path);
    MetAgain(lib, fields, again, canonical, w.value, sp, path);
  }

  lemma {:induction false} ItemsAgain(lib: Library, fields: Fields, v: Json, n: nat, sp: string, path: string)
    requires v.Arr? && n <= |v.items| && WellFormed(fields)
    requires ItemsWalked(lib, fields, v, n, sp, path).errors == []
    ensures var r := ItemsWalked(lib, fields, v, n, sp, path);
            && |r.values| == n
            && ItemsWalked(lib, fields, Arr(r.values), n, sp, path) == Items(r.values, [], Lasting(r.warnings))
    decreases v, 0, n
  {
    hide WalkOf, WellFormed;
    if n > 0 {
      var before := ItemsWalked(lib, fields, v, n - 1, sp, path);
      var w := WalkOf(lib, fields, v.items[n - 1], sp + "[]", ItemPath(lib, path, n - 1));
      ItemsAgain(lib, fields, v, n - 1, sp, path);
      WalkAgain(lib, fields, v.items[n - 1], sp + "[]", ItemPath(lib, path, n - 1));
      var values := before.values + [w.value];
      assert values[..n - 1] == before.values[..n - 1];
      ItemsPrefix(lib, fields, Arr(values), Arr(before.values), n - 1, sp, path);
      LastingConcat(before.warnings, w.warnings);
    }
  }

  lemma StringWarningsLast(lib: Library, spec: Spec, sp: string, path: string, s: string)
    ensures Lasting(StringWarnings(lib, spec, sp, path, s)) == StringWarnings(lib, spec, sp, path, s)
  {
  }

  /** What a clean walk returns, walked again, comes back as it is, with no error and only the lasting warnings. */
  lemma {:induction false} WalkAgain(lib: Library, fields: Fields, v: Json, sp: string, path: string)
    requires WellFormed(fields) && WalkOf(lib, fields, v, sp, path).errors == []
    ensures var w := WalkOf(lib, fields, v, sp, path);
            WalkOf(lib, fields, w.value, sp, path) == Walked(w.value, [], Lasting(w.warnings))
    decreases v, 1, 0
  {
    hide MembersWalked, ItemsWalked, StringErrors, StringWarnings, TextItemErrors, IntegerErrors, SpecAt, WellFormed,
         RequiredUpTo, ChildrenOf;
    var spec := SpecAt(fields, sp);
    match spec.fieldType
    case ObjectType =>
      MembersAgain(lib, fields, v, |v.fields|, sp, path);
      var m := MembersWalked(lib, fields, v, |v.fields|, sp, path);
      var again := Members(m.kept, KeySet(m.kept), [], Lasting(m.warnings));
      RequiredAgain(lib, fields, m, again, |ChildrenOf(lib, fields, sp)|, sp, path);
    case ObjectsType =>
      ItemsAgain(lib, fields, v, |v.items|, sp, path);
    case StringType =>
      StringWarningsLast(lib, spec, sp, path, v.text);
    case _ =>
  }

  /**
   For every well-formed schema, the normalised form of a valid document is valid, normalises to itself, and keeps
   exactly the warnings that are not about key spelling or nulls.
   */
  lemma NormalizedIsFixed(lib: Library, fields: Fields, doc: Json)
    requires WellFormed(fields) && Validated(lib, fields, doc).Valid()
    ensures var r := Validated(lib, fields, doc);
            && r.normalized.Some?
            && Validated(lib, fields, r.normalized.value) == Report([], Lasting(r.warnings), r.normalized)
            && forall w <- Lasting(r.warnings) :: !w.code.KeyCase? && !w.code.NullValue?
  {
    hide SemanticErrors, WellFormed, Lasting, MembersWalked, RequiredErrors;
    var w := WalkOf(lib, fields, doc, "", "");
    assert w.errors == [];
    WalkAgain(lib, fields, doc, "", "");
    LastingClean(w.warnings);
    assert w.value.Obj?;
  }

  // ----- documents the walk leaves alone

  /** Documented keys only, each once, no nulls, and the right kind of value wherever the walk goes deeper. */
  ghost predicate Documented(lib: Library, fields: Fields, v: Json, sp: string)
    decreases v
  {
    match SpecAt(fields, sp).fieldType
    case ObjectType =>
      v.Obj? && DistinctKeys(v.fields) &&
      forall i :: 0 <= i < |v.fields| ==>
        Canonical(lib, fields, sp, v.fields[i].0) == Some(v.fields[i].0) && !v.fields[i].1.Null? &&
        (assert v.fields[i].1 < v.fields[i]; Documented(lib, fields, v.fields[i].1, ChildKey(sp, v.fields[i].0)))
    case ObjectsType => v.Arr? && forall i :: 0 <= i < |v.items| ==> Documented(lib, fields, v.items[i], sp + "[]")
    case StringsType => v.Arr?
    case _ => true
  }

  /** Such a document is its own normalised form. */
  lemma {:induction false} WalkUnchanged(lib: Library, fields: Fields, v: Json, sp: string, path: string)
    requires Documented(lib, fields, v, sp)
    ensures WalkOf(lib, fields, v, sp, path).value == v
    decreases v, 1, 0
  {
    hide MembersWalked, ItemsWalked, StringErrors, StringWarnings, TextItemErrors, IntegerErrors, SpecAt, RequiredUpTo,
         ChildrenOf;
    match SpecAt(fields, sp).fieldType
    case ObjectType =>
      MembersUnchanged(lib, fields, v, |v.fields|, sp, path);
      assert v.fields[..|v.fields|] == v.fields;
    case ObjectsType =>
      ItemsUnchanged(lib, fields, v, |v.items|, sp, path);
      assert v.items[..|v.items|] == v.items;
    case _ =>
  }

  lemma {:induction false} MembersUnchanged(lib: Library, fields: Fields, v: Json, n: nat, sp: string, path: string)
    requires v.Obj? && n <= |v.fields| && SpecAt(fields, sp).fieldType == ObjectType && Documented(lib, fields, v, sp)
    ensures var m := MembersWalked(lib, fields, v, n, sp, path);
            m.kept == v.fields[..n] && m.seen == KeySet(v.fields[..n])
    decreases v, 0, n
  {
    hide Met, WalkOf, Canonical, SpecAt, KeySet;
    if n == 0 {
      NoKeys();
    } else {
      MembersUnchanged(lib, fields, v, n - 1, sp, path);
      var before := MembersWalked(lib, fields, v, n - 1, sp, path);
      var key := v.fields[n - 1].0;
      assert v.fields[n - 1].1 < v.fields[n - 1];
      var child := v.fields[n - 1].1;
      FreshKey(v.fields, n - 1);
      KeySetSnoc(v.fields[..n - 1], key, child);
      MetAgain(lib, fields, before, key, child, sp, path);
      WalkUnchanged(lib, fields, child, ChildKey(sp, key), Below(path, key));
      PutNew(v.fields[..n - 1], key, child);
      assert v.fields[..n] == v.fields[..n - 1] + [(key, child)];
    }
  }

  lemma NoKeys()
    ensures KeySet([]) == {}
  {
  }

  lemma FreshKey(m: Assoc<Json>, n: nat)
    requires n < |m| && DistinctKeys(m)
    ensures m[n].0 !in KeySet(m[..n])
  {
  }

  lemma {:induction false} ItemsUnchanged(lib: Library, fields: Fields, v: Json, n: nat, sp: string, path: string)
    requires v.Arr? && n <= |v.items| && SpecAt(fields, sp).fieldType == ObjectsType && Documented(lib, fields, v, sp)
    ensures ItemsWalked(lib, fields, v, n, sp, path).values == v.items[..n]
    decreases v, 0, n
  {
    hide WalkOf, SpecAt;
    if n > 0 {
      ItemsUnchanged(lib, fields, v, n - 1, sp, path);
      WalkUnchanged(lib, fields, v.items[n - 1], sp + "[]", ItemPath(lib, path, n - 1));
      assert v.items[..n] == v.items[..n - 1] + [v.items[n - 1]];
    }
  }

  // ----- the walk never reports what the whole-document rules report

  predicate Structural(code: Code) {
    !code.DuplicateEntry? && !code.MixedVersionFilters? && !code.EmptyMirror?
  }

  ghost predicate AllStructural(errors: seq<Finding>) {
    forall i :: 0 <= i < |errors| ==> Structural(errors[i].code)
  }

  lemma StructuralConcat(a: seq<Finding>, b: seq<Finding>)
    requires AllStructural(a) && AllStructural(b)
    ensures AllStructural(a + b)
  {
  }

  lemma StringStructural(lib: Library, spec: Spec, sp: string, path: string, s: string)
    ensures AllStructural(StringErrors(lib, spec, sp, path, s))
  {
    hide AllStructural, ReferenceErrors, UrlErrors, At;
    var a: seq<Finding> :=
      if spec.allowed.Some? && s !in spec.allowed.value
      then [At(path, InvalidValue, if sp == "kind" then "binary" else "architect")] else [];
    var b: seq<Finding> :=
      if spec.format == "semver" && s != "" && !lib.semver(s) then [At(path, NotSemver, "binary")] else [];
    OneStructural(path, InvalidValue, if sp == "kind" then "binary" else "architect");
    OneStructural(path, NotSemver, "binary");
    ReferenceStructural(lib, spec, sp, path, s);
    NoneStructural();
    StructuralConcat(a, b);
    StructuralConcat(a + b, ReferenceErrors(lib, spec, sp, path, s));
    StructuralConcat(a + b + ReferenceErrors(lib, spec, sp, path, s), UrlErrors(lib, spec, path, s));
  }

  lemma OneStructural(path: string, code: Code, authority: string)
    requires Structural(code)
    ensures AllStructural([At(path, code, authority)])
  {
  }

  lemma ReferenceStructural(lib: Library, spec: Spec, sp: string, path: string, s: string)
    ensures AllStructural(ReferenceErrors(lib, spec, sp, path, s)) && AllStructural(UrlErrors(lib, spec, path, s))
  {
  }

  lemma ItemStructural(lib: Library, spec: Spec, path: string, item: Json)
    ensures AllStructural(ItemErrors(lib, spec, path, item))
  {
  }

  lemma {:induction false} TextItemsStructural(lib: Library, spec: Spec, items: seq<Json>, n: nat, path: string)
    requires n <= |items|
    ensures AllStructural(TextItemErrors(lib, spec, items, n, path))
  {
    hide AllStructural, ItemErrors, ItemPath;
    if n == 0 {
      NoneStructural();
    } else {
      TextItemsStructural(lib, spec, items, n - 1, path);
      ItemStructural(lib, spec, ItemPath(lib, path, n - 1), items[n - 1]);
      StructuralConcat(TextItemErrors(lib, spec, items, n - 1, path),
                       ItemErrors(lib, spec, ItemPath(lib, path, n - 1), items[n - 1]));
    }
  }

  lemma {:induction false} RequiredStructural(lib: Library, fields: Fields, m: Members, n: nat, sp: string,
                                              path: string)
    requires n <= |ChildrenOf(lib, fields, sp)|
    ensures AllStructural(RequiredUpTo(lib, fields, m, n, sp, path))
  {
    hide ChildrenOf, Lacking, RequiredOf, AllStructural, Below, At;
    NoneStructural();
    if n > 0 {
      RequiredStructural(lib, fields, m, n - 1, sp, path);
      var canonical := ChildrenOf(lib, fields, sp)[n - 1].1;
      var authority := if canonical in m.seen then "architect" else RequiredOf(fields, sp, canonical);
      OneStructural(Below(path, canonical), Required, authority);
      StructuralConcat(RequiredUpTo(lib, fields, m, n - 1, sp, path),
                       [At(Below(path, canonical), Required, authority)]);
      StructuralConcat(RequiredUpTo(lib, fields, m, n - 1, sp, path), []);
    }
  }

  lemma MetStructural(lib: Library, fields: Fields, m: Members, key: string, child: Json, sp: string, path: string)
    requires AllStructural(m.errors)
    ensures AllStructural(Met(lib, fields, m, key, child, sp, path).0.errors)
    ensures Met(lib, fields, m, key, child, sp, path).1 ==> Canonical(lib, fields, sp, key).Some?
  {
    hide Canonical;
  }

  lemma {:induction false} MembersStructural(lib: Library, fields: Fields, v: Json, n: nat, sp: string, path: string)
    requires v.Obj? && n <= |v.fields|
    ensures AllStructural(MembersWalked(lib, fields, v, n, sp, path).errors)
    decreases v, 0, n
  {
    hide Met, WalkOf, Canonical, AllStructural;
    if n == 0 {
      NoneStructural();
    } else {
      MembersStructural(lib, fields, v, n - 1, sp, path);
      var before, key := MembersWalked(lib, fields, v, n - 1, sp, path), v.fields[n - 1].0;
      assert v.fields[n - 1].1 < v.fields[n - 1];
      var child := v.fields[n - 1].1;
      MetStructural(lib, fields, before, key, child, sp, path);
      var (m, goOn) := Met(lib, fields, before, key, child, sp, path);
      if goOn {
        var canonical := Canonical(lib, fields, sp, key).value;
        WalkStructural(lib, fields, child, ChildKey(sp, canonical), Below(path, canonical));
        StructuralConcat(m.errors, WalkOf(lib, fields, child, ChildKey(sp, canonical), Below(path, canonical)).errors);
      }
    }
  }

  lemma NoneStructural()
    ensures AllStructural([])
  {
  }

  lemma {:induction false} ItemsStructural(lib: Library, fields: Fields, v: Json, n: nat, sp: string, path: string)
    requires v.Arr? && n <= |v.items|
    ensures AllStructural(ItemsWalked(lib, fields, v, n, sp, path).errors)
    decreases v, 0, n
  {
    hide WalkOf, AllStructural;
    if n == 0 {
      NoneStructural();
    } else {
      ItemsStructural(lib, fields, v, n - 1, sp, path);
      WalkStructural(lib, fields, v.items[n - 1], sp + "[]", ItemPath(lib, path, n - 1));
      StructuralConcat(ItemsWalked(lib, fields, v, n - 1, sp, path).errors,
                       WalkOf(lib, fields, v.items[n - 1], sp + "[]", ItemPath(lib, path, n - 1)).errors);
    }
  }

  /** Duplicates and mixed filters come from the whole-document rules only. */
  lemma {:induction false} WalkStructural(lib: Library, fields: Fields, v: Json, sp: string, path: string)
    ensures AllStructural(WalkOf(lib, fields, v, sp, path).errors)
    decreases v, 1, 0
  {
    hide MembersWalked, ItemsWalked, StringErrors, StringWarnings, TextItemErrors, SpecAt, RequiredUpTo, ChildrenOf;
    var spec := SpecAt(fields, sp);
    match spec.fieldType
    case ObjectType =>
      if v.Obj? {
        MembersStructural(lib, fields, v, |v.fields|, sp, path);
        var m := MembersWalked(lib, fields, v, |v.fields|, sp, path);
        RequiredStructural(lib, fields, m, |ChildrenOf(lib, fields, sp)|, sp, path);
        StructuralConcat(m.errors, RequiredErrors(lib, fields, m, sp, path));
      }
    case ObjectsType => if v.Arr? { ItemsStructural(lib, fields, v, |v.items|, sp, path); }
    case StringsType => if v.Arr? { TextItemsStructural(lib, spec, v.items, |v.items|, path); }
    case StringType => if v.Str? { StringStructural(lib, spec, sp, path, v.text); }
    case _ =>
  }
}
