/**
 Which findings the structural walk of an image-set configuration reports, and what it keeps, said on the document and
 the schema's field paths: the walk of `ImageSetValidator` reports exactly these.
 */
module ImageSetFindings {
  import opened Wrappers
  import opened Text
  import opened OrderedMap
  import opened JsonValue
  import opened ImageSetValidator

  // ----- documented keys

  function Joined(parent: string, key: string): string { if parent == "" then key else parent + "." + key }

  function Where(path: string): string { if path == "" then "(document)" else path }

  /** The schema's field `j` is the child `c` of `sp`, and `key` is `c` up to case. */
  predicate FieldAt(lib: Library, fields: Fields, sp: string, key: string, j: int, c: string) {
    0 <= j < |fields| && fields[j].0 == Joined(sp, c) && '.' !in c && lib.lower(c) == lib.lower(key)
  }

  /** The last such field. */
  ghost predicate LastField(lib: Library, fields: Fields, sp: string, key: string, c: string) {
    exists j :: FieldAt(lib, fields, sp, key, j, c) && forall k, d :: j < k ==> !FieldAt(lib, fields, sp, key, k, d)
  }

  /** `key` below `sp` stands for the documented key `c`. */
  ghost predicate ReadAs(lib: Library, fields: Fields, sp: string, key: string, c: string) {
    c != "" && LastField(lib, fields, sp, key, c)
  }

  lemma {:induction false} LastDot(path: string, i: int)
    requires -1 <= i < |path| && (i >= 0 ==> path[i] == '.') && '.' !in path[i + 1..]
    ensures LastIndexOf(path, '.') == i
    decreases |path|
  {
    if i < |path| - 1 {
      var front, last := path[..|path| - 1], path[|path| - 1];
      assert path[i + 1..] == front[i + 1..] + [last];
      LastDot(front, i);
    }
  }

  lemma JoinedSplits(sp: string, c: string)
    requires '.' !in c
    ensures ParentOf(Joined(sp, c)) == sp && KeyOf(Joined(sp, c)) == c
  {
    var path, dot := Joined(sp, c), if sp == "" then -1 else |sp|;
    assert path[dot + 1..] == c && (sp != "" ==> path[..dot] == sp);
    LastDot(path, dot);
    hide LastIndexOf;
  }

  lemma PathSplit(path: string, sp: string, c: string)
    requires path == "" || path[0] != '.'
    ensures ParentOf(path) == sp && KeyOf(path) == c <==> path == Joined(sp, c) && '.' !in c
  {
    hide ParentOf, KeyOf;
    PathParts(path);
    NoDotInKey(path);
    if path == Joined(sp, c) && '.' !in c {
      JoinedSplits(sp, c);
    }
  }

  lemma NoDotInKey(path: string)
    ensures '.' !in KeyOf(path)
  {
  }

  ghost predicate LastOf(lib: Library, fields: Fields, sp: string, key: string, n: nat, c: string) {
    exists j :: j < n && FieldAt(lib, fields, sp, key, j, c) &&
                forall k, d :: j < k < n ==> !FieldAt(lib, fields, sp, key, k, d)
  }

  lemma NoneLast(lib: Library, fields: Fields, sp: string, key: string, m: nat, c: string)
    requires forall d :: !FieldAt(lib, fields, sp, key, m, d)
    ensures LastOf(lib, fields, sp, key, m + 1, c) <==> LastOf(lib, fields, sp, key, m, c)
  {
    hide FieldAt;
  }

  lemma OneLast(lib: Library, fields: Fields, sp: string, key: string, m: nat, d: string, c: string)
    requires forall e :: FieldAt(lib, fields, sp, key, m, e) <==> e == d
    ensures LastOf(lib, fields, sp, key, m + 1, c) <==> c == d
  {
    hide FieldAt;
    assert FieldAt(lib, fields, sp, key, m, d);
  }

  /** The child index offers, for a lower-case key, the last field of that parent with it. */
  lemma {:induction false} ChildrenExact(lib: Library, fields: Fields, sp: string, key: string, n: nat, c: string)
    requires n <= |fields| && WellFormed(fields)
    ensures Lookup(Children(lib, fields, sp, n), lib.lower(key)) == Some(c)
       <==> LastOf(lib, fields, sp, key, n, c)
    decreases n
  {
    hide Lookup, Put, ParentOf, KeyOf, FieldAt, LastOf;
    if n == 0 {
      NoFields(lib, fields, sp, key, c);
    } else {
      var m := n - 1;
      var path := fields[m].0;
      ChildrenExact(lib, fields, sp, key, m, c);
      LookupPut(Children(lib, fields, sp, m), lib.lower(KeyOf(path)), KeyOf(path), lib.lower(key));
      forall d ensures FieldAt(lib, fields, sp, key, m, d)
                  <==> ParentOf(path) == sp && KeyOf(path) == d && lib.lower(d) == lib.lower(key)
      {
        FieldIs(lib, fields, sp, key, m, d);
      }
      if ParentOf(path) == sp && lib.lower(KeyOf(path)) == lib.lower(key) {
        OneLast(lib, fields, sp, key, m, KeyOf(path), c);
      } else {
        NoneLast(lib, fields, sp, key, m, c);
      }
    }
  }

  lemma NoFields(lib: Library, fields: Fields, sp: string, key: string, c: string)
    ensures !LastOf(lib, fields, sp, key, 0, c) && Lookup(Children(lib, fields, sp, 0), lib.lower(key)).None?
  {
  }

  lemma FieldIs(lib: Library, fields: Fields, sp: string, key: string, j: nat, c: string)
    requires j < |fields| && WellFormed(fields)
    ensures FieldAt(lib, fields, sp, key, j, c)
       <==> ParentOf(fields[j].0) == sp && KeyOf(fields[j].0) == c && lib.lower(c) == lib.lower(key)
  {
    PathSplit(fields[j].0, sp, c);
  }

  lemma LastExact(lib: Library, fields: Fields, sp: string, key: string, c: string)
    requires WellFormed(fields)
    ensures Lookup(ChildrenOf(lib, fields, sp), lib.lower(key)) == Some(c) <==> LastField(lib, fields, sp, key, c)
  {
    ChildrenExact(lib, fields, sp, key, |fields|, c);
    hide Lookup, Children;
    if LastField(lib, fields, sp, key, c) {
      var j :| FieldAt(lib, fields, sp, key, j, c) && forall k, d :: j < k ==> !FieldAt(lib, fields, sp, key, k, d);
      assert LastOf(lib, fields, sp, key, |fields|, c);
    }
  }

  /** A key is read as what the walk calls its canonical key. */
  lemma ReadAsExact(lib: Library, fields: Fields, sp: string, key: string, c: string)
    requires WellFormed(fields)
    ensures Canonical(lib, fields, sp, key) == Some(c) <==> ReadAs(lib, fields, sp, key, c)
  {
    hide Lookup, ChildrenOf, LastField;
    LastExact(lib, fields, sp, key, c);
  }

  // ----- findings

  /** How the schema describes the value at `sp`: the document and list items are mappings. */
  function Described(fields: Fields, sp: string): Spec {
    if sp == "" || (|sp| >= 2 && sp[|sp| - 2] == '[' && sp[|sp| - 1] == ']')
    then Spec(ObjectType, "", false, None, None, "", None)
    else if Has(fields, sp) then Lookup(fields, sp).value
    else Spec(OtherType, "", false, None, None, "", None)
  }

  /** A value that is neither a list nor a mapping, and not described as one. */
  ghost predicate ScalarFound(lib: Library, spec: Spec, sp: string, path: string, v: Json, f: Finding, warning: bool) {
    var catalog := sp == "mirror.operators[].catalog";
    f.path == Where(path) &&
    match spec.fieldType
    case StringType =>
      if !v.Str? then !warning && f.code == WrongType && f.authority == "binary"
      else if warning then
        && f.code == ShortImageName && f.authority == "architect" && spec.format == "image-reference"
        && !lib.badReference(v.text, catalog) && lib.shortName(v.text)
      else
        || (&& f.code == InvalidValue && f.authority == (if sp == "kind" then "binary" else "architect")
            && spec.allowed.Some? && v.text !in spec.allowed.value)
        || (&& f.code == NotSemver && f.authority == "binary"
            && spec.format == "semver" && v.text != "" && !lib.semver(v.text))
        || (&& f.code == InvalidReference && f.authority == (if catalog then "binary" else "binary-at-run")
            && spec.format == "image-reference" && lib.badReference(v.text, catalog))
        || (&& f.code == InvalidUrl && f.authority == "architect"
            && spec.format == "http-url-without-credentials" && v.text != "" && !lib.httpUrl(v.text))
        || (f.code == CredentialsInUrl && f.authority == "architect" && lib.credentialUrl(v.text))
    case BooleanType => !warning && !v.Bool? && f.code == WrongType && f.authority == "binary"
    case IntegerType =>
      if v.Num? && lib.safeInteger(v.number) then
        && !warning && f.code == OutOfRange && f.authority == "architect"
        && spec.min.Some? && v.number < spec.min.value
      else !warning && f.code == WrongType && f.authority == "binary"
    case _ => false
  }

  /** One item of a list of texts. */
  ghost predicate TextItemFound(lib: Library, spec: Spec, path: string, item: Json, f: Finding) {
    f.path == Where(path) &&
    if !item.Str? then f.code == WrongType && f.authority == "binary"
    else
      f.authority == "architect" &&
      ((f.code == InvalidValue && spec.itemAllowed.Some? && item.text !in spec.itemAllowed.value) ||
       (f.code == CredentialsInUrl && lib.credentialUrl(item.text)))
  }

  function IndexPath(lib: Library, path: string, i: nat): string { path + "[" + lib.indexText(i) + "]" }

  /** An earlier member already stands for this key. */
  ghost predicate Earlier(lib: Library, fields: Fields, v: Json, i: nat, sp: string, c: string)
    requires v.Obj? && i <= |v.fields|
  {
    exists j :: 0 <= j < i && ReadAs(lib, fields, sp, v.fields[j].0, c)
  }

  predicate ExactOnly(fields: Fields, sp: string) {
    Lookup(fields, sp).Some? && Lookup(fields, sp).value.caseSensitiveKey
  }

  function RequiredBy(fields: Fields, sp: string): string {
    if Lookup(fields, sp).Some? then Lookup(fields, sp).value.required else ""
  }

  /** Member `i` is the one its field's value is taken from. */
  ghost predicate Taken(lib: Library, fields: Fields, v: Json, i: nat, sp: string, c: string)
    requires v.Obj? && i < |v.fields|
  {
    && ReadAs(lib, fields, sp, v.fields[i].0, c) && !Earlier(lib, fields, v, i, sp, c)
    && (v.fields[i].0 == c || !ExactOnly(fields, Joined(sp, c))) && !v.fields[i].1.Null?
  }

  /** Blank text, or no list or mapping where one is due. */
  predicate Blank(fields: Fields, sp: string, v: Json) {
    v == Str("") || v.Null? ||
    match Described(fields, sp).fieldType
    case ObjectType => !v.Obj?
    case ObjectsType => !v.Arr?
    case StringsType => !v.Arr?
    case _ => false
  }

  /** The schema requires `c`, and no member gives it a value. */
  ghost predicate Misses(lib: Library, fields: Fields, v: Json, sp: string, c: string)
    requires v.Obj?
  {
    && LastField(lib, fields, sp, c, c) && RequiredBy(fields, Joined(sp, c)) != ""
    && forall i :: 0 <= i < |v.fields| && Taken(lib, fields, v, i, sp, c) ==>
         Blank(fields, Joined(sp, c), v.fields[i].1)
  }

  ghost predicate MissingFound(lib: Library, fields: Fields, v: Json, sp: string, path: string, f: Finding)
    requires v.Obj?
  {
    exists c ::
      && Misses(lib, fields, v, sp, c) && f.path == Where(Joined(path, c)) && f.code == Required
      && f.authority == if Earlier(lib, fields, v, |v.fields|, sp, c) then "architect"
                        else RequiredBy(fields, Joined(sp, c))
  }

  /** What is found about a member before its value is looked at. */
  ghost predicate KeyFound(lib: Library, fields: Fields, v: Json, i: nat, sp: string, path: string, f: Finding,
                           warning: bool)
    requires v.Obj? && i < |v.fields|
  {
    var key := v.fields[i].0;
    if forall c :: !ReadAs(lib, fields, sp, key, c) then
      !warning && f == Finding(Where(Joined(path, key)), UnknownField, "binary")
    else exists c ::
      && ReadAs(lib, fields, sp, key, c)
      && if Earlier(lib, fields, v, i, sp, c) then
           !warning && f == Finding(Where(Joined(path, key)), DuplicateKeyCase, "architect")
         else if key != c && ExactOnly(fields, Joined(sp, c)) then
           !warning && f == Finding(Where(Joined(path, key)), UnknownField, "binary")
         else
           warning &&
           ((key != c && f == Finding(Where(Joined(path, key)), KeyCase, "architect")) ||
            (v.fields[i].1.Null? && RequiredBy(fields, Joined(sp, c)) == "" &&
             f == Finding(Where(Joined(path, c)), NullValue, "architect")))
  }

  /** Finding `f` is one of this value's: an error, or a warning. */
  ghost predicate Found(lib: Library, fields: Fields, v: Json, sp: string, path: string, f: Finding, warning: bool)
    decreases v
  {
    var spec := Described(fields, sp);
    var mistyped := !warning && f == Finding(Where(path), WrongType, "binary");
    match spec.fieldType
    case ObjectType =>
      if !v.Obj? then mistyped
      else
        || (exists i :: 0 <= i < |v.fields| && KeyFound(lib, fields, v, i, sp, path, f, warning))
        || (exists i, c :: 0 <= i < |v.fields| && Taken(lib, fields, v, i, sp, c) &&
              (assert v.fields[i].1 < v.fields[i];
               Found(lib, fields, v.fields[i].1, Joined(sp, c), Joined(path, c), f, warning)))
        || (!warning && MissingFound(lib, fields, v, sp, path, f))
    case ObjectsType =>
      if !v.Arr? then mistyped
      else exists i ::
        && 0 <= i < |v.items|
        && Found(lib, fields, v.items[i], sp + "[]", IndexPath(lib, path, i), f, warning)
    case StringsType =>
      if !v.Arr? then mistyped
      else
        !warning &&
        exists i :: 0 <= i < |v.items| && TextItemFound(lib, spec, IndexPath(lib, path, i), v.items[i], f)
    case _ => ScalarFound(lib, spec, sp, path, v, f, warning)
  }

  /** It is about member `i`: its key, or the value taken from it. */
  ghost predicate MemberFound(lib: Library, fields: Fields, v: Json, i: nat, sp: string, path: string, f: Finding,
                              warning: bool)
    requires v.Obj? && i < |v.fields|
  {
    || KeyFound(lib, fields, v, i, sp, path, f, warning)
    || exists c :: Taken(lib, fields, v, i, sp, c) &&
                   Found(lib, fields, v.fields[i].1, Joined(sp, c), Joined(path, c), f, warning)
  }

  function Part(w: Walked, warning: bool): seq<Finding> { if warning then w.warnings else w.errors }

  lemma ScalarExact(lib: Library, fields: Fields, v: Json, sp: string, path: string, f: Finding, warning: bool)
    requires SpecAt(fields, sp).fieldType !in {ObjectType, ObjectsType, StringsType}
    ensures f in Part(WalkOf(lib, fields, v, sp, path), warning)
       <==> ScalarFound(lib, SpecAt(fields, sp), sp, path, v, f, warning)
  {
    hide SpecAt, MembersWalked, ItemsWalked, RequiredErrors, TextItemErrors, StringErrors, StringWarnings;
    if v.Str? && SpecAt(fields, sp).fieldType == StringType {
      TextExact(lib, SpecAt(fields, sp), sp, path, v.text, f);
    }
  }

  lemma TextExact(lib: Library, spec: Spec, sp: string, path: string, s: string, f: Finding)
    requires spec.fieldType == StringType
    ensures f in StringErrors(lib, spec, sp, path, s) <==> ScalarFound(lib, spec, sp, path, Str(s), f, false)
    ensures f in StringWarnings(lib, spec, sp, path, s) <==> ScalarFound(lib, spec, sp, path, Str(s), f, true)
  {
    UrlExact(lib, spec, path, s, f);
    hide UrlErrors;
  }

  lemma UrlExact(lib: Library, spec: Spec, path: string, s: string, f: Finding)
    ensures f in UrlErrors(lib, spec, path, s)
       <==> && f.path == Where(path) && f.authority == "architect"
            && ((f.code == InvalidUrl && spec.format == "http-url-without-credentials" && s != "" && !lib.httpUrl(s)) ||
                (f.code == CredentialsInUrl && lib.credentialUrl(s)))
  {
  }

  lemma SpecExact(fields: Fields, sp: string)
    ensures SpecAt(fields, sp) == Described(fields, sp)
  {
    hide Lookup;
    if |sp| >= 2 {
      assert sp[|sp| - 2..] == [sp[|sp| - 2], sp[|sp| - 1]];
    }
  }

  lemma {:induction false} TextItemsExact(lib: Library, spec: Spec, items: seq<Json>, n: nat, path: string, f: Finding)
    requires n <= |items|
    ensures f in TextItemErrors(lib, spec, items, n, path)
       <==> exists i :: 0 <= i < n && TextItemFound(lib, spec, IndexPath(lib, path, i), items[i], f)
  {
    hide TextItemErrors, TextItemFound, ItemErrors;
    TextItemsStep(lib, spec, items, n, path);
    if n > 0 {
      TextItemsExact(lib, spec, items, n - 1, path, f);
      TextItemExact(lib, spec, ItemPath(lib, path, n - 1), items[n - 1], f);
    }
  }

  lemma TextItemExact(lib: Library, spec: Spec, path: string, item: Json, f: Finding)
    ensures f in ItemErrors(lib, spec, path, item) <==> TextItemFound(lib, spec, path, item, f)
  {
  }

  lemma TextItemsStep(lib: Library, spec: Spec, items: seq<Json>, n: nat, path: string)
    requires n <= |items|
    ensures TextItemErrors(lib, spec, items, n, path)
         == if n == 0 then []
            else TextItemErrors(lib, spec, items, n - 1, path)
                 + ItemErrors(lib, spec, ItemPath(lib, path, n - 1), items[n - 1])
  {
  }

  // ----- required fields

  /** What the walk has kept of the first `n` members, as far as the rules ask. */
  ghost predicate Settled(lib: Library, fields: Fields, v: Json, n: nat, sp: string, m: Members)
    requires v.Obj? && n <= |v.fields|
  {
    && (forall c :: c in m.seen <==> Earlier(lib, fields, v, n, sp, c))
    && forall c :: Lacking(m.kept, c) <==> NoValue(lib, fields, v, n, sp, c)
  }

  ghost predicate NoValue(lib: Library, fields: Fields, v: Json, n: nat, sp: string, c: string)
    requires v.Obj? && n <= |v.fields|
  {
    forall i :: 0 <= i < n && Taken(lib, fields, v, i, sp, c) ==> Blank(fields, Joined(sp, c), v.fields[i].1)
  }

  ghost predicate EntryMissing(fields: Fields, m: Members, c: string, sp: string, path: string, f: Finding) {
    && RequiredBy(fields, Joined(sp, c)) != "" && Lacking(m.kept, c)
    && f == Finding(Where(Joined(path, c)), Required,
                    if c in m.seen then "architect" else RequiredBy(fields, Joined(sp, c)))
  }

  lemma {:induction false} RequiredUpToExact(lib: Library, fields: Fields, m: Members, n: nat, sp: string, path: string,
                                             f: Finding)
    requires n <= |ChildrenOf(lib, fields, sp)|
    ensures f in RequiredUpTo(lib, fields, m, n, sp, path)
       <==> exists k :: 0 <= k < n && EntryMissing(fields, m, ChildrenOf(lib, fields, sp)[k].1, sp, path, f)
  {
    hide ChildrenOf, Lookup, EntryMissing, Lacking, RequiredOf, RequiredUpTo;
    if n == 0 {
      NoEntries(lib, fields, m, sp, path);
    } else {
      RequiredUpToExact(lib, fields, m, n - 1, sp, path, f);
      EntryStep(lib, fields, m, n, sp, path, f);
    }
  }

  lemma NoEntries(lib: Library, fields: Fields, m: Members, sp: string, path: string)
    ensures RequiredUpTo(lib, fields, m, 0, sp, path) == []
  {
    hide ChildrenOf;
  }

  lemma EntryStep(lib: Library, fields: Fields, m: Members, n: nat, sp: string, path: string, f: Finding)
    requires 0 < n <= |ChildrenOf(lib, fields, sp)|
    ensures f in RequiredUpTo(lib, fields, m, n, sp, path)
       <==> || f in RequiredUpTo(lib, fields, m, n - 1, sp, path)
            || EntryMissing(fields, m, ChildrenOf(lib, fields, sp)[n - 1].1, sp, path, f)
  {
    hide ChildrenOf, Lookup, Lacking;
  }

  lemma {:induction false} ChildrenDistinct(lib: Library, fields: Fields, sp: string, n: nat)
    requires n <= |fields|
    ensures DistinctKeys(Children(lib, fields, sp, n))
  {
    hide Put, ParentOf, KeyOf;
    if n > 0 {
      ChildrenDistinct(lib, fields, sp, n - 1);
      PutDistinct(Children(lib, fields, sp, n - 1), lib.lower(KeyOf(fields[n - 1].0)), KeyOf(fields[n - 1].0));
    }
  }

  lemma {:induction false} LookupFrom<V>(m: Assoc<V>, key: string) returns (i: nat)
    requires Lookup(m, key).Some?
    ensures i < |m| && m[i] == (key, Lookup(m, key).value)
  {
    if m[0].0 == key {
      i := 0;
    } else {
      var j := LookupFrom(m[1..], key);
      i := j + 1;
    }
  }

  /** The keys the index offers are the last fields under their own names. */
  lemma EntryIsField(lib: Library, fields: Fields, sp: string, c: string)
    requires WellFormed(fields)
    ensures LastField(lib, fields, sp, c, c)
       <==> exists k :: 0 <= k < |ChildrenOf(lib, fields, sp)| && ChildrenOf(lib, fields, sp)[k].1 == c
  {
    hide LastField, Lookup, Children;
    LastExact(lib, fields, sp, c, c);
    var index := ChildrenOf(lib, fields, sp);
    if LastField(lib, fields, sp, c, c) {
      var k := LookupFrom(index, lib.lower(c));
      assert index[k].1 == c;
    }
    forall k | 0 <= k < |index| && index[k].1 == c ensures LastField(lib, fields, sp, c, c) {
      ChildrenDistinct(lib, fields, sp, |fields|);
      LookupAt(index, k);
      ChildIsField(lib, fields, sp, |fields|, index[k].0);
    }
  }

  lemma RequiredExact(lib: Library, fields: Fields, v: Json, m: Members, sp: string, path: string, f: Finding)
    requires WellFormed(fields) && v.Obj? && Settled(lib, fields, v, |v.fields|, sp, m)
    ensures f in RequiredErrors(lib, fields, m, sp, path) <==> MissingFound(lib, fields, v, sp, path, f)
  {
    hide ChildrenOf, Lookup, Lacking, LastField, Taken, Blank, RequiredUpTo, Earlier, RequiredBy;
    var index := ChildrenOf(lib, fields, sp);
    RequiredUpToExact(lib, fields, m, |index|, sp, path, f);
    forall c ensures LastField(lib, fields, sp, c, c) && EntryMissing(fields, m, c, sp, path, f)
                <==> && Misses(lib, fields, v, sp, c) && f.path == Where(Joined(path, c)) && f.code == Required
                     && f.authority == if Earlier(lib, fields, v, |v.fields|, sp, c) then "architect"
                                       else RequiredBy(fields, Joined(sp, c))
    {
    }
    forall c ensures LastField(lib, fields, sp, c, c) <==> exists k :: 0 <= k < |index| && index[k].1 == c {
      EntryIsField(lib, fields, sp, c);
    }
  }

  // ----- the walk finds exactly these

  function MembersPart(m: Members, warning: bool): seq<Finding> { if warning then m.warnings else m.errors }

  function ItemsPart(items: Items, warning: bool): seq<Finding> { if warning then items.warnings else items.errors }

  lemma BlankExact(lib: Library, fields: Fields, v: Json, sp: string, path: string)
    requires !v.Null?
    ensures var kept := WalkOf(lib, fields, v, sp, path).value; kept.Null? || kept == Str("") <==> Blank(fields, sp, v)
  {
    hide SpecAt, Described, MembersWalked, ItemsWalked, RequiredErrors, TextItemErrors, StringErrors, StringWarnings;
    SpecExact(fields, sp);
  }

  lemma EarlierStep(lib: Library, fields: Fields, v: Json, i: nat, sp: string, c: string)
    requires v.Obj? && i < |v.fields|
    ensures Earlier(lib, fields, v, i + 1, sp, c)
       <==> Earlier(lib, fields, v, i, sp, c) || ReadAs(lib, fields, sp, v.fields[i].0, c)
  {
    hide ReadAs;
  }

  lemma NoValueStep(lib: Library, fields: Fields, v: Json, i: nat, sp: string, c: string)
    requires v.Obj? && i < |v.fields|
    ensures NoValue(lib, fields, v, i + 1, sp, c)
       <==> && NoValue(lib, fields, v, i, sp, c)
            && (Taken(lib, fields, v, i, sp, c) ==> Blank(fields, Joined(sp, c), v.fields[i].1))
  {
    hide Taken, Blank;
  }

  /** A member read as a field that has been met is the first of its field. */
  lemma TakenOnce(lib: Library, fields: Fields, v: Json, i: nat, sp: string, c: string)
    requires v.Obj? && i < |v.fields| && Taken(lib, fields, v, i, sp, c)
    ensures NoValue(lib, fields, v, i, sp, c)
  {
    hide ReadAs, Blank;
  }

  lemma OneReading(lib: Library, fields: Fields, sp: string, key: string, c: string, d: string)
    requires WellFormed(fields) && ReadAs(lib, fields, sp, key, c) && ReadAs(lib, fields, sp, key, d)
    ensures c == d
  {
    hide ReadAs, Canonical;
    ReadAsExact(lib, fields, sp, key, c);
    ReadAsExact(lib, fields, sp, key, d);
  }

  /** What `Met` says, with the field the key is read as. */
  lemma MetExact(lib: Library, fields: Fields, v: Json, i: nat, sp: string, path: string, m: Members, f: Finding,
                 warning: bool)
    requires WellFormed(fields) && v.Obj? && i < |v.fields| && Settled(lib, fields, v, i, sp, m)
    ensures var (now, goOn) := Met(lib, fields, m, v.fields[i].0, v.fields[i].1, sp, path);
            && now.kept == m.kept
            && (f in MembersPart(now, warning)
                <==> f in MembersPart(m, warning) || KeyFound(lib, fields, v, i, sp, path, f, warning))
            && (forall c :: c in now.seen <==> c in m.seen || ReadAs(lib, fields, sp, v.fields[i].0, c))
            && (goOn <==> Canonical(lib, fields, sp, v.fields[i].0).Some? &&
                          Taken(lib, fields, v, i, sp, Canonical(lib, fields, sp, v.fields[i].0).value))
  {
    hide ReadAs, Canonical, Lookup, Earlier, NoValue, Lacking;
    var key := v.fields[i].0;
    forall c ensures Canonical(lib, fields, sp, key) == Some(c) <==> ReadAs(lib, fields, sp, key, c) {
      ReadAsExact(lib, fields, sp, key, c);
    }
  }

  /** Member `i`'s value is walked as `c`, and the walk finds what is to be found in it. */
  ghost predicate ChildExact(lib: Library, fields: Fields, v: Json, i: nat, sp: string, path: string, f: Finding,
                             warning: bool)
    requires v.Obj? && i < |v.fields|
  {
    forall c :: Taken(lib, fields, v, i, sp, c) ==>
      (f in Part(WalkOf(lib, fields, v.fields[i].1, Joined(sp, c), Joined(path, c)), warning)
       <==> Found(lib, fields, v.fields[i].1, Joined(sp, c), Joined(path, c), f, warning))
  }

  lemma MemberStep(lib: Library, fields: Fields, v: Json, i: nat, sp: string, path: string, f: Finding, warning: bool)
    requires WellFormed(fields) && v.Obj? && i < |v.fields|
    requires Settled(lib, fields, v, i, sp, MembersWalked(lib, fields, v, i, sp, path))
    requires ChildExact(lib, fields, v, i, sp, path, f, warning)
    ensures var before := MembersWalked(lib, fields, v, i, sp, path);
            var after := MembersWalked(lib, fields, v, i + 1, sp, path);
            && Settled(lib, fields, v, i + 1, sp, after)
            && (f in MembersPart(after, warning)
                <==> f in MembersPart(before, warning) || MemberFound(lib, fields, v, i, sp, path, f, warning))
  {
    hide Met, WalkOf, Canonical, Lookup, Put, Taken, KeyFound, Found, ReadAs, Earlier, NoValue, Blank;
    var before, after := MembersWalked(lib, fields, v, i, sp, path), MembersWalked(lib, fields, v, i + 1, sp, path);
    var key, child := v.fields[i].0, v.fields[i].1;
    MetExact(lib, fields, v, i, sp, path, before, f, warning);
    forall c ensures Canonical(lib, fields, sp, key) == Some(c) <==> ReadAs(lib, fields, sp, key, c) {
      ReadAsExact(lib, fields, sp, key, c);
    }
    forall c ensures Taken(lib, fields, v, i, sp, c) ==> Canonical(lib, fields, sp, key) == Some(c) && !child.Null? {
      TakenReads(lib, fields, v, i, sp, c);
    }
    forall c ensures c in after.seen <==> Earlier(lib, fields, v, i + 1, sp, c) {
      EarlierStep(lib, fields, v, i, sp, c);
    }
    forall c ensures Lacking(after.kept, c) <==> NoValue(lib, fields, v, i + 1, sp, c) {
      NoValueStep(lib, fields, v, i, sp, c);
      if Taken(lib, fields, v, i, sp, c) {
        TakenOnce(lib, fields, v, i, sp, c);
        BlankExact(lib, fields, child, Joined(sp, c), Joined(path, c));
      }
      if Met(lib, fields, before, key, child, sp, path).1 {
        var taken := Canonical(lib, fields, sp, key).value;
        LookupPut(before.kept, taken, WalkOf(lib, fields, child, Joined(sp, taken), Joined(path, taken)).value, c);
      }
    }
  }

  lemma TakenReads(lib: Library, fields: Fields, v: Json, i: nat, sp: string, c: string)
    requires v.Obj? && i < |v.fields|
    ensures Taken(lib, fields, v, i, sp, c) ==> ReadAs(lib, fields, sp, v.fields[i].0, c) && !v.fields[i].1.Null?
  {
  }

  lemma {:induction false} ChildIsExact(lib: Library, fields: Fields, v: Json, i: nat, sp: string, path: string,
                                        f: Finding, warning: bool)
    requires WellFormed(fields) && v.Obj? && i < |v.fields|
    ensures ChildExact(lib, fields, v, i, sp, path, f, warning)
    decreases v, 0, i
  {
    hide WalkOf, Found, Taken;
    assert v.fields[i].1 < v.fields[i];
    forall c | Taken(lib, fields, v, i, sp, c)
      ensures f in Part(WalkOf(lib, fields, v.fields[i].1, Joined(sp, c), Joined(path, c)), warning)
         <==> Found(lib, fields, v.fields[i].1, Joined(sp, c), Joined(path, c), f, warning)
    {
      WalkExact(lib, fields, v.fields[i].1, Joined(sp, c), Joined(path, c), f, warning);
    }
  }

  lemma {:induction false} MembersExact(lib: Library, fields: Fields, v: Json, n: nat, sp: string, path: string,
                                        f: Finding, warning: bool)
    requires WellFormed(fields) && v.Obj? && n <= |v.fields|
    ensures var m := MembersWalked(lib, fields, v, n, sp, path);
            && Settled(lib, fields, v, n, sp, m)
            && (f in MembersPart(m, warning)
                <==> exists i :: 0 <= i < n && MemberFound(lib, fields, v, i, sp, path, f, warning))
    decreases v, 0, n
  {
    hide WalkOf, Found, MemberFound, Settled, Taken, MembersWalked, ChildExact;
    if n == 0 {
      NothingSettled(lib, fields, v, sp, path);
    } else {
      MembersExact(lib, fields, v, n - 1, sp, path, f, warning);
      ChildIsExact(lib, fields, v, n - 1, sp, path, f, warning);
      MemberStep(lib, fields, v, n - 1, sp, path, f, warning);
    }
  }

  lemma NothingSettled(lib: Library, fields: Fields, v: Json, sp: string, path: string)
    requires v.Obj?
    ensures var m := MembersWalked(lib, fields, v, 0, sp, path);
            Settled(lib, fields, v, 0, sp, m) && m.errors == [] && m.warnings == []
  {
    hide Taken, Blank, ReadAs;
  }

  lemma {:induction false} ItemsExact(lib: Library, fields: Fields, v: Json, n: nat, sp: string, path: string,
                                      f: Finding, warning: bool)
    requires WellFormed(fields) && v.Arr? && n <= |v.items|
    ensures f in ItemsPart(ItemsWalked(lib, fields, v, n, sp, path), warning)
       <==> exists i :: 0 <= i < n && Found(lib, fields, v.items[i], sp + "[]", IndexPath(lib, path, i), f, warning)
    decreases v, 0, n
  {
    hide WalkOf, Found;
    if n > 0 {
      ItemsExact(lib, fields, v, n - 1, sp, path, f, warning);
      WalkExact(lib, fields, v.items[n - 1], sp + "[]", IndexPath(lib, path, n - 1), f, warning);
    }
  }

  lemma ObjectFound(lib: Library, fields: Fields, v: Json, sp: string, path: string, f: Finding, warning: bool)
    requires v.Obj? && Described(fields, sp).fieldType == ObjectType
    ensures Found(lib, fields, v, sp, path, f, warning)
       <==> || (exists i :: 0 <= i < |v.fields| && MemberFound(lib, fields, v, i, sp, path, f, warning))
            || (!warning && MissingFound(lib, fields, v, sp, path, f))
  {
    hide Described, MissingFound, KeyFound, Taken;
    forall i | 0 <= i < |v.fields|
      ensures MemberFound(lib, fields, v, i, sp, path, f, warning)
         <==> || KeyFound(lib, fields, v, i, sp, path, f, warning)
              || exists c :: Taken(lib, fields, v, i, sp, c) &&
                             Found(lib, fields, v.fields[i].1, Joined(sp, c), Joined(path, c), f, warning)
    {
    }
  }

  lemma ObjectWalked(lib: Library, fields: Fields, v: Json, sp: string, path: string, f: Finding, warning: bool)
    requires v.Obj? && SpecAt(fields, sp).fieldType == ObjectType
    ensures var m := MembersWalked(lib, fields, v, |v.fields|, sp, path);
            f in Part(WalkOf(lib, fields, v, sp, path), warning)
            <==> f in MembersPart(m, warning) || (!warning && f in RequiredErrors(lib, fields, m, sp, path))
  {
    hide SpecAt, MembersWalked, RequiredErrors;
  }

  /** For every well-formed schema, the walk of a value reports a finding exactly when it is one of the value's. */
  lemma {:induction false} WalkExact(lib: Library, fields: Fields, v: Json, sp: string, path: string, f: Finding,
                                     warning: bool)
    requires WellFormed(fields)
    ensures f in Part(WalkOf(lib, fields, v, sp, path), warning) <==> Found(lib, fields, v, sp, path, f, warning)
    decreases v, 1, 0
  {
    hide MembersWalked, ItemsWalked, TextItemErrors, RequiredErrors, SpecAt, Described, MemberFound, MissingFound;
    hide ScalarFound, TextItemFound, StringErrors, StringWarnings, IntegerErrors;
    SpecExact(fields, sp);
    match SpecAt(fields, sp).fieldType
    case ObjectType =>
      if v.Obj? {
        ObjectFound(lib, fields, v, sp, path, f, warning);
        ObjectWalked(lib, fields, v, sp, path, f, warning);
        MembersExact(lib, fields, v, |v.fields|, sp, path, f, warning);
        RequiredExact(lib, fields, v, MembersWalked(lib, fields, v, |v.fields|, sp, path), sp, path, f);
      }
    case ObjectsType =>
      if v.Arr? {
        ItemsExact(lib, fields, v, |v.items|, sp, path, f, warning);
      }
    case StringsType =>
      if v.Arr? {
        TextItemsExact(lib, SpecAt(fields, sp), v.items, |v.items|, path, f);
      }
    case _ => ScalarExact(lib, fields, v, sp, path, f, warning);
  }

  // ----- the value the walk keeps

  /** `w` is `v` under documented keys: each field has the value of the member it is taken from, and no other. */
  ghost predicate Normalises(lib: Library, fields: Fields, v: Json, sp: string, w: Json)
    decreases v
  {
    match Described(fields, sp).fieldType
    case ObjectType =>
      if !v.Obj? then w == Null
      else
        && w.Obj?
        && (forall c :: Has(w.fields, c) <==> exists i :: 0 <= i < |v.fields| && Taken(lib, fields, v, i, sp, c))
        && forall i, c :: 0 <= i < |v.fields| && Taken(lib, fields, v, i, sp, c) && Has(w.fields, c) ==>
             (assert v.fields[i].1 < v.fields[i];
              Normalises(lib, fields, v.fields[i].1, Joined(sp, c), Lookup(w.fields, c).value))
    case ObjectsType =>
      if !v.Arr? then w == Null
      else
        && w.Arr? && |w.items| == |v.items|
        && forall i :: 0 <= i < |v.items| ==> Normalises(lib, fields, v.items[i], sp + "[]", w.items[i])
    case StringsType => w == if v.Arr? then v else Null
    case _ => w == v
  }

  /** What is kept of the first `n` members. */
  ghost predicate Keeps(lib: Library, fields: Fields, v: Json, n: nat, sp: string, kept: Assoc<Json>)
    requires v.Obj? && n <= |v.fields|
  {
    && (forall c :: Has(kept, c) <==> exists i :: 0 <= i < n && Taken(lib, fields, v, i, sp, c))
    && forall i, c :: 0 <= i < n && Taken(lib, fields, v, i, sp, c) && Has(kept, c) ==>
         Normalises(lib, fields, v.fields[i].1, Joined(sp, c), Lookup(kept, c).value)
  }

  lemma KeepsStep(lib: Library, fields: Fields, v: Json, i: nat, sp: string, before: Assoc<Json>, after: Assoc<Json>)
    requires v.Obj? && i < |v.fields| && Keeps(lib, fields, v, i, sp, before)
    requires if exists c :: Taken(lib, fields, v, i, sp, c)
             then exists c, w ::
               && Taken(lib, fields, v, i, sp, c) && after == Put(before, c, w)
               && (forall d :: Taken(lib, fields, v, i, sp, d) ==> d == c)
               && (forall j :: 0 <= j < i ==> !Taken(lib, fields, v, j, sp, c))
               && Normalises(lib, fields, v.fields[i].1, Joined(sp, c), w)
             else after == before
    ensures Keeps(lib, fields, v, i + 1, sp, after)
  {
    hide Taken, Normalises, Lookup, Put;
    if exists c :: Taken(lib, fields, v, i, sp, c) {
      var c, w :| && Taken(lib, fields, v, i, sp, c) && after == Put(before, c, w)
                  && (forall d :: Taken(lib, fields, v, i, sp, d) ==> d == c)
                  && (forall j :: 0 <= j < i ==> !Taken(lib, fields, v, j, sp, c))
                  && Normalises(lib, fields, v.fields[i].1, Joined(sp, c), w);
      forall d ensures Lookup(after, d) == if d == c then Some(w) else Lookup(before, d) {
        LookupPut(before, c, w, d);
      }
      forall d ensures Has(after, d) <==> exists j :: 0 <= j < i + 1 && Taken(lib, fields, v, j, sp, d) {
        assert d != c ==> Has(after, d) == Has(before, d);
      }
    }
  }

  lemma NotTakenBefore(lib: Library, fields: Fields, v: Json, i: nat, sp: string, c: string)
    requires v.Obj? && i < |v.fields| && Taken(lib, fields, v, i, sp, c)
    ensures forall j :: 0 <= j < i ==> !Taken(lib, fields, v, j, sp, c)
  {
    hide ReadAs;
  }

  lemma {:induction false} MembersKept(lib: Library, fields: Fields, v: Json, n: nat, sp: string, path: string)
    requires WellFormed(fields) && v.Obj? && n <= |v.fields|
    ensures Keeps(lib, fields, v, n, sp, MembersWalked(lib, fields, v, n, sp, path).kept)
    decreases v, 0, n
  {
    hide WalkOf, Taken, Normalises, Met, Lookup, Put, Canonical, Keeps, KeyFound, Settled;
    if n == 0 {
      NothingKeeps(lib, fields, v, sp);
    } else {
      var i := n - 1;
      MembersKept(lib, fields, v, i, sp, path);
      assert v.fields[i].1 < v.fields[i];
      var key, child := v.fields[i].0, v.fields[i].1;
      var m := MembersWalked(lib, fields, v, i, sp, path);
      MembersExact(lib, fields, v, i, sp, path, Finding("", Required, ""), false);
      MetExact(lib, fields, v, i, sp, path, m, Finding("", Required, ""), false);
      forall d | Taken(lib, fields, v, i, sp, d) ensures Canonical(lib, fields, sp, key) == Some(d) {
        TakenReads(lib, fields, v, i, sp, d);
        ReadAsExact(lib, fields, sp, key, d);
      }
      if Met(lib, fields, m, key, child, sp, path).1 {
        var c := Canonical(lib, fields, sp, key).value;
        WalkNormalises(lib, fields, child, Joined(sp, c), Joined(path, c));
        NotTakenBefore(lib, fields, v, i, sp, c);
      }
      KeepsStep(lib, fields, v, i, sp, m.kept, MembersWalked(lib, fields, v, n, sp, path).kept);
    }
  }

  lemma NothingKeeps(lib: Library, fields: Fields, v: Json, sp: string)
    requires v.Obj?
    ensures Keeps(lib, fields, v, 0, sp, [])
  {
    hide Taken, Normalises;
  }

  lemma {:induction false} ItemsKept(lib: Library, fields: Fields, v: Json, n: nat, sp: string, path: string)
    requires WellFormed(fields) && v.Arr? && n <= |v.items|
    ensures var kept := ItemsWalked(lib, fields, v, n, sp, path).values;
            |kept| == n && forall i :: 0 <= i < n ==> Normalises(lib, fields, v.items[i], sp + "[]", kept[i])
    decreases v, 0, n
  {
    hide WalkOf, Normalises;
    if n > 0 {
      ItemsKept(lib, fields, v, n - 1, sp, path);
      WalkNormalises(lib, fields, v.items[n - 1], sp + "[]", IndexPath(lib, path, n - 1));
    }
  }

  /** The walk's value is the normalised document. */
  lemma {:induction false} WalkNormalises(lib: Library, fields: Fields, v: Json, sp: string, path: string)
    requires WellFormed(fields)
    ensures Normalises(lib, fields, v, sp, WalkOf(lib, fields, v, sp, path).value)
    decreases v, 1, 0
  {
    hide MembersWalked, ItemsWalked, TextItemErrors, RequiredErrors, SpecAt, Described, Taken, Lookup;
    SpecExact(fields, sp);
    match SpecAt(fields, sp).fieldType
    case ObjectType =>
      if v.Obj? {
        MembersKept(lib, fields, v, |v.fields|, sp, path);
      }
    case ObjectsType =>
      if v.Arr? {
        ItemsKept(lib, fields, v, |v.items|, sp, path);
      }
    case _ =>
  }

  // ----- the rules on the whole document

  /** `item` is entry `i` of the list under `key`. */
  ghost predicate ItemIs(v: Option<Json>, key: string, i: int, item: Json) {
    exists items :: Prop(v, key) == Some(Arr(items)) && 0 <= i < |items| && items[i] == item
  }

  ghost predicate SameName(a: Json, b: Json) {
    exists s :: s != "" && Prop(Some(a), "name") == Some(Str(s)) && Prop(Some(b), "name") == Some(Str(s))
  }

  /** An earlier entry of the list has the same name. */
  ghost predicate NamedBefore(v: Option<Json>, key: string, i: int, item: Json) {
    exists j, other :: j < i && ItemIs(v, key, j, other) && SameName(other, item)
  }

  predicate Filtered(item: Json) {
    Truthy(Prop(Some(item), "minVersion")) || Truthy(Prop(Some(item), "maxVersion"))
  }

  /** A catalog under a name and a tag, the two left blank where they are not given. */
  ghost predicate TargetIs(lib: Library, op: Json, target: string) {
    exists catalog :: Prop(Some(op), "catalog") == Some(Str(catalog)) &&
      target == catalog + "|" + Given(lib, Prop(Some(op), "targetCatalog")) + "|"
                        + Given(lib, Prop(Some(op), "targetTag"))
  }

  function Given(lib: Library, v: Option<Json>): string {
    if !Truthy(v) then "" else if v.value.Str? then v.value.text else lib.asText(v.value)
  }

  ghost predicate ChannelSays(lib: Library, pkg: Json, k: nat, channel: Json, here: string, f: Finding) {
    f.authority == "binary" &&
    ((NamedBefore(Some(pkg), "channels", k, channel) && f.code == DuplicateEntry && f.path == here + ".name") ||
     (Filtered(pkg) && Filtered(channel) && f.code == MixedVersionFilters && f.path == here))
  }

  ghost predicate ChannelFound(lib: Library, pkg: Json, path: string, f: Finding) {
    exists k: nat, channel ::
      ItemIs(Some(pkg), "channels", k, channel) &&
      ChannelSays(lib, pkg, k, channel, IndexPath(lib, path + ".channels", k), f)
  }

  ghost predicate PackageSays(lib: Library, op: Json, p: nat, pkg: Json, here: string, f: Finding) {
    (NamedBefore(Some(op), "packages", p, pkg) && f == Finding(here + ".name", DuplicateEntry, "binary")) ||
    ChannelFound(lib, pkg, here, f)
  }

  ghost predicate PackageFound(lib: Library, op: Json, path: string, f: Finding) {
    exists p: nat, pkg ::
      ItemIs(Some(op), "packages", p, pkg) && PackageSays(lib, op, p, pkg, IndexPath(lib, path + ".packages", p), f)
  }

  /** Only operators with a catalog are looked into. */
  ghost predicate OperatorSays(lib: Library, mirror: Option<Json>, o: nat, op: Json, here: string, f: Finding) {
    exists target ::
      && TargetIs(lib, op, target)
      && ((f == Finding(here + ".catalog", DuplicateEntry, "binary") && TargetBefore(lib, mirror, o, target)) ||
          PackageFound(lib, op, here, f))
  }

  ghost predicate TargetBefore(lib: Library, mirror: Option<Json>, o: nat, target: string) {
    exists j, other :: j < o && ItemIs(mirror, "operators", j, other) && TargetIs(lib, other, target)
  }

  ghost predicate OperatorFound(lib: Library, mirror: Option<Json>, f: Finding) {
    exists o: nat, op ::
      ItemIs(mirror, "operators", o, op) &&
      OperatorSays(lib, mirror, o, op, IndexPath(lib, "mirror.operators", o), f)
  }

  ghost predicate ReleaseFound(lib: Library, mirror: Option<Json>, f: Finding) {
    exists i: nat, channel ::
      && ItemIs(Prop(mirror, "platform"), "channels", i, channel)
      && NamedBefore(Prop(mirror, "platform"), "channels", i, channel)
      && f == Finding(IndexPath(lib, "mirror.platform.channels", i) + ".name", DuplicateEntry, "binary")
  }

  ghost predicate AnyItem(v: Option<Json>, key: string) {
    exists i, item :: ItemIs(v, key, i, item)
  }

  ghost predicate NothingListed(mirror: Option<Json>) {
    && !AnyItem(Prop(mirror, "platform"), "channels") && !AnyItem(mirror, "operators")
    && !AnyItem(mirror, "additionalImages") && !AnyItem(mirror, "samples")
    && !AnyItem(Prop(mirror, "helm"), "local") && !AnyItem(Prop(mirror, "helm"), "repositories")
  }

  lemma ListExact(v: Option<Json>, key: string)
    ensures forall i: int, item :: ItemIs(v, key, i, item)
                              <==> 0 <= i < |ListAt(v, key)| && ListAt(v, key)[i] == item
    ensures AnyItem(v, key) <==> ListAt(v, key) != []
  {
    hide Prop;
    var items := ListAt(v, key);
    if Prop(v, key) == Some(Arr(items)) && items != [] {
      assert ItemIs(v, key, 0, items[0]);
    }
  }

  lemma RepeatsExact(v: Option<Json>, key: string, i: nat)
    requires i < |ListAt(v, key)|
    ensures RepeatsName(ListAt(v, key), i) <==> NamedBefore(v, key, i, ListAt(v, key)[i])
  {
    ListExact(v, key);
    hide Prop, ItemIs, AnyItem;
    var items := ListAt(v, key);
    if NamedBefore(v, key, i, items[i]) {
      var j, other :| j < i && ItemIs(v, key, j, other) && SameName(other, items[i]);
      assert NameOf(items[j]) == NameOf(items[i]);
    }
    if RepeatsName(items, i) {
      var j :| 0 <= j < i && NameOf(items[j]) == NameOf(items[i]);
      assert SameName(items[j], items[i]) && ItemIs(v, key, j, items[j]);
    }
  }

  lemma {:induction false} ReleaseUpTo(lib: Library, items: seq<Json>, n: nat, f: Finding)
    requires n <= |items|
    ensures f in ReleaseChannelErrors(lib, items, n)
       <==> exists i :: 0 <= i < n && RepeatsName(items, i) &&
                        f == Finding(IndexPath(lib, "mirror.platform.channels", i) + ".name", DuplicateEntry, "binary")
  {
    hide RepeatsName;
    if n > 0 {
      ReleaseUpTo(lib, items, n - 1, f);
    }
  }

  lemma {:induction false} ChannelsUpTo(lib: Library, filtered: bool, items: seq<Json>, n: nat, base: string,
                                        f: Finding)
    requires n <= |items|
    ensures f in ChannelErrors(lib, filtered, items, n, base)
       <==> exists k :: 0 <= k < n &&
                        f in ChannelErrorsAt(lib, filtered, items, k, ItemPath(lib, base + ".channels", k))
  {
    hide ChannelErrorsAt;
    if n > 0 {
      ChannelsUpTo(lib, filtered, items, n - 1, base, f);
    }
  }

  lemma {:induction false} PackagesUpTo(lib: Library, items: seq<Json>, n: nat, base: string, f: Finding)
    requires n <= |items|
    ensures f in PackageErrors(lib, items, n, base)
       <==> exists p :: 0 <= p < n && f in PackageErrorsAt(lib, items, p, ItemPath(lib, base + ".packages", p))
  {
    hide PackageErrorsAt;
    if n > 0 {
      PackagesUpTo(lib, items, n - 1, base, f);
    }
  }

  lemma {:induction false} OperatorsUpTo(lib: Library, ops: seq<Json>, n: nat, f: Finding)
    requires n <= |ops|
    ensures f in OperatorErrors(lib, ops, n)
       <==> exists o :: 0 <= o < n && f in OperatorErrorsAt(lib, ops, o, ItemPath(lib, "mirror.operators", o))
  {
    hide OperatorErrorsAt;
    if n > 0 {
      OperatorsUpTo(lib, ops, n - 1, f);
    }
  }

  lemma ReleaseExact(lib: Library, mirror: Option<Json>, f: Finding)
    ensures var channels := ListAt(Prop(mirror, "platform"), "channels");
            f in ReleaseChannelErrors(lib, channels, |channels|) <==> ReleaseFound(lib, mirror, f)
  {
    var platform := Prop(mirror, "platform");
    var channels := ListAt(platform, "channels");
    ReleaseUpTo(lib, channels, |channels|, f);
    ListExact(platform, "channels");
    hide RepeatsName, ListAt, Prop, ReleaseChannelErrors, ItemIs, NamedBefore;
    forall i: nat | i < |channels|
      ensures RepeatsName(channels, i) <==> NamedBefore(platform, "channels", i, channels[i])
    {
      RepeatsExact(platform, "channels", i);
    }
  }

  lemma ChannelExact(lib: Library, pkg: Json, path: string, f: Finding)
    ensures var channels := ListAt(Some(pkg), "channels");
            f in ChannelErrors(lib, Filters(pkg), channels, |channels|, path) <==> ChannelFound(lib, pkg, path, f)
  {
    var channels := ListAt(Some(pkg), "channels");
    ChannelsUpTo(lib, Filters(pkg), channels, |channels|, path, f);
    ListExact(Some(pkg), "channels");
    hide RepeatsName, ListAt, Prop, ChannelErrors, ItemIs, NamedBefore, Truthy, ChannelSays, ChannelErrorsAt, Filters;
    forall k: nat | k < |channels|
      ensures f in ChannelErrorsAt(lib, Filters(pkg), channels, k, ItemPath(lib, path + ".channels", k))
         <==> ChannelSays(lib, pkg, k, channels[k], IndexPath(lib, path + ".channels", k), f)
    {
      ChannelAtExact(lib, pkg, k, IndexPath(lib, path + ".channels", k), f);
    }
  }

  lemma ChannelAtExact(lib: Library, pkg: Json, k: nat, here: string, f: Finding)
    requires k < |ListAt(Some(pkg), "channels")| && here != ""
    ensures var channels := ListAt(Some(pkg), "channels");
            f in ChannelErrorsAt(lib, Filters(pkg), channels, k, here)
            <==> ChannelSays(lib, pkg, k, channels[k], here, f)
  {
    RepeatsExact(Some(pkg), "channels", k);
    hide RepeatsName, ListAt, Prop, ItemIs, NamedBefore, Truthy;
  }

  lemma PackageExact(lib: Library, op: Json, path: string, f: Finding)
    ensures var packages := ListAt(Some(op), "packages");
            f in PackageErrors(lib, packages, |packages|, path) <==> PackageFound(lib, op, path, f)
  {
    var packages := ListAt(Some(op), "packages");
    PackagesUpTo(lib, packages, |packages|, path, f);
    ListExact(Some(op), "packages");
    hide RepeatsName, ListAt, Prop, PackageErrors, ItemIs, PackageSays, PackageErrorsAt;
    forall p: nat | p < |packages|
      ensures f in PackageErrorsAt(lib, packages, p, ItemPath(lib, path + ".packages", p))
         <==> PackageSays(lib, op, p, packages[p], IndexPath(lib, path + ".packages", p), f)
    {
      PackageAtExact(lib, op, p, IndexPath(lib, path + ".packages", p), f);
    }
  }

  lemma PackageAtExact(lib: Library, op: Json, p: nat, here: string, f: Finding)
    requires p < |ListAt(Some(op), "packages")| && here != ""
    ensures var packages := ListAt(Some(op), "packages");
            f in PackageErrorsAt(lib, packages, p, here) <==> PackageSays(lib, op, p, packages[p], here, f)
  {
    RepeatsExact(Some(op), "packages", p);
    ChannelExact(lib, ListAt(Some(op), "packages")[p], here, f);
    hide RepeatsName, ListAt, Prop, NamedBefore, ChannelErrors, ChannelFound, Filters;
  }

  lemma TargetExact(lib: Library, op: Json, target: string)
    ensures TargetOf(lib, op) == Some(target) <==> TargetIs(lib, op, target)
  {
    hide Prop, Truthy;
  }

  lemma OperatorExact(lib: Library, mirror: Option<Json>, f: Finding)
    ensures var ops := ListAt(mirror, "operators");
            f in OperatorErrors(lib, ops, |ops|) <==> OperatorFound(lib, mirror, f)
  {
    var ops := ListAt(mirror, "operators");
    OperatorsUpTo(lib, ops, |ops|, f);
    ListExact(mirror, "operators");
    hide ListAt, OperatorErrors, ItemIs, OperatorSays, OperatorErrorsAt;
    forall o: nat | o < |ops|
      ensures f in OperatorErrorsAt(lib, ops, o, ItemPath(lib, "mirror.operators", o))
         <==> OperatorSays(lib, mirror, o, ops[o], IndexPath(lib, "mirror.operators", o), f)
    {
      OperatorAtExact(lib, mirror, o, IndexPath(lib, "mirror.operators", o), f);
    }
  }

  lemma TargetBeforeExact(lib: Library, mirror: Option<Json>, o: nat, target: string)
    requires o < |ListAt(mirror, "operators")|
    ensures target in TargetsUpTo(lib, ListAt(mirror, "operators"), o) <==> TargetBefore(lib, mirror, o, target)
  {
    var ops := ListAt(mirror, "operators");
    ListExact(mirror, "operators");
    forall op ensures TargetOf(lib, op) == Some(target) <==> TargetIs(lib, op, target) {
      TargetExact(lib, op, target);
    }
    hide ListAt, ItemIs, TargetOf, TargetIs;
    if target in TargetsUpTo(lib, ops, o) {
      var j :| 0 <= j < o && TargetOf(lib, ops[j]) == Some(target);
      assert ItemIs(mirror, "operators", j, ops[j]);
    }
  }

  lemma OperatorAtExact(lib: Library, mirror: Option<Json>, o: nat, here: string, f: Finding)
    requires o < |ListAt(mirror, "operators")| && here != ""
    ensures var ops := ListAt(mirror, "operators");
            f in OperatorErrorsAt(lib, ops, o, here) <==> OperatorSays(lib, mirror, o, ops[o], here, f)
  {
    var ops := ListAt(mirror, "operators");
    hide ListAt, Prop, TargetOf, TargetIs, TargetsUpTo, TargetBefore, PackageErrors, PackageFound;
    PackageExact(lib, ops[o], here, f);
    TargetsExact(lib, ops[o]);
    match TargetOf(lib, ops[o])
    case None =>
    case Some(target) =>
      TargetBeforeExact(lib, mirror, o, target);
      assert TargetIs(lib, ops[o], target);
  }

  lemma TargetsExact(lib: Library, op: Json)
    ensures forall target :: TargetIs(lib, op, target) ==> TargetOf(lib, op) == Some(target)
    ensures TargetOf(lib, op).Some? ==> TargetIs(lib, op, TargetOf(lib, op).value)
  {
    hide Prop, Truthy;
  }

  /** The rules on the whole document report exactly these. */
  lemma SemanticExact(lib: Library, doc: Json, f: Finding)
    ensures var mirror := Prop(Some(doc), "mirror");
            f in SemanticErrors(lib, doc) <==>
            && mirror.Some? && mirror.value.Obj?
            && ((NothingListed(mirror) && f == Finding("mirror", EmptyMirror, "architect"))
                || ReleaseFound(lib, mirror, f) || OperatorFound(lib, mirror, f))
  {
    var mirror := Prop(Some(doc), "mirror");
    ReleaseExact(lib, mirror, f);
    OperatorExact(lib, mirror, f);
    ListExact(Prop(mirror, "platform"), "channels");
    ListExact(mirror, "operators");
    ListExact(mirror, "additionalImages");
    ListExact(mirror, "samples");
    ListExact(Prop(mirror, "helm"), "local");
    ListExact(Prop(mirror, "helm"), "repositories");
    hide ListAt, Prop, ReleaseFound, OperatorFound, ReleaseChannelErrors, OperatorErrors, ItemIs, AnyItem;
  }

  /** What a report says of a document: the walk's findings and, on the normalised document, the rules' findings. */
  lemma ReportExact(lib: Library, fields: Fields, doc: Json, f: Finding)
    requires WellFormed(fields)
    ensures var r := Validated(lib, fields, doc);
            if !doc.Obj? then r == Report([Finding("(document)", NotAMapping, "binary")], [], None)
            else
              && r.normalized.Some? && Normalises(lib, fields, doc, "", r.normalized.value)
              && (f in r.warnings <==> Found(lib, fields, doc, "", "", f, true))
              && (f in r.errors <==>
                    Found(lib, fields, doc, "", "", f, false) || f in SemanticErrors(lib, r.normalized.value))
  {
    hide Found, SemanticErrors, Normalises, WalkOf;
    if doc.Obj? {
      WalkNormalises(lib, fields, doc, "", "");
      WalkExact(lib, fields, doc, "", "", f, true);
      WalkExact(lib, fields, doc, "", "", f, false);
    }
  }
}
