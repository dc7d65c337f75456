/**
 Switching the provisioning network between IPv4 and IPv6 (`shared/provisioningNetworkFamily.js`): the values of the
 family that is not selected are parked in a draft. The state it keeps refines a store with one slot per family.

 `number` and `asText` are JavaScript's `Number(text)` and `String(value ?? "")`.
 */
module ProvisioningFamily {
  import opened Wrappers
  import opened OrderedMap
  import opened JsonValue
  import Cidr

  const FIELDS := ["provisioningNetworkCIDR", "provisioningDHCPRange", "clusterProvisioningIP",
                   "bootstrapProvisioningIP", "provisioningNetworkGateway"]
  const CIDR_FIELD := "provisioningNetworkCIDR"
  const FAMILY_KEY := "provisioningNetworkIpFamily"
  const DRAFT_KEY := "provisioningDraftsByFamily"

  datatype Conversions = Conversions(number: Cidr.NumberOf, asText: Option<Json> -> string)

  predicate IsFamily(name: string) { name == "ipv4" || name == "ipv6" }

  function OtherFamily(name: string): string { if name == "ipv4" then "ipv6" else "ipv4" }

  ghost function FamilyOf(cv: Conversions, cidr: Option<Json>): Option<string> {
    match Cidr.ParsedCidr(cv.asText(cidr), cv.number)
    case None => None
    case Some(range) => Some(if range.family.V6? then "ipv6" else "ipv4")
  }

  function StoredFamily(inventory: Option<Json>): Option<string> {
    match Prop(inventory, FAMILY_KEY)
    case Some(Str(name)) => if IsFamily(name) then Some(name) else None
    case _ => None
  }

  /** The stored choice wins; without one the CIDR's own family, and failing that IPv4. */
  ghost function Selected(cv: Conversions, inventory: Option<Json>): (name: string)
    ensures IsFamily(name)
  {
    if StoredFamily(inventory).Some? then StoredFamily(inventory).value
    else
      match FamilyOf(cv, Prop(inventory, CIDR_FIELD))
      case Some(name) => name
      case None => "ipv4"
  }

  /** `v ?? ""` */
  function OrBlank(v: Option<Json>): Json {
    match v
    case None => Str("")
    case Some(Null) => Str("")
    case Some(w) => w
  }

  /** The first `n` family-bound fields of `source`, assigned onto `target`. */
  function Filled(target: Assoc<Json>, source: Option<Json>, n: nat): Assoc<Json>
    requires n <= |FIELDS|
  {
    if n == 0 then target
    else Put(Filled(target, source, n - 1), FIELDS[n - 1], OrBlank(Prop(source, FIELDS[n - 1])))
  }

  /** `{ ...(v || {}) }` */
  function Spread(v: Option<Json>): Assoc<Json> {
    if v.Some? && v.value.Obj? then v.value.fields else []
  }

  function OrEmpty(v: Option<Json>): Option<Json> {
    if Truthy(v) then v else Some(Obj([]))
  }

  function Drafts(inventory: Option<Json>, current: string): Assoc<Json> {
    Put(Spread(Prop(inventory, DRAFT_KEY)), current, Obj(Filled([], inventory, |FIELDS|)))
  }

  /** The patch a switch produces; `None` when there is nothing to change. */
  ghost function SwitchPatch(cv: Conversions, inventory: Option<Json>, next: string): Option<Assoc<Json>> {
    var current := Selected(cv, inventory);
    if !IsFamily(next) || current == next then None
    else
      var drafts := Drafts(inventory, current);
      var patch := [(FAMILY_KEY, Str(next)), (DRAFT_KEY, Obj(drafts))];
      Some(Filled(patch, OrEmpty(Lookup(drafts, next)), |FIELDS|))
  }

  method SelectedProvisioningFamily(cv: Conversions, inventory: Option<Json>) returns (name: string)
    ensures name == Selected(cv, inventory)
  {
    var stored := StoredFamily(inventory);
    if stored.Some? {
      return stored.value;
    }
    var range := Cidr.ParseCidr(cv.asText(Prop(inventory, CIDR_FIELD)), cv.number);
    if range.None? {
      return "ipv4";
    }
    return if range.value.family.V6? then "ipv6" else "ipv4";
  }

  method SwitchProvisioningFamily(cv: Conversions, inventory: Option<Json>, next: string)
      returns (patch: Option<Assoc<Json>>)
    ensures patch == SwitchPatch(cv, inventory, next)
  {
    hide Selected;
    var current := SelectedProvisioningFamily(cv, inventory);
    if !IsFamily(next) || current == next {
      return None;
    }
    var drafts := Spread(Prop(inventory, DRAFT_KEY));
    var outgoing: Assoc<Json> := [];
    var i := 0;
    while i < |FIELDS|
      invariant 0 <= i <= |FIELDS|
      invariant outgoing == Filled([], inventory, i)
    {
      outgoing := Put(outgoing, FIELDS[i], OrBlank(Prop(inventory, FIELDS[i])));
      i := i + 1;
    }
    drafts := Put(drafts, current, Obj(outgoing));
    var incoming := OrEmpty(Lookup(drafts, next));
    ghost var start := [(FAMILY_KEY, Str(next)), (DRAFT_KEY, Obj(drafts))];
    var built: Assoc<Json> := [(FAMILY_KEY, Str(next)), (DRAFT_KEY, Obj(drafts))];
    i := 0;
    while i < |FIELDS|
      invariant 0 <= i <= |FIELDS|
      invariant built == Filled(start, incoming, i)
    {
      built := Put(built, FIELDS[i], OrBlank(Prop(incoming, FIELDS[i])));
      i := i + 1;
    }
    return Some(built);
  }

  // ----- merging a patch

  function Merged(inventory: Assoc<Json>, patch: Assoc<Json>): Assoc<Json>
    decreases |patch|
  {
    if patch == [] then inventory else Merged(Put(inventory, patch[0].0, patch[0].1), patch[1..])
  }

  lemma {:induction false} MergedLookup(inventory: Assoc<Json>, patch: Assoc<Json>, key: string)
    requires DistinctKeys(patch)
    ensures Lookup(Merged(inventory, patch), key)
            == if Has(patch, key) then Lookup(patch, key) else Lookup(inventory, key)
    decreases |patch|
  {
    if patch != [] {
      MergedLookup(Put(inventory, patch[0].0, patch[0].1), patch[1..], key);
      LookupPut(inventory, patch[0].0, patch[0].1, key);
      if patch[0].0 == key {
        HasIffKey(patch[1..], key);
      }
    }
  }

  lemma {:induction false} FilledLookup(target: Assoc<Json>, source: Option<Json>, n: nat, key: string)
    requires n <= |FIELDS|
    ensures Lookup(Filled(target, source, n), key)
         == if key in FIELDS[..n] then Some(OrBlank(Prop(source, key))) else Lookup(target, key)
  {
    if n > 0 {
      FilledLookup(target, source, n - 1, key);
      LookupPut(Filled(target, source, n - 1), FIELDS[n - 1], OrBlank(Prop(source, FIELDS[n - 1])), key);
      assert FIELDS[..n] == FIELDS[..n - 1] + [FIELDS[n - 1]];
    }
  }

  lemma {:induction false} FilledDistinct(target: Assoc<Json>, source: Option<Json>, n: nat)
    requires n <= |FIELDS| && DistinctKeys(target)
    ensures DistinctKeys(Filled(target, source, n))
  {
    if n > 0 {
      FilledDistinct(target, source, n - 1);
      PutDistinct(Filled(target, source, n - 1), FIELDS[n - 1], OrBlank(Prop(source, FIELDS[n - 1])));
    }
  }

  // ----- the store this refines

  /** One slot per family and a selection: all a user thinks there is. */
  datatype Store = Store(selected: string, v4: map<string, Json>, v6: map<string, Json>) {
    function Slot(name: string): map<string, Json> {
      if name == "ipv4" then v4 else v6
    }

    function WithSlot(name: string, slot: map<string, Json>): Store {
      if name == "ipv4" then this.(v4 := slot) else this.(v6 := slot)
    }
  }

  /** The five values found in an object, blank where there is none. */
  function Values(source: Option<Json>): map<string, Json> {
    map key | key in FIELDS :: OrBlank(Prop(source, key))
  }

  function ParkedIn(inventory: Option<Json>, name: string): Option<Json> {
    OrEmpty(Lookup(Spread(Prop(inventory, DRAFT_KEY)), name))
  }

  /** The live fields are the selected slot, the parked draft of the other family the other one. */
  ghost function StoreOf(cv: Conversions, inventory: Assoc<Json>): Store {
    var h := Some(Obj(inventory));
    var live := Values(h);
    if Selected(cv, h) == "ipv4" then Store("ipv4", live, Values(ParkedIn(h, "ipv6")))
    else Store("ipv6", Values(ParkedIn(h, "ipv4")), live)
  }

  lemma TwoLookup(a: (string, Json), b: (string, Json), key: string)
    ensures Lookup([a, b], key) == if key == a.0 then Some(a.1) else if key == b.0 then Some(b.1) else None
  {
    var last := [b];
    assert last[1..] == [];
    assert Lookup(last, key) == if key == b.0 then Some(b.1) else None;
    assert [a, b][1..] == last;
  }

  /** What a switch leaves in every field of the state. */
  lemma SwitchedLookup(cv: Conversions, inventory: Assoc<Json>, next: string, key: string)
    requires SwitchPatch(cv, Some(Obj(inventory)), next).Some?
    ensures var h := Some(Obj(inventory));
            var drafts := Drafts(h, Selected(cv, h));
            Lookup(Merged(inventory, SwitchPatch(cv, h, next).value), key) ==
              if key in FIELDS then Some(OrBlank(Prop(OrEmpty(Lookup(drafts, next)), key)))
              else if key == FAMILY_KEY then Some(Str(next))
              else if key == DRAFT_KEY then Some(Obj(drafts))
              else Lookup(inventory, key)
  {
    hide Selected, Drafts, Filled, Merged;
    var h := Some(Obj(inventory));
    var drafts := Drafts(h, Selected(cv, h));
    var head := [(FAMILY_KEY, Str(next)), (DRAFT_KEY, Obj(drafts))];
    FilledDistinct(head, OrEmpty(Lookup(drafts, next)), |FIELDS|);
    FilledLookup(head, OrEmpty(Lookup(drafts, next)), |FIELDS|, key);
    assert FIELDS[..|FIELDS|] == FIELDS;
    TwoLookup((FAMILY_KEY, Str(next)), (DRAFT_KEY, Obj(drafts)), key);
    MergedLookup(inventory, SwitchPatch(cv, h, next).value, key);
  }

  /** After the draft of the outgoing family is parked it holds the live values, and the other draft is as it was. */
  lemma DraftsLookup(inventory: Option<Json>, current: string)
    requires IsFamily(current)
    ensures Values(OrEmpty(Lookup(Drafts(inventory, current), current))) == Values(inventory)
    ensures OrEmpty(Lookup(Drafts(inventory, current), OtherFamily(current)))
            == ParkedIn(inventory, OtherFamily(current))
  {
    hide Filled, Lookup, Put;
    var parked := Obj(Filled([], inventory, |FIELDS|));
    var drafts := Drafts(inventory, current);
    LookupPut(Spread(Prop(inventory, DRAFT_KEY)), current, parked, current);
    LookupPut(Spread(Prop(inventory, DRAFT_KEY)), current, parked, OtherFamily(current));
    assert OrEmpty(Lookup(drafts, current)) == Some(parked);
    assert FIELDS[..|FIELDS|] == FIELDS;
    forall key | key in FIELDS ensures OrBlank(Prop(Some(parked), key)) == OrBlank(Prop(inventory, key)) {
      FilledLookup([], inventory, |FIELDS|, key);
    }
  }

  /** A switch selects the other slot and changes the contents of neither, whatever state it starts from. */
  lemma SwitchRefines(cv: Conversions, inventory: Assoc<Json>, next: string)
    requires SwitchPatch(cv, Some(Obj(inventory)), next).Some?
    ensures var after := Merged(inventory, SwitchPatch(cv, Some(Obj(inventory)), next).value);
            StoredFamily(Some(Obj(after))) == Some(next) &&
            StoreOf(cv, after) == StoreOf(cv, inventory).(selected := next)
  {
    hide FamilyOf, Drafts, Filled, Merged, Lookup;
    var h := Some(Obj(inventory));
    var current := Selected(cv, h);
    var drafts := Drafts(h, current);
    var after := Merged(inventory, SwitchPatch(cv, h, next).value);
    SwitchedLookup(cv, inventory, next, FAMILY_KEY);
    SwitchedLookup(cv, inventory, next, DRAFT_KEY);
    assert next == OtherFamily(current);
    DraftsLookup(h, current);
    forall key | key in FIELDS ensures OrBlank(Prop(Some(Obj(after)), key)) == OrBlank(Prop(ParkedIn(h, next), key)) {
      SwitchedLookup(cv, inventory, next, key);
    }
    assert Values(Some(Obj(after))) == Values(ParkedIn(h, next));
    assert ParkedIn(Some(Obj(after)), current) == OrEmpty(Lookup(drafts, current));
  }

  /** Everything that is not bound to a family is left alone. */
  lemma SwitchLeavesOthers(cv: Conversions, inventory: Assoc<Json>, next: string, key: string)
    requires SwitchPatch(cv, Some(Obj(inventory)), next).Some?
    requires key !in FIELDS && key != FAMILY_KEY && key != DRAFT_KEY
    ensures Lookup(Merged(inventory, SwitchPatch(cv, Some(Obj(inventory)), next).value), key) == Lookup(inventory, key)
  {
    SwitchedLookup(cv, inventory, next, key);
  }

  // ----- runs of edits and switches

  datatype Action = Edit(key: string, value: Json) | Switch(next: string)

  ghost function Applied(cv: Conversions, inventory: Assoc<Json>, act: Action): Assoc<Json> {
    match act
    case Edit(key, value) => Put(inventory, key, value)
    case Switch(next) =>
      match SwitchPatch(cv, Some(Obj(inventory)), next)
      case None => inventory
      case Some(patch) => Merged(inventory, patch)
  }

  function AppliedToStore(store: Store, act: Action): Store {
    match act
    case Edit(key, value) =>
      if key in FIELDS then store.WithSlot(store.selected, store.Slot(store.selected)[key := OrBlank(Some(value))])
      else store
    case Switch(next) => if IsFamily(next) then store.(selected := next) else store
  }

  ghost function Ran(cv: Conversions, inventory: Assoc<Json>, acts: seq<Action>): Assoc<Json> {
    if acts == [] then inventory
    else Applied(cv, Ran(cv, inventory, acts[..|acts| - 1]), acts[|acts| - 1])
  }

  function RanOnStore(store: Store, acts: seq<Action>): Store {
    if acts == [] then store else AppliedToStore(RanOnStore(store, acts[..|acts| - 1]), acts[|acts| - 1])
  }

  /** The screens edit fields; the family and the drafts change by switching only. */
  predicate UserAction(act: Action) {
    act.Edit? ==> act.key != FAMILY_KEY && act.key != DRAFT_KEY
  }

  lemma EditRefines(cv: Conversions, inventory: Assoc<Json>, key: string, value: Json)
    requires key != FAMILY_KEY && key != DRAFT_KEY
    requires StoredFamily(Some(Obj(inventory))).Some?
    ensures StoredFamily(Some(Obj(Put(inventory, key, value)))) == StoredFamily(Some(Obj(inventory)))
    ensures StoreOf(cv, Put(inventory, key, value)) == AppliedToStore(StoreOf(cv, inventory), Edit(key, value))
  {
    hide FamilyOf, Lookup, Put;
    var after := Put(inventory, key, value);
    var h, g := Some(Obj(inventory)), Some(Obj(after));
    forall k ensures Prop(g, k) == if k == key then Some(value) else Prop(h, k) {
      LookupPut(inventory, key, value, k);
    }
    assert Values(g) == if key in FIELDS then Values(h)[key := OrBlank(Some(value))] else Values(h);
    assert ParkedIn(g, "ipv4") == ParkedIn(h, "ipv4") && ParkedIn(g, "ipv6") == ParkedIn(h, "ipv6");
  }

  /** Once a family is stored, every run of edits and switches does to the state what it does to the store. */
  lemma {:induction false} RunRefinesStore(cv: Conversions, inventory: Assoc<Json>, acts: seq<Action>)
    requires StoredFamily(Some(Obj(inventory))).Some? && forall a <- acts :: UserAction(a)
    ensures StoredFamily(Some(Obj(Ran(cv, inventory, acts)))).Some?
    ensures StoreOf(cv, Ran(cv, inventory, acts)) == RanOnStore(StoreOf(cv, inventory), acts)
    decreases |acts|
  {
    hide StoreOf, Merged, Put, Lookup, FamilyOf, Drafts, Filled;
    if acts != [] {
      var n := |acts| - 1;
      assert forall a <- acts[..n] :: a in acts;
      RunRefinesStore(cv, inventory, acts[..n]);
      var before := Ran(cv, inventory, acts[..n]);
      match acts[n]
      case Edit(key, value) =>
        assert UserAction(acts[n]);
        EditRefines(cv, before, key, value);
      case Switch(next) =>
        StoreSelected(cv, before);
        if SwitchPatch(cv, Some(Obj(before)), next).Some? {
          SwitchRefines(cv, before, next);
        }
    }
  }

  lemma StoreSelected(cv: Conversions, inventory: Assoc<Json>)
    ensures StoreOf(cv, inventory).selected == Selected(cv, Some(Obj(inventory)))
  {
  }

  /** Switching away and back restores the five fields, null and missing ones as blank, and leaves the rest alone. */
  lemma SwitchBackRestores(cv: Conversions, inventory: Assoc<Json>, key: string)
    requires key != DRAFT_KEY && key != FAMILY_KEY
    ensures var current := Selected(cv, Some(Obj(inventory)));
            var back := Ran(cv, inventory, [Switch(OtherFamily(current)), Switch(current)]);
            var was := Lookup(inventory, key);
            Lookup(back, key) == if key in FIELDS then Some(OrBlank(was)) else was
  {
    hide FamilyOf, Drafts, Filled, Merged, Lookup, Put;
    var h := Some(Obj(inventory));
    var current := Selected(cv, h);
    var other := OtherFamily(current);
    var acts := [Switch(other), Switch(current)];
    assert acts[..1] == [Switch(other)] && acts[..1][..0] == [];
    var away := Merged(inventory, SwitchPatch(cv, h, other).value);
    assert Ran(cv, inventory, acts[..1]) == away;
    SwitchRefines(cv, inventory, other);
    var g := Some(Obj(away));
    assert Selected(cv, g) == other;
    SwitchedLookup(cv, inventory, other, key);
    SwitchedLookup(cv, away, current, key);
    SwitchedLookup(cv, inventory, other, DRAFT_KEY);
    DraftsLookup(h, current);
    DraftsLookup(g, other);
    if key in FIELDS {
      assert Values(ParkedIn(g, current))[key] == Values(h)[key];
    }
  }

  // ----- a switch, by name

  /** A field bound to the family. */
  ghost predicate Bound(key: string) {
    key in ["provisioningNetworkCIDR", "provisioningDHCPRange", "clusterProvisioningIP", "bootstrapProvisioningIP",
            "provisioningNetworkGateway"]
  }

  /** The value there, blank for a missing or null one. */
  ghost predicate ValueIs(v: Option<Json>, w: Json) {
    if v == None || v == Some(Null) then w == Str("") else v == Some(w)
  }

  /** The selected family: the stored one, else that of the stored CIDR, else IPv4. */
  lemma SelectedExact(cv: Conversions, inventory: Option<Json>)
    ensures var stored := Prop(inventory, "provisioningNetworkIpFamily");
            var range := Cidr.ParsedCidr(cv.asText(Prop(inventory, "provisioningNetworkCIDR")), cv.number);
            if stored in [Some(Str("ipv4")), Some(Str("ipv6"))] then Some(Str(Selected(cv, inventory))) == stored
            else Selected(cv, inventory) == if range.Some? && range.value.family == Cidr.V6 then "ipv6" else "ipv4"
  {
    hide Cidr.ParsedCidr;
  }

  /**
   A switch to the other family stores the choice, parks every bound field of the old one in its draft, and takes the
   new one's from the stored draft, blank where there is nothing.
   */
  lemma SwitchByName(cv: Conversions, inventory: Assoc<Json>, next: string, key: string, w: Json)
    requires SwitchPatch(cv, Some(Obj(inventory)), next).Some? && Bound(key)
    ensures var after := Some(Obj(Merged(inventory, SwitchPatch(cv, Some(Obj(inventory)), next).value)));
            var drafts := Prop(Some(Obj(inventory)), "provisioningDraftsByFamily");
            var current := Selected(cv, Some(Obj(inventory)));
            && next in ["ipv4", "ipv6"] && current != next
            && Prop(after, "provisioningNetworkIpFamily") == Some(Str(next))
            && (Prop(after, key) == Some(w) <==> ValueIs(Prop(Prop(drafts, next), key), w))
            && (Prop(Prop(Prop(after, "provisioningDraftsByFamily"), current), key) == Some(w)
                <==> ValueIs(Lookup(inventory, key), w))
  {
    hide Selected, Filled, Lookup, Put, Merged, SwitchPatch, OrBlank, ValueIs, OrEmpty, Spread, Drafts;
    var h := Some(Obj(inventory));
    var current := Selected(cv, h);
    SwitchGuards(cv, h, next);
    SwitchedLookup(cv, inventory, next, key);
    SwitchedLookup(cv, inventory, next, "provisioningNetworkIpFamily");
    SwitchedLookup(cv, inventory, next, "provisioningDraftsByFamily");
    DraftEntries(h, current, next, key);
    BlankIs(Prop(Prop(Prop(h, "provisioningDraftsByFamily"), next), key), w);
    BlankIs(Lookup(inventory, key), w);
  }

  lemma BlankIs(v: Option<Json>, w: Json)
    ensures OrBlank(v) == w <==> ValueIs(v, w)
  {
  }

  /** The drafts after parking: the live values under the old family, the stored draft under the new one. */
  lemma DraftEntries(inventory: Option<Json>, current: string, next: string, key: string)
    requires current != next && Bound(key)
    ensures var drafts := Drafts(inventory, current);
            && Prop(Prop(Some(Obj(drafts)), current), key) == Some(OrBlank(Prop(inventory, key)))
            && Prop(OrEmpty(Lookup(drafts, next)), key)
              == Prop(Prop(Prop(inventory, "provisioningDraftsByFamily"), next), key)
  {
    assert Lookup<Json>([], next).None? && Lookup<Json>([], key).None?;
    hide Filled, Lookup, Put;
    var parked := Obj(Filled([], inventory, |FIELDS|));
    LookupPut(Spread(Prop(inventory, DRAFT_KEY)), current, parked, current);
    LookupPut(Spread(Prop(inventory, DRAFT_KEY)), current, parked, next);
    FilledLookup([], inventory, |FIELDS|, key);
    assert FIELDS[..|FIELDS|] == FIELDS;
  }

  lemma SwitchGuards(cv: Conversions, inventory: Option<Json>, next: string)
    requires SwitchPatch(cv, inventory, next).Some?
    ensures IsFamily(next) && Selected(cv, inventory) != next
  {
    hide Selected, Filled;
  }
}
