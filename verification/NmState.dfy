/**
 The network document of a host (`buildNmState` of `backend/src/generate.js`): interfaces built row by row, extra routes
 queued meanwhile and filtered once every interface exists.

 MTU, SR-IOV, DNS and the numeric conversion of prefix lengths, VLAN ids and table ids are not modelled; `isInteger` is
 `Number.isInteger(Number(text))`.
 */
module NmState {
  import opened Wrappers
  import opened Text
  import opened InterfaceNaming

  datatype Ip = Disabled | Dhcp | Static(address: string, prefix: string)

  datatype Kind =
    | Ethernet
    | Bond(mode: string, ports: seq<string>)
    | Vlan(base: string, id: string)
    | VrfDevice(table: string, members: seq<string>)

  /** `None` for a family the entry says nothing about. */
  datatype Interface = Interface(name: string, kind: Kind, v4: Option<Ip>, v6: Option<Ip>)

  datatype Family = V4 | V6

  datatype Route = Route(destination: string, nextHopAddress: string, nextHopInterface: string)

  datatype Config = Config(interfaces: seq<Interface>, routes: seq<Route>)

  datatype Error =
    | StaticWithoutAddress(name: string)
    | BlankVrfName
    | BadTableId(name: string)
    | BlankName
    | DuplicateName(name: string)

  datatype Host = Host(ipStackMode: string, inventoryIpStackMode: string, primary: Row, additional: seq<Row>)

  // ----- one row

  /** What governs a row's addresses: the cluster's families for the primary row, nothing for the others. */
  datatype Addressing = Addressing(permitV4: bool, permitV6: bool, mode: string, mustHaveOne: bool)

  function AddressOf(cidr: string): string { Split(cidr, '/')[0] }

  function PrefixOf(cidr: string, fallback: string): string {
    var parts := Split(cidr, '/');
    if |parts| > 1 then Or(parts[1], fallback) else fallback
  }

  function V4Of(row: Row, how: Addressing): Ip {
    if !how.permitV4 then Disabled
    else if how.mode == "dhcp" then Dhcp
    else if AddressOf(row.ipv4Cidr) != "" then Static(AddressOf(row.ipv4Cidr), PrefixOf(row.ipv4Cidr, "24"))
    else Disabled
  }

  function V6Of(row: Row, how: Addressing): Ip {
    if how.permitV6 && AddressOf(row.ipv6Cidr) != ""
    then Static(AddressOf(row.ipv6Cidr), PrefixOf(row.ipv6Cidr, "64"))
    else Disabled
  }

  function EthernetOf(name: string): Interface { Interface(name, Ethernet, None, None) }

  /** Members with a name, in order. */
  function Members(slaves: seq<string>): seq<Interface> {
    if slaves == [] then []
    else
      var n := |slaves| - 1;
      Members(slaves[..n]) + if Trim(slaves[n]) == "" then [] else [EthernetOf(Trim(slaves[n]))]
  }

  function NonEmpty(names: seq<string>): seq<string> {
    if names == [] then []
    else
      var n := |names| - 1;
      NonEmpty(names[..n]) + if names[n] == "" then [] else [names[n]]
  }

  function BondOf(row: Row): Interface {
    Interface(Or(row.bondName, "bond0"), Bond(Or(row.bondMode, "active-backup"), NonEmpty(row.slaves)),
              Some(Disabled), Some(Disabled))
  }

  /** The VLAN on a base link that was written under the name `emitted`. */
  function VlanOf(row: Row, emitted: string): Interface {
    var fallbacks := Fallbacks(emitted, emitted);
    Interface(ResolveVlan(row, fallbacks), Vlan(ResolveBase(row, fallbacks), row.vlanId), None, None)
  }

  predicate KnownType(rowType: string) {
    rowType == "ethernet" || rowType == "bond" || rowType == "vlan-on-ethernet" || rowType == "vlan-on-bond"
  }

  /** Everything below the interface that carries the row's addresses. */
  function Under(row: Row): seq<Interface> {
    if row.rowType == "bond" then Members(row.slaves)
    else if row.rowType == "vlan-on-ethernet" then [EthernetOf(Or(row.ethernetName, "eth0"))]
    else if row.rowType == "vlan-on-bond" then Members(row.slaves) + [BondOf(row)]
    else []
  }

  /** The interface that carries the row's addresses. */
  function Carrier(row: Row, how: Addressing): Interface
    requires KnownType(row.rowType)
  {
    var link :=
      if row.rowType == "ethernet" then EthernetOf(Or(row.ethernetName, "eth0"))
      else if row.rowType == "bond" then BondOf(row)
      else if row.rowType == "vlan-on-ethernet" then VlanOf(row, Or(row.ethernetName, "eth0"))
      else VlanOf(row, Or(row.bondName, "bond0"));
    link.(v4 := Some(V4Of(row, how)), v6 := Some(V6Of(row, how)))
  }

  function Links(row: Row, how: Addressing): seq<Interface> {
    if KnownType(row.rowType) then Under(row) + [Carrier(row, how)] else []
  }

  /** The next hop of the primary row's routes. */
  function PrimaryName(primary: Row): string {
    Or(ResolveEffective(primary, PRIMARY_FALLBACKS), "eth0")
  }

  // ----- the host as a list of rows

  /** A row that takes part, how it is addressed, and the name its VRF and routes attach to ("" for none). */
  datatype Placed = Placed(row: Row, how: Addressing, logical: string)

  function StackMode(host: Host): string {
    Or(Or(host.ipStackMode, host.inventoryIpStackMode), "ipv4")
  }

  predicate EnableV4(host: Host) { StackMode(host) == "ipv4" || StackMode(host) == "dual-stack" }

  predicate EnableV6(host: Host) { StackMode(host) == "ipv6" || StackMode(host) == "dual-stack" }

  function PlacedPrimary(host: Host): Placed {
    Placed(host.primary, Addressing(EnableV4(host), EnableV6(host), host.primary.mode, true), PrimaryName(host.primary))
  }

  function PlacedAdditional(row: Row): Placed {
    var how := Addressing(true, true, Or(row.mode, "dhcp"), false);
    Placed(row, how, if KnownType(row.rowType) then Carrier(row, how).name else "")
  }

  /** An additional row whose identifying name is still blank is left out. */
  predicate HasIdentity(row: Row) {
    if row.rowType == "ethernet" || row.rowType == "vlan-on-ethernet" then Trim(row.ethernetName) != ""
    else if row.rowType == "bond" || row.rowType == "vlan-on-bond" then Trim(row.bondName) != ""
    else true
  }

  function PlacedRows(rows: seq<Row>): seq<Placed> {
    if rows == [] then []
    else
      var n := |rows| - 1;
      PlacedRows(rows[..n]) + if HasIdentity(rows[n]) then [PlacedAdditional(rows[n])] else []
  }

  function Rows(host: Host): seq<Placed> {
    [PlacedPrimary(host)] + PlacedRows(host.additional)
  }

  // ----- what each row contributes

  /** Non-empty trimmed entries of a comma-separated list. */
  function Entries(text: string): seq<string> { NonEmpty(TrimAll(Split(text, ','))) }

  function TrimAll(parts: seq<string>): seq<string> {
    seq(|parts|, i requires 0 <= i < |parts| => Trim(parts[i]))
  }

  function VrfError(vrf: Vrf, isInteger: string -> bool): Option<Error> {
    if !vrf.enabled then None
    else if Trim(vrf.name) == "" then Some(BlankVrfName)
    else if Trim(vrf.tableId) == "" || !isInteger(Trim(vrf.tableId)) then Some(BadTableId(Trim(vrf.name)))
    else None
  }

  function VrfPart(vrf: Vrf, logical: string): seq<Interface> {
    if !vrf.enabled then []
    else
      var ports := if Entries(vrf.ports) != [] then Entries(vrf.ports) else [logical];
      [Interface(Trim(vrf.name), VrfDevice(Trim(vrf.tableId), ports), None, None)]
  }

  predicate Enabled(ip: Option<Ip>) { ip.Some? && !ip.value.Disabled? }

  function PlacedError(p: Placed, isInteger: string -> bool): Option<Error> {
    if KnownType(p.row.rowType) && p.how.mustHaveOne && p.how.mode == "static"
       && !Enabled(Carrier(p.row, p.how).v4) && !Enabled(Carrier(p.row, p.how).v6)
    then Some(StaticWithoutAddress(Carrier(p.row, p.how).name))
    else if p.logical == "" then None
    else VrfError(p.row.vrf, isInteger)
  }

  function Block(p: Placed): seq<Interface> {
    Links(p.row, p.how) + if p.logical == "" then [] else VrfPart(p.row.vrf, p.logical)
  }

  function Interfaces(rows: seq<Placed>): seq<Interface> {
    if rows == [] then [] else Interfaces(rows[..|rows| - 1]) + Block(rows[|rows| - 1])
  }

  function FirstError(rows: seq<Placed>, isInteger: string -> bool): Option<Error> {
    if rows == [] then None
    else
      var n := |rows| - 1;
      var before := FirstError(rows[..n], isInteger);
      if before.Some? then before else PlacedError(rows[n], isInteger)
  }

  // ----- routes

  datatype Pending = Pending(route: Route, family: Family)

  function RouteFamily(destination: string, nextHop: string): Family {
    if ':' in destination then V6
    else if '.' in destination then V4
    else if ':' in nextHop then V6 else V4
  }

  /** A user-entered route with a destination, a next hop and an interface to leave by; `None` when incomplete. */
  function Completed(entry: RouteEntry, logical: string): Option<Pending> {
    var destination, nextHop := Trim(entry.destination), Trim(entry.nextHopAddress);
    var via := Or(Trim(entry.nextHopInterface), logical);
    if destination == "" || nextHop == "" || via == "" then None
    else Some(Pending(Route(destination, nextHop, via), RouteFamily(destination, nextHop)))
  }

  function Queued(entries: seq<RouteEntry>, logical: string): seq<Pending> {
    if entries == [] then []
    else
      var n := |entries| - 1;
      Queued(entries[..n], logical) +
      match Completed(entries[n], logical) { case None => [] case Some(p) => [p] }
  }

  function AllQueued(rows: seq<Placed>): seq<Pending> {
    if rows == [] then []
    else
      var p := rows[|rows| - 1];
      AllQueued(rows[..|rows| - 1]) + if p.logical == "" then [] else Queued(p.row.routes, p.logical)
  }

  /** A row's carrier goes by that name and has the family switched off. */
  predicate Bars(p: Placed, via: string, family: Family) {
    KnownType(p.row.rowType) && Carrier(p.row, p.how).name == via &&
    !Enabled(if family.V4? then Carrier(p.row, p.how).v4 else Carrier(p.row, p.how).v6)
  }

  predicate Barred(rows: seq<Placed>, q: Pending) {
    exists k :: 0 <= k < |rows| && Bars(rows[k], q.route.nextHopInterface, q.family)
  }

  function Passed(rows: seq<Placed>, queue: seq<Pending>): seq<Route> {
    if queue == [] then []
    else
      var n := |queue| - 1;
      Passed(rows, queue[..n]) + if Barred(rows, queue[n]) then [] else [queue[n].route]
  }

  function GatewayRoutes(host: Host): seq<Route> {
    var p := host.primary;
    (if EnableV4(host) && p.mode == "static" && p.ipv4Gateway != ""
     then [Route("0.0.0.0/0", p.ipv4Gateway, PrimaryName(p))] else []) +
    (if EnableV6(host) && p.mode == "static" && p.ipv6Gateway != ""
     then [Route("::/0", p.ipv6Gateway, PrimaryName(p))] else [])
  }

  // ----- the whole document

  /** The first name that is blank or taken, if any. */
  function NameError(interfaces: seq<Interface>): Option<Error> {
    if interfaces == [] then None
    else
      var n := |interfaces| - 1;
      var before := NameError(interfaces[..n]);
      if before.Some? then before
      else if Trim(interfaces[n].name) == "" then Some(BlankName)
      else if Trim(interfaces[n].name) in TrimmedNames(interfaces[..n]) then
        Some(DuplicateName(Trim(interfaces[n].name)))
      else None
  }

  function TrimmedNames(interfaces: seq<Interface>): set<string> {
    set i | 0 <= i < |interfaces| :: Trim(interfaces[i].name)
  }

  function Built(host: Host, isInteger: string -> bool): Result<Config, Error> {
    var rows := Rows(host);
    if FirstError(rows, isInteger).Some? then Err(FirstError(rows, isInteger).value)
    else if NameError(Interfaces(rows)).Some? then Err(NameError(Interfaces(rows)).value)
    else Ok(Config(Interfaces(rows), GatewayRoutes(host) + Passed(rows, AllQueued(rows))))
  }

  // ----- the builder

  datatype Families = Families(v4: bool, v6: bool) {
    predicate Allows(family: Family) { if family.V4? then v4 else v6 }
  }

  /** What is known of each addressed interface by name. */
  function Recorded(known: map<string, Families>, iface: Interface): map<string, Families> {
    if iface.name == "" then known else known[iface.name := Families(Enabled(iface.v4), Enabled(iface.v6))]
  }

  function KnownAfter(rows: seq<Placed>): map<string, Families> {
    if rows == [] then map[]
    else
      var p, before := rows[|rows| - 1], KnownAfter(rows[..|rows| - 1]);
      if KnownType(p.row.rowType) then Recorded(before, Carrier(p.row, p.how)) else before
  }

  /** `flushExtraRoutes`: a name nothing is known about is not judged. */
  function Flushed(known: map<string, Families>, queue: seq<Pending>): seq<Route> {
    if queue == [] then []
    else
      var n := |queue| - 1;
      var q := queue[n];
      Flushed(known, queue[..n]) +
      if q.route.nextHopInterface in known && !known[q.route.nextHopInterface].Allows(q.family) then [] else [q.route]
  }

  class Builder {
    const isInteger: string -> bool
    var interfaces: seq<Interface>
    var routes: seq<Route>
    var pending: seq<Pending>
    var families: map<string, Families>

    constructor (isInteger: string -> bool)
      ensures this.isInteger == isInteger && interfaces == [] && routes == [] && pending == [] && families == map[]
    {
      this.isInteger := isInteger;
      interfaces, routes, pending, families := [], [], [], map[];
    }

    method AddGatewayRoutes(host: Host)
      modifies this`routes
      ensures routes == old(routes) + GatewayRoutes(host)
    {
      var p, via := host.primary, PrimaryName(host.primary);
      if EnableV4(host) && p.mode == "static" && p.ipv4Gateway != "" {
        routes := routes + [Route("0.0.0.0/0", p.ipv4Gateway, via)];
      }
      if EnableV6(host) && p.mode == "static" && p.ipv6Gateway != "" {
        routes := routes + [Route("::/0", p.ipv6Gateway, via)];
      }
    }

    method AddEthernet(name: string)
      modifies this`interfaces
      ensures interfaces == old(interfaces) + [EthernetOf(name)]
    {
      interfaces := interfaces + [Interface(name, Ethernet, None, None)];
    }

    method AddBondMemberEthernets(slaves: seq<string>)
      modifies this`interfaces
      ensures interfaces == old(interfaces) + Members(slaves)
    {
      var i := 0;
      while i < |slaves|
        invariant 0 <= i <= |slaves| && interfaces == old(interfaces) + Members(slaves[..i])
      {
        assert slaves[..i + 1][..i] == slaves[..i];
        var name := Trim(slaves[i]);
        if name != "" {
          AddEthernet(name);
        }
        i := i + 1;
      }
      assert slaves[..|slaves|] == slaves;
    }

    method AddBond(row: Row)
      modifies this`interfaces
      ensures interfaces == old(interfaces) + [BondOf(row)]
    {
      var ports: seq<string> := [];
      var i := 0;
      while i < |row.slaves|
        invariant 0 <= i <= |row.slaves| && ports == NonEmpty(row.slaves[..i])
      {
        assert row.slaves[..i + 1][..i] == row.slaves[..i];
        if row.slaves[i] != "" {
          ports := ports + [row.slaves[i]];
        }
        i := i + 1;
      }
      assert row.slaves[..|row.slaves|] == row.slaves;
      var entry := Interface(Or(row.bondName, "bond0"), Bond(Or(row.bondMode, "active-backup"), ports),
                             Some(Disabled), Some(Disabled));
      interfaces := interfaces + [entry];
    }

    method AddVlan(row: Row, emitted: string)
      modifies this`interfaces
      ensures interfaces == old(interfaces) + [VlanOf(row, emitted)]
    {
      var fallbacks := Fallbacks(emitted, emitted);
      var entry := Interface(ResolveVlan(row, fallbacks), Vlan(ResolveBase(row, fallbacks), row.vlanId), None, None);
      interfaces := interfaces + [entry];
    }

    /** Addresses the interface just added. */
    method AddIpConfig(row: Row, how: Addressing) returns (e: Option<Error>)
      requires interfaces != []
      modifies this`interfaces, this`families
      ensures var n := |old(interfaces)| - 1;
              var iface := old(interfaces)[n].(v4 := Some(V4Of(row, how)), v6 := Some(V6Of(row, how)));
              && interfaces == old(interfaces)[..n] + [iface]
              && (e.Some? <==> how.mustHaveOne && how.mode == "static" && !Enabled(iface.v4) && !Enabled(iface.v6))
              && (e.Some? ==> e.value == StaticWithoutAddress(iface.name))
              && (e.None? ==> families == Recorded(old(families), iface))
    {
      var n := |interfaces| - 1;
      var iface := interfaces[n];
      var v4, v6 := Disabled, Disabled;
      if how.permitV4 {
        if how.mode == "dhcp" {
          v4 := Dhcp;
        } else if AddressOf(row.ipv4Cidr) != "" {
          v4 := Static(AddressOf(row.ipv4Cidr), PrefixOf(row.ipv4Cidr, "24"));
        }
      }
      if how.permitV6 && AddressOf(row.ipv6Cidr) != "" {
        v6 := Static(AddressOf(row.ipv6Cidr), PrefixOf(row.ipv6Cidr, "64"));
      }
      iface := iface.(v4 := Some(v4), v6 := Some(v6));
      interfaces := interfaces[..n] + [iface];
      if how.mustHaveOne && how.mode == "static" && v4.Disabled? && v6.Disabled? {
        return Some(StaticWithoutAddress(iface.name));
      }
      if iface.name != "" {
        families := families[iface.name := Families(!v4.Disabled?, !v6.Disabled?)];
      }
      return None;
    }

    method AddVrfInterface(vrf: Vrf, logical: string) returns (e: Option<Error>)
      modifies this`interfaces
      ensures e == VrfError(vrf, isInteger)
      ensures e.None? ==> interfaces == old(interfaces) + VrfPart(vrf, logical)
    {
      if !vrf.enabled { return None; }
      var name := Trim(vrf.name);
      if name == "" { return Some(BlankVrfName); }
      var table := Trim(vrf.tableId);
      if table == "" || !isInteger(table) { return Some(BadTableId(name)); }
      var ports := Entries(vrf.ports);
      if ports == [] {
        ports := [logical];
      }
      interfaces := interfaces + [Interface(name, VrfDevice(table, ports), None, None)];
      return None;
    }

    method AddExtraRoutes(entries: seq<RouteEntry>, logical: string)
      modifies this`pending
      ensures pending == old(pending) + Queued(entries, logical)
    {
      hide Completed;
      var i := 0;
      while i < |entries|
        invariant 0 <= i <= |entries| && pending == old(pending) + Queued(entries[..i], logical)
      {
        assert entries[..i + 1][..i] == entries[..i];
        var completed := Completed(entries[i], logical);
        if completed.Some? {
          pending := pending + [completed.value];
        }
        i := i + 1;
      }
      assert entries[..|entries|] == entries;
    }

    method FlushExtraRoutes()
      modifies this`routes
      ensures routes == old(routes) + Flushed(families, pending)
    {
      var i := 0;
      while i < |pending|
        invariant 0 <= i <= |pending| && routes == old(routes) + Flushed(families, pending[..i])
      {
        assert pending[..i + 1][..i] == pending[..i];
        var q := pending[i];
        var via := q.route.nextHopInterface;
        if !(via in families && !families[via].Allows(q.family)) {
          routes := routes + [q.route];
        }
        i := i + 1;
      }
      assert pending[..|pending|] == pending;
    }

    /** The interfaces of one row, its carrier last and addressed. */
    method AddLinks(row: Row, how: Addressing) returns (e: Option<Error>)
      requires KnownType(row.rowType)
      modifies this`interfaces, this`families
      ensures interfaces == old(interfaces) + Links(row, how)
      ensures var c := Carrier(row, how);
              && (e.Some? <==> how.mustHaveOne && how.mode == "static" && !Enabled(c.v4) && !Enabled(c.v6))
              && (e.Some? ==> e.value == StaticWithoutAddress(c.name))
              && (e.None? ==> families == Recorded(old(families), c))
    {
      hide Members, NonEmpty, V4Of, V6Of, ResolveVlan, ResolveBase, Recorded;
      if row.rowType == "ethernet" {
        AddEthernet(Or(row.ethernetName, "eth0"));
      } else if row.rowType == "bond" {
        AddBondMemberEthernets(row.slaves);
        AddBond(row);
      } else if row.rowType == "vlan-on-ethernet" {
        AddEthernet(Or(row.ethernetName, "eth0"));
        AddVlan(row, Or(row.ethernetName, "eth0"));
      } else {
        AddBondMemberEthernets(row.slaves);
        AddBond(row);
        AddVlan(row, Or(row.bondName, "bond0"));
      }
      var n := |interfaces| - 1;
      assert interfaces[..n] == old(interfaces) + Under(row);
      e := AddIpConfig(row, how);
    }

    method CheckNames() returns (e: Option<Error>)
      ensures e == NameError(interfaces)
    {
      var seen: set<string> := {};
      var i := 0;
      while i < |interfaces|
        invariant 0 <= i <= |interfaces|
        invariant seen == TrimmedNames(interfaces[..i]) && NameError(interfaces[..i]).None?
      {
        NameErrorNext(interfaces, i);
        hide NameError, TrimmedNames, Trim;
        var name := Trim(interfaces[i].name);
        if name == "" || name in seen {
          NameErrorStays(interfaces, i + 1);
          return Some(if name == "" then BlankName else DuplicateName(name));
        }
        seen := seen + {name};
        i := i + 1;
      }
      assert interfaces[..|interfaces|] == interfaces;
      return None;
    }
  }

  /** What one more interface adds. */
  lemma NameErrorNext(interfaces: seq<Interface>, i: nat)
    requires i < |interfaces|
    ensures var name, before := Trim(interfaces[i].name), NameError(interfaces[..i]);
            NameError(interfaces[..i + 1]) ==
            if before.Some? then before
            else if name == "" then Some(BlankName)
            else if name in TrimmedNames(interfaces[..i]) then Some(DuplicateName(name))
            else None
    ensures TrimmedNames(interfaces[..i + 1]) == TrimmedNames(interfaces[..i]) + {Trim(interfaces[i].name)}
  {
    hide Trim;
    assert interfaces[..i + 1][..i] == interfaces[..i];
  }

  lemma {:induction false} NameErrorStays(interfaces: seq<Interface>, i: nat)
    requires i <= |interfaces| && NameError(interfaces[..i]).Some?
    ensures NameError(interfaces) == NameError(interfaces[..i])
    decreases |interfaces|
  {
    hide TrimmedNames, Trim;
    if i == |interfaces| {
      assert interfaces[..i] == interfaces;
    } else {
      var n := |interfaces| - 1;
      assert interfaces[..n][..i] == interfaces[..i];
      NameErrorStays(interfaces[..n], i);
    }
  }

  lemma {:induction false} FirstErrorStays(rows: seq<Placed>, i: nat, isInteger: string -> bool)
    requires i <= |rows| && FirstError(rows[..i], isInteger).Some?
    ensures FirstError(rows, isInteger) == FirstError(rows[..i], isInteger)
    decreases |rows|
  {
    hide PlacedError;
    if i == |rows| {
      assert rows[..i] == rows;
    } else {
      var n := |rows| - 1;
      assert rows[..n][..i] == rows[..i];
      FirstErrorStays(rows[..n], i, isInteger);
    }
  }

  // ----- the method that builds the document

  function Before(host: Host, i: nat): seq<Placed>
    requires i <= |host.additional|
  {
    [PlacedPrimary(host)] + PlacedRows(host.additional[..i])
  }

  lemma BeforeGrows(host: Host, i: nat)
    requires i < |host.additional|
    ensures Before(host, i + 1)
         == Before(host, i) + if HasIdentity(host.additional[i]) then [PlacedAdditional(host.additional[i])] else []
  {
    hide HasIdentity;
    assert host.additional[..i + 1][..i] == host.additional[..i];
  }

  lemma BeforeAll(host: Host)
    ensures Before(host, |host.additional|) == Rows(host)
  {
    assert host.additional[..|host.additional|] == host.additional;
  }

  lemma AppendRow(rows: seq<Placed>, p: Placed, isInteger: string -> bool)
    ensures Interfaces(rows + [p]) == Interfaces(rows) + Block(p)
    ensures AllQueued(rows + [p]) == AllQueued(rows) + if p.logical == "" then [] else Queued(p.row.routes, p.logical)
    ensures KnownAfter(rows + [p])
         == if KnownType(p.row.rowType) then Recorded(KnownAfter(rows), Carrier(p.row, p.how)) else KnownAfter(rows)
    ensures FirstError(rows + [p], isInteger)
         == if FirstError(rows, isInteger).Some? then FirstError(rows, isInteger) else PlacedError(p, isInteger)
  {
    hide Block, PlacedError, Recorded, Queued, Carrier;
    assert (rows + [p])[..|rows|] == rows;
  }

  lemma SkipRow(host: Host, i: nat)
    requires i < |host.additional| && !HasIdentity(host.additional[i])
    ensures Before(host, i + 1) == Before(host, i)
  {
    BeforeGrows(host, i);
  }

  lemma TakeRow(host: Host, i: nat)
    requires i < |host.additional| && HasIdentity(host.additional[i])
    ensures Before(host, i + 1) == Before(host, i) + [PlacedAdditional(host.additional[i])]
  {
    BeforeGrows(host, i);
  }

  lemma FirstRow(host: Host)
    ensures Before(host, 0) == [] + [PlacedPrimary(host)]
  {
  }

  lemma NoRows(isInteger: string -> bool)
    ensures Interfaces([]) == [] && AllQueued([]) == [] && KnownAfter([]) == map[] && FirstError([], isInteger) == None
  {
  }

  /** An error of an early row is the error of the whole host. */
  lemma EarlyError(host: Host, i: nat, isInteger: string -> bool)
    requires i <= |host.additional| && FirstError(Before(host, i), isInteger).Some?
    ensures FirstError(Rows(host), isInteger) == FirstError(Before(host, i), isInteger)
  {
    hide PlacedError, PlacedPrimary, PlacedAdditional, FirstError;
    BeforeIsPrefix(host, i);
    FirstErrorStays(Rows(host), |Before(host, i)|, isInteger);
  }

  /** One row through the builder: its links, its VRF, and its routes onto the queue. */
  method AddRow(b: Builder, p: Placed) returns (e: Option<Error>)
    modifies b`interfaces, b`families, b`pending
    ensures e == PlacedError(p, b.isInteger)
    ensures e.None? ==>
      && b.interfaces == old(b.interfaces) + Block(p)
      && b.pending == old(b.pending) + (if p.logical == "" then [] else Queued(p.row.routes, p.logical))
      && b.families == if KnownType(p.row.rowType) then Recorded(old(b.families), Carrier(p.row, p.how))
                       else old(b.families)
  {
    hide Queued, Recorded, Carrier, Under, VrfPart, VrfError, Enabled;
    if KnownType(p.row.rowType) {
      e := b.AddLinks(p.row, p.how);
      if e.Some? {
        return;
      }
    }
    if p.logical == "" {
      return None;
    }
    e := b.AddVrfInterface(p.row.vrf, p.logical);
    if e.Some? {
      return;
    }
    b.AddExtraRoutes(p.row.routes, p.logical);
  }

  method BuildNmState(host: Host, isInteger: string -> bool) returns (r: Result<Config, Error>)
    ensures r == Built(host, isInteger)
  {
    hide PlacedError, Recorded, Carrier, Block, HasIdentity, Queued, PlacedPrimary, PlacedAdditional, GatewayRoutes,
         Before, Rows, Interfaces, AllQueued, KnownAfter, FirstError, NameError, Flushed, Passed, KnownType;
    var b := new Builder(isInteger);
    b.AddGatewayRoutes(host);
    FirstRow(host);
    NoRows(isInteger);
    AppendRow([], PlacedPrimary(host), isInteger);
    BeforeAll(host);
    var e := AddRow(b, PlacedPrimary(host));
    if e.Some? {
      EarlyError(host, 0, isInteger);
      return Err(e.value);
    }
    var i := 0;
    while i < |host.additional|
      invariant 0 <= i <= |host.additional| && fresh(b) && b.isInteger == isInteger
      invariant b.interfaces == Interfaces(Before(host, i))
      invariant b.pending == AllQueued(Before(host, i))
      invariant b.families == KnownAfter(Before(host, i))
      invariant FirstError(Before(host, i), isInteger).None?
      invariant b.routes == GatewayRoutes(host)
    {
      if HasIdentity(host.additional[i]) {
        var p := PlacedAdditional(host.additional[i]);
        TakeRow(host, i);
        AppendRow(Before(host, i), p, isInteger);
        e := AddRow(b, p);
        if e.Some? {
          EarlyError(host, i + 1, isInteger);
          return Err(e.value);
        }
      } else {
        SkipRow(host, i);
      }
      i := i + 1;
    }
    b.FlushExtraRoutes();
    e := b.CheckNames();
    if e.Some? {
      return Err(e.value);
    }
    FlushedIsPassed(Rows(host), AllQueued(Rows(host)));
    return Ok(Config(b.interfaces, b.routes));
  }

  lemma {:induction false} BeforeIsPrefix(host: Host, i: nat)
    requires i <= |host.additional|
    ensures |Before(host, i)| <= |Rows(host)| && Rows(host)[..|Before(host, i)|] == Before(host, i)
    decreases |host.additional| - i
  {
    hide PlacedPrimary, PlacedAdditional, HasIdentity, PlacedRows;
    BeforeAll(host);
    if i < |host.additional| {
      BeforeIsPrefix(host, i + 1);
      BeforeGrows(host, i);
    }
  }

  // ----- names

  /** Names are not blank and differ by more than blanks. */
  ghost predicate NamesInOrder(interfaces: seq<Interface>) {
    && (forall i :: 0 <= i < |interfaces| ==> Trim(interfaces[i].name) != "")
    && (forall i, j :: 0 <= i < j < |interfaces| ==> Trim(interfaces[i].name) != Trim(interfaces[j].name))
  }

  lemma {:induction false} NameErrorExact(interfaces: seq<Interface>)
    ensures NameError(interfaces).None? <==> NamesInOrder(interfaces)
  {
    hide Trim;
    if interfaces != [] {
      var n := |interfaces| - 1;
      NameErrorExact(interfaces[..n]);
      forall i | 0 <= i < n && Trim(interfaces[i].name) == Trim(interfaces[n].name)
        ensures Trim(interfaces[n].name) in TrimmedNames(interfaces[..n])
      {
        assert interfaces[..n][i] == interfaces[i];
      }
      assert forall i :: 0 <= i < n ==> interfaces[..n][i] == interfaces[i];
    }
  }

  /** Where a row's carrier stands in the document. */
  function CarrierAt(rows: seq<Placed>, k: nat): nat
    requires k < |rows|
  {
    |Interfaces(rows[..k])| + |Under(rows[k].row)|
  }

  lemma {:induction false} InterfacesPrefix(rows: seq<Placed>, k: nat)
    requires k <= |rows|
    ensures |Interfaces(rows[..k])| <= |Interfaces(rows)|
    ensures Interfaces(rows)[..|Interfaces(rows[..k])|] == Interfaces(rows[..k])
    decreases |rows|
  {
    hide Block;
    if k == |rows| {
      assert rows[..k] == rows;
    } else {
      InterfacesPrefix(rows[..|rows| - 1], k);
      assert rows[..|rows| - 1][..k] == rows[..k];
    }
  }

  /** Every row's block is in the document, whole. */
  lemma BlockInPlace(rows: seq<Placed>, k: nat)
    requires k < |rows|
    ensures var at := |Interfaces(rows[..k])|;
            at + |Block(rows[k])| <= |Interfaces(rows)| &&
            Interfaces(rows)[at..at + |Block(rows[k])|] == Block(rows[k])
  {
    hide Block;
    InterfacesPrefix(rows, k + 1);
    assert rows[..k + 1][..k] == rows[..k];
    assert Interfaces(rows[..k + 1]) == Interfaces(rows[..k]) + Block(rows[k]);
  }

  lemma CarrierInPlace(rows: seq<Placed>, k: nat)
    requires k < |rows| && KnownType(rows[k].row.rowType)
    ensures |Interfaces(rows[..k])| <= CarrierAt(rows, k) < |Interfaces(rows)|
    ensures CarrierAt(rows, k) < |Interfaces(rows[..k])| + |Block(rows[k])|
    ensures Interfaces(rows)[CarrierAt(rows, k)] == Carrier(rows[k].row, rows[k].how)
  {
    hide Under, Carrier, Interfaces;
    BlockInPlace(rows, k);
    var at := |Interfaces(rows[..k])|;
    var block := Block(rows[k]);
    assert block[|Under(rows[k].row)|] == Carrier(rows[k].row, rows[k].how);
    assert Interfaces(rows)[at..at + |block|][|Under(rows[k].row)|] == Interfaces(rows)[CarrierAt(rows, k)];
  }

  /** When names are in order no two rows have carriers of one name. */
  lemma CarriersDiffer(rows: seq<Placed>, j: nat, k: nat)
    requires j < k < |rows| && KnownType(rows[j].row.rowType) && KnownType(rows[k].row.rowType)
    requires NamesInOrder(Interfaces(rows))
    ensures Carrier(rows[j].row, rows[j].how).name != Carrier(rows[k].row, rows[k].how).name
  {
    hide Carrier, Interfaces, Block, CarrierAt;
    CarrierInPlace(rows, j);
    CarrierInPlace(rows, k);
    InterfacesPrefix(rows[..k], j + 1);
    InterfacesPrefix(rows[..j + 1], j);
    BlockEnd(rows, j, k);
  }

  lemma BlockEnd(rows: seq<Placed>, j: nat, k: nat)
    requires j < k < |rows|
    ensures |Interfaces(rows[..j])| + |Block(rows[j])| <= |Interfaces(rows[..k])|
  {
    hide Block;
    assert rows[..k][..j] == rows[..j] && rows[..k][j] == rows[j];
    BlockInPlace(rows[..k], j);
  }

  /** What the map says of a name is what the one carrier of that name says. */
  lemma {:induction false} KnownIsCarried(rows: seq<Placed>, via: string, family: Family)
    requires NamesInOrder(Interfaces(rows)) && via != ""
    ensures via in KnownAfter(rows) && !KnownAfter(rows)[via].Allows(family)
       <==> exists k :: 0 <= k < |rows| && Bars(rows[k], via, family)
    decreases |rows|
  {
    hide Interfaces, Carrier, Enabled;
    if rows != [] {
      var n := |rows| - 1;
      var front := rows[..n];
      InterfacesPrefix(rows, n);
      KnownIsCarried(front, via, family);
      assert forall k :: 0 <= k < n ==> front[k] == rows[k];
      if KnownType(rows[n].row.rowType) && Carrier(rows[n].row, rows[n].how).name == via {
        forall k | 0 <= k < n ensures !Bars(rows[k], via, family) {
          if KnownType(rows[k].row.rowType) {
            CarriersDiffer(rows, k, n);
          }
        }
      }
    }
  }

  lemma {:induction false} QueuedVia(entries: seq<RouteEntry>, logical: string)
    ensures forall q <- Queued(entries, logical) :: q.route.nextHopInterface != ""
  {
    hide Trim, RouteFamily;
    if entries != [] {
      QueuedVia(entries[..|entries| - 1], logical);
    }
  }

  lemma {:induction false} AllQueuedVia(rows: seq<Placed>)
    ensures forall q <- AllQueued(rows) :: q.route.nextHopInterface != ""
  {
    hide Queued;
    if rows != [] {
      AllQueuedVia(rows[..|rows| - 1]);
      QueuedVia(rows[|rows| - 1].row.routes, rows[|rows| - 1].logical);
    }
  }

  lemma FlushedIsPassed(rows: seq<Placed>, queue: seq<Pending>)
    requires NameError(Interfaces(rows)).None? && queue == AllQueued(rows)
    ensures Flushed(KnownAfter(rows), queue) == Passed(rows, queue)
  {
    hide Interfaces, AllQueued, KnownAfter;
    NameErrorExact(Interfaces(rows));
    AllQueuedVia(rows);
    FlushedPasses(rows, queue);
  }

  lemma {:induction false} FlushedPasses(rows: seq<Placed>, queue: seq<Pending>)
    requires NamesInOrder(Interfaces(rows)) && forall q <- queue :: q.route.nextHopInterface != ""
    ensures Flushed(KnownAfter(rows), queue) == Passed(rows, queue)
    decreases |queue|
  {
    hide Interfaces, KnownAfter, NamesInOrder, Bars;
    if queue != [] {
      var n := |queue| - 1;
      FlushedPasses(rows, queue[..n]);
      KnownIsCarried(rows, queue[n].route.nextHopInterface, queue[n].family);
    }
  }

  // ----- what a built document guarantees

  /** A document is built exactly when no row is in error and the names are in order; its names are distinct. */
  lemma BuiltExact(host: Host, isInteger: string -> bool)
    ensures Built(host, isInteger).Ok?
       <==> FirstError(Rows(host), isInteger).None? && NamesInOrder(Interfaces(Rows(host)))
    ensures Built(host, isInteger).Ok? ==> NamesInOrder(Built(host, isInteger).value.interfaces)
  {
    hide Rows, FirstError, Interfaces, NamesInOrder, NameError;
    NameErrorExact(Interfaces(Rows(host)));
  }

  /** The type names and fallback names are their own trimmed forms. */
  lemma PlainTexts(row: Row)
    ensures KnownType(row.rowType) ==> Trim(row.rowType) == row.rowType
    ensures Trim("eth0") == "eth0" && Trim("bond0") == "bond0" && Trim("") == ""
  {
    TrimBare("eth0");
    TrimBare("bond0");
    TrimBare("");
    if KnownType(row.rowType) { TrimBare(row.rowType); }
  }

  lemma VlanBase(row: Row)
    requires row.rowType == "vlan-on-ethernet" || row.rowType == "vlan-on-bond"
    ensures Under(row) != []
    ensures var emitted := Under(row)[|Under(row)| - 1].name;
            ResolveBase(row, Fallbacks(emitted, emitted)) == Or(Trim(row.vlanBase), Trim(emitted))
    ensures var emitted := Under(row)[|Under(row)| - 1].name;
            forall how :: Carrier(row, how).kind == Vlan(Or(Trim(row.vlanBase), Trim(emitted)), row.vlanId)
  {
    hide Trim, ResolveVlan, Members, NonEmpty;
    PlainTexts(row);
  }

  predicate IsVlanRow(row: Row) { row.rowType == "vlan-on-ethernet" || row.rowType == "vlan-on-bond" }

  /**
   Every VLAN row has its VLAN right after the link written for the row, and sitting on that link unless the row names
   another base.
   */
  lemma VlanRowInPlace(host: Host, isInteger: string -> bool, k: nat)
    requires Built(host, isInteger).Ok? && k < |Rows(host)| && IsVlanRow(Rows(host)[k].row)
    ensures var all, at := Built(host, isInteger).value.interfaces, CarrierAt(Rows(host), k);
            && 0 < at < |all| && all[at].kind.Vlan? && Trim(all[at - 1].name) != ""
            && all[at].kind.base == Or(Trim(Rows(host)[k].row.vlanBase), Trim(all[at - 1].name))
  {
    hide Rows, Interfaces, Trim, Carrier, Under, NamesInOrder, FirstError, NameError, CarrierAt;
    var rows := Rows(host);
    BuiltExact(host, isInteger);
    VlanBase(rows[k].row);
    CarrierInPlace(rows, k);
    BaseInPlace(rows, k);
    NameAt(Interfaces(rows), CarrierAt(rows, k) - 1);
  }

  lemma {:induction false} MembersAreEthernet(slaves: seq<string>)
    ensures forall m <- Members(slaves) :: m.kind.Ethernet?
  {
    hide Trim;
    if slaves != [] {
      MembersAreEthernet(slaves[..|slaves| - 1]);
    }
  }

  /** Of all that a row emits, only the carrier of a VLAN row is a VLAN. */
  lemma VlanInBlock(p: Placed, j: nat)
    requires j < |Block(p)| && Block(p)[j].kind.Vlan?
    ensures IsVlanRow(p.row) && j == |Under(p.row)|
  {
    hide Members, V4Of, V6Of, ResolveVlan, ResolveBase, Trim, NonEmpty;
    MembersAreEthernet(p.row.slaves);
    assert forall i :: 0 <= i < |Under(p.row)| ==> !Under(p.row)[i].kind.Vlan?;
  }

  lemma {:induction false} VlanHasRow(rows: seq<Placed>, i: nat) returns (k: nat)
    requires i < |Interfaces(rows)| && Interfaces(rows)[i].kind.Vlan?
    ensures k < |rows| && IsVlanRow(rows[k].row) && CarrierAt(rows, k) == i
    decreases |rows|
  {
    hide Block, Under;
    var n := |rows| - 1;
    var before := |Interfaces(rows[..n])|;
    if i < before {
      k := VlanHasRow(rows[..n], i);
      assert rows[..n][..k] == rows[..k];
    } else {
      VlanInBlock(rows[n], i - before);
      k := n;
    }
  }

  /** Every VLAN of a document is a VLAN row's, and stands on the link right before it unless the row names another. */
  lemma VlanSitsOnBase(host: Host, isInteger: string -> bool, i: nat) returns (k: nat)
    requires Built(host, isInteger).Ok?
    requires i < |Built(host, isInteger).value.interfaces| && Built(host, isInteger).value.interfaces[i].kind.Vlan?
    ensures k < |Rows(host)| && IsVlanRow(Rows(host)[k].row) && CarrierAt(Rows(host), k) == i
    ensures var all := Built(host, isInteger).value.interfaces;
            && i > 0 && Trim(all[i - 1].name) != ""
            && all[i].kind.base == Or(Trim(Rows(host)[k].row.vlanBase), Trim(all[i - 1].name))
  {
    hide Rows, Interfaces, Trim, NamesInOrder, FirstError, CarrierAt;
    BuiltExact(host, isInteger);
    k := VlanHasRow(Rows(host), i);
    VlanRowInPlace(host, isInteger, k);
  }

  lemma NameAt(interfaces: seq<Interface>, i: nat)
    requires i < |interfaces| && NamesInOrder(interfaces)
    ensures Trim(interfaces[i].name) != ""
  {
  }

  function NamesOf(interfaces: seq<Interface>): seq<string> {
    seq(|interfaces|, i requires 0 <= i < |interfaces| => interfaces[i].name)
  }

  /** A bond's ports are exactly the members emitted for it if and only if no member name carries a blank at an end. */
  lemma {:induction false} PortsAreMembers(slaves: seq<string>)
    ensures |NonEmpty(slaves)| >= |Members(slaves)|
    ensures NonEmpty(slaves) == NamesOf(Members(slaves)) <==> forall s <- slaves :: Bare(s)
  {
    hide Trim;
    if slaves != [] {
      var n := |slaves| - 1;
      PortsAreMembers(slaves[..n]);
      assert slaves == slaves[..n] + [slaves[n]];
      TrimIsBare(slaves[n]);
      if Bare(slaves[n]) { TrimBare(slaves[n]); }
      var ports, names := NonEmpty(slaves[..n]), NamesOf(Members(slaves[..n]));
      if slaves[n] == "" {
        TrimBare("");
        assert NonEmpty(slaves) == ports && NamesOf(Members(slaves)) == names;
      } else if Trim(slaves[n]) == "" {
        assert |NonEmpty(slaves)| > |NamesOf(Members(slaves))|;
      } else {
        assert NamesOf(Members(slaves)) == names + [Trim(slaves[n])];
        SnocEqual(ports, slaves[n], names, Trim(slaves[n]));
      }
    }
  }

  lemma SnocEqual(a: seq<string>, x: string, b: seq<string>, y: string)
    ensures a + [x] == b + [y] <==> a == b && x == y
  {
    if a + [x] == b + [y] {
      assert (a + [x])[..|a|] == a && (b + [y])[..|b|] == b;
      assert (a + [x])[|a|] == x && (b + [y])[|b|] == y;
    }
  }

  /** Where a bond row's bond stands in the document. */
  function BondAt(rows: seq<Placed>, k: nat): nat
    requires k < |rows|
  {
    |Interfaces(rows[..k])| + |Members(rows[k].row.slaves)|
  }

  /** The same in the document: the ports name the interfaces written just before the bond. */
  lemma BondPortsInPlace(rows: seq<Placed>, k: nat)
    requires k < |rows| && (rows[k].row.rowType == "bond" || rows[k].row.rowType == "vlan-on-bond")
    ensures BondAt(rows, k) < |Interfaces(rows)| && Interfaces(rows)[BondAt(rows, k)].kind.Bond?
    ensures Interfaces(rows)[BondAt(rows, k)].kind.ports
         == NamesOf(Interfaces(rows)[|Interfaces(rows[..k])|..BondAt(rows, k)])
       <==> forall s <- rows[k].row.slaves :: Bare(s)
  {
    hide Interfaces, Trim, Members, NonEmpty, V4Of, V6Of, ResolveVlan, ResolveBase, NamesOf, VrfPart, Bare;
    var p := rows[k];
    var start, block, m := |Interfaces(rows[..k])|, Block(p), |Members(p.row.slaves)|;
    BlockInPlace(rows, k);
    PortsAreMembers(p.row.slaves);
    assert block[..m] == Members(p.row.slaves) && block[m].kind == BondOf(p.row).kind;
    assert Interfaces(rows)[start..start + |block|][m] == Interfaces(rows)[start + m];
    assert Interfaces(rows)[start..start + m] == Interfaces(rows)[start..start + |block|][..m];
  }

  lemma {:induction false} PortHasMember(slaves: seq<string>, s: string)
    requires s in NonEmpty(slaves)
    ensures s != "" && (Trim(s) != "" ==> EthernetOf(Trim(s)) in Members(slaves))
  {
    hide Trim, EthernetOf;
    var n := |slaves| - 1;
    if s in NonEmpty(slaves[..n]) {
      PortHasMember(slaves[..n], s);
    } else {
      assert Trim(s) != "" ==> Members(slaves) == Members(slaves[..n]) + [EthernetOf(Trim(s))];
    }
  }

  /** Only one interface of a document in order has a given trimmed name. */
  lemma OneOfTrimmedName(interfaces: seq<Interface>, i: nat, j: nat)
    requires NamesInOrder(interfaces) && i < |interfaces| && j < |interfaces|
    requires Trim(interfaces[i].name) == Trim(interfaces[j].name)
    ensures i == j
  {
    hide Trim;
  }

  lemma MemberInDocument(rows: seq<Placed>, k: nat, member: Interface) returns (j: nat)
    requires k < |rows| && (rows[k].row.rowType == "bond" || rows[k].row.rowType == "vlan-on-bond")
    requires member in Members(rows[k].row.slaves)
    ensures j < |Interfaces(rows)| && Interfaces(rows)[j] == member
  {
    hide Interfaces, Trim, Members, NonEmpty, V4Of, V6Of, ResolveVlan, ResolveBase, VrfPart;
    BlockInPlace(rows, k);
    var start, block := |Interfaces(rows[..k])|, Block(rows[k]);
    var i: nat :| i < |Members(rows[k].row.slaves)| && Members(rows[k].row.slaves)[i] == member;
    assert block[i] == member;
    assert Interfaces(rows)[start..start + |block|][i] == Interfaces(rows)[start + i];
    j := start + i;
  }

  /** In a built document a port of a bond names an interface of it exactly when the port has no blank at an end. */
  lemma PortNamesInterface(host: Host, isInteger: string -> bool, k: nat, s: string)
    requires Built(host, isInteger).Ok? && k < |Rows(host)|
    requires Rows(host)[k].row.rowType == "bond" || Rows(host)[k].row.rowType == "vlan-on-bond"
    requires s in BondOf(Rows(host)[k].row).kind.ports
    ensures var all := Built(host, isInteger).value.interfaces;
            (exists i :: 0 <= i < |all| && all[i].name == s) <==> Bare(s)
  {
    hide Rows, Interfaces, Trim, Members, NonEmpty, NamesInOrder, FirstError, NameError, Bare;
    var rows := Rows(host);
    var all, slaves := Interfaces(rows), rows[k].row.slaves;
    BuiltExact(host, isInteger);
    PortHasMember(slaves, s);
    TrimIsBare(s);
    if Trim(s) != "" {
      var j := MemberInDocument(rows, k, EthernetOf(Trim(s)));
      if i: nat :| i < |all| && all[i].name == s {
        OneOfTrimmedName(all, i, j);
      }
    } else if i: nat :| i < |all| && all[i].name == s {
      NameAt(all, i);
    }
    if Bare(s) { TrimBare(s); }
  }

  // ----- extra routes

  lemma {:induction false} PassedExact(rows: seq<Placed>, queue: seq<Pending>, route: Route)
    ensures route in Passed(rows, queue) <==> exists q :: q in queue && q.route == route && !Barred(rows, q)
  {
    hide Barred;
    if queue != [] {
      var n := |queue| - 1;
      PassedExact(rows, queue[..n], route);
      assert queue == queue[..n] + [queue[n]];
      assert queue[n] in queue;
    }
  }

  lemma {:induction false} QueuedExact(entries: seq<RouteEntry>, logical: string, q: Pending)
    ensures q in Queued(entries, logical)
       <==> exists i :: 0 <= i < |entries| && Completed(entries[i], logical) == Some(q)
  {
    hide Completed;
    if entries != [] {
      var n := |entries| - 1;
      var front := entries[..n];
      QueuedExact(front, logical, q);
      if Completed(entries[n], logical) != Some(q) {
        forall i | 0 <= i < |entries| && Completed(entries[i], logical) == Some(q) ensures q in Queued(front, logical) {
          assert front[i] == entries[i];
        }
        if q in Queued(front, logical) {
          var i :| 0 <= i < n && Completed(front[i], logical) == Some(q);
          assert entries[i] == front[i];
        }
      }
    }
  }

  /** An entry of row `k` that is complete and becomes `q`. */
  ghost predicate Authored(rows: seq<Placed>, k: nat, i: nat, q: Pending) {
    k < |rows| && rows[k].logical != "" && i < |rows[k].row.routes|
    && Completed(rows[k].row.routes[i], rows[k].logical) == Some(q)
  }

  lemma {:induction false} AllQueuedExact(rows: seq<Placed>, q: Pending)
    ensures q in AllQueued(rows) <==> exists k: nat, i: nat :: Authored(rows, k, i, q)
  {
    hide Queued, Completed;
    if rows != [] {
      var n := |rows| - 1;
      var front := rows[..n];
      AllQueuedExact(front, q);
      QueuedExact(rows[n].row.routes, rows[n].logical, q);
      forall k: nat, i: nat | Authored(front, k, i, q) ensures Authored(rows, k, i, q) {
        assert front[k] == rows[k];
      }
      forall k: nat, i: nat | Authored(rows, k, i, q) ensures Authored(front, k, i, q) || k == n {
        if k < n { assert front[k] == rows[k]; }
      }
      if rows[n].logical != "" && q in Queued(rows[n].row.routes, rows[n].logical) {
        var i :| 0 <= i < |rows[n].row.routes| && Completed(rows[n].row.routes[i], rows[n].logical) == Some(q);
        assert Authored(rows, n, i, q);
      }
    } else {
      assert forall k: nat, i: nat :: !Authored(rows, k, i, q);
    }
  }

  /** An interface of the document that addresses were given to, has this name, and has the family switched off. */
  ghost predicate SwitchedOff(host: Host, k: nat, via: string, family: Family) {
    var rows := Rows(host);
    && k < |rows| && KnownType(rows[k].row.rowType) && CarrierAt(rows, k) < |Interfaces(rows)|
    && var c := Interfaces(rows)[CarrierAt(rows, k)];
       c.name == via && !Enabled(if family.V4? then c.v4 else c.v6)
  }

  lemma BarredInDocument(host: Host, q: Pending)
    ensures Barred(Rows(host), q) <==> exists k: nat :: SwitchedOff(host, k, q.route.nextHopInterface, q.family)
  {
    hide Rows, Interfaces, Carrier, Enabled, CarrierAt;
    var rows := Rows(host);
    forall k: nat | k < |rows| && KnownType(rows[k].row.rowType)
      ensures Bars(rows[k], q.route.nextHopInterface, q.family)
         <==> SwitchedOff(host, k, q.route.nextHopInterface, q.family)
    {
      CarrierInPlace(rows, k);
    }
    forall k: nat | SwitchedOff(host, k, q.route.nextHopInterface, q.family) ensures Barred(rows, q) {
      assert Bars(rows[k], q.route.nextHopInterface, q.family);
    }
  }

  lemma QueuedRouteEmitted(host: Host, isInteger: string -> bool, k: nat, i: nat, q: Pending)
    requires Built(host, isInteger).Ok? && Authored(Rows(host), k, i, q)
    ensures q.route in Built(host, isInteger).value.routes[|GatewayRoutes(host)|..]
       <==> !exists j: nat :: SwitchedOff(host, j, q.route.nextHopInterface, q.family)
  {
    hide Rows, Interfaces, AllQueued, Passed, Barred, SwitchedOff, GatewayRoutes, FirstError, NameError;
    var rows := Rows(host);
    AllQueuedExact(rows, q);
    PassedExact(rows, AllQueued(rows), q.route);
    BarredInDocument(host, q);
    forall o | o in AllQueued(rows) && o.route == q.route ensures o == q {
      AllQueuedExact(rows, o);
      var kk, ii :| Authored(rows, kk, ii, o);
    }
  }

  /** The interface that entry `i` of row `k` leaves by: its own, or else the one the row's routes attach to. */
  function LeavesBy(host: Host, k: nat, i: nat): string
    requires k < |Rows(host)| && i < |Rows(host)[k].row.routes|
  {
    var own := Trim(Rows(host)[k].row.routes[i].nextHopInterface);
    if own != "" then own else Rows(host)[k].logical
  }

  /**
   An extra route of any row, with destination, next hop and interface to leave by, is emitted as these three texts if
   and only if no addressed interface of that name has the route's family switched off: IPv6 for a destination with a
   colon, IPv4 for one with a dot instead, and otherwise what the next hop says.
   */
  lemma ExtraRouteExact(host: Host, isInteger: string -> bool, k: nat, i: nat)
    requires Built(host, isInteger).Ok? && k < |Rows(host)| && i < |Rows(host)[k].row.routes|
    requires var e := Rows(host)[k].row.routes[i];
             Rows(host)[k].logical != "" && Trim(e.destination) != "" && Trim(e.nextHopAddress) != ""
    ensures var e := Rows(host)[k].row.routes[i];
            var destination, nextHop, via := Trim(e.destination), Trim(e.nextHopAddress), LeavesBy(host, k, i);
            var all := Built(host, isInteger).value;
            via != "" &&
            (Route(destination, nextHop, via) in all.routes[|GatewayRoutes(host)|..] <==>
               if ':' in destination then !HasNoV6(host, all, via)
               else if '.' in destination then !HasNoV4(host, all, via)
               else if ':' in nextHop then !HasNoV6(host, all, via)
               else !HasNoV4(host, all, via))
  {
    hide Rows, Interfaces, AllQueued, Passed, Barred, GatewayRoutes, FirstError, NameError, Trim, SwitchedOff, Built;
    var e, logical := Rows(host)[k].row.routes[i], Rows(host)[k].logical;
    var q := Completed(e, logical).value;
    assert Authored(Rows(host), k, i, q);
    QueuedRouteEmitted(host, isInteger, k, i, q);
    SwitchedOffInDocument(host, isInteger, q.route.nextHopInterface);
  }

  predicate IsLinkType(rowType: string) { rowType in ["ethernet", "bond", "vlan-on-ethernet", "vlan-on-bond"] }

  /** The interface that row `k`'s addresses were given to has this name. */
  ghost predicate AddressedAs(host: Host, all: Config, k: nat, via: string) {
    && k < |Rows(host)| && IsLinkType(Rows(host)[k].row.rowType) && CarrierAt(Rows(host), k) < |all.interfaces|
    && all.interfaces[CarrierAt(Rows(host), k)].name == via
  }

  ghost predicate HasNoV4(host: Host, all: Config, via: string) {
    exists k: nat ::
      AddressedAs(host, all, k, via) && all.interfaces[CarrierAt(Rows(host), k)].v4 in [None, Some(Disabled)]
  }

  ghost predicate HasNoV6(host: Host, all: Config, via: string) {
    exists k: nat ::
      AddressedAs(host, all, k, via) && all.interfaces[CarrierAt(Rows(host), k)].v6 in [None, Some(Disabled)]
  }

  lemma SwitchedOffInDocument(host: Host, isInteger: string -> bool, via: string)
    requires Built(host, isInteger).Ok?
    ensures var all := Built(host, isInteger).value;
            && (HasNoV4(host, all, via) <==> exists k: nat :: SwitchedOff(host, k, via, V4))
            && (HasNoV6(host, all, via) <==> exists k: nat :: SwitchedOff(host, k, via, V6))
  {
    hide Rows, Interfaces, CarrierAt;
    var all := Built(host, isInteger).value;
    forall k: nat
      ensures SwitchedOff(host, k, via, V4)
         <==> AddressedAs(host, all, k, via) && all.interfaces[CarrierAt(Rows(host), k)].v4 in [None, Some(Disabled)]
      ensures SwitchedOff(host, k, via, V6)
         <==> AddressedAs(host, all, k, via) && all.interfaces[CarrierAt(Rows(host), k)].v6 in [None, Some(Disabled)]
    {
    }
  }

  /** And no other route is emitted beside the gateways: each is some row's entry, with all three of its texts. */
  lemma ExtraRoutesAreAuthored(host: Host, isInteger: string -> bool, route: Route) returns (k: nat, i: nat)
    requires Built(host, isInteger).Ok? && route in Built(host, isInteger).value.routes[|GatewayRoutes(host)|..]
    ensures k < |Rows(host)| && i < |Rows(host)[k].row.routes| && Rows(host)[k].logical != ""
    ensures var e := Rows(host)[k].row.routes[i];
            && Trim(e.destination) != "" && Trim(e.nextHopAddress) != ""
            && route == Route(Trim(e.destination), Trim(e.nextHopAddress), LeavesBy(host, k, i))
  {
    hide Rows, Interfaces, AllQueued, Passed, Barred, GatewayRoutes, FirstError, NameError, Trim;
    var rows := Rows(host);
    PassedExact(rows, AllQueued(rows), route);
    var q :| q in AllQueued(rows) && q.route == route && !Barred(rows, q);
    AllQueuedExact(rows, q);
    k, i :| Authored(rows, k, i, q);
  }

  // ----- the primary row's name

  lemma PlainName(row: Row)
    requires row.rowType == "ethernet" || row.rowType == "bond"
    ensures PrimaryName(row) == Or(Trim(row.vlanBase),
              if row.rowType == "bond" then Or(Trim(row.bondName), "bond0") else Or(Trim(row.ethernetName), "eth0"))
  {
    hide Trim, ResolveVlan;
    PlainTexts(row);
  }

  /** Where the row itself names the base link, the emitted name and the fallback resolve alike. */
  lemma SameResolution(row: Row, emitted: string)
    requires row.rowType == "vlan-on-ethernet" || row.rowType == "vlan-on-bond"
    requires emitted == (if row.rowType == "vlan-on-bond" then Or(row.bondName, "bond0")
                         else Or(row.ethernetName, "eth0"))
    requires Trim(emitted) != ""
    ensures ResolveBase(row, PRIMARY_FALLBACKS) == ResolveBase(row, Fallbacks(emitted, emitted))
  {
    hide Trim;
    PlainTexts(row);
  }

  lemma VlanName(row: Row, how: Addressing)
    requires row.rowType == "vlan-on-ethernet" || row.rowType == "vlan-on-bond"
    requires Under(row) != [] && Trim(Under(row)[|Under(row)| - 1].name) != "" && Carrier(row, how).name != ""
    ensures PrimaryName(row) == Carrier(row, how).name
  {
    hide Trim, ResolveBase, Members, V4Of, V6Of;
    PlainTexts(row);
    SameResolution(row, Under(row)[|Under(row)| - 1].name);
  }

  /**
   The next hop given to the primary row's routes is the interface that got its addresses: always for VLAN rows, and for
   the others exactly when the name has no blank at an end and `vlan.baseIface` is blank or repeats it.
   */
  lemma NamingAgreement(host: Host, isInteger: string -> bool)
    requires Built(host, isInteger).Ok? && KnownType(host.primary.rowType)
    ensures var all, at := Built(host, isInteger).value.interfaces, CarrierAt(Rows(host), 0);
            var base := Trim(host.primary.vlanBase);
            && at < |all| && (all[at].v4.Some? && all[at].v6.Some?)
            && (PrimaryName(host.primary) == all[at].name <==>
                  IsVlanType(host.primary.rowType) || (Bare(all[at].name) && (base == "" || base == all[at].name)))
  {
    hide Interfaces, Trim, Under, NamesInOrder, FirstError, NameError, V4Of, V6Of, ResolveVlan, ResolveBase,
         PrimaryName;
    var rows := Rows(host);
    var p, how := host.primary, rows[0].how;
    assert rows[0] == PlacedPrimary(host);
    BuiltExact(host, isInteger);
    CarrierInPlace(rows, 0);
    NameAt(Interfaces(rows), CarrierAt(rows, 0));
    PlainTexts(p);
    if p.rowType == "vlan-on-ethernet" || p.rowType == "vlan-on-bond" {
      BaseInPlace(rows, 0);
      NameAt(Interfaces(rows), CarrierAt(rows, 0) - 1);
      VlanName(p, how);
    } else {
      PlainName(p);
      var name := Carrier(p, how).name;
      TrimIsBare(name);
      if Bare(name) { TrimBare(name); }
      TrimIsBare(p.vlanBase);
    }
  }

  lemma BaseInPlace(rows: seq<Placed>, k: nat)
    requires k < |rows|
    requires rows[k].row.rowType == "vlan-on-ethernet" || rows[k].row.rowType == "vlan-on-bond"
    ensures 0 < CarrierAt(rows, k) < |Interfaces(rows)| && Under(rows[k].row) != []
    ensures Interfaces(rows)[CarrierAt(rows, k) - 1] == Under(rows[k].row)[|Under(rows[k].row)| - 1]
  {
    hide Interfaces, Trim, Carrier;
    var p := rows[k];
    CarrierInPlace(rows, k);
    BlockInPlace(rows, k);
    var start, block := |Interfaces(rows[..k])|, Block(p);
    assert Interfaces(rows)[start..start + |block|][|Under(p.row)| - 1] == block[|Under(p.row)| - 1];
  }

  /** A primary row that asks for static addressing has an address in every document that is built. */
  lemma StaticPrimaryAddressed(host: Host, isInteger: string -> bool)
    requires Built(host, isInteger).Ok? && KnownType(host.primary.rowType) && host.primary.mode == "static"
    ensures var all, at := Built(host, isInteger).value.interfaces, CarrierAt(Rows(host), 0);
            at < |all| && (Enabled(all[at].v4) || Enabled(all[at].v6))
  {
    hide Interfaces, Carrier, Enabled, NameError, CarrierAt;
    var rows := Rows(host);
    assert rows[0] == PlacedPrimary(host) && rows[..1] == [PlacedPrimary(host)];
    CarrierInPlace(rows, 0);
    if PlacedError(rows[0], isInteger).Some? {
      assert rows[..1][..0] == [];
      assert FirstError(rows[..1], isInteger).Some?;
      FirstErrorStays(rows, 1, isInteger);
    }
  }

  // ----- rows without a name

  function Identified(rows: seq<Row>): seq<Row> {
    if rows == [] then []
    else Identified(rows[..|rows| - 1]) + if HasIdentity(rows[|rows| - 1]) then [rows[|rows| - 1]] else []
  }

  lemma {:induction false} IdentifiedRows(rows: seq<Row>)
    ensures PlacedRows(Identified(rows)) == PlacedRows(rows)
  {
    hide HasIdentity, PlacedAdditional;
    if rows != [] {
      var n := |rows| - 1;
      IdentifiedRows(rows[..n]);
      if HasIdentity(rows[n]) {
        assert (Identified(rows[..n]) + [rows[n]])[..|Identified(rows[..n])|] == Identified(rows[..n]);
      } else {
        assert Identified(rows[..n]) + [] == Identified(rows[..n]);
        assert PlacedRows(rows[..n]) + [] == PlacedRows(rows[..n]);
      }
    }
  }

  /** An additional row still without a name changes nothing, error or document. */
  lemma UnnamedRowsIrrelevant(host: Host, isInteger: string -> bool)
    ensures Built(host.(additional := Identified(host.additional)), isInteger) == Built(host, isInteger)
  {
    hide PlacedPrimary, FirstError, NameError, Passed, AllQueued, Interfaces, HasIdentity;
    IdentifiedRows(host.additional);
    var other := host.(additional := Identified(host.additional));
    assert GatewayRoutes(other) == GatewayRoutes(host);
    assert PlacedPrimary(other) == PlacedPrimary(host) by { SamePrimary(host, other.additional); }
  }

  lemma SamePrimary(host: Host, additional: seq<Row>)
    ensures PlacedPrimary(host.(additional := additional)) == PlacedPrimary(host)
  {
  }

  // ----- a base left over from another row type

  const STALE_BASE := Host("ipv4", "",
    Row("ethernet", "eno1", "", "", [], "", "eno9", "", "static", "10.0.0.5/24", "", "10.0.0.1", "",
        Vrf(false, "", "", ""), []), [])

  /** A host of one plain ethernet row. */
  lemma OneEthernet(host: Host, isInteger: string -> bool)
    requires host.additional == [] && host.primary.rowType == "ethernet"
    requires !host.primary.vrf.enabled && host.primary.routes == []
    ensures var p := PlacedPrimary(host);
            && Interfaces(Rows(host)) == [Carrier(p.row, p.how)] && AllQueued(Rows(host)) == []
            && FirstError(Rows(host), isInteger) == PlacedError(p, isInteger)
  {
    hide PlacedPrimary, Carrier, PlacedError, Trim;
    var p, rows := PlacedPrimary(host), Rows(host);
    assert rows == [] + [p];
    NoRows(isInteger);
    AppendRow([], p, isInteger);
    assert p.row == host.primary by { PrimaryRow(host); }
    assert Queued([], p.logical) == [];
  }

  lemma PrimaryRow(host: Host)
    ensures PlacedPrimary(host).row == host.primary
  {
  }

  lemma StaleTexts()
    ensures var p := STALE_BASE.primary;
            && Trim("eno1") == "eno1" && PrimaryName(p) == "eno9" && AddressOf(p.ipv4Cidr) == "10.0.0.5"
  {
    hide Split, Trim;
    var p := STALE_BASE.primary;
    TrimBare("eno1");
    TrimBare("eno9");
    PlainName(p);
    assert p.ipv4Cidr == "10.0.0.5" + ['/'] + "24";
    SplitAt("10.0.0.5", '/', "24");
  }

  /** An ethernet row that still carries a VLAN base: its default route leaves by an interface nothing creates. */
  lemma StaleBaseDangles(isInteger: string -> bool)
    ensures var r := Built(STALE_BASE, isInteger);
            r.Ok? && NamesOf(r.value.interfaces) == ["eno1"]
            && r.value.routes == [Route("0.0.0.0/0", "10.0.0.1", "eno9")]
  {
    hide AddressOf, Trim, PrefixOf, Rows, PrimaryName, Interfaces, AllQueued, FirstError, V6Of;
    StaleTexts();
    OneEthernet(STALE_BASE, isInteger);
    assert Interfaces(Rows(STALE_BASE))[..0] == [];
    assert NamesOf(Interfaces(Rows(STALE_BASE))) == ["eno1"];
  }
}
