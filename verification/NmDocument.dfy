/**
 What each row of a host contributes to its NMState document, in the row's own texts: rows taken, names and kinds,
 addresses, VRFs, default routes, and the error that is reported first.
 */
module NmDocument {
  import opened Wrappers
  import opened Text
  import opened InterfaceNaming
  import opened NmState

  /** `a`, or `b` if `a` is empty. */
  predicate FirstOf(r: string, a: string, b: string) { (a != "" && r == a) || (a == "" && r == b) }

  // ----- rows taken

  /** An additional row names the device it is about. */
  predicate NamesItsDevice(row: Row) {
    && (row.rowType in ["ethernet", "vlan-on-ethernet"] ==> Trim(row.ethernetName) != "")
    && (row.rowType in ["bond", "vlan-on-bond"] ==> Trim(row.bondName) != "")
  }

  /** The primary row is always the first. */
  lemma PrimaryIsFirst(host: Host)
    ensures |Rows(host)| >= 1 && Rows(host)[0].row == host.primary
  {
  }

  /** One more additional row is one more row of the document, unless it does not name its device. */
  lemma RowTaken(host: Host, row: Row)
    ensures var rows, more := Rows(host), Rows(host.(additional := host.additional + [row]));
            if NamesItsDevice(row) then |more| == |rows| + 1 && more[..|rows|] == rows && more[|rows|].row == row
            else more == rows
  {
    hide PlacedAdditional, PlacedPrimary, Trim;
    var all := host.additional + [row];
    assert all[..|host.additional|] == host.additional;
    SamePrimary(host, host.(additional := all));
    var rows, taken := PlacedRows(host.additional), if HasIdentity(row) then [PlacedAdditional(row)] else [];
    assert PlacedRows(all) == rows + taken;
    assert [PlacedPrimary(host)] + (rows + taken) == [PlacedPrimary(host)] + rows + taken;
    assert [PlacedPrimary(host)] + rows + [] == [PlacedPrimary(host)] + rows;
    PlacedRow(row);
  }

  lemma SamePrimary(a: Host, b: Host)
    requires a.ipStackMode == b.ipStackMode && a.inventoryIpStackMode == b.inventoryIpStackMode
    requires a.primary == b.primary
    ensures PlacedPrimary(a) == PlacedPrimary(b)
  {
  }

  lemma NoMoreRows(host: Host)
    requires host.additional == []
    ensures |Rows(host)| == 1
  {
  }

  /** Rows other than the first are addressed as they ask, and attach to the name their links are known by. */
  lemma {:induction false} AdditionalPlaced(rows: seq<Row>, k: nat)
    requires k < |PlacedRows(rows)|
    ensures PlacedRows(rows)[k] == PlacedAdditional(PlacedRows(rows)[k].row)
  {
    hide PlacedAdditional, HasIdentity;
    if k < |PlacedRows(rows[..|rows| - 1])| {
      AdditionalPlaced(rows[..|rows| - 1], k);
    } else {
      PlacedRow(rows[|rows| - 1]);
    }
  }

  lemma PlacedRow(row: Row)
    ensures PlacedAdditional(row).row == row
  {
  }

  // ----- addresses

  /**
   What a CIDR text gives: the address before its first slash with the prefix length before the next one, `fallback`
   for a missing or empty length, and nothing at all without an address.
   */
  ghost predicate Gives(cidr: string, fallback: string, ip: Option<Ip>) {
    exists address, length ::
      && Parted(cidr, address, length)
      && ip == Some(if address == "" then Disabled else Static(address, if length == "" then fallback else length))
  }

  /** The first two slash-separated parts, the second empty if there is none. */
  ghost predicate Parted(cidr: string, address: string, length: string) {
    && '/' !in address && '/' !in length
    && ((cidr == address && length == "") || cidr == address + "/" + length ||
        exists rest :: cidr == address + "/" + length + "/" + rest)
  }

  lemma SplitParted(cidr: string)
    ensures Parted(cidr, AddressOf(cidr), var parts := Split(cidr, '/'); if |parts| > 1 then parts[1] else "")
  {
    if '/' !in cidr {
      SplitWhole(cidr, '/');
    } else {
      var k := IndexOf(cidr, '/');
      assert cidr == cidr[..k] + ['/'] + cidr[k + 1..];
      SecondPart(cidr[..k], cidr[k + 1..]);
    }
  }

  lemma SecondPart(a: string, b: string)
    requires '/' !in a
    ensures var parts := Split(a + ['/'] + b, '/');
            |parts| > 1 && parts[0] == a && Parted(a + ['/'] + b, a, parts[1])
  {
    SplitAt(a, '/', b);
    hide Split, Parted;
    if '/' !in b {
      SplitWhole(b, '/');
      TwoParted(a, b);
    } else {
      var j := IndexOf(b, '/');
      var l, rest := b[..j], b[j + 1..];
      assert b == l + ['/'] + rest;
      SplitAt(l, '/', rest);
      ThreeParted(a, l, rest);
    }
  }

  lemma TwoParted(a: string, l: string)
    requires '/' !in a && '/' !in l
    ensures Parted(a + ['/'] + l, a, l)
  {
  }

  lemma ThreeParted(a: string, l: string, rest: string)
    requires '/' !in a && '/' !in l
    ensures Parted(a + ['/'] + (l + ['/'] + rest), a, l)
  {
    assert a + ['/'] + (l + ['/'] + rest) == a + "/" + l + "/" + rest;
  }

  lemma StaticGives(cidr: string, fallback: string)
    ensures Gives(cidr, fallback, Some(if AddressOf(cidr) == "" then Disabled
                                       else Static(AddressOf(cidr), PrefixOf(cidr, fallback))))
  {
    hide Split, Parted;
    SplitParted(cidr);
  }

  /** The text that decides the primary row's families. */
  ghost predicate StackIs(host: Host, stack: string) {
    exists own :: FirstOf(own, host.ipStackMode, host.inventoryIpStackMode) && FirstOf(stack, own, "ipv4")
  }

  lemma StackText(host: Host)
    ensures StackIs(host, StackMode(host))
  {
    assert FirstOf(Or(host.ipStackMode, host.inventoryIpStackMode), host.ipStackMode, host.inventoryIpStackMode);
  }

  /**
   The addresses of row `k`. IPv4: off for a primary outside an IPv4 or dual stack, DHCP if the row says so (an
   additional row that says nothing does), else what its CIDR gives. IPv6: off for a primary outside an IPv6 or dual
   stack, else what its CIDR gives.
   */
  lemma RowAddresses(host: Host, isInteger: string -> bool, k: nat, stack: string)
    requires Built(host, isInteger).Ok? && k < |Rows(host)| && IsLinkType(Rows(host)[k].row.rowType)
    requires StackIs(host, stack)
    ensures var all, at, row := Built(host, isInteger).value.interfaces, CarrierAt(Rows(host), k), Rows(host)[k].row;
            && at < |all|
            && (if k == 0 && stack !in ["ipv4", "dual-stack"] then all[at].v4 == Some(Disabled)
                else if row.mode == "dhcp" || (k > 0 && row.mode == "") then all[at].v4 == Some(Dhcp)
                else Gives(row.ipv4Cidr, "24", all[at].v4))
            && (if k == 0 && stack !in ["ipv6", "dual-stack"] then all[at].v6 == Some(Disabled)
                else Gives(row.ipv6Cidr, "64", all[at].v6))
  {
    hide Interfaces, CarrierAt, PlacedRows, Gives, AddressOf, PrefixOf, StackIs, FirstError, NameError, PrimaryName;
    var p := Rows(host)[k];
    CarrierInPlace(Rows(host), k);
    CarrierAddresses(p.row, p.how);
    StaticGives(p.row.ipv4Cidr, "24");
    StaticGives(p.row.ipv6Cidr, "64");
    if k > 0 {
      AdditionalPlaced(host.additional, k - 1);
    } else {
      StackUnique(host, stack);
    }
  }

  lemma StackUnique(host: Host, stack: string)
    requires StackIs(host, stack)
    ensures stack == StackMode(host)
  {
  }

  lemma CarrierAddresses(row: Row, how: Addressing)
    requires KnownType(row.rowType)
    ensures Carrier(row, how).v4 == Some(V4Of(row, how)) && Carrier(row, how).v6 == Some(V6Of(row, how))
  {
    hide V4Of, V6Of, VlanOf, BondOf, EthernetOf;
  }

  // ----- names and kinds

  /** The interfaces of a row, its carrier last, and its addresses set aside. */
  lemma LinksExact(row: Row, how: Addressing)
    ensures var links := Links(row, how);
            match row.rowType
            case "ethernet" =>
              |links| == 1 && FirstOf(links[0].name, row.ethernetName, "eth0") && links[0].kind == Ethernet
            case "bond" =>
              links != [] && links[..|links| - 1] == Members(row.slaves) && IsBond(row, links[|links| - 1])
            case "vlan-on-ethernet" =>
              && |links| == 2 && FirstOf(links[0].name, row.ethernetName, "eth0")
              && links[0] == Interface(links[0].name, Ethernet, None, None) && IsVlan(row, links[0].name, links[1])
            case "vlan-on-bond" =>
              var n := |links| - 2;
              && n >= 0 && links[..n] == Members(row.slaves) && IsBond(row, links[n])
              && links[n].v4 == links[n].v6 == Some(Disabled) && IsVlan(row, links[n].name, links[n + 1])
            case _ => links == []
  {
    hide Members, Trim, Carrier, IsBond, IsVlan, BondOf, IsLinkType, KnownType;
    LinkTypes(row.rowType);
    if KnownType(row.rowType) {
      CarrierShape(row, how);
      BondShape(row);
      UnderShape(row);
      hide Under;
      Ending(Under(row), Carrier(row, how));
      Ending(Members(row.slaves), BondOf(row));
      var links, n := Links(row, how), |Members(row.slaves)|;
      assert row.rowType == "vlan-on-bond" ==> links[..n] == Under(row)[..n] && links[n] == Under(row)[n];
    }
  }

  lemma LinkTypes(rowType: string)
    ensures IsLinkType(rowType) <==> KnownType(rowType)
    ensures KnownType(rowType) <==> rowType == "ethernet" || rowType == "bond" || rowType == "vlan-on-ethernet" ||
                                    rowType == "vlan-on-bond"
  {
  }

  lemma UnderShape(row: Row)
    ensures row.rowType == "ethernet" ==> Under(row) == []
    ensures row.rowType == "bond" ==> Under(row) == Members(row.slaves)
    ensures row.rowType == "vlan-on-ethernet" ==> Under(row) == [EthernetOf(Or(row.ethernetName, "eth0"))]
    ensures row.rowType == "vlan-on-bond" ==> Under(row) == Members(row.slaves) + [BondOf(row)]
  {
    hide Members, BondOf, EthernetOf;
  }

  lemma Ending(front: seq<Interface>, last: Interface)
    ensures |front + [last]| == |front| + 1 && (front + [last])[..|front|] == front && (front + [last])[|front|] == last
  {
  }

  lemma BondShape(row: Row)
    ensures IsBond(row, BondOf(row)) && BondOf(row).v4 == BondOf(row).v6 == Some(Disabled)
    ensures BondOf(row).name == Or(row.bondName, "bond0")
  {
    hide NonEmpty;
  }

  lemma CarrierShape(row: Row, how: Addressing)
    requires IsLinkType(row.rowType)
    ensures var c := Carrier(row, how);
            && (row.rowType == "ethernet" ==> c.name == Or(row.ethernetName, "eth0") && c.kind == Ethernet)
            && (row.rowType == "bond" ==> IsBond(row, c))
            && (row.rowType == "vlan-on-ethernet" ==> IsVlan(row, Or(row.ethernetName, "eth0"), c))
            && (row.rowType == "vlan-on-bond" ==> IsVlan(row, Or(row.bondName, "bond0"), c))
  {
    hide NonEmpty, V4Of, V6Of, Trim, IsBondType;
  }

  predicate IsBond(row: Row, link: Interface) {
    && FirstOf(link.name, row.bondName, "bond0") && link.kind.Bond?
    && FirstOf(link.kind.mode, row.bondMode, "active-backup") && link.kind.ports == NonEmpty(row.slaves)
  }

  /** A VLAN on a link of name `under`: its own name if it has one, else base and id with a dot. */
  predicate IsVlan(row: Row, under: string, link: Interface) {
    && link.kind.Vlan? && link.kind.id == row.vlanId
    && (if Trim(row.vlanName) != "" then link.name == Trim(row.vlanName)
        else if link.kind.base == "" || Trim(row.vlanId) == "" then link.name == ""
        else link.name == link.kind.base + "." + Trim(row.vlanId))
  }

  /** One more bond member: an ethernet under its trimmed name, unless that is empty; and a port, unless it is empty. */
  lemma MemberAdded(slaves: seq<string>, slave: string)
    ensures Members(slaves + [slave])
         == Members(slaves) + if Trim(slave) == "" then [] else [Interface(Trim(slave), Ethernet, None, None)]
    ensures NonEmpty(slaves + [slave]) == NonEmpty(slaves) + if slave == "" then [] else [slave]
    ensures Members([]) == [] && NonEmpty([]) == []
  {
    hide Trim;
    assert (slaves + [slave])[..|slaves|] == slaves;
  }

  /** The name a row's VRF and routes attach to: what carries its addresses, for any row but the primary. */
  lemma LogicalName(host: Host, isInteger: string -> bool, k: nat)
    requires Built(host, isInteger).Ok? && 0 < k < |Rows(host)|
    ensures var all, p := Built(host, isInteger).value.interfaces, Rows(host)[k];
            if IsLinkType(p.row.rowType) then
              CarrierAt(Rows(host), k) < |all| && p.logical == all[CarrierAt(Rows(host), k)].name
            else p.logical == ""
  {
    hide Interfaces, CarrierAt, PlacedRows, Carrier, FirstError, NameError;
    AdditionalPlaced(host.additional, k - 1);
    if IsLinkType(Rows(host)[k].row.rowType) {
      CarrierInPlace(Rows(host), k);
    }
  }

  // ----- VRFs

  /** One more comma-separated port: its trimmed text, unless that is empty. */
  lemma EntryAdded(text: string, part: string)
    requires ',' !in part
    ensures Entries(text + "," + part) == Entries(text) + if Trim(part) == "" then [] else [Trim(part)]
  {
    hide Trim;
    SplitLast(text, ',', part);
    assert text + [','] + part == text + "," + part;
    var parts := Split(text, ',');
    assert TrimAll(parts + [part]) == TrimAll(parts) + [Trim(part)];
    assert Split(text + "," + part, ',') == parts + [part];
    MemberAdded(TrimAll(parts), Trim(part));
  }

  lemma EntryAlone(part: string)
    requires ',' !in part
    ensures Entries(part) == if Trim(part) == "" then [] else [Trim(part)]
  {
    hide Trim;
    SplitWhole(part, ',');
    assert TrimAll([part]) == [Trim(part)];
    MemberAdded([], Trim(part));
    assert [] + [Trim(part)] == [Trim(part)];
  }

  /** A row's block ends with its VRF if that is on and the row has a name to attach it to, else with its carrier. */
  lemma VrfExact(p: Placed)
    ensures var links, block := Links(p.row, p.how), Block(p);
            if p.logical != "" && p.row.vrf.enabled then
              var vrf := p.row.vrf;
              && |block| == |links| + 1 && block[..|links|] == links
              && block[|links|] == Interface(Trim(vrf.name), block[|links|].kind, None, None)
              && block[|links|].kind.VrfDevice? && block[|links|].kind.table == Trim(vrf.tableId)
              && block[|links|].kind.members == if Entries(vrf.ports) == [] then [p.logical] else Entries(vrf.ports)
            else block == links
  {
    hide Links, Entries, Trim;
    assert Links(p.row, p.how) + [] == Links(p.row, p.how);
  }

  // ----- default routes

  /** Default routes come first: IPv4 then IPv6, each for a static primary with a gateway in a stack of that family. */
  lemma GatewaysExact(host: Host, isInteger: string -> bool, stack: string)
    requires Built(host, isInteger).Ok? && StackIs(host, stack)
    ensures var routes, p := Built(host, isInteger).value.routes, host.primary;
            var n := |GatewayRoutes(host)|;
            && n <= |routes|
            && (Route("0.0.0.0/0", p.ipv4Gateway, PrimaryName(p)) in routes[..n] <==>
                  stack in ["ipv4", "dual-stack"] && p.mode == "static" && p.ipv4Gateway != "")
            && (Route("::/0", p.ipv6Gateway, PrimaryName(p)) in routes[..n] <==>
                  stack in ["ipv6", "dual-stack"] && p.mode == "static" && p.ipv6Gateway != "")
            && n <= 2 && (n == 2 ==> routes[0].destination == "0.0.0.0/0" && routes[1].destination == "::/0")
            && forall r <- routes[..n] :: r.destination == "0.0.0.0/0" || r.destination == "::/0"
  {
    hide Rows, Interfaces, FirstError, NameError, Passed, AllQueued, PrimaryName, StackIs;
    StackUnique(host, stack);
    var routes := Built(host, isInteger).value.routes;
    assert routes[..|GatewayRoutes(host)|] == GatewayRoutes(host);
  }

  // ----- errors

  /** A row's own error: a static primary without any address, or else its VRF's, in that order. */
  lemma RowErrorExact(p: Placed, isInteger: string -> bool)
    ensures var e, vrf := PlacedError(p, isInteger), p.row.vrf;
            if IsLinkType(p.row.rowType) && p.how.mustHaveOne && p.how.mode == "static" &&
               Carrier(p.row, p.how).v4 in [None, Some(Disabled)] && Carrier(p.row, p.how).v6 in [None, Some(Disabled)]
            then e == Some(StaticWithoutAddress(Carrier(p.row, p.how).name))
            else if p.logical == "" || !vrf.enabled then e == None
            else if Trim(vrf.name) == "" then e == Some(BlankVrfName)
            else if Trim(vrf.tableId) == "" || !isInteger(Trim(vrf.tableId)) then e == Some(BadTableId(Trim(vrf.name)))
            else e == None
  {
    hide Carrier, Trim, IsLinkType, KnownType, Enabled;
    LinkTypes(p.row.rowType);
    if KnownType(p.row.rowType) {
      OffExact(Carrier(p.row, p.how).v4);
      OffExact(Carrier(p.row, p.how).v6);
    }
  }

  lemma OffExact(ip: Option<Ip>)
    ensures ip in [None, Some(Disabled)] <==> !Enabled(ip)
  {
  }

  /** Only the primary row has to have an address. */
  lemma MustHaveOne(host: Host, k: nat)
    requires k < |Rows(host)|
    ensures Rows(host)[k].how.mustHaveOne <==> k == 0
    ensures k == 0 ==> Rows(host)[k].how.mode == host.primary.mode
  {
    hide PlacedRows;
    if k > 0 {
      AdditionalPlaced(host.additional, k - 1);
    }
  }

  /** Row `k` is the first with an error, and this is it. */
  ghost predicate FirstRowError(rows: seq<Placed>, isInteger: string -> bool, k: nat, e: Error) {
    && k < |rows| && PlacedError(rows[k], isInteger) == Some(e)
    && forall j :: 0 <= j < k ==> PlacedError(rows[j], isInteger) == None
  }

  lemma {:induction false} FirstErrorExact(rows: seq<Placed>, isInteger: string -> bool) returns (k: nat)
    ensures match FirstError(rows, isInteger)
            case None => forall j :: 0 <= j < |rows| ==> PlacedError(rows[j], isInteger) == None
            case Some(e) => FirstRowError(rows, isInteger, k, e)
  {
    hide PlacedError;
    k := 0;
    if rows != [] {
      var n := |rows| - 1;
      var front := rows[..n];
      k := FirstErrorExact(front, isInteger);
      forall j | 0 <= j < n ensures front[j] == rows[j] {}
      if FirstError(front, isInteger).None? {
        forall j | 0 <= j < n ensures PlacedError(rows[j], isInteger) == None {
          assert front[j] == rows[j];
        }
        k := n;
      } else {
        forall j | 0 <= j < k ensures PlacedError(rows[j], isInteger) == None {
          assert front[j] == rows[j];
        }
      }
    }
  }

  /** Interface `k` is the first whose name is blank, or taken by an earlier one. */
  ghost predicate FirstNameError(interfaces: seq<Interface>, k: nat, e: Error) {
    && k < |interfaces| && NamesInOrder(interfaces[..k])
    && if Trim(interfaces[k].name) == "" then e == BlankName
       else e == DuplicateName(Trim(interfaces[k].name)) &&
            exists j :: 0 <= j < k && Trim(interfaces[j].name) == Trim(interfaces[k].name)
  }

  lemma {:induction false} NameErrorFirst(interfaces: seq<Interface>)
    requires NameError(interfaces).Some?
    ensures exists k: nat :: FirstNameError(interfaces, k, NameError(interfaces).value)
  {
    hide Trim;
    var n := |interfaces| - 1;
    var front := interfaces[..n];
    assert forall j :: 0 <= j < n ==> front[j] == interfaces[j];
    if NameError(front).Some? {
      NameErrorFirst(front);
      var k: nat :| FirstNameError(front, k, NameError(front).value);
      assert front[..k] == interfaces[..k];
      assert FirstNameError(interfaces, k, NameError(interfaces).value);
    } else {
      NameErrorExact(front);
      assert FirstNameError(interfaces, n, NameError(interfaces).value);
    }
  }

  /** What is reported: the first row's error, and only without any the first name's. */
  lemma ErrorExact(host: Host, isInteger: string -> bool)
    requires Built(host, isInteger).Err?
    ensures var e, rows := Built(host, isInteger).error, Rows(host);
            if forall j :: 0 <= j < |rows| ==> PlacedError(rows[j], isInteger) == None
            then exists k: nat :: FirstNameError(Interfaces(rows), k, e)
            else exists k: nat :: FirstRowError(rows, isInteger, k, e)
  {
    hide Rows, PlacedError, FirstError, NameError, Interfaces, FirstNameError;
    var rows := Rows(host);
    var k := FirstErrorExact(rows, isInteger);
    if FirstError(rows, isInteger).None? {
      NameErrorFirst(Interfaces(rows));
      k :| FirstNameError(Interfaces(rows), k, NameError(Interfaces(rows)).value);
      assert FirstNameError(Interfaces(Rows(host)), k, Built(host, isInteger).error);
    }
  }
}
