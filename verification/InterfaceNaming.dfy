/** Names of the interfaces a host row produces (`shared/interfaceNaming.js`). A missing field reads as "". */
module InterfaceNaming {
  import opened Text

  datatype Vrf = Vrf(enabled: bool, name: string, tableId: string, ports: string)

  datatype RouteEntry = RouteEntry(destination: string, nextHopAddress: string, nextHopInterface: string)

  /** One interface row of the host inventory. */
  datatype Row = Row(
    rowType: string,
    ethernetName: string,
    bondName: string, bondMode: string, slaves: seq<string>,
    vlanName: string, vlanBase: string, vlanId: string,
    mode: string, ipv4Cidr: string, ipv6Cidr: string, ipv4Gateway: string, ipv6Gateway: string,
    vrf: Vrf, routes: seq<RouteEntry>)

  datatype Fallbacks = Fallbacks(ethernet: string, bond: string)

  const PRIMARY_FALLBACKS := Fallbacks("eth0", "bond0")

  predicate IsVlanType(rowType: string) {
    Trim(rowType) == "vlan-on-ethernet" || Trim(rowType) == "vlan-on-bond"
  }

  predicate IsBondType(rowType: string) {
    Trim(rowType) == "bond" || Trim(rowType) == "vlan-on-bond"
  }

  /** `a || b` on strings */
  function Or(a: string, b: string): string { if a != "" then a else b }

  function ResolveBase(row: Row, fallbacks: Fallbacks): (name: string)
    ensures Bare(name)
  {
    TrimIsBare(row.vlanBase);
    TrimIsBare(row.bondName);
    TrimIsBare(row.ethernetName);
    TrimIsBare(fallbacks.bond);
    TrimIsBare(fallbacks.ethernet);
    if Trim(row.vlanBase) != "" then Trim(row.vlanBase)
    else if IsBondType(row.rowType) then Or(Trim(row.bondName), Trim(fallbacks.bond))
    else Or(Trim(row.ethernetName), Trim(fallbacks.ethernet))
  }

  function ResolveVlan(row: Row, fallbacks: Fallbacks): (name: string)
    ensures Bare(name)
  {
    TrimIsBare(row.vlanName);
    TrimIsBare(row.vlanId);
    if Trim(row.vlanName) != "" then Trim(row.vlanName)
    else
      var base, id := ResolveBase(row, fallbacks), Trim(row.vlanId);
      if base != "" && id != "" then base + "." + id else ""
  }

  function ResolveEffective(row: Row, fallbacks: Fallbacks): (name: string)
    ensures Bare(name)
  {
    if IsVlanType(row.rowType) then Or(ResolveVlan(row, fallbacks), ResolveBase(row, fallbacks))
    else ResolveBase(row, fallbacks)
  }
}
