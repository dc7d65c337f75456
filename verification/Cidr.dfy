/**
 Addresses and CIDR ranges as big integers, and the provisioning-gateway check built on them:
 `shared/provisioningNetworkGateway.js`. Prefixes follow section 3.1 of RFC 4632.

 `Number(text)` is a parameter: the integer it yields, or `None` when it yields none.
 */
module Cidr {
  import opened Wrappers
  import opened Text
  import opened IpText

  type NumberOf = string -> Option<int>

  datatype Family = V4 | V6

  datatype Address = Address(family: Family, value: nat)

  datatype Range = Range(family: Family, start: nat, end: nat)

  function Pow2(n: nat): (p: nat)
    ensures p > 0
  {
    if n == 0 then 1 else 2 * Pow2(n - 1)
  }

  function WidthOf(f: Family): nat {
    if f.V4? then 32 else 128
  }

  /** The first 96 bits of an IPv4-mapped address. */
  const V4_MAPPED_HIGH := 0xFFFF

  ghost function ParsedIp(value: string): Option<Address> {
    var v := Trim(value);
    if v == "" then None
    else if IsIpv4(v) then Some(Address(V4, Ipv4Value(v)))
    else
      match Ipv6Value(v)
      case None => None
      case Some(six) =>
        if six / 0x1_0000_0000 == V4_MAPPED_HIGH then Some(Address(V4, six % 0x1_0000_0000))
        else Some(Address(V6, six))
  }

  method ParseIp(value: string) returns (r: Option<Address>)
    ensures r == ParsedIp(value)
  {
    hide IsIpv4, Ipv4Value, Ipv6Value, Trim;
    var v := Trim(value);
    if v == "" {
      return None;
    }
    if IsIpv4(v) {
      return Some(Address(V4, Ipv4Value(v)));
    }
    var six := Ipv6ToBigInt(v);
    if six.None? {
      return None;
    }
    if six.value / 0x1_0000_0000 == V4_MAPPED_HIGH {
      return Some(Address(V4, six.value % 0x1_0000_0000));
    }
    return Some(Address(V6, six.value));
  }

  /** The inclusive block of addresses that share the first `bits` bits with `base`. */
  function BlockOf(base: Address, bits: nat): Range
    requires bits <= WidthOf(base.family)
  {
    var size := Pow2(WidthOf(base.family) - bits);
    var start := FloorTo(base.value, size);
    Range(base.family, start, start + (size - 1))
  }

  function Quotient(v: nat, d: nat): nat
    requires d > 0
  {
    v / d
  }

  /** `v >> k` */
  function ShiftRight(v: nat, k: nat): nat { Quotient(v, Pow2(k)) }

  /** `(v >> k) << k`, for `size` the `k`-th power of two. */
  function FloorTo(v: nat, size: nat): nat
    requires size > 0
  {
    DivisionBounds(v, size);
    v / size * size
  }

  ghost function ParsedCidr(value: string, number: NumberOf): Option<Range> {
    var raw := Trim(value);
    var slash := LastIndexOf(raw, '/');
    if slash == -1 then None
    else
      match ParsedIp(raw[..slash])
      case None => None
      case Some(base) =>
        match number(raw[slash + 1..])
        case None => None
        case Some(bits) => if bits < 0 || bits > WidthOf(base.family) then None else Some(BlockOf(base, bits))
  }

  method ParseCidr(value: string, number: NumberOf) returns (r: Option<Range>)
    ensures r == ParsedCidr(value, number)
  {
    hide ParsedIp, Trim, LastIndexOf, BlockOf;
    var raw := Trim(value);
    var slash := LastIndexOf(raw, '/');
    if slash == -1 {
      return None;
    }
    var base := ParseIp(raw[..slash]);
    var bits := number(raw[slash + 1..]);
    if base.None? || bits.None? || bits.value < 0 || bits.value > WidthOf(base.value.family) {
      return None;
    }
    return Some(BlockOf(base.value, bits.value));
  }

  predicate InRange(a: Address, r: Range) {
    a.family == r.family && r.start <= a.value <= r.end
  }

  // ----- what a block is

  lemma DivisionBounds(v: nat, d: nat)
    requires d > 0
    ensures 0 <= v / d * d <= v < v / d * d + d
  {
  }

  lemma OrderFromProducts(a: nat, b: nat, d: nat)
    requires d > 0 && a * d < b * d + d
    ensures a <= b
  {
    var k: int := a - b - 1;
    assert a * d == b * d + d + k * d by { Regroup(b, k, d); }
  }

  lemma Regroup(b: int, k: int, d: int)
    ensures (b + 1 + k) * d == b * d + d + k * d
  {
  }

  lemma QuotientUnique(v: nat, d: nat, q: nat)
    requires d > 0 && q * d <= v < q * d + d
    ensures v / d == q
  {
    DivisionBounds(v, d);
    OrderFromProducts(v / d, q, d);
    OrderFromProducts(q, v / d, d);
  }

  lemma SameQuotient(v: nat, w: nat, d: nat)
    requires d > 0
    ensures v / d == w / d <==> FloorTo(w, d) <= v < FloorTo(w, d) + d
  {
    DivisionBounds(v, d);
    if FloorTo(w, d) <= v < FloorTo(w, d) + d {
      QuotientUnique(v, d, w / d);
    }
  }

  lemma MulMonotone(a: nat, b: nat, d: nat)
    requires a <= b
    ensures a * d <= b * d
  {
  }

  /** An address is in the block exactly when it shares the block's prefix bits. */
  lemma BlockIsPrefix(base: Address, bits: nat, a: Address)
    requires bits <= WidthOf(base.family)
    ensures InRange(a, BlockOf(base, bits)) <==>
              a.family == base.family &&
              ShiftRight(a.value, WidthOf(base.family) - bits) == ShiftRight(base.value, WidthOf(base.family) - bits)
  {
    SameQuotient(a.value, base.value, Pow2(WidthOf(base.family) - bits));
  }

  lemma {:induction false} Pow2Split(m: nat, n: nat)
    ensures Pow2(m + n) == Pow2(m) * Pow2(n)
  {
    if m != 0 {
      Pow2Split(m - 1, n);
      assert Pow2(m + n) == 2 * (Pow2(m - 1) * Pow2(n));
      assert 2 * (Pow2(m - 1) * Pow2(n)) == (2 * Pow2(m - 1)) * Pow2(n);
    }
  }

  lemma DivideTwice(v: nat, a: nat, b: nat)
    requires a > 0 && b > 0
    ensures a * b > 0 && v / (a * b) == v / a / b
  {
    var q := v / a / b;
    DivisionBounds(v, a);
    DivisionBounds(v / a, b);
    assert a * b > 0;
    assert q * (a * b) == (q * b) * a;
    MulMonotone(q * b, v / a, a);
    MulMonotone(v / a + 1, q * b + b, a);
    assert (v / a + 1) * a == v / a * a + a;
    assert (q * b + b) * a == q * (a * b) + a * b;
    QuotientUnique(v, a * b, q);
  }

  /** The longer prefix decides: agreeing on more bits means agreeing on fewer. */
  lemma LongerPrefix(v: nat, w: nat, small: nat, large: nat)
    requires small <= large && ShiftRight(v, small) == ShiftRight(w, small)
    ensures ShiftRight(v, large) == ShiftRight(w, large)
  {
    Pow2Split(small, large - small);
    DivideTwice(v, Pow2(small), Pow2(large - small));
    DivideTwice(w, Pow2(small), Pow2(large - small));
  }

  predicate Within(inner: Range, outer: Range) {
    inner.family == outer.family && outer.start <= inner.start && inner.end <= outer.end
  }

  predicate Apart(a: Range, b: Range) {
    a.family != b.family || a.end < b.start || b.end < a.start
  }

  lemma BlockEnds(base: Address, bits: nat)
    requires bits <= WidthOf(base.family)
    ensures var r := BlockOf(base, bits);
            InRange(Address(base.family, r.start), r) && InRange(Address(base.family, r.end), r) && r.start <= r.end
  {
    hide FloorTo;
  }

  /** A block with the longer prefix lies inside the other one as soon as they share an address. */
  lemma SharedMeansWithin(a: Address, bitsA: nat, b: Address, bitsB: nat, shared: Address)
    requires bitsA <= bitsB <= WidthOf(a.family) && a.family == b.family
    requires InRange(shared, BlockOf(a, bitsA)) && InRange(shared, BlockOf(b, bitsB))
    ensures Within(BlockOf(b, bitsB), BlockOf(a, bitsA))
  {
    hide BlockOf;
    var w := WidthOf(a.family);
    var rb := BlockOf(b, bitsB);
    BlockIsPrefix(a, bitsA, shared);
    BlockIsPrefix(b, bitsB, shared);
    BlockEnds(b, bitsB);
    assert rb.family == a.family;
    forall x | x == rb.start || x == rb.end ensures InRange(Address(a.family, x), BlockOf(a, bitsA)) {
      BlockIsPrefix(b, bitsB, Address(a.family, x));
      LongerPrefix(x, shared.value, w - bitsB, w - bitsA);
      BlockIsPrefix(a, bitsA, Address(a.family, x));
    }
  }

  lemma OverlapPoint(a: Range, b: Range) returns (x: nat)
    requires !Apart(a, b) && a.start <= a.end && b.start <= b.end
    ensures InRange(Address(a.family, x), a) && InRange(Address(a.family, x), b)
  {
    x := if a.start <= b.start then b.start else a.start;
  }

  /** Any two CIDR blocks are apart, or one lies inside the other. */
  lemma NestedOrApart(a: Address, bitsA: nat, b: Address, bitsB: nat)
    requires bitsA <= WidthOf(a.family) && bitsB <= WidthOf(b.family)
    ensures var x, y := BlockOf(a, bitsA), BlockOf(b, bitsB);
            Apart(x, y) || Within(x, y) || Within(y, x)
  {
    BlockEnds(a, bitsA);
    BlockEnds(b, bitsB);
    if !Apart(BlockOf(a, bitsA), BlockOf(b, bitsB)) {
      hide BlockOf;
      var x := OverlapPoint(BlockOf(a, bitsA), BlockOf(b, bitsB));
      if bitsA <= bitsB {
        SharedMeansWithin(a, bitsA, b, bitsB, Address(a.family, x));
      } else {
        SharedMeansWithin(b, bitsB, a, bitsA, Address(a.family, x));
      }
    }
  }

  // ----- the provisioning gateway

  datatype GatewayInput = Absent | Given(text: string) | NotText

  datatype GatewayError =
    | MustBeText | NotAnAddress | WrongFamily | OutsideNetwork | InsideDhcpRange | SameAsClusterAddress

  datatype GatewayReport = GatewayReport(valid: bool, blank: bool, applicable: bool, errors: seq<GatewayError>)

  /** The gateway shares the network's prefix; a network that does not parse puts no constraint. */
  ghost predicate GatewayInNetwork(gw: Address, cidr: string, number: NumberOf) {
    ParsedCidr(cidr, number).Some? ==> InRange(gw, ParsedCidr(cidr, number).value)
  }

  /** The two ends of a `start,end` pair, when both parse in the gateway's family. */
  ghost function DhcpEnds(gw: Address, dhcpRange: string): Option<Range> {
    var parts := Split(dhcpRange, ',');
    if |parts| != 2 then None
    else
      match (ParsedIp(Trim(parts[0])), ParsedIp(Trim(parts[1])))
      case (Some(start), Some(end)) =>
        if start.family == end.family && start.family == gw.family then Some(Range(gw.family, start.value, end.value))
        else None
      case _ => None
  }

  ghost predicate GatewayOutsideDhcp(gw: Address, dhcpRange: string) {
    DhcpEnds(gw, dhcpRange).Some? ==> !InRange(gw, DhcpEnds(gw, dhcpRange).value)
  }

  ghost predicate GatewayNotCluster(gw: Address, clusterIp: string) {
    ParsedIp(clusterIp) != Some(gw)
  }

  ghost predicate GatewayAllowed(text: string, cidr: string, dhcpRange: string, clusterIp: string, number: NumberOf) {
    match ParsedIp(text)
    case None => false
    case Some(gw) =>
      GatewayInNetwork(gw, cidr, number) && GatewayOutsideDhcp(gw, dhcpRange) && GatewayNotCluster(gw, clusterIp)
  }

  function When(condition: bool, e: GatewayError): seq<GatewayError> { if condition then [e] else [] }

  /** Which errors are reported, in order, for which defect. */
  ghost function GatewayErrors(gateway: GatewayInput, cidr: string, dhcpRange: string, clusterIp: string,
                               number: NumberOf)
    : seq<GatewayError>
  {
    match gateway
    case NotText => [MustBeText]
    case Absent => []
    case Given(text) =>
      if Trim(text) == "" then []
      else
        match ParsedIp(text)
        case None => [NotAnAddress]
        case Some(gw) =>
          var network := ParsedCidr(cidr, number);
          When(network.Some? && network.value.family != gw.family, WrongFamily) +
          When(network.Some? && network.value.family == gw.family && !InRange(gw, network.value), OutsideNetwork) +
          When(!GatewayOutsideDhcp(gw, dhcpRange), InsideDhcpRange) +
          When(!GatewayNotCluster(gw, clusterIp), SameAsClusterAddress)
  }

  /** Valid exactly when blank, or an address in its network, outside its DHCP range and not the cluster's own. */
  method ValidateProvisioningNetworkGateway(gateway: GatewayInput, managed: bool, cidr: string, dhcpRange: string,
                                            clusterIp: string, number: NumberOf)
    returns (r: GatewayReport)
    ensures r.valid <==> r.errors == []
    ensures r.blank <==> gateway.Absent? || (gateway.Given? && Trim(gateway.text) == "")
    ensures r.applicable <==> managed && !gateway.NotText?
    ensures r.valid <==> r.blank || (gateway.Given? && GatewayAllowed(gateway.text, cidr, dhcpRange, clusterIp, number))
    ensures r.errors == GatewayErrors(gateway, cidr, dhcpRange, clusterIp, number)
  {
    hide ParsedIp, ParsedCidr, TrimStart, TrimEnd;
    if gateway.NotText? {
      return GatewayReport(false, false, false, [MustBeText]);
    }
    var raw := if gateway.Given? then Trim(gateway.text) else "";
    if raw == "" {
      return GatewayReport(true, true, managed, []);
    }
    TrimmedAgain(gateway.text);
    var gw := ParseIp(raw);
    if gw.None? {
      return GatewayReport(false, false, managed, [NotAnAddress]);
    }
    var errors: seq<GatewayError> := [];
    var network := ParseCidr(cidr, number);
    if network.Some? {
      if network.value.family != gw.value.family {
        errors := errors + [WrongFamily];
      } else if gw.value.value < network.value.start || gw.value.value > network.value.end {
        errors := errors + [OutsideNetwork];
      }
    }
    ghost var first := errors;
    assert first == [] <==> GatewayInNetwork(gw.value, cidr, number);
    assert first == When(network.Some? && network.value.family != gw.value.family, WrongFamily) +
      When(network.Some? && network.value.family == gw.value.family && !InRange(gw.value, network.value),
           OutsideNetwork);
    var parts := Split(dhcpRange, ',');
    if |parts| == 2 {
      var start := ParseIp(Trim(parts[0]));
      var end := ParseIp(Trim(parts[1]));
      if start.Some? && end.Some? && start.value.family == end.value.family && start.value.family == gw.value.family {
        if start.value.value <= gw.value.value <= end.value.value {
          errors := errors + [InsideDhcpRange];
        }
      }
    }
    assert errors == first + When(!GatewayOutsideDhcp(gw.value, dhcpRange), InsideDhcpRange);
    var cluster := ParseIp(clusterIp);
    if cluster.Some? && cluster.value.family == gw.value.family && cluster.value.value == gw.value.value {
      errors := errors + [SameAsClusterAddress];
    }
    return GatewayReport(errors == [], false, managed, errors);
  }

  lemma TrimmedAgain(value: string)
    ensures ParsedIp(Trim(value)) == ParsedIp(value)
  {
    hide IsIpv4, Ipv6Value, Ipv4Value;
    TrimIsBare(value);
  }

  // ----- which errors a gateway gets

  /** The gateway lies between the two addresses of its family that the text names, with a comma between them. */
  ghost predicate BetweenEnds(gw: Address, dhcpRange: string) {
    exists low, high, a: nat, b: nat ::
      && dhcpRange == low + "," + high && ',' !in low && ',' !in high
      && ParsedIp(low) == Some(Address(gw.family, a)) && ParsedIp(high) == Some(Address(gw.family, b))
      && a <= gw.value <= b
  }

  lemma DhcpExact(gw: Address, dhcpRange: string)
    ensures !GatewayOutsideDhcp(gw, dhcpRange) <==> BetweenEnds(gw, dhcpRange)
  {
    hide ParsedIp, Split, Trim;
    SplitFree(dhcpRange, ',');
    JoinSplit(dhcpRange, ',');
    var parts := Split(dhcpRange, ',');
    if |parts| == 2 {
      TrimmedAgain(parts[0]);
      TrimmedAgain(parts[1]);
      assert parts[1..][0] == parts[1];
      assert dhcpRange == parts[0] + "," + parts[1];
    }
    forall low, high | dhcpRange == low + "," + high && ',' !in low && ',' !in high ensures parts == [low, high] {
      SplitAt(low, ',', high);
      SplitWhole(high, ',');
      assert low + [','] + high == dhcpRange;
    }
  }

  /** The address a given gateway is read as. */
  ghost predicate IsGateway(gateway: GatewayInput, gw: Address) {
    gateway.Given? && ParsedIp(gateway.text) == Some(gw)
  }

  /** What each error says of the address. */
  ghost predicate DeservedBy(gw: Address, cidr: string, dhcpRange: string, clusterIp: string, number: NumberOf,
                             e: GatewayError)
  {
    match e
    case WrongFamily => exists net :: ParsedCidr(cidr, number) == Some(net) && gw.family != net.family
    case OutsideNetwork =>
      exists net ::
        && ParsedCidr(cidr, number) == Some(net) && gw.family == net.family
        && (gw.value < net.start || net.end < gw.value)
    case InsideDhcpRange => BetweenEnds(gw, dhcpRange)
    case SameAsClusterAddress => ParsedIp(clusterIp) == Some(gw)
    case _ => false
  }

  ghost predicate Deserved(gateway: GatewayInput, cidr: string, dhcpRange: string, clusterIp: string, number: NumberOf,
                           e: GatewayError)
  {
    match e
    case MustBeText => gateway.NotText?
    case NotAnAddress => gateway.Given? && Trim(gateway.text) != "" && forall gw :: !IsGateway(gateway, gw)
    case _ => exists gw :: IsGateway(gateway, gw) && DeservedBy(gw, cidr, dhcpRange, clusterIp, number, e)
  }

  /** The errors reported are exactly the deserved ones. */
  lemma GatewayExact(gateway: GatewayInput, cidr: string, dhcpRange: string, clusterIp: string, number: NumberOf,
                     e: GatewayError)
    ensures e in GatewayErrors(gateway, cidr, dhcpRange, clusterIp, number)
       <==> Deserved(gateway, cidr, dhcpRange, clusterIp, number, e)
  {
    hide ParsedIp, ParsedCidr, Trim, GatewayOutsideDhcp, GatewayNotCluster, BetweenEnds, When, DeservedBy;
    if gateway.Given? {
      BlankIsNone(gateway.text);
      match ParsedIp(gateway.text)
      case None =>
        assert forall gw :: !IsGateway(gateway, gw);
      case Some(gw) =>
        WhenExact(gw, cidr, dhcpRange, clusterIp, number, e);
        assert IsGateway(gateway, gw) && forall other :: IsGateway(gateway, other) ==> other == gw;
    }
  }

  lemma WhenExact(gw: Address, cidr: string, dhcpRange: string, clusterIp: string, number: NumberOf, e: GatewayError)
    ensures var network := ParsedCidr(cidr, number);
            e in When(network.Some? && network.value.family != gw.family, WrongFamily) +
                 When(network.Some? && network.value.family == gw.family && !InRange(gw, network.value),
                      OutsideNetwork) +
                 When(!GatewayOutsideDhcp(gw, dhcpRange), InsideDhcpRange) +
                 When(!GatewayNotCluster(gw, clusterIp), SameAsClusterAddress)
            <==> DeservedBy(gw, cidr, dhcpRange, clusterIp, number, e)
    ensures e.MustBeText? || e.NotAnAddress? ==> !DeservedBy(gw, cidr, dhcpRange, clusterIp, number, e)
  {
    hide ParsedIp, ParsedCidr, GatewayOutsideDhcp, BetweenEnds;
    DhcpExact(gw, dhcpRange);
  }

  lemma BlankIsNone(text: string)
    ensures Trim(text) == "" ==> ParsedIp(text).None?
  {
  }
}
