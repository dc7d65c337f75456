/**
 The NO_PROXY matcher of `backend/src/configureFetchProxy.js`, and its agreement with the big-integer ranges of
 `shared/provisioningNetworkGateway.js`.

 `net.isIP` and `Number` are parameters.
 */
module NoProxy {
  import opened Wrappers
  import opened Text
  import opened IpText
  import opened Cidr

  type octet = x: int | 0 <= x < 256

  datatype Platform = Platform(isIp: string -> nat, number: NumberOf)

  datatype CidrEntry = CidrEntry(bytes: seq<octet>, bits: nat)

  // ----- the mask loop

  /** Bitwise and of two non-negative integers. */
  function BitAnd(x: nat, y: nat): nat
    decreases x
  {
    if x == 0 then 0 else x % 2 * (y % 2) + 2 * BitAnd(x / 2, y / 2)
  }

  /** `(0xff << (8 - take)) & 0xff` */
  function Mask(take: nat): nat
    requires take <= 8
  {
    if take == 8 then 0xFF else BitAnd(0xFF * Pow2(8 - take), 0xFF)
  }

  /** What the loop decides: the first `remaining` bits agree, byte by byte under a mask. */
  predicate MaskedEqual(a: seq<octet>, b: seq<octet>, remaining: nat)
    requires |a| == |b|
    decreases |a|
  {
    if a == [] || remaining == 0 then true
    else
      var take := if remaining < 8 then remaining else 8;
      BitAnd(a[0], Mask(take)) == BitAnd(b[0], Mask(take)) && MaskedEqual(a[1..], b[1..], remaining - take)
  }

  predicate EntryMatches(host: seq<octet>, e: CidrEntry) {
    |e.bytes| == |host| && MaskedEqual(e.bytes, host, e.bits)
  }

  method MatchesEntry(host: seq<octet>, e: CidrEntry) returns (r: bool)
    ensures r == EntryMatches(host, e)
  {
    hide BitAnd, Mask;
    if |e.bytes| != |host| {
      return false;
    }
    var remaining := e.bits;
    var i := 0;
    assert e.bytes[0..] == e.bytes && host[0..] == host;
    while i < |e.bytes| && remaining > 0
      invariant 0 <= i <= |e.bytes| && remaining >= 0
      invariant MaskedEqual(e.bytes[i..], host[i..], remaining) == MaskedEqual(e.bytes, host, e.bits)
    {
      var take := if 8 < remaining then 8 else remaining;
      assert e.bytes[i..][1..] == e.bytes[i + 1..] && host[i..][1..] == host[i + 1..];
      var mask := Mask(take);
      if BitAnd(e.bytes[i], mask) != BitAnd(host[i], mask) {
        return false;
      }
      remaining := remaining - take;
      i := i + 1;
    }
    return true;
  }

  // ----- the mask loop is a prefix test on big-endian values

  /** A leading digit `a` in front of `x`, in a base of `p`. */
  function Digits(a: nat, p: nat, x: nat): nat { a * p + x }

  function BigEndian(bytes: seq<octet>): nat {
    if bytes == [] then 0 else Digits(bytes[0], Pow2(8 * |bytes[1..]|), BigEndian(bytes[1..]))
  }

  lemma {:induction false} BigEndianFits(bytes: seq<octet>)
    ensures BigEndian(bytes) < Pow2(8 * |bytes|)
  {
    if bytes != [] {
      var p := Pow2(8 * |bytes[1..]|);
      BigEndianFits(bytes[1..]);
      Pow2Split(8, 8 * |bytes[1..]|);
      PowersOfTwo();
      MulMonotone(bytes[0] as int + 1, 256, p);
      assert (bytes[0] as int + 1) * p == bytes[0] as int * p + p;
    }
  }

  lemma PowersOfTwo()
    ensures Pow2(0) == 1 && Pow2(1) == 2 && Pow2(2) == 4 && Pow2(3) == 8 && Pow2(4) == 16 && Pow2(5) == 32
    ensures Pow2(6) == 64 && Pow2(7) == 128 && Pow2(8) == 256
  {
    assert Pow2(4) == 16;
    assert Pow2(6) == 64;
  }

  lemma {:induction false} AndZero(x: nat)
    ensures BitAnd(x, 0) == 0
  {
    if x != 0 {
      AndZero(x / 2);
    }
  }

  lemma AndDouble(x: nat, y: nat)
    ensures BitAnd(x, 2 * y) == 2 * BitAnd(x / 2, y)
    ensures BitAnd(x, 2 * y + 1) == x % 2 + 2 * BitAnd(x / 2, y)
  {
    assert 2 * y / 2 == y && 2 * y % 2 == 0;
    assert (2 * y + 1) / 2 == y && (2 * y + 1) % 2 == 1;
  }

  lemma RemainderUnique(x: nat, d: nat, q: nat, r: nat)
    requires r < d && x == q * d + r
    ensures x % d == r && x / d == q
  {
    QuotientUnique(x, d, q);
    assert x == x / d * d + x % d;
  }

  lemma RemainderOfDouble(x: nat, p: nat)
    requires p > 0
    ensures x % (2 * p) == x % 2 + 2 * (x / 2 % p)
  {
    var a := x / 2;
    assert a == a / p * p + a % p;
    Doubling(a / p, p);
    RemainderUnique(x, 2 * p, a / p, x % 2 + 2 * (a % p));
  }

  /** Anding with `n` low ones keeps the remainder. */
  lemma {:induction false} AndLowOnes(x: nat, n: nat)
    ensures BitAnd(x, Pow2(n) - 1) == x % Pow2(n)
    decreases n
  {
    hide BitAnd;
    if n == 0 {
      AndZero(x);
    } else {
      var p := Pow2(n - 1);
      AndDouble(x, p - 1);
      AndLowOnes(x / 2, n - 1);
      RemainderOfDouble(x, p);
      assert Pow2(n) - 1 == 2 * (p - 1) + 1;
    }
  }

  /** `n` ones followed by `k` zeros. */
  function HighOnes(n: nat, k: nat): nat {
    MulMonotone(0, Pow2(n) - 1, Pow2(k));
    (Pow2(n) - 1) * Pow2(k)
  }

  /** Anding with ones above bit `k` keeps the part above bit `k`. */
  lemma {:induction false} AndHighOnes(x: nat, n: nat, k: nat)
    requires x < Pow2(n + k)
    ensures BitAnd(x, HighOnes(n, k)) == FloorTo(x, Pow2(k))
    decreases k
  {
    hide BitAnd;
    if k == 0 {
      AndLowOnes(x, n);
      assert HighOnes(n, 0) == Pow2(n) - 1;
      SmallRemainder(x, Pow2(n));
      assert FloorTo(x, 1) == x;
    } else {
      var p := Pow2(k - 1);
      Doubling(Pow2(n) - 1, p);
      AndDouble(x, HighOnes(n, k - 1));
      assert x / 2 < Pow2(n + k - 1);
      AndHighOnes(x / 2, n, k - 1);
      DivideTwice(x, 2, p);
      Doubling(x / Pow2(k), p);
    }
  }

  lemma SmallRemainder(x: nat, d: nat)
    requires x < d
    ensures x % d == x
  {
  }

  lemma Doubling(a: nat, b: nat)
    ensures a * (2 * b) == 2 * (a * b)
  {
  }

  lemma MaskIsHighOnes(take: nat)
    requires 1 <= take <= 8
    ensures Mask(take) == HighOnes(take, 8 - take)
  {
    PowersOfTwo();
    hide BitAnd, Pow2;
    AndLowOnes(0xFF * Pow2(8 - take), 8);
    assert take == 1 || take == 2 || take == 3 || take == 4 || take == 5 || take == 6 || take == 7 || take == 8;
  }

  lemma MaskKeepsHighBits(a: octet, take: nat)
    requires 1 <= take <= 8
    ensures BitAnd(a, Mask(take)) == FloorTo(a, Pow2(8 - take))
  {
    hide BitAnd, Mask, HighOnes, FloorTo;
    PowersOfTwo();
    MaskIsHighOnes(take);
    AndHighOnes(a, take, 8 - take);
  }

  /** Equal under the mask means equal in the top `take` bits. */
  lemma MaskedByte(a: octet, b: octet, take: nat)
    requires 1 <= take <= 8
    ensures BitAnd(a, Mask(take)) == BitAnd(b, Mask(take)) <==> ShiftRight(a, 8 - take) == ShiftRight(b, 8 - take)
  {
    hide BitAnd, Mask, Pow2, HighOnes, FloorTo;
    MaskKeepsHighBits(a, take);
    MaskKeepsHighBits(b, take);
    SameFloor(a, b, Pow2(8 - take));
  }

  lemma SameFloor(a: nat, b: nat, d: nat)
    requires d > 0
    ensures FloorTo(a, d) == FloorTo(b, d) <==> a / d == b / d
  {
    if FloorTo(a, d) == FloorTo(b, d) {
      DivisionBounds(a, d);
      DivisionBounds(b, d);
      QuotientUnique(FloorTo(a, d), d, a / d);
      QuotientUnique(FloorTo(b, d), d, b / d);
    }
  }

  lemma LeadingQuotient(q: nat, p: nat, r: nat, d: nat)
    requires d > 0 && r < p
    ensures p * d > 0 && (q * p + r) / (p * d) == q / d
  {
    DivisionBounds(q, d);
    var k := q / d;
    MulMonotone(q, k * d + (d - 1), p);
    MulMonotone(k * d, q, p);
    assert k * d * p == k * (p * d);
    assert (k * d + (d - 1)) * p + p == k * (p * d) + p * d;
    QuotientUnique(q * p + r, p * d, k);
  }

  lemma SplitQuotient(q: nat, m: nat, d: nat, r: nat)
    requires d > 0
    ensures (q * (m * d) + r) / d == q * m + r / d
  {
    DivisionBounds(r, d);
    assert q * (m * d) == q * m * d;
    assert (q * m + r / d) * d == q * m * d + r / d * d;
    QuotientUnique(q * (m * d) + r, d, q * m + r / d);
  }

  /** Two-digit numbers in base `m` are equal digit by digit. */
  lemma TwoDigits(a: nat, b: nat, x: nat, y: nat, m: nat)
    requires x < m && y < m
    ensures Digits(a, m, x) == Digits(b, m, y) <==> a == b && x == y
  {
    if Digits(a, m, x) == Digits(b, m, y) {
      QuotientUnique(a * m + x, m, a);
      QuotientUnique(b * m + y, m, b);
    }
  }

  lemma DropLowBytes(a: nat, x: nat, w: nat, k: nat)
    requires x < Pow2(w)
    ensures ShiftRight(Digits(a, Pow2(w), x), w + k) == ShiftRight(a, k)
  {
    hide Pow2;
    Pow2Split(w, k);
    LeadingQuotient(a, Pow2(w), x, Pow2(k));
  }

  lemma FirstByteDecides(a: octet, b: octet, x: nat, y: nat, w: nat, bits: nat)
    requires 1 <= bits <= 8 && x < Pow2(w) && y < Pow2(w)
    ensures BitAnd(a, Mask(bits)) == BitAnd(b, Mask(bits))
         <==> ShiftRight(Digits(a, Pow2(w), x), w + 8 - bits) == ShiftRight(Digits(b, Pow2(w), y), w + 8 - bits)
  {
    hide BitAnd, Mask, Pow2, Digits, ShiftRight;
    MaskedByte(a, b, bits);
    DropLowBytes(a, x, w, 8 - bits);
    DropLowBytes(b, y, w, 8 - bits);
    assert w + (8 - bits) == w + 8 - bits;
  }

  lemma DropWholeBytes(a: nat, x: nat, w: nat, h: nat)
    requires h <= w && x < Pow2(w)
    ensures ShiftRight(Digits(a, Pow2(w), x), h) == Digits(a, Pow2(w - h), ShiftRight(x, h))
    ensures ShiftRight(x, h) < Pow2(w - h)
  {
    hide Pow2;
    Pow2Split(w - h, h);
    SplitQuotient(a, Pow2(w - h), Pow2(h), x);
  }

  lemma WholeByteMask(a: octet, b: octet)
    ensures BitAnd(a, Mask(8)) == BitAnd(b, Mask(8)) <==> a == b
  {
    assert Pow2(0) == 1;
    hide BitAnd, Mask, Pow2;
    MaskedByte(a, b, 8);
  }

  lemma FirstByteWhole(a: octet, b: octet, x: nat, y: nat, w: nat, h: nat)
    requires h <= w && x < Pow2(w) && y < Pow2(w)
    ensures ShiftRight(Digits(a, Pow2(w), x), h) == ShiftRight(Digits(b, Pow2(w), y), h)
         <==> BitAnd(a, Mask(8)) == BitAnd(b, Mask(8)) && ShiftRight(x, h) == ShiftRight(y, h)
  {
    hide BitAnd, Mask, Pow2, Digits, ShiftRight;
    WholeByteMask(a, b);
    DropWholeBytes(a, x, w, h);
    DropWholeBytes(b, y, w, h);
    TwoDigits(a, b, ShiftRight(x, h), ShiftRight(y, h), Pow2(w - h));
  }

  /** The loop answers whether the leading `bits` bits of the two big-endian values agree. */
  lemma {:induction false} MaskLoopIsPrefix(a: seq<octet>, b: seq<octet>, bits: nat)
    requires |a| == |b| && bits <= 8 * |a|
    ensures MaskedEqual(a, b, bits)
         <==> ShiftRight(BigEndian(a), 8 * |a| - bits) == ShiftRight(BigEndian(b), 8 * |a| - bits)
    decreases |a|
  {
    hide Mask, BitAnd, Digits, ShiftRight;
    if a == [] {
    } else if bits == 0 {
      BigEndianFits(a);
      BigEndianFits(b);
      ShiftedOut(BigEndian(a), 8 * |a|);
      ShiftedOut(BigEndian(b), 8 * |b|);
    } else {
      var x, y, w := BigEndian(a[1..]), BigEndian(b[1..]), 8 * |a[1..]|;
      BigEndianFits(a[1..]);
      BigEndianFits(b[1..]);
      if bits <= 8 {
        FirstByteDecides(a[0], b[0], x, y, w, bits);
        assert 8 * |a| - bits == w + 8 - bits;
      } else {
        MaskLoopIsPrefix(a[1..], b[1..], bits - 8);
        FirstByteWhole(a[0], b[0], x, y, w, 8 * |a| - bits);
        assert 8 * |a[1..]| - (bits - 8) == 8 * |a| - bits;
      }
    }
  }

  lemma ShiftedOut(v: nat, k: nat)
    requires v < Pow2(k)
    ensures ShiftRight(v, k) == 0
  {
    QuotientUnique(v, Pow2(k), 0);
  }

  function FamilyOf(bytes: seq<octet>): Family {
    if |bytes| == 4 then V4 else V6
  }

  /** The byte-mask matcher and the big-integer range test agree, for either address length and any prefix. */
  lemma MatcherAgreesWithRange(host: seq<octet>, e: CidrEntry)
    requires |host| == 4 || |host| == 16
    requires |e.bytes| == 4 || |e.bytes| == 16
    requires e.bits <= 8 * |e.bytes|
    ensures EntryMatches(host, e)
         <==> InRange(Address(FamilyOf(host), BigEndian(host)),
                      BlockOf(Address(FamilyOf(e.bytes), BigEndian(e.bytes)), e.bits))
  {
    hide MaskedEqual, BigEndian, ShiftRight, BlockOf;
    BlockIsPrefix(Address(FamilyOf(e.bytes), BigEndian(e.bytes)), e.bits, Address(FamilyOf(host), BigEndian(host)));
    if |e.bytes| == |host| {
      MaskLoopIsPrefix(e.bytes, host, e.bits);
    }
  }

  // ----- address text to bytes

  function NonEmpty(parts: seq<string>): seq<string> {
    if parts == [] then []
    else (if parts[0] != "" then [parts[0]] else []) + NonEmpty(parts[1..])
  }

  /** `/(\d+\.\d+\.\d+\.\d+)$/`, anchored at both ends. */
  predicate QuadShaped(t: string) {
    var parts := Split(t, '.');
    |parts| == 4 && forall i :: 0 <= i < 4 ==> parts[i] != "" && AllDigits(parts[i])
  }

  /** Where the leftmost match of the tail expression starts. */
  function QuadTail(host: string, i: nat): (r: Option<nat>)
    ensures r.Some? ==> i <= r.value < |host| && QuadShaped(host[r.value..])
    decreases |host| - i
  {
    if i >= |host| then None else if QuadShaped(host[i..]) then Some(i) else QuadTail(host, i + 1)
  }

  /** Two octets as one group; octets of a literal `net.isIP` accepts are below 256, so `<< 8 |` is this sum. */
  function QuadPair(a: string, b: string): nat
    requires AllDigits(a) && AllDigits(b)
  {
    DecimalValue(a) * 0x100 + DecimalValue(b)
  }

  function ExpandQuad(host: string): string {
    match QuadTail(host, 0)
    case None => host
    case Some(i) =>
      var q := Split(host[i..], '.');
      host[..i] + HexText(QuadPair(q[0], q[1])) + ":" + HexText(QuadPair(q[2], q[3]))
  }

  function HexPrefix(g: string): (n: nat)
    ensures n <= |g| && forall i :: 0 <= i < n ==> IsHex(g[i])
  {
    if g == "" || !IsHex(g[0]) then 0 else 1 + HexPrefix(g[1..])
  }

  /** `parseInt(g, 16)` on text with no sign, blank or `0x` in front; `None` is `NaN`. */
  function ParseHex(g: string): Option<nat> {
    if HexPrefix(g) == 0 then None else Some(HexValue(g[..HexPrefix(g)]))
  }

  /** Two bytes for each group, most significant first. */
  function GroupBytes(groups: seq<string>): Option<seq<octet>> {
    if groups == [] then Some([])
    else
      match (GroupBytes(groups[..|groups| - 1]), ParseHex(groups[|groups| - 1]))
      case (Some(bytes), Some(v)) => Some(bytes + [v / 0x100 % 0x100, v % 0x100])
      case _ => None
  }

  function SixGroups(host: string): Option<seq<string>> {
    var text := ExpandQuad(host);
    var pairs := SplitPairs(text);
    var head := NonEmpty(SplitGroups(pairs[0]));
    var tail := if |pairs| > 1 then NonEmpty(SplitGroups(pairs[1])) else [];
    if |head| + |tail| > 8 then None
    else
      var groups := head + (if |pairs| > 1 then Zeros(8 - |head| - |tail|) else []) + tail;
      if |groups| != 8 then None else Some(groups)
  }

  /** `host.split(".").map(Number)`; a part that is no octet cannot come from a literal `net.isIP` accepts. */
  function QuadBytes(parts: seq<string>, number: NumberOf): Option<seq<octet>> {
    if parts == [] then Some([])
    else
      match (QuadBytes(parts[..|parts| - 1], number), number(parts[|parts| - 1]))
      case (Some(bytes), Some(v)) => if 0 <= v < 256 then Some(bytes + [v]) else None
      case _ => None
  }

  function HostBytes(host: string, p: Platform): Option<seq<octet>> {
    if p.isIp(host) == 4 then QuadBytes(Split(host, '.'), p.number)
    else if p.isIp(host) != 6 then None
    else
      match SixGroups(host)
      case None => None
      case Some(groups) => GroupBytes(groups)
  }

  method IpToBytes(host: string, p: Platform) returns (r: Option<seq<octet>>)
    ensures r == HostBytes(host, p)
  {
    hide SixGroups, ParseHex, Split;
    var family := p.isIp(host);
    if family == 4 {
      r := QuadBytes(Split(host, '.'), p.number);
      return;
    }
    if family != 6 {
      return None;
    }
    var groups := SixGroups(host);
    if groups.None? {
      return None;
    }
    var gs := groups.value;
    var bytes: seq<octet> := [];
    var i := 0;
    while i < |gs|
      invariant 0 <= i <= |gs| && GroupBytes(gs[..i]) == Some(bytes)
    {
      assert gs[..i + 1][..i] == gs[..i];
      var v := ParseHex(gs[i]);
      if v.None? {
        GroupBytesFail(gs, i);
        return None;
      }
      bytes := bytes + [v.value / 0x100 % 0x100, v.value % 0x100];
      i := i + 1;
    }
    assert gs[..i] == gs;
    return Some(bytes);
  }

  lemma {:induction false} GroupBytesFail(gs: seq<string>, i: nat)
    requires i < |gs| && ParseHex(gs[i]).None?
    ensures GroupBytes(gs).None?
  {
    hide ParseHex;
    if i < |gs| - 1 {
      GroupBytesFail(gs[..|gs| - 1], i);
    }
  }

  /** One NO_PROXY token as a CIDR entry, or none. */
  function EntryOfToken(token: string, p: Platform): Option<CidrEntry> {
    var entry := Trim(token);
    if '/' !in entry then None
    else
      var parts := Split(entry, '/');
      if |parts| < 2 then None
      else
        match (HostBytes(parts[0], p), p.number(parts[1]))
        case (Some(bytes), Some(bits)) =>
          if bits < 0 || bits > |bytes| * 8 then None else Some(CidrEntry(bytes, bits))
        case _ => None
  }

  function EntriesOfTokens(tokens: seq<string>, p: Platform): seq<CidrEntry> {
    if tokens == [] then []
    else
      EntriesOfTokens(tokens[..|tokens| - 1], p) +
      (match EntryOfToken(tokens[|tokens| - 1], p)
       case None => []
       case Some(e) => [e])
  }

  method ParseNoProxyCidrs(raw: string, p: Platform) returns (out: seq<CidrEntry>)
    ensures out == EntriesOfTokens(Split(raw, ','), p)
  {
    hide HostBytes, Split, Trim;
    var tokens := Split(raw, ',');
    out := [];
    var i := 0;
    while i < |tokens|
      invariant 0 <= i <= |tokens| && out == EntriesOfTokens(tokens[..i], p)
    {
      assert tokens[..i + 1][..i] == tokens[..i];
      var entry := Trim(tokens[i]);
      i := i + 1;
      if '/' !in entry {
        continue;
      }
      var parts := Split(entry, '/');
      if |parts| < 2 {
        continue;
      }
      var bytes := IpToBytes(parts[0], p);
      var bits := p.number(parts[1]);
      if bytes.None? || bits.None? || bits.value < 0 || bits.value > |bytes.value| * 8 {
        continue;
      }
      out := out + [CidrEntry(bytes.value, bits.value)];
    }
    assert tokens[..i] == tokens;
  }

  predicate HostMatches(host: string, entries: seq<CidrEntry>, p: Platform) {
    match HostBytes(host, p)
    case None => false
    case Some(bytes) => exists i :: 0 <= i < |entries| && EntryMatches(bytes, entries[i])
  }

  method HostInNoProxyCidr(host: string, entries: seq<CidrEntry>, p: Platform) returns (r: bool)
    ensures r == HostMatches(host, entries, p)
  {
    hide HostBytes, EntryMatches;
    var hostBytes := IpToBytes(host, p);
    if hostBytes.None? {
      return false;
    }
    var i := 0;
    while i < |entries|
      invariant 0 <= i <= |entries| && forall k :: 0 <= k < i ==> !EntryMatches(hostBytes.value, entries[k])
    {
      var matched := MatchesEntry(hostBytes.value, entries[i]);
      if matched {
        return true;
      }
      i := i + 1;
    }
    return false;
  }

  // ----- both implementations read the same literals the same way

  /** An address literal: a dotted quad, or a spelling of an IPv6 address with or without a zone id. */
  datatype Literal = Quad(text: string) | Six(spelling: Spelling, zone: Option<string>)

  /** A quad with no blanks around it. */
  predicate StrictQuad(q: string) { IsIpv4(q) && Trim(q) == q }

  ghost predicate StrictSpelling(s: Spelling) {
    ValidSpelling(s) && (s.quad.Some? ==> StrictQuad(s.quad.value))
  }

  /** A zone id has no separator in it, no blank at its end, and does not end in a dotted quad itself. */
  predicate IsZone(z: string) {
    ':' !in z && '/' !in z && ',' !in z && (z != "" ==> !IsBlank(z[|z| - 1])) && QuadTail(z, 0).None?
  }

  ghost predicate ValidLiteral(l: Literal) {
    match l
    case Quad(q) => StrictQuad(q)
    case Six(s, zone) => StrictSpelling(s) && (zone.Some? ==> IsZone(zone.value))
  }

  function Zoned(text: string, z: string): string { text + ("%" + z) }

  function TextOf(l: Literal): string {
    match l
    case Quad(q) => q
    case Six(s, None) => SpellingText(s)
    case Six(s, Some(z)) => Zoned(SpellingText(s), z)
  }

  /** The address a literal stands for, whatever its zone. */
  function ValueOf(l: Literal): nat
    requires ValidLiteral(l)
  {
    match l
    case Quad(q) => Ipv4Value(q)
    case Six(s, _) => SpellingValue(s)
  }

  function LiteralFamily(l: Literal): Family {
    if l.Quad? then V4 else V6
  }

  /** `net.isIP` gives this literal its family or refuses it, and `Number` reads runs of digits in decimal. */
  ghost predicate Understands(p: Platform, l: Literal) {
    (p.isIp(TextOf(l)) == 0 || p.isIp(TextOf(l)) == (if l.Quad? then 4 else 6)) &&
    forall d: string :: d != "" && AllDigits(d) ==> p.number(d) == Some(DecimalValue(d))
  }

  /** The leading number of a quad, digits that also make a group. */
  function FirstPart(q: string): (g: string)
    requires StrictQuad(q)
    ensures IsGroup(g)
  {
    var g := Split(q, '.')[0];
    assert IsOctet(g);
    g
  }

  /**
   What the matcher makes of an IPv6 literal. A zone id sticks to the last group and is cut off by `parseInt`; right
   after `::` there is no group to cut, and a quad that is no longer at the end of the text is a single group, of which
   only the digits before its first dot are read, as hexadecimal.
   */
  function ReadAs(s: Spelling, zone: Option<string>): (r: Option<Spelling>)
    requires StrictSpelling(s)
    ensures r.Some? ==> StrictSpelling(r.value)
  {
    if zone.None? then Some(s)
    else if s.quad.Some? then
      if s.compressed then Some(Spelling(s.head, true, s.rest + [FirstPart(s.quad.value)], None)) else None
    else if s.compressed && s.rest == [] then None
    else Some(s)
  }

  /** The address the matcher reads, if any. */
  function Reading(l: Literal, p: Platform): Option<Address>
    requires ValidLiteral(l)
  {
    if p.isIp(TextOf(l)) == 0 then None
    else
      match l
      case Quad(q) => Some(Address(V4, Ipv4Value(q)))
      case Six(s, zone) =>
        match ReadAs(s, zone)
        case None => None
        case Some(r) => Some(Address(V6, SpellingValue(r)))
  }

  lemma ShiftDigit(a: nat, p: nat, b: nat, x: nat)
    ensures a * (p * 0x100) + (b * 0x100 + x) == (a * p + b) * 0x100 + x
  {
  }

  lemma {:induction false} BigEndianAppend(bytes: seq<octet>, x: octet)
    ensures BigEndian(bytes + [x]) == BigEndian(bytes) * 0x100 + x
  {
    if bytes == [] {
      assert bytes + [x] == [x];
      assert Pow2(0) == 1;
    } else {
      var w := 8 * |bytes[1..]|;
      assert (bytes + [x])[1..] == bytes[1..] + [x];
      BigEndianAppend(bytes[1..], x);
      Pow2Split(w, 8);
      PowersOfTwo();
      hide Pow2;
      assert 8 * |(bytes + [x])[1..]| == w + 8;
      ShiftDigit(bytes[0], Pow2(w), BigEndian(bytes[1..]), x);
    }
  }

  lemma {:induction false} HexPrefixWhole(g: string)
    requires forall i :: 0 <= i < |g| ==> IsHex(g[i])
    ensures HexPrefix(g) == |g|
  {
    if g != "" {
      HexPrefixWhole(g[1..]);
    }
  }

  lemma GroupParses(g: string)
    requires IsGroup(g)
    ensures ParseHex(g) == Some(HexValue(g)) && HexValue(g) < 0x1_0000
  {
    HexPrefixWhole(g);
    HexValueFits(g);
    assert g[..|g|] == g;
  }

  lemma TwoBytes(v: nat, bytes: seq<octet>)
    requires v < 0x1_0000
    ensures BigEndian(bytes + [v / 0x100 % 0x100, v % 0x100]) == BigEndian(bytes) * 0x1_0000 + v
  {
    var hi: octet, lo: octet := v / 0x100 % 0x100, v % 0x100;
    BigEndianAppend(bytes, hi);
    BigEndianAppend(bytes + [hi], lo);
    assert bytes + [hi, lo] == bytes + [hi] + [lo];
  }

  /** Good groups become bytes with the same value. */
  lemma {:induction false} GroupBytesValue(gs: seq<string>)
    requires AllGroups(gs)
    ensures GroupBytes(gs).Some? && |GroupBytes(gs).value| == 2 * |gs|
    ensures BigEndian(GroupBytes(gs).value) == GroupsValue(gs)
  {
    hide HexValue, ParseHex, IsHex;
    if gs == [] {
    } else {
      var front, last := gs[..|gs| - 1], gs[|gs| - 1];
      GroupBytesValue(front);
      GroupParses(last);
      TwoBytes(HexValue(last), GroupBytes(front).value);
    }
  }

  lemma {:induction false} NonEmptyPlain(gs: seq<string>)
    requires PlainGroups(gs)
    ensures NonEmpty(gs) == gs
  {
    if gs != [] {
      NonEmptyPlain(gs[1..]);
      assert gs == [gs[0]] + gs[1..];
    }
  }

  lemma {:induction false} JoinCharacters(parts: seq<string>, sep: char, c: char)
    requires c in Join(parts, sep) && c != sep
    ensures exists i :: 0 <= i < |parts| && c in parts[i]
  {
    if |parts| > 1 && c !in parts[0] {
      JoinCharacters(parts[1..], sep, c);
      var i :| 0 <= i < |parts[1..]| && c in parts[1..][i];
      assert c in parts[i + 1];
    } else {
      assert c in parts[0];
    }
  }

  /** Digits and dots only. */
  lemma QuadCharacters(t: string, c: char)
    requires QuadShaped(t) && c in t
    ensures IsDigit(c) || c == '.'
  {
    JoinSplit(t, '.');
    var parts := Split(t, '.');
    if c != '.' {
      JoinCharacters(parts, '.', c);
    }
  }

  lemma StrictQuadShaped(q: string)
    requires StrictQuad(q)
    ensures QuadShaped(q) && q != "" && (forall c :: c in q ==> IsDigit(c) || c == '.')
    ensures var parts := Split(q, '.');
            QuadPair(parts[0], parts[1]) == Ipv4Value(q) / 0x1_0000 &&
            QuadPair(parts[2], parts[3]) == Ipv4Value(q) % 0x1_0000
  {
    var parts := Split(q, '.');
    assert IsOctet(parts[0]) && IsOctet(parts[1]) && IsOctet(parts[2]) && IsOctet(parts[3]);
    forall c | c in q ensures IsDigit(c) || c == '.' {
      QuadCharacters(q, c);
    }
    QuadHasDot(q);
  }

  /** No colon is inside a match, so the leftmost match starts right after the last colon. */
  lemma {:induction false} TailAfterColon(p: string, q: string, i: nat)
    requires p != "" && p[|p| - 1] == ':' && QuadShaped(q) && q != "" && i <= |p|
    ensures QuadTail(p + q, i) == Some(|p|)
    decreases |p| - i
  {
    if i < |p| {
      var t := (p + q)[i..];
      assert t[|p| - 1 - i] == ':';
      if QuadShaped(t) {
        QuadCharacters(t, ':');
        assert false;
      }
      TailAfterColon(p, q, i + 1);
    } else {
      assert (p + q)[|p|..] == q;
    }
  }

  lemma {:induction false} NoTail(host: string, i: nat)
    requires '.' !in host
    ensures QuadTail(host, i) == None
    decreases |host| - i
  {
    if i < |host| {
      assert '.' !in host[i..];
      SplitWhole(host[i..], '.');
      NoTail(host, i + 1);
    }
  }

  /** The proxy module's tail rewriting does what the other parser's does. */
  lemma ExpandQuadSpelling(s: Spelling)
    requires StrictSpelling(s)
    ensures ExpandQuad(SpellingText(s)) == SpellingText(Expanded(s))
  {
    hide IsIpv4, Ipv4Value, HexText, IsGroup, Join, QuadShaped, QuadTail, Split;
    if s.quad.None? {
      JoinNoDot(s.head);
      JoinNoDot(s.rest);
      NoMore(s.head);
      NoMore(s.rest);
      NoTail(SpellingText(s), 0);
    } else {
      var q, p := s.quad.value, BeforeTail(s);
      TailViews(s);
      StrictQuadShaped(q);
      TailAfterColon(p, q, 0);
      var g := QuadGroups(q);
      assert (p + q)[|p|..] == q && (p + q)[..|p|] == p;
      assert p + g[0] + ":" + g[1] == p + (g[0] + ":" + g[1]);
    }
  }

  lemma SixGroupsSpelling(s: Spelling)
    requires StrictSpelling(s)
    ensures ValidSpelling(Expanded(s))
    ensures var e := Expanded(s); SixGroups(SpellingText(s)) == Some(e.head + Zeros(8 - Width(e)) + e.rest)
  {
    hide IsIpv4, IsGroup, Join, ExpandQuad, SplitPairs, SplitGroups, Ipv4Value, HexText, SpellingValue, NonEmpty, Zeros;
    var e := Expanded(s);
    ExpandQuadSpelling(s);
    ExpandedValid(s);
    GroupsArePlain(e.head);
    GroupsArePlain(e.rest);
    SplitGroupsJoin(e.head);
    SplitGroupsJoin(e.rest);
    NonEmptyPlain(e.head);
    NonEmptyPlain(e.rest);
    NoMore(e.head);
    NoMore(e.rest);
    if e.compressed {
      CompressedGroups(e.head, e.rest);
    } else {
      FullGroups(e.head);
      assert e.head + [] + [] == e.head + Zeros(0) + [];
    }
  }

  lemma QuadBytesValue(q: string, number: NumberOf)
    requires StrictQuad(q) && forall d: string :: d != "" && AllDigits(d) ==> number(d) == Some(DecimalValue(d))
    ensures QuadBytes(Split(q, '.'), number).Some?
    ensures |QuadBytes(Split(q, '.'), number).value| == 4
    ensures BigEndian(QuadBytes(Split(q, '.'), number).value) == Ipv4Value(q)
  {
    hide BigEndian;
    var parts := Split(q, '.');
    assert IsOctet(parts[0]) && IsOctet(parts[1]) && IsOctet(parts[2]) && IsOctet(parts[3]);
    var a: octet, b: octet := DecimalValue(parts[0]), DecimalValue(parts[1]);
    var c: octet, d: octet := DecimalValue(parts[2]), DecimalValue(parts[3]);
    assert parts[..3][..2] == parts[..2] && parts[..2][..1] == parts[..1] && parts[..1][..0] == [];
    assert QuadBytes(parts[..1], number) == Some([] + [a]);
    assert QuadBytes(parts[..2], number) == Some([] + [a] + [b]);
    assert QuadBytes(parts[..3], number) == Some([] + [a] + [b] + [c]);
    assert QuadBytes(parts, number) == Some([] + [a] + [b] + [c] + [d]);
    BigEndianNothing();
    BigEndianAppend([], a);
    BigEndianAppend([] + [a], b);
    BigEndianAppend([] + [a] + [b], c);
    BigEndianAppend([] + [a] + [b] + [c], d);
  }

  lemma BigEndianNothing()
    ensures BigEndian([]) == 0
  {
  }

  // ----- a zone id in the matcher

  lemma {:induction false} NoTailFrom(z: string, i: nat, j: nat)
    requires i <= j < |z| && QuadTail(z, i).None?
    ensures !QuadShaped(z[j..])
    decreases j - i
  {
    if i < j {
      NoTailFrom(z, i + 1, j);
    }
  }

  /** No match reaches back over the percent sign. */
  lemma {:induction false} NoTailZoned(a: string, z: string, i: nat)
    requires QuadTail(z, 0).None?
    ensures QuadTail(Zoned(a, z), i) == None
    decreases |Zoned(a, z)| - i
  {
    var t := Zoned(a, z);
    if i < |t| {
      if i <= |a| {
        assert t[i..][|a| - i] == '%';
        if QuadShaped(t[i..]) {
          QuadCharacters(t[i..], '%');
          assert false;
        }
      } else {
        assert t[i..] == z[i - |a| - 1..];
        NoTailFrom(z, 0, i - |a| - 1);
      }
      NoTailZoned(a, z, i + 1);
    }
  }

  /** The groups with a zone id behind them, which has to go somewhere. */
  function WithZone(gs: seq<string>, z: string): (r: seq<string>)
    ensures |r| == if gs == [] then 1 else |gs|
  {
    if gs == [] then ["%" + z] else gs[..|gs| - 1] + [Zoned(gs[|gs| - 1], z)]
  }

  lemma {:induction false} JoinZoned(gs: seq<string>, z: string)
    ensures Zoned(Join(gs, ':'), z) == Join(WithZone(gs, z), ':')
  {
    if |gs| <= 1 {
    } else {
      JoinZoned(gs[1..], z);
      assert WithZone(gs, z)[1..] == WithZone(gs[1..], z);
      assert gs[0] + [':'] + Join(gs[1..], ':') + ("%" + z) == gs[0] + [':'] + (Join(gs[1..], ':') + ("%" + z));
    }
  }

  lemma PlainZoned(gs: seq<string>, z: string)
    requires PlainGroups(gs) && ':' !in z
    ensures PlainGroups(WithZone(gs, z))
  {
  }

  /** The groups the matcher finds in a literal with a zone id. */
  function ZonedGroups(s: Spelling, z: string): Option<seq<string>> {
    if s.compressed then
      var rest := WithZone(s.rest + QuadPart(s), z);
      if |s.head| + |rest| > 8 then None else Some(s.head + Zeros(8 - |s.head| - |rest|) + rest)
    else
      var head := WithZone(s.head + QuadPart(s), z);
      if |head| != 8 then None else Some(head)
  }

  lemma PartsArePlain(s: Spelling)
    requires StrictSpelling(s)
    ensures PlainGroups(s.head) && PlainGroups(s.rest + QuadPart(s)) && PlainGroups(s.head + QuadPart(s))
    ensures !s.compressed ==> s.head != []
  {
    GroupsArePlain(s.head);
    GroupsArePlain(s.rest);
    if s.quad.Some? {
      QuadHasDot(s.quad.value);
    }
  }

  lemma SixGroupsZoned(s: Spelling, z: string)
    requires StrictSpelling(s) && IsZone(z)
    ensures SixGroups(Zoned(SpellingText(s), z)) == ZonedGroups(s, z)
  {
    hide IsIpv4, IsGroup, Join, SplitPairs, SplitGroups, QuadTail, NonEmpty, Zeros, WithZone, ValidSpelling, NoPair,
         PlainGroups, Zoned;
    var t := Zoned(SpellingText(s), z);
    NoTailZoned(SpellingText(s), z, 0);
    PartsArePlain(s);
    if s.compressed {
      var rest := WithZone(s.rest + QuadPart(s), z);
      PlainZoned(s.rest + QuadPart(s), z);
      ZonedCompressed(s, z);
      SplitGroupsJoin(s.head);
      SplitGroupsJoin(rest);
      NonEmptyPlain(s.head);
      NonEmptyPlain(rest);
      PairsOf(s.head, rest);
    } else {
      var head := WithZone(s.head + QuadPart(s), z);
      PlainZoned(s.head + QuadPart(s), z);
      JoinZoned(s.head + QuadPart(s), z);
      JoinPlain(head);
      SplitPairsNone(Join(head, ':'));
      SplitGroupsJoin(head);
      NonEmptyPlain(head);
      assert head + [] + [] == head;
    }
  }

  lemma ZonedCompressed(s: Spelling, z: string)
    requires s.compressed
    ensures Zoned(SpellingText(s), z) == Join(s.head, ':') + "::" + Join(WithZone(s.rest + QuadPart(s), z), ':')
  {
    hide Join;
    JoinZoned(s.rest + QuadPart(s), z);
    var a, b := Join(s.head, ':'), Join(s.rest + QuadPart(s), ':');
    assert a + "::" + b + ("%" + z) == a + "::" + (b + ("%" + z));
  }

  lemma PairsOf(head: seq<string>, rest: seq<string>)
    requires PlainGroups(head) && PlainGroups(rest)
    ensures SplitPairs(Join(head, ':') + "::" + Join(rest, ':')) == [Join(head, ':'), Join(rest, ':')]
  {
    JoinPlain(head);
    assert Join([], ':') == "";
    hide Join, SplitPairs, NoPair, PlainGroups;
    JoinPlain(rest);
    SplitPairsAt(Join(head, ':'), Join(rest, ':'));
    SplitPairsNone(Join(rest, ':'));
  }

  lemma {:induction false} HexPrefixStops(g: string, x: string)
    requires (forall i :: 0 <= i < |g| ==> IsHex(g[i])) && x != "" && !IsHex(x[0])
    ensures HexPrefix(g + x) == |g|
  {
    if g != "" {
      assert (g + x)[1..] == g[1..] + x;
      HexPrefixStops(g[1..], x);
    } else {
      assert g + x == x;
    }
  }

  /** `parseInt` reads a group up to what is stuck to it. */
  lemma ParseStops(g: string, x: string)
    requires IsGroup(g) && x != "" && !IsHex(x[0])
    ensures ParseHex(g + x) == Some(HexValue(g)) == ParseHex(g)
  {
    HexPrefixStops(g, x);
    GroupParses(g);
    assert (g + x)[..|g|] == g;
  }

  lemma ParseQuad(q: string, z: string)
    requires StrictQuad(q)
    ensures ParseHex(Zoned(q, z)) == ParseHex(FirstPart(q))
  {
    var parts := Split(q, '.');
    JoinSplit(q, '.');
    var x := ['.'] + Join(parts[1..], '.') + ("%" + z);
    assert Zoned(q, z) == parts[0] + x;
    ParseStops(FirstPart(q), x);
  }

  /** Groups that differ in the last only, and there only in what `parseInt` ignores, make the same bytes. */
  lemma SameBytes(gs: seq<string>, hs: seq<string>)
    requires |gs| == |hs| > 0 && gs[..|gs| - 1] == hs[..|hs| - 1]
    requires ParseHex(gs[|gs| - 1]) == ParseHex(hs[|hs| - 1])
    ensures GroupBytes(gs) == GroupBytes(hs)
  {
  }

  lemma EightWithLast(a: seq<string>, b: seq<string>, front: seq<string>, last: string)
    requires |a| + |b| + |front| == 7
    ensures var gs := a + b + (front + [last]);
            |gs| == 8 && gs[..7] == a + b + front && gs[7] == last
  {
  }

  /** The groups found and the groups of the spelling read differ in the last only. */
  lemma ZonedShape(s: Spelling, z: string)
    requires StrictSpelling(s) && ReadAs(s, Some(z)).Some?
    ensures var r, groups := ReadAs(s, Some(z)).value, ZonedGroups(s, z);
            var hs := r.head + Zeros(8 - Width(r)) + r.rest;
            && groups.Some? && |groups.value| == |hs| == 8 && groups.value[..7] == hs[..7]
            && if s.quad.Some? then groups.value[7] == Zoned(s.quad.value, z) && hs[7] == FirstPart(s.quad.value)
               else groups.value[7] == Zoned(hs[7], z) && IsGroup(hs[7])
  {
    hide IsIpv4, IsGroup, Zeros, Zoned, Trim, Split, FirstPart;
    var r := ReadAs(s, Some(z)).value;
    var zeros := Zeros(8 - Width(r));
    if s.quad.Some? {
      var q := s.quad.value;
      assert WithZone(s.rest + QuadPart(s), z) == s.rest + [Zoned(q, z)];
      EightWithLast(s.head, zeros, s.rest, Zoned(q, z));
      EightWithLast(s.head, zeros, s.rest, FirstPart(q));
    } else if s.compressed {
      var front, last := s.rest[..|s.rest| - 1], s.rest[|s.rest| - 1];
      NoMore(s.rest);
      assert s.rest == front + [last];
      EightWithLast(s.head, zeros, front, last);
      EightWithLast(s.head, zeros, front, Zoned(last, z));
    } else {
      NoMore(s.head);
      assert s.head + zeros + s.rest == s.head;
    }
  }

  /** A literal with a zone id makes the bytes of the spelling it is read as. */
  lemma ZonedBytes(s: Spelling, z: string)
    requires StrictSpelling(s) && IsZone(z)
    ensures var r, groups := ReadAs(s, Some(z)), ZonedGroups(s, z);
            if r.None? then groups.None? || GroupBytes(groups.value).None?
            else groups.Some? &&
                 GroupBytes(groups.value)
                   == GroupBytes(r.value.head + Zeros(8 - Width(r.value)) + r.value.rest)
  {
    hide IsGroup, IsIpv4, IsZone, GroupBytes, ParseHex, HexValue, FirstPart, Trim, Split;
    var r, groups := ReadAs(s, Some(z)), ZonedGroups(s, z);
    if r.Some? {
      hide ZonedGroups, ReadAs;
      ZonedShape(s, z);
      var hs := r.value.head + Zeros(8 - Width(r.value)) + r.value.rest;
      if s.quad.Some? {
        ParseQuad(s.quad.value, z);
      } else {
        ParseStops(hs[7], "%" + z);
      }
      SameBytes(groups.value, hs);
    } else if groups.Some? {
      LastFails(groups.value, z);
    }
  }

  lemma LastFails(gs: seq<string>, z: string)
    requires gs != [] && gs[|gs| - 1] == "%" + z
    ensures GroupBytes(gs).None?
  {
    GroupBytesFail(gs, |gs| - 1);
  }

  /** The bytes of a literal are the address the matcher reads, most significant byte first. */
  lemma LiteralBytes(l: Literal, p: Platform)
    requires ValidLiteral(l) && Understands(p, l)
    ensures var a, b := Reading(l, p), HostBytes(TextOf(l), p);
            if a.None? then b.None?
            else b.Some? && |b.value| == (if l.Quad? then 4 else 16) && FamilyOf(b.value) == a.value.family &&
                 BigEndian(b.value) == a.value.value
  {
    hide BigEndian, QuadBytes, Split, IsIpv4, SpellingText, SpellingValue, GroupBytes, SixGroups, Zeros, GroupsValue,
         IsGroup, IsZone, Zoned, ZonedGroups, ValidSpelling;
    match l
    case Quad(q) => QuadBytesValue(q, p.number);
    case Six(s, None) =>
      SixGroupsSpelling(s);
      ExpandedValid(s);
      SpellingBytes(Expanded(s));
    case Six(s, Some(z)) =>
      SixGroupsZoned(s, z);
      ZonedBytes(s, z);
      if ReadAs(s, l.zone).Some? {
        SpellingBytes(ReadAs(s, l.zone).value);
      }
  }

  lemma SpellingBytes(e: Spelling)
    requires ValidSpelling(e) && e.quad.None?
    ensures var b := GroupBytes(e.head + Zeros(8 - Width(e)) + e.rest);
            b.Some? && |b.value| == 16 && BigEndian(b.value) == SpellingValue(e)
  {
    hide BigEndian, SpellingValue, GroupBytes, Zeros, GroupsValue, IsGroup;
    PlainValue(e);
    GroupBytesValue(e.head + Zeros(8 - Width(e)) + e.rest);
  }

  /** An IPv6 literal the big-integer parser files under IPv4: `::ffff:a.b.c.d`. */
  ghost predicate Mapped(l: Literal)
    requires ValidLiteral(l)
  {
    l.Six? && ValueOf(l) / 0x1_0000_0000 == V4_MAPPED_HIGH
  }

  lemma SpellingCharacters(s: Spelling)
    requires StrictSpelling(s)
    ensures forall c :: c in SpellingText(s) ==> IsAddressCharacter(c)
  {
    JoinGroupChars(s.head);
    JoinGroupChars(s.rest);
    NoMore(s.head);
    NoMore(s.rest);
    hide Join, IsGroup, IsIpv4, QuadShaped;
    if s.quad.Some? {
      TailViews(s);
      StrictQuadShaped(s.quad.value);
    }
  }

  lemma LiteralCharacters(l: Literal)
    requires ValidLiteral(l)
    ensures '/' !in TextOf(l) && ',' !in TextOf(l) && Trim(TextOf(l)) == TextOf(l) && TextOf(l) != ""
    ensures l.Six? ==> ':' in TextOf(l) && DropZone(TextOf(l)) == SpellingText(l.spelling)
  {
    hide IsIpv4, Ipv4Value, QuadShaped, SpellingText, Trim, DropZone, StrictQuad, IsBlank, QuadTail, ValidSpelling;
    match l {
      case Quad(q) =>
        StrictQuadShaped(q);
        AddressTextUnchanged(q);
        AddressTextFree(q);
      case Six(s, zone) =>
        var a := SpellingText(s);
        SpellingCharacters(s);
        SpelledColon(s);
        AddressTextUnchanged(a);
        AddressTextFree(a);
        if zone.Some? {
          ZoneDropped(a, zone.value);
        }
    }
  }

  lemma AddressTextFree(t: string)
    requires forall c :: c in t ==> IsAddressCharacter(c)
    ensures '/' !in t && ',' !in t && '%' !in t && forall c :: c in t ==> !IsBlank(c)
  {
    hide IsBlank, IsAddressCharacter;
    forall c | c in t ensures c != '/' && c != ',' && c != '%' && !IsBlank(c) {
      AddressCharacter(c);
    }
  }

  lemma ZoneDropped(a: string, z: string)
    requires a != "" && '%' !in a && (forall c :: c in a ==> !IsBlank(c)) && (z != "" ==> !IsBlank(z[|z| - 1]))
    ensures DropZone(Zoned(a, z)) == a && Trim(Zoned(a, z)) == Zoned(a, z)
  {
    var t := Zoned(a, z);
    assert t[|a|] == '%' && t[0] == a[0] && a[0] in a;
    assert t[|t| - 1] == if z == "" then '%' else z[|z| - 1];
    var i := IndexOf(t, '%');
    assert forall k :: 0 <= k < |a| ==> t[k] == a[k] && a[k] in a;
    assert forall k :: 0 <= k < i ==> t[..i][k] == t[k];
    assert t[..|a|] == a;
    TrimBare(t);
  }

  lemma ColonIsNoQuad(t: string)
    requires ':' in t && Trim(t) == t
    ensures !IsIpv4(t)
  {
    if IsIpv4(t) {
      StrictQuadShaped(t);
      assert false;
    }
  }

  lemma LiteralParses(l: Literal)
    requires ValidLiteral(l)
    ensures !Mapped(l) ==> ParsedIp(TextOf(l)) == Some(Address(LiteralFamily(l), ValueOf(l)))
    ensures Mapped(l) ==> ParsedIp(TextOf(l)) == Some(Address(V4, ValueOf(l) % 0x1_0000_0000))
  {
    hide IsIpv4, Ipv4Value, Ipv6Value, SpellingText, SpellingValue, Trim, DropZone, ValidSpelling;
    LiteralCharacters(l);
    if l.Six? {
      ColonIsNoQuad(TextOf(l));
      SpellingParses(TextOf(l), l.spelling);
    }
  }

  /** A CIDR as text: a literal, a slash and a prefix length. */
  function CidrText(base: Literal, bitsText: string): string { TextOf(base) + "/" + bitsText }

  /** Text that is one token and one trimmed entry, whose prefix length `Number` reads as `bits`. */
  ghost predicate PlainCidr(base: Literal, bitsText: string, bits: nat, p: Platform) {
    && ValidLiteral(base) && Understands(p, base)
    && ',' !in bitsText && '/' !in bitsText && Trim(CidrText(base, bitsText)) == CidrText(base, bitsText)
    && p.number(bitsText) == Some(bits) && bits <= WidthOf(LiteralFamily(base))
  }

  lemma CidrTextParts(base: Literal, bitsText: string)
    requires ValidLiteral(base) && ',' !in bitsText && '/' !in bitsText
    ensures var t := CidrText(base, bitsText);
            Split(t, ',') == [t] && Split(t, '/') == [TextOf(base), bitsText] && '/' in t &&
            LastIndexOf(t, '/') == |TextOf(base)| && t[..|TextOf(base)|] == TextOf(base) &&
            t[|TextOf(base)| + 1..] == bitsText
  {
    hide Trim, DropZone, LastIndexOf, ValidLiteral, Split, TextOf;
    LiteralCharacters(base);
    OneSlash(TextOf(base), bitsText);
  }

  /** A text with one slash and no comma, taken apart. */
  lemma OneSlash(b: string, rest: string)
    requires '/' !in b && ',' !in b && '/' !in rest && ',' !in rest
    ensures var t := b + "/" + rest;
            Split(t, ',') == [t] && Split(t, '/') == [b, rest] && '/' in t &&
            LastIndexOf(t, '/') == |b| && t[..|b|] == b && t[|b| + 1..] == rest
  {
    hide Split;
    var t := b + "/" + rest;
    SplitWhole(t, ',');
    SplitAt(b, '/', rest);
    SplitWhole(rest, '/');
    assert b + ['/'] + rest == t;
    assert t[|b|] == '/' && t[|b| + 1..] == rest;
  }

  /** The one entry a CIDR gives, or none when the matcher does not read its base. */
  lemma EntryOfCidr(base: Literal, bitsText: string, bits: nat, p: Platform)
    requires PlainCidr(base, bitsText, bits, p)
    ensures EntriesOfTokens(Split(CidrText(base, bitsText), ','), p)
         == match HostBytes(TextOf(base), p) {
              case None => []
              case Some(bytes) => [CidrEntry(bytes, bits)]
            }
  {
    hide ValidLiteral, HostBytes, Trim, Split, CidrText, BigEndian, ValueOf, Reading, TextOf;
    var t := CidrText(base, bitsText);
    CidrTextParts(base, bitsText);
    LiteralBytes(base, p);
    assert [t][..0] == [];
    assert EntriesOfTokens([], p) == [];
  }

  lemma RangeOfCidr(base: Literal, bitsText: string, bits: nat, p: Platform)
    requires PlainCidr(base, bitsText, bits, p) && !Mapped(base)
    ensures ParsedCidr(CidrText(base, bitsText), p.number)
         == Some(BlockOf(Address(LiteralFamily(base), ValueOf(base)), bits))
  {
    hide ValidLiteral, ParsedIp, Trim, LastIndexOf, CidrText, BlockOf, Mapped, ValueOf;
    CidrTextParts(base, bitsText);
    LiteralParses(base);
  }

  /** The address as it is written, zone aside. */
  function Plain(l: Literal): Address
    requires ValidLiteral(l)
  {
    Address(LiteralFamily(l), ValueOf(l))
  }

  predicate AsWritten(l: Literal, p: Platform)
    requires ValidLiteral(l)
  {
    Reading(l, p) == Some(Plain(l))
  }

  /**
   A literal is read as it is written if `net.isIP` takes it and there is no zone id, or one right behind a group.
   Otherwise the matcher reads nothing, except that a zone id behind a quad in a compressed literal makes it another
   address, possibly the same.
   */
  lemma AsWrittenWhen(l: Literal, p: Platform)
    requires ValidLiteral(l)
    ensures p.isIp(TextOf(l)) != 0 && (l.Six? && l.zone.Some? ==> l.spelling.quad.None? && !EndsInPair(l.spelling))
        ==> AsWritten(l, p)
    ensures Reading(l, p).None?
       <==> p.isIp(TextOf(l)) == 0 ||
            (l.Six? && l.zone.Some? &&
             (EndsInPair(l.spelling) || (l.spelling.quad.Some? && !l.spelling.compressed)))
  {
    hide TextOf, SpellingValue, Ipv4Value, IsZone;
  }

  /** The text ends in `::`. */
  predicate EndsInPair(s: Spelling) { s.compressed && s.rest == [] && s.quad.None? }

  /** Both addresses are read and the first lies in the block of the second. */
  ghost predicate Inside(a: Option<Address>, b: Option<Address>, bits: nat)
    requires b.Some? ==> bits <= WidthOf(b.value.family)
  {
    a.Some? && b.Some? && InRange(a.value, BlockOf(b.value, bits))
  }

  /** Whatever the literals, mapped or not, zoned or not, the matcher compares the two addresses that it reads. */
  lemma MatcherIsNumeric(host: Literal, base: Literal, bitsText: string, bits: nat, p: Platform)
    requires ValidLiteral(host) && Understands(p, host) && PlainCidr(base, bitsText, bits, p)
    ensures HostMatches(TextOf(host), EntriesOfTokens(Split(CidrText(base, bitsText), ','), p), p)
         <==> Inside(Reading(host, p), Reading(base, p), bits)
  {
    hide ValidLiteral, HostBytes, CidrText, ValueOf, EntryMatches, EntriesOfTokens, Split, BlockOf, BigEndian, InRange,
         Reading, TextOf;
    ReadingFamily(base, p);
    LiteralBytes(host, p);
    LiteralBytes(base, p);
    EntryOfCidr(base, bitsText, bits, p);
    if Reading(host, p).Some? && Reading(base, p).Some? {
      var e := CidrEntry(HostBytes(TextOf(base), p).value, bits);
      MatcherAgreesWithRange(HostBytes(TextOf(host), p).value, e);
      assert [e][0] == e;
    }
  }

  lemma ReadingFamily(l: Literal, p: Platform)
    requires ValidLiteral(l)
    ensures Reading(l, p).Some? ==> Reading(l, p).value.family == LiteralFamily(l)
  {
  }

  /**
   From text to verdict: for a literal host and a literal CIDR, neither IPv4-mapped and both read as they are written,
   the NO_PROXY matcher bypasses the proxy exactly when the big-integer range of the other module contains the host.
   */
  lemma ImplementationsAgree(host: Literal, base: Literal, bitsText: string, bits: nat, p: Platform)
    requires ValidLiteral(host) && Understands(p, host) && !Mapped(host) && AsWritten(host, p)
    requires PlainCidr(base, bitsText, bits, p) && !Mapped(base) && AsWritten(base, p)
    ensures ParsedIp(TextOf(host)).Some? && ParsedCidr(CidrText(base, bitsText), p.number).Some?
    ensures HostMatches(TextOf(host), EntriesOfTokens(Split(CidrText(base, bitsText), ','), p), p)
         <==> InRange(ParsedIp(TextOf(host)).value, ParsedCidr(CidrText(base, bitsText), p.number).value)
  {
    hide ValidLiteral, HostMatches, ParsedIp, ParsedCidr, CidrText, Mapped, ValueOf, EntriesOfTokens, Split, BlockOf,
         InRange, Reading, TextOf;
    MatcherIsNumeric(host, base, bitsText, bits, p);
    LiteralParses(host);
    RangeOfCidr(base, bitsText, bits, p);
  }

  // ----- exactly when they agree

  const LOW_BITS := 0x1_0000_0000

  /** Its last 32 bits as an IPv4 address: all of a quad, the embedded address of a mapped literal. */
  function Tail(l: Literal): Address
    requires ValidLiteral(l)
  {
    Address(V4, ValueOf(l) % LOW_BITS)
  }

  /** The big-integer module's answer, from text. */
  ghost predicate RangeContains(host: Literal, base: Literal, bitsText: string, p: Platform) {
    var range := ParsedCidr(CidrText(base, bitsText), p.number);
    ParsedIp(TextOf(host)).Some? && range.Some? && InRange(ParsedIp(TextOf(host)).value, range.value)
  }

  /** The matcher's answer, from text. */
  ghost predicate MatcherContains(host: Literal, base: Literal, bitsText: string, p: Platform) {
    HostMatches(TextOf(host), EntriesOfTokens(Split(CidrText(base, bitsText), ','), p), p)
  }

  /** Folding a mapped address to IPv4, as the big-integer module does. */
  ghost function Folded(l: Literal): Address
    requires ValidLiteral(l)
  {
    if Mapped(l) then Tail(l) else Plain(l)
  }

  /** The address of the host, folded, lies in the block of the base, folded, if there is such a block. */
  ghost predicate FoldedInside(host: Literal, base: Literal, bits: nat)
    requires ValidLiteral(host) && ValidLiteral(base)
  {
    bits <= WidthOf(Folded(base).family) && InRange(Folded(host), BlockOf(Folded(base), bits))
  }

  /**
   The pairs of literals read as they are written that the two modules disagree on. One side has to be mapped.
   - Both mapped: the matcher compares 128 bits, of which the first 96 agree; the other module compares 32, and takes no
     longer prefix.
   - One mapped, the other a quad: only the big-integer module compares them at all.
   - One mapped, the other another IPv6 literal: only the matcher does.
   */
  ghost predicate MappingDiffers(host: Literal, base: Literal, bits: nat)
    requires ValidLiteral(host) && ValidLiteral(base) && bits <= WidthOf(LiteralFamily(base))
  {
    if !Mapped(host) && !Mapped(base) then false
    else if Mapped(host) && Mapped(base) then
      if bits <= 32 then !InRange(Tail(host), BlockOf(Tail(base), bits))
      else bits <= 96 || InRange(Tail(host), BlockOf(Tail(base), bits - 96))
    else if host.Quad? || base.Quad? then bits <= 32 && InRange(Tail(host), BlockOf(Tail(base), bits))
    else InRange(Plain(host), BlockOf(Plain(base), bits))
  }

  /**
   All pairs the two modules disagree on: besides those, the pairs the matcher does not read although the folded
   addresses lie within each other, and the ones that it reads as other addresses with another answer.
   */
  ghost predicate Disagree(host: Literal, base: Literal, bits: nat, p: Platform)
    requires ValidLiteral(host) && ValidLiteral(base) && bits <= WidthOf(LiteralFamily(base))
  {
    var h, b := Reading(host, p), Reading(base, p);
    if h.None? || b.None? then FoldedInside(host, base, bits)
    else if AsWritten(host, p) && AsWritten(base, p) then MappingDiffers(host, base, bits)
    else Inside(h, b, bits) != FoldedInside(host, base, bits)
  }

  lemma RangeOfMappedCidr(base: Literal, bitsText: string, bits: nat, p: Platform)
    requires PlainCidr(base, bitsText, bits, p) && Mapped(base)
    ensures ParsedCidr(CidrText(base, bitsText), p.number)
         == if bits <= 32 then Some(BlockOf(Tail(base), bits)) else None
  {
    hide ValidLiteral, ParsedIp, Trim, LastIndexOf, CidrText, BlockOf, Mapped, ValueOf;
    CidrTextParts(base, bitsText);
    LiteralParses(base);
  }

  lemma QuadTail32(l: Literal)
    requires ValidLiteral(l) && l.Quad?
    ensures Tail(l) == Plain(l) && !Mapped(l)
  {
    Ipv4ValueFits(l.text);
    hide IsIpv4, Ipv4Value;
  }

  /** Shifting by less than 32 bits shifts the low part and leaves the high one above it. */
  lemma ShiftParts(v: nat, k: nat)
    requires k < 32
    ensures ShiftRight(v, k) == v / LOW_BITS * Pow2(32 - k) + ShiftRight(v % LOW_BITS, k)
  {
    hide Pow2, Quotient;
    Pow2Of32();
    Pow2Split(32 - k, k);
    SplitLow(v, Pow2(32 - k), Pow2(k));
  }

  lemma SplitLow(v: nat, m: nat, d: nat)
    requires d > 0 && m * d == LOW_BITS
    ensures Quotient(v, d) == v / LOW_BITS * m + Quotient(v % LOW_BITS, d)
  {
    var q, r := v / LOW_BITS, v % LOW_BITS;
    assert v == q * (m * d) + r;
    SplitQuotient(q, m, d, r);
  }

  /** With the same high part, a prefix is shared if it ends in that part, or else when the low parts share the rest. */
  lemma SharedHighPart(v: nat, w: nat, k: nat)
    requires v / LOW_BITS == w / LOW_BITS
    ensures ShiftRight(v, k) == ShiftRight(w, k)
       <==> k >= 32 || ShiftRight(v % LOW_BITS, k) == ShiftRight(w % LOW_BITS, k)
  {
    hide Pow2;
    if k >= 32 {
      Pow2Of32();
      LongerPrefix(v, w, 32, k);
    } else {
      hide ShiftRight;
      ShiftParts(v, k);
      ShiftParts(w, k);
    }
  }

  lemma BothMapped(host: Literal, base: Literal, bits: nat)
    requires ValidLiteral(host) && ValidLiteral(base) && Mapped(host) && Mapped(base) && bits <= 128
    ensures InRange(Plain(host), BlockOf(Plain(base), bits))
       <==> bits <= 96 || InRange(Tail(host), BlockOf(Tail(base), bits - 96))
  {
    hide ValueOf, BlockOf, InRange, ShiftRight;
    BlockIsPrefix(Plain(base), bits, Plain(host));
    SharedHighPart(ValueOf(host), ValueOf(base), 128 - bits);
    if bits > 96 {
      BlockIsPrefix(Tail(base), bits - 96, Tail(host));
    }
  }

  lemma MatcherSide(host: Literal, base: Literal, bitsText: string, bits: nat, p: Platform)
    requires ValidLiteral(host) && Understands(p, host) && PlainCidr(base, bitsText, bits, p)
    ensures MatcherContains(host, base, bitsText, p) <==> Inside(Reading(host, p), Reading(base, p), bits)
  {
    hide HostMatches, ValidLiteral, InRange, BlockOf, EntriesOfTokens, CidrText, Reading, TextOf;
    MatcherIsNumeric(host, base, bitsText, bits, p);
  }

  lemma RangeSide(host: Literal, base: Literal, bitsText: string, bits: nat, p: Platform)
    requires ValidLiteral(host) && PlainCidr(base, bitsText, bits, p)
    ensures RangeContains(host, base, bitsText, p) <==> FoldedInside(host, base, bits)
  {
    hide ValidLiteral, ValueOf, InRange, BlockOf, CidrText, ParsedIp, ParsedCidr, TextOf;
    LiteralParses(host);
    if Mapped(base) {
      RangeOfMappedCidr(base, bitsText, bits, p);
    } else {
      RangeOfCidr(base, bitsText, bits, p);
    }
  }

  /** Every valid host and base, every prefix length: the two modules agree exactly off the listed pairs. */
  lemma AgreementExact(host: Literal, base: Literal, bitsText: string, bits: nat, p: Platform)
    requires ValidLiteral(host) && Understands(p, host) && PlainCidr(base, bitsText, bits, p)
    ensures (MatcherContains(host, base, bitsText, p) <==> RangeContains(host, base, bitsText, p))
       <==> !Disagree(host, base, bits, p)
  {
    hide ValidLiteral, Understands, ValueOf, CidrText, MatcherContains, RangeContains, Pow2, FloorTo, Reading, TextOf,
         MappingDiffers;
    ReadingFamily(base, p);
    MatcherSide(host, base, bitsText, bits, p);
    RangeSide(host, base, bitsText, bits, p);
    MappingExact(host, base, bits);
  }

  /** As written and folded, the addresses give different answers for exactly those pairs. */
  lemma MappingExact(host: Literal, base: Literal, bits: nat)
    requires ValidLiteral(host) && ValidLiteral(base) && bits <= WidthOf(LiteralFamily(base))
    ensures MappingDiffers(host, base, bits)
       <==> Inside(Some(Plain(host)), Some(Plain(base)), bits) != FoldedInside(host, base, bits)
  {
    hide ValidLiteral, ValueOf, Pow2, FloorTo;
    if Mapped(host) && Mapped(base) { BothMapped(host, base, bits); }
    if host.Quad? { QuadTail32(host); }
    if base.Quad? { QuadTail32(base); }
  }

  /** A prefix longer than the base's family allows is taken by neither. */
  lemma OverlongAgree(host: Literal, base: Literal, bitsText: string, bits: nat, p: Platform)
    requires ValidLiteral(base) && Understands(p, base) && ',' !in bitsText && '/' !in bitsText
    requires Trim(CidrText(base, bitsText)) == CidrText(base, bitsText)
    requires p.number(bitsText) == Some(bits) && bits > WidthOf(LiteralFamily(base))
    ensures !MatcherContains(host, base, bitsText, p) && !RangeContains(host, base, bitsText, p)
  {
    hide ValidLiteral, HostBytes, Trim, Split, CidrText, BigEndian, ValueOf, ParsedIp, LastIndexOf, BlockOf, Mapped,
         Understands, EntryMatches;
    var t := CidrText(base, bitsText);
    CidrTextParts(base, bitsText);
    LiteralBytes(base, p);
    LiteralParses(base);
    assert [t][..0] == [];
    assert EntriesOfTokens([], p) == [];
  }

  // ----- the failing families

  /** An address is below the bound of its family, as it is written, read or folded. */
  lemma AddressesFit(l: Literal, p: Platform)
    requires ValidLiteral(l)
    ensures Fits(Plain(l)) && Fits(Tail(l)) && Fits(Folded(l))
    ensures Reading(l, p).Some? ==> Fits(Reading(l, p).value)
  {
    hide Pow2, IsIpv4, Ipv4Value, SpellingValue, TextOf, ValidSpelling, FirstPart, IsZone, Trim;
    Pow2Of32();
    match l
    case Quad(q) => Ipv4ValueFits(q);
    case Six(s, zone) =>
      SixFits(s);
      if ReadAs(s, zone).Some? { SixFits(ReadAs(s, zone).value); }
  }

  ghost predicate Fits(a: Address) { a.value < Pow2(WidthOf(a.family)) }

  /** Every mapped host and the prefix of all IPv4 addresses: inside for the one module, outside for the other. */
  lemma MappedHostDisagrees(host: Literal, base: Literal, bitsText: string, p: Platform)
    requires ValidLiteral(host) && Understands(p, host) && Mapped(host)
    requires PlainCidr(base, bitsText, 0, p) && base.Quad?
    ensures RangeContains(host, base, bitsText, p) && !MatcherContains(host, base, bitsText, p)
  {
    hide ValidLiteral, Understands, ValueOf, CidrText, MatcherContains, RangeContains, BlockOf, Reading, TextOf, Pow2;
    MatcherSide(host, base, bitsText, 0, p);
    RangeSide(host, base, bitsText, 0, p);
    QuadTail32(base);
    FoldedInWhole(host, base, p);
    OtherFamily(host, base, 0, p);
  }

  /** The folded addresses of one family lie in each other's zero prefix. */
  lemma FoldedInWhole(host: Literal, base: Literal, p: Platform)
    requires ValidLiteral(host) && ValidLiteral(base) && Folded(host).family == Folded(base).family
    ensures FoldedInside(host, base, 0)
  {
    hide ValidLiteral, ValueOf, BlockOf, InRange, Reading, TextOf, Pow2, Mapped;
    AddressesFit(host, p);
    AddressesFit(base, p);
    WholeBlock(Folded(base), Folded(host));
  }

  lemma OtherFamily(host: Literal, base: Literal, bits: nat, p: Platform)
    requires ValidLiteral(host) && ValidLiteral(base) && LiteralFamily(host) != LiteralFamily(base)
    requires bits <= WidthOf(LiteralFamily(base))
    ensures Reading(base, p).Some? ==> bits <= WidthOf(Reading(base, p).value.family)
    ensures !Inside(Reading(host, p), Reading(base, p), bits)
  {
    hide ValidLiteral, ValueOf, Reading, BlockOf;
    ReadingFamily(host, p);
    ReadingFamily(base, p);
    if Reading(base, p).Some? { BlockFamily(Reading(base, p).value, bits); }
  }

  /** Every mapped host and the prefix of all IPv6 addresses: the other way round, if the matcher reads both. */
  lemma MappedHostInAllSix(host: Literal, base: Literal, bitsText: string, p: Platform)
    requires ValidLiteral(host) && Understands(p, host) && Mapped(host)
    requires PlainCidr(base, bitsText, 0, p) && base.Six? && !Mapped(base)
    ensures !RangeContains(host, base, bitsText, p)
    ensures MatcherContains(host, base, bitsText, p) <==> Reading(host, p).Some? && Reading(base, p).Some?
  {
    hide ValidLiteral, Understands, ValueOf, CidrText, MatcherContains, RangeContains, BlockOf, Reading, TextOf, Pow2;
    MatcherSide(host, base, bitsText, 0, p);
    RangeSide(host, base, bitsText, 0, p);
    BlockFamily(Plain(base), 0);
    if Reading(host, p).Some? && Reading(base, p).Some? {
      AddressesFit(host, p);
      AddressesFit(base, p);
      ReadingFamily(host, p);
      ReadingFamily(base, p);
      WholeBlock(Reading(base, p).value, Reading(host, p).value);
    }
  }

  /** A mapped base of prefix zero holds every quad for the one module and none for the other. */
  lemma MappedBaseDisagrees(host: Literal, base: Literal, bitsText: string, p: Platform)
    requires ValidLiteral(host) && Understands(p, host) && host.Quad?
    requires PlainCidr(base, bitsText, 0, p) && Mapped(base)
    ensures RangeContains(host, base, bitsText, p) && !MatcherContains(host, base, bitsText, p)
  {
    hide ValidLiteral, Understands, ValueOf, CidrText, MatcherContains, RangeContains, BlockOf, Reading, TextOf, Pow2;
    MatcherSide(host, base, bitsText, 0, p);
    RangeSide(host, base, bitsText, 0, p);
    QuadTail32(host);
    FoldedInWhole(host, base, p);
    OtherFamily(host, base, 0, p);
  }

  /** Two mapped literals and a prefix the big-integer module cannot take: the matcher takes it. */
  lemma MappedPairDisagrees(host: Literal, base: Literal, bitsText: string, bits: nat, p: Platform)
    requires ValidLiteral(host) && Understands(p, host) && Mapped(host) && 32 < bits <= 96
    requires PlainCidr(base, bitsText, bits, p) && Mapped(base) && AsWritten(host, p) && AsWritten(base, p)
    ensures MatcherContains(host, base, bitsText, p) && !RangeContains(host, base, bitsText, p)
  {
    hide ValidLiteral, Understands, ValueOf, CidrText, MatcherContains, RangeContains, BlockOf, Reading, TextOf;
    MatcherSide(host, base, bitsText, bits, p);
    RangeSide(host, base, bitsText, bits, p);
    BothMapped(host, base, bits);
  }

  /**
   A literal the matcher does not read, refused by `net.isIP` or with a zone id behind `::`: with the zero prefix the
   other module takes in every host of the family.
   */
  lemma UnreadDisagrees(host: Literal, base: Literal, bitsText: string, p: Platform)
    requires ValidLiteral(host) && Understands(p, host) && PlainCidr(base, bitsText, 0, p)
    requires Reading(host, p).None? || Reading(base, p).None?
    requires Folded(host).family == Folded(base).family
    ensures RangeContains(host, base, bitsText, p) && !MatcherContains(host, base, bitsText, p)
  {
    hide ValidLiteral, Understands, CidrText, MatcherContains, RangeContains, FoldedInside, Reading, TextOf, Folded;
    MatcherSide(host, base, bitsText, 0, p);
    RangeSide(host, base, bitsText, 0, p);
    FoldedInWhole(host, base, p);
  }

  /** `::ffff:a00:5`, the way a URL writes `::ffff:10.0.0.5`. */
  const MAPPED_HOST := Six(Spelling([], true, ["ffff", "a00", "5"], None), None)
  const ANY_SIX := Six(Spelling([], true, [], None), None)

  lemma MappedHostFacts()
    ensures ValidLiteral(MAPPED_HOST) && Mapped(MAPPED_HOST) && TextOf(MAPPED_HOST) == "::ffff:a00:5"
  {
    var s := MAPPED_HOST.spelling;
    MappedHostGroups();
    var ws := GroupWords([]) + seq(5, i => 0) + GroupWords(s.rest) + QuadWords(s);
    hide IsGroup, HexValue, WordsValue;
    assert ws == [0, 0, 0, 0, 0, 0xffff, 0xa00, 5];
    WordsOfEight(0xffff, 0xa00, 5);
    MappedHostText();
  }

  lemma MappedHostGroups()
    ensures var rest := MAPPED_HOST.spelling.rest;
            AllGroups(rest) && GroupWords(rest) == [0xffff, 0xa00, 5]
  {
    assert IsGroup("ffff") && IsGroup("a00") && IsGroup("5");
    HexTexts();
    hide HexValue;
  }

  lemma MappedHostText()
    ensures SpellingText(MAPPED_HOST.spelling) == "::ffff:a00:5"
  {
    var s := MAPPED_HOST.spelling;
    assert s.rest[1..] == ["a00", "5"] && s.rest[1..][1..] == ["5"] && s.rest + [] == s.rest;
    assert Join(["a00", "5"], ':') == "a00:5";
  }

  lemma HexTexts()
    ensures HexValue("ffff") == 0xffff && HexValue("a00") == 0xa00 && HexValue("5") == 5
  {
    assert "ffff"[..3] == "fff" && "fff"[..2] == "ff" && "ff"[..1] == "f" && "f"[..0] == "";
    assert "a00"[..2] == "a0" && "a0"[..1] == "a" && "a"[..0] == "" && "5"[..0] == "";
    assert HexValue("f") == 15 && HexValue("ff") == 255 && HexValue("fff") == 4095;
    assert HexValue("a") == 10 && HexValue("a0") == 160;
  }

  lemma WordsOfEight(x: nat, y: nat, z: nat)
    requires x < 0x1_0000 && y < 0x1_0000 && z < 0x1_0000
    ensures WordsValue([0, 0, 0, 0, 0, x, y, z]) == x * LOW_BITS + y * 0x1_0000 + z
  {
    var w8: seq<nat> := [0, 0, 0, 0, 0, x, y, z];
    var w7: seq<nat> := [0, 0, 0, 0, 0, x, y];
    var w6: seq<nat> := [0, 0, 0, 0, 0, x];
    var w5: seq<nat>, w4: seq<nat>, w3: seq<nat>, w2: seq<nat>, w1: seq<nat>, w0: seq<nat> :=
      [0, 0, 0, 0, 0], [0, 0, 0, 0], [0, 0, 0], [0, 0], [0], [];
    assert w8[..7] == w7 && w7[..6] == w6 && w6[..5] == w5 && w5[..4] == w4 && w4[..3] == w3 && w3[..2] == w2;
    assert w2[..1] == w1 && w1[..0] == w0;
    assert WordsValue(w0) == 0 && WordsValue(w1) == 0 && WordsValue(w2) == 0;
    assert WordsValue(w3) == 0 && WordsValue(w4) == 0 && WordsValue(w5) == 0;
    assert WordsValue(w6) == x && WordsValue(w7) == 0x1_0000 * x + y;
  }

  lemma AnySixFacts()
    ensures ValidLiteral(ANY_SIX) && !Mapped(ANY_SIX) && TextOf(ANY_SIX) == "::" && CidrText(ANY_SIX, "0") == "::/0"
  {
    var s := ANY_SIX.spelling;
    var ws := GroupWords([]) + seq(8, i => 0) + GroupWords([]) + QuadWords(s);
    assert ws == [0, 0, 0, 0, 0, 0, 0, 0];
    WordsOfEight(0, 0, 0);
    assert s.rest + [] == [];
  }

  /** One such input: a mapped host with `NO_PROXY=::/0`. */
  lemma MappedHostInput(p: Platform)
    requires Understands(p, MAPPED_HOST) && p.isIp("::ffff:a00:5") == 6
    requires Understands(p, ANY_SIX) && p.isIp("::") == 6
    ensures TextOf(MAPPED_HOST) == "::ffff:a00:5" && CidrText(ANY_SIX, "0") == "::/0"
    ensures MatcherContains(MAPPED_HOST, ANY_SIX, "0", p) && !RangeContains(MAPPED_HOST, ANY_SIX, "0", p)
  {
    hide ValidLiteral, Mapped, MatcherContains, RangeContains, Trim, TextOf;
    MappedHostFacts();
    AnySixFacts();
    assert p.number("0") == Some(0) by {
      assert AllDigits("0") && "0"[..0] == "" && DecimalValue("0") == 0;
    }
    TrimBare("::/0");
    MappedHostInAllSix(MAPPED_HOST, ANY_SIX, "0", p);
  }

  const ZONED_BASE := Six(Spelling(["fe80"], true, [], None), Some("eth0"))
  const LINK_LOCAL := Six(Spelling(["fe80"], true, ["1"], None), None)

  lemma ZonedBaseText()
    ensures TextOf(ZONED_BASE) == "fe80::%eth0" && CidrText(ZONED_BASE, "64") == "fe80::%eth0/64"
  {
    assert ZONED_BASE.spelling.rest + [] == [];
    assert SpellingText(ZONED_BASE.spelling) == "fe80::";
  }

  lemma EthZone()
    ensures IsZone("eth0")
  {
    hide QuadTail;
    NoTail("eth0", 0);
  }

  lemma ZonedBaseFacts()
    ensures ValidLiteral(ZONED_BASE) && ValueOf(ZONED_BASE) == 0xfe80_0000_0000_0000 * LOW_BITS * LOW_BITS
  {
    hide HexValue, WordsValue, QuadTail, SpellingText, IsZone;
    var s := ZONED_BASE.spelling;
    assert IsGroup("fe80");
    EthZone();
    FeEighty();
    var ws := GroupWords(s.head) + seq(7, i => 0) + GroupWords([]) + QuadWords(s);
    assert ws == [0xfe80, 0, 0, 0, 0, 0, 0, 0];
    LinkLocalWords(0);
  }

  lemma LinkLocalFacts()
    ensures ValidLiteral(LINK_LOCAL) && TextOf(LINK_LOCAL) == "fe80::1"
    ensures ValueOf(LINK_LOCAL) == 0xfe80_0000_0000_0000 * LOW_BITS * LOW_BITS + 1
  {
    var s := LINK_LOCAL.spelling;
    assert IsGroup("fe80") && IsGroup("1");
    FeEighty();
    hide IsGroup, HexValue, WordsValue, QuadTail;
    var ws := GroupWords(s.head) + seq(6, i => 0) + GroupWords(s.rest) + QuadWords(s);
    assert ws == [0xfe80, 0, 0, 0, 0, 0, 0, 1];
    LinkLocalWords(1);
    assert s.rest + [] == ["1"];
  }

  lemma FeEighty()
    ensures HexValue("fe80") == 0xfe80 && HexValue("1") == 1
  {
    assert "fe80"[..3] == "fe8" && "fe8"[..2] == "fe" && "fe"[..1] == "f" && "f"[..0] == "" && "1"[..0] == "";
    assert HexValue("f") == 15 && HexValue("fe") == 254 && HexValue("fe8") == 4072;
  }

  lemma LinkLocalWords(last: nat)
    ensures WordsValue([0xfe80, 0, 0, 0, 0, 0, 0, last]) == 0xfe80_0000_0000_0000 * LOW_BITS * LOW_BITS + last
  {
    var w8: seq<nat> := [0xfe80, 0, 0, 0, 0, 0, 0, last];
    var w7, w6, w5, w4 := w8[..7], w8[..6], w8[..5], w8[..4];
    var w3, w2, w1, w0 := w8[..3], w8[..2], w8[..1], w8[..0];
    assert w7[..6] == w6 && w6[..5] == w5 && w5[..4] == w4 && w4[..3] == w3 && w3[..2] == w2 && w2[..1] == w1;
    assert w1[..0] == w0 && WordsValue(w0) == 0;
    assert WordsValue(w1) == 0xfe80 && WordsValue(w2) == 0xfe80_0000;
    assert WordsValue(w3) == 0xfe80_0000_0000 && WordsValue(w4) == 0xfe80_0000_0000_0000;
    assert WordsValue(w5) == 0xfe80_0000_0000_0000_0000 && WordsValue(w6) == 0xfe80_0000_0000_0000_0000_0000;
  }

  lemma LinkLocalBlock()
    ensures InRange(Address(V6, 0xfe80_0000_0000_0000 * LOW_BITS * LOW_BITS + 1),
                    BlockOf(Address(V6, 0xfe80_0000_0000_0000 * LOW_BITS * LOW_BITS), 64))
  {
    hide InRange, BlockOf, Pow2;
    var v := 0xfe80_0000_0000_0000 * LOW_BITS * LOW_BITS;
    BlockIsPrefix(Address(V6, v), 64, Address(V6, v + 1));
    Pow2Of32();
    Pow2Split(32, 32);
    QuotientUnique(v, Pow2(64), 0xfe80_0000_0000_0000);
    QuotientUnique(v + 1, Pow2(64), 0xfe80_0000_0000_0000);
  }

  /** `NO_PROXY=fe80::%eth0/64` and `fe80::1`, neither mapped: no entry for the matcher, a block with the host in it. */
  lemma ZonedBaseInput(p: Platform)
    requires Understands(p, ZONED_BASE) && p.isIp("fe80::%eth0") == 6 && Understands(p, LINK_LOCAL)
    ensures TextOf(LINK_LOCAL) == "fe80::1" && CidrText(ZONED_BASE, "64") == "fe80::%eth0/64"
    ensures RangeContains(LINK_LOCAL, ZONED_BASE, "64", p) && !MatcherContains(LINK_LOCAL, ZONED_BASE, "64", p)
  {
    hide ValidLiteral, MatcherContains, RangeContains, Trim, TextOf, BlockOf, InRange, ValueOf, CidrText;
    ZonedBaseText();
    ZonedBaseFacts();
    LinkLocalFacts();
    LinkLocalBlock();
    assert p.number("64") == Some(64) by {
      assert AllDigits("64") && "64"[..1] == "6" && "6"[..0] == "";
      assert DecimalValue("6") == 6 && DecimalValue("64") == 64;
    }
    TrimBare("fe80::%eth0/64");
    MatcherSide(LINK_LOCAL, ZONED_BASE, "64", 64, p);
    RangeSide(LINK_LOCAL, ZONED_BASE, "64", 64, p);
  }

  /** Four octets, dotted. */
  lemma DottedQuad(q: string, parts: seq<string>)
    requires |parts| == 4 && (forall i :: 0 <= i < 4 ==> IsOctet(parts[i])) && q == Join(parts, '.')
    ensures StrictQuad(q) && FirstPart(q) == parts[0] && Split(q, '.') == parts && Split(Trim(q), '.') == parts
  {
    hide DecimalValue, IsBlank, Trim, Join, Split;
    forall i | 0 <= i < 4 ensures '.' !in parts[i] && !IsBlank(parts[i][0]) && !IsBlank(parts[i][|parts[i]| - 1]) {
      OctetEnds(parts[i]);
    }
    SplitJoin(parts, '.');
    JoinEnds(parts, '.');
    TrimBare(q);
  }

  lemma {:induction false} JoinEnds(parts: seq<string>, c: char)
    requires parts != [] && forall i :: 0 <= i < |parts| ==> parts[i] != ""
    ensures var t, last := Join(parts, c), parts[|parts| - 1];
            t != "" && t[0] == parts[0][0] && t[|t| - 1] == last[|last| - 1]
  {
    if |parts| > 1 {
      JoinEnds(parts[1..], c);
    }
  }

  lemma OctetEnds(a: string)
    requires IsOctet(a)
    ensures a != "" && '.' !in a && !IsBlank(a[0]) && !IsBlank(a[|a| - 1])
  {
    DigitsNotBlank(a[0]);
    DigitsNotBlank(a[|a| - 1]);
  }

  lemma DigitsNotBlank(c: char)
    requires IsDigit(c)
    ensures !IsBlank(c)
  {
  }

  lemma SmallNumbers()
    ensures DecimalValue("0") == 0 && DecimalValue("1") == 1 && DecimalValue("2") == 2 && DecimalValue("3") == 3
    ensures DecimalValue("4") == 4 && DecimalValue("5") == 5 && DecimalValue("8") == 8
    ensures DecimalValue("10") == 10 && DecimalValue("010") == 10
  {
    assert "0"[..0] == "" && "1"[..0] == "" && "10"[..1] == "1" && "01"[..1] == "0" && "010"[..2] == "01";
    assert DecimalValue("1") == 1 && DecimalValue("0") == 0 && DecimalValue("01") == 1;
    assert "2"[..0] == "" && "3"[..0] == "" && "4"[..0] == "" && "5"[..0] == "" && "8"[..0] == "";
  }

  const PADDED_QUAD := Quad("010.0.0.5")
  const TEN := Quad("10.0.0.0")

  lemma TenBlock()
    ensures InRange(Address(V4, 0xa00_0005), BlockOf(Address(V4, 0xa00_0000), 8))
  {
    hide InRange, BlockOf, Pow2, ShiftRight;
    TopByte(0xa00_0000, 10, 0);
    TopByte(0xa00_0005, 10, 5);
    BlockIsPrefix(Address(V4, 0xa00_0000), 8, Address(V4, 0xa00_0005));
  }

  lemma TopByte(v: nat, top: nat, low: nat)
    requires v == top * 0x100_0000 + low && low < 0x100_0000
    ensures ShiftRight(v, 24) == top
  {
    hide Pow2;
    PowersOfTwo();
    Pow2Split(8, 8);
    Pow2Split(8, 16);
    QuotientUnique(v, Pow2(24), top);
  }

  lemma FourParts(a: string, b: string, c: string, d: string)
    ensures Join([a, b, c, d], '.') == a + "." + b + "." + c + "." + d
  {
    var parts := [a, b, c, d];
    assert parts[1..] == [b, c, d] && parts[1..][1..] == [c, d] && parts[1..][1..][1..] == [d];
    assert Join([c, d], '.') == c + ['.'] + d;
    assert Join([b, c, d], '.') == b + ['.'] + (c + ['.'] + d);
    assert Join(parts, '.') == a + ['.'] + (b + ['.'] + (c + ['.'] + d));
    assert a + ['.'] + (b + ['.'] + (c + ['.'] + d)) == a + "." + b + "." + c + "." + d;
  }

  lemma PaddedQuadFacts()
    ensures ValidLiteral(PADDED_QUAD) && ValueOf(PADDED_QUAD) == 0xa00_0005
    ensures ValidLiteral(TEN) && ValueOf(TEN) == 0xa00_0000
  {
    SmallNumbers();
    FourParts("010", "0", "0", "5");
    FourParts("10", "0", "0", "0");
    hide DecimalValue, Trim, Split, Join;
    DottedQuad("010.0.0.5", ["010", "0", "0", "5"]);
    DottedQuad("10.0.0.0", ["10", "0", "0", "0"]);
  }

  /** A quad with a leading zero, refused by `net.isIP` and decimal for the other module, against `10.0.0.0/8`. */
  lemma PaddedQuadInput(p: Platform)
    requires Understands(p, PADDED_QUAD) && p.isIp("010.0.0.5") == 0 && Understands(p, TEN)
    ensures CidrText(TEN, "8") == "10.0.0.0/8"
    ensures RangeContains(PADDED_QUAD, TEN, "8", p) && !MatcherContains(PADDED_QUAD, TEN, "8", p)
  {
    hide MatcherContains, RangeContains, Trim, BlockOf, InRange, ValidLiteral, ValueOf, DecimalValue;
    PaddedQuadFacts();
    TenBlock();
    SmallNumbers();
    assert AllDigits("8") && p.number("8") == Some(8);
    assert CidrText(TEN, "8") == "10.0.0.0/8";
    TrimBare("10.0.0.0/8");
    MatcherSide(PADDED_QUAD, TEN, "8", 8, p);
    RangeSide(PADDED_QUAD, TEN, "8", 8, p);
  }

  const ZONED_QUAD := Six(Spelling([], true, [], Some("1.2.3.4")), Some("a"))

  lemma ZonedQuadPart()
    ensures StrictQuad("1.2.3.4") && FirstPart("1.2.3.4") == "1" && Ipv4Value("1.2.3.4") == 0x102_0304
    ensures ':' !in "1.2.3.4"
  {
    SmallNumbers();
    FourParts("1", "2", "3", "4");
    hide DecimalValue, Trim, Split, Join;
    DottedQuad("1.2.3.4", ["1", "2", "3", "4"]);
  }

  /** What the literal is, and what it is read as. */
  lemma ZonedQuadValues()
    ensures ValidLiteral(ZONED_QUAD) && ValueOf(ZONED_QUAD) == 0x102_0304 && TextOf(ZONED_QUAD) == "::1.2.3.4%a"
    ensures ReadAs(ZONED_QUAD.spelling, ZONED_QUAD.zone) == Some(Spelling([], true, ["1"], None))
    ensures SpellingValue(Spelling([], true, ["1"], None)) == 1
  {
    hide Trim, IsIpv4, Ipv4Value, WordsValue, HexValue, QuadTail, FirstPart;
    ZonedQuadPart();
    NoTail("a", 0);
    FeEighty();
    var s, r := ZONED_QUAD.spelling, Spelling([], true, ["1"], None);
    assert [] + [FirstPart("1.2.3.4")] == ["1"];
    assert [] + ["1.2.3.4"] == ["1.2.3.4"];
    var ws := GroupWords([]) + seq(7, i => 0) + GroupWords(["1"]) + QuadWords(r);
    assert ws == [0, 0, 0, 0, 0, 0, 0, 1];
    WordsOfEight(0, 0, 1);
    var vs := GroupWords([]) + seq(6, i => 0) + GroupWords([]) + QuadWords(s);
    assert vs == [0, 0, 0, 0, 0, 0, 0x102, 0x304];
    WordsOfEight(0, 0x102, 0x304);
  }

  /** `::1.2.3.4%a` is one address for the matcher and another for the other module. */
  lemma ZonedQuadInput(p: Platform)
    requires Understands(p, ZONED_QUAD) && p.isIp("::1.2.3.4%a") == 6
    ensures HostBytes("::1.2.3.4%a", p).Some? && BigEndian(HostBytes("::1.2.3.4%a", p).value) == 1
    ensures ParsedIp("::1.2.3.4%a") == Some(Address(V6, 0x102_0304))
  {
    hide ValidLiteral, ValueOf, TextOf, ReadAs, SpellingValue, HostBytes, ParsedIp, BigEndian;
    ZonedQuadValues();
    LiteralBytes(ZONED_QUAD, p);
    LiteralParses(ZONED_QUAD);
  }

  lemma BlockFamily(a: Address, bits: nat)
    requires bits <= WidthOf(a.family)
    ensures BlockOf(a, bits).family == a.family
  {
    hide Pow2, FloorTo;
  }

  lemma SixFits(s: Spelling)
    requires ValidSpelling(s)
    ensures SpellingValue(s) < Pow2(128)
  {
    SpellingFits(s);
    Pow2Of32();
    Pow2Split(32, 32);
    Pow2Split(64, 64);
  }

  lemma SpellingFits(s: Spelling)
    requires ValidSpelling(s)
    ensures SpellingValue(s) < 0x1_0000_0000_0000_0000 * 0x1_0000_0000_0000_0000
  {
    hide IsIpv4, Ipv4Value, IsGroup, HexValue;
    var ws := GroupWords(s.head) + seq(8 - Width(s), i => 0) + GroupWords(s.rest) + QuadWords(s);
    GroupsFit(s.head);
    GroupsFit(s.rest);
    if s.quad.Some? { Ipv4ValueFits(s.quad.value); }
    assert |ws| == 8;
    WordsValueFits(ws);
    Pow16Of8();
  }

  lemma GroupsFit(gs: seq<string>)
    requires AllGroups(gs)
    ensures forall i :: 0 <= i < |gs| ==> GroupWords(gs)[i] < 0x1_0000
  {
    forall i | 0 <= i < |gs| ensures HexValue(gs[i]) < 0x1_0000 {
      HexValueFits(gs[i]);
    }
  }

  lemma Pow16Of8()
    ensures Pow16(8) == 0x1_0000_0000_0000_0000 * 0x1_0000_0000_0000_0000
  {
    assert Pow16(4) == 0x1_0000_0000_0000_0000;
  }

  /** The zero prefix holds every address of its family. */
  lemma WholeBlock(base: Address, a: Address)
    requires a.family == base.family
    requires a.value < Pow2(WidthOf(a.family)) && base.value < Pow2(WidthOf(a.family))
    ensures InRange(a, BlockOf(base, 0))
  {
    hide BlockOf, InRange, Pow2, ShiftRight;
    BlockIsPrefix(base, 0, a);
    ShiftedOut(a.value, WidthOf(a.family));
    ShiftedOut(base.value, WidthOf(a.family));
  }

  lemma Pow2Of32()
    ensures Pow2(32) == 0x1_0000_0000
  {
    PowersOfTwo();
    Pow2Split(8, 8);
    Pow2Split(16, 16);
  }
}
