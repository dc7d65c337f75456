/**
 Address text of `shared/provisioningNetworkGateway.js`: dotted quads, IPv6 groups with one `::`, a dotted-quad tail
 and a zone id. Forms follow section 2.2 of RFC 4291.
 */
module IpText {
  import opened Wrappers
  import opened Text

  // ----- dotted quads

  predicate IsOctet(s: string) {
    1 <= |s| <= 3 && AllDigits(s) && DecimalValue(s) <= 255
  }

  /** `isIpv4`: blanks around the text are ignored. */
  predicate IsIpv4(value: string) {
    var parts := Split(Trim(value), '.');
    |parts| == 4 && forall i :: 0 <= i < 4 ==> IsOctet(parts[i])
  }

  function Ipv4Value(value: string): (v: nat)
    requires IsIpv4(value)
  {
    var p := Split(Trim(value), '.');
    ((DecimalValue(p[0]) * 0x100 + DecimalValue(p[1])) * 0x100 + DecimalValue(p[2])) * 0x100 + DecimalValue(p[3])
  }

  lemma Ipv4ValueFits(value: string)
    requires IsIpv4(value)
    ensures Ipv4Value(value) < 0x1_0000_0000
  {
    var p := Split(Trim(value), '.');
    assert IsOctet(p[0]) && IsOctet(p[1]) && IsOctet(p[2]) && IsOctet(p[3]);
  }

  // ----- hexadecimal groups

  predicate IsHex(c: char) { '0' <= c <= '9' || 'a' <= c <= 'f' || 'A' <= c <= 'F' }

  function HexDigitValue(c: char): nat
    requires IsHex(c)
  {
    if '0' <= c <= '9' then c as int - '0' as int
    else if 'a' <= c <= 'f' then c as int - 'a' as int + 10
    else c as int - 'A' as int + 10
  }

  /** `/^[0-9a-fA-F]{1,4}$/` */
  predicate IsGroup(s: string) {
    1 <= |s| <= 4 && forall i :: 0 <= i < |s| ==> IsHex(s[i])
  }

  function HexValue(s: string): nat
    requires forall i :: 0 <= i < |s| ==> IsHex(s[i])
  {
    if s == "" then 0 else 0x10 * HexValue(s[..|s| - 1]) + HexDigitValue(s[|s| - 1])
  }

  function HexChar(d: nat): char
    requires d < 16
  {
    if d < 10 then ('0' as int + d) as char else ('a' as int + d - 10) as char
  }

  /** `n.toString(16)` */
  function HexText(n: nat): string {
    if n < 16 then [HexChar(n)] else HexText(n / 16) + [HexChar(n % 16)]
  }

  lemma HexCharValue(d: nat)
    requires d < 16
    ensures IsHex(HexChar(d)) && HexDigitValue(HexChar(d)) == d
  {
  }

  lemma {:induction false} HexTextValue(n: nat)
    ensures forall i :: 0 <= i < |HexText(n)| ==> IsHex(HexText(n)[i])
    ensures HexValue(HexText(n)) == n && |HexText(n)| >= 1
  {
    HexCharValue(n % 16);
    if n < 16 {
      assert HexText(n)[..0] == "";
    } else {
      HexTextValue(n / 16);
      assert HexText(n)[..|HexText(n)| - 1] == HexText(n / 16);
    }
  }

  lemma HexGroup(n: nat)
    requires n < 0x1_0000
    ensures IsGroup(HexText(n)) && HexValue(HexText(n)) == n
  {
    HexTextValue(n);
    assert n / 16 < 0x1000 && n / 16 / 16 < 0x100 && n / 16 / 16 / 16 < 16;
    assert n >= 16 ==> |HexText(n)| == |HexText(n / 16)| + 1;
    assert n / 16 >= 16 ==> |HexText(n / 16)| == |HexText(n / 16 / 16)| + 1;
    assert n / 16 / 16 >= 16 ==> |HexText(n / 16 / 16)| == |HexText(n / 16 / 16 / 16)| + 1;
  }

  lemma {:induction false} HexValueFits(s: string)
    requires |s| <= 4 && forall i :: 0 <= i < |s| ==> IsHex(s[i])
    ensures |s| == 0 ==> HexValue(s) == 0
    ensures |s| == 1 ==> HexValue(s) < 0x10
    ensures |s| == 2 ==> HexValue(s) < 0x100
    ensures |s| == 3 ==> HexValue(s) < 0x1000
    ensures HexValue(s) < 0x1_0000
  {
    if s != "" {
      HexValueFits(s[..|s| - 1]);
    }
  }

  // ----- splitting at `::`

  /** `s.split("::")` */
  function SplitPairs(s: string): (parts: seq<string>)
    ensures |parts| >= 1
  {
    if |s| < 2 then [s]
    else if s[0] == ':' && s[1] == ':' then [""] + SplitPairs(s[2..])
    else Prepend(s[0], SplitPairs(s[1..]))
  }

  function Prepend(c: char, parts: seq<string>): (r: seq<string>)
    requires |parts| >= 1
    ensures |r| == |parts|
  {
    [[c] + parts[0]] + parts[1..]
  }

  /** The parts with `x` added to the last. */
  function ExtendLast(parts: seq<string>, x: string): (r: seq<string>)
    requires |parts| >= 1
    ensures |r| == |parts|
  {
    parts[..|parts| - 1] + [parts[|parts| - 1] + x]
  }

  lemma PrependExtend(c: char, parts: seq<string>, x: string)
    requires |parts| >= 1
    ensures Prepend(c, ExtendLast(parts, x)) == ExtendLast(Prepend(c, parts), x)
  {
    if |parts| == 1 {
      assert [c] + (parts[0] + x) == [c] + parts[0] + x;
    }
  }

  lemma ExtendRest(first: string, parts: seq<string>, x: string)
    requires |parts| >= 1
    ensures [first] + ExtendLast(parts, x) == ExtendLast([first] + parts, x)
  {
  }

  /** No two colons side by side. */
  predicate NoPair(s: string) {
    forall i :: 0 <= i < |s| - 1 ==> !(s[i] == ':' && s[i + 1] == ':')
  }

  lemma {:induction false} SplitPairsNone(s: string)
    requires NoPair(s)
    ensures SplitPairs(s) == [s]
  {
    if |s| >= 2 {
      assert !(s[0] == ':' && s[1] == ':');
      SplitPairsNone(s[1..]);
      assert [s[0]] + s[1..] == s;
    }
  }

  lemma {:induction false} SplitPairsAt(a: string, b: string)
    requires NoPair(a) && (a == "" || a[|a| - 1] != ':')
    ensures SplitPairs(a + "::" + b) == [a] + SplitPairs(b)
  {
    var s := a + "::" + b;
    if a == "" {
      assert s[2..] == b;
    } else {
      assert s[1..] == a[1..] + "::" + b;
      assert !(s[0] == ':' && s[1] == ':') by {
        if |a| > 1 {
          assert s[0] == a[0] && s[1] == a[1];
        }
      }
      SplitPairsAt(a[1..], b);
      assert [a[0]] + a[1..] == a;
    }
  }

  /** Exactly one `::`: what is before it and what is after it. */
  lemma {:induction false} SplitPairsTwo(s: string)
    requires |SplitPairs(s)| == 2
    ensures var p := SplitPairs(s); s == p[0] + "::" + p[1]
  {
    if s[0] == ':' && s[1] == ':' {
      SplitPairsWhole(s[2..]);
      assert s == "" + "::" + s[2..];
    } else {
      SplitPairsTwo(s[1..]);
      assert s == [s[0]] + s[1..];
    }
  }

  lemma {:induction false} SplitPairsWhole(s: string)
    requires |SplitPairs(s)| == 1
    ensures SplitPairs(s) == [s]
  {
    if |s| >= 2 {
      SplitPairsWhole(s[1..]);
      assert [s[0]] + s[1..] == s;
    }
  }

  // ----- the parser

  /** `s ? s.split(":") : []` */
  function SplitGroups(s: string): seq<string> {
    if s == "" then [] else Split(s, ':')
  }

  function Zeros(n: nat): (zs: seq<string>)
    ensures |zs| == n
  {
    seq(n, i => "0")
  }

  function DropZone(v: string): string {
    if '%' in v then v[..IndexOf(v, '%')] else v
  }

  function TailStart(v: string): (i: nat)
    ensures i <= |v|
  {
    LastIndexOf(v, ':') + 1
  }

  /** A trailing dotted quad becomes two groups; `None` when it is not a quad. */
  function ExpandTail(v: string): Option<string> {
    var i := TailStart(v);
    if '.' !in v[i..] then Some(v)
    else if !IsIpv4(v[i..]) then None
    else
      var n := Ipv4Value(v[i..]);
      Some(v[..i] + HexText(n / 0x1_0000) + ":" + HexText(n % 0x1_0000))
  }

  /** The eight groups of colon-separated text, before their digits are checked. */
  function GroupsOf(v: string): Option<seq<string>> {
    var parts := SplitPairs(v);
    if |parts| > 2 then None
    else if |parts| == 1 then
      var head := SplitGroups(parts[0]);
      if |head| == 8 then Some(head) else None
    else
      var head, rest := SplitGroups(parts[0]), SplitGroups(parts[1]);
      if |head| + |rest| > 8 then None else Some(head + Zeros(8 - |head| - |rest|) + rest)
  }

  ghost predicate AllGroups(groups: seq<string>) {
    forall i :: 0 <= i < |groups| ==> IsGroup(groups[i])
  }

  /** Groups read most significant first. */
  function GroupsValue(groups: seq<string>): nat
    requires AllGroups(groups)
  {
    if groups == [] then 0
    else 0x1_0000 * GroupsValue(groups[..|groups| - 1]) + HexValue(groups[|groups| - 1])
  }

  /** `ipv6ToBigInt`, as a function of the text. */
  ghost function Ipv6Value(value: string): Option<nat> {
    var v := Trim(value);
    if ':' !in v then None
    else
      var bare := DropZone(v);
      if |SplitPairs(bare)| > 2 then None
      else
        match ExpandTail(bare)
        case None => None
        case Some(text) =>
          match GroupsOf(text)
          case None => None
          case Some(groups) => if AllGroups(groups) then Some(GroupsValue(groups)) else None
  }

  /** The digit check and accumulation loop. */
  method AccumulateGroups(groups: seq<string>) returns (r: Option<nat>)
    ensures r == if AllGroups(groups) then Some(GroupsValue(groups)) else None
  {
    hide IsHex, HexDigitValue;
    var out := 0;
    var i := 0;
    while i < |groups|
      invariant 0 <= i <= |groups|
      invariant AllGroups(groups[..i]) && out == GroupsValue(groups[..i])
    {
      if !IsGroup(groups[i]) {
        return None;
      }
      assert groups[..i + 1][..i] == groups[..i];
      out := out * 0x1_0000 + HexValue(groups[i]);
      i := i + 1;
    }
    assert groups[..i] == groups;
    return Some(out);
  }

  method Ipv6ToBigInt(value: string) returns (r: Option<nat>)
    ensures r == Ipv6Value(value)
  {
    hide IsIpv4, Ipv4Value, SplitPairs, Split, HexText, IsGroup, Trim, ExpandTail, GroupsOf;
    var v := Trim(value);
    if ':' !in v {
      return None;
    }
    v := DropZone(v);
    if |SplitPairs(v)| - 1 > 1 {
      return None;
    }
    var expanded := ExpandTail(v);
    if expanded.None? {
      return None;
    }
    v := expanded.value;
    var groups := GroupsOf(v);
    if groups.None? {
      return None;
    }
    r := AccumulateGroups(groups.value);
  }

  // ----- spellings of an address

  /** Text of an address: groups, possibly one `::`, possibly a dotted quad for the last 32 bits. */
  datatype Spelling = Spelling(head: seq<string>, compressed: bool, rest: seq<string>, quad: Option<string>)

  function QuadPart(s: Spelling): seq<string> {
    if s.quad.Some? then [s.quad.value] else []
  }

  function Width(s: Spelling): nat {
    |s.head| + |s.rest| + if s.quad.Some? then 2 else 0
  }

  /** `::` may stand for any number of groups here, zero included, as the parser has it. */
  ghost predicate ValidSpelling(s: Spelling) {
    && AllGroups(s.head) && AllGroups(s.rest)
    && (s.quad.Some? ==> IsIpv4(s.quad.value) && ':' !in s.quad.value)
    && (if s.compressed then Width(s) <= 8 else s.rest == [] && Width(s) == 8)
  }

  function SpellingText(s: Spelling): string {
    if s.compressed then Join(s.head, ':') + "::" + Join(s.rest + QuadPart(s), ':')
    else Join(s.head + QuadPart(s), ':')
  }

  function WordsValue(words: seq<nat>): nat {
    if words == [] then 0 else 0x1_0000 * WordsValue(words[..|words| - 1]) + words[|words| - 1]
  }

  function GroupWords(groups: seq<string>): (ws: seq<nat>)
    requires AllGroups(groups)
    ensures |ws| == |groups|
  {
    seq(|groups|, i requires 0 <= i < |groups| => HexValue(groups[i]))
  }

  function QuadWords(s: Spelling): seq<nat>
    requires s.quad.Some? ==> IsIpv4(s.quad.value)
  {
    if s.quad.Some? then [Ipv4Value(s.quad.value) / 0x1_0000, Ipv4Value(s.quad.value) % 0x1_0000] else []
  }

  /** The number a spelling denotes: its eight 16-bit words, `::` filled with zeros. */
  function SpellingValue(s: Spelling): nat
    requires ValidSpelling(s)
  {
    WordsValue(GroupWords(s.head) + seq(8 - Width(s), i => 0) + GroupWords(s.rest) + QuadWords(s))
  }

  ghost predicate PlainGroups(gs: seq<string>) {
    forall i :: 0 <= i < |gs| ==> gs[i] != "" && ':' !in gs[i]
  }

  lemma GroupsArePlain(gs: seq<string>)
    requires AllGroups(gs)
    ensures PlainGroups(gs)
  {
  }

  /** Joined groups have no `::`, and neither start nor end with a colon. */
  lemma {:induction false} JoinPlain(gs: seq<string>)
    requires PlainGroups(gs)
    ensures NoPair(Join(gs, ':'))
    ensures gs == [] ==> Join(gs, ':') == ""
    ensures gs != [] ==> Join(gs, ':') != "" && Join(gs, ':')[0] != ':' && Join(gs, ':')[|Join(gs, ':')| - 1] != ':'
  {
    if gs != [] {
      assert gs[0][0] in gs[0] && gs[0][|gs[0]| - 1] in gs[0];
      if |gs| > 1 {
        JoinPlain(gs[1..]);
        var a, b := gs[0], Join(gs[1..], ':');
        var s := a + [':'] + b;
        forall i | 0 <= i < |s| - 1 ensures !(s[i] == ':' && s[i + 1] == ':') {
          if i < |a| {
            assert s[i] == a[i] && a[i] in a;
          } else if i > |a| {
            assert s[i] == b[i - |a| - 1] && s[i + 1] == b[i - |a|];
          }
        }
      } else {
        forall i | 0 <= i < |gs[0]| - 1 ensures gs[0][i] != ':' {
          assert gs[0][i] in gs[0];
        }
      }
    }
  }

  lemma SplitGroupsJoin(gs: seq<string>)
    requires PlainGroups(gs)
    ensures SplitGroups(Join(gs, ':')) == gs
  {
    JoinPlain(gs);
    if gs != [] {
      SplitJoin(gs, ':');
    }
  }

  lemma FullGroups(head: seq<string>)
    requires PlainGroups(head) && |head| == 8
    ensures SplitPairs(Join(head, ':')) == [Join(head, ':')]
    ensures GroupsOf(Join(head, ':')) == Some(head)
  {
    hide Join, SplitPairs, SplitGroups, NoPair, PlainGroups;
    JoinPlain(head);
    SplitGroupsJoin(head);
    SplitPairsNone(Join(head, ':'));
  }

  lemma CompressedGroups(head: seq<string>, rest: seq<string>)
    requires PlainGroups(head) && PlainGroups(rest) && |head| + |rest| <= 8
    ensures SplitPairs(Join(head, ':') + "::" + Join(rest, ':')) == [Join(head, ':'), Join(rest, ':')]
    ensures GroupsOf(Join(head, ':') + "::" + Join(rest, ':')) == Some(head + Zeros(8 - |head| - |rest|) + rest)
  {
    hide Join, SplitPairs, SplitGroups, NoPair, PlainGroups, Zeros, GroupsOf;
    JoinPlain(head);
    JoinPlain(rest);
    SplitGroupsJoin(head);
    SplitGroupsJoin(rest);
    var a, b := Join(head, ':'), Join(rest, ':');
    SplitPairsAt(a, b);
    SplitPairsNone(b);
    assert [a] + [b] == [a, b];
    GroupsOfTwo(a + "::" + b, a, b);
  }

  lemma GroupsOfTwo(v: string, a: string, b: string)
    requires SplitPairs(v) == [a, b] && |SplitGroups(a)| + |SplitGroups(b)| <= 8
    ensures GroupsOf(v) == Some(SplitGroups(a) + Zeros(8 - |SplitGroups(a)| - |SplitGroups(b)|) + SplitGroups(b))
  {
    hide SplitPairs, SplitGroups, Zeros;
  }

  /** Text that does not start with a colon extends the last part only. */
  lemma {:induction false} SplitPairsAppend(p: string, x: string)
    requires x != "" && x[0] != ':' && NoPair(x)
    ensures SplitPairs(p + x) == ExtendLast(SplitPairs(p), x)
    decreases |p|
  {
    hide NoPair, Prepend, ExtendLast;
    if |p| == 0 {
      assert p + x == x;
      SplitPairsNone(x);
      ExtendOne("", x);
    } else if |p| == 1 {
      assert (p + x)[1..] == x && (p + x)[0] == p[0] && (p + x)[1] == x[0];
      SplitPairsNone(x);
      ExtendOne(p, x);
      PrependOne(p[0], x);
      assert [p[0]] + x == p + x;
    } else if p[0] == ':' && p[1] == ':' {
      assert (p + x)[2..] == p[2..] + x;
      SplitPairsAppend(p[2..], x);
      ExtendRest("", SplitPairs(p[2..]), x);
    } else {
      assert (p + x)[1..] == p[1..] + x;
      SplitPairsAppend(p[1..], x);
      PrependExtend(p[0], SplitPairs(p[1..]), x);
    }
  }

  lemma ExtendOne(p: string, x: string)
    ensures ExtendLast([p], x) == [p + x]
  {
  }

  lemma PrependOne(c: char, x: string)
    ensures Prepend(c, [x]) == [[c] + x]
  {
  }

  // ----- a dotted quad reads like two more groups

  /** The two groups a quad stands for. */
  function QuadGroups(quad: string): seq<string>
    requires IsIpv4(quad)
  {
    [HexText(Ipv4Value(quad) / 0x1_0000), HexText(Ipv4Value(quad) % 0x1_0000)]
  }

  lemma QuadGroupsAreGroups(quad: string)
    requires IsIpv4(quad)
    ensures AllGroups(QuadGroups(quad))
    ensures GroupWords(QuadGroups(quad)) == [Ipv4Value(quad) / 0x1_0000, Ipv4Value(quad) % 0x1_0000]
  {
    Ipv4ValueFits(quad);
    HexGroup(Ipv4Value(quad) / 0x1_0000);
    HexGroup(Ipv4Value(quad) % 0x1_0000);
  }

  /** The same address without its quad. */
  function Expanded(s: Spelling): Spelling
    requires s.quad.Some? ==> IsIpv4(s.quad.value)
  {
    if s.quad.None? then s
    else if s.compressed then Spelling(s.head, true, s.rest + QuadGroups(s.quad.value), None)
    else Spelling(s.head + QuadGroups(s.quad.value), false, s.rest, None)
  }

  lemma {:induction false} JoinAppend(gs: seq<string>, x: string)
    requires gs != []
    ensures Join(gs + [x], ':') == Join(gs, ':') + ":" + x
  {
    if |gs| > 1 {
      assert (gs + [x])[1..] == gs[1..] + [x];
      JoinAppend(gs[1..], x);
      assert gs[0] + ":" + (Join(gs[1..], ':') + ":" + x) == (gs[0] + ":" + Join(gs[1..], ':')) + ":" + x;
    } else {
      assert (gs + [x])[1..] == [x];
    }
  }

  /** Everything before the last part, which is the quad or the groups standing for it. */
  function BeforeTail(s: Spelling): string {
    if !s.compressed then Join(s.head, ':') + ":"
    else if s.rest == [] then Join(s.head, ':') + "::"
    else Join(s.head, ':') + "::" + Join(s.rest, ':') + ":"
  }

  lemma JoinOneMore(gs: seq<string>, x: string)
    ensures Join(gs + [x], ':') == if gs == [] then x else Join(gs, ':') + ":" + x
  {
    if gs == [] {
      assert gs + [x] == [x];
    } else {
      JoinAppend(gs, x);
    }
  }

  lemma JoinTwo(gs: seq<string>, hi: string, lo: string)
    ensures Join(gs + [hi, lo], ':') == if gs == [] then hi + ":" + lo else Join(gs, ':') + ":" + (hi + ":" + lo)
  {
    hide Join;
    assert gs + [hi, lo] == (gs + [hi]) + [lo];
    JoinOneMore(gs + [hi], lo);
    JoinOneMore(gs, hi);
    Associate(Join(gs, ':') + ":", hi, ":", lo);
  }

  lemma Associate(a: string, b: string, c: string, d: string)
    ensures a + b + c + d == a + (b + c + d)
  {
  }

  lemma TailViews(s: Spelling)
    requires s.quad.Some? && IsIpv4(s.quad.value) && (!s.compressed ==> s.head != [])
    ensures SpellingText(s) == BeforeTail(s) + s.quad.value
    ensures var g := QuadGroups(s.quad.value);
            SpellingText(Expanded(s)) == BeforeTail(s) + (g[0] + ":" + g[1])
  {
    hide Join, IsIpv4, Ipv4Value, HexText;
    var q, g := s.quad.value, QuadGroups(s.quad.value);
    var gs := if s.compressed then s.rest else s.head;
    var h, b, t := Join(s.head, ':'), Join(s.rest, ':'), g[0] + ":" + g[1];
    JoinTwo(gs, g[0], g[1]);
    JoinOneMore(gs, q);
    assert g == [g[0], g[1]];
    assert (h + "::" + b + ":") + q == h + "::" + (b + ":" + q);
    assert (h + "::" + b + ":") + t == h + "::" + (b + ":" + t);
    NoMore(s.rest + g);
    NoMore(s.head + g);
  }

  lemma NoMore(gs: seq<string>)
    ensures gs + [] == gs
  {
  }

  lemma LastColon(p: string, q: string)
    requires p != "" && p[|p| - 1] == ':' && ':' !in q
    ensures TailStart(p + q) == |p|
    ensures (p + q)[TailStart(p + q)..] == q && (p + q)[..TailStart(p + q)] == p
  {
    assert (p + q)[|p| - 1] == ':';
    assert (p + q)[|p|..] == q;
  }

  lemma {:induction false} TrimStartChars(s: string, c: char)
    requires c !in s
    ensures c !in TrimStart(s)
  {
    if s != "" && IsBlank(s[0]) {
      TrimStartChars(s[1..], c);
    }
  }

  lemma {:induction false} TrimEndChars(s: string, c: char)
    requires c !in s
    ensures c !in TrimEnd(s)
    decreases |s|
  {
    if s != "" && IsBlank(s[|s| - 1]) {
      TrimEndChars(s[..|s| - 1], c);
    }
  }

  lemma QuadHasDot(q: string)
    requires IsIpv4(q)
    ensures '.' in q
  {
    if '.' !in q {
      TrimStartChars(q, '.');
      TrimEndChars(TrimStart(q), '.');
      SplitWhole(Trim(q), '.');
    }
  }

  lemma {:induction false} JoinNoDot(gs: seq<string>)
    requires AllGroups(gs)
    ensures '.' !in Join(gs, ':')
  {
    if gs != [] {
      assert '.' !in gs[0];
      JoinNoDot(gs[1..]);
    }
  }

  /** The tail rewriting turns a spelling with a quad into the one with two groups in its place. */
  lemma ExpandTailSpelling(s: Spelling)
    requires ValidSpelling(s)
    ensures ExpandTail(SpellingText(s)) == Some(SpellingText(Expanded(s)))
  {
    hide IsIpv4, Ipv4Value, HexText, IsGroup, Join, LastIndexOf;
    if s.quad.None? {
      JoinNoDot(s.head);
      JoinNoDot(s.rest);
      assert s.head + [] == s.head && s.rest + [] == s.rest;
      var t := SpellingText(s);
      assert '.' !in t;
      assert '.' !in t[TailStart(t)..];
    } else {
      var q := s.quad.value;
      TailViews(s);
      QuadHasDot(q);
      hide SpellingText, ExpandTail, BeforeTail;
      BeforeTailColon(s);
      ExpandQuadTail(BeforeTail(s), q);
    }
  }

  lemma BeforeTailColon(s: Spelling)
    ensures BeforeTail(s) != "" && BeforeTail(s)[|BeforeTail(s)| - 1] == ':'
  {
    hide Join;
  }

  lemma ExpandQuadTail(p: string, q: string)
    requires p != "" && p[|p| - 1] == ':' && ':' !in q && '.' in q && IsIpv4(q)
    ensures ExpandTail(p + q) == Some(p + (QuadGroups(q)[0] + ":" + QuadGroups(q)[1]))
  {
    hide IsIpv4, Ipv4Value, HexText, TailStart;
    LastColon(p, q);
    var g := QuadGroups(q);
    assert p + g[0] + ":" + g[1] == p + (g[0] + ":" + g[1]);
  }

  lemma AllGroupsConcat(a: seq<string>, b: seq<string>)
    requires AllGroups(a) && AllGroups(b)
    ensures AllGroups(a + b) && GroupWords(a + b) == GroupWords(a) + GroupWords(b)
  {
    hide IsGroup, HexValue;
  }

  lemma ExpandedValid(s: Spelling)
    requires ValidSpelling(s)
    ensures ValidSpelling(Expanded(s)) && SpellingValue(Expanded(s)) == SpellingValue(s)
  {
    if s.quad.Some? {
      var q := s.quad.value;
      QuadGroupsAreGroups(q);
      hide IsIpv4, Ipv4Value, HexText, IsGroup, QuadGroups;
      var e := Expanded(s);
      AllGroupsConcat(s.head, QuadGroups(q));
      AllGroupsConcat(s.rest, QuadGroups(q));
      hide AllGroups, GroupWords;
      assert GroupWords(e.head) + seq(8 - Width(e), i => 0) + GroupWords(e.rest) + QuadWords(e)
          == GroupWords(s.head) + seq(8 - Width(s), i => 0) + GroupWords(s.rest) + QuadWords(s);
    }
  }

  lemma {:induction false} GroupsValueIsWords(gs: seq<string>)
    requires AllGroups(gs)
    ensures GroupsValue(gs) == WordsValue(GroupWords(gs))
  {
    if gs != [] {
      GroupsValueIsWords(gs[..|gs| - 1]);
      assert GroupWords(gs)[..|gs| - 1] == GroupWords(gs[..|gs| - 1]);
    }
  }

  lemma PlainValue(s: Spelling)
    requires ValidSpelling(s) && s.quad.None?
    ensures var gs := s.head + Zeros(8 - Width(s)) + s.rest;
            AllGroups(gs) && GroupsValue(gs) == SpellingValue(s)
  {
    var z := Zeros(8 - Width(s));
    var gs := s.head + z + s.rest;
    assert IsGroup("0") && HexValue("0") == 0 by {
      assert HexValue("") == 0 && "0"[..0] == "";
    }
    assert AllGroups(z) && AllGroups(gs);
    GroupsValueIsWords(gs);
    assert GroupWords(gs) == GroupWords(s.head) + seq(8 - Width(s), i => 0) + GroupWords(s.rest) + QuadWords(s);
  }

  /** Every spelling of an address, blanks and zone id aside, parses to the address it denotes. */
  lemma SpellingParses(value: string, s: Spelling)
    requires ValidSpelling(s) && DropZone(Trim(value)) == SpellingText(s)
    ensures Ipv6Value(value) == Some(SpellingValue(s))
  {
    hide IsIpv4, Ipv4Value, HexText, IsGroup, Join, LastIndexOf, Trim, SplitPairs, SplitGroups, GroupsValue,
         SpellingValue, ExpandTail, GroupsOf, DropZone, SpellingText, Zeros;
    var e := Expanded(s);
    ExpandTailSpelling(s);
    ExpandedValid(s);
    GroupsArePlain(e.head);
    GroupsArePlain(e.rest);
    SpelledGroups(e);
    PlainValue(e);
    SpelledPairs(s);
    SpelledColon(s);
    DropZoneKeeps(Trim(value), ':');
  }

  lemma DropZoneKeeps(v: string, c: char)
    requires c in DropZone(v)
    ensures c in v
  {
  }

  lemma SpelledGroups(e: Spelling)
    requires ValidSpelling(e) && e.quad.None? && PlainGroups(e.head) && PlainGroups(e.rest)
    ensures GroupsOf(SpellingText(e)) == Some(e.head + Zeros(8 - Width(e)) + e.rest)
    ensures |SplitPairs(SpellingText(e))| <= 2
  {
    hide IsIpv4, IsGroup, Join, SplitPairs, GroupsOf;
    NoMore(e.head);
    NoMore(e.rest);
    if e.compressed {
      CompressedGroups(e.head, e.rest);
    } else {
      FullGroups(e.head);
      assert e.head + Zeros(0) + [] == e.head;
    }
  }

  lemma SpelledColon(s: Spelling)
    requires ValidSpelling(s)
    ensures ':' in SpellingText(s)
  {
    if !s.compressed {
      var gs := s.head + QuadPart(s);
      assert |gs| >= 2;
      assert Join(gs, ':')[|gs[0]|] == ':';
    } else {
      assert SpellingText(s)[|Join(s.head, ':')|] == ':';
    }
  }

  lemma SpelledPairs(s: Spelling)
    requires ValidSpelling(s)
    ensures |SplitPairs(SpellingText(s))| <= 2
  {
    hide IsIpv4, IsGroup, Join, SplitPairs, Ipv4Value, HexText;
    GroupsArePlain(s.head);
    GroupsArePlain(s.rest);
    if s.quad.None? {
      SpelledGroups(s);
    } else {
      var q, e := s.quad.value, Expanded(s);
      var g := QuadGroups(q);
      ExpandedValid(s);
      GroupsArePlain(e.head);
      GroupsArePlain(e.rest);
      SpelledGroups(e);
      TailViews(s);
      QuadShape(q);
      SplitPairsAppend(BeforeTail(s), q);
      SplitPairsAppend(BeforeTail(s), g[0] + ":" + g[1]);
    }
  }

  /** Neither a quad nor the groups standing for it start with a colon or hold `::`. */
  lemma QuadShape(q: string)
    requires IsIpv4(q) && ':' !in q
    ensures q != "" && q[0] != ':' && NoPair(q)
    ensures var x := QuadGroups(q)[0] + ":" + QuadGroups(q)[1]; x != "" && x[0] != ':' && NoPair(x)
  {
    QuadHasDot(q);
    var g := QuadGroups(q);
    QuadGroupsAreGroups(q);
    GroupsArePlain(g);
    JoinPlain(g);
    assert g[1..] == [g[1]];
    assert q[0] in q;
    forall i | 0 <= i < |q| - 1 ensures q[i] != ':' {
      assert q[i] in q;
    }
  }

  // ----- and nothing else parses

  lemma SplitGroupsBack(p: string)
    ensures Join(SplitGroups(p), ':') == p
  {
    if p != "" {
      JoinSplit(p, ':');
    }
  }

  lemma AllGroupsParts(a: seq<string>, b: seq<string>, c: seq<string>)
    requires AllGroups(a + b + c)
    ensures AllGroups(a) && AllGroups(b) && AllGroups(c)
  {
    hide IsGroup;
    var all := a + b + c;
    assert forall i :: 0 <= i < |a| ==> a[i] == all[i];
    assert forall i :: 0 <= i < |b| ==> b[i] == all[|a| + i];
    assert forall i :: 0 <= i < |c| ==> c[i] == all[|a| + |b| + i];
  }

  /** Text without a quad that splits into eight good groups is a spelling. */
  lemma PlainSpelling(v: string) returns (s: Spelling)
    requires |SplitPairs(v)| <= 2 && GroupsOf(v).Some? && AllGroups(GroupsOf(v).value)
    ensures ValidSpelling(s) && s.quad.None? && SpellingText(s) == v
    ensures |SplitPairs(v)| == 1 ==> s == Spelling(SplitGroups(v), false, [], None)
    ensures |SplitPairs(v)| == 2 ==>
              s == Spelling(SplitGroups(SplitPairs(v)[0]), true, SplitGroups(SplitPairs(v)[1]), None)
  {
    hide IsGroup, SplitGroups, Join, Zeros;
    var parts := SplitPairs(v);
    if |parts| == 1 {
      SplitPairsWhole(v);
      SplitGroupsBack(v);
      s := Spelling(SplitGroups(v), false, [], None);
      NoMore(s.head);
    } else {
      SplitPairsTwo(v);
      SplitGroupsBack(parts[0]);
      SplitGroupsBack(parts[1]);
      var head, rest := SplitGroups(parts[0]), SplitGroups(parts[1]);
      AllGroupsParts(head, Zeros(8 - |head| - |rest|), rest);
      s := Spelling(head, true, rest, None);
      NoMore(rest);
    }
  }

  /** Groups of text that ends in two given groups after a colon. */
  lemma SplitTwoMore(p: string, hi: string, lo: string)
    requires ':' !in hi && ':' !in lo
    ensures Split(p + ":" + (hi + ":" + lo), ':') == Split(p, ':') + [hi, lo]
  {
    assert p + ":" + (hi + ":" + lo) == (p + ":" + hi) + ":" + lo;
    SplitLast(p + ":" + hi, ':', lo);
    SplitLast(p, ':', hi);
    assert Split(p, ':') + [hi] + [lo] == Split(p, ':') + [hi, lo];
  }

  lemma SplitJustTwo(hi: string, lo: string)
    requires ':' !in hi && ':' !in lo
    ensures Split(hi + ":" + lo, ':') == [hi, lo]
  {
    SplitAt(hi, ':', lo);
    SplitWhole(lo, ':');
    assert hi + [':'] + lo == hi + ":" + lo;
  }

  /** The groups of `r` followed by a quad's two groups, where `r` is empty or ends in a colon. */
  function GroupsBefore(r: string): seq<string> {
    if r == "" then [] else Split(r[..|r| - 1], ':')
  }

  lemma GroupsBeforeSplit(r: string, hi: string, lo: string)
    requires r == "" || r[|r| - 1] == ':'
    requires ':' !in hi && ':' !in lo
    ensures SplitGroups(r + (hi + ":" + lo)) == GroupsBefore(r) + [hi, lo]
  {
    if r == "" {
      SplitJustTwo(hi, lo);
      assert r + (hi + ":" + lo) == hi + ":" + lo;
      assert GroupsBefore(r) + [hi, lo] == [hi, lo];
    } else {
      SplitTwoMore(r[..|r| - 1], hi, lo);
      assert r == r[..|r| - 1] + ":";
    }
  }

  lemma GroupsBeforeJoin(r: string, q: string)
    requires r == "" || r[|r| - 1] == ':'
    ensures Join(GroupsBefore(r) + [q], ':') == r + q
  {
    if r == "" {
      assert GroupsBefore(r) + [q] == [q];
    } else {
      JoinOneMore(Split(r[..|r| - 1], ':'), q);
      JoinSplit(r[..|r| - 1], ':');
      assert r == r[..|r| - 1] + ":";
    }
  }

  lemma {:induction false} LastPartEnds(p: string)
    requires p != "" && p[|p| - 1] == ':'
    ensures var parts := SplitPairs(p); var r := parts[|parts| - 1]; r == "" || r[|r| - 1] == ':'
  {
    if |p| >= 2 {
      if p[0] == ':' && p[1] == ':' {
        if p[2..] != "" {
          LastPartEnds(p[2..]);
        }
      } else {
        LastPartEnds(p[1..]);
      }
    }
  }

  /** Text with a quad that parses is a spelling with that quad. */
  lemma QuadSpelling(p: string, q: string) returns (s: Spelling)
    requires p != "" && p[|p| - 1] == ':' && IsIpv4(q) && ':' !in q
    requires var x := QuadGroups(q)[0] + ":" + QuadGroups(q)[1];
             |SplitPairs(p + x)| <= 2 && GroupsOf(p + x).Some? && AllGroups(GroupsOf(p + x).value)
    ensures ValidSpelling(s) && SpellingText(s) == p + q
  {
    hide IsIpv4, Ipv4Value, HexText, IsGroup, SplitPairs, SplitGroups, Join, GroupsBefore, Zeros, GroupsOf;
    var g := QuadGroups(q);
    var x := g[0] + ":" + g[1];
    var plain := PlainSpelling(p + x);
    QuadShape(q);
    SplitPairsAppend(p, x);
    LastPartEnds(p);
    QuadGroupsAreGroups(q);
    GroupsArePlain(g);
    if |SplitPairs(p)| == 1 {
      SplitPairsWhole(p);
      GroupsBeforeSplit(p, g[0], g[1]);
      GroupsBeforeJoin(p, q);
      s := Spelling(GroupsBefore(p), false, [], Some(q));
      AllGroupsParts(GroupsBefore(p), [g[0], g[1]], []);
    } else {
      SplitPairsTwo(p);
      var p0, r := SplitPairs(p)[0], SplitPairs(p)[1];
      GroupsBeforeSplit(r, g[0], g[1]);
      GroupsBeforeJoin(r, q);
      SplitGroupsBack(p0);
      s := Spelling(SplitGroups(p0), true, GroupsBefore(r), Some(q));
      AllGroupsParts(GroupsBefore(r), [g[0], g[1]], []);
      assert p0 + "::" + (r + q) == (p0 + "::" + r) + q;
    }
  }

  /** The quad alone, with no colon before it, never makes eight groups. */
  lemma LoneQuad(q: string)
    requires IsIpv4(q) && ':' !in q
    ensures GroupsOf(QuadGroups(q)[0] + ":" + QuadGroups(q)[1]).None?
  {
    var g := QuadGroups(q);
    QuadShape(q);
    QuadGroupsAreGroups(q);
    GroupsArePlain(g);
    hide IsIpv4, Ipv4Value, HexText, SplitPairs;
    SplitPairsNone(g[0] + ":" + g[1]);
    SplitJustTwo(g[0], g[1]);
  }

  lemma ParsedHasSpelling(value: string)
    requires Ipv6Value(value).Some?
    ensures exists s :: ValidSpelling(s) && DropZone(Trim(value)) == SpellingText(s)
  {
    hide IsIpv4, Ipv4Value, HexText, IsGroup, SplitPairs, GroupsOf, Trim, DropZone, LastIndexOf, GroupsValue,
         ValidSpelling, SpellingText;
    var bare := DropZone(Trim(value));
    var i := TailStart(bare);
    var p, q := bare[..i], bare[i..];
    assert bare == p + q;
    assert ':' !in q by { LastIndexAfter(bare); }
    if '.' !in q {
      var s := PlainSpelling(bare);
    } else {
      var g := QuadGroups(q);
      assert p + g[0] + ":" + g[1] == p + (g[0] + ":" + g[1]);
      ExpandedPairs(p, q);
      assert p == "" ==> p + (g[0] + ":" + g[1]) == g[0] + ":" + g[1];
      if p == "" {
        LoneQuad(q);
        assert false;
      } else {
        LastIndexAfter(bare);
        var s := QuadSpelling(p, q);
      }
    }
  }

  lemma LastIndexAfter(v: string)
    ensures ':' !in v[TailStart(v)..]
    ensures TailStart(v) > 0 ==> v[TailStart(v) - 1] == ':'
  {
  }

  lemma ExpandedPairs(p: string, q: string)
    requires IsIpv4(q) && ':' !in q
    ensures |SplitPairs(p + (QuadGroups(q)[0] + ":" + QuadGroups(q)[1]))| == |SplitPairs(p + q)|
  {
    hide IsIpv4, Ipv4Value, HexText, SplitPairs, NoPair;
    QuadShape(q);
    SplitPairsAppend(p, q);
    SplitPairsAppend(p, QuadGroups(q)[0] + ":" + QuadGroups(q)[1]);
  }

  /** The parser accepts exactly the spellings, and returns exactly the address a spelling denotes. */
  lemma ParserIsExact(value: string, n: nat)
    ensures Ipv6Value(value) == Some(n)
         <==> exists s :: ValidSpelling(s) && DropZone(Trim(value)) == SpellingText(s) && SpellingValue(s) == n
  {
    hide Ipv6Value, ValidSpelling, SpellingText, SpellingValue, DropZone, Trim;
    if Ipv6Value(value) == Some(n) {
      ParsedHasSpelling(value);
      var s :| ValidSpelling(s) && DropZone(Trim(value)) == SpellingText(s);
      SpellingParses(value, s);
    }
    if s :| ValidSpelling(s) && DropZone(Trim(value)) == SpellingText(s) && SpellingValue(s) == n {
      SpellingParses(value, s);
    }
  }

  // ----- every 128-bit address has spellings

  function Words(n: nat, count: nat): (ws: seq<nat>)
    ensures |ws| == count && forall i :: 0 <= i < count ==> ws[i] < 0x1_0000
  {
    if count == 0 then [] else Words(n / 0x1_0000, count - 1) + [n % 0x1_0000]
  }

  function Pow16(count: nat): nat {
    if count == 0 then 1 else 0x1_0000 * Pow16(count - 1)
  }

  lemma {:induction false} WordsRoundTrip(n: nat, count: nat)
    requires n < Pow16(count)
    ensures WordsValue(Words(n, count)) == n
  {
    if count != 0 {
      WordsRoundTrip(n / 0x1_0000, count - 1);
      assert Words(n, count)[..count - 1] == Words(n / 0x1_0000, count - 1);
    }
  }

  lemma {:induction false} WordsValueFits(ws: seq<nat>)
    requires forall i :: 0 <= i < |ws| ==> ws[i] < 0x1_0000
    ensures WordsValue(ws) < Pow16(|ws|)
  {
    if ws != [] {
      WordsValueFits(ws[..|ws| - 1]);
    }
  }

  /** The uncompressed lower-case spelling of an address. */
  function Canonical(n: nat): Spelling {
    Spelling(seq(8, i requires 0 <= i < 8 => HexText(Words(n, 8)[i])), false, [], None)
  }

  lemma CanonicalSpelling(n: nat)
    requires n < Pow16(8)
    ensures ValidSpelling(Canonical(n)) && SpellingValue(Canonical(n)) == n
  {
    var s := Canonical(n);
    forall i | 0 <= i < 8 ensures IsGroup(s.head[i]) && HexValue(s.head[i]) == Words(n, 8)[i] {
      HexGroup(Words(n, 8)[i]);
    }
    hide HexText, IsGroup;
    assert AllGroups(s.head);
    assert GroupWords(s.head) == Words(n, 8);
    assert GroupWords(s.head) + seq(8 - Width(s), i => 0) + GroupWords(s.rest) + QuadWords(s) == Words(n, 8);
    WordsRoundTrip(n, 8);
  }

  /** Groups and colons are neither blank nor a zone mark, so such text reaches the parser unchanged. */
  lemma {:induction false} JoinGroupChars(gs: seq<string>)
    requires AllGroups(gs)
    ensures forall c :: c in Join(gs, ':') ==> IsHex(c) || c == ':'
  {
    if gs != [] {
      JoinGroupChars(gs[1..]);
    }
  }

  predicate IsAddressCharacter(c: char) { IsHex(c) || c == ':' || c == '.' }

  lemma AddressCharacter(c: char)
    requires IsAddressCharacter(c)
    ensures !IsBlank(c) && c != '%' && c != '/' && c != ','
  {
  }

  lemma AddressTextUnchanged(t: string)
    requires forall c :: c in t ==> IsAddressCharacter(c)
    ensures DropZone(Trim(t)) == t && Trim(t) == t
  {
    hide IsHex, IsBlank, TrimStart, TrimEnd;
    forall c | c in t ensures !IsBlank(c) && c != '%' {
      AddressCharacter(c);
    }
    if t != "" {
      assert t[0] in t && t[|t| - 1] in t;
    }
    TrimBare(t);
  }

  lemma PlainTextUnchanged(s: Spelling)
    requires ValidSpelling(s) && s.quad.None?
    ensures DropZone(Trim(SpellingText(s))) == SpellingText(s)
  {
    hide Join, IsGroup, Trim, DropZone, IsIpv4;
    NoMore(s.head);
    NoMore(s.rest);
    JoinGroupChars(s.head);
    JoinGroupChars(s.rest);
    AddressTextUnchanged(SpellingText(s));
  }

  /**
   RFC 4291 lets `::` stand for one or more groups of zeros. The parser also takes it between eight groups, where it
   stands for none.
   */
  lemma EmptyRunAccepted(head: seq<string>, rest: seq<string>)
    requires AllGroups(head) && AllGroups(rest) && |head| + |rest| == 8
    ensures Ipv6Value(Join(head, ':') + "::" + Join(rest, ':')) == Ipv6Value(Join(head + rest, ':'))
    ensures Ipv6Value(Join(head + rest, ':')).Some?
  {
    hide Join, Ipv6Value, IsGroup, DropZone, Trim, SpellingValue;
    var a, b := Spelling(head, true, rest, None), Spelling(head + rest, false, [], None);
    NoMore(rest);
    NoMore(head + rest);
    assert AllGroups(head + rest);
    PlainTextUnchanged(a);
    PlainTextUnchanged(b);
    SpellingParses(SpellingText(a), a);
    SpellingParses(SpellingText(b), b);
    SameAddress(head, rest);
  }

  lemma SameAddress(head: seq<string>, rest: seq<string>)
    requires AllGroups(head) && AllGroups(rest) && |head| + |rest| == 8 && AllGroups(head + rest)
    ensures SpellingValue(Spelling(head, true, rest, None)) == SpellingValue(Spelling(head + rest, false, [], None))
  {
    hide IsGroup, WordsValue;
    var a, b := Spelling(head, true, rest, None), Spelling(head + rest, false, [], None);
    assert GroupWords(head + rest) == GroupWords(head) + GroupWords(rest);
    assert GroupWords(a.head) + seq(8 - Width(a), i => 0) + GroupWords(a.rest) + QuadWords(a)
        == GroupWords(b.head) + seq(8 - Width(b), i => 0) + GroupWords(b.rest) + QuadWords(b);
  }
}
