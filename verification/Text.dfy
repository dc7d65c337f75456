/** The JavaScript string operations the modelled code uses, on strings as sequences of characters. */
module Text {
  // ----- trim

  /** Characters that `String.prototype.trim` removes. */
  predicate IsBlank(c: char) {
    c in {'\t', '\n', '\U{0B}', '\U{0C}', '\r', ' ', '\U{A0}', '\U{1680}', '\U{2028}', '\U{2029}', '\U{202F}',
          '\U{205F}', '\U{3000}', '\U{FEFF}'} || '\U{2000}' <= c <= '\U{200A}'
  }

  function TrimStart(s: string): string {
    if s != "" && IsBlank(s[0]) then TrimStart(s[1..]) else s
  }

  function TrimEnd(s: string): string {
    if s != "" && IsBlank(s[|s| - 1]) then TrimEnd(s[..|s| - 1]) else s
  }

  function Trim(s: string): string { TrimEnd(TrimStart(s)) }

  /** No blank at either end. */
  predicate Bare(s: string) {
    s == "" || (!IsBlank(s[0]) && !IsBlank(s[|s| - 1]))
  }

  lemma {:induction false} TrimEndKeepsFirst(s: string)
    requires s != "" && !IsBlank(s[0])
    ensures TrimEnd(s) != "" && TrimEnd(s)[0] == s[0] && !IsBlank(TrimEnd(s)[|TrimEnd(s)| - 1])
    decreases |s|
  {
    if IsBlank(s[|s| - 1]) {
      TrimEndKeepsFirst(s[..|s| - 1]);
    }
  }

  lemma {:induction false} TrimStartBare(s: string)
    ensures TrimStart(s) == "" || !IsBlank(TrimStart(s)[0])
  {
    if s != "" && IsBlank(s[0]) {
      TrimStartBare(s[1..]);
    }
  }

  lemma TrimIsBare(s: string)
    ensures Bare(Trim(s))
    ensures Trim(Trim(s)) == Trim(s)
  {
    TrimStartBare(s);
    if TrimStart(s) != "" {
      TrimEndKeepsFirst(TrimStart(s));
    }
  }

  lemma TrimBare(s: string)
    requires Bare(s)
    ensures Trim(s) == s
  {
  }

  // ----- split and join

  /** `s.split(c)`: always at least one part. */
  function Split(s: string, c: char): (parts: seq<string>)
    ensures |parts| >= 1
  {
    if s == "" then [""]
    else
      var rest := Split(s[1..], c);
      if s[0] == c then [""] + rest else [[s[0]] + rest[0]] + rest[1..]
  }

  /** `parts.join(c)`. */
  function Join(parts: seq<string>, c: char): string {
    if parts == [] then ""
    else if |parts| == 1 then parts[0]
    else parts[0] + [c] + Join(parts[1..], c)
  }

  lemma {:induction false} SplitAt(a: string, c: char, b: string)
    requires c !in a
    ensures Split(a + [c] + b, c) == [a] + Split(b, c)
  {
    if a == "" {
      assert a + [c] + b == [c] + b;
    } else {
      assert (a + [c] + b)[1..] == a[1..] + [c] + b;
      SplitAt(a[1..], c, b);
      assert [a[0]] + a[1..] == a;
    }
  }

  lemma {:induction false} SplitWhole(a: string, c: char)
    requires c !in a
    ensures Split(a, c) == [a]
  {
    if a != "" {
      SplitWhole(a[1..], c);
      assert [a[0]] + a[1..] == a;
    }
  }

  ghost predicate FreeOf(parts: seq<string>, c: char) {
    forall i :: 0 <= i < |parts| ==> c !in parts[i]
  }

  /** Joining parts that do not contain the separator, then splitting, gives the parts back. */
  lemma {:induction false} SplitJoin(parts: seq<string>, c: char)
    requires parts != [] && FreeOf(parts, c)
    ensures Split(Join(parts, c), c) == parts
  {
    if |parts| == 1 {
      SplitWhole(parts[0], c);
    } else {
      SplitJoin(parts[1..], c);
      SplitAt(parts[0], c, Join(parts[1..], c));
    }
  }

  lemma {:induction false} SplitFree(s: string, c: char)
    ensures FreeOf(Split(s, c), c)
  {
    if s != "" {
      SplitFree(s[1..], c);
    }
  }

  lemma {:induction false} JoinSplit(s: string, c: char)
    ensures Join(Split(s, c), c) == s
  {
    if s != "" {
      JoinSplit(s[1..], c);
      var rest := Split(s[1..], c);
      if s[0] == c {
        assert Split(s, c)[1..] == rest;
      } else {
        assert Split(s, c)[1..] == rest[1..];
        assert [s[0]] + s[1..] == s;
      }
    }
  }

  lemma {:induction false} SplitLast(a: string, c: char, b: string)
    requires c !in b
    ensures Split(a + [c] + b, c) == Split(a, c) + [b]
  {
    if a == "" {
      SplitAt("", c, b);
      SplitWhole(b, c);
      assert "" + [c] + b == a + [c] + b;
    } else {
      assert (a + [c] + b)[1..] == a[1..] + [c] + b;
      SplitLast(a[1..], c, b);
    }
  }

  /** `x` stands at position `i` of `s`, with an end of the text or the separator on each side. */
  predicate StandsAt(s: string, c: char, x: string, i: nat) {
    && i + |x| <= |s| && s[i..i + |x|] == x
    && (i == 0 || s[i - 1] == c) && (i + |x| == |s| || s[i + |x|] == c)
  }

  lemma StandsAfter(a: string, c: char, b: string, x: string, i: nat)
    requires StandsAt(b, c, x, i)
    ensures StandsAt(a + [c] + b, c, x, |a| + 1 + i)
  {
    var s := a + [c] + b;
    assert s[|a| + 1 + i..|a| + 1 + i + |x|] == b[i..i + |x|];
  }

  /** With no separator in `a` or `x`, what stands in the whole is `a` itself or stands behind it. */
  lemma StandsBefore(a: string, c: char, b: string, x: string, i: nat)
    requires c !in a && c !in x && StandsAt(a + [c] + b, c, x, i)
    ensures x == a || (i > |a| && StandsAt(b, c, x, i - |a| - 1))
  {
    var s := a + [c] + b;
    if i > |a| {
      assert s[i..i + |x|] == b[i - |a| - 1..i - |a| - 1 + |x|];
    } else {
      assert forall k :: 0 <= k < |a| ==> s[k] == a[k] && a[k] in a;
      assert forall k :: 0 <= k < |x| ==> s[i..i + |x|][k] == s[i + k] && x[k] in x;
      assert s[|a|] == c && i == 0;
      assert s[..|a|] == a;
    }
  }

  lemma StandsAlone(s: string, c: char, x: string, i: nat)
    requires c !in s && StandsAt(s, c, x, i)
    ensures x == s
  {
    assert forall k :: 0 <= k < |s| ==> s[k] in s;
  }

  /** Being a part of the split text is standing somewhere in it between separators. */
  lemma {:induction false} PartStands(s: string, c: char, x: string)
    requires c !in x
    ensures x in Split(s, c) <==> exists i :: StandsAt(s, c, x, i)
  {
    hide StandsAt, Split;
    if c !in s {
      SplitWhole(s, c);
      if i :| StandsAt(s, c, x, i) { StandsAlone(s, c, x, i); }
      if x == s { WholeStands(s, c); }
    } else {
      var k := IndexOf(s, c);
      var a, b := s[..k], s[k + 1..];
      assert s == a + [c] + b;
      SplitAt(a, c, b);
      PartStands(b, c, x);
      if x == a { FirstStands(a, c, b); }
      if j :| StandsAt(b, c, x, j) { StandsAfter(a, c, b, x, j); }
      if i :| StandsAt(s, c, x, i) { StandsBefore(a, c, b, x, i); }
    }
  }

  lemma WholeStands(s: string, c: char)
    ensures StandsAt(s, c, s, 0)
  {
  }

  lemma FirstStands(a: string, c: char, b: string)
    ensures StandsAt(a + [c] + b, c, a, 0)
  {
    assert (a + [c] + b)[0..|a|] == a;
  }

  // ----- searching

  /** `s.lastIndexOf(c)`, with -1 for none. */
  function LastIndexOf(s: string, c: char): (i: int)
    ensures -1 <= i < |s|
    ensures i >= 0 ==> s[i] == c && c !in s[i + 1..]
    ensures i == -1 ==> c !in s
  {
    if s == "" then -1
    else if s[|s| - 1] == c then |s| - 1
    else
      var i := LastIndexOf(s[..|s| - 1], c);
      assert s == s[..|s| - 1] + [s[|s| - 1]];
      assert i >= 0 ==> s[i + 1..] == s[..|s| - 1][i + 1..] + [s[|s| - 1]];
      i
  }

  /** `s.indexOf(c)`, with -1 for none. */
  function IndexOf(s: string, c: char): (i: int)
    ensures -1 <= i < |s|
    ensures i >= 0 ==> s[i] == c && c !in s[..i]
    ensures i == -1 ==> c !in s
  {
    if s == "" then -1
    else if s[0] == c then 0
    else
      var i := IndexOf(s[1..], c);
      assert s == [s[0]] + s[1..];
      assert i >= 0 ==> s[..i + 1] == [s[0]] + s[1..][..i];
      if i < 0 then -1 else i + 1
  }

  // ----- decimal digits

  predicate IsDigit(c: char) { '0' <= c <= '9' }

  predicate AllDigits(s: string) {
    forall i :: 0 <= i < |s| ==> IsDigit(s[i])
  }

  /** The value of a run of decimal digits, most significant first. */
  function DecimalValue(s: string): nat
    requires AllDigits(s)
  {
    if s == "" then 0 else 10 * DecimalValue(s[..|s| - 1]) + (s[|s| - 1] as int - '0' as int)
  }
}
