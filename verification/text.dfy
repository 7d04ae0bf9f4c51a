/** Strings as the component uses them: JavaScript's String.prototype.trim,
    Number.prototype.toString for non-negative integers (the clock reading and
    the counts embedded in messages), and Array.prototype.join. */
module Text {

  /** The code points String.prototype.trim removes: the ECMAScript WhiteSpace
      production (TAB, VT, FF, ZWNBSP and every Unicode "Zs" space) and the
      LineTerminator production (LF, CR, LS, PS). */
  predicate IsWhitespace(c: char)
  {
    c == '\t' || c == '\n' || c == '\U{000B}' || c == '\U{000C}' || c == '\r'
    || c == ' ' || c == '\U{00A0}' || c == '\U{1680}'
    || ('\U{2000}' <= c <= '\U{200A}')
    || c == '\U{2028}' || c == '\U{2029}' || c == '\U{202F}' || c == '\U{205F}'
    || c == '\U{3000}' || c == '\U{FEFF}'
  }

  /** Drops the leading whitespace: the result is a suffix of s, it does not
      start with whitespace, and everything dropped is whitespace. */
  function TrimStart(s: string): (r: string)
    ensures |r| <= |s| && r == s[|s| - |r|..]
    ensures r == [] || !IsWhitespace(r[0])
    ensures forall k :: 0 <= k < |s| - |r| ==> IsWhitespace(s[k])
  {
    if s != [] && IsWhitespace(s[0]) then TrimStart(s[1..]) else s
  }

  /** Drops the trailing whitespace: the result is a prefix of s, it does not
      end with whitespace, and everything dropped is whitespace. */
  function TrimEnd(s: string): (r: string)
    ensures |r| <= |s| && r == s[..|r|]
    ensures r == [] || !IsWhitespace(r[|r| - 1])
    ensures forall k :: |r| <= k < |s| ==> IsWhitespace(s[k])
  {
    if s != [] && IsWhitespace(s[|s| - 1]) then TrimEnd(s[..|s| - 1]) else s
  }

  /** String.prototype.trim. The result is empty exactly when every character
      of s is whitespace; otherwise it neither starts nor ends with whitespace. */
  function Trim(s: string): (r: string)
    ensures |r| <= |s|
    ensures r == [] <==> forall k :: 0 <= k < |s| ==> IsWhitespace(s[k])
    ensures r == [] || (!IsWhitespace(r[0]) && !IsWhitespace(r[|r| - 1]))
  {
    var t := TrimStart(s);
    var r := TrimEnd(t);
    assert r != [] ==> !IsWhitespace(r[0]) by {
      if r != [] {
        assert r[0] == t[0];
      }
    }
    r
  }

  /** `!text.trim()`: the text is empty once trimmed, which happens exactly
      when it holds nothing but whitespace. */
  function IsBlank(s: string): (r: bool)
    ensures r <==> forall k :: 0 <= k < |s| ==> IsWhitespace(s[k])
  {
    Trim(s) == []
  }

  /** Trimming whitespace off a string whose core does not itself start or
      end with whitespace yields exactly that core; this pins Trim down
      independently of how it is computed. */
  lemma {:induction false} TrimAround(pre: string, mid: string, post: string)
    requires forall k :: 0 <= k < |pre| ==> IsWhitespace(pre[k])
    requires forall k :: 0 <= k < |post| ==> IsWhitespace(post[k])
    requires mid == [] || (!IsWhitespace(mid[0]) && !IsWhitespace(mid[|mid| - 1]))
    ensures Trim(pre + mid + post) == mid
  {
    assert pre + mid + post == pre + (mid + post);
    if mid == [] {
      assert pre + mid + post == pre + post;
      assert forall k :: 0 <= k < |pre + post| ==> IsWhitespace((pre + post)[k]) by {
        forall k | 0 <= k < |pre + post| ensures IsWhitespace((pre + post)[k]) {
          if k >= |pre| { assert (pre + post)[k] == post[k - |pre|]; }
        }
      }
    } else {
      TrimStartSkips(pre, mid + post);
      TrimEndSkips(mid, post);
    }
  }

  lemma {:induction false} TrimStartSkips(pre: string, t: string)
    requires forall k :: 0 <= k < |pre| ==> IsWhitespace(pre[k])
    requires t == [] || !IsWhitespace(t[0])
    ensures TrimStart(pre + t) == t
  {
    if pre == [] {
      assert pre + t == t;
    } else {
      assert (pre + t)[0] == pre[0];
      assert (pre + t)[1..] == pre[1..] + t;
      TrimStartSkips(pre[1..], t);
    }
  }

  lemma {:induction false} TrimEndSkips(t: string, post: string)
    requires forall k :: 0 <= k < |post| ==> IsWhitespace(post[k])
    requires t == [] || !IsWhitespace(t[|t| - 1])
    ensures TrimEnd(t + post) == t
    decreases |post|
  {
    if post == [] {
      assert t + post == t;
    } else {
      var n := |t + post|;
      assert (t + post)[n - 1] == post[|post| - 1];
      assert (t + post)[..n - 1] == t + post[..|post| - 1];
      TrimEndSkips(t, post[..|post| - 1]);
    }
  }

  // ---------------------------------------------------------------------
  // Decimal rendering of non-negative integers

  predicate IsDigit(c: char)
  {
    '0' <= c <= '9'
  }

  function DigitChar(d: nat): (c: char)
    requires d < 10
    ensures IsDigit(c)
  {
    ('0' as int + d) as char
  }

  function DigitValue(c: char): (d: nat)
    requires IsDigit(c)
    ensures d < 10
  {
    c as int - '0' as int
  }

  /** Number.prototype.toString() of a non-negative integer: its decimal
      digits, most significant first, with no leading zero except for 0
      itself. */
  function DecimalString(n: nat): (r: string)
    ensures |r| >= 1
    ensures forall k :: 0 <= k < |r| ==> IsDigit(r[k])
    ensures r[0] == '0' <==> n == 0
    ensures n == 0 ==> r == "0"
    decreases n
  {
    if n < 10 then [DigitChar(n)] else DecimalString(n / 10) + [DigitChar(n % 10)]
  }

  /** The number a string of decimal digits denotes. */
  function DigitsValue(ds: string): nat
    requires forall k :: 0 <= k < |ds| ==> IsDigit(ds[k])
    decreases |ds|
  {
    if ds == [] then 0 else DigitsValue(ds[..|ds| - 1]) * 10 + DigitValue(ds[|ds| - 1])
  }

  /** The length of the run of decimal digits at the start of s. */
  function LeadingDigits(s: string): (k: nat)
    ensures k <= |s|
    ensures forall j :: 0 <= j < k ==> IsDigit(s[j])
    ensures k == |s| || !IsDigit(s[k])
  {
    if s != [] && IsDigit(s[0]) then 1 + LeadingDigits(s[1..]) else 0
  }

  /** Reads the number written at the start of s and returns it with the
      text that follows it. */
  function ReadNat(s: string): (nat, string)
  {
    var k := LeadingDigits(s);
    (DigitsValue(s[..k]), s[k..])
  }

  lemma {:induction false} LeadingDigitsOf(ds: string, rest: string)
    requires forall k :: 0 <= k < |ds| ==> IsDigit(ds[k])
    requires rest == [] || !IsDigit(rest[0])
    ensures LeadingDigits(ds + rest) == |ds|
  {
    if ds == [] {
      assert ds + rest == rest;
    } else {
      assert (ds + rest)[0] == ds[0];
      assert (ds + rest)[1..] == ds[1..] + rest;
      LeadingDigitsOf(ds[1..], rest);
    }
  }

  lemma {:induction false} DigitsValueOfDecimal(n: nat)
    ensures DigitsValue(DecimalString(n)) == n
    decreases n
  {
    var r := DecimalString(n);
    if n < 10 {
      assert r[..0] == [];
    } else {
      var q := DecimalString(n / 10);
      assert r[..|r| - 1] == q;
      DigitsValueOfDecimal(n / 10);
    }
  }

  /** Reading back a rendered number, followed by any text that does not
      start with a digit, recovers the number and the text. */
  lemma {:induction false} ReadDecimal(n: nat, rest: string)
    requires rest == [] || !IsDigit(rest[0])
    ensures ReadNat(DecimalString(n) + rest) == (n, rest)
  {
    var ds := DecimalString(n);
    LeadingDigitsOf(ds, rest);
    assert (ds + rest)[..|ds|] == ds;
    assert (ds + rest)[|ds|..] == rest;
    DigitsValueOfDecimal(n);
  }

  /** Two numbers render to the same text exactly when they are equal. */
  lemma {:induction false} DecimalStringInjective(a: nat, b: nat)
    ensures DecimalString(a) == DecimalString(b) <==> a == b
  {
    ReadDecimal(a, []);
    ReadDecimal(b, []);
    assert DecimalString(a) + [] == DecimalString(a);
    assert DecimalString(b) + [] == DecimalString(b);
  }

  // ---------------------------------------------------------------------
  // Array.prototype.join

  /** The summed lengths of the parts. */
  function TotalLength(parts: seq<string>): nat
  {
    if parts == [] then 0 else |parts[0]| + TotalLength(parts[1..])
  }

  /** parts.join(sep): the parts in order with sep between neighbours. */
  function Join(parts: seq<string>, sep: string): string
  {
    if |parts| == 0 then ""
    else if |parts| == 1 then parts[0]
    else parts[0] + sep + Join(parts[1..], sep)
  }

  /** Joining keeps every character of every part and adds one separator per
      pair of neighbours. */
  lemma {:induction false} JoinLength(parts: seq<string>, sep: string)
    ensures |Join(parts, sep)| == TotalLength(parts) + if parts == [] then 0 else (|parts| - 1) * |sep|
  {
    if |parts| >= 2 {
      JoinLength(parts[1..], sep);
    }
  }

  /** Adding one more part puts exactly one separator before it. */
  lemma {:induction false} JoinSnoc(parts: seq<string>, p: string, sep: string)
    requires parts != []
    ensures Join(parts + [p], sep) == Join(parts, sep) + sep + p
  {
    if |parts| == 1 {
      assert parts + [p] == [parts[0], p];
      assert [parts[0], p][1..] == [p];
    } else {
      assert (parts + [p])[1..] == parts[1..] + [p];
      JoinSnoc(parts[1..], p, sep);
    }
  }
}
