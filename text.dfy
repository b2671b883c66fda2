/**
 * The few standard-library string and header operations the request pipeline
 * relies on: `str::contains`, `str::trim`, integer formatting with `{}` and
 * `{:x}`, and the two conversions between header bytes and text performed by
 * the `http` crate (`HeaderValue::to_str` and `HeaderValue::from_str`).
 */
module Text {
  import opened Base

  // ---------------------------------------------------------------------------
  // Substring search (`str::contains` with a `&str` pattern)
  // ---------------------------------------------------------------------------

  /** `sub` occurs in `s` at index `i`. */
  predicate OccursAt(s: string, sub: string, i: int)
  {
    0 <= i && i + |sub| <= |s| && s[i..i + |sub|] == sub
  }

  /** `s.contains(sub)`: tries every start position from the left. */
  function Contains(s: string, sub: string): bool
    decreases |s|
  {
    if sub <= s then true
    else if s == [] then false
    else Contains(s[1..], sub)
  }

  /** `Contains` is exactly "occurs somewhere". */
  lemma {:induction false} ContainsIsSubstring(s: string, sub: string)
    ensures Contains(s, sub) <==> exists i :: OccursAt(s, sub, i)
    decreases |s|
  {
    if sub <= s {
      assert OccursAt(s, sub, 0);
    } else if s != [] {
      ContainsIsSubstring(s[1..], sub);
      forall i | OccursAt(s[1..], sub, i)
        ensures OccursAt(s, sub, i + 1)
      {
        assert s[i + 1..i + 1 + |sub|] == s[1..][i..i + |sub|];
      }
      assert !OccursAt(s, sub, 0);
      forall i | OccursAt(s, sub, i) && i > 0
        ensures OccursAt(s[1..], sub, i - 1)
      {
        assert s[1..][i - 1..i - 1 + |sub|] == s[i..i + |sub|];
      }
    }
  }

  // ---------------------------------------------------------------------------
  // Whitespace trimming (`str::trim`)
  // ---------------------------------------------------------------------------

  /** `char::is_whitespace`: the characters with the Unicode White_Space property. */
  predicate IsWhitespace(c: char)
  {
    || ('\t' <= c <= '\r')
    || c == ' '
    || c == '\U{85}'
    || c == '\U{A0}'
    || c == '\U{1680}'
    || ('\U{2000}' <= c <= '\U{200A}')
    || c == '\U{2028}'
    || c == '\U{2029}'
    || c == '\U{202F}'
    || c == '\U{205F}'
    || c == '\U{3000}'
  }

  predicate AllWhitespace(s: string)
  {
    forall i :: 0 <= i < |s| ==> IsWhitespace(s[i])
  }

  /** Neither end of `t` is whitespace (vacuously so for the empty string). */
  predicate NoEdgeWhitespace(t: string)
  {
    t == [] || (!IsWhitespace(t[0]) && !IsWhitespace(t[|t| - 1]))
  }

  function TrimStart(s: string): string
  {
    if s != [] && IsWhitespace(s[0]) then TrimStart(s[1..]) else s
  }

  function TrimEnd(s: string): string
  {
    if s != [] && IsWhitespace(s[|s| - 1]) then TrimEnd(s[..|s| - 1]) else s
  }

  /** `s.trim()`: leading and trailing whitespace removed. */
  function Trim(s: string): string
  {
    TrimEnd(TrimStart(s))
  }

  lemma {:induction false} TrimStartSplit(s: string)
    ensures |TrimStart(s)| <= |s|
    ensures s[|s| - |TrimStart(s)|..] == TrimStart(s)
    ensures AllWhitespace(s[..|s| - |TrimStart(s)|])
    ensures TrimStart(s) == [] || !IsWhitespace(TrimStart(s)[0])
  {
    if s != [] && IsWhitespace(s[0]) {
      TrimStartSplit(s[1..]);
      var k := |s| - |TrimStart(s)|;
      assert s[..k] == [s[0]] + s[1..][..k - 1];
    }
  }

  lemma {:induction false} TrimEndSplit(s: string)
    ensures |TrimEnd(s)| <= |s|
    ensures s[..|TrimEnd(s)|] == TrimEnd(s)
    ensures AllWhitespace(s[|TrimEnd(s)|..])
    ensures TrimEnd(s) == [] || !IsWhitespace(TrimEnd(s)[|TrimEnd(s)| - 1])
  {
    if s != [] && IsWhitespace(s[|s| - 1]) {
      var s' := s[..|s| - 1];
      TrimEndSplit(s');
      var k := |TrimEnd(s)|;
      assert s[k..] == s'[k..] + [s[|s| - 1]];
    }
  }

  /** What `trim` removes is whitespace, and what it keeps starts and ends with non-whitespace. */
  lemma TrimIsPadded(s: string)
    ensures exists pre, post :: AllWhitespace(pre) && AllWhitespace(post) && s == pre + Trim(s) + post
    ensures NoEdgeWhitespace(Trim(s))
  {
    var u := TrimStart(s);
    TrimStartSplit(s);
    TrimEndSplit(u);
    var pre := s[..|s| - |u|];
    var post := u[|Trim(s)|..];
    assert s == pre + u;
    assert u == Trim(s) + post;
    assert s == pre + Trim(s) + post;
  }

  lemma {:induction false} TrimStartPadded(pre: string, u: string)
    requires AllWhitespace(pre)
    requires u == [] || !IsWhitespace(u[0])
    ensures TrimStart(pre + u) == u
    decreases |pre|
  {
    if pre != [] {
      assert (pre + u)[1..] == pre[1..] + u;
      TrimStartPadded(pre[1..], u);
    } else {
      assert pre + u == u;
    }
  }

  lemma {:induction false} TrimEndPadded(u: string, post: string)
    requires AllWhitespace(post)
    requires u == [] || !IsWhitespace(u[|u| - 1])
    ensures TrimEnd(u + post) == u
    decreases |post|
  {
    if post != [] {
      var post' := post[..|post| - 1];
      assert (u + post)[..|u + post| - 1] == u + post';
      TrimEndPadded(u, post');
    } else {
      assert u + post == u;
    }
  }

  /** Trimming a whitespace-padded string gives back the unpadded one: the converse of `TrimIsPadded`. */
  lemma TrimOfPadded(pre: string, t: string, post: string)
    requires AllWhitespace(pre) && AllWhitespace(post)
    requires NoEdgeWhitespace(t)
    ensures Trim(pre + t + post) == t
  {
    if t == [] {
      assert pre + t + post == (pre + post) + [];
      TrimStartPadded(pre + post, []);
    } else {
      assert pre + t + post == pre + (t + post);
      TrimStartPadded(pre, t + post);
      TrimEndPadded(t, post);
    }
  }

  // ---------------------------------------------------------------------------
  // Integer formatting (`{}` for decimal, `{:x}` for lower-case hexadecimal)
  // ---------------------------------------------------------------------------

  predicate IsDigitChar(c: char)
  {
    '0' <= c <= '9' || 'a' <= c <= 'f'
  }

  function DigitChar(d: nat): (c: char)
    requires d < 16
    ensures IsDigitChar(c)
  {
    if d < 10 then ('0' as int + d) as char else ('a' as int + d - 10) as char
  }

  function DigitValue(c: char): (d: nat)
    requires IsDigitChar(c)
    ensures d < 16 && DigitChar(d) == c
  {
    if c <= '9' then c as int - '0' as int else c as int - 'a' as int + 10
  }

  /** Digits of `s` in `base`. */
  predicate IsNumeral(s: string, base: nat)
  {
    forall i :: 0 <= i < |s| ==> IsDigitChar(s[i]) && DigitValue(s[i]) < base
  }

  /** Euclidean division by a base, as `Radix` and `ParseRadix` use it. */
  lemma DivBase(n: nat, base: nat)
    requires 2 <= base
    ensures n == (n / base) * base + n % base && 0 <= n % base < base
    ensures n >= base ==> 1 <= n / base < n
  {
  }

  /** The shortest numeral for `n` in `base`, most significant digit first, lower-case letters. */
  function Radix(n: nat, base: nat): (r: string)
    requires 2 <= base <= 16
    ensures |r| >= 1
    decreases n
  {
    if n < base then [DigitChar(n)] else (DivBase(n, base); Radix(n / base, base) + [DigitChar(n % base)])
  }

  /** Every character of `Radix(n, base)` is a digit of `base`, and only zero is written with a leading zero. */
  lemma {:induction false} RadixIsNumeral(n: nat, base: nat)
    requires 2 <= base <= 16
    ensures IsNumeral(Radix(n, base), base)
    ensures Radix(n, base)[0] == '0' ==> n == 0 && Radix(n, base) == "0"
    decreases n
  {
    if n >= base {
      DivBase(n, base);
      RadixIsNumeral(n / base, base);
      var r := Radix(n, base);
      var q := Radix(n / base, base);
      assert r == q + [DigitChar(n % base)];
      assert r[0] == q[0];
      forall i | 0 <= i < |r|
        ensures IsDigitChar(r[i]) && DigitValue(r[i]) < base
      {
        if i < |q| { assert r[i] == q[i]; }
      }
    }
  }

  /** The value of a numeral: the reference definition that `Radix` inverts. */
  function ParseRadix(s: string, base: nat): nat
    requires IsNumeral(s, base)
  {
    if s == [] then 0 else ParseRadix(s[..|s| - 1], base) * base + DigitValue(s[|s| - 1])
  }

  lemma {:induction false} ParseRadixInverse(n: nat, base: nat)
    requires 2 <= base <= 16
    ensures IsNumeral(Radix(n, base), base) && ParseRadix(Radix(n, base), base) == n
    decreases n
  {
    RadixIsNumeral(n, base);
    if n >= base {
      var r := Radix(n, base);
      DivBase(n, base);
      ParseRadixInverse(n / base, base);
      assert r[..|r| - 1] == Radix(n / base, base);
      assert DigitValue(r[|r| - 1]) == n % base;
    }
  }

  /** Two numbers with the same numeral in one base are equal. */
  lemma RadixInjective(m: nat, n: nat, base: nat)
    requires 2 <= base <= 16
    requires Radix(m, base) == Radix(n, base)
    ensures m == n
  {
    ParseRadixInverse(m, base);
    ParseRadixInverse(n, base);
  }

  /** `format!("{:x}", n)`. */
  function LowerHex(n: nat): string
  {
    Radix(n, 16)
  }

  /** `format!("{}", n)` for a signed integer. */
  function Decimal(n: int): (r: string)
    ensures |r| >= 1
  {
    if n < 0 then "-" + Radix(-n, 10) else Radix(n, 10)
  }

  // ---------------------------------------------------------------------------
  // Header bytes and text (`HeaderValue::to_str`, `HeaderValue::from_str`)
  // ---------------------------------------------------------------------------

  /** The bytes `HeaderValue::to_str` accepts: visible ASCII and horizontal tab. */
  predicate IsVisibleAscii(b: byte)
  {
    32 <= b < 127 || b == 9
  }

  predicate IsAscii(s: string)
  {
    forall i :: 0 <= i < |s| ==> s[i] as int < 128
  }

  /** The bytes of an ASCII string (its UTF-8 encoding). */
  function AsciiBytes(s: string): (v: seq<byte>)
    requires IsAscii(s)
    ensures |v| == |s| && forall i :: 0 <= i < |s| ==> v[i] == s[i] as int
  {
    if s == [] then [] else [s[0] as int as byte] + AsciiBytes(s[1..])
  }

  /** `HeaderValue::to_str`: the text of a header value whose bytes are all visible ASCII, and nothing otherwise. */
  function ToStr(v: seq<byte>): (r: Option<string>)
    ensures r.Some? <==> forall i :: 0 <= i < |v| ==> IsVisibleAscii(v[i])
    ensures r.Some? ==> IsAscii(r.value) && AsciiBytes(r.value) == v
  {
    if v == [] then Some([])
    else if !IsVisibleAscii(v[0]) then None
    else match ToStr(v[1..])
      case None => None
      case Some(t) => Some([v[0] as char] + t)
  }

  /** Text made of visible ASCII characters and tabs, the text `HeaderValue::to_str` can return. */
  predicate IsVisibleText(s: string)
  {
    forall i :: 0 <= i < |s| ==> s[i] == '\t' || ' ' <= s[i] <= '~'
  }

  lemma VisibleTextConcat(a: string, b: string)
    requires IsVisibleText(a) && IsVisibleText(b)
    ensures IsVisibleText(a + b)
  {
    forall i | 0 <= i < |a + b|
      ensures (a + b)[i] == '\t' || ' ' <= (a + b)[i] <= '~'
    {
      if i >= |a| {
        assert (a + b)[i] == b[i - |a|];
      }
    }
  }

  /** Visible text survives the trip through header bytes. */
  lemma {:induction false} ToStrOfAsciiBytes(s: string)
    requires IsVisibleText(s)
    ensures IsAscii(s) && ToStr(AsciiBytes(s)) == Some(s)
  {
    if s != [] {
      ToStrOfAsciiBytes(s[1..]);
      var v := AsciiBytes(s);
      assert v[1..] == AsciiBytes(s[1..]);
      assert IsVisibleAscii(v[0]);
      assert [v[0] as char] + s[1..] == s;
    }
  }

  /**
   * `HeaderValue::from_str` succeeds when no byte of the text is a control
   * byte other than tab: every character is a tab, or printable ASCII, or
   * outside ASCII altogether (its UTF-8 bytes are all at least 0x80).
   */
  predicate ValidHeaderValue(s: string)
  {
    forall i :: 0 <= i < |s| ==> s[i] == '\t' || (' ' <= s[i] && s[i] as int != 127)
  }
}
