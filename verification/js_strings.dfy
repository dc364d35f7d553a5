/**
 * The JavaScript string built-ins the core relies on: white space as the
 * language defines it, trimming, charAt / substring / substr, and hexadecimal
 * conversion in both directions (parseInt with radix 16 and
 * Number.prototype.toString(16)).
 */
module JsStrings {
  import opened JsNumbers

  /** The characters JavaScript counts as white space or line terminators (also what \s matches). */
  const Whitespace: set<char> := {
    ' ', '\t', '\n', '\r', '\U{000B}', '\U{000C}', '\U{00A0}', '\U{1680}',
    '\U{2000}', '\U{2001}', '\U{2002}', '\U{2003}', '\U{2004}', '\U{2005}',
    '\U{2006}', '\U{2007}', '\U{2008}', '\U{2009}', '\U{200A}',
    '\U{2028}', '\U{2029}', '\U{202F}', '\U{205F}', '\U{3000}', '\U{FEFF}'
  }

  predicate IsWhitespace(c: char)
  {
    c in Whitespace
  }

  predicate AllWhitespace(s: string)
  {
    forall k :: 0 <= k < |s| ==> IsWhitespace(s[k])
  }

  /** s without its trailing white space. */
  function TrimEnd(s: string): (r: string)
    ensures r <= s && AllWhitespace(s[|r|..])
    ensures r == [] || !IsWhitespace(r[|r| - 1])
  {
    if s == [] || !IsWhitespace(s[|s| - 1]) then s
    else
      var r := TrimEnd(s[..|s| - 1]);
      assert s[|r|..] == s[..|s| - 1][|r|..] + [s[|s| - 1]];
      r
  }

  /** s without its leading white space. */
  function TrimStart(s: string): (r: string)
    ensures |r| <= |s| && r == s[|s| - |r|..] && AllWhitespace(s[..|s| - |r|])
    ensures r == [] || !IsWhitespace(r[0])
  {
    if s == [] || !IsWhitespace(s[0]) then s
    else
      var t := TrimStart(s[1..]);
      assert s[1..][..|s| - 1 - |t|] == s[1..|s| - |t|];
      t
  }

  /** An index clamped into 0..n. */
  function Clamp(i: int, n: nat): (r: nat)
    ensures r <= n && (0 <= i <= n ==> r == i)
  {
    if i < 0 then 0 else if i > n then n else i
  }

  /** s.charAt(i): the one-character string at i, or "" out of range. */
  function CharAt(s: string, i: int): (r: string)
    ensures 0 <= i < |s| ==> r == [s[i]]
    ensures !(0 <= i < |s|) ==> r == ""
  {
    if 0 <= i < |s| then [s[i]] else ""
  }

  /** s.substring(a, b): both ends clamped into the string, taken in increasing order. */
  function Substring(s: string, a: int, b: int): (r: string)
    ensures 0 <= a <= b <= |s| ==> r == s[a..b]
    ensures |r| <= |s|
  {
    var x, y := Clamp(a, |s|), Clamp(b, |s|);
    if x <= y then s[x..y] else s[y..x]
  }

  /** s.substr(start, length): a negative start counts from the end; the length is cut at the end. */
  function Substr(s: string, start: int, length: int): (r: string)
    ensures 0 <= start && 0 <= length && start + length <= |s| ==> r == s[start..start + length]
    ensures start < 0 && -start <= |s| && length >= -start ==> r == s[|s| + start..]
    ensures |r| <= if length < 0 then 0 else length
  {
    var b := if start < 0 then Clamp(|s| + start, |s|) else Clamp(start, |s|);
    var e := Clamp(b + (if length < 0 then 0 else length), |s|);
    s[b..e]
  }

  // ---------------------------------------------------------------------------
  // Hexadecimal digits

  predicate IsHexDigit(c: char)
  {
    '0' <= c <= '9' || 'a' <= c <= 'f' || 'A' <= c <= 'F'
  }

  /** A digit as toString(16) writes it. */
  predicate IsLowerHexDigit(c: char)
  {
    '0' <= c <= '9' || 'a' <= c <= 'f'
  }

  predicate AllHex(t: string)
  {
    forall k :: 0 <= k < |t| ==> IsHexDigit(t[k])
  }

  predicate AllLowerHex(t: string)
  {
    forall k :: 0 <= k < |t| ==> IsLowerHexDigit(t[k])
  }

  /** The value of a hexadecimal digit (0 for any other character). */
  function HexDigitValue(c: char): (v: nat)
    ensures v < 16
  {
    if '0' <= c <= '9' then c as int - '0' as int
    else if 'a' <= c <= 'f' then c as int - 'a' as int + 10
    else if 'A' <= c <= 'F' then c as int - 'A' as int + 10
    else 0
  }

  /** The lower-case digit for a value below 16. */
  function DigitChar(d: nat): (c: char)
    requires d < 16
    ensures IsLowerHexDigit(c) && HexDigitValue(c) == d
  {
    if d < 10 then ('0' as int + d) as char else ('a' as int + d - 10) as char
  }

  lemma DigitCharOfValue(c: char)
    requires IsLowerHexDigit(c)
    ensures DigitChar(HexDigitValue(c)) == c
  {
  }

  function Pow16(k: nat): (r: nat)
    ensures r >= 1
  {
    if k == 0 then 1 else 16 * Pow16(k - 1)
  }

  /** The value of a string of hexadecimal digits, most significant first. */
  function HexValue(t: string): nat
  {
    if t == [] then 0 else HexValue(t[..|t| - 1]) * 16 + HexDigitValue(t[|t| - 1])
  }

  /** The k lowest hexadecimal digits of n, lower case, most significant first. */
  function Digits(n: nat, k: nat): (r: string)
    ensures |r| == k && AllLowerHex(r)
  {
    if k == 0 then "" else Digits(n / 16, k - 1) + [DigitChar(n % 16)]
  }

  /** n.toString(16) for a non-negative integer: lower-case digits, no leading zeros. */
  function ToString16(n: nat): (r: string)
    ensures |r| >= 1 && AllLowerHex(r)
  {
    if n < 16 then [DigitChar(n)] else ToString16(n / 16) + [DigitChar(n % 16)]
  }

  /** n.toString(16) for any integer: a minus sign before the digits of a negative number. */
  function NumberToString16(n: int): string
  {
    if n < 0 then "-" + ToString16(-n) else ToString16(n)
  }

  /** The length of the run of hexadecimal digits s starts with. */
  function HexRun(s: string): (n: nat)
    ensures n <= |s| && AllHex(s[..n]) && (n == |s| || !IsHexDigit(s[n]))
  {
    if s == [] || !IsHexDigit(s[0]) then 0
    else
      var m := HexRun(s[1..]);
      assert s[..m + 1] == [s[0]] + s[1..][..m];
      m + 1
  }

  /** An optional leading sign: whether it is a minus, and the text after it. */
  function SplitSign(t: string): (r: (bool, string))
    ensures (t == [] || (t[0] != '-' && t[0] != '+')) ==> r == (false, t)
  {
    if |t| > 0 && (t[0] == '-' || t[0] == '+') then (t[0] == '-', t[1..]) else (false, t)
  }

  /** The text after an optional 0x or 0X. */
  function SkipHexPrefix(u: string): (v: string)
    ensures (|u| < 2 || u[0] != '0' || (u[1] != 'x' && u[1] != 'X')) ==> v == u
  {
    if |u| >= 2 && u[0] == '0' && (u[1] == 'x' || u[1] == 'X') then u[2..] else u
  }

  /**
   * parseInt(s, 16): leading white space is skipped, then an optional sign,
   * then an optional 0x or 0X; the longest run of hexadecimal digits that
   * follows is the value, and NaN when there is none.
   */
  function ParseInt16(s: string): Num
  {
    var (negative, u) := SplitSign(TrimStart(s));
    var v := SkipHexPrefix(u);
    var n := HexRun(v);
    if n == 0 then NaN
    else Int(if negative then -(HexValue(v[..n]) as int) else HexValue(v[..n]))
  }

  // ---------------------------------------------------------------------------
  // Properties

  lemma Pow16Values()
    ensures Pow16(2) == 0x100 && Pow16(4) == 0x1_0000 && Pow16(6) == TwoTo24
  {
  }

  lemma Mul16(a: nat, k: nat)
    requires k >= 1
    ensures a * Pow16(k) == 16 * (a * Pow16(k - 1))
  {
  }

  lemma {:induction false} MulAtLeast(q: nat, p: nat)
    requires q >= 1
    ensures q * p >= p
    decreases q
  {
    if q > 1 {
      MulAtLeast(q - 1, p);
      assert q * p == (q - 1) * p + p;
    }
  }

  /** A string of k digits has a value below 16^k. */
  lemma {:induction false} HexValueBound(t: string)
    ensures HexValue(t) < Pow16(|t|)
    decreases |t|
  {
    if t != [] {
      HexValueBound(t[..|t| - 1]);
    }
  }

  /** Reading back k digits of a number below 16^k gives the number. */
  lemma {:induction false} DigitsValue(n: nat, k: nat)
    requires n < Pow16(k)
    ensures HexValue(Digits(n, k)) == n
    decreases k
  {
    if k > 0 {
      var d := Digits(n, k);
      assert d[..k - 1] == Digits(n / 16, k - 1);
      DigitsValue(n / 16, k - 1);
    }
  }

  /** Writing back the value of lower-case digits gives the digits. */
  lemma {:induction false} ValueDigits(t: string)
    requires AllLowerHex(t)
    ensures Digits(HexValue(t), |t|) == t
    decreases |t|
  {
    if t != [] {
      var init, last := t[..|t| - 1], t[|t| - 1];
      assert AllLowerHex(init);
      ValueDigits(init);
      var v, w := HexValue(t), HexValue(init);
      assert v == w * 16 + HexDigitValue(last);
      assert v / 16 == w && v % 16 == HexDigitValue(last);
      DigitCharOfValue(last);
      assert Digits(v, |t|) == Digits(w, |t| - 1) + [last];
      assert init + [last] == t;
    }
  }

  /** Dividing by 16 a number made of sixteen times a part plus a remainder. */
  lemma Div16(n: nat, m: nat, b: nat)
    requires n == 16 * m + b
    ensures n / 16 == m + b / 16 && n % 16 == b % 16
  {
  }

  /** The k low digits and the digits above them are written independently. */
  lemma {:induction false} DigitsSplit(n: nat, a: nat, b: nat, j: nat, k: nat)
    requires b < Pow16(k) && n == a * Pow16(k) + b
    ensures Digits(n, j + k) == Digits(a, j) + Digits(b, k)
    decreases k
  {
    if k > 0 {
      var m := a * Pow16(k - 1);
      Mul16(a, k);
      Div16(n, m, b);
      DigitsSplit(n / 16, a, b / 16, j, k - 1);
    }
  }

  /** toString(16) of a number whose k low digits are b writes those digits last, zeros included. */
  lemma {:induction false} ToString16Split(n: nat, q: nat, b: nat, k: nat)
    requires q >= 1 && b < Pow16(k) && n == q * Pow16(k) + b
    ensures ToString16(n) == ToString16(q) + Digits(b, k)
    decreases k
  {
    if k > 0 {
      var m := q * Pow16(k - 1);
      Mul16(q, k);
      MulAtLeast(q, Pow16(k - 1));
      assert n >= 16;
      Div16(n, m, b);
      ToString16Split(n / 16, q, b / 16, k - 1);
      var c := [DigitChar(b % 16)];
      assert ToString16(n) == ToString16(n / 16) + c;
      assert Digits(b, k) == Digits(b / 16, k - 1) + c;
      assert (ToString16(q) + Digits(b / 16, k - 1)) + c == ToString16(q) + (Digits(b / 16, k - 1) + c);
    } else {
      assert n == q;
    }
  }

  lemma {:induction false} HexRunAll(t: string)
    requires AllHex(t)
    ensures HexRun(t) == |t|
    decreases |t|
  {
    if t != [] {
      HexRunAll(t[1..]);
    }
  }

  lemma HexNotSpace(c: char)
    requires IsHexDigit(c)
    ensures !IsWhitespace(c) && c != '-' && c != '+' && c != 'x' && c != 'X'
  {
  }

  /** parseInt reads a plain run of hexadecimal digits as their value. */
  lemma ParseHexDigits(t: string)
    requires |t| > 0 && AllHex(t)
    ensures ParseInt16(t) == Int(HexValue(t))
  {
    HexNotSpace(t[0]);
    assert TrimStart(t) == t;
    assert SplitSign(t) == (false, t);
    if |t| >= 2 {
      HexNotSpace(t[1]);
    }
    assert SkipHexPrefix(t) == t;
    HexRunAll(t);
    assert t[..|t|] == t;
  }

  /** parseInt finds no digits in the empty string. */
  lemma ParseEmpty()
    ensures ParseInt16("") == NaN
  {
  }
}
