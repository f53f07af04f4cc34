/** The text handling the packet builder relies on: Python's `str.strip()`,
    `int(text)` for decimal operands, hexadecimal digit strings, and the
    two-digit upper-case hexadecimal rendering of `f"{b:02X}"`. */
module Text {
  import opened Wrappers

  /** The characters for which Python's `str.isspace()` holds. */
  predicate IsSpace(c: char) {
    ('\t' <= c <= '\r') || ('\U{1C}' <= c <= ' ') || c == '\U{85}' || c == '\U{A0}'
    || c == '\U{1680}' || ('\U{2000}' <= c <= '\U{200A}') || c == '\U{2028}'
    || c == '\U{2029}' || c == '\U{202F}' || c == '\U{205F}' || c == '\U{3000}'
  }

  /** Drops the leading whitespace: the result does not start with a space. */
  function TrimStart(s: string): (r: string)
    ensures |r| <= |s|
    ensures r == [] || !IsSpace(r[0])
  {
    if |s| > 0 && IsSpace(s[0]) then TrimStart(s[1..]) else s
  }

  /** Drops the trailing whitespace: the result does not end with a space. */
  function TrimEnd(s: string): (r: string)
    ensures |r| <= |s|
    ensures r == [] || !IsSpace(r[|r| - 1])
  {
    if |s| > 0 && IsSpace(s[|s| - 1]) then TrimEnd(s[..|s| - 1]) else s
  }

  /** `TrimStart` keeps a suffix and drops only whitespace, so what it keeps
      is the longest suffix not starting with a space. */
  lemma {:induction false} TrimStartSpec(s: string)
    ensures TrimStart(s) == s[|s| - |TrimStart(s)|..]
    ensures forall i :: 0 <= i < |s| - |TrimStart(s)| ==> IsSpace(s[i])
  {
    if |s| > 0 && IsSpace(s[0]) {
      var tail := s[1..];
      TrimStartSpec(tail);
      assert tail[|tail| - |TrimStart(tail)|..] == s[|s| - |TrimStart(s)|..];
      forall i | 1 <= i < |s| - |TrimStart(s)| ensures IsSpace(s[i]) {
        assert s[i] == tail[i - 1];
      }
    }
  }

  /** `TrimEnd` keeps a prefix and drops only whitespace, so what it keeps
      is the longest prefix not ending with a space. */
  lemma {:induction false} TrimEndSpec(s: string)
    ensures TrimEnd(s) == s[..|TrimEnd(s)|]
    ensures forall i :: |TrimEnd(s)| <= i < |s| ==> IsSpace(s[i])
  {
    if |s| > 0 && IsSpace(s[|s| - 1]) {
      var init := s[..|s| - 1];
      TrimEndSpec(init);
      assert init[..|TrimEnd(init)|] == s[..|TrimEnd(s)|];
      forall i | |TrimEnd(s)| <= i < |s| - 1 ensures IsSpace(s[i]) {
        assert s[i] == init[i];
      }
    }
  }

  /** Python's `s.strip()`: the infix of `s` left once the whitespace at both
      ends is removed. */
  function Strip(s: string): (r: string)
    ensures r == [] || (!IsSpace(r[0]) && !IsSpace(r[|r| - 1]))
    ensures |r| <= |s|
    ensures (s == [] || (!IsSpace(s[0]) && !IsSpace(s[|s| - 1]))) ==> r == s
  {
    var t := TrimStart(s);
    TrimEndSpec(t);
    TrimEnd(t)
  }

  /** Only blank text strips to nothing. */
  lemma StripEmpty(s: string)
    ensures Strip(s) == [] <==> forall i :: 0 <= i < |s| ==> IsSpace(s[i])
  {
    var t := TrimStart(s);
    var k := |s| - |t|;
    TrimStartSpec(s);
    TrimEndSpec(t);
    if Strip(s) != [] {
      assert t[0] == s[k];
    }
  }

  /** `strip()` keeps exactly the text between a run of leading and a run of
      trailing whitespace, the leading run ending where `TrimStart` stops;
      with `Strip`'s own contract (no whitespace left at either end) this
      fixes the result. */
  lemma StripSpec(s: string)
    ensures var k := |s| - |TrimStart(s)|;
      && k + |Strip(s)| <= |s|
      && Strip(s) == s[k..k + |Strip(s)|]
      && (forall i :: 0 <= i < k ==> IsSpace(s[i]))
      && (forall i :: k + |Strip(s)| <= i < |s| ==> IsSpace(s[i]))
  {
    var t := TrimStart(s);
    var r := TrimEnd(t);
    assert Strip(s) == r;
    TrimStartSpec(s);
    TrimEndSpec(t);
    InnerSlice(s, t, r);
  }

  /** A prefix `r` of a suffix `t` of `s`, both cut off at whitespace only,
      is the infix of `s` between two runs of whitespace. */
  lemma InnerSlice(s: string, t: string, r: string)
    requires |t| <= |s| && t == s[|s| - |t|..] && |r| <= |t| && r == t[..|r|]
    requires forall i :: 0 <= i < |s| - |t| ==> IsSpace(s[i])
    requires forall i :: |r| <= i < |t| ==> IsSpace(t[i])
    ensures var k := |s| - |t|;
      && r == s[k..k + |r|]
      && (forall i :: k + |r| <= i < |s| ==> IsSpace(s[i]))
  {
    var k := |s| - |t|;
    assert s[k..][..|r|] == s[k..k + |r|];
    forall i | k + |r| <= i < |s| ensures IsSpace(s[i]) {
      assert s[i] == t[i - k];
    }
  }

  /** Python's `sep.join(parts)`. */
  function Join(parts: seq<string>, sep: string): string {
    if |parts| == 0 then ""
    else if |parts| == 1 then parts[0]
    else parts[0] + sep + Join(parts[1..], sep)
  }

  predicate IsDecimalDigit(c: char) { '0' <= c <= '9' }

  predicate IsHexDigit(c: char) { '0' <= c <= '9' || 'a' <= c <= 'f' || 'A' <= c <= 'F' }

  predicate IsUpperHexDigit(c: char) { '0' <= c <= '9' || 'A' <= c <= 'F' }

  /** A non-empty string of decimal digits. */
  predicate IsDecimal(s: string) {
    |s| > 0 && forall i :: 0 <= i < |s| ==> IsDecimalDigit(s[i])
  }

  /** A non-empty string of hexadecimal digits, in either case. */
  predicate IsHex(s: string) {
    |s| > 0 && forall i :: 0 <= i < |s| ==> IsHexDigit(s[i])
  }

  function HexDigitValue(c: char): (d: nat)
    requires IsHexDigit(c)
    ensures d < 16
  {
    if '0' <= c <= '9' then c as int - '0' as int
    else if 'a' <= c <= 'f' then c as int - 'a' as int + 10
    else c as int - 'A' as int + 10
  }

  /** The digit `0`-`9`, `A`-`F` that stands for `d`. */
  function UpperHexDigit(d: nat): (c: char)
    requires d < 16
    ensures IsUpperHexDigit(c) && IsHexDigit(c) && HexDigitValue(c) == d
  {
    if d < 10 then ('0' as int + d) as char else ('A' as int + d - 10) as char
  }

  /** The upper-case form of a letter digit `a`-`f`; other characters are
      their own upper-case form. */
  function UpperCase(c: char): char {
    if 'a' <= c <= 'f' then (c as int - 'a' as int + 'A' as int) as char else c
  }

  /** A hexadecimal digit of either case is worth the digit written
      upper-case for its value, so `a`-`f` read as 10 to 15 like `A`-`F`. */
  lemma HexDigitCase(c: char)
    requires IsHexDigit(c)
    ensures UpperHexDigit(HexDigitValue(c)) == UpperCase(c)
    ensures HexDigitValue(c) == HexDigitValue(UpperCase(c))
  {
  }

  /** The value of a decimal digit string, most significant digit first. */
  function DecimalDigitValue(c: char): (d: nat)
    requires IsDecimalDigit(c)
    ensures d < 10
  {
    c as int - '0' as int
  }

  function DecimalValue(s: string): nat
    requires forall i :: 0 <= i < |s| ==> IsDecimalDigit(s[i])
  {
    if s == [] then 0 else DecimalValue(s[..|s| - 1]) * 10 + DecimalDigitValue(s[|s| - 1])
  }

  function HexValue(s: string): nat
    requires forall i :: 0 <= i < |s| ==> IsHexDigit(s[i])
  {
    if s == [] then 0 else HexValue(s[..|s| - 1]) * 16 + HexDigitValue(s[|s| - 1])
  }

  /** `int(s, 16)` restricted to plain hexadecimal digits: `None` stands for
      the `ValueError` Python raises. */
  function ParseHex(s: string): Option<nat> {
    if IsHex(s) then Some(HexValue(s)) else None
  }

  /** Python's `int(s)` on decimal text: surrounding whitespace is ignored and
      one leading `+` or `-` is allowed; `None` stands for the `ValueError`. */
  function ParseDecimal(s: string): Option<int> {
    var t := Strip(s);
    if |t| > 0 && t[0] == '-' && IsDecimal(t[1..]) then Some(-(DecimalValue(t[1..]) as int))
    else if |t| > 0 && t[0] == '+' && IsDecimal(t[1..]) then Some(DecimalValue(t[1..]))
    else if IsDecimal(t) then Some(DecimalValue(t))
    else None
  }

  /** `int(s)` reads `n` exactly when the stripped text is a digit string
      worth `n`, bare or after `+`, or a digit string worth `-n` after `-`;
      every other text (empty, blank, not a numeral) is not an integer. */
  lemma DecimalIff(s: string, n: int)
    ensures ParseDecimal(s) == Some(n) <==>
      exists d {:trigger DecimalValue(d)} :: IsDecimal(d) &&
        (((Strip(s) == d || Strip(s) == "+" + d) && n == DecimalValue(d))
         || (Strip(s) == "-" + d && n == -(DecimalValue(d) as int)))
  {
    if ParseDecimal(s) == Some(n) {
      DecimalDigits(s);
    }
    if exists d {:trigger DecimalValue(d)} :: IsDecimal(d) &&
         (((Strip(s) == d || Strip(s) == "+" + d) && n == DecimalValue(d))
          || (Strip(s) == "-" + d && n == -(DecimalValue(d) as int))) {
      var d :| IsDecimal(d) &&
        (((Strip(s) == d || Strip(s) == "+" + d) && n == DecimalValue(d))
         || (Strip(s) == "-" + d && n == -(DecimalValue(d) as int)));
      DigitsDecimal(s, d);
    }
  }

  /** An integer text, once stripped, is a digit string after one sign or none. */
  lemma DecimalDigits(s: string)
    requires ParseDecimal(s).Some?
    ensures var t := Strip(s);
      |t| > 0 &&
      var d := if t[0] == '-' || t[0] == '+' then t[1..] else t;
      IsDecimal(d) && (t == d || t == "+" + d || t == "-" + d) &&
      ParseDecimal(s).value == (if t[0] == '-' then -(DecimalValue(d) as int) else DecimalValue(d))
  {
    var t := Strip(s);
    if t[0] == '-' || t[0] == '+' {
      assert t == [t[0]] + t[1..];
    }
  }

  /** A digit string after one sign or none, with any surrounding whitespace,
      is an integer text; `-` negates its value. */
  lemma DigitsDecimal(s: string, d: string)
    requires IsDecimal(d) && (Strip(s) == d || Strip(s) == "+" + d || Strip(s) == "-" + d)
    ensures ParseDecimal(s) == Some(if Strip(s) == "-" + d then -(DecimalValue(d) as int) else DecimalValue(d))
  {
    var t := Strip(s);
    if t == d {
      assert IsDecimalDigit(d[0]);
    } else {
      assert t[1..] == d;
    }
  }

  /** The shortest decimal numeral of `n`, as `str(n)` writes it. */
  function DecimalText(n: nat): (s: string)
    ensures IsDecimal(s)
  {
    if n < 10 then ['0' + n as char]
    else DecimalText(n / 10) + ['0' + (n % 10) as char]
  }

  lemma {:induction false} DecimalTextValue(n: nat)
    ensures DecimalValue(DecimalText(n)) == n
  {
    var s := DecimalText(n);
    if n >= 10 {
      DecimalTextValue(n / 10);
      assert s[..|s| - 1] == DecimalText(n / 10);
    }
  }

  /** Digit strings carry no surrounding whitespace and no sign. */
  lemma DecimalNotSpace(s: string)
    requires IsDecimal(s)
    ensures Strip(s) == s && s[0] != '-' && s[0] != '+'
  {
    assert IsDecimalDigit(s[0]) && IsDecimalDigit(s[|s| - 1]);
  }

  /** A plain digit string reads as its decimal value. */
  lemma ParseUnsigned(s: string)
    requires IsDecimal(s)
    ensures ParseDecimal(s) == Some(DecimalValue(s))
  {
    DecimalNotSpace(s);
  }

  /** A minus sign before a digit string negates its value. */
  lemma ParseNegative(s: string)
    requires IsDecimal(s)
    ensures ParseDecimal("-" + s) == Some(-(DecimalValue(s) as int))
  {
    var m := "-" + s;
    assert m[1..] == s && m[0] == '-' && m[|m| - 1] == s[|s| - 1];
    assert IsDecimalDigit(m[|m| - 1]);
    assert Strip(m) == m;
  }

  /** `int(str(n))` gives back `n`. */
  lemma ParseDecimalText(n: nat)
    ensures ParseDecimal(DecimalText(n)) == Some(n)
  {
    DecimalTextValue(n);
    ParseUnsigned(DecimalText(n));
  }

  /** `int("-" + str(n))` gives `-n`. */
  lemma ParseNegativeText(n: nat)
    ensures ParseDecimal("-" + DecimalText(n)) == Some(-(n as int))
  {
    DecimalTextValue(n);
    ParseNegative(DecimalText(n));
  }
}
