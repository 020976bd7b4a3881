/** The two number parsers the configuration check relies on:
    `byte.TryParse(s, NumberStyles.AllowHexSpecifier, InvariantCulture)` for
    the salt fields and `int.TryParse(s, NumberStyles.Integer,
    InvariantCulture)` for the iteration count, each given a formatter as
    its partner. */
module Numbers {
  import opened Wrappers

  const Int32Min: int := -0x8000_0000
  const Int32Max: int := 0x7FFF_FFFF

  // ---------------------------------------------------------------- hex

  predicate IsHexDigit(c: char)
  {
    '0' <= c <= '9' || 'a' <= c <= 'f' || 'A' <= c <= 'F'
  }

  predicate AllHexDigits(s: string)
  {
    forall i :: 0 <= i < |s| ==> IsHexDigit(s[i])
  }

  function HexDigitValue(c: char): (v: nat)
    requires IsHexDigit(c)
    ensures v < 16
  {
    if '0' <= c <= '9' then c as int - '0' as int
    else if 'a' <= c <= 'f' then c as int - 'a' as int + 10
    else c as int - 'A' as int + 10
  }

  /** Value of a string of hex digits, most significant digit first. */
  function HexValue(s: string): nat
    requires AllHexDigits(s)
  {
    if s == [] then 0 else HexValue(s[..|s| - 1]) * 16 + HexDigitValue(s[|s| - 1])
  }

  /** `byte.TryParse` with `AllowHexSpecifier` only: one or more hex digits
      of either case, nothing else (no `0x` prefix, no sign, no white space),
      and a value that fits in a byte. .NET's parser also ignores trailing
      NUL characters; this model rejects them. */
  function ParseHexByte(s: string): (r: Option<Byte>)
    ensures r.Some? ==> s != [] && AllHexDigits(s)
  {
    if s != [] && AllHexDigits(s) && HexValue(s) < 0x100 then Some(HexValue(s)) else None
  }

  /** Leading zeros do not change the value of a hex string. */
  lemma {:induction false} HexValueLeadingZero(s: string)
    requires AllHexDigits(s)
    ensures AllHexDigits("0" + s) && HexValue("0" + s) == HexValue(s)
  {
    if s != [] {
      var t := "0" + s;
      assert t[..|t| - 1] == "0" + s[..|s| - 1];
      HexValueLeadingZero(s[..|s| - 1]);
    }
  }

  /** So `"0FF"` parses like `"FF"`: the parser accepts any number of
      leading zeros. */
  lemma ParseHexByteLeadingZero(s: string)
    requires s != []
    ensures ParseHexByte("0" + s) == ParseHexByte(s)
  {
    if AllHexDigits(s) {
      HexValueLeadingZero(s);
    } else {
      var i :| 0 <= i < |s| && !IsHexDigit(s[i]);
      assert ("0" + s)[i + 1] == s[i];
    }
  }

  function HexDigit(v: nat): (c: char)
    requires v < 16
    ensures IsHexDigit(c) && HexDigitValue(c) == v
  {
    if v < 10 then ('0' as int + v) as char else ('A' as int + v - 10) as char
  }

  /** A byte written as two upper-case hex digits (format `"X2"`), the form
      the salt fields take. */
  function FormatHexByte(b: Byte): (s: string)
    ensures |s| == 2 && AllHexDigits(s)
  {
    [HexDigit(b / 16), HexDigit(b % 16)]
  }

  /** Every byte round-trips through its two-digit hex form. */
  lemma ParseFormatHexByte(b: Byte)
    ensures ParseHexByte(FormatHexByte(b)) == Some(b)
  {
    var s := FormatHexByte(b);
    assert s[..1][..0] == [];
    assert HexValue(s[..1]) == b / 16;
  }

  // ------------------------------------------------------------ decimal

  predicate IsDigit(c: char)
  {
    '0' <= c <= '9'
  }

  predicate AllDigits(s: string)
  {
    forall i :: 0 <= i < |s| ==> IsDigit(s[i])
  }

  /** Value of a string of decimal digits, most significant digit first. */
  function DecimalValue(s: string): nat
    requires AllDigits(s)
  {
    if s == [] then 0 else DecimalValue(s[..|s| - 1]) * 10 + (s[|s| - 1] as int - '0' as int)
  }

  /** The white space `NumberStyles.AllowLeadingWhite` and
      `AllowTrailingWhite` skip: U+0009 to U+000D and U+0020. */
  predicate IsWhite(c: char)
  {
    c == ' ' || '\t' <= c <= '\r'
  }

  function TrimStart(s: string): (r: string)
    ensures r != [] ==> !IsWhite(r[0])
  {
    if s != [] && IsWhite(s[0]) then TrimStart(s[1..]) else s
  }

  function TrimEnd(s: string): (r: string)
    ensures r != [] ==> !IsWhite(r[|r| - 1])
  {
    if s != [] && IsWhite(s[|s| - 1]) then TrimEnd(s[..|s| - 1]) else s
  }

  /** `int.TryParse` with `NumberStyles.Integer`: optional white space, an
      optional `+` or `-`, one or more decimal digits, optional white space,
      and a value in the range of a 32-bit signed integer. */
  function ParseInt32(s: string): (r: Option<int>)
    ensures r.Some? ==> Int32Min <= r.value <= Int32Max
  {
    ParseSignedDigits(TrimEnd(TrimStart(s)))
  }

  /** The text between the white space: a sign, then the digits. */
  function ParseSignedDigits(t: string): (r: Option<int>)
    ensures r.Some? ==> Int32Min <= r.value <= Int32Max
  {
    if t == [] then None
    else
      var digits := if t[0] == '+' || t[0] == '-' then t[1..] else t;
      if digits == [] || !AllDigits(digits) then None
      else
        var v: int := if t[0] == '-' then -(DecimalValue(digits) as int) else DecimalValue(digits);
        if Int32Min <= v <= Int32Max then Some(v) else None
  }

  /** Decimal digits of a natural number, no leading zeros. */
  function Digits(n: nat): (s: string)
    ensures s != [] && AllDigits(s)
  {
    var d := [('0' as int + n % 10) as char];
    if n < 10 then d else Digits(n / 10) + d
  }

  lemma {:induction false} DecimalValueDigits(n: nat)
    ensures DecimalValue(Digits(n)) == n
  {
    var s := Digits(n);
    if n >= 10 {
      DecimalValueDigits(n / 10);
      assert s[..|s| - 1] == Digits(n / 10);
    } else {
      assert s[..|s| - 1] == [];
    }
  }

  /** An integer written in decimal with a leading `-` when negative
      (`int.ToString()` in the invariant culture). */
  function FormatInt(n: int): (s: string)
    ensures s != [] && !IsWhite(s[0]) && IsDigit(s[|s| - 1])
  {
    if n < 0 then "-" + Digits(-n) else Digits(n)
  }

  /** The decimal form neither starts nor ends with white space. */
  lemma FormatIntUntrimmed(n: int)
    ensures TrimEnd(TrimStart(FormatInt(n))) == FormatInt(n)
  {
    TrimStartKeeps(FormatInt(n));
    TrimEndKeeps(FormatInt(n));
  }

  lemma ParseSignedFormat(n: int)
    requires Int32Min <= n <= Int32Max
    ensures ParseSignedDigits(FormatInt(n)) == Some(n)
  {
    var s := FormatInt(n);
    if n < 0 {
      DecimalValueDigits(-n);
      assert s[0] == '-' && s[1..] == Digits(-n);
    } else {
      DecimalValueDigits(n);
      assert s[0] != '-' && s[0] != '+';
    }
  }

  /** Every 32-bit integer round-trips through its decimal form. */
  lemma ParseFormatInt32(n: int)
    requires Int32Min <= n <= Int32Max
    ensures ParseInt32(FormatInt(n)) == Some(n)
  {
    FormatIntUntrimmed(n);
    ParseSignedFormat(n);
  }

  predicate AllWhite(w: string)
  {
    forall i :: 0 <= i < |w| ==> IsWhite(w[i])
  }

  lemma {:induction false} TrimStartSkipsWhite(w: string, s: string)
    requires AllWhite(w)
    ensures TrimStart(w + s) == TrimStart(s)
  {
    if w != [] {
      assert (w + s)[1..] == w[1..] + s;
      TrimStartSkipsWhite(w[1..], s);
    } else {
      assert w + s == s;
    }
  }

  lemma {:induction false} TrimEndSkipsWhite(s: string, w: string)
    requires AllWhite(w)
    ensures TrimEnd(s + w) == TrimEnd(s)
  {
    if w != [] {
      assert (s + w)[..|s + w| - 1] == s + w[..|w| - 1];
      TrimEndSkipsWhite(s, w[..|w| - 1]);
    } else {
      assert s + w == s;
    }
  }

  /** White space around the digits is ignored: the decimal form of a value
      padded with any white space on either side still parses to it. */
  lemma ParseInt32IgnoresPadding(before: string, n: int, after: string)
    requires AllWhite(before) && AllWhite(after)
    requires Int32Min <= n <= Int32Max
    ensures ParseInt32(before + FormatInt(n) + after) == Some(n)
  {
    var s := FormatInt(n);
    ParseSignedFormat(n);
    var x := before + s + after;
    assert x == before + (s + after);
    TrimStartSkipsWhite(before, s + after);
    TrimStartKeeps(s + after);
    TrimEndSkipsWhite(s, after);
    TrimEndKeeps(s);
  }

  lemma TrimStartKeeps(t: string)
    requires t != [] && !IsWhite(t[0])
    ensures TrimStart(t) == t
  {
  }

  lemma TrimEndKeeps(t: string)
    requires t != [] && !IsWhite(t[|t| - 1])
    ensures TrimEnd(t) == t
  {
  }
}
