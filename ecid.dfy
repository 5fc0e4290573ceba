/**
  The ECID normaliser, `convert_ecid_to_decimal` (main.cpp:66-75).

  A string made only of decimal digits is kept as it is. Any other string is
  put into a string stream and extracted as a `uint64_t` in hexadecimal mode,
  then printed back in decimal. The extraction follows the C++ library's
  numeric extraction in the "C" locale: leading white space is skipped, an
  optional sign and an optional `0x`/`0X` prefix are read, then the longest
  run of hexadecimal digits. `ReadHex` makes each way this can go explicit.
 */
module Ecid {
  import opened Wrappers
  import opened Text

  /** White space in the "C" locale: space, tab, newline, vertical tab, form feed, carriage return. */
  predicate IsSpace(c: char) {
    c == ' ' || 9 <= c as int <= 13
  }

  predicate IsHexDigit(c: char) {
    IsDigit(c) || 'a' <= c <= 'f' || 'A' <= c <= 'F'
  }

  predicate AllHex(s: string) {
    forall i :: 0 <= i < |s| ==> IsHexDigit(s[i])
  }

  function HexDigitValue(c: char): (d: nat)
    requires IsHexDigit(c)
    ensures d < 16
  {
    if IsDigit(c) then DigitValue(c)
    else if 'a' <= c <= 'f' then c as int - 'a' as int + 10
    else c as int - 'A' as int + 10
  }

  /** The number a string of hexadecimal digits denotes. */
  function HexValue(d: string): nat
    requires AllHex(d)
  {
    if d == [] then 0 else 16 * HexValue(d[..|d| - 1]) + HexDigitValue(d[|d| - 1])
  }

  /** What is left once the leading white space is skipped. */
  function SkipSpace(s: string): (t: string)
    ensures |t| <= |s| && t == s[|s| - |t|..]
    ensures forall i :: 0 <= i < |s| - |t| ==> IsSpace(s[i])
    ensures t == [] || !IsSpace(t[0])
  {
    if s != [] && IsSpace(s[0]) then
      var t := SkipSpace(s[1..]);
      assert forall i :: 1 <= i < |s| ==> s[i] == s[1..][i - 1];
      t
    else s
  }

  /** The longest prefix of `s` made of hexadecimal digits: where extraction stops. */
  function HexRun(s: string): (d: string)
    ensures |d| <= |s| && d == s[..|d|] && AllHex(d)
    ensures |d| < |s| ==> !IsHexDigit(s[|d|])
  {
    if s != [] && IsHexDigit(s[0]) then [s[0]] + HexRun(s[1..]) else []
  }

  /** Drops a leading `0x` or `0X`. */
  function StripHexPrefix(u: string): string {
    if |u| >= 2 && u[0] == '0' && (u[1] == 'x' || u[1] == 'X') then u[2..] else u
  }

  /** The outcome of `ss >> dec_ecid` in hexadecimal mode. */
  datatype HexRead =
    | Value(v: U64)   // digits read; a leading '-' negates modulo 2^64 (-0 is 0)
    | NoDigits        // no hexadecimal digit where one is expected: the stream stores 0
    | Overflow        // the digits denote 2^64 or more: the stream stores the maximum value
    | NoInput         // nothing but white space: nothing is stored at all

  /** Nothing is read exactly when the input is nothing but white space. */
  function ReadHex(s: string): (r: HexRead)
    ensures r.NoInput? <==> forall i :: 0 <= i < |s| ==> IsSpace(s[i])
  {
    SkipSpaceEmptyIff(s);
    var t := SkipSpace(s);
    if t == [] then NoInput
    else if t[0] == '-' then ReadMagnitude(t[1..], true)
    else if t[0] == '+' then ReadMagnitude(t[1..], false)
    else ReadMagnitude(t, false)
  }

  /**
    The part after the sign: an optional prefix and the digits. The read
    fails exactly when no hexadecimal digit follows the prefix.
   */
  function ReadMagnitude(u: string, negative: bool): (r: HexRead)
    ensures !r.NoInput?
    ensures r.NoDigits? <==> var t := StripHexPrefix(u); t == [] || !IsHexDigit(t[0])
  {
    var digits := HexRun(StripHexPrefix(u));
    if digits == [] then NoDigits
    else
      var n := HexValue(digits);
      if n >= U64_LIMIT then Overflow
      else if negative && n > 0 then Value(U64_LIMIT - n)
      else Value(n)
  }

  /** What `dec_ecid` holds after the extraction; None where it is left uninitialised. */
  function StoredValue(r: HexRead): (v: Option<U64>)
    ensures v.None? <==> r.NoInput?
  {
    match r
    case Value(v) => Some(v)
    case NoDigits => Some(0)
    case Overflow => Some(U64_LIMIT - 1)
    case NoInput => None
  }

  /**
    `convert_ecid_to_decimal` as written. None stands for the one case where
    the source prints an uninitialised variable; otherwise the result is a
    decimal string, the input itself when that is all digits and else the
    rendering of what the extraction stored.
   */
  function ConvertEcidAsWritten(input: string): (r: Option<string>)
    ensures AllDigits(input) ==> r == Some(input)
    ensures r.None? <==> !AllDigits(input) && ReadHex(input).NoInput?
    ensures r.Some? ==> AllDigits(r.value)
    ensures r.Some? && !AllDigits(input) ==> DecimalValue(r.value) == StoredValue(ReadHex(input)).value
  {
    if AllDigits(input) then Some(input)
    else
      match StoredValue(ReadHex(input))
      case Some(v) => DecimalRoundTrip(v); Some(DecimalString(v))
      case None => None
  }

  /**
    `convert_ecid_to_decimal` with `dec_ecid` initialised to 0, so that an
    argument of white space alone reads as 0 like every other unreadable one.
    The rest of the model uses this definition.
   */
  function ConvertEcidToDecimal(input: string): (ecid: string)
    ensures AllDigits(ecid)
    ensures AllDigits(input) ==> ecid == input
    ensures !AllDigits(input) ==> ecid != [] && (|ecid| > 1 ==> ecid[0] != '0')
  {
    match ConvertEcidAsWritten(input)
    case Some(e) => e
    case None => "0"
  }

  /** Skipping white space leaves nothing exactly when there is nothing but white space. */
  lemma SkipSpaceEmptyIff(s: string)
    ensures SkipSpace(s) == [] <==> forall i :: 0 <= i < |s| ==> IsSpace(s[i])
  {
    var t := SkipSpace(s);
    if t != [] {
      assert t[0] == s[|s| - |t|];
    }
  }

  /** The as-written conversion is undefined exactly on non-empty all-white-space input. */
  lemma AsWrittenUndefinedIff(input: string)
    ensures ConvertEcidAsWritten(input).None? <==>
              input != [] && forall i :: 0 <= i < |input| ==> IsSpace(input[i])
  {
    if input != [] && IsSpace(input[0]) {
      assert !IsDigit(input[0]);
    }
  }

  /** A single blank, for one: the source would print an indeterminate value. */
  lemma BlankEcidUndefined()
    ensures ConvertEcidAsWritten(" ") == None
    ensures ConvertEcidToDecimal(" ") == "0"
  {
    AsWrittenUndefinedIff(" ");
  }

  /** Read as hexadecimal: the output is the decimal rendering of the value read. */
  lemma ConvertHexValue(input: string, v: U64)
    requires !AllDigits(input) && ReadHex(input) == Value(v)
    ensures ConvertEcidToDecimal(input) == DecimalString(v)
    ensures DecimalValue(ConvertEcidToDecimal(input)) == v
  {
    DecimalRoundTrip(v);
  }

  /** Unreadable input becomes "0"; too many digits become the maximum value. */
  lemma ConvertUnreadable(input: string)
    requires !AllDigits(input)
    ensures ReadHex(input) == NoDigits ==> ConvertEcidToDecimal(input) == "0"
    ensures ReadHex(input) == NoInput ==> ConvertEcidToDecimal(input) == "0"
    ensures ReadHex(input) == Overflow ==> DecimalValue(ConvertEcidToDecimal(input)) == U64_LIMIT - 1
  {
    DecimalRoundTrip(U64_LIMIT - 1);
  }

  /** A run of hexadecimal digits followed by a non-digit is read up to that non-digit. */
  lemma {:induction false} HexRunStops(d: string, rest: string)
    requires AllHex(d)
    requires rest == [] || !IsHexDigit(rest[0])
    ensures HexRun(d + rest) == d
  {
    if d != [] {
      assert (d + rest)[1..] == d[1..] + rest;
      HexRunStops(d[1..], rest);
      assert [d[0]] + d[1..] == d;
    }
  }

  /** Past the white space and the sign, `ReadMagnitude` reads the digits after the prefix. */
  lemma MagnitudeOfDigits(u: string, d: string, rest: string, negative: bool)
    requires d != [] && AllHex(d)
    requires rest == [] || !IsHexDigit(rest[0])
    requires StripHexPrefix(u) == d + rest
    ensures ReadMagnitude(u, negative) ==
              if HexValue(d) >= U64_LIMIT then Overflow
              else if negative && HexValue(d) > 0 then Value(U64_LIMIT - HexValue(d))
              else Value(HexValue(d))
  {
    HexRunStops(d, rest);
  }

  /**
    An optional `0x`/`0X`, then hexadecimal digits, then anything that does
    not start with one: the value read is that of the digits, or Overflow.
   */
  lemma {:induction false} ReadHexDigits(prefix: string, d: string, rest: string)
    requires prefix == "" || prefix == "0x" || prefix == "0X"
    requires d != [] && AllHex(d)
    requires rest == [] || !IsHexDigit(rest[0])
    requires prefix == "" && d == "0" && rest != [] ==> rest[0] != 'x' && rest[0] != 'X'
    ensures ReadHex(prefix + d + rest) ==
              if HexValue(d) < U64_LIMIT then Value(HexValue(d)) else Overflow
  {
    var s := prefix + d + rest;
    PrefixThenDigits(prefix, d, rest);
    UnsignedStart(s);
    MagnitudeOfDigits(s, d, rest, false);
  }

  /** Past an optional prefix, the digits come first, and the input starts with a digit. */
  lemma PrefixThenDigits(prefix: string, d: string, rest: string)
    requires prefix == "" || prefix == "0x" || prefix == "0X"
    requires d != [] && AllHex(d)
    requires prefix == "" && d == "0" && rest != [] ==> rest[0] != 'x' && rest[0] != 'X'
    ensures var s := prefix + d + rest;
      s != [] && IsHexDigit(s[0]) && StripHexPrefix(s) == d + rest
  {
    var s := prefix + d + rest;
    if prefix == "" {
      assert s == d + rest;
      assert s[0] == d[0];
      if |d| >= 2 {
        assert s[1] == d[1];
      }
    } else {
      assert s[0] == '0' && s[2..] == d + rest;
    }
  }

  /** Input that starts with neither white space nor a sign is all magnitude. */
  lemma UnsignedStart(s: string)
    requires s != [] && IsHexDigit(s[0])
    ensures ReadHex(s) == ReadMagnitude(s, false)
  {
    assert SkipSpace(s) == s;
  }

  /** Lower-case hexadecimal rendering of a value. */
  function HexString(n: nat): (r: string)
    ensures r != [] && AllHex(r)
    decreases n
  {
    var c := "0123456789abcdef"[n % 16];
    if n < 16 then [c] else HexString(n / 16) + [c]
  }

  lemma {:induction false} HexRoundTrip(n: nat)
    ensures HexValue(HexString(n)) == n
  {
    var s := HexString(n);
    var c := "0123456789abcdef"[n % 16];
    assert HexDigitValue(c) == n % 16;
    if n >= 16 {
      assert s[..|s| - 1] == HexString(n / 16);
      HexRoundTrip(n / 16);
    }
  }

  /** The hexadecimal spelling `0x...` of an ECID normalises to its decimal spelling. */
  lemma NormalisesHexSpelling(n: U64)
    ensures ConvertEcidToDecimal("0x" + HexString(n)) == DecimalString(n)
  {
    var s := "0x" + HexString(n);
    assert s == "0x" + HexString(n) + "";
    assert !IsDigit(s[1]);
    HexRoundTrip(n);
    ReadHexDigits("0x", HexString(n), "");
    ConvertHexValue(s, n);
  }

  /** A leading minus sign leaves the rest to `ReadMagnitude`, negated. */
  lemma MinusStart(s: string)
    requires s != [] && s[0] == '-'
    ensures ReadHex(s) == ReadMagnitude(s[1..], true)
  {
    assert SkipSpace(s) == s;
  }

  /** Digits with no prefix are left alone by `StripHexPrefix`. */
  lemma NoPrefix(d: string)
    requires d != [] && AllHex(d)
    ensures StripHexPrefix(d) == d + ""
  {
    assert d + "" == d;
    if |d| >= 2 {
      assert IsHexDigit(d[1]);
    }
  }

  /** A minus sign negates modulo 2^64, as the conversion to an unsigned type does. */
  lemma MinusWraps(d: string)
    requires d != [] && AllHex(d) && 0 < HexValue(d) < U64_LIMIT
    ensures ReadHex("-" + d) == Value(U64_LIMIT - HexValue(d))
  {
    var s := "-" + d;
    assert s[1..] == d;
    MinusStart(s);
    NoPrefix(d);
    MagnitudeOfDigits(d, d, "", true);
  }

  /** Values and renderings used by the worked examples below. */
  lemma ExampleValues()
    ensures HexValue("10") == 16 && HexValue("1A2B") == 6699
    ensures DecimalString(16) == "16" && DecimalString(6699) == "6699"
  {
    assert "10"[..1] == "1";
    assert "1A2B"[..3] == "1A2" && "1A2"[..2] == "1A" && "1A"[..1] == "1";
  }

  /** Worked example: hexadecimal without a prefix, recognised by its letter. */
  lemma NormalisesUnprefixedHex()
    ensures ConvertEcidToDecimal("1A2B") == "6699"
  {
    ExampleValues();
    assert !IsDigit("1A2B"[1]);
    assert "1A2B" == "" + "1A2B" + "";
    ReadHexDigits("", "1A2B", "");
    ConvertHexValue("1A2B", 6699);
  }

  /** Worked example: hexadecimal after a `0x` prefix. */
  lemma NormalisesPrefixedHex()
    ensures ConvertEcidToDecimal("0x10") == "16"
  {
    ExampleValues();
    assert !IsDigit("0x10"[1]);
    assert "0x10" == "0x" + "10" + "";
    ReadHexDigits("0x", "10", "");
    ConvertHexValue("0x10", 16);
  }
}
