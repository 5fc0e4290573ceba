/**
  The pieces of std::string and std::to_string that the program relies on:
  decimal digits, the decimal rendering of an unsigned value, and
  `find` of a substring.
 */
module Text {
  import opened Wrappers

  /** 2^64: every `uint64_t` value is below it. */
  const U64_LIMIT: nat := 0x1_0000_0000_0000_0000

  /** The values a `uint64_t` can hold. */
  type U64 = n: nat | n < 0x1_0000_0000_0000_0000

  predicate IsDigit(c: char) {
    '0' <= c <= '9'
  }

  /** `s.find_first_not_of("0123456789") == npos`. */
  predicate AllDigits(s: string) {
    forall i :: 0 <= i < |s| ==> IsDigit(s[i])
  }

  function DigitValue(c: char): (d: nat)
    requires IsDigit(c)
    ensures d < 10
  {
    c as int - '0' as int
  }

  function DigitChar(d: nat): (c: char)
    requires d < 10
    ensures IsDigit(c) && DigitValue(c) == d
    ensures (c == '0') <==> d == 0
  {
    (48 + d) as char
  }

  /** `std::to_string` of an unsigned value: decimal, no sign, no leading zeros. */
  function DecimalString(n: nat): (r: string)
    ensures r != [] && AllDigits(r)
    ensures (r[0] == '0') <==> n == 0
    ensures |r| > 1 ==> r[0] != '0'
    decreases n
  {
    if n < 10 then [DigitChar(n)] else DecimalString(n / 10) + [DigitChar(n % 10)]
  }

  /** The number a string of decimal digits denotes (the empty string denotes 0). */
  function DecimalValue(s: string): nat
    requires AllDigits(s)
  {
    if s == [] then 0 else 10 * DecimalValue(s[..|s| - 1]) + DigitValue(s[|s| - 1])
  }

  /** Reading back the decimal rendering gives the value rendered. */
  lemma {:induction false} DecimalRoundTrip(n: nat)
    ensures DecimalValue(DecimalString(n)) == n
  {
    if n >= 10 {
      var s := DecimalString(n);
      assert s[..|s| - 1] == DecimalString(n / 10);
      DecimalRoundTrip(n / 10);
    }
  }

  /** Conversely, a non-empty digit string without a leading zero is the rendering of its value. */
  lemma {:induction false} DecimalCanonical(s: string)
    requires s != [] && AllDigits(s)
    requires |s| > 1 ==> s[0] != '0'
    ensures DecimalString(DecimalValue(s)) == s
  {
    var last := s[|s| - 1];
    if |s| == 1 {
      assert DigitChar(DigitValue(last)) == last;
      assert [last] == s;
    } else {
      var p := s[..|s| - 1];
      assert p[0] == s[0];
      DecimalCanonical(p);
      var n := DecimalValue(s);
      assert n == 10 * DecimalValue(p) + DigitValue(last);
      assert DecimalValue(p) != 0;
      assert n / 10 == DecimalValue(p) && n % 10 == DigitValue(last);
      assert DigitChar(DigitValue(last)) == last;
      assert p + [last] == s;
    }
  }

  /** `pat` occurs in `s` starting at index `i`. */
  predicate OccursAt(s: string, pat: string, i: nat) {
    i + |pat| <= |s| && s[i..i + |pat|] == pat
  }

  /** `s.find(pat, i)`: the first index at or after `i` where `pat` occurs, None for `npos`. */
  function FindFrom(s: string, pat: string, i: nat): (r: Option<nat>)
    requires i <= |s|
    ensures r.Some? ==> i <= r.value && OccursAt(s, pat, r.value)
    ensures forall q :: i <= q && (r.None? || q < r.value) ==> !OccursAt(s, pat, q)
    decreases |s| - i
  {
    if OccursAt(s, pat, i) then Some(i)
    else if i == |s| then None
    else FindFrom(s, pat, i + 1)
  }

  /** `s.find(pat)`: the first occurrence anywhere, None when there is none. */
  function Find(s: string, pat: string): (r: Option<nat>)
    ensures r.Some? ==> OccursAt(s, pat, r.value)
    ensures forall q: nat :: (r.None? || q < r.value) ==> !OccursAt(s, pat, q)
  {
    FindFrom(s, pat, 0)
  }

  /** `s.find(pat) != npos`. */
  predicate Contains(s: string, pat: string) {
    Find(s, pat).Some?
  }

  /** `find` succeeds exactly when the pattern occurs somewhere. */
  lemma ContainsIff(s: string, pat: string)
    ensures Contains(s, pat) <==> exists i: nat :: OccursAt(s, pat, i)
  {
  }

  /** `find` succeeds, at or before `i`, whenever `pat` occurs at `i`. */
  lemma FoundIfOccurs(s: string, pat: string, i: nat)
    requires OccursAt(s, pat, i)
    ensures Contains(s, pat) && Find(s, pat).value <= i
  {
  }

  /** An occurrence of `small` inside an occurrence of `big` is an occurrence in `s`. */
  lemma OccursInside(s: string, big: string, small: string, i: nat, j: nat)
    requires OccursAt(s, big, i) && OccursAt(big, small, j)
    ensures OccursAt(s, small, i + j)
  {
    forall k | 0 <= k < |small|
      ensures s[i + j + k] == small[k]
    {
      assert big[j + k] == small[k];
      assert s[i + (j + k)] == big[j + k];
    }
    assert s[i + j..i + j + |small|] == small;
  }
}
