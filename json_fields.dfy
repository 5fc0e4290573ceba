/**
  Best-effort field extraction, `json_str` (main.cpp:58-63): a missing field,
  or one that is neither a string nor a number, reads as the empty string.
 */
module JsonFields {
  import opened Text

  /** The least value of an `int64_t`. */
  const I64_MIN: int := -0x8000_0000_0000_0000

  /**
    The integers the JSON library stores exactly: as an `int64_t` when
    negative, as a `uint64_t` otherwise. Integers outside this range are
    stored as floating point.
   */
  type JsonInt = n: int | I64_MIN <= n < U64_LIMIT

  /**
    The JSON values the extraction tells apart. Booleans, null, arrays and
    numbers stored as floating point are all `Other`.
   */
  datatype Json =
    | Str(text: string)
    | Num(n: JsonInt)
    | Obj(fields: map<string, Json>)
    | Other

  /** `j.contains(key)`: only an object has fields. */
  predicate HasField(j: Json, key: string) {
    j.Obj? && key in j.fields
  }

  function JsonStr(j: Json, key: string): (r: string)
    ensures r != "" ==> HasField(j, key) && (j.fields[key].Str? || j.fields[key].Num?)
  {
    if !HasField(j, key) then ""
    else
      match j.fields[key]
      case Str(text) => text
      case Num(n) => DecimalString(n % U64_LIMIT)  // the cast to `uint64_t` wraps modulo 2^64
      case _ => ""
  }

  /**
    What each kind of field reads as. A number reads as the decimal rendering
    of its value as a `uint64_t`: itself when not negative, 2^64 added when negative.
   */
  lemma JsonStrCases(j: Json, key: string)
    ensures !HasField(j, key) ==> JsonStr(j, key) == ""
    ensures HasField(j, key) && j.fields[key].Str? ==> JsonStr(j, key) == j.fields[key].text
    ensures HasField(j, key) && j.fields[key].Num? ==>
              && JsonStr(j, key) ==
                   DecimalString(if j.fields[key].n >= 0 then j.fields[key].n else U64_LIMIT + j.fields[key].n)
              && AllDigits(JsonStr(j, key))
              && DecimalValue(JsonStr(j, key)) ==
                   if j.fields[key].n >= 0 then j.fields[key].n else U64_LIMIT + j.fields[key].n
    ensures HasField(j, key) && (j.fields[key].Obj? || j.fields[key].Other?) ==> JsonStr(j, key) == ""
  {
    if HasField(j, key) && j.fields[key].Num? {
      var n := j.fields[key].n;
      var v := n % U64_LIMIT;
      assert v == if n >= 0 then n else U64_LIMIT + n;
      assert JsonStr(j, key) == DecimalString(v);
      DecimalRoundTrip(v);
    }
  }
}
