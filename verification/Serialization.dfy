/** `string_serializable<T>` for the integer types and `bool`
    (include/redisdal/serialization.hpp), and the serializer strategy. */
module Serialization {
  import opened Results
  import opened Decimal

  datatype Width = W8 | W16 | W32 | W64

  /** An integer type by signedness and width. */
  datatype IntType = IntType(signed: bool, width: Width) {
    function Max(): int {
      match width
      case W8 => if signed then 0x7F else 0xFF
      case W16 => if signed then 0x7FFF else 0xFFFF
      case W32 => if signed then 0x7FFF_FFFF else UINT32_MAX
      case W64 => if signed then INT64_MAX else UINT64_MAX
    }

    function Min(): int {
      if signed then -Max() - 1 else 0
    }

    predicate Holds(x: int) {
      Min() <= x <= Max()
    }
  }

  /** `string_serializable<T>::from_string` for an integer type: parse in the 64-bit
      type of the same signedness, then check the range of the target. */
  function FromString(t: IntType, s: string): Result<int> {
    if s == "" then Err(InvalidArgument)
    else if s[0] == '+' && (|s| == 1 || s[1] == '-' || s[1] == '+') then Err(InvalidArgument)
    else
      var text := if s[0] == '+' then s[1..] else s;
      var parsed := if t.signed then FromChars(text, INT64_MIN, INT64_MAX)
                    else FromChars(text, 0, UINT64_MAX);
      if parsed.NoMatch? || parsed.consumed != |text| then Err(InvalidArgument)
      else if parsed.TooLarge? then Err(OutOfRange)
      else if parsed.value < t.Min() || parsed.value > t.Max() then Err(OutOfRange)
      else Ok(parsed.value)
  }

  /** The accepted language: at most one sign, '-' only on signed types, then digits only. */
  predicate IsNumeral(s: string, signed: bool) {
    |s| > 0 &&
    var digits := if s[0] == '+' || (signed && s[0] == '-') then s[1..] else s;
    |digits| > 0 && AllDigits(digits)
  }

  /** The integer a numeral denotes, with no width in mind. */
  function NumeralValue(s: string, signed: bool): int
    requires IsNumeral(s, signed)
  {
    if s[0] == '+' then Value(s[1..])
    else if signed && s[0] == '-' then 0 - Value(s[1..])
    else Value(s)
  }

  /** Every byte string falls into exactly one of three classes: a numeral in range
      yields its true value, a numeral out of range is `out_of_range` whether it
      overflowed 64 bits or only the target, and everything else is `invalid_argument`. */
  lemma FromStringClassifies(t: IntType, s: string)
    ensures FromString(t, s) ==
            if !IsNumeral(s, t.signed) then Err(InvalidArgument)
            else if t.Holds(NumeralValue(s, t.signed)) then Ok(NumeralValue(s, t.signed))
            else Err(OutOfRange)
  {
    if s != "" {
      var text := if s[0] == '+' then s[1..] else s;
      if t.signed {
        FromCharsExact(text, INT64_MIN, INT64_MAX);
      } else {
        FromCharsExact(text, 0, UINT64_MAX);
      }
    }
  }

  /** Every value of every width survives printing and parsing, the minimum included,
      and a '+' in front of a non-negative one changes nothing. */
  lemma IntegerRoundTrip(t: IntType, x: int)
    requires t.Holds(x)
    ensures FromString(t, Print(x)) == Ok(x)
    ensures x >= 0 ==> FromString(t, "+" + Print(x)) == Ok(x)
  {
    var magnitude := if x < 0 then 0 - x else x;
    var s := PrintNat(magnitude);
    ValueOfPrintNat(magnitude);
    FromStringClassifies(t, Print(x));
    assert ("-" + s)[1..] == s && ("+" + s)[1..] == s;
    assert IsDigit(s[0]);
    if x >= 0 {
      FromStringClassifies(t, "+" + s);
    }
  }

  // ---------- bool ----------

  function ToLowerChar(c: char): char {
    if 'A' <= c <= 'Z' then (c as int - 'A' as int + 'a' as int) as char else c
  }

  function ToLower(s: string): string {
    seq(|s|, i requires 0 <= i < |s| => ToLowerChar(s[i]))
  }

  function BoolToString(b: bool): string {
    if b then "true" else "false"
  }

  function BoolFromString(s: string): Result<bool> {
    var lower := ToLower(s);
    if lower == "true" || lower == "1" then Ok(true)
    else if lower == "false" || lower == "0" then Ok(false)
    else Err(InvalidArgument)
  }

  /** The accepted language is exact: a truth value is read from its digit and from every
      capitalisation of its printed form, and from nothing else. */
  lemma BoolDomain(b: bool, s: string)
    ensures var word := if b then "true" else "false";
            && BoolToString(b) == word
            && (BoolFromString(s) == Ok(b) <==>
                  || s == (if b then "1" else "0")
                  || (|s| == |word| && forall i :: 0 <= i < |s| ==>
                                         s[i] == word[i] || s[i] as int + 32 == word[i] as int))
    ensures BoolFromString(s).Err? ==> BoolFromString(s).error == InvalidArgument
    ensures BoolFromString(BoolToString(b)) == Ok(b)
  {
    var lower := ToLower(s);
    assert |s| == 1 ==> lower[0] == ToLowerChar(s[0]);
    assert lower == BoolToString(b) <==>
      |s| == |BoolToString(b)| && forall i :: 0 <= i < |s| ==> ToLowerChar(s[i]) == BoolToString(b)[i];
    assert lower == (if b then "1" else "0") <==> s == (if b then "1" else "0");
    assert ToLower(BoolToString(b)) == BoolToString(b);
    assert "true"[0] != "false"[0];
  }

  // ---------- serializer<T> ----------

  /** The serializer strategy: `deserialize` may throw. */
  datatype Codec<!T> = Codec(serialize: T -> string, deserialize: string -> Result<T>)

  /** The law a serializer pair has to satisfy for typed operations to be faithful. */
  ghost predicate RoundTrips<T(!new)>(c: Codec<T>) {
    forall x: T :: c.deserialize(c.serialize(x)) == Ok(x)
  }

  /** The serializers a typed facade is built with. */
  datatype Codecs<!K, !V> = Codecs(keys: Codec<K>, values: Codec<V>)

  ghost predicate Faithful<K(!new), V(!new)>(c: Codecs<K, V>) {
    RoundTrips(c.keys) && RoundTrips(c.values)
  }

  /** Deserializes a field and its value, the field first. */
  function ReadPair<K, V>(c: Codecs<K, V>): ((string, string)) -> Result<(K, V)> {
    (p: (string, string)) =>
      match c.keys.deserialize(p.0)
      case Err(e) => Err(e)
      case Ok(k) =>
        match c.values.deserialize(p.1)
        case Err(e) => Err(e)
        case Ok(v) => Ok((k, v))
  }

  /** A pair is read exactly when both parts are; the error is that of the part that fails,
      the field's if both do. */
  lemma ReadPairExact<K, V>(c: Codecs<K, V>, field: string, value: string, k: K, v: V)
    ensures ReadPair(c)((field, value)) == Ok((k, v)) <==>
            c.keys.deserialize(field) == Ok(k) && c.values.deserialize(value) == Ok(v)
    ensures c.keys.deserialize(field).Err? ==>
              ReadPair(c)((field, value)) == Err(c.keys.deserialize(field).error)
    ensures c.keys.deserialize(field).Ok? && c.values.deserialize(value).Err? ==>
              ReadPair(c)((field, value)) == Err(c.values.deserialize(value).error)
  {
  }

  // ---------- the library's own serializers ----------

  /** `string_serializer<std::string>`: text is its own serialized form. */
  const STRING_CODEC: Codec<string> := Codec((s: string) => s, (s: string) => Ok(s))

  const BOOL_CODEC: Codec<bool> := Codec(BoolToString, BoolFromString)

  type Int8 = x: int | -0x80 <= x <= 0x7F
  type Int16 = x: int | -0x8000 <= x <= 0x7FFF
  type Int32 = x: int | -0x8000_0000 <= x <= 0x7FFF_FFFF
  type UInt8 = x: int | 0 <= x <= 0xFF

  const INT8: IntType := IntType(true, W8)
  const INT16: IntType := IntType(true, W16)
  const INT32: IntType := IntType(true, W32)
  const INT64: IntType := IntType(true, W64)
  const UINT8: IntType := IntType(false, W8)
  const UINT16: IntType := IntType(false, W16)
  const UINT32: IntType := IntType(false, W32)
  const UINT64: IntType := IntType(false, W64)

  /** `string_serializer<T>` for the integer types. */
  const INT8_CODEC: Codec<Int8> := Codec((x: Int8) => Print(x), Int8FromString)
  const INT16_CODEC: Codec<Int16> := Codec((x: Int16) => Print(x), Int16FromString)
  const INT32_CODEC: Codec<Int32> := Codec((x: Int32) => Print(x), Int32FromString)
  const INT64_CODEC: Codec<Int64> := Codec((x: Int64) => Print(x), Int64FromString)
  const UINT8_CODEC: Codec<UInt8> := Codec((x: UInt8) => Print(x), UInt8FromString)
  const UINT16_CODEC: Codec<UInt16> := Codec((x: UInt16) => Print(x), UInt16FromString)
  const UINT32_CODEC: Codec<UInt32> := Codec((x: UInt32) => Print(x), UInt32FromString)
  const UINT64_CODEC: Codec<UInt64> := Codec((x: UInt64) => Print(x), UInt64FromString)

  function Int8FromString(s: string): Result<Int8> {
    var x :- FromString(INT8, s);
    Ok(x)
  }

  function Int16FromString(s: string): Result<Int16> {
    var x :- FromString(INT16, s);
    Ok(x)
  }

  function Int32FromString(s: string): Result<Int32> {
    var x :- FromString(INT32, s);
    Ok(x)
  }

  function Int64FromString(s: string): Result<Int64> {
    var x :- FromString(INT64, s);
    Ok(x)
  }

  function UInt8FromString(s: string): Result<UInt8> {
    var x :- FromString(UINT8, s);
    Ok(x)
  }

  function UInt16FromString(s: string): Result<UInt16> {
    var x :- FromString(UINT16, s);
    Ok(x)
  }

  function UInt32FromString(s: string): Result<UInt32> {
    var x :- FromString(UINT32, s);
    Ok(x)
  }

  function UInt64FromString(s: string): Result<UInt64> {
    var x :- FromString(UINT64, s);
    Ok(x)
  }

  /** The library's own serializers satisfy the law asked of user-supplied ones. */
  lemma BuiltInCodecsRoundTrip()
    ensures RoundTrips(STRING_CODEC) && RoundTrips(BOOL_CODEC)
    ensures RoundTrips(INT8_CODEC) && RoundTrips(INT16_CODEC) && RoundTrips(INT32_CODEC) && RoundTrips(INT64_CODEC)
    ensures RoundTrips(UINT8_CODEC) && RoundTrips(UINT16_CODEC) && RoundTrips(UINT32_CODEC) && RoundTrips(UINT64_CODEC)
  {
    hide FromString, BoolFromString, Print;
    forall b: bool
      ensures BOOL_CODEC.deserialize(BOOL_CODEC.serialize(b)) == Ok(b)
    {
      BoolDomain(b, BoolToString(b));
    }
    SignedCodecsRoundTrip();
    UnsignedCodecsRoundTrip();
  }

  lemma SignedCodecsRoundTrip()
    ensures RoundTrips(INT8_CODEC)
    ensures RoundTrips(INT16_CODEC)
    ensures RoundTrips(INT32_CODEC)
    ensures RoundTrips(INT64_CODEC)
  {
    hide FromString, Print;
    forall x: Int8
      ensures INT8_CODEC.deserialize(INT8_CODEC.serialize(x)) == Ok(x)
    {
      IntegerRoundTrip(INT8, x);
    }
    forall x: Int16
      ensures INT16_CODEC.deserialize(INT16_CODEC.serialize(x)) == Ok(x)
    {
      IntegerRoundTrip(INT16, x);
    }
    forall x: Int32
      ensures INT32_CODEC.deserialize(INT32_CODEC.serialize(x)) == Ok(x)
    {
      IntegerRoundTrip(INT32, x);
    }
    forall x: Int64
      ensures INT64_CODEC.deserialize(INT64_CODEC.serialize(x)) == Ok(x)
    {
      IntegerRoundTrip(INT64, x);
    }
  }

  lemma UnsignedCodecsRoundTrip()
    ensures RoundTrips(UINT8_CODEC)
    ensures RoundTrips(UINT16_CODEC)
    ensures RoundTrips(UINT32_CODEC)
    ensures RoundTrips(UINT64_CODEC)
  {
    hide FromString, Print;
    forall x: UInt8
      ensures UINT8_CODEC.deserialize(UINT8_CODEC.serialize(x)) == Ok(x)
    {
      IntegerRoundTrip(UINT8, x);
    }
    forall x: UInt16
      ensures UINT16_CODEC.deserialize(UINT16_CODEC.serialize(x)) == Ok(x)
    {
      IntegerRoundTrip(UINT16, x);
    }
    forall x: UInt32
      ensures UINT32_CODEC.deserialize(UINT32_CODEC.serialize(x)) == Ok(x)
    {
      IntegerRoundTrip(UINT32, x);
    }
    forall x: UInt64
      ensures UINT64_CODEC.deserialize(UINT64_CODEC.serialize(x)) == Ok(x)
    {
      IntegerRoundTrip(UINT64, x);
    }
  }
}
