/** Decimal text: digits, `std::to_string` for integers, and the digit loops of
    `std::from_chars` and `std::stoul`. Text is a sequence of bytes, one `char` each. */
module Decimal {
  import opened Results

  const INT64_MAX: int := 0x7FFF_FFFF_FFFF_FFFF
  const INT64_MIN: int := -0x8000_0000_0000_0000
  const UINT64_MAX: int := 0xFFFF_FFFF_FFFF_FFFF
  const UINT32_MAX: int := 0xFFFF_FFFF

  type Int64 = x: int | INT64_MIN <= x <= INT64_MAX
  type UInt64 = x: int | 0 <= x <= UINT64_MAX
  type UInt32 = x: int | 0 <= x <= UINT32_MAX
  type UInt16 = x: int | 0 <= x <= 0xFFFF

  predicate IsDigit(c: char) {
    '0' <= c <= '9'
  }

  function DigitValue(c: char): (d: nat)
    requires IsDigit(c)
    ensures d < 10
  {
    c as int - '0' as int
  }

  function DigitChar(d: nat): (c: char)
    requires d < 10
    ensures IsDigit(c) && DigitValue(c) == d
  {
    ('0' as int + d) as char
  }

  predicate AllDigits(s: string) {
    forall i :: 0 <= i < |s| ==> IsDigit(s[i])
  }

  /** The number a run of digits denotes, however long the run. */
  function Value(s: string): nat
    requires AllDigits(s)
  {
    if s == "" then 0 else 10 * Value(s[..|s| - 1]) + DigitValue(s[|s| - 1])
  }

  /** `std::to_string` of a non-negative integer. */
  function PrintNat(n: nat): (s: string)
    ensures |s| > 0 && AllDigits(s)
  {
    if n < 10 then [DigitChar(n)] else PrintNat(n / 10) + [DigitChar(n % 10)]
  }

  /** `std::to_string` of an integer. */
  function Print(n: int): string {
    if n < 0 then "-" + PrintNat(-n) else PrintNat(n)
  }

  lemma {:induction false} ValueOfPrintNat(n: nat)
    ensures Value(PrintNat(n)) == n
  {
    if n >= 10 {
      ValueOfPrintNat(n / 10);
      var s := PrintNat(n);
      assert s[..|s| - 1] == PrintNat(n / 10);
    }
  }

  // ---------- std::from_chars ----------

  /** Where the run of digits starting at `i` ends. */
  function RunEnd(s: string, i: nat): (e: nat)
    requires i <= |s|
    ensures i <= e <= |s|
    ensures AllDigits(s[i..e])
    ensures e < |s| ==> !IsDigit(s[e])
    decreases |s| - i
  {
    if i < |s| && IsDigit(s[i]) then RunEnd(s, i + 1) else i
  }

  /** One step of the bounded digit loop: `None` once the limit has been passed.
      No intermediate value exceeds `limit`. */
  function Push(acc: Option<nat>, d: nat, limit: nat): (r: Option<nat>)
    requires d < 10 <= limit
    ensures r.Some? ==> r.value <= limit
  {
    if acc.None? || acc.value > limit / 10 || 10 * acc.value > limit - d
    then None
    else Some(10 * acc.value + d)
  }

  /** The bounded digit loop: it consumes every digit even after an overflow. */
  function ScanDigits(s: string, i: nat, acc: Option<nat>, limit: nat): (Option<nat>, nat)
    requires i <= |s| && 10 <= limit
    decreases |s| - i
  {
    if i < |s| && IsDigit(s[i])
    then ScanDigits(s, i + 1, Push(acc, DigitValue(s[i]), limit), limit)
    else (acc, i)
  }

  /** What the bounded loop holds after a run of digits. */
  function Bounded(n: nat, limit: nat): Option<nat> {
    if n <= limit then Some(n) else None
  }

  lemma PushExact(n: nat, d: nat, limit: nat)
    requires d < 10 <= limit
    ensures Push(Bounded(n, limit), d, limit) == Bounded(10 * n + d, limit)
  {
  }

  /** The bounded loop computes the exact value of the run when it fits, and
      reports the overflow otherwise; either way it stops where the run stops. */
  lemma {:induction false} ScanDigitsExact(s: string, start: nat, i: nat, limit: nat)
    requires start <= i <= |s| && 10 <= limit
    requires AllDigits(s[start..i])
    ensures AllDigits(s[start..RunEnd(s, i)])
    ensures ScanDigits(s, i, Bounded(Value(s[start..i]), limit), limit)
         == (Bounded(Value(s[start..RunEnd(s, i)]), limit), RunEnd(s, i))
    decreases |s| - i
  {
    hide Push, Bounded;
    if i < |s| && IsDigit(s[i]) {
      var longer := s[start..i + 1];
      assert longer[..|longer| - 1] == s[start..i];
      PushExact(Value(s[start..i]), DigitValue(s[i]), limit);
      ScanDigitsExact(s, start, i + 1, limit);
    }
  }

  /** `std::from_chars` outcome: the error code, the value, and how far it read. */
  datatype Scan = Parsed(value: int, consumed: nat) | NoMatch | TooLarge(consumed: nat)

  /** `std::from_chars` in base 10 for an integer type spanning `lo..hi`
      (section 23.20.3 of ISO C++17): a '-' only for signed types, never a '+'. */
  function FromChars(s: string, lo: int, hi: int): Scan
    requires lo <= 0 && 10 <= hi && (lo < 0 ==> 10 <= -lo)
  {
    var negative := lo < 0 && |s| > 0 && s[0] == '-';
    var start := if negative then 1 else 0;
    var (acc, end) := ScanDigits(s, start, Some(0), if negative then -lo else hi);
    if end == start then NoMatch
    else if acc.None? then TooLarge(end)
    else Parsed(if negative then 0 - acc.value else acc.value, end)
  }

  /** Optional '-' (signed types only) followed by at least one digit and nothing else. */
  predicate SignedDigits(s: string, signed: bool) {
    if signed && |s| > 0 && s[0] == '-' then |s| > 1 && AllDigits(s[1..])
    else |s| > 0 && AllDigits(s)
  }

  function SignedValue(s: string, signed: bool): int
    requires SignedDigits(s, signed)
  {
    if signed && s[0] == '-' then 0 - Value(s[1..]) else Value(s)
  }

  lemma RunEndOfDigits(s: string, i: nat)
    requires i <= |s|
    ensures RunEnd(s, i) == |s| <==> AllDigits(s[i..])
  {
    if RunEnd(s, i) == |s| {
      assert s[i..] == s[i..RunEnd(s, i)];
    }
  }

  /** A full-text `from_chars` succeeds, overflows or fails exactly by grammar and range. */
  lemma FromCharsExact(s: string, lo: int, hi: int)
    requires lo <= 0 && 10 <= hi && (lo < 0 ==> 10 <= -lo)
    ensures var signed := lo < 0;
            var r := FromChars(s, lo, hi);
            if !SignedDigits(s, signed) then r.NoMatch? || r.consumed < |s|
            else if lo <= SignedValue(s, signed) <= hi then r == Parsed(SignedValue(s, signed), |s|)
            else r == TooLarge(|s|)
  {
    var negative := lo < 0 && |s| > 0 && s[0] == '-';
    var start := if negative then 1 else 0;
    var limit := if negative then -lo else hi;
    assert s[start..start] == "";
    ScanDigitsExact(s, start, start, limit);
    RunEndOfDigits(s, start);
    var end := RunEnd(s, start);
    if end == |s| {
      assert s[start..end] == s[start..];
      assert !negative ==> s[0..] == s;
    } else {
      assert !negative ==> s[0..] == s;
    }
  }

  // ---------- std::stoul ----------

  predicate IsSpace(c: char) {
    c == ' ' || '\t' <= c <= '\r'
  }

  function SkipSpace(s: string, i: nat): (e: nat)
    requires i <= |s|
    ensures i <= e <= |s|
    decreases |s| - i
  {
    if i < |s| && IsSpace(s[i]) then SkipSpace(s, i + 1) else i
  }

  /** `std::stoul` for a 64-bit `unsigned long`: leading space and a sign are
      accepted, trailing text is ignored, and a '-' negates modulo 2^64. */
  function Stoul(s: string): Result<UInt64> {
    var i := SkipSpace(s, 0);
    var start := if i < |s| && (s[i] == '+' || s[i] == '-') then i + 1 else i;
    var (acc, end) := ScanDigits(s, start, Some(0), UINT64_MAX);
    if end == start then Err(InvalidArgument)
    else if acc.None? || acc.value > UINT64_MAX then Err(OutOfRange)
    else if s[i] == '-' && acc.value > 0 then Ok(UINT64_MAX + 1 - acc.value)
    else Ok(acc.value)
  }

  /** The texts `std::stoul` accepts, taken apart: leading space, an optional sign, a maximal
      run of digits, and a tail that is ignored. */
  predicate Spells(s: string, space: string, sign: string, digits: string, tail: string) {
    && s == space + (sign + (digits + tail))
    && (forall i :: 0 <= i < |space| ==> space[i] == ' ' || 9 <= space[i] as int <= 13)
    && (sign == "" || sign == "+" || sign == "-")
    && digits != "" && AllDigits(digits)
    && (tail != "" ==> !IsDigit(tail[0]))
  }

  lemma {:induction false} SkipSpaceIs(s: string, i: nat, e: nat)
    requires i <= e <= |s| && (forall x :: i <= x < e ==> IsSpace(s[x])) && (e < |s| ==> !IsSpace(s[e]))
    ensures SkipSpace(s, i) == e
    decreases e - i
  {
    if i < e {
      SkipSpaceIs(s, i + 1, e);
    }
  }

  lemma {:induction false} SkipSpaceSkips(s: string, i: nat)
    requires i <= |s|
    ensures forall x :: i <= x < SkipSpace(s, i) ==> IsSpace(s[x])
    decreases |s| - i
  {
    if i < |s| && IsSpace(s[i]) {
      SkipSpaceSkips(s, i + 1);
    }
  }

  lemma {:induction false} RunEndIs(s: string, i: nat, e: nat)
    requires i <= e <= |s| && (forall x :: i <= x < e ==> IsDigit(s[x])) && (e < |s| ==> !IsDigit(s[e]))
    ensures RunEnd(s, i) == e
    decreases e - i
  {
    if i < e {
      RunEndIs(s, i + 1, e);
    }
  }

  /** The number an accepted text denotes: negated modulo 2^64 after a '-', and an overflow
      exactly from 2^64 on, whatever the sign. */
  function Spelled(sign: string, digits: string): Result<UInt64>
    requires AllDigits(digits)
  {
    if Value(digits) > UINT64_MAX then Err(OutOfRange)
    else Ok((if sign == "-" then 0 - Value(digits) else Value(digits)) % (UINT64_MAX + 1))
  }

  /** `std::stoul` by the positions of the sign, of the digits and of the tail. */
  lemma StoulAt(s: string, i: nat, start: nat, end: nat)
    requires i <= start <= end <= |s| && i == SkipSpace(s, 0) && end == RunEnd(s, start)
    requires start == if i < |s| && (s[i] == '+' || s[i] == '-') then i + 1 else i
    ensures AllDigits(s[start..end])
    ensures Stoul(s) == if end == start then Err(InvalidArgument) else Spelled(s[i..start], s[start..end])
  {
    hide Value, ScanDigits, RunEnd, SkipSpace;
    assert s[start..start] == "";
    EmptyValue();
    ScanDigitsExact(s, start, start, UINT64_MAX);
    if start == i {
      assert s[i..start] == "";
    } else {
      assert s[i..start] == [s[i]];
    }
  }

  lemma EmptyValue()
    ensures Value("") == 0
  {
  }

  lemma PartPositions(space: string, sign: string, digits: string, tail: string)
    ensures var s := space + (sign + (digits + tail));
            var i, start, end := |space|, |space| + |sign|, |space| + |sign| + |digits|;
            && s[..i] == space && s[i..start] == sign && s[start..end] == digits && s[end..] == tail
  {
  }

  /** `std::stoul` returns what every accepted text spells. */
  lemma StoulExact(s: string, space: string, sign: string, digits: string, tail: string)
    requires Spells(s, space, sign, digits, tail)
    ensures Stoul(s) == Spelled(sign, digits)
  {
    hide Value, Stoul, RunEnd, SkipSpace, Spelled;
    var i, start := |space|, |space| + |sign|;
    var end := start + |digits|;
    PartPositions(space, sign, digits, tail);
    assert forall x :: 0 <= x < i ==> s[x] == s[..i][x];
    assert forall x :: start <= x < end ==> s[x] == s[start..end][x - start];
    assert end < |s| ==> s[end] == s[end..][0];
    assert sign != "" ==> s[i] == s[i..start][0];
    assert s[start] == s[start..end][0];
    SkipSpaceIs(s, 0, i);
    RunEndIs(s, start, end);
    StoulAt(s, i, start, end);
  }

  /** Every other text is rejected as malformed. */
  lemma StoulRejects(s: string)
    ensures Stoul(s) == Err(InvalidArgument) <==>
            !exists space, sign, digits, tail :: Spells(s, space, sign, digits, tail)
  {
    hide Value, Stoul, RunEnd, SkipSpace;
    if space, sign, digits, tail :| Spells(s, space, sign, digits, tail) {
      StoulExact(s, space, sign, digits, tail);
    } else if Stoul(s) != Err(InvalidArgument) {
      var i := SkipSpace(s, 0);
      SkipSpaceSkips(s, 0);
      var start := if i < |s| && (s[i] == '+' || s[i] == '-') then i + 1 else i;
      var end := RunEnd(s, start);
      StoulAt(s, i, start, end);
      SplitFour(s, i, start, end);
      assert Spells(s, s[..i], s[i..start], s[start..end], s[end..]);
    }
  }

  lemma SplitFour(s: string, i: nat, start: nat, end: nat)
    requires i <= start <= end <= |s|
    ensures s == s[..i] + (s[i..start] + (s[start..end] + s[end..]))
  {
  }

  /** On plain digits `std::stoul` returns the number written, or reports the overflow. */
  lemma StoulOfDigits(s: string)
    requires |s| > 0 && AllDigits(s)
    ensures Stoul(s) == if Value(s) <= UINT64_MAX then Ok(Value(s)) else Err(OutOfRange)
  {
    assert Spells(s, "", "", s, "");
    StoulExact(s, "", "", s, "");
  }

  // ---------- printing is canonical ----------

  lemma {:induction false} PositiveValue(s: string)
    requires s != "" && AllDigits(s) && s[0] != '0'
    ensures Value(s) > 0
  {
    if |s| > 1 {
      PositiveValue(s[..|s| - 1]);
    } else {
      assert s[..0] == "";
    }
  }

  /** Every run of digits without a leading zero is what its number prints as. With
      ValueOfPrintNat, printing and reading are inverse bijections between numbers and
      these texts. */
  lemma {:induction false} PrintIsCanonical(s: string)
    requires s != "" && AllDigits(s) && (s[0] == '0' ==> s == "0")
    ensures PrintNat(Value(s)) == s
  {
    var init, d := s[..|s| - 1], DigitValue(s[|s| - 1]);
    if init == "" {
      EmptyValue();
    } else {
      PositiveValue(init);
      PrintIsCanonical(init);
      assert Value(s) / 10 == Value(init) && Value(s) % 10 == d;
      assert s == init + [s[|s| - 1]];
    }
  }

  /** A printed number has no leading zero, and a '-' exactly when it is negative. */
  lemma {:induction false} PrintedShape(n: nat)
    ensures PrintNat(n)[0] == '0' <==> n == 0
    ensures PrintNat(n)[0] == '0' ==> PrintNat(n) == "0"
    ensures Print(0 - n) == (if n == 0 then "0" else "-" + PrintNat(n))
  {
    if n >= 10 {
      PrintedShape(n / 10);
    } else {
      assert PrintNat(n) == [DigitChar(n)];
    }
  }
}
