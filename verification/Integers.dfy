/** Integer numerals and INTEGER octets (libasn1parser/asn1p_integer.c). */
module Integers {
  /** Largest value of the widest integer type of the build, which has 8 or 16 octets. */
  type Maximum = m: int | m == 0x7FFF_FFFF_FFFF_FFFF || m == 0x7FFF_FFFF_FFFF_FFFF_FFFF_FFFF_FFFF_FFFF
    witness 0x7FFF_FFFF_FFFF_FFFF

  /** LONG_MAX of the build. */
  type LongMax = l: nat | l == 0x7FFF_FFFF || l == 0x7FFF_FFFF_FFFF_FFFF witness 0x7FFF_FFFF

  const CHUNK := 1_000_000_000

  /** The least value beside a greatest one, in two's complement. */
  function Min(max: int): int {
    -max - 1
  }

  // ----- Decimal digits -----

  predicate IsDigit(c: char) {
    '0' <= c <= '9'
  }

  predicate AllDigits(s: string) {
    forall k :: 0 <= k < |s| ==> IsDigit(s[k])
  }

  function Digit(c: char): nat
    requires IsDigit(c)
  {
    c as int - '0' as int
  }

  /** The number a digit string stands for. */
  function Number(s: string): (n: int)
    requires AllDigits(s)
    ensures n >= 0
  {
    if s == "" then 0 else 10 * Number(s[..|s| - 1]) + Digit(s[|s| - 1])
  }

  /** The shortest digit string for v. */
  function Digits(v: nat): string {
    if v < 10 then [('0' as int + v) as char] else Digits(v / 10) + [('0' as int + v % 10) as char]
  }

  /** What "%ld" prints. */
  function Decimal(v: int): string {
    if v < 0 then "-" + Digits(-v) else Digits(v)
  }

  function Zeros(k: nat): (r: string)
    ensures |r| == k && forall i :: 0 <= i < k ==> r[i] == '0'
  {
    seq(k, _ => '0')
  }

  function Pow10(k: nat): (r: nat)
    ensures r > 0
  {
    if k == 0 then 1 else 10 * Pow10(k - 1)
  }

  lemma {:induction false} PowSum(j: nat, k: nat)
    ensures Pow10(j + k) == Pow10(j) * Pow10(k)
  {
    if k > 0 {
      PowSum(j, k - 1);
    }
  }

  lemma {:induction false} DigitsNumber(v: nat)
    ensures AllDigits(Digits(v)) && Number(Digits(v)) == v && |Digits(v)| > 0
  {
    if v >= 10 {
      DigitsNumber(v / 10);
      assert Digits(v)[..|Digits(v)| - 1] == Digits(v / 10);
    }
  }

  lemma {:induction false} DigitsLength(v: nat, k: nat)
    requires k > 0 && v < Pow10(k)
    ensures |Digits(v)| <= k
  {
    if v >= 10 {
      DigitsLength(v / 10, k - 1);
    }
  }

  lemma Shifted(q: nat, k: nat)
    requires q > 0 && k > 0
    ensures q * Pow10(k) == 10 * (q * Pow10(k - 1)) && q * Pow10(k - 1) > 0
  {
    var p := Pow10(k - 1);
    assert q * (10 * p) == 10 * (q * p);
  }

  /** The digits of q followed by k digits for r. */
  lemma {:induction false} DigitsJoin(q: nat, r: nat, k: nat)
    requires q > 0 && k > 0 && r < Pow10(k)
    ensures |Digits(r)| <= k && Digits(q * Pow10(k) + r) == Digits(q) + Zeros(k - |Digits(r)|) + Digits(r)
  {
    DigitsLength(r, k);
    var m := q * Pow10(k - 1);
    Shifted(q, k);
    LastDigit(m, r);
    if k == 1 {
      assert Pow10(0) == 1 && Zeros(0) == "";
    } else {
      DigitsJoin(q, r / 10, k - 1);
      if r < 10 {
        assert Zeros(k - 1) == Zeros(k - 2) + "0";
      }
    }
  }

  lemma LastDigit(m: nat, r: nat)
    requires m > 0
    ensures Digits(10 * m + r) == Digits(m + r / 10) + [('0' as int + r % 10) as char]
  {
    assert (10 * m + r) / 10 == m + r / 10 && (10 * m + r) % 10 == r % 10;
  }

  lemma {:induction false} NumberPrefix(s: string, k: nat)
    requires AllDigits(s) && k < |s|
    ensures 10 * Number(s[..k]) <= Number(s)
  {
    if k < |s| - 1 {
      var init := s[..|s| - 1];
      NumberPrefix(init, k);
      assert init[..k] == s[..k];
    }
  }

  // ----- Reading a numeral -----

  datatype Outcome = Range | Invalid | ExpectMore | Success | ExtraData | Undefined

  /** Length of an optional sign. */
  function SignLength(s: string): nat {
    if s != "" && (s[0] == '-' || s[0] == '+') then 1 else 0
  }

  predicate Negative(s: string) {
    s != "" && s[0] == '-'
  }

  /** End of the digits that start at i. */
  function DigitsEnd(s: string, i: nat): (e: nat)
    requires i <= |s|
    ensures i <= e <= |s| && AllDigits(s[i..e]) && (e < |s| ==> !IsDigit(s[e]))
    decreases |s| - i
  {
    if i < |s| && IsDigit(s[i]) then DigitsEnd(s, i + 1) else i
  }

  /** The digits after the sign. */
  function Numeral(s: string): (ds: string)
    ensures AllDigits(ds)
  {
    s[SignLength(s)..DigitsEnd(s, SignLength(s))]
  }

  /** Largest magnitude: one more below zero. */
  function Limit(negative: bool, max: int): int {
    if negative then max + 1 else max
  }

  /**
   Fewer digits than there are already make a negative number whose magnitude differs from the limit in
   the last digit at most.
   */
  ghost predicate PassesTheMinimum(ds: string, negative: bool, max: int)
    requires AllDigits(ds)
  {
    negative && exists k :: 0 <= k < |ds| && max - max % 10 <= Number(ds[..k]) <= max + 1
  }

  /** What reading s gives, with end the position where reading stopped. */
  ghost predicate Reads(s: string, max: int, outcome: Outcome, end: nat, value: int) {
    var ds := Numeral(s);
    var start := SignLength(s);
    var limit := Limit(Negative(s), max);
    if s == "" then outcome == Invalid && end == 0
    else if start == |s| then outcome == ExpectMore && end == |s|
    else if Number(ds) <= limit then
      && end == start + |ds|
      && outcome == (if end == |s| then Success else ExtraData)
      && value == (if Negative(s) then -Number(ds) else Number(ds))
    else if PassesTheMinimum(ds, Negative(s), max) then outcome == Undefined
    else
      && outcome == Range
      && start <= end < start + |ds|
      && Number(ds[..end - start]) <= limit < Number(ds[..end - start + 1])
  }

  /** Digits alone or after a plus sign are read as their number, and after a minus sign as its negative. */
  lemma SignsRead(ds: string, max: Maximum, outcome: Outcome, end: nat, value: int)
    requires ds != "" && AllDigits(ds) && Number(ds) <= max
    ensures Reads(ds, max, outcome, end, value) <==> outcome == Success && end == |ds| && value == Number(ds)
    ensures Reads("+" + ds, max, outcome, end, value) <==>
              outcome == Success && end == 1 + |ds| && value == Number(ds)
    ensures Reads("-" + ds, max, outcome, end, value) <==>
              outcome == Success && end == 1 + |ds| && value == -Number(ds)
  {
    NumeralIs(ds, ds);
    NumeralIs("+" + ds, ds);
    NumeralIs("-" + ds, ds);
  }

  lemma NumeralIs(s: string, ds: string)
    requires ds != "" && AllDigits(ds) && (s == ds || s == "+" + ds || s == "-" + ds)
    ensures Numeral(s) == ds && SignLength(s) == |s| - |ds| && (Negative(s) <==> s == "-" + ds && s[0] == '-')
  {
    assert IsDigit(ds[0]) && s[|s| - |ds|..] == ds;
    var start := |s| - |ds|;
    assert forall k :: start <= k < |s| ==> s[k] == ds[k - start];
    assert start > 0 ==> s[0] == '+' || s[0] == '-';
  }

  /**
   Read a numeral of the width's range. Undefined stands for the overflow of a signed multiplication,
   which has no defined result.
   */
  method Parse(s: string, max: Maximum) returns (outcome: Outcome, end: nat, value: int)
    ensures Reads(s, max, outcome, end, value)
  {
    var lastDigit := max % 10;
    var sign := 1;
    var start := 0;
    if |s| == 0 {
      return Invalid, 0, 0;
    }
    if s[0] == '-' || s[0] == '+' {
      if s[0] == '-' {
        lastDigit := lastDigit + 1;
        sign := -1;
      }
      start := 1;
      if |s| == 1 {
        return ExpectMore, 1, 0;
      }
    }
    outcome, end, value := ParseDigits(s, max, start, sign, lastDigit);
  }

  /** The digits from start on. */
  method ParseDigits(s: string, max: Maximum, start: nat, sign0: int, lastDigit: int)
    returns (outcome: Outcome, end: nat, value: int)
    requires start == SignLength(s) < |s|
    requires sign0 == (if Negative(s) then -1 else 1) && lastDigit == (if Negative(s) then max % 10 + 1 else max % 10)
    ensures Reads(s, max, outcome, end, value)
  {
    var upper := max / 10;
    var sign, i := sign0, start;
    value := 0;
    ghost var ds := Numeral(s);
    assert Progress(ds[..i - start], Negative(s), max, sign, value);
    hide Reads, Progress, Number, Numeral, SignLength, AllDigits;
    while i < |s|
      invariant start <= i <= start + |ds| && i <= |s|
      invariant Progress(ds[..i - start], Negative(s), max, sign, value)
    {
      if !IsDigit(s[i]) {
        ReadToEnd(s, max, sign, value, i);
        return ExtraData, i, sign * value;
      }
      NextDigit(s, ds, start, i);
      var d := Digit(s[i]);
      ghost var done, next := ds[..i - start], ds[..i - start + 1];
      if value < upper {
        ProgressBelow(done, next, d, Negative(s), max, sign, value);
        value := value * 10 + d;
        if value < Min(max) {
          ReadPassed(s, max, i, value);
          return Undefined, i, value;
        }
      } else if value == upper && d <= lastDigit {
        ProgressAtUpper(done, next, d, Negative(s), max, sign, value);
        if sign > 0 {
          value := value * 10 + d;
        } else {
          sign := 1;
          value := -value * 10 - d;
        }
      } else {
        ProgressAbove(done, next, d, Negative(s), max, sign, value);
        ReadTooLarge(s, max, i, value);
        return Range, i, value;
      }
      i := i + 1;
    }
    ReadToEnd(s, max, sign, value, i);
    return Success, i, sign * value;
  }

  /** The state of the loop after the digits in done. */
  predicate Progress(done: string, negative: bool, max: int, sign: int, value: int) {
    && AllDigits(done)
    && if negative && sign == 1
       then value == -Number(done) && max - max % 10 <= Number(done) <= max + 1
       else
         && sign == (if negative then -1 else 1) && value == Number(done) && value <= max
         && (negative ==> value < max - max % 10)
  }

  /** One more digit. */
  ghost predicate Appends(done: string, next: string, d: int) {
    AllDigits(done) && AllDigits(next) && 0 <= d <= 9 && Number(next) == 10 * Number(done) + d
  }

  lemma ProgressBelow(done: string, next: string, d: int, negative: bool, max: Maximum, sign: int, value: int)
    requires Progress(done, negative, max, sign, value) && Appends(done, next, d) && value < max / 10
    ensures var v := value * 10 + d;
            if v < Min(max) then negative && max - max % 10 <= Number(done) <= max + 1
            else Progress(next, negative, max, sign, v)
  {
  }

  lemma ProgressAtUpper(done: string, next: string, d: int, negative: bool, max: Maximum, sign: int, value: int)
    requires Progress(done, negative, max, sign, value) && Appends(done, next, d)
    requires value == max / 10 && d <= if negative then max % 10 + 1 else max % 10
    ensures var v := value * 10 + d; Progress(next, negative, max, 1, if sign > 0 then v else -v)
  {
  }

  lemma ProgressAbove(done: string, next: string, d: int, negative: bool, max: Maximum, sign: int, value: int)
    requires Progress(done, negative, max, sign, value) && Appends(done, next, d) && value >= max / 10
    requires value > max / 10 || d > if negative then max % 10 + 1 else max % 10
    ensures Number(done) <= Limit(negative, max) < Number(next)
    ensures !negative || Number(done) < max - max % 10
  {
    hide Number, AllDigits;
  }

  lemma DigitInside(s: string, k: nat)
    requires k < |Numeral(s)|
    ensures SignLength(s) + k < |s| && IsDigit(s[SignLength(s) + k])
  {
    assert Numeral(s)[k] == s[SignLength(s) + k];
  }

  lemma ReadToEnd(s: string, max: Maximum, sign: int, value: int, i: nat)
    requires SignLength(s) < |s| && SignLength(s) <= i <= SignLength(s) + |Numeral(s)| && i <= |s|
    requires i == |s| || !IsDigit(s[i])
    requires Progress(Numeral(s)[..i - SignLength(s)], Negative(s), max, sign, value)
    ensures Reads(s, max, if i == |s| then Success else ExtraData, i, sign * value)
  {
    if i < SignLength(s) + |Numeral(s)| {
      DigitInside(s, i - SignLength(s));
    }
    assert i == SignLength(s) + |Numeral(s)|;
    assert Numeral(s)[..|Numeral(s)|] == Numeral(s);
  }

  lemma ReadPassed(s: string, max: Maximum, i: nat, value: int)
    requires s != "" && SignLength(s) <= i < SignLength(s) + |Numeral(s)| && Negative(s)
    requires max - max % 10 <= Number(Numeral(s)[..i - SignLength(s)]) <= max + 1
    ensures Reads(s, max, Undefined, i, value)
  {
    PassedFrom(Numeral(s), i - SignLength(s), max);
  }

  lemma ReadTooLarge(s: string, max: Maximum, i: nat, value: int)
    requires s != "" && SignLength(s) <= i < SignLength(s) + |Numeral(s)|
    requires Number(Numeral(s)[..i - SignLength(s)]) <= Limit(Negative(s), max)
    requires Limit(Negative(s), max) < Number(Numeral(s)[..i - SignLength(s) + 1])
    requires !Negative(s) || Number(Numeral(s)[..i - SignLength(s)]) < max - max % 10
    ensures Reads(s, max, Range, i, value)
  {
    TooLarge(Numeral(s), i - SignLength(s), Negative(s), max);
  }

  lemma NextDigit(s: string, ds: string, start: nat, i: nat)
    requires start == SignLength(s) && ds == Numeral(s)
    requires start <= i < |s| && i <= start + |ds| && IsDigit(s[i])
    ensures i < start + |ds| && ds[i - start] == s[i]
    ensures Appends(ds[..i - start], ds[..i - start + 1], Digit(s[i]))
  {
    var k := i - start;
    assert ds[..k + 1][..k] == ds[..k];
  }

  lemma TooLarge(ds: string, k: nat, negative: bool, max: int)
    requires AllDigits(ds) && k < |ds|
    requires !negative || Number(ds[..k]) < max - max % 10
    requires Number(ds[..k + 1]) > Limit(negative, max)
    ensures Number(ds) > Limit(negative, max) && !PassesTheMinimum(ds, negative, max)
  {
    Monotone(ds, k + 1, |ds|);
    assert ds[..|ds|] == ds;
    if negative {
      forall j | 0 <= j < |ds| ensures Number(ds[..j]) < max - max % 10 || Number(ds[..j]) > max + 1 {
        if j <= k {
          Monotone(ds, j, k);
        } else {
          Monotone(ds, k + 1, j);
        }
      }
    }
  }

  lemma Monotone(ds: string, j: nat, k: nat)
    requires AllDigits(ds) && j <= k <= |ds|
    ensures Number(ds[..j]) <= Number(ds[..k])
  {
    if j < k {
      NumberPrefix(ds[..k], j);
      assert ds[..k][..j] == ds[..j];
    }
  }

  lemma PassedFrom(ds: string, k: nat, max: int)
    requires AllDigits(ds) && k < |ds| && max >= 10
    requires max - max % 10 <= Number(ds[..k]) <= max + 1
    ensures PassesTheMinimum(ds, true, max) && Number(ds) > max + 1
  {
    NumberPrefix(ds, k);
  }

  /** One digit too many after the minimum is not noticed: ten times the minimum overflows. */
  lemma MinimumTimesTen(max: Maximum)
    ensures AllDigits(Digits(10 * (max + 1))) && PassesTheMinimum(Digits(10 * (max + 1)), true, max)
  {
    DigitsNumber(10 * (max + 1));
    DigitsNumber(max + 1);
    LastDigit(max + 1, 0);
    var ds := Digits(10 * (max + 1));
    assert ds[..|ds| - 1] == Digits(max + 1);
  }

  // ----- Writing a numeral -----

  /** The minimum is written as a constant when the long type is narrower. */
  predicate MinimumConstant(v: int, max: Maximum, long: LongMax) {
    v == Min(max) < Min(long)
  }

  /** The text for v: its decimal form, but for the minimum the form of the number before it. */
  function Printed(v: int, max: Maximum, long: LongMax): string {
    if MinimumConstant(v, max, long) then Decimal(v - 1) else Decimal(v)
  }

  /** The number that the constant for the minimum spells, in both widths. */
  lemma MinimumSpelled(max: Maximum, long: LongMax)
    requires MinimumConstant(Min(max), max, long)
    ensures var text := Printed(Min(max), max, long);
            && text[..1] == "-" && AllDigits(text[1..])
            && Number(text[1..]) == if max == 0x7FFF_FFFF_FFFF_FFFF then 9223372036854775809
                                    else 170141183460469231731687303715884105729
  {
    DigitsNumber(-(Min(max) - 1));
  }

  lemma Chunks(v: nat)
    requires v >= CHUNK
    ensures |Digits(v % CHUNK)| <= 9
    ensures Digits(v) == Digits(v / CHUNK) + Zeros(9 - |Digits(v % CHUNK)|) + Digits(v % CHUNK)
  {
    assert Pow10(9) == CHUNK;
    DigitsJoin(v / CHUNK, v % CHUNK, 9);
    assert v / CHUNK * CHUNK + v % CHUNK == v;
  }

  lemma MagnitudeBound()
    ensures Pow10(39) == 1_000_000_000_000_000_000_000_000_000_000_000_000_000
  {
    assert Pow10(13) == 10_000_000_000_000;
    PowSum(13, 13);
    PowSum(26, 13);
  }

  /** No text is longer than 40 characters. */
  lemma PrintedLength(v: int, max: Maximum, long: LongMax)
    requires Min(max) <= v <= max
    ensures 0 < |Printed(v, max, long)| <= 40
  {
    var m := if v < 0 then -v else v;
    MagnitudeBound();
    DigitsLength(m, 39);
    DigitsLength(m + 1, 39);
    DigitsNumber(m);
    DigitsNumber(m + 1);
  }

  /** The printer of integers with its static text buffer of 128 characters. */
  class Printer {
    const max: Maximum
    const long: LongMax
    var text: string

    constructor (max: Maximum, long: LongMax)
      ensures this.max == max && this.long == long
    {
      this.max, this.long, this.text := max, long, "";
    }

    /** The text for v is left in the static buffer. */
    method Itoa(v: int)
      requires Min(max) <= v <= max
      modifies this
      ensures text == Printed(v, max, long)
      decreases if v < 0 then -v else v, 1
    {
      PrintedLength(v, max, long);
      var buf, length := ItoaTo(128, v);
      assert length > 0;
      text := buf;
    }

    /**
     The text for v and its length, or -1 when the text with its terminator does not fit size. The length
     of the constant for the minimum counts the terminator.
     */
    method ItoaTo(size: nat, v: int) returns (buf: string, length: int)
      requires Min(max) <= v <= max
      modifies this
      ensures length == -1 <==> |Printed(v, max, long)| >= size
      ensures length != -1 ==> buf == Printed(v, max, long)
      ensures length != -1 ==> length == if MinimumConstant(v, max, long) then |buf| + 1 else |buf|
      decreases if v < 0 then -v else v, 0
    {
      if Min(long) <= v < long {
        var out := Decimal(v);
        if |out| >= size {
          return "", -1;
        }
        return out, |out|;
      }
      if v == Min(max) {
        var constant: int := if max == 0x7FFF_FFFF_FFFF_FFFF then -9223372036854775809
                             else -170141183460469231731687303715884105729;
        buf := Decimal(constant);
        if size < |buf| + 1 {
          return "", -1;
        }
        return buf, |buf| + 1;
      }
      var magnitude := if v < 0 then -v else v;
      buf := InChunks(magnitude, v < 0);
      if |buf| >= size {
        return "", -1;
      }
      return buf, |buf|;
    }

    /** The digits above the last nine, and those filled up with zeros. */
    method InChunks(v: int, negative: bool) returns (out: string)
      requires long <= v <= max
      modifies this
      ensures out == if negative then Decimal(-v) else Decimal(v)
      decreases v, -1
    {
      assert v > CHUNK;
      Chunks(v);
      Itoa(v % CHUNK);
      var rest := Zeros(9 - |text|) + text;
      Itoa(v / CHUNK);
      out := (if negative then "-" else "") + text + rest;
    }
  }

  lemma ReadsBack(v: int, max: Maximum, outcome: Outcome, end: nat, value: int)
    requires Min(max) <= v <= max && Reads(Decimal(v), max, outcome, end, value)
    ensures outcome == Success && value == v && end == |Decimal(v)|
  {
    NumeralOfDecimal(v);
    DigitsNumber(if v < 0 then -v else v);
    hide Digits, Numeral, Decimal, PassesTheMinimum;
  }

  /** No proper prefix of the digits is as large as the minimum. */
  lemma BelowMinimumRejected(max: Maximum, outcome: Outcome, end: nat, value: int)
    requires Reads(Decimal(Min(max) - 1), max, outcome, end, value)
    ensures outcome == Range
  {
    var ds := Digits(max + 2);
    NumeralOfDecimal(Min(max) - 1);
    DigitsNumber(max + 2);
    hide Digits, Numeral, Decimal;
    forall k | 0 <= k < |ds| ensures Number(ds[..k]) < max - max % 10 {
      NumberPrefix(ds, k);
    }
  }

  /** Reading what was printed gives the value back, exactly when the minimum is not the constant. */
  lemma RoundTrip(v: int, max: Maximum, long: LongMax, outcome: Outcome, end: nat, value: int)
    requires Min(max) <= v <= max
    requires Reads(Printed(v, max, long), max, outcome, end, value)
    ensures outcome == Success && value == v && end == |Printed(v, max, long)| <==> !MinimumConstant(v, max, long)
    ensures MinimumConstant(v, max, long) ==> outcome == Range
  {
    if MinimumConstant(v, max, long) {
      BelowMinimumRejected(max, outcome, end, value);
    } else {
      ReadsBack(v, max, outcome, end, value);
    }
  }

  lemma NumeralOfDecimal(v: int)
    ensures Numeral(Decimal(v)) == Digits(if v < 0 then -v else v)
    ensures SignLength(Decimal(v)) == (if v < 0 then 1 else 0) < |Decimal(v)| && Negative(Decimal(v)) == (v < 0)
    ensures |Decimal(v)| == SignLength(Decimal(v)) + |Numeral(Decimal(v))|
  {
    var m := if v < 0 then -v else v;
    DigitsNumber(m);
    var s, ds := Decimal(v), Digits(m);
    assert IsDigit(ds[0]);
    var start := SignLength(s);
    assert s[start..] == ds;
    AllToEnd(s, start);
  }

  lemma {:induction false} AllToEnd(s: string, i: nat)
    requires i <= |s| && AllDigits(s[i..])
    ensures DigitsEnd(s, i) == |s|
    decreases |s| - i
  {
    if i < |s| {
      assert IsDigit(s[i..][0]);
      assert s[i..][1..] == s[i + 1..];
      AllToEnd(s, i + 1);
    }
  }
}

/** The octets of an INTEGER value (`asn1p_integer_as_INTEGER` in libasn1parser/asn1p_integer.c). */
module IntegerOctets {
  type Octet = x: int | 0 <= x < 256

  /** The value of big-endian octets in two's complement. */
  function Value(octets: seq<Octet>): int {
    if |octets| == 0 then 0
    else if |octets| == 1 then if octets[0] < 128 then octets[0] else octets[0] - 256
    else 256 * Value(octets[..|octets| - 1]) + octets[|octets| - 1]
  }

  /** Section 8.3.2 of X.690: the first nine bits are not all equal. */
  predicate Minimal(octets: seq<Octet>) {
    && |octets| > 0
    && (|octets| > 1 ==> !(octets[0] == 0 && octets[1] < 128) && !(octets[0] == 255 && octets[1] >= 128))
  }

  /** Half the number of values of n octets. */
  function Half(n: nat): (r: int)
    requires n > 0
    ensures r >= 128
  {
    if n == 1 then 128 else 256 * Half(n - 1)
  }

  /** Values of n octets; of none, what the sign bit shifted out leaves. */
  predicate InRange(v: int, n: nat) {
    if n == 0 then v == 0 || v == -1 else -Half(n) <= v < Half(n)
  }

  function Reversed(s: seq<Octet>): (r: seq<Octet>)
    ensures |r| == |s| && forall i :: 0 <= i < |s| ==> r[i] == s[|s| - 1 - i]
  {
    seq(|s|, i requires 0 <= i < |s| => s[|s| - 1 - i])
  }

  /** The number whose lowest octets are low and whose further ones are those of rest. */
  ghost function Joined(low: seq<Octet>, rest: int): int {
    if low == [] then rest else low[0] + 256 * Joined(low[1..], rest)
  }

  /** The octets of rest would only repeat the sign bit of the last octet. */
  predicate Redundant(rest: int, last: Octet) {
    (rest == 0 && last < 128) || (rest == -1 && last >= 128)
  }

  /** The octets of value, an integer of width octets, lowest first into the buffer and then reversed. */
  method AsInteger(value: int, width: nat) returns (octets: seq<Octet>)
    requires width > 0 && InRange(value, width)
    ensures Value(octets) == value && Minimal(octets) && |octets| <= width
  {
    var buf := new Octet[width + 1](_ => 0);
    var rest, n, done := value, 0, false;
    while !done
      invariant n <= width && (n == width ==> done)
      invariant Joined(buf[..n], rest) == value && InRange(rest, width - n)
      invariant n > 0 ==> done == Redundant(rest, buf[n - 1])
      invariant done ==> n > 0 && Minimal(Reversed(buf[..n]))
      decreases width - n, !done
    {
      Shift(buf[..n], rest, width - n);
      buf[n], rest := rest % 256, rest / 256;
      n := n + 1;
      done := Redundant(rest, buf[n - 1]);
      assert buf[..n] == buf[..n - 1] + [buf[n - 1]];
    }
    octets := Reversed(buf[..n]);
    ReversedValue(buf[..n], rest);
  }

  lemma {:induction false} Shift(low: seq<Octet>, rest: int, n: nat)
    requires InRange(rest, n) && n > 0
    ensures Joined(low + [rest % 256], rest / 256) == Joined(low, rest)
    ensures InRange(rest / 256, n - 1)
    ensures n == 1 ==> Redundant(rest / 256, rest % 256)
  {
    if low == [] {
      assert Joined([rest % 256], rest / 256) == rest % 256 + 256 * Joined([], rest / 256);
    } else {
      Shift(low[1..], rest, n);
      assert (low + [rest % 256])[1..] == low[1..] + [rest % 256];
    }
  }

  lemma {:induction false} ReversedValue(low: seq<Octet>, rest: int)
    requires low != [] && Redundant(rest, low[|low| - 1])
    ensures Value(Reversed(low)) == Joined(low, rest)
  {
    if |low| == 1 {
      assert Joined(low[1..], rest) == rest;
    } else {
      ReversedValue(low[1..], rest);
      assert Reversed(low)[..|low| - 1] == Reversed(low[1..]);
    }
  }

  // ----- Minimal encodings -----

  lemma {:induction false} ValueInRange(s: seq<Octet>)
    requires s != []
    ensures InRange(Value(s), |s|)
  {
    if |s| > 1 {
      ValueInRange(s[..|s| - 1]);
    }
  }

  /** One octet fewer cannot hold the value of a minimal encoding. */
  lemma {:induction false} MinimalOutside(s: seq<Octet>)
    requires Minimal(s) && |s| > 1
    ensures !InRange(Value(s), |s| - 1)
  {
    var init := s[..|s| - 1];
    if |s| == 2 {
      var first: int := s[0];
      assert Value(init) == if first < 128 then first else first - 256;
    } else {
      assert Minimal(init);
      MinimalOutside(init);
    }
  }

  lemma {:induction false} HalfMonotone(m: nat, n: nat)
    requires 0 < m <= n
    ensures Half(m) <= Half(n)
    decreases n
  {
    if m < n {
      HalfMonotone(m, n - 1);
    }
  }

  lemma {:induction false} ValueInjective(s: seq<Octet>, t: seq<Octet>)
    requires |s| == |t| > 0 && Value(s) == Value(t)
    ensures s == t
  {
    var n := |s| - 1;
    if n > 0 {
      ValueInjective(s[..n], t[..n]);
      assert s == s[..n] + [s[n]] && t == t[..n] + [t[n]];
    }
  }

  /** No encoding is shorter than a minimal one. */
  lemma MinimalIsShortest(s: seq<Octet>, t: seq<Octet>)
    requires Minimal(s) && t != [] && Value(s) == Value(t)
    ensures |s| <= |t|
  {
    if |s| > 1 {
      MinimalOutside(s);
      ValueInRange(t);
      if |t| <= |s| - 1 {
        HalfMonotone(|t|, |s| - 1);
      }
    }
  }

  /** A value has one minimal encoding. */
  lemma MinimalIsUnique(s: seq<Octet>, t: seq<Octet>)
    requires Minimal(s) && Minimal(t) && Value(s) == Value(t)
    ensures s == t
  {
    MinimalIsShortest(s, t);
    MinimalIsShortest(t, s);
    ValueInjective(s, t);
  }
}
