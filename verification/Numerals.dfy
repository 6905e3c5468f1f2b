/**
 Numbers to text and back (include/metl/format.hpp, include/metl/parse.hpp) in
 base 10 and 16, for every width: the limits are parameters, and a value that
 does not fit is refused, never wrapped.
 */
module Numerals {
  import Arith

  // ---------------------------------------------------------------------
  // Digits
  // ---------------------------------------------------------------------

  /** The value of a hexadecimal digit of either case, or 16. */
  function DigitValue(c: char): nat {
    if '0' <= c <= '9' then (c - '0') as nat
    else if 'a' <= c <= 'f' then (c - 'a') as nat + 10
    else if 'A' <= c <= 'F' then (c - 'A') as nat + 10
    else 16
  }

  predicate IsDigit(base: nat, c: char) {
    DigitValue(c) < base
  }

  predicate AllDigits(base: nat, text: string) {
    forall i :: 0 <= i < |text| ==> IsDigit(base, text[i])
  }

  /** No digit follows: the run of digits before `text` ends there. */
  predicate Stops(base: nat, text: string) {
    text == [] || !IsDigit(base, text[0])
  }

  /** The number the digits stand for, unbounded. */
  function Number(base: nat, digits: string): nat {
    if digits == [] then 0
    else Number(base, digits[..|digits| - 1]) * base + DigitValue(digits[|digits| - 1])
  }

  /** How many digits `text` starts with. */
  function RunLength(base: nat, text: string): (n: nat)
    ensures n <= |text| && AllDigits(base, text[..n]) && Stops(base, text[n..])
  {
    if Stops(base, text) then 0 else 1 + RunLength(base, text[1..])
  }

  lemma {:induction false} RunLengthIs(base: nat, digits: string, rest: string)
    requires AllDigits(base, digits) && Stops(base, rest)
    ensures RunLength(base, digits + rest) == |digits|
    decreases |digits|
  {
    if digits == [] {
      assert digits + rest == rest;
    } else {
      assert (digits + rest)[1..] == digits[1..] + rest;
      RunLengthIs(base, digits[1..], rest);
    }
  }

  // ---------------------------------------------------------------------
  // Folding a run of digits
  // ---------------------------------------------------------------------

  /** The pre-divided limit decides without computing the product. */
  lemma HeadAndTail(base: nat, limit: nat, value: nat, digit: nat)
    requires base > 0 && digit < base
    ensures value * base + digit > limit <==>
            value > limit / base || (value == limit / base && digit > limit % base)
  {
    var head, tail := limit / base, limit % base;
    assert limit == head * base + tail;
    if value > head {
      Arith.MulAtLeast(value - head, base);
      assert value * base == head * base + (value - head) * base;
    } else if value < head {
      Arith.MulAtLeast(head - value, base);
      assert head * base == value * base + (head - value) * base;
    }
  }

  lemma NumberGrows(base: nat, digits: string, c: char)
    requires base > 0
    ensures Number(base, digits + [c]) == Number(base, digits) * base + DigitValue(c) >= Number(base, digits)
  {
    assert (digits + [c])[..|digits|] == digits;
    assert Number(base, digits) * base >= Number(base, digits) by {
      if Number(base, digits) > 0 {
        Arith.MulAtLeast(base, Number(base, digits));
      }
    }
  }

  lemma NumberNone(base: nat)
    ensures Number(base, []) == 0
  {
  }

  method FoldDecimal(text: string, head: nat, tail: nat) returns (value: nat, consumed: nat, overflowed: bool)
    requires tail < 10
    ensures consumed == RunLength(10, text)
    ensures overflowed <==> Number(10, text[..consumed]) > head * 10 + tail
    ensures !overflowed ==> value == Number(10, text[..consumed])
    ensures value <= head * 10 + tail
  {
    hide Number;
    NumberNone(10);
    value, consumed, overflowed := 0, 0, false;
    while consumed < |text| && '0' <= text[consumed] <= '9'
      invariant consumed <= |text| && AllDigits(10, text[..consumed])
      invariant overflowed <==> Number(10, text[..consumed]) > head * 10 + tail
      invariant !overflowed ==> value == Number(10, text[..consumed])
      invariant value <= head * 10 + tail
    {
      var digit := DigitValue(text[consumed]);
      assert text[..consumed + 1] == text[..consumed] + [text[consumed]];
      NumberGrows(10, text[..consumed], text[consumed]);
      if value > head || (value == head && digit > tail) {
        overflowed := true;
      } else {
        value := value * 10 + digit;
      }
      consumed := consumed + 1;
    }
    assert text == text[..consumed] + text[consumed..];
    RunLengthIs(10, text[..consumed], text[consumed..]);
  }

  /** Every unsigned limit ends in the digit F, so the head alone decides. */
  method FoldHex(text: string, head: nat) returns (value: nat, consumed: nat, overflowed: bool)
    ensures consumed == RunLength(16, text)
    ensures overflowed <==> Number(16, text[..consumed]) > head * 16 + 15
    ensures !overflowed ==> value == Number(16, text[..consumed])
    ensures value <= head * 16 + 15
  {
    hide Number;
    NumberNone(16);
    value, consumed, overflowed := 0, 0, false;
    while consumed < |text| && DigitValue(text[consumed]) < 16
      invariant consumed <= |text| && AllDigits(16, text[..consumed])
      invariant overflowed <==> Number(16, text[..consumed]) > head * 16 + 15
      invariant !overflowed ==> value == Number(16, text[..consumed])
      invariant value <= head * 16 + 15
    {
      assert text[..consumed + 1] == text[..consumed] + [text[consumed]];
      NumberGrows(16, text[..consumed], text[consumed]);
      if value > head {
        overflowed := true;
      } else {
        value := value * 16 + DigitValue(text[consumed]);
      }
      consumed := consumed + 1;
    }
    assert text == text[..consumed] + text[consumed..];
    RunLengthIs(16, text[..consumed], text[consumed..]);
  }

  // ---------------------------------------------------------------------
  // Parsing
  // ---------------------------------------------------------------------

  datatype ParseError = Empty | NotANumber | OutOfRange

  datatype Parsed = Parsed(value: int, tail: string) | Failed(error: ParseError)

  /** The digits `text` starts with, as a number up to `limit`. */
  function Unsigned(base: nat, text: string, limit: nat): Parsed {
    var n := RunLength(base, text);
    if text == [] then Failed(Empty)
    else if n == 0 then Failed(NotANumber)
    else if Number(base, text[..n]) > limit then Failed(OutOfRange)
    else Parsed(Number(base, text[..n]), text[n..])
  }

  /** A number from -`limit` - 1 to `limit`. */
  function Signed(text: string, limit: nat): Parsed {
    if text == [] then Failed(Empty) else
    if text[0] != '-' then Unsigned(10, text, limit) else
    var r := Unsigned(10, text[1..], limit + 1);
    match r
    case Parsed(value, tail) => Parsed(-value, tail)
    case Failed(error) => Failed(if error == Empty then NotANumber else error)
  }

  method TryParseUint(text: string, limit: nat) returns (r: Parsed)
    ensures r == Unsigned(10, text, limit)
  {
    if text == [] {
      return Failed(Empty);
    }
    var value, consumed, overflowed := FoldDecimal(text, limit / 10, limit % 10);
    if consumed == 0 {
      return Failed(NotANumber);
    }
    if overflowed {
      return Failed(OutOfRange);
    }
    return Parsed(value, text[consumed..]);
  }

  method TryParseInt(text: string, limit: nat) returns (r: Parsed)
    ensures r == Signed(text, limit)
  {
    if text == [] {
      return Failed(Empty);
    }
    var negative := text[0] == '-';
    var digits := if negative then text[1..] else text;
    var most := if negative then limit + 1 else limit;
    var value, consumed, overflowed := FoldDecimal(digits, most / 10, most % 10);
    if consumed == 0 {
      return Failed(NotANumber);
    }
    if overflowed {
      return Failed(OutOfRange);
    }
    var signed: int := value;
    if negative {
      signed := -signed;
    }
    return Parsed(signed, digits[consumed..]);
  }

  method TryParseHex(text: string, limit: nat) returns (r: Parsed)
    requires limit % 16 == 15
    ensures r == Unsigned(16, text, limit)
  {
    if text == [] {
      return Failed(Empty);
    }
    var value, consumed, overflowed := FoldHex(text, limit / 16);
    if consumed == 0 {
      return Failed(NotANumber);
    }
    if overflowed {
      return Failed(OutOfRange);
    }
    return Parsed(value, text[consumed..]);
  }

  // ---------------------------------------------------------------------
  // Formatting
  // ---------------------------------------------------------------------

  function DigitChar(d: nat, upper: bool): (c: char)
    requires d < 16
    ensures DigitValue(c) == d
  {
    if d < 10 then '0' + d as char else (if upper then 'A' else 'a') + (d - 10) as char
  }

  predicate IsBase(base: nat) {
    base == 10 || base == 16
  }

  /** `n / base` and `n % base`, for the two bases. */
  function Quotient(base: nat, n: nat): (q: nat)
    requires IsBase(base)
    ensures q <= n && (n >= base ==> q < n)
  {
    if base == 10 then n / 10 else n / 16
  }

  function Remainder(base: nat, n: nat): (r: nat)
    requires IsBase(base)
    ensures r < base <= 16
  {
    if base == 10 then n % 10 else n % 16
  }

  function DigitCount(base: nat, n: nat): (k: nat)
    requires IsBase(base)
    ensures k > 0
  {
    if n < base then 1 else 1 + DigitCount(base, Quotient(base, n))
  }

  /** The last `count` digits of `n`. */
  function Fixed(base: nat, n: nat, count: nat, upper: bool): (s: string)
    requires IsBase(base)
    ensures |s| == count && AllDigits(base, s)
    decreases count
  {
    if count == 0 then [] else Fixed(base, Quotient(base, n), count - 1, upper) + [DigitChar(Remainder(base, n), upper)]
  }

  function Decimal(n: nat): string {
    Fixed(10, n, DigitCount(10, n), false)
  }

  function SignedDecimal(v: int): string {
    if v < 0 then "-" + Decimal(-v) else Decimal(v)
  }

  /** Enough digits say the number. */
  lemma {:induction false} FixedSays(base: nat, n: nat, count: nat, upper: bool)
    requires IsBase(base) && DigitCount(base, n) <= count
    ensures Number(base, Fixed(base, n, count, upper)) == n
    decreases count
  {
    hide Fixed, Number, Quotient, Remainder;
    FixedStep(base, n, count, upper);
    if n >= base {
      FixedSays(base, Quotient(base, n), count - 1, upper);
    } else {
      Small(base, n);
      FixedZero(base, count - 1, upper);
    }
  }

  lemma Small(base: nat, n: nat)
    requires IsBase(base) && n < base
    ensures Quotient(base, n) == 0 && Remainder(base, n) == n
  {
  }

  lemma FixedStep(base: nat, n: nat, count: nat, upper: bool)
    requires IsBase(base) && count > 0
    ensures Number(base, Fixed(base, n, count, upper)) ==
            Number(base, Fixed(base, Quotient(base, n), count - 1, upper)) * base + Remainder(base, n)
    ensures Quotient(base, n) * base + Remainder(base, n) == n
  {
    assert Fixed(base, n, count, upper)[..count - 1] == Fixed(base, Quotient(base, n), count - 1, upper);
  }

  lemma {:induction false} FixedZero(base: nat, count: nat, upper: bool)
    requires IsBase(base)
    ensures Number(base, Fixed(base, 0, count, upper)) == 0
  {
    if count > 0 {
      FixedZero(base, count - 1, upper);
      FixedStep(base, 0, count, upper);
      Small(base, 0);
    }
  }

  /** Printing a number in any width that holds it, then parsing, gives it back
      and leaves exactly what followed. */
  lemma UnsignedRoundTrip(base: nat, n: nat, count: nat, upper: bool, rest: string, limit: nat)
    requires IsBase(base) && DigitCount(base, n) <= count && Stops(base, rest)
    ensures Unsigned(base, Fixed(base, n, count, upper) + rest, limit) ==
            if n <= limit then Parsed(n, rest) else Failed(OutOfRange)
  {
    hide Fixed, Number;
    var s := Fixed(base, n, count, upper);
    RunLengthIs(base, s, rest);
    FixedSays(base, n, count, upper);
    assert (s + rest)[..count] == s && (s + rest)[count..] == rest;
  }

  /** The same for signed numbers, the most negative one included. */
  lemma SignedRoundTrip(v: int, rest: string, limit: nat)
    requires Stops(10, rest)
    ensures Signed(SignedDecimal(v) + rest, limit) ==
            if -(limit as int) - 1 <= v <= limit then Parsed(v, rest) else Failed(OutOfRange)
  {
    hide Decimal, Unsigned, IsDigit;
    if v < 0 {
      DecimalRoundTrip(-v, rest, limit + 1);
      assert (SignedDecimal(v) + rest)[1..] == Decimal(-v) + rest;
    } else {
      DecimalRoundTrip(v, rest, limit);
    }
  }

  lemma DecimalRoundTrip(n: nat, rest: string, limit: nat)
    requires Stops(10, rest)
    ensures Decimal(n) != [] && Decimal(n)[0] != '-'
    ensures Unsigned(10, Decimal(n) + rest, limit) == if n <= limit then Parsed(n, rest) else Failed(OutOfRange)
  {
    hide Fixed, Unsigned, DigitCount;
    UnsignedRoundTrip(10, n, DigitCount(10, n), false, rest, limit);
    assert IsDigit(10, Decimal(n)[0]);
  }

  method CountDigits(base: nat, value: nat) returns (digits: nat)
    requires IsBase(base)
    ensures digits == DigitCount(base, value)
  {
    digits := 1;
    var rest: nat := value;
    while rest >= base
      invariant digits > 0 && DigitCount(base, value) == digits - 1 + DigitCount(base, rest)
    {
      rest := Quotient(base, rest);
      digits := digits + 1;
    }
  }

  /** Writes the digits backwards into `out[at..at + count]`. */
  method WriteDigits(out: array<char>, at: nat, base: nat, count: nat, value: nat, upper: bool)
    requires IsBase(base) && at + count <= out.Length
    modifies out
    ensures out[..] == old(out[..at]) + Fixed(base, value, count, upper) + old(out[at + count..])
  {
    hide Fixed, DigitChar, Quotient, Remainder;
    ghost var text, before := Fixed(base, value, count, upper), out[..];
    var index: nat, rest: nat := count, value;
    assert text[..count] == text;
    while index > 0
      invariant index <= count && Fixed(base, rest, index, upper) == text[..index]
      invariant out[..] == before[..at + index] + text[index..] + before[at + count..]
    {
      index := index - 1;
      LastDigit(base, rest, index, upper, text);
      Put(before, text, at, index, count);
      out[at + index] := DigitChar(Remainder(base, rest), upper);
      rest := Quotient(base, rest);
    }
  }

  lemma Put<T>(before: seq<T>, text: seq<T>, at: nat, index: nat, count: nat)
    requires index < count == |text| && at + count <= |before|
    ensures (before[..at + index + 1] + text[index + 1..] + before[at + count..])[at + index := text[index]] ==
            before[..at + index] + text[index..] + before[at + count..]
  {
  }

  lemma LastDigit(base: nat, n: nat, index: nat, upper: bool, text: string)
    requires IsBase(base) && index < |text| && Fixed(base, n, index + 1, upper) == text[..index + 1]
    ensures text[index] == DigitChar(Remainder(base, n), upper) &&
            Fixed(base, Quotient(base, n), index, upper) == text[..index]
  {
    assert text[..index + 1][index] == text[index];
    assert text[..index + 1][..index] == text[..index];
  }

  /** The text's length, or 0 with `out` untouched when it does not fit. */
  method TryFormatUint(out: array<char>, value: nat) returns (n: nat)
    modifies out
    ensures n == if |Decimal(value)| <= out.Length then |Decimal(value)| else 0
    ensures out[..] == (if n > 0 then Decimal(value) else []) + old(out[n..])
  {
    var count := CountDigits(10, value);
    if count > out.Length {
      return 0;
    }
    WriteDigits(out, 0, 10, count, value, false);
    return count;
  }

  method TryFormatInt(out: array<char>, value: int) returns (n: nat)
    modifies out
    ensures n == if |SignedDecimal(value)| <= out.Length then |SignedDecimal(value)| else 0
    ensures out[..] == (if n > 0 then SignedDecimal(value) else []) + old(out[n..])
  {
    hide Fixed, DigitCount;
    var magnitude := if value < 0 then -value else value;
    var digits := CountDigits(10, magnitude);
    n := digits + if value < 0 then 1 else 0;
    if n > out.Length {
      return 0;
    }
    ghost var before := out[..];
    if value < 0 {
      out[0] := '-';
      assert out[..1] == "-" && out[n..] == before[n..];
      WriteDigits(out, 1, 10, digits, magnitude, false);
      assert out[..] == "-" + Decimal(magnitude) + before[n..];
    } else {
      WriteDigits(out, 0, 10, digits, magnitude, false);
      assert out[..] == Decimal(magnitude) + before[n..];
    }
  }

  /** Zero-padded to `digits`, or as many as needed when that is 0. */
  function Hex(value: nat, digits: nat, upper: bool): string {
    Fixed(16, value, if digits == 0 then DigitCount(16, value) else digits, upper)
  }

  predicate HexFits(value: nat, digits: nat) {
    digits == 0 || DigitCount(16, value) <= digits
  }

  /** Too few digits are refused, like too small a buffer, not truncated to. */
  method TryFormatHex(out: array<char>, value: nat, digits: nat, upper: bool) returns (n: nat)
    modifies out
    ensures var fits := HexFits(value, digits) && |Hex(value, digits, upper)| <= out.Length;
            && n == (if fits then |Hex(value, digits, upper)| else 0)
            && out[..] == (if fits then Hex(value, digits, upper) else []) + old(out[n..])
  {
    hide Fixed, DigitCount;
    var needed := CountDigits(16, value);
    var count := if digits == 0 then needed else digits;
    if count > out.Length || needed > count {
      return 0;
    }
    WriteDigits(out, 0, 16, count, value, upper);
    return count;
  }

  lemma HexRoundTrip(value: nat, digits: nat, upper: bool, rest: string, limit: nat)
    requires HexFits(value, digits) && value <= limit && Stops(16, rest)
    ensures Unsigned(16, Hex(value, digits, upper) + rest, limit) == Parsed(value, rest)
  {
    UnsignedRoundTrip(16, value, if digits == 0 then DigitCount(16, value) else digits, upper, rest, limit);
  }
}
