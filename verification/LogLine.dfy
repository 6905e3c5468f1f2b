/**
 Rendering a log line with a bounded buffer and no allocation
 (examples/log_line.cpp): numbers go through a scratch buffer into a line of 64
 characters, and anything that does not fit aborts.
 */
module LogLine {
  import opened Numerals
  import T = Telemetry

  const LINE_CAPACITY := 64
  const SCRATCH := 24

  function Power(base: nat, k: nat): nat {
    if k == 0 then 1 else base * Power(base, k - 1)
  }

  /** A number has at most `k` digits exactly when it is below `base` to the `k`. */
  lemma {:induction false} DigitsBelow(base: nat, n: nat, k: nat)
    requires IsBase(base) && k > 0
    ensures DigitCount(base, n) <= k <==> n < Power(base, k)
    decreases k
  {
    if k == 1 {
      assert Power(base, 1) == base;
      if n >= base {
        assert DigitCount(base, n) >= 2;
      }
    } else {
      DigitsBelow(base, Quotient(base, n), k - 1);
      QuotientBelow(base, n, Power(base, k - 1));
      PowerPositive(base, k - 1);
      if n < base {
        Times(base, Power(base, k - 1));
      }
    }
  }

  lemma QuotientBelow(base: nat, n: nat, p: nat)
    requires IsBase(base)
    ensures Quotient(base, n) < p <==> n < base * p
  {
  }

  lemma Times(base: nat, p: nat)
    requires p >= 1
    ensures base * p >= base
  {
  }

  lemma {:induction false} PowerPositive(base: nat, k: nat)
    requires base > 0
    ensures Power(base, k) >= 1
  {
    if k > 0 {
      PowerPositive(base, k - 1);
      Times(base, Power(base, k - 1));
    }
  }

  /** The widths that occur. */
  lemma Widths(n: nat)
    ensures n < 10 ==> |Decimal(n)| == 1
    ensures n <= 3276 ==> |Decimal(n)| <= 4
    ensures n <= 0xFFFF ==> |Decimal(n)| <= 5
    ensures HexFits(n, 4) <==> n <= 0xFFFF
  {
    DigitsBelow(10, n, 1);
    DigitsBelow(10, n, 4);
    DigitsBelow(10, n, 5);
    DigitsBelow(16, n, 4);
    assert Power(10, 2) == 100;
    assert Power(10, 4) == 10000;
    assert Power(10, 5) == 100000;
    assert Power(16, 2) == 256;
    assert Power(16, 4) == 0x10000;
  }

  class Line {
    var text: string
    const scratch: array<char>

    ghost predicate Valid()
      reads this
    {
      scratch.Length == SCRATCH && |text| <= LINE_CAPACITY
    }

    constructor ()
      ensures Valid() && text == [] && fresh(scratch)
    {
      text := [];
      scratch := new char[SCRATCH];
    }

    /** All of the text or, as an abort, none of it. */
    method Append(more: string) returns (ok: bool)
      requires Valid()
      modifies this
      ensures Valid() && ok == (|old(text)| + |more| <= 64)
      ensures text == if ok then old(text) + more else old(text)
    {
      ok := |text| + |more| <= LINE_CAPACITY;
      if ok {
        text := text + more;
      }
    }

    method AppendInt(value: int) returns (ok: bool)
      requires Valid()
      modifies this, scratch
      ensures Valid() && ok == (|SignedDecimal(value)| <= 24 &&
                                |old(text)| + |SignedDecimal(value)| <= 64)
      ensures text == if ok then old(text) + SignedDecimal(value) else old(text)
    {
      hide Fixed, DigitCount;
      var n := TryFormatInt(scratch, value);
      if n == 0 {
        return false;
      }
      assert scratch[..n] == scratch[..][..n] == SignedDecimal(value);
      ok := Append(scratch[..n]);
    }

    method AppendUint(value: nat) returns (ok: bool)
      requires Valid()
      modifies this, scratch
      ensures Valid() && ok == (|Decimal(value)| <= 24 && |old(text)| + |Decimal(value)| <= 64)
      ensures text == if ok then old(text) + Decimal(value) else old(text)
    {
      hide Fixed, DigitCount;
      var n := TryFormatUint(scratch, value);
      if n == 0 {
        return false;
      }
      assert scratch[..n] == scratch[..][..n] == Decimal(value);
      ok := Append(scratch[..n]);
    }

    method AppendHex(value: nat, digits: nat) returns (ok: bool)
      requires Valid() && 0 < digits <= SCRATCH
      modifies this, scratch
      ensures Valid() && ok == (HexFits(value, digits) && |old(text)| + digits <= 64)
      ensures text == if ok then old(text) + Hex(value, digits, true) else old(text)
    {
      hide Fixed, DigitCount;
      var n := TryFormatHex(scratch, value, digits, true);
      if n == 0 {
        return false;
      }
      assert scratch[..n] == scratch[..][..n] == Hex(value, digits, true);
      ok := Append(scratch[..n]);
    }

    /** A fixed-point reading, whole and fraction formatted separately. It aborts exactly
        when the reading does not fit, then with the parts that did. */
    method AppendTenths(tenths: int) returns (ok: bool)
      requires Valid() && -32768 <= tenths <= 32767
      modifies this, scratch
      ensures Valid() && (ok <==> |old(text)| + |T.PrintTenths(tenths)| <= 64)
      ensures ok ==> text == old(text) + T.PrintTenths(tenths)
      ensures old(text) <= text <= old(text) + T.PrintTenths(tenths)
      ensures |T.PrintTenths(tenths)| <= 7
    {
      hide Decimal;
      var magnitude: nat := if tenths < 0 then -tenths else tenths;
      Widths(magnitude / 10);
      Widths(magnitude % 10);
      if tenths < 0 {
        ok := Append("-");
        if !ok {
          return;
        }
      }
      ok := AppendInt(magnitude / 10);
      if !ok {
        return;
      }
      ok := Append(".");
      if !ok {
        return;
      }
      ok := AppendInt(magnitude % 10);
    }

    /** Every reading is rendered without truncation, unless its status needs more
        than four hexadecimal digits: then, and only then, the program aborts. */
    method Render(sample: T.Frame) returns (ok: bool)
      requires Valid() && text == [] && T.Fits(sample)
      modifies this, scratch
      ensures Valid() && ok == (sample.status <= 0xFFFF)
      ensures ok ==> text == T.Render(sample) && |text| <= 37
    {
      hide Decimal, T.PrintTenths, T.Render, Hex, HexFits;
      Widths(sample.sequence);
      Widths(sample.status);
      ok := Append("seq=");
      ok := AppendUint(sample.sequence);
      assert text == "seq=" + Decimal(sample.sequence);
      ok := Append(" temp=");
      ok := AppendTenths(sample.temperature);
      ok := Append("C status=0x");
      ghost var before := text;
      assert |before| <= 33;
      ok := AppendHex(sample.status, 4);
      if ok {
        Rendered(before, sample);
      }
    }
  }

  lemma Rendered(before: string, sample: T.Frame)
    requires T.Fits(sample)
    requires before == "seq=" + Decimal(sample.sequence) + " temp=" + T.PrintTenths(sample.temperature) + "C status=0x"
    ensures before + Hex(sample.status, 4, true) == T.Render(sample) && |Hex(sample.status, 4, true)| == 4
  {
  }
}
