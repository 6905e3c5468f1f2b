/**
 Cyclic redundancy checks, most significant bit first, for any register width and
 polynomial (include/metl/crc8.hpp, crc16.hpp and detail/crc.hpp): the bitwise and
 the table-driven step, checksums taken in parts, and the errors always detected.
 */
module Crc {
  import opened Words

  type Byte = b: Word | |b| == 8 witness Zero(8)

  /** One bit through the register. */
  function Shift(poly: Word, crc: Word): (r: Word)
    requires |crc| == |poly| > 0
    ensures |r| == |poly|
  {
    if crc[|crc| - 1] then Xor(Left(crc, 1), poly) else Left(crc, 1)
  }

  function Shifts(poly: Word, n: nat, crc: Word): (r: Word)
    requires |crc| == |poly| > 0
    ensures |r| == |poly|
  {
    if n == 0 then crc else Shifts(poly, n - 1, Shift(poly, crc))
  }

  /** The byte at the top of the register. */
  function AtTop(n: nat, b: Byte): (r: Word)
    requires n >= 8
    ensures |r| == n
  {
    Left(Cast(b, n), n - 8)
  }

  function Update(poly: Word, crc: Word, b: Byte): (r: Word)
    requires |crc| == |poly| >= 8
    ensures |r| == |poly|
  {
    Shifts(poly, 8, Xor(crc, AtTop(|poly|, b)))
  }

  function Fold(poly: Word, crc: Word, bytes: seq<Byte>): (r: Word)
    requires |crc| == |poly| >= 8
    ensures |r| == |poly|
  {
    if bytes == [] then crc else Update(poly, Fold(poly, crc, bytes[..|bytes| - 1]), bytes[|bytes| - 1])
  }

  function Checksum(poly: Word, initial: Word, finalXor: Word, bytes: seq<Byte>): (r: Word)
    requires |initial| == |finalXor| == |poly| >= 8
    ensures |r| == |poly|
  {
    Xor(Fold(poly, initial, bytes), finalXor)
  }

  // ---------------------------------------------------------------------
  // The nibble table
  // ---------------------------------------------------------------------

  /** What entry `i` holds: the register after four zero bits, from top nibble `i`. */
  function Entry(poly: Word, i: nat): (r: Word)
    requires |poly| >= 8
    ensures |r| == |poly|
  {
    Shifts(poly, 4, Left(Of(i, |poly|), |poly| - 4))
  }

  predicate IsTable(poly: Word, table: seq<Word>) {
    |poly| >= 8 && |table| == 16 && forall i :: 0 <= i < 16 ==> table[i] == Entry(poly, i)
  }

  method BuildTable(poly: Word) returns (table: seq<Word>)
    requires |poly| >= 8
    ensures IsTable(poly, table)
  {
    hide Shift, Left, Of;
    var entries := new Word[16];
    for i := 0 to 16
      invariant forall k :: 0 <= k < i ==> entries[k] == Entry(poly, k)
    {
      var value := Left(Of(i, |poly|), |poly| - 4);
      for step := 0 to 4
        invariant |value| == |poly| && Shifts(poly, 4 - step, value) == Entry(poly, i)
      {
        value := Shift(poly, value);
      }
      entries[i] := value;
    }
    table := entries[..];
  }

  method UpdateByTable(poly: Word, table: seq<Word>, start: Word, b: Byte) returns (crc: Word)
    requires IsTable(poly, table) && |start| == |poly|
    ensures crc == Update(poly, start, b)
  {
    hide Shifts, Entry, Xor, Left, Right, AtTop, Value;
    crc := Xor(start, AtTop(|poly|, b));
    for half := 0 to 2
      invariant |crc| == |poly| && Shifts(poly, 8 - 4 * half, crc) == Update(poly, start, b)
    {
      ShiftsAdd(poly, 4, 4 - 4 * half, crc);
      LookUp(poly, crc);
      crc := Xor(Left(crc, 4), table[Value(Right(crc, |poly| - 4))]);
    }
    ShiftsNone(poly, crc);
  }

  method ChecksumByTable(poly: Word, table: seq<Word>, initial: Word, finalXor: Word, bytes: seq<Byte>)
    returns (crc: Word)
    requires IsTable(poly, table) && |initial| == |finalXor| == |poly|
    ensures crc == Checksum(poly, initial, finalXor, bytes)
  {
    hide Update, Entry, Xor;
    crc := initial;
    for i := 0 to |bytes|
      invariant |crc| == |poly| && crc == Fold(poly, initial, bytes[..i])
    {
      assert bytes[..i + 1][..i] == bytes[..i];
      crc := UpdateByTable(poly, table, crc, bytes[i]);
    }
    assert bytes[..|bytes|] == bytes;
    crc := Xor(crc, finalXor);
  }

  lemma ShiftsNone(poly: Word, crc: Word)
    requires |crc| == |poly| > 0
    ensures Shifts(poly, 0, crc) == crc
  {
  }

  lemma {:induction false} ShiftsAdd(poly: Word, m: nat, n: nat, crc: Word)
    requires |crc| == |poly| > 0
    ensures Shifts(poly, m + n, crc) == Shifts(poly, n, Shifts(poly, m, crc))
  {
    hide Shift;
    if m > 0 {
      ShiftsAdd(poly, m - 1, n, Shift(poly, crc));
    }
  }

  lemma {:induction false} ShiftsLinear(poly: Word, n: nat, a: Word, b: Word)
    requires |a| == |b| == |poly| > 0
    ensures Shifts(poly, n, Xor(a, b)) == Xor(Shifts(poly, n, a), Shifts(poly, n, b))
  {
    if n > 0 {
      ShiftLinear(poly, a, b);
      ShiftsLinear(poly, n - 1, Shift(poly, a), Shift(poly, b));
    }
  }

  lemma ShiftLinear(poly: Word, a: Word, b: Word)
    requires |a| == |b| == |poly| > 0
    ensures Shift(poly, Xor(a, b)) == Xor(Shift(poly, a), Shift(poly, b))
  {
  }

  /** With no bit to fall out, shifting is shifting. */
  lemma {:induction false} ShiftsPlain(poly: Word, n: nat, a: Word)
    requires |a| == |poly| > 0 && n <= |a| && ClearFrom(a, |a| - n)
    ensures Shifts(poly, n, a) == Left(a, n)
  {
    if n == 0 {
      assert Left(a, 0) == a;
    } else {
      ShiftsPlain(poly, n - 1, Left(a, 1));
      assert Left(Left(a, 1), n - 1) == Left(a, n);
    }
  }

  /** Four bits at once: the top nibble alone decides what is folded back in. */
  lemma LookUp(poly: Word, crc: Word)
    requires |crc| == |poly| >= 8
    ensures Value(Right(crc, |poly| - 4)) < 16
    ensures Shifts(poly, 4, crc) == Xor(Left(crc, 4), Entry(poly, Value(Right(crc, |poly| - 4))))
  {
    hide Shifts, Value, Of, Left, Right, Xor;
    NibbleBelow(crc);
    NibbleDecides(poly, crc);
    OfValue(Right(crc, |poly| - 4));
  }

  lemma NibbleBelow(crc: Word)
    requires |crc| >= 8
    ensures Value(Right(crc, |crc| - 4)) < 16
  {
    hide Value, Right, ClearFrom, Xor, Left, Rest;
    TopAndRest(crc);
    ValueBelow(Right(crc, |crc| - 4), 4);
    assert Pow2(2) == 4;
  }

  lemma NibbleDecides(poly: Word, crc: Word)
    requires |crc| == |poly| >= 8
    ensures Shifts(poly, 4, crc) == Xor(Left(crc, 4), Shifts(poly, 4, Left(Right(crc, |crc| - 4), |crc| - 4)))
  {
    hide Shifts, Left, Right, Xor, Rest, ClearFrom;
    TopAndRest(crc);
    ShiftsLinear(poly, 4, Rest(crc), Left(Right(crc, |crc| - 4), |crc| - 4));
    ShiftsPlain(poly, 4, Rest(crc));
  }

  function Rest(crc: Word): (r: Word)
    requires |crc| >= 8
    ensures |r| == |crc|
  {
    And(crc, LowBits(|crc|, |crc| - 4))
  }

  lemma TopAndRest(crc: Word)
    requires |crc| >= 8
    ensures crc == Xor(Rest(crc), Left(Right(crc, |crc| - 4), |crc| - 4)) && Left(Rest(crc), 4) == Left(crc, 4)
    ensures ClearFrom(Rest(crc), |crc| - 4) && ClearFrom(Right(crc, |crc| - 4), 4)
  {
  }

  // ---------------------------------------------------------------------
  // In parts
  // ---------------------------------------------------------------------

  lemma {:induction false} FoldConcat(poly: Word, crc: Word, a: seq<Byte>, b: seq<Byte>)
    requires |crc| == |poly| >= 8
    ensures Fold(poly, crc, a + b) == Fold(poly, Fold(poly, crc, a), b)
  {
    hide Update;
    if b == [] {
      assert a + b == a;
    } else {
      assert (a + b)[..|a + b| - 1] == a + b[..|b| - 1];
      FoldConcat(poly, crc, a, b[..|b| - 1]);
    }
  }

  /** Seeding the second part with the first part's checksum, final xor undone,
      gives the checksum of the whole. */
  lemma InParts(poly: Word, initial: Word, finalXor: Word, a: seq<Byte>, b: seq<Byte>)
    requires |initial| == |finalXor| == |poly| >= 8
    ensures Checksum(poly, Xor(Checksum(poly, initial, finalXor, a), finalXor), finalXor, b) ==
            Checksum(poly, initial, finalXor, a + b)
  {
    hide Fold;
    FoldConcat(poly, initial, a, b);
    var first := Fold(poly, initial, a);
    assert Xor(Xor(first, finalXor), finalXor) == first;
  }

  // ---------------------------------------------------------------------
  // Bit by bit
  // ---------------------------------------------------------------------

  /** The register after one message bit. */
  function Feed(poly: Word, crc: Word, bit: bool): (r: Word)
    requires |crc| == |poly| > 0
    ensures |r| == |poly|
  {
    Shift(poly, crc[|crc| - 1 := crc[|crc| - 1] != bit])
  }

  function FeedAll(poly: Word, crc: Word, bits: seq<bool>): (r: Word)
    requires |crc| == |poly| > 0
    ensures |r| == |poly|
    decreases |bits|
  {
    if bits == [] then crc else FeedAll(poly, Feed(poly, crc, bits[0]), bits[1..])
  }

  /** A byte's bits in the order they are sent. */
  function BitsOf(b: Byte): (bits: seq<bool>)
    ensures |bits| == 8
  {
    seq(8, i requires 0 <= i < 8 => b[7 - i])
  }

  function Bits(bytes: seq<Byte>): (bits: seq<bool>)
    ensures |bits| == 8 * |bytes|
  {
    if bytes == [] then [] else Bits(bytes[..|bytes| - 1]) + BitsOf(bytes[|bytes| - 1])
  }

  /** Bits at the top of a register, the first sent topmost. */
  function Packed(n: nat, bits: seq<bool>): (r: Word)
    ensures |r| == n
  {
    seq(n, i requires 0 <= i < n => n - 1 - i < |bits| && bits[n - 1 - i])
  }

  /** Bits xored in at the top all at once, or fed in one at a time. */
  lemma {:induction false} AllAtOnce(poly: Word, crc: Word, bits: seq<bool>)
    requires |crc| == |poly| > 0 && |bits| <= |poly|
    ensures Shifts(poly, |bits|, Xor(crc, Packed(|poly|, bits))) == FeedAll(poly, crc, bits)
    decreases |bits|
  {
    hide Shift, Xor, Packed, Feed;
    if bits == [] {
      PackedNone(crc);
    } else {
      FirstOfMany(poly, crc, bits);
      AllAtOnce(poly, Feed(poly, crc, bits[0]), bits[1..]);
    }
  }

  lemma PackedNone(crc: Word)
    ensures Xor(crc, Packed(|crc|, [])) == crc
  {
  }

  lemma FirstOfMany(poly: Word, crc: Word, bits: seq<bool>)
    requires |crc| == |poly| > 0 && 0 < |bits| <= |poly|
    ensures Shift(poly, Xor(crc, Packed(|poly|, bits))) == Xor(Feed(poly, crc, bits[0]), Packed(|poly|, bits[1..]))
  {
    hide Shift;
    var n := |poly|;
    var whole := Xor(crc, Packed(n, bits));
    var fed := crc[n - 1 := crc[n - 1] != bits[0]];
    forall i | 0 <= i < n
      ensures Shift(poly, whole)[i] == (Shift(poly, fed)[i] != Packed(n, bits[1..])[i])
    {
      ShiftAt(poly, whole, i);
      ShiftAt(poly, fed, i);
    }
  }

  lemma ShiftAt(poly: Word, crc: Word, i: nat)
    requires |crc| == |poly| > i
    ensures Shift(poly, crc)[i] <==> ((i > 0 && crc[i - 1]) != (crc[|crc| - 1] && poly[i]))
  {
  }

  lemma UpdateIsFeeding(poly: Word, crc: Word, b: Byte)
    requires |crc| == |poly| >= 8
    ensures Update(poly, crc, b) == FeedAll(poly, crc, BitsOf(b))
  {
    hide Shifts, FeedAll, Packed, AtTop, BitsOf, Xor;
    AtTopPacked(|poly|, b);
    AllAtOnce(poly, crc, BitsOf(b));
  }

  lemma AtTopPacked(n: nat, b: Byte)
    requires n >= 8
    ensures AtTop(n, b) == Packed(n, BitsOf(b))
  {
  }

  lemma {:induction false} FeedConcat(poly: Word, crc: Word, a: seq<bool>, b: seq<bool>)
    requires |crc| == |poly| > 0
    ensures FeedAll(poly, crc, a + b) == FeedAll(poly, FeedAll(poly, crc, a), b)
    decreases |a|
  {
    hide Feed;
    if a == [] {
      assert a + b == b;
    } else {
      assert (a + b)[1..] == a[1..] + b;
      FeedConcat(poly, Feed(poly, crc, a[0]), a[1..], b);
    }
  }

  /** A checksum is the register after the message's bits in order. */
  lemma {:induction false} FoldIsFeeding(poly: Word, crc: Word, bytes: seq<Byte>)
    requires |crc| == |poly| >= 8
    ensures Fold(poly, crc, bytes) == FeedAll(poly, crc, Bits(bytes))
  {
    hide Update, FeedAll, BitsOf;
    if bytes == [] {
      FeedNone(poly, crc);
    } else {
      var before := bytes[..|bytes| - 1];
      FoldIsFeeding(poly, crc, before);
      UpdateIsFeeding(poly, Fold(poly, crc, before), bytes[|bytes| - 1]);
      FeedConcat(poly, crc, Bits(before), BitsOf(bytes[|bytes| - 1]));
    }
  }

  lemma FeedNone(poly: Word, crc: Word)
    requires |crc| == |poly| > 0
    ensures FeedAll(poly, crc, []) == crc
  {
  }

  // ---------------------------------------------------------------------
  // Errors always detected
  // ---------------------------------------------------------------------

  /** Fed as many bits as the register is wide, or fewer, two registers can only
      end equal if they started apart by exactly the bits' difference. */
  lemma {:induction false} EqualEndings(poly: Word, s: Word, t: Word, x: seq<bool>, y: seq<bool>)
    requires |s| == |t| == |poly| > 0 && poly[0] && |x| == |y| <= |poly|
    requires FeedAll(poly, s, x) == FeedAll(poly, t, y)
    ensures Xor(s, t) == Xor(Packed(|poly|, x), Packed(|poly|, y))
    decreases |x|
  {
    if x != [] {
      hide Feed, Xor, Packed;
      EqualEndings(poly, Feed(poly, s, x[0]), Feed(poly, t, y[0]), x[1..], y[1..]);
      StepBack(poly, s, t, x, y);
    }
  }

  lemma StepBack(poly: Word, s: Word, t: Word, x: seq<bool>, y: seq<bool>)
    requires |s| == |t| == |poly| > 0 && poly[0] && 0 < |x| == |y| <= |poly|
    requires Xor(Feed(poly, s, x[0]), Feed(poly, t, y[0])) == Xor(Packed(|poly|, x[1..]), Packed(|poly|, y[1..]))
    ensures Xor(s, t) == Xor(Packed(|poly|, x), Packed(|poly|, y))
  {
    var n := |poly|;
    var s', t' := Feed(poly, s, x[0]), Feed(poly, t, y[0]);
    var p, q := Packed(n, x), Packed(n, y);
    var p', q' := Packed(n, x[1..]), Packed(n, y[1..]);
    SameAt(s', t', p', q', 0);
    assert s'[0] == (s[n - 1] != x[0]) && t'[0] == (t[n - 1] != y[0]);
    forall i | 0 <= i < n ensures Xor(s, t)[i] == Xor(p, q)[i] {
      if i < n - 1 {
        SameAt(s', t', p', q', i + 1);
        assert s'[i + 1] != t'[i + 1] <==> s[i] != t[i];
      }
    }
  }

  lemma SameAt(s: Word, t: Word, p: Word, q: Word, i: nat)
    requires |s| == |t| == |p| == |q| > i && Xor(s, t) == Xor(p, q)
    ensures s[i] != t[i] <==> p[i] != q[i]
  {
    assert Xor(s, t)[i] == Xor(p, q)[i];
  }

  /** Registers that differ still differ after the same bits. */
  lemma {:induction false} StayApart(poly: Word, s: Word, t: Word, bits: seq<bool>)
    requires |s| == |t| == |poly| > 0 && poly[0]
    requires FeedAll(poly, s, bits) == FeedAll(poly, t, bits)
    ensures s == t
    decreases |bits|
  {
    if bits != [] {
      var s', t' := Feed(poly, s, bits[0]), Feed(poly, t, bits[0]);
      StayApart(poly, s', t', bits[1..]);
      var n := |poly|;
      assert s'[0] == (s[n - 1] != bits[0]) && t'[0] == (t[n - 1] != bits[0]);
      forall i | 0 <= i < n - 1 ensures s[i] == t[i] {
        assert s'[i + 1] != t'[i + 1] <==> s[i] != t[i];
      }
    }
  }

  /** Two messages of one length whose bits agree outside `width` consecutive
      ones, from bit `from` on. */
  predicate Burst(a: seq<bool>, b: seq<bool>, from: nat, width: nat) {
    |a| == |b| && from + width <= |a| && a[..from] == b[..from] && a[from + width..] == b[from + width..]
  }

  /** No burst as long as the register, or shorter, goes unnoticed. */
  lemma BurstDetected(poly: Word, crc: Word, a: seq<Byte>, b: seq<Byte>, from: nat, width: nat)
    requires |crc| == |poly| >= 8 && poly[0]
    requires width <= |poly| && Burst(Bits(a), Bits(b), from, width) && a != b
    ensures Fold(poly, crc, a) != Fold(poly, crc, b)
  {
    hide Fold, FeedAll, Bits;
    var x, y := Bits(a), Bits(b);
    FoldIsFeeding(poly, crc, a);
    FoldIsFeeding(poly, crc, b);
    var end := from + width;
    InThree(poly, crc, x, from, end);
    InThree(poly, crc, y, from, end);
    var s := FeedAll(poly, crc, x[..from]);
    var p, q := FeedAll(poly, s, x[from..end]), FeedAll(poly, s, y[from..end]);
    if FeedAll(poly, p, x[end..]) == FeedAll(poly, q, x[end..]) {
      StayApart(poly, p, q, x[end..]);
      SameStart(poly, s, x[from..end], y[from..end]);
      Rejoin(x, from, end);
      Rejoin(y, from, end);
      BitsInjective(a, b);
      assert false;
    }
  }

  lemma InThree(poly: Word, crc: Word, x: seq<bool>, from: nat, end: nat)
    requires |crc| == |poly| > 0 && from <= end <= |x|
    ensures FeedAll(poly, crc, x) == FeedAll(poly, FeedAll(poly, FeedAll(poly, crc, x[..from]), x[from..end]), x[end..])
  {
    hide FeedAll;
    Rejoin(x, from, end);
    FeedConcat(poly, crc, x[..from], x[from..]);
    FeedConcat(poly, FeedAll(poly, crc, x[..from]), x[from..end], x[end..]);
  }

  lemma SameStart(poly: Word, s: Word, x: seq<bool>, y: seq<bool>)
    requires |s| == |poly| > 0 && poly[0] && |x| == |y| <= |poly| && FeedAll(poly, s, x) == FeedAll(poly, s, y)
    ensures x == y
  {
    hide FeedAll, Xor, Packed;
    EqualEndings(poly, s, s, x, y);
    forall j | 0 <= j < |x| ensures x[j] == y[j] {
      SameBit(s, x, y, j);
    }
    Same(x, y);
  }

  lemma SameBit(s: Word, x: seq<bool>, y: seq<bool>, j: nat)
    requires j < |x| == |y| <= |s| && Xor(s, s) == Xor(Packed(|s|, x), Packed(|s|, y))
    ensures x[j] == y[j]
  {
    SameAt(s, s, Packed(|s|, x), Packed(|s|, y), |s| - 1 - j);
  }

  lemma {:induction false} BitsInjective(a: seq<Byte>, b: seq<Byte>)
    requires Bits(a) == Bits(b)
    ensures a == b
  {
    if a != [] {
      hide Bits, BitsOf;
      var n := |a| - 1;
      LastByte(a);
      LastByte(b);
      BitsInjective(a[..n], b[..n]);
      forall i | 0 <= i < 8 ensures a[n][i] == b[n][i] {
        BitAt(a[n], i);
        BitAt(b[n], i);
      }
      Same(a[n], b[n]);
      assert a == a[..n] + [a[n]] && b == b[..n] + [b[n]];
    }
  }

  lemma LastByte(a: seq<Byte>)
    requires a != []
    ensures var n := |a| - 1; Bits(a)[..8 * n] == Bits(a[..n]) && Bits(a)[8 * n..] == BitsOf(a[n])
  {
    hide BitsOf;
    var n := |a| - 1;
    Parts(Bits(a[..n]), BitsOf(a[n]));
  }

  lemma Parts<T>(a: seq<T>, b: seq<T>)
    ensures (a + b)[..|a|] == a && (a + b)[|a|..] == b
  {
  }

  lemma BitAt(b: Byte, i: nat)
    requires i < 8
    ensures b[i] == BitsOf(b)[7 - i]
  {
  }

  function Odd(bits: seq<bool>): bool {
    bits != [] && (bits[0] != Odd(bits[1..]))
  }

  lemma {:induction false} OddXor(a: Word, b: Word)
    requires |a| == |b|
    ensures Odd(Xor(a, b)) <==> Odd(a) != Odd(b)
  {
    if a != [] {
      assert Xor(a, b)[1..] == Xor(a[1..], b[1..]);
      OddXor(a[1..], b[1..]);
    }
  }

  lemma {:induction false} OddConcat(a: seq<bool>, b: seq<bool>)
    ensures Odd(a + b) <==> Odd(a) != Odd(b)
  {
    if a == [] {
      assert a + b == b;
    } else {
      assert (a + b)[1..] == a[1..] + b;
      OddConcat(a[1..], b);
    }
  }

  lemma OddShift(poly: Word, crc: Word)
    requires |crc| == |poly| > 0 && Odd(poly)
    ensures Odd(Shift(poly, crc)) == Odd(crc)
  {
    var n := |crc|;
    var low := crc[..n - 1];
    assert Left(crc, 1) == [false] + low;
    assert crc == low + [crc[n - 1]];
    OddConcat(low, [crc[n - 1]]);
    assert Odd([crc[n - 1]]) == crc[n - 1];
    OddXor(Left(crc, 1), poly);
  }

  /** The register's parity keeps count of the message's. */
  lemma {:induction false} ParityKept(poly: Word, crc: Word, bits: seq<bool>)
    requires |crc| == |poly| > 0 && Odd(poly)
    ensures Odd(FeedAll(poly, crc, bits)) <==> Odd(crc) != Odd(bits)
    decreases |bits|
  {
    hide Shift;
    if bits != [] {
      var n := |crc|;
      var fed := crc[n - 1 := crc[n - 1] != bits[0]];
      assert crc == crc[..n - 1] + [crc[n - 1]] && fed == crc[..n - 1] + [fed[n - 1]];
      OddConcat(crc[..n - 1], [crc[n - 1]]);
      OddConcat(crc[..n - 1], [fed[n - 1]]);
      OddShift(poly, fed);
      ParityKept(poly, Feed(poly, crc, bits[0]), bits[1..]);
    }
  }

  /** With an odd polynomial, no odd number of flipped bits goes unnoticed. */
  lemma OddDetected(poly: Word, crc: Word, a: seq<Byte>, b: seq<Byte>)
    requires |crc| == |poly| >= 8 && Odd(poly) && Odd(Bits(a)) != Odd(Bits(b))
    ensures Fold(poly, crc, a) != Fold(poly, crc, b)
  {
    hide Fold, FeedAll, Bits, Odd;
    FoldIsFeeding(poly, crc, a);
    FoldIsFeeding(poly, crc, b);
    ParityKept(poly, crc, Bits(a));
    ParityKept(poly, crc, Bits(b));
  }

  // ---------------------------------------------------------------------
  // Errors as differences
  // ---------------------------------------------------------------------

  function Difference(a: seq<Byte>, b: seq<Byte>): (d: seq<Byte>)
    requires |a| == |b|
    ensures |d| == |a|
  {
    seq(|a|, i requires 0 <= i < |a| => Xor(a[i], b[i]))
  }

  /** The checksums' difference is the checksum, from a zero register, of the messages'. */
  lemma {:induction false} FoldLinear(poly: Word, s: Word, t: Word, a: seq<Byte>, b: seq<Byte>)
    requires |s| == |t| == |poly| >= 8 && |a| == |b|
    ensures Fold(poly, Xor(s, t), Difference(a, b)) == Xor(Fold(poly, s, a), Fold(poly, t, b))
  {
    hide Xor, Update;
    if a != [] {
      var n := |a| - 1;
      FoldLinear(poly, s, t, a[..n], b[..n]);
      assert Difference(a, b)[..n] == Difference(a[..n], b[..n]);
      UpdateLinear(poly, Fold(poly, s, a[..n]), Fold(poly, t, b[..n]), a[n], b[n]);
    }
  }

  lemma UpdateLinear(poly: Word, s: Word, t: Word, a: Byte, b: Byte)
    requires |s| == |t| == |poly| >= 8
    ensures Update(poly, Xor(s, t), Xor(a, b)) == Xor(Update(poly, s, a), Update(poly, t, b))
  {
    hide Shifts;
    var n := |poly|;
    ShiftsLinear(poly, 8, Xor(s, AtTop(n, a)), Xor(t, AtTop(n, b)));
    Same(Xor(Xor(s, t), AtTop(n, Xor(a, b))), Xor(Xor(s, AtTop(n, a)), Xor(t, AtTop(n, b))));
  }

  lemma XorSelf(s: Word)
    ensures Xor(s, s) == Zero(|s|)
  {
  }

  lemma XorEqual(s: Word, t: Word, u: Word, v: Word)
    requires |s| == |t| == |u| == |v| && s == u
    ensures t == v <==> Xor(s, t) == Xor(u, v)
  {
    if Xor(s, t) == Xor(u, v) {
      forall i | 0 <= i < |t| ensures t[i] == v[i] {
        assert Xor(s, t)[i] == Xor(u, v)[i];
      }
    }
  }
}
