/**
 Unsigned machine words of any width, as their bits: bit `i` has weight 2^i, so
 a little-endian byte sequence is the concatenation of its bytes' bits.
 */
module Words {

  type Word = seq<bool>

  lemma Rejoin<T>(s: seq<T>, i: nat, k: nat)
    requires i <= k <= |s|
    ensures s[..i] + s[i..] == s && s[i..k] + s[k..] == s[i..]
  {
  }

  lemma Same<T>(a: seq<T>, b: seq<T>)
    requires |a| == |b| && forall i :: 0 <= i < |a| ==> a[i] == b[i]
    ensures a == b
  {
  }

  function Zero(n: nat): (r: Word)
    ensures |r| == n
  {
    seq(n, i => false)
  }

  function And(a: Word, b: Word): Word
    requires |a| == |b|
  {
    seq(|a|, i requires 0 <= i < |a| => a[i] && b[i])
  }

  function Or(a: Word, b: Word): Word
    requires |a| == |b|
  {
    seq(|a|, i requires 0 <= i < |a| => a[i] || b[i])
  }

  function Xor(a: Word, b: Word): (r: Word)
    requires |a| == |b|
    ensures |r| == |a|
  {
    seq(|a|, i requires 0 <= i < |a| => a[i] != b[i])
  }

  function Not(a: Word): Word {
    seq(|a|, i requires 0 <= i < |a| => !a[i])
  }

  /** `a << k`, dropping what leaves the word. */
  function Left(a: Word, k: nat): (r: Word)
    ensures |r| == |a|
  {
    seq(|a|, i requires 0 <= i < |a| => i >= k && a[i - k])
  }

  /** `a >> k`. */
  function Right(a: Word, k: nat): (r: Word)
    ensures |r| == |a|
  {
    seq(|a|, i requires 0 <= i < |a| => i + k < |a| && a[i + k])
  }

  function LowBits(n: nat, count: nat): Word {
    seq(n, i => i < count)
  }

  /** A narrowing or widening conversion. */
  function Cast(a: Word, n: nat): (r: Word)
    ensures |r| == n
  {
    if n <= |a| then a[..n] else a + Zero(n - |a|)
  }

  function Value(a: Word): nat {
    if a == [] then 0 else (if a[0] then 1 else 0) + 2 * Value(a[1..])
  }

  /** `v` in `n` bits, wrapping. */
  function Of(v: nat, n: nat): (r: Word)
    ensures |r| == n
  {
    if n == 0 then [] else [v % 2 == 1] + Of(v / 2, n - 1)
  }

  lemma {:induction false} OfValue(a: Word)
    ensures Of(Value(a), |a|) == a
  {
    if a != [] {
      OfValue(a[1..]);
      assert a == [a[0]] + a[1..];
    }
  }

  function Pow2(n: nat): nat {
    if n == 0 then 1 else 2 * Pow2(n - 1)
  }

  predicate ClearFrom(a: Word, k: nat) {
    forall i :: k <= i < |a| ==> !a[i]
  }

  /** A value is below 2^k exactly when no bit from `k` up is set. */
  lemma {:induction false} ValueBelow(a: Word, k: nat)
    ensures Value(a) < Pow2(k) <==> ClearFrom(a, k)
  {
    if a == [] {
      Pow2Positive(k);
    } else if k == 0 {
      if !a[0] {
        ValueBelow(a[1..], 0);
        assert forall i :: 0 <= i < |a[1..]| ==> a[1..][i] == a[i + 1];
        assert (forall i :: 0 <= i < |a| ==> !a[i]) ==> forall i :: 0 <= i < |a[1..]| ==> !a[1..][i];
        assert (forall i :: 0 <= i < |a[1..]| ==> !a[1..][i]) ==>
            forall i :: 0 < i < |a| ==> !a[1..][i - 1] && !a[i];
      }
    } else {
      var rest := a[1..];
      ValueBelow(rest, k - 1);
      assert (forall i :: k <= i < |a| ==> !a[i]) ==> forall i :: k - 1 <= i < |rest| ==> !a[i + 1] && !rest[i];
      assert (forall i :: k - 1 <= i < |rest| ==> !rest[i]) ==> forall i :: k <= i < |a| ==> !rest[i - 1] && !a[i];
    }
  }

  lemma {:induction false} Pow2Positive(k: nat)
    ensures Pow2(k) >= 1
  {
    if k > 0 {
      Pow2Positive(k - 1);
    }
  }
}

/**
 A field of a storage word (include/metl/bitfield.hpp), for every storage width,
 position and field width the template admits.
 */
module Bitfield {
  import opened Words

  predicate Fits(n: nat, lsb: nat, width: nat) {
    width > 0 && lsb + width <= n
  }

  function Mask(n: nat, lsb: nat, width: nat): Word {
    Left(LowBits(n, width), lsb)
  }

  function Extract(value: Word, lsb: nat, width: nat): (r: Word)
    ensures |r| == |value|
  {
    Right(And(value, Mask(|value|, lsb, width)), lsb)
  }

  function Insert(value: Word, field: Word, lsb: nat, width: nat): (r: Word)
    requires |field| == |value|
    ensures |r| == |value|
  {
    var mask := Mask(|value|, lsb, width);
    Or(And(value, Not(mask)), And(Left(field, lsb), mask))
  }

  /** Extracting reads exactly the field's bits, right-aligned. */
  lemma ExtractReads(value: Word, lsb: nat, width: nat)
    requires Fits(|value|, lsb, width)
    ensures Extract(value, lsb, width) == Cast(value[lsb..lsb + width], |value|)
  {
  }

  /** Inserting replaces exactly the field's bits, by the low bits given. */
  lemma InsertReplaces(value: Word, field: Word, lsb: nat, width: nat)
    requires |field| == |value| && Fits(|value|, lsb, width)
    ensures Insert(value, field, lsb, width) == value[..lsb] + field[..width] + value[lsb + width..]
  {
  }

  /** What was inserted is read back, cut to the field. */
  lemma ReadBack(value: Word, field: Word, lsb: nat, width: nat)
    requires |field| == |value| && Fits(|value|, lsb, width)
    ensures Extract(Insert(value, field, lsb, width), lsb, width) == Cast(field[..width], |value|)
  {
    hide Extract, Insert;
    InsertReplaces(value, field, lsb, width);
    ExtractReads(Insert(value, field, lsb, width), lsb, width);
  }

  /** Inserting what is there changes nothing. */
  lemma WriteBack(value: Word, lsb: nat, width: nat)
    requires Fits(|value|, lsb, width)
    ensures Insert(value, Extract(value, lsb, width), lsb, width) == value
  {
    hide Extract, Insert;
    ExtractReads(value, lsb, width);
    InsertReplaces(value, Extract(value, lsb, width), lsb, width);
  }

  /** Fields that do not overlap do not disturb each other. */
  lemma Apart(value: Word, field: Word, lsb: nat, width: nat, lsb': nat, width': nat)
    requires |field| == |value| && Fits(|value|, lsb, width) && Fits(|value|, lsb', width')
    requires lsb + width <= lsb' || lsb' + width' <= lsb
    ensures Extract(Insert(value, field, lsb, width), lsb', width') == Extract(value, lsb', width')
  {
    hide Extract, Insert;
    var changed := Insert(value, field, lsb, width);
    InsertReplaces(value, field, lsb, width);
    ExtractReads(changed, lsb', width');
    ExtractReads(value, lsb', width');
    assert changed[lsb'..lsb' + width'] == value[lsb'..lsb' + width'];
  }
}
