/** Fixed-width integers in either byte order, and records made of them. */
module Bytes {

  type Byte = n: int | 0 <= n < 256

  /** How many values `w` bytes tell apart. */
  function Pow256(w: nat): (p: nat)
    ensures p > 0
  {
    if w == 0 then 1 else 256 * Pow256(w - 1)
  }

  function Pack(big: bool, w: nat, v: nat): (s: seq<Byte>)
    ensures |s| == w
  {
    if w == 0 then []
    else if big then Pack(big, w - 1, v / 256) + [v % 256]
    else [v % 256] + Pack(big, w - 1, v / 256)
  }

  function Unpack(big: bool, s: seq<Byte>): nat {
    if s == [] then 0
    else if big then Unpack(big, s[..|s| - 1]) * 256 + s[|s| - 1]
    else s[0] + 256 * Unpack(big, s[1..])
  }

  /** What was packed is unpacked, whenever it fits. */
  lemma {:induction false} UnpackPack(big: bool, w: nat, v: nat)
    requires v < Pow256(w)
    ensures Unpack(big, Pack(big, w, v)) == v
  {
    if w > 0 {
      UnpackPack(big, w - 1, v / 256);
      var s := Pack(big, w, v);
      if big {
        assert s[..w - 1] == Pack(big, w - 1, v / 256);
      } else {
        assert s[1..] == Pack(big, w - 1, v / 256);
      }
    }
  }

  // ---------------------------------------------------------------------
  // Records: one width and one value a field
  // ---------------------------------------------------------------------

  function Size(ws: seq<nat>): nat {
    if ws == [] then 0 else ws[0] + Size(ws[1..])
  }

  predicate Fits(ws: seq<nat>, vs: seq<nat>) {
    |ws| == |vs| && forall i :: 0 <= i < |ws| ==> vs[i] < Pow256(ws[i])
  }

  function PackAll(big: bool, ws: seq<nat>, vs: seq<nat>): (s: seq<Byte>)
    requires |ws| == |vs|
    ensures |s| == Size(ws)
  {
    if ws == [] then [] else Pack(big, ws[0], vs[0]) + PackAll(big, ws[1..], vs[1..])
  }

  function UnpackAll(big: bool, ws: seq<nat>, s: seq<Byte>): (vs: seq<nat>)
    requires |s| == Size(ws)
    ensures |vs| == |ws|
  {
    if ws == [] then [] else [Unpack(big, s[..ws[0]])] + UnpackAll(big, ws[1..], s[ws[0]..])
  }

  lemma {:induction false} UnpackAllPackAll(big: bool, ws: seq<nat>, vs: seq<nat>)
    requires Fits(ws, vs)
    ensures UnpackAll(big, ws, PackAll(big, ws, vs)) == vs
  {
    if ws != [] {
      var s := PackAll(big, ws, vs);
      UnpackPack(big, ws[0], vs[0]);
      UnpackAllPackAll(big, ws[1..], vs[1..]);
      assert s[..ws[0]] == Pack(big, ws[0], vs[0]);
      assert s[ws[0]..] == PackAll(big, ws[1..], vs[1..]);
    }
  }

  // ---------------------------------------------------------------------
  // Where a run of bytes lies in a file
  // ---------------------------------------------------------------------

  predicate At(data: seq<Byte>, offset: nat, s: seq<Byte>) {
    offset + |s| <= |data| && data[offset..offset + |s|] == s
  }

  lemma AtSplit(data: seq<Byte>, offset: nat, a: seq<Byte>, b: seq<Byte>)
    requires At(data, offset, a + b)
    ensures At(data, offset, a) && At(data, offset + |a|, b)
  {
    var s := data[offset..offset + |a + b|];
    assert data[offset..offset + |a|] == s[..|a|];
    assert data[offset + |a|..offset + |a| + |b|] == s[|a|..];
  }

  // ---------------------------------------------------------------------
  // String tables
  // ---------------------------------------------------------------------

  type Name = seq<Byte>

  /** A zero byte, then each string followed by a zero byte. */
  function Table(names: seq<Name>): seq<Byte> {
    if names == [] then [0] else Table(names[..|names| - 1]) + names[|names| - 1] + [0]
  }

  /** Where string `i` starts in the table. */
  function OffsetOf(names: seq<Name>, i: nat): nat
    requires i <= |names|
  {
    |Table(names[..i])|
  }

  lemma TableGrows(names: seq<Name>, i: nat)
    requires i < |names|
    ensures Table(names[..i + 1]) == Table(names[..i]) + names[i] + [0]
  {
    assert names[..i + 1][..i] == names[..i];
  }

  lemma {:induction false} TablePrefix(names: seq<Name>, i: nat)
    requires i <= |names|
    ensures Table(names[..i]) <= Table(names)
    decreases |names| - i
  {
    if i < |names| {
      TableGrows(names, i);
      TablePrefix(names, i + 1);
      assert Table(names[..i]) <= Table(names[..i + 1]);
    } else {
      assert names[..i] == names;
    }
  }

  lemma PrefixAt(t: seq<Byte>, a: seq<Byte>, b: seq<Byte>)
    requires a + b <= t
    ensures At(t, |a|, b)
  {
    assert t[|a|..|a| + |b|] == t[..|a + b|][|a|..];
  }

  /** String `i` and its terminator are in the table where `OffsetOf` says. */
  lemma TableHolds(names: seq<Name>, i: nat)
    requires i < |names|
    ensures At(Table(names), OffsetOf(names, i), names[i] + [0])
    ensures 0 < OffsetOf(names, i)
  {
    var before, s := Table(names[..i]), names[i] + [0];
    assert before + s <= Table(names) by {
      TablePrefix(names, i + 1);
      TableGrows(names, i);
      assert before + names[i] + [0] == before + s;
    }
    PrefixAt(Table(names), before, s);
    TablePositive(names[..i]);
  }

  lemma TablePositive(names: seq<Name>)
    ensures |Table(names)| > 0
  {
  }

  /** The string up to its first zero byte: all of it unless it contains one. */
  function UpToNul(s: Name): (r: Name)
    ensures r <= s && 0 !in r && (r == s || s[|r|] == 0)
    ensures 0 !in s ==> r == s
  {
    if s == [] || s[0] == 0 then [] else [s[0]] + UpToNul(s[1..])
  }
}
