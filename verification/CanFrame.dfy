/**
 The CAN-like frame codec (examples/can_frame_parser.cpp): a 32-bit header of
 packed fields, up to eight payload bytes, and a CRC-16 over both.
 */
module CanFrame {
  import opened Words
  import opened Bitfield
  import opened Crc

  const HEADER_SIZE := 4
  const CRC_SIZE := 2

  datatype Frame = Frame(id: Word, dlc: Word, rtr: bool, ide: bool, payload: seq<Byte>)

  datatype ParseError = TooShort | BadDlc | BadCrc

  datatype Result = Ok(frame: Frame) | Err(error: ParseError)

  /** 16-bit id, 8-bit dlc, eight payload bytes: every value of the C++ struct. */
  predicate Shaped(f: Frame) {
    |f.id| == 16 && |f.dlc| == 8 && |f.payload| == 8
  }

  /** The dlc stays inside the payload. */
  predicate Proper(f: Frame) {
    Shaped(f) && Value(f.dlc) <= 8
  }

  // ---------------------------------------------------------------------
  // The wire
  // ---------------------------------------------------------------------

  /** Little-endian loads and stores: low byte first. */
  function Load(bytes: seq<Byte>): (w: Word)
    ensures |w| == 8 * |bytes|
  {
    if bytes == [] then [] else Load(bytes[..|bytes| - 1]) + bytes[|bytes| - 1]
  }

  function Store(w: Word, n: nat): (bytes: seq<Byte>)
    requires |w| == 8 * n
    ensures |bytes| == n
  {
    if n == 0 then [] else Store(w[..8 * (n - 1)], n - 1) + [w[8 * (n - 1)..]]
  }

  lemma {:induction false} LoadStore(w: Word, n: nat)
    requires |w| == 8 * n
    ensures Load(Store(w, n)) == w
  {
    if n > 0 {
      LoadStore(w[..8 * (n - 1)], n - 1);
      Rejoin(w, 8 * (n - 1), 8 * (n - 1));
      assert Store(w, n)[..n - 1] == Store(w[..8 * (n - 1)], n - 1);
    }
  }

  lemma {:induction false} StoreLoad(bytes: seq<Byte>)
    ensures Store(Load(bytes), |bytes|) == bytes
  {
    if bytes != [] {
      var n := |bytes| - 1;
      StoreLoad(bytes[..n]);
      Parts(Load(bytes[..n]), bytes[n]);
      assert bytes == bytes[..n] + [bytes[n]];
    }
  }

  function Polynomial(): (p: Word)
    ensures |p| == 16
  {
    Of(0x1021, 16)
  }

  function Crc16(bytes: seq<Byte>): (r: Word)
    ensures |r| == 16
  {
    Checksum(Polynomial(), Of(0xFFFF, 16), Of(0, 16), bytes)
  }

  function Flag(b: bool): (w: Word)
    ensures |w| == 32
  {
    Of(if b then 1 else 0, 32)
  }

  function Header(f: Frame): (h: Word)
    ensures |h| == 32
  {
    var h := Insert(Zero(32), Cast(f.id, 32), 21, 11);
    var h := Insert(h, Cast(f.dlc, 32), 17, 4);
    var h := Insert(h, Flag(f.rtr), 16, 1);
    Insert(h, Flag(f.ide), 15, 1)
  }

  function Body(f: Frame): (bytes: seq<Byte>)
    requires Proper(f)
    ensures |bytes| == HEADER_SIZE + Value(f.dlc)
  {
    Store(Header(f), 4) + f.payload[..Value(f.dlc)]
  }

  function Encode(f: Frame): (bytes: seq<Byte>)
    requires Proper(f)
    ensures |bytes| == HEADER_SIZE + Value(f.dlc) + CRC_SIZE
  {
    Body(f) + Store(Crc16(Body(f)), 2)
  }

  function Dlc(header: Word): (w: Word)
    requires |header| == 32
    ensures |w| == 8
  {
    Cast(Extract(header, 17, 4), 8)
  }

  function Padded(bytes: seq<Byte>): seq<Byte>
    requires |bytes| <= 8
  {
    bytes + seq(8 - |bytes|, i => Zero(8))
  }

  function Fields(header: Word, payload: seq<Byte>): Frame
    requires |header| == 32
  {
    Frame(Cast(Extract(header, 21, 11), 16), Dlc(header),
          Extract(header, 16, 1) != Zero(32), Extract(header, 15, 1) != Zero(32), payload)
  }

  function Parse(buf: seq<Byte>): Result {
    if |buf| < HEADER_SIZE + CRC_SIZE then Err(TooShort) else
    var header := Load(buf[..4]);
    var n := Value(Dlc(header));
    if n > 8 then Err(BadDlc) else
    if |buf| < HEADER_SIZE + n + CRC_SIZE then Err(TooShort) else
    if Load(buf[4 + n..6 + n]) != Crc16(buf[..4 + n]) then Err(BadCrc)
    else Ok(Fields(header, Padded(buf[4..4 + n])))
  }

  // ---------------------------------------------------------------------
  // In place
  // ---------------------------------------------------------------------

  method ParseFrame(table: seq<Word>, buf: seq<Byte>) returns (r: Result)
    requires IsTable(Polynomial(), table)
    ensures r == Parse(buf)
  {
    hide Extract, Load, Checksum, Value, Polynomial, Of;
    if |buf| < HEADER_SIZE + CRC_SIZE {
      return Err(TooShort);
    }
    var header := Load(buf[..4]);
    var n := Value(Dlc(header));
    if n > 8 {
      return Err(BadDlc);
    }
    if |buf| < HEADER_SIZE + n + CRC_SIZE {
      return Err(TooShort);
    }
    var payload := new Byte[8](i => Zero(8));
    for i := 0 to n
      invariant forall k :: 0 <= k < i ==> payload[k] == buf[4 + k]
      invariant forall k :: i <= k < 8 ==> payload[k] == Zero(8)
    {
      payload[i] := buf[HEADER_SIZE + i];
    }
    assert payload[..] == Padded(buf[4..4 + n]);
    var computed := ChecksumByTable(Polynomial(), table, Of(0xFFFF, 16), Of(0, 16), buf[..4 + n]);
    if Load(buf[4 + n..6 + n]) != computed {
      return Err(BadCrc);
    }
    return Ok(Fields(header, payload[..]));
  }

  method WriteAt(out: array<Byte>, at: nat, bytes: seq<Byte>)
    requires at + |bytes| <= out.Length
    modifies out
    ensures out[..] == old(out[..at]) + bytes + old(out[at + |bytes|..])
  {
    for i := 0 to |bytes|
      invariant forall k :: 0 <= k < out.Length ==> out[k] == if at <= k < at + i then bytes[k - at] else old(out[k])
    {
      out[at + i] := bytes[i];
    }
  }

  /** Writes nothing when the frame does not fit, and nothing past its end. The copy
      reads past the payload, where the C++ is undefined, exactly when the dlc is above
      eight and the buffer has room for it. */
  method EncodeFrame(table: seq<Word>, f: Frame, out: array<Byte>, cap: nat) returns (n: nat, inside: bool)
    requires IsTable(Polynomial(), table) && Shaped(f) && cap <= out.Length
    modifies out
    ensures inside <==> Value(f.dlc) <= 8 || cap < 6 + Value(f.dlc)
    ensures inside ==> n == if cap < 6 + Value(f.dlc) then 0 else 6 + Value(f.dlc)
    ensures inside && n > 0 ==> out[..n] == Encode(f)
    ensures inside ==> out[n..] == old(out[n..])
  {
    hide Header, Checksum, Value, Polynomial, Of, Store, IsTable;
    var dlc := Value(f.dlc);
    n := HEADER_SIZE + dlc + CRC_SIZE;
    if cap < n {
      return 0, true;
    }
    ghost var before := out[..];
    WriteAt(out, 0, Store(Header(f), 4));
    if dlc > |f.payload| {
      WriteAt(out, HEADER_SIZE, f.payload);
      return 0, false;
    }
    WriteAt(out, HEADER_SIZE, f.payload[..dlc]);
    Written(before, Store(Header(f), 4), f.payload[..dlc]);
    assert out[..n - 2] == out[..][..n - 2] == Body(f);
    var crc := ChecksumByTable(Polynomial(), table, Of(0xFFFF, 16), Of(0, 16), out[..n - 2]);
    Appended(before, Body(f), Store(crc, 2));
    WriteAt(out, HEADER_SIZE + dlc, Store(crc, 2));
    assert out[..n] == out[..][..n] && out[n..] == out[..][n..];
    inside := true;
  }

  lemma Written<T>(before: seq<T>, header: seq<T>, payload: seq<T>)
    requires |header| + |payload| <= |before|
    ensures var once := [] + header + before[|header|..];
            once[..|header|] + payload + once[|header| + |payload|..] ==
            header + payload + before[|header| + |payload|..]
  {
  }

  lemma Appended<T>(before: seq<T>, body: seq<T>, tail: seq<T>)
    requires |body| + |tail| <= |before|
    ensures var once := body + before[|body|..];
            var twice := once[..|body|] + tail + once[|body| + |tail|..];
            && twice[..|body| + |tail|] == body + tail
            && twice[|body| + |tail|..] == before[|body| + |tail|..]
  {
  }

  // ---------------------------------------------------------------------
  // The header's layout
  // ---------------------------------------------------------------------

  lemma FlagBit(b: bool)
    ensures Flag(b)[..1] == [b] && (Cast([b], 32) != Zero(32) <==> b)
  {
    assert Cast([b], 32)[0] == b;
  }

  /** Reserved bits clear, then the fields, each cut to its width. */
  lemma HeaderLayout(f: Frame)
    requires Shaped(f)
    ensures Header(f) == Zero(15) + [f.ide] + [f.rtr] + f.dlc[..4] + f.id[..11]
  {
    hide Insert, Flag, Value, Cast, Zero;
    var id, dlc := f.id[..11], f.dlc[..4];
    CastWider(f.id, 32, 11);
    CastWider(f.dlc, 32, 4);
    FlagBit(f.rtr);
    FlagBit(f.ide);
    assert Zero(32) + [] == Zero(32);
    InsertBelow(Zero(32), [], Cast(f.id, 32), 21, 11);
    assert id + [] == id;
    var h1 := Insert(Zero(32), Cast(f.id, 32), 21, 11);
    InsertBelow(h1, id, Cast(f.dlc, 32), 17, 4);
    var h2 := Insert(h1, Cast(f.dlc, 32), 17, 4);
    InsertBelow(h2, dlc + id, Flag(f.rtr), 16, 1);
    var h3 := Insert(h2, Flag(f.rtr), 16, 1);
    InsertBelow(h3, [f.rtr] + (dlc + id), Flag(f.ide), 15, 1);
    Reassociate(Zero(15), [f.ide], [f.rtr], dlc + id);
    Reassociate(Zero(15) + [f.ide], [f.rtr], dlc, id);
  }

  /** Inserting just below the bits set so far. */
  lemma InsertBelow(h: Word, above: Word, field: Word, lsb: nat, width: nat)
    requires |h| == |field| == 32 && Fits(32, lsb, width) && |above| == 32 - lsb - width
    requires h == Zero(lsb + width) + above
    ensures Insert(h, field, lsb, width) == Zero(lsb) + (field[..width] + above)
  {
    hide Insert, Zero;
    InsertReplaces(h, field, lsb, width);
    ZeroParts(lsb, width);
    Splice(Zero(lsb), Zero(width), above, field[..width]);
    Reassociate(Zero(lsb), field[..width], above, []);
  }

  lemma CastWider(w: Word, n: nat, k: nat)
    requires k <= |w| <= n
    ensures Cast(w, n)[..k] == w[..k]
  {
  }

  lemma ZeroParts(m: nat, n: nat)
    ensures |Zero(m)| == m && |Zero(n)| == n && Zero(m) + Zero(n) == Zero(m + n)
  {
  }

  lemma Splice<T>(a: seq<T>, b: seq<T>, c: seq<T>, d: seq<T>)
    ensures (a + b + c)[..|a|] + d + (a + b + c)[|a| + |b|..] == a + (d + c)
  {
  }

  lemma Reassociate<T>(a: seq<T>, b: seq<T>, c: seq<T>, d: seq<T>)
    ensures a + b + c + d == a + b + (c + d) == a + (b + c + d)
  {
  }

  lemma FieldsLayout(h: Word, payload: seq<Byte>)
    requires |h| == 32
    ensures Fields(h, payload) == Frame(Cast(h[21..32], 16), Cast(h[17..21], 8), h[16], h[15], payload)
  {
    hide Extract, Cast;
    FieldCast(h, 21, 11, 16);
    FieldCast(h, 17, 4, 8);
    FieldFlag(h, 16);
    FieldFlag(h, 15);
  }

  lemma FieldCast(h: Word, lsb: nat, width: nat, n: nat)
    requires |h| == 32 && Fits(32, lsb, width) && width <= n <= 32
    ensures Cast(Extract(h, lsb, width), n) == Cast(h[lsb..lsb + width], n)
  {
    hide Extract, Cast;
    ExtractReads(h, lsb, width);
    CastCast(h[lsb..lsb + width], 32, n);
  }

  lemma FieldFlag(h: Word, k: nat)
    requires k < |h| == 32
    ensures Extract(h, k, 1) != Zero(32) <==> h[k]
  {
    hide Extract, Cast;
    ExtractReads(h, k, 1);
    assert h[k..k + 1] == [h[k]];
    FlagBit(h[k]);
  }

  lemma CastCast(w: Word, wide: nat, n: nat)
    requires |w| <= n <= wide
    ensures Cast(Cast(w, wide), n) == Cast(w, n)
  {
  }

  /** Two headers with the same fields differ only in the reserved bits. */
  lemma HeaderOfFields(h: Word, payload: seq<Byte>)
    requires |h| == 32 && |payload| == 8 && Value(Dlc(h)) <= 8
    ensures Proper(Fields(h, payload)) && Header(Fields(h, payload)) == Zero(15) + h[15..]
  {
    hide Header, Value, Extract;
    var f := Fields(h, payload);
    FieldsLayout(h, payload);
    HeaderLayout(f);
    CastTake(h[21..32], 16);
    CastTake(h[17..21], 8);
    FourParts(h);
    Reassociate(Zero(15), [h[15]], [h[16]], h[17..21] + h[21..32]);
    Reassociate(Zero(15) + [h[15]], [h[16]], h[17..21], h[21..32]);
  }

  lemma CastTake(w: Word, n: nat)
    requires |w| <= n
    ensures Cast(w, n)[..|w|] == w
  {
    Parts(w, Zero(n - |w|));
  }

  lemma FourParts<T>(h: seq<T>)
    requires |h| == 32
    ensures h[15..] == [h[15]] + [h[16]] + (h[17..21] + h[21..32])
  {
  }

  // ---------------------------------------------------------------------
  // Raw bytes
  // ---------------------------------------------------------------------

  function Joined(low: Word, high: Word): Word {
    low + high
  }

  lemma LoadTwo(bytes: seq<Byte>, low: Word, high: Word)
    requires |low| == |high| == 8 && bytes == [low, high]
    ensures Load(bytes) == low + high
  {
    assert bytes[..1][..0] == [];
    assert Load(bytes[..1]) == [] + low;
  }

  lemma LoadFour(bytes: seq<Byte>, a: Word, b: Word, c: Word, d: Word)
    requires |a| == |b| == |c| == |d| == 8 && bytes == [a, b, c, d]
    ensures Load(bytes) == a + b + c + d
  {
    assert bytes[..3] == [a, b, c] && bytes[..3][..2] == [a, b];
    LoadTwo(bytes[..2], a, b);
    assert Load(bytes[..3]) == Load(bytes[..2]) + c;
  }

  lemma HeaderBits(a: Word, b: Word, c: Word, d: Word)
    requires |a| == |b| == |c| == |d| == 8
    ensures var h := a + b + c + d;
            h[15] == b[7] && h[16] == c[0] && h[17..21] == c[1..5] && h[21..32] == c[5..] + d
  {
  }

  /** The number in four bits. */
  function Nibble(w: Word): nat
    requires |w| == 4
  {
    (if w[0] then 1 else 0) + (if w[1] then 2 else 0) + (if w[2] then 4 else 0) + if w[3] then 8 else 0
  }

  lemma NibbleValue(w: Word)
    requires |w| == 4
    ensures Value(Cast(w, 8)) == Nibble(w)
  {
    var v := Cast(w, 8);
    assert v[1..][1..] == v[2..] && v[2..][1..] == v[3..] && v[3..][1..] == v[4..];
    ValueBelow(v[4..], 0);
    assert Pow2(0) == 1;
    assert Value(v[3..]) == (if w[3] then 1 else 0) + 2 * Value(v[4..]);
    assert Value(v[2..]) == (if w[2] then 1 else 0) + 2 * Value(v[3..]);
    assert Value(v[1..]) == (if w[1] then 1 else 0) + 2 * Value(v[2..]);
  }

  /** What the parser makes of raw bytes. The length is bits 1 to 4 of byte 2; the error
      is that of the first test to fail; the fields are the documented bits. */
  lemma ParseMeans(buf: seq<Byte>)
    ensures |buf| < 6 ==> Parse(buf) == Err(TooShort)
    ensures |buf| >= 6 ==>
              var b: Word := buf[2];
              var n := Nibble(b[1..5]);
              if n > 8 then Parse(buf) == Err(BadDlc)
              else if |buf| < 6 + n then Parse(buf) == Err(TooShort)
              else if Crc16(buf[..4 + n]) != Joined(buf[4 + n], buf[5 + n]) then Parse(buf) == Err(BadCrc)
              else Parse(buf).Ok? && var f := Parse(buf).frame;
                   && Shaped(f) && f.rtr == b[0] && f.ide == buf[1][7] && Value(f.dlc) == n
                   && f.id == Joined(Joined(b[5..], buf[3]), Zero(5))
                   && forall i :: 0 <= i < 8 ==> f.payload[i] == if i < n then buf[4 + i] else Zero(8)
  {
    hide Crc16, Load, Value, Extract, Nibble;
    if |buf| >= 6 {
      var h := Load(buf[..4]);
      LoadFour(buf[..4], buf[0], buf[1], buf[2], buf[3]);
      HeaderBits(buf[0], buf[1], buf[2], buf[3]);
      var b: Word := buf[2];
      FieldsLayout(h, []);
      NibbleValue(b[1..5]);
      var n := Nibble(b[1..5]);
      if n <= 8 && |buf| >= 6 + n {
        LoadTwo(buf[4 + n..6 + n], buf[4 + n], buf[5 + n]);
        FieldsLayout(h, Padded(buf[4..4 + n]));
      }
    }
  }

  /** The register starts with all ones, the polynomial is x^16 + x^12 + x^5 + 1, and
      nothing is xored in at the end: CRC-16/CCITT-FALSE. */
  lemma WhichCrc(bytes: seq<Byte>)
    ensures Crc16([]) == seq(16, i => true)
    ensures Crc16(bytes) == Fold(Ones(16, {0, 5, 12}), seq(16, i => true), bytes)
  {
    hide Fold, Ones;
    Crc16IsFold(bytes);
    Crc16IsFold([]);
    PolynomialBits();
    AllSet();
    FoldNone(Polynomial(), Of(0xFFFF, 16));
  }

  lemma FoldNone(p: Word, crc: Word)
    requires |crc| == |p| >= 8
    ensures Fold(p, crc, []) == crc
  {
  }

  lemma AllSet()
    ensures Of(0xFFFF, 16) == seq(16, i => true)
  {
    OnesOf(16);
    assert Pow2(8) == 256;
    assert Pow2(16) == 0x1_0000;
  }

  lemma {:induction false} OnesOf(n: nat)
    ensures Pow2(n) > 0 && Of(Pow2(n) - 1, n) == seq(n, i => true)
  {
    if n > 0 {
      OnesOf(n - 1);
      assert (Pow2(n) - 1) / 2 == Pow2(n - 1) - 1;
      assert Of(Pow2(n) - 1, n) == [true] + Of(Pow2(n - 1) - 1, n - 1);
    }
  }

  // ---------------------------------------------------------------------
  // Round trips
  // ---------------------------------------------------------------------

  /** What survives a trip over the wire: eleven id bits and the sent payload. */
  function Normal(f: Frame): (r: Frame)
    requires Proper(f)
    ensures Proper(r)
    ensures r == f <==> Value(f.id) < 2048 && forall i :: Value(f.dlc) <= i < 8 ==> f.payload[i] == Zero(8)
  {
    var n := Value(f.dlc);
    NormalId(f.id);
    PaddedSame(f.payload, n);
    f.(id := Cast(f.id[..11], 16), payload := Padded(f.payload[..n]))
  }

  lemma NormalId(id: Word)
    requires |id| == 16
    ensures Cast(id[..11], 16) == id <==> Value(id) < 2048
  {
    hide Value, Pow2;
    ValueBelow(id, 11);
    Powers();
    if ClearFrom(id, 11) {
      Same(Cast(id[..11], 16), id);
    } else {
      var i :| 11 <= i < 16 && id[i];
      assert !Cast(id[..11], 16)[i];
    }
  }

  lemma Powers()
    ensures Pow2(4) == 16 && Pow2(11) == 2048
  {
    assert Pow2(4) == 16;
    assert Pow2(8) == 256;
  }

  lemma PaddedSame(payload: seq<Byte>, n: nat)
    requires |payload| == 8 && n <= 8
    ensures Padded(payload[..n]) == payload <==> forall i :: n <= i < 8 ==> payload[i] == Zero(8)
  {
    var p := Padded(payload[..n]);
    assert forall i :: 0 <= i < n ==> p[i] == payload[i];
    assert forall i :: n <= i < 8 ==> p[i] == Zero(8);
    if forall i :: n <= i < 8 ==> payload[i] == Zero(8) {
      Same(p, payload);
    }
  }

  /** Parsing an encoded frame, whatever follows it, gives the frame's normal form. */
  lemma ParseEncode(f: Frame, rest: seq<Byte>)
    requires Proper(f)
    ensures Parse(Encode(f) + rest) == Ok(Normal(f))
  {
    hide Header, Value, Store, Load, Crc16, Fields, Dlc;
    var n := Value(f.dlc);
    var buf := Encode(f) + rest;
    var crc := Store(Crc16(Body(f)), 2);
    WireParts(Store(Header(f), 4), f.payload[..n], crc, rest);
    LoadStore(Header(f), 4);
    LoadStore(Crc16(Body(f)), 2);
    HeaderComesBack(f);
  }

  lemma WireParts(header: seq<Byte>, payload: seq<Byte>, crc: seq<Byte>, rest: seq<Byte>)
    requires |header| == 4 && |crc| == 2
    ensures var n := |payload|; var buf := header + payload + crc + rest;
            buf[..4] == header && buf[..4 + n] == header + payload &&
            buf[4..4 + n] == payload && buf[4 + n..6 + n] == crc
  {
  }

  lemma HeaderComesBack(f: Frame)
    requires Proper(f)
    ensures Dlc(Header(f)) == f.dlc
    ensures Fields(Header(f), Padded(f.payload[..Value(f.dlc)])) == Normal(f)
  {
    hide Header, Value, Extract, Pow2, Padded;
    HeaderLayout(f);
    var h := Header(f);
    Layout(Zero(15), f.ide, f.rtr, f.dlc[..4], f.id[..11]);
    FieldsLayout(h, Padded(f.payload[..Value(f.dlc)]));
    ValueBelow(f.dlc, 4);
    Powers();
    Same(Cast(f.dlc[..4], 8), f.dlc);
  }

  lemma Layout<T>(a: seq<T>, ide: T, rtr: T, dlc: seq<T>, id: seq<T>)
    requires |a| == 15 && |dlc| == 4 && |id| == 11
    ensures var h := a + [ide] + [rtr] + dlc + id;
            h[21..32] == id && h[17..21] == dlc && h[16] == rtr && h[15] == ide
  {
  }

  /** A parsed frame is in normal form, and encoding it gives back the bytes it
      was parsed from exactly when their fifteen reserved header bits were clear. */
  lemma EncodeParse(buf: seq<Byte>)
    requires Parse(buf).Ok?
    ensures var f := Parse(buf).frame;
            && Proper(f) && Normal(f) == f
            && |buf| >= 6 + Value(f.dlc)
            && (Encode(f) == buf[..6 + Value(f.dlc)] <==> Load(buf[..4])[..15] == Zero(15))
  {
    hide Header, Value, Store, Load, Crc16, Fields, Dlc;
    var h := Load(buf[..4]);
    var n := Value(Dlc(h));
    var f := Parse(buf).frame;
    FieldsDlc(h, Padded(buf[4..4 + n]));
    HeaderOfFields(h, f.payload);
    NormalFields(h, buf[4..4 + n]);
    Rejoin(h, 15, 15);
    StoreLoad(buf[..4]);
    StoreLoad(buf[4 + n..6 + n]);
    Parts(Zero(15), h[15..]);
    if h[..15] == Zero(15) {
      assert Body(f) == buf[..4 + n];
      assert Encode(f) == buf[..6 + n];
    } else {
      LoadStore(Header(f), 4);
      assert Header(f)[..15] == Zero(15);
      assert Encode(f)[..4] == Store(Header(f), 4);
      assert buf[..6 + n][..4] == buf[..4];
    }
  }

  lemma FieldsDlc(h: Word, payload: seq<Byte>)
    requires |h| == 32
    ensures Fields(h, payload).dlc == Dlc(h) && Fields(h, payload).payload == payload
  {
  }

  lemma NormalFields(h: Word, sent: seq<Byte>)
    requires |h| == 32 && |sent| == Value(Dlc(h)) <= 8
    ensures Proper(Fields(h, Padded(sent))) && Normal(Fields(h, Padded(sent))) == Fields(h, Padded(sent))
  {
    hide Value, Extract, Pow2;
    var f := Fields(h, Padded(sent));
    FieldsLayout(h, Padded(sent));
    CastTake(h[21..32], 16);
    Parts(sent, seq(8 - |sent|, i => Zero(8)));
    NormalId(f.id);
  }

  // ---------------------------------------------------------------------
  // Damage
  // ---------------------------------------------------------------------

  lemma {:induction false} OfZero(n: nat)
    ensures Of(0, n) == Zero(n) && !Odd(Zero(n))
  {
    if n > 0 {
      OfZero(n - 1);
      assert Zero(n) == [false] + Zero(n - 1);
      assert Zero(n)[1..] == Zero(n - 1);
    }
  }

  lemma OddOf(v: nat, n: nat)
    requires n > 0
    ensures Odd(Of(v, n)) <==> (v % 2 == 1) != Odd(Of(v / 2, n - 1))
  {
    assert Of(v, n)[1..] == Of(v / 2, n - 1);
  }

  lemma Parities()
    ensures Polynomial()[0] && Odd(Polynomial()) && !Odd(Of(0xFFFF, 16))
  {
    hide Odd, Of;
    // 0x1021 is x^12 + x^5 + 1: three ones.
    OddOf(0x1021, 16);
    OddOf(0x810, 15);
    OddOf(0x408, 14);
    OddOf(0x204, 13);
    OddOf(0x102, 12);
    OddOf(0x81, 11);
    OddOf(0x40, 10);
    OddOf(0x20, 9);
    OddOf(0x10, 8);
    OddOf(0x8, 7);
    OddOf(0x4, 6);
    OddOf(0x2, 5);
    OddOf(0x1, 4);
    OfZero(3);
    AllOnes();
    LowBit(0x1021, 16);
  }

  lemma LowBit(v: nat, n: nat)
    requires n > 0
    ensures Of(v, n)[0] <==> v % 2 == 1
  {
  }

  lemma AllOnes()
    ensures !Odd(Of(0xFFFF, 16))
  {
    hide Odd, Of;
    OddOf(0xFFFF, 16);
    OddOf(0x7FFF, 15);
    OddOf(0x3FFF, 14);
    OddOf(0x1FFF, 13);
    OddOf(0xFFF, 12);
    OddOf(0x7FF, 11);
    OddOf(0x3FF, 10);
    OddOf(0x1FF, 9);
    OddOf(0xFF, 8);
    OddOf(0x7F, 7);
    OddOf(0x3F, 6);
    OddOf(0x1F, 5);
    OddOf(0xF, 4);
    OddOf(0x7, 3);
    OddOf(0x3, 2);
    OddOf(0x1, 1);
    OfZero(0);
  }

  lemma Crc16IsFold(bytes: seq<Byte>)
    ensures Crc16(bytes) == Fold(Polynomial(), Of(0xFFFF, 16), bytes)
  {
    hide Fold, Of, Polynomial;
    OfZero(16);
    Same(Crc16(bytes), Fold(Polynomial(), Of(0xFFFF, 16), bytes));
  }

  /** The length the header announces. */
  function Announced(buf: seq<Byte>): nat
    requires |buf| >= 6
  {
    Value(Dlc(Load(buf[..4])))
  }

  /** A frame damaged only in a burst of up to sixteen bits of its header or
      payload, its length field and checksum intact, is refused for its checksum. */
  lemma BurstRefused(good: seq<Byte>, bad: seq<Byte>, from: nat, width: nat)
    requires Parse(good).Ok? && |bad| == |good| && Announced(bad) == Announced(good)
    requires var n := Announced(good);
             && bad[4 + n..6 + n] == good[4 + n..6 + n] && bad[..4 + n] != good[..4 + n]
             && width <= 16 && Burst(Bits(good[..4 + n]), Bits(bad[..4 + n]), from, width)
    ensures Parse(bad) == Err(BadCrc)
  {
    hide Fold, Load, Value, Dlc, Bits, Of, Odd, Crc16, Fields, Polynomial, Burst;
    var n := Announced(good);
    Parities();
    Crc16IsFold(good[..4 + n]);
    Crc16IsFold(bad[..4 + n]);
    BurstDetected(Polynomial(), Of(0xFFFF, 16), good[..4 + n], bad[..4 + n], from, width);
  }

  lemma {:induction false} BitsConcat(a: seq<Byte>, b: seq<Byte>)
    ensures Bits(a + b) == Bits(a) + Bits(b)
  {
    hide BitsOf;
    if b == [] {
      assert a + b == a;
    } else {
      var n := |b| - 1;
      assert (a + b)[..|a + b| - 1] == a + b[..n];
      BitsConcat(a, b[..n]);
      Join(Bits(a), Bits(b[..n]), BitsOf(b[n]));
    }
  }

  lemma Join<T>(a: seq<T>, b: seq<T>, c: seq<T>)
    ensures a + b + c == a + (b + c)
  {
  }

  /** A byte holds as many ones in either bit order. */
  lemma ByteParity(b: Byte)
    ensures Odd(BitsOf(b)) == Odd(b)
  {
    OddEight(b);
    OddEight(BitsOf(b));
  }

  lemma OddEight(b: Word)
    requires |b| == 8
    ensures Odd(b) <==> ((((b[0] != b[1]) != (b[2] != b[3])) != ((b[4] != b[5]) != (b[6] != b[7]))))
  {
    assert b[1..][1..] == b[2..];
    assert b[2..][1..] == b[3..];
    assert b[3..][1..] == b[4..];
    assert b[4..][1..] == b[5..];
    assert b[5..][1..] == b[6..];
    assert b[6..][1..] == b[7..];
    assert b[7..][1..] == [];
    assert Odd(b[7..]) == b[7];
    assert Odd(b[5..]) == (b[5] != (b[6] != b[7]));
    assert Odd(b[3..]) == (b[3] != (b[4] != Odd(b[5..])));
    assert Odd(b[1..]) == (b[1] != (b[2] != Odd(b[3..])));
  }

  lemma {:induction false} LoadParity(bytes: seq<Byte>)
    ensures Odd(Load(bytes)) == Odd(Bits(bytes))
  {
    hide BitsOf, Odd;
    if bytes == [] {
    } else {
      var n := |bytes| - 1;
      LoadParity(bytes[..n]);
      OddConcat(Load(bytes[..n]), bytes[n]);
      OddConcat(Bits(bytes[..n]), BitsOf(bytes[n]));
      ByteParity(bytes[n]);
    }
  }

  /** Every accepted frame has an even number of ones, so no frame can be turned
      into another by an odd number of flips. */
  lemma AcceptedIsEven(buf: seq<Byte>)
    requires Parse(buf).Ok?
    ensures |buf| >= 6 + Announced(buf) && !Odd(Bits(buf[..6 + Announced(buf)]))
  {
    hide Fold, Load, Value, Dlc, Bits, Of, Odd, Crc16, Fields, Polynomial, FeedAll;
    var n := Announced(buf);
    var body, tail := buf[..4 + n], buf[4 + n..6 + n];
    Parities();
    Crc16IsFold(body);
    FoldIsFeeding(Polynomial(), Of(0xFFFF, 16), body);
    ParityKept(Polynomial(), Of(0xFFFF, 16), Bits(body));
    LoadParity(tail);
    assert buf[..6 + n] == body + tail;
    BitsConcat(body, tail);
    OddConcat(Bits(body), Bits(tail));
  }

  /** Any odd number of flipped bits that leaves the length field alone is refused
      for its checksum. */
  lemma OddFlipsRefused(good: seq<Byte>, bad: seq<Byte>)
    requires Parse(good).Ok? && |bad| == |good| && Announced(bad) == Announced(good)
    requires var n := Announced(good);
             |good| >= 6 + n && Odd(Bits(good[..6 + n])) != Odd(Bits(bad[..6 + n]))
    ensures Parse(bad) == Err(BadCrc)
  {
    hide Load, Value, Dlc, Bits, Odd, Crc16, Fields;
    AcceptedIsEven(good);
    if Parse(bad).Ok? {
      AcceptedIsEven(bad);
      assert false;
    }
  }

  lemma {:induction false} LoadDifference(a: seq<Byte>, b: seq<Byte>)
    requires |a| == |b|
    ensures Load(Difference(a, b)) == Xor(Load(a), Load(b))
  {
    hide Xor;
    if a == [] {
      XorSelf([]);
    } else {
      var n := |a| - 1;
      LoadDifference(a[..n], b[..n]);
      assert Difference(a, b)[..n] == Difference(a[..n], b[..n]);
      XorConcat(Load(a[..n]), Load(b[..n]), a[n], b[n]);
    }
  }

  lemma XorConcat(a: Word, b: Word, c: Word, d: Word)
    requires |a| == |b| && |c| == |d|
    ensures Xor(a + c, b + d) == Xor(a, b) + Xor(c, d)
  {
  }

  /** The damage to the checksum is the one the damage to the rest calls for. */
  predicate Hidden(good: seq<Byte>, bad: seq<Byte>, n: nat)
    requires |good| == |bad| >= 6 + n
  {
    Fold(Polynomial(), Zero(16), Difference(good[..4 + n], bad[..4 + n])) ==
    Load(Difference(good[4 + n..6 + n], bad[4 + n..6 + n]))
  }

  /** Whatever the damage that leaves the length alone, it goes unnoticed exactly when
      the checksum of the difference is the difference of the checksums. */
  lemma DamageHiddenIff(good: seq<Byte>, bad: seq<Byte>)
    requires Parse(good).Ok? && |bad| == |good| && Announced(bad) == Announced(good)
    ensures var n := Announced(good);
            |good| >= 6 + n && if Hidden(good, bad, n) then Parse(bad).Ok? else Parse(bad) == Err(BadCrc)
  {
    hide Fold, Load, Value, Dlc, Of, Crc16, Fields, Polynomial, Xor, Difference;
    var n := Announced(good);
    var seed, p := Of(0xFFFF, 16), Polynomial();
    var body, body' := good[..4 + n], bad[..4 + n];
    var tail, tail' := good[4 + n..6 + n], bad[4 + n..6 + n];
    Crc16IsFold(body);
    Crc16IsFold(body');
    FoldLinear(p, seed, seed, body, body');
    XorSelf(seed);
    LoadDifference(tail, tail');
    XorEqual(Load(tail), Load(tail'), Fold(p, seed, body), Fold(p, seed, body'));
  }

  // The checksum is stored low byte first, so a burst of sixteen bits can run from the
  // last payload byte into the checksum and not be noticed.

  function Ones(n: nat, at: set<nat>): (w: Word)
    ensures |w| == n
  {
    seq(n, i requires 0 <= i < n => i in at)
  }

  const PAYLOAD_DAMAGE: Byte := Ones(8, {0, 3, 7})
  const CHECKSUM_DAMAGE: Byte := Ones(8, {0, 5, 7})

  /** The last payload byte xored with 0x89 and the first checksum byte with 0xA1. */
  function Straddled(good: seq<Byte>, n: nat): (bad: seq<Byte>)
    requires 0 < n && |good| >= 6 + n
    ensures |bad| == |good|
  {
    good[3 + n := Xor(good[3 + n], PAYLOAD_DAMAGE)][4 + n := Xor(good[4 + n], CHECKSUM_DAMAGE)]
  }

  lemma OfOnes(v: nat, n: nat, above: set<nat>, at: set<nat>)
    requires n > 0 && Of(v / 2, n - 1) == Ones(n - 1, above) && (0 in at <==> v % 2 == 1)
    requires forall i: nat :: i < n - 1 ==> (i in above <==> i + 1 in at)
    ensures Of(v, n) == Ones(n, at)
  {
    var w := Of(v, n);
    forall i | 0 <= i < n ensures w[i] == Ones(n, at)[i] {
      if i > 0 {
        assert w[i] == Of(v / 2, n - 1)[i - 1];
        assert i - 1 in above <==> (i - 1) + 1 in at;
      }
    }
    Same(w, Ones(n, at));
  }

  lemma PolynomialBits()
    ensures Polynomial() == Ones(16, {0, 5, 12})
  {
    hide Of, Ones;
    TopBits();
    OfOnes(0x81, 11, {6}, {0, 7});
    OfOnes(0x102, 12, {0, 7}, {1, 8});
    OfOnes(0x204, 13, {1, 8}, {2, 9});
    OfOnes(0x408, 14, {2, 9}, {3, 10});
    OfOnes(0x810, 15, {3, 10}, {4, 11});
    OfOnes(0x1021, 16, {4, 11}, {0, 5, 12});
  }

  lemma TopBits()
    ensures Of(0x40, 10) == Ones(10, {6})
  {
    hide Of, Ones;
    OfZero(3);
    NoOnes(3);
    OfOnes(0x1, 4, {}, {0});
    OfOnes(0x2, 5, {0}, {1});
    OfOnes(0x4, 6, {1}, {2});
    OfOnes(0x8, 7, {2}, {3});
    OfOnes(0x10, 8, {3}, {4});
    OfOnes(0x20, 9, {4}, {5});
    OfOnes(0x40, 10, {5}, {6});
  }

  lemma NoOnes(n: nat)
    ensures Zero(n) == Ones(n, {})
  {
  }

  lemma FeedOnes(at: set<nat>, bit: bool, next: set<nat>)
    requires forall i: nat :: i < 16 ==>
               (i in next <==> ((i > 0 && i - 1 in at) != ((15 in at) != bit && i in {0, 5, 12})))
    ensures Feed(Ones(16, {0, 5, 12}), Ones(16, at), bit) == Ones(16, next)
  {
    hide Shift;
    var p, crc := Ones(16, {0, 5, 12}), Ones(16, at);
    var fed := crc[15 := crc[15] != bit];
    forall i | 0 <= i < 16 ensures Feed(p, crc, bit)[i] == Ones(16, next)[i] {
      ShiftAt(p, fed, i);
    }
    Same(Feed(p, crc, bit), Ones(16, next));
  }

  /** 0x89 through a zero register leaves 0x00A1. */
  lemma DamageMeetsDamage()
    ensures Update(Polynomial(), Zero(16), PAYLOAD_DAMAGE) == CHECKSUM_DAMAGE + Zero(8)
  {
    hide Feed, Update, FeedAll, Polynomial;
    PolynomialBits();
    var p := Polynomial();
    NoOnes(16);
    UpdateIsFeeding(p, Zero(16), PAYLOAD_DAMAGE);
    var bits := [true, false, false, false, true, false, false, true];
    Same(BitsOf(PAYLOAD_DAMAGE), bits);
    FeedOnes({}, true, {0, 5, 12});
    FeedOnes({0, 5, 12}, false, {1, 6, 13});
    FeedOnes({1, 6, 13}, false, {2, 7, 14});
    FeedOnes({2, 7, 14}, false, {3, 8, 15});
    FeedOnes({3, 8, 15}, true, {4, 9});
    FeedOnes({4, 9}, false, {5, 10});
    FeedOnes({5, 10}, false, {6, 11});
    FeedOnes({6, 11}, true, {0, 5, 7});
    FeedEight(p, Zero(16), bits);
    Same(Ones(16, {0, 5, 7}), CHECKSUM_DAMAGE + Zero(8));
  }

  lemma FeedEight(p: Word, crc: Word, b: seq<bool>)
    requires |crc| == |p| > 0 && |b| == 8
    ensures var four := Feed(p, Feed(p, Feed(p, Feed(p, crc, b[0]), b[1]), b[2]), b[3]);
            FeedAll(p, crc, b) == Feed(p, Feed(p, Feed(p, Feed(p, four, b[4]), b[5]), b[6]), b[7])
  {
    hide Feed, FeedAll;
    var two := FeedTwo(p, crc, b);
    var four := FeedTwo(p, two, b[2..]);
    assert b[2..][2..] == b[4..];
    var six := FeedTwo(p, four, b[4..]);
    assert b[4..][2..] == b[6..];
    var eight := FeedTwo(p, six, b[6..]);
    assert b[6..][2..] == [];
    FeedNone(p, eight);
  }

  lemma FeedTwo(p: Word, crc: Word, b: seq<bool>) returns (two: Word)
    requires |crc| == |p| > 0 && |b| >= 2
    ensures |two| == |p| && two == Feed(p, Feed(p, crc, b[0]), b[1]) && FeedAll(p, crc, b) == FeedAll(p, two, b[2..])
  {
    hide Feed;
    assert b[1..][1..] == b[2..];
    two := Feed(p, Feed(p, crc, b[0]), b[1]);
  }

  /** No frame with a payload is safe from it: the damaged frame differs in sixteen
      consecutive bits at most and is accepted. */
  lemma StraddlingBurstAccepted(good: seq<Byte>)
    requires Parse(good).Ok? && Announced(good) > 0
    ensures var n := Announced(good);
            && |good| >= 6 + n
            && var bad := Straddled(good, n);
               && bad != good && Parse(bad).Ok?
               && Burst(Bits(good[..6 + n]), Bits(bad[..6 + n]), 8 * (3 + n), 16)
  {
    hide Fold, Load, Value, Dlc, Of, Crc16, Fields, Polynomial, Xor, Difference, Bits, Update, Burst;
    var n := Announced(good);
    var bad := Straddled(good, n);
    assert bad[..4] == good[..4];
    DamageHiddenIff(good, bad);
    StraddledHidden(good, n);
    StraddledBurst(good, n);
    XorChanges(good[3 + n]);
  }

  lemma XorChanges(b: Byte)
    ensures Xor(b, PAYLOAD_DAMAGE) != b
  {
    assert Xor(b, PAYLOAD_DAMAGE)[0] != b[0];
  }

  lemma XorBack(a: Word, d: Word)
    requires |a| == |d|
    ensures Xor(a, Xor(a, d)) == d
  {
  }

  lemma StraddledHidden(good: seq<Byte>, n: nat)
    requires 0 < n && |good| >= 6 + n
    ensures Hidden(good, Straddled(good, n), n)
  {
    hide Fold, Load, Xor, Polynomial, Update;
    var bad, p := Straddled(good, n), Polynomial();
    var d := Difference(good[..4 + n], bad[..4 + n]);
    assert d[..3 + n] == Difference(good[..3 + n], good[..3 + n]);
    FoldLinear(p, Zero(16), Zero(16), good[..3 + n], good[..3 + n]);
    XorSelf(Zero(16));
    XorSelf(Fold(p, Zero(16), good[..3 + n]));
    XorBack(good[3 + n], PAYLOAD_DAMAGE);
    FoldLast(p, Zero(16), d);
    DamageMeetsDamage();
    var e := Difference(good[4 + n..6 + n], bad[4 + n..6 + n]);
    XorBack(good[4 + n], CHECKSUM_DAMAGE);
    XorSelf(good[5 + n]);
    assert e == [CHECKSUM_DAMAGE, Zero(8)];
    LoadTwo(e, CHECKSUM_DAMAGE, Zero(8));
  }

  lemma FoldLast(p: Word, crc: Word, bytes: seq<Byte>)
    requires |crc| == |p| >= 8 && bytes != []
    ensures Fold(p, crc, bytes) == Update(p, Fold(p, crc, bytes[..|bytes| - 1]), bytes[|bytes| - 1])
  {
  }

  lemma StraddledBurst(good: seq<Byte>, n: nat)
    requires 0 < n && |good| >= 6 + n
    ensures Burst(Bits(good[..6 + n]), Bits(Straddled(good, n)[..6 + n]), 8 * (3 + n), 16)
  {
    hide Bits, Xor;
    var bad := Straddled(good, n);
    var head, last := good[..3 + n], good[5 + n..6 + n];
    SplitBits(good[..6 + n], head, good[3 + n..5 + n], last);
    SplitBits(bad[..6 + n], head, bad[3 + n..5 + n], last);
  }

  lemma SplitBits(whole: seq<Byte>, a: seq<Byte>, b: seq<Byte>, c: seq<Byte>)
    requires whole == a + b + c && |b| == 2
    ensures var bits := Bits(whole); var from := 8 * |a|;
            |bits| == from + 16 + 8 * |c| && bits[..from] == Bits(a) && bits[from + 16..] == Bits(c)
  {
    hide Bits;
    BitsConcat(a + b, c);
    BitsConcat(a, b);
    var x, y, z := Bits(a), Bits(b), Bits(c);
    assert (x + y + z)[..|x|] == x && (x + y + z)[|x| + |y|..] == z;
  }
}
