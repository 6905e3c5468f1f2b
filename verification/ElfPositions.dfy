/**
 Where the fields of an ELF file lie, as chapters 4 and 5 of the System V gABI place
 them: what the reader makes of a file's raw bytes, whoever wrote it, and the bytes the
 writer puts where the reader does not look.
 */
module ElfPositions {

  import opened Common
  import opened Bytes
  import opened ElfFormat
  import opened ElfRoundTrip
  import S = ElfSymbols
  import W = ElfWriter
  import R = ElfReader

  /** The number in `w` bytes of a file. */
  function Field(data: seq<Byte>, big: bool, at: nat, w: nat): nat
    requires at + w <= |data|
  {
    Unpack(big, data[at..at + w])
  }

  // ---------------------------------------------------------------------
  // Byte order
  // ---------------------------------------------------------------------

  /** Little-endian is low byte first, big-endian high byte first. */
  lemma TwoBytes(s: seq<Byte>)
    requires |s| == 2
    ensures var b: seq<int> := s; Unpack(false, s) == b[0] + 0x100 * b[1] && Unpack(true, s) == 0x100 * b[0] + b[1]
  {
    assert s[1..][1..] == [] && s[..1][..0] == [];
    assert Unpack(false, s[1..]) == s[1] && Unpack(true, s[..1]) == s[0];
  }

  lemma {:induction false} Halves(a: seq<Byte>, b: seq<Byte>)
    ensures Unpack(false, a + b) == Unpack(false, a) + Pow256(|a|) * Unpack(false, b)
    ensures Unpack(true, a + b) == Pow256(|b|) * Unpack(true, a) + Unpack(true, b)
  {
    LowHalves(a, b);
    HighHalves(a, b);
  }

  lemma {:induction false} LowHalves(a: seq<Byte>, b: seq<Byte>)
    ensures Unpack(false, a + b) == Unpack(false, a) + Pow256(|a|) * Unpack(false, b)
  {
    if a == [] {
      assert a + b == b;
    } else {
      assert (a + b)[1..] == a[1..] + b;
      LowHalves(a[1..], b);
      Regroup(Unpack(false, a[1..]), Pow256(|a| - 1), Unpack(false, b));
    }
  }

  lemma {:induction false} HighHalves(a: seq<Byte>, b: seq<Byte>)
    ensures Unpack(true, a + b) == Pow256(|b|) * Unpack(true, a) + Unpack(true, b)
  {
    if b == [] {
      assert a + b == a;
    } else {
      assert (a + b)[..|a + b| - 1] == a + b[..|b| - 1];
      HighHalves(a, b[..|b| - 1]);
      Regroup(Unpack(true, b[..|b| - 1]), Pow256(|b| - 1), Unpack(true, a));
    }
  }

  lemma Regroup(x: int, p: int, y: int)
    ensures 256 * (x + p * y) == 256 * x + (256 * p) * y
  {
  }

  lemma FourBytes(s: seq<Byte>)
    requires |s| == 4
    ensures var b: seq<int> := s;
            && Unpack(false, s) == b[0] + 0x100 * b[1] + 0x1_0000 * b[2] + 0x100_0000 * b[3]
            && Unpack(true, s) == 0x100_0000 * b[0] + 0x1_0000 * b[1] + 0x100 * b[2] + b[3]
  {
    hide Unpack, Pow256;
    assert s == s[..2] + s[2..];
    Halves(s[..2], s[2..]);
    TwoBytes(s[..2]);
    TwoBytes(s[2..]);
    Powers();
  }

  lemma EightBytes(s: seq<Byte>)
    requires |s| == 8
    ensures Unpack(false, s) == Unpack(false, s[..4]) + 0x1_0000_0000 * Unpack(false, s[4..])
    ensures Unpack(true, s) == 0x1_0000_0000 * Unpack(true, s[..4]) + Unpack(true, s[4..])
  {
    hide Unpack, Pow256;
    assert s == s[..4] + s[4..];
    Halves(s[..4], s[4..]);
    Powers();
  }

  lemma Powers()
    ensures Pow256(2) == 0x1_0000 && Pow256(4) == 0x1_0000_0000
  {
    assert Pow256(1) == 256;
    assert Pow256(3) == 256 * Pow256(2);
  }

  // ---------------------------------------------------------------------
  // Fields of a record
  // ---------------------------------------------------------------------

  lemma {:induction false} FieldOf(big: bool, ws: seq<nat>, s: seq<Byte>, i: nat)
    requires i < |ws| && |s| == Size(ws)
    ensures var at := Size(ws[..i]);
            at + ws[i] <= |s| && UnpackAll(big, ws, s)[i] == Unpack(big, s[at..at + ws[i]])
  {
    hide Size, Unpack, UnpackAll;
    UnpackFirst(big, ws, s);
    if i == 0 {
      SizeNone(ws[..0]);
    } else {
      var rest, tail := ws[1..], s[ws[0]..];
      FieldOf(big, rest, tail, i - 1);
      SizeFirst(ws[..i]);
      assert ws[..i][1..] == rest[..i - 1];
      Sliced(s, ws[0], Size(rest[..i - 1]), ws[i]);
    }
  }

  lemma SizeNone(ws: seq<nat>)
    requires ws == []
    ensures Size(ws) == 0
  {
  }

  lemma SizeFirst(ws: seq<nat>)
    requires ws != []
    ensures Size(ws) == ws[0] + Size(ws[1..])
  {
  }

  lemma UnpackFirst(big: bool, ws: seq<nat>, s: seq<Byte>)
    requires ws != [] && |s| == Size(ws)
    ensures ws[0] <= |s| && |s[ws[0]..]| == Size(ws[1..])
    ensures UnpackAll(big, ws, s) == [Unpack(big, s[..ws[0]])] + UnpackAll(big, ws[1..], s[ws[0]..])
  {
  }

  lemma Sliced(s: seq<Byte>, k: nat, at: nat, w: nat)
    requires k + at + w <= |s|
    ensures s[k..][at..at + w] == s[k + at..k + at + w]
  {
  }

  /** A record's field is found after those before it. */
  lemma RecordField(data: seq<Byte>, big: bool, ws: seq<nat>, offset: nat, i: nat, at: nat)
    requires i < |ws| && offset + Size(ws) <= |data| && at == Size(ws[..i])
    ensures var r := ReadRecord(data, big, ws, offset);
            at + ws[i] <= Size(ws) && r.Some? && |r.value| == |ws| &&
            r.value[i] == Field(data, big, offset + at, ws[i])
  {
    var s := data[offset..offset + Size(ws)];
    FieldOf(big, ws, s, i);
    SliceOfSlice(data, offset, offset + Size(ws), at, at + ws[i]);
  }

  lemma SizeNext(ws: seq<nat>, i: nat)
    requires i < |ws|
    ensures Size(ws[..0]) == 0 && Size(ws[..i + 1]) == Size(ws[..i]) + ws[i]
  {
    SizeLast(ws[..i], ws[i]);
    assert ws[..i + 1] == ws[..i] + [ws[i]];
  }

  lemma {:induction false} SizeLast(ws: seq<nat>, w: nat)
    ensures Size(ws + [w]) == Size(ws) + w
  {
    if ws != [] {
      SizeLast(ws[1..], w);
      assert (ws + [w])[1..] == ws[1..] + [w];
    } else {
      assert (ws + [w])[1..] == [];
    }
  }

  lemma HeaderOffsets(is64: bool)
    ensures var ws := HeaderLayout(is64);
            && |ws| == 13 && Size(ws) == (if is64 then 48 else 36)
            && Size(ws[..0]) == 0 && Size(ws[..1]) == 2 && Size(ws[..2]) == 4 && Size(ws[..3]) == 8
            && Size(ws[..4]) == (if is64 then 16 else 12) && Size(ws[..5]) == (if is64 then 24 else 16)
            && Size(ws[..6]) == (if is64 then 32 else 20) && Size(ws[..7]) == (if is64 then 36 else 24)
            && Size(ws[..8]) == (if is64 then 38 else 26) && Size(ws[..9]) == (if is64 then 40 else 28)
            && Size(ws[..10]) == (if is64 then 42 else 30) && Size(ws[..11]) == (if is64 then 44 else 32)
            && Size(ws[..12]) == (if is64 then 46 else 34)
  {
    hide Size;
    var ws := HeaderLayout(is64);
    LayoutSizes(is64);
    SizeNext(ws, 0);
    SizeNext(ws, 1);
    SizeNext(ws, 2);
    SizeNext(ws, 3);
    SizeNext(ws, 4);
    SizeNext(ws, 5);
    SizeNext(ws, 6);
    SizeNext(ws, 7);
    SizeNext(ws, 8);
    SizeNext(ws, 9);
    SizeNext(ws, 10);
    SizeNext(ws, 11);
  }

  lemma RowOffsets(is64: bool)
    ensures var ws := RowLayout(is64);
            && |ws| == 10 && Size(ws) == (if is64 then 64 else 40)
            && Size(ws[..0]) == 0 && Size(ws[..1]) == 4 && Size(ws[..2]) == 8
            && Size(ws[..3]) == (if is64 then 16 else 12) && Size(ws[..4]) == (if is64 then 24 else 16)
            && Size(ws[..5]) == (if is64 then 32 else 20) && Size(ws[..6]) == (if is64 then 40 else 24)
            && Size(ws[..7]) == (if is64 then 44 else 28) && Size(ws[..8]) == (if is64 then 48 else 32)
            && Size(ws[..9]) == (if is64 then 56 else 36)
  {
    hide Size;
    var ws := RowLayout(is64);
    LayoutSizes(is64);
    SizeNext(ws, 0);
    SizeNext(ws, 1);
    SizeNext(ws, 2);
    SizeNext(ws, 3);
    SizeNext(ws, 4);
    SizeNext(ws, 5);
    SizeNext(ws, 6);
    SizeNext(ws, 7);
    SizeNext(ws, 8);
  }

  lemma SegmentOffsets(is64: bool)
    ensures var ws := SegmentLayout(is64);
            && |ws| == 8 && Size(ws) == (if is64 then 56 else 32)
            && Size(ws[..0]) == 0 && Size(ws[..1]) == 4 && Size(ws[..2]) == 8
            && Size(ws[..3]) == (if is64 then 16 else 12) && Size(ws[..4]) == (if is64 then 24 else 16)
            && Size(ws[..5]) == (if is64 then 32 else 20) && Size(ws[..6]) == (if is64 then 40 else 24)
            && Size(ws[..7]) == (if is64 then 48 else 28)
  {
    hide Size;
    var ws := SegmentLayout(is64);
    LayoutSizes(is64);
    SizeNext(ws, 0);
    SizeNext(ws, 1);
    SizeNext(ws, 2);
    SizeNext(ws, 3);
    SizeNext(ws, 4);
    SizeNext(ws, 5);
    SizeNext(ws, 6);
  }

  lemma SymbolOffsets(is64: bool)
    ensures var ws := SymbolLayout(is64);
            && |ws| == 6 && Size(ws) == (if is64 then 24 else 16)
            && Size(ws[..0]) == 0 && Size(ws[..1]) == 4 && Size(ws[..2]) == (if is64 then 5 else 8)
            && Size(ws[..3]) == (if is64 then 6 else 12) && Size(ws[..4]) == (if is64 then 8 else 13)
            && Size(ws[..5]) == (if is64 then 16 else 14)
  {
    hide Size;
    var ws := SymbolLayout(is64);
    LayoutSizes(is64);
    SizeNext(ws, 0);
    SizeNext(ws, 1);
    SizeNext(ws, 2);
    SizeNext(ws, 3);
    SizeNext(ws, 4);
  }

  // ---------------------------------------------------------------------
  // What the reader makes of raw bytes
  // ---------------------------------------------------------------------

  /** The header fields the reader uses, by their places in the file. */
  datatype Header = Header(elfType: nat, machine: nat, phoff: nat, shoff: nat, phentsize: nat, phnum: nat,
                           shentsize: nat, shnum: nat, shstrndx: nat)

  function HeaderIn(data: seq<Byte>, is64: bool, big: bool): Header
    requires |data| >= if is64 then 64 else 52
  {
    if is64
    then Header(Field(data, big, 16, 2), Field(data, big, 18, 2), Field(data, big, 32, 8), Field(data, big, 40, 8),
                Field(data, big, 54, 2), Field(data, big, 56, 2), Field(data, big, 58, 2), Field(data, big, 60, 2),
                Field(data, big, 62, 2))
    else Header(Field(data, big, 16, 2), Field(data, big, 18, 2), Field(data, big, 28, 4), Field(data, big, 32, 4),
                Field(data, big, 42, 2), Field(data, big, 44, 2), Field(data, big, 46, 2), Field(data, big, 48, 2),
                Field(data, big, 50, 2))
  }

  lemma HeaderRead(data: seq<Byte>, is64: bool, big: bool)
    ensures var r := ReadRecord(data, big, HeaderLayout(is64), 16);
            if |data| < (if is64 then 64 else 52) then r == None
            else r.Some? && |r.value| == 13 && var h := r.value;
                 HeaderIn(data, is64, big) == Header(h[0], h[1], h[4], h[5], h[8], h[9], h[10], h[11], h[12])
  {
    hide Size, ReadRecord, Field;
    HeaderOffsets(is64);
    TooShort(data, big, HeaderLayout(is64), 16);
    if |data| >= if is64 then 64 else 52 {
      var ws := HeaderLayout(is64);
      RecordField(data, big, ws, 16, 0, Size(ws[..0]));
      RecordField(data, big, ws, 16, 1, Size(ws[..1]));
      RecordField(data, big, ws, 16, 4, Size(ws[..4]));
      RecordField(data, big, ws, 16, 5, Size(ws[..5]));
      RecordField(data, big, ws, 16, 8, Size(ws[..8]));
      RecordField(data, big, ws, 16, 9, Size(ws[..9]));
      RecordField(data, big, ws, 16, 10, Size(ws[..10]));
      RecordField(data, big, ws, 16, 11, Size(ws[..11]));
      RecordField(data, big, ws, 16, 12, Size(ws[..12]));
    }
  }

  lemma TooShort(data: seq<Byte>, big: bool, ws: seq<nat>, offset: nat)
    ensures ReadRecord(data, big, ws, offset) == None <==> offset + Size(ws) > |data|
  {
  }

  /** The reader, on any bytes at all: what it refuses, and where it finds the header's
      fields. Byte 4 is the word size and byte 5 the byte order, 1 for low byte first. */
  lemma ReadMeans(data: seq<Byte>)
    ensures |data| < 4 || data[..4] != [0x7f, 0x45, 0x4c, 0x46] ==> R.Read(data) == R.Err(R.NotElf)
    ensures 4 <= |data| < 6 && data[..4] == [0x7f, 0x45, 0x4c, 0x46] ==> R.Read(data) == R.Err(R.Crash)
    ensures |data| >= 6 && data[..4] == [0x7f, 0x45, 0x4c, 0x46] ==>
              var is64, big := data[4] == 2, data[5] == 2;
              if !(1 <= data[4] <= 2 && 1 <= data[5] <= 2) then R.Read(data) == R.Err(R.Unsupported)
              else if |data| < (if is64 then 64 else 52) then R.Read(data) == R.Err(R.Truncated)
              else
                var h := HeaderIn(data, is64, big);
                var sections := R.ReadSections(data, is64, big, h.shoff, h.shentsize, h.shnum, h.shstrndx);
                var segments := R.ReadSegments(data, is64, big, h.phoff, h.phentsize, h.phnum);
                R.Read(data) == if sections.Err? then R.Err(sections.error)
                                else if segments.Err? then R.Err(segments.error)
                                else R.Ok(R.Elf(is64, big, h.elfType, h.machine, sections.value, segments.value))
  {
    hide R.ReadSections, R.ReadSegments, ReadRecord, HeaderIn, HeaderLayout;
    if |data| >= 6 {
      HeaderRead(data, data[4] == 2, data[5] == 2);
    }
  }

  /** A section header, by the places of its fields. */
  function RowIn(data: seq<Byte>, is64: bool, big: bool, at: nat): Row
    requires at + (if is64 then 64 else 40) <= |data|
  {
    if is64
    then Row(Field(data, big, at, 4), Field(data, big, at + 4, 4), Field(data, big, at + 8, 8),
             Field(data, big, at + 16, 8), Field(data, big, at + 24, 8), Field(data, big, at + 32, 8),
             Field(data, big, at + 40, 4), Field(data, big, at + 56, 8))
    else Row(Field(data, big, at, 4), Field(data, big, at + 4, 4), Field(data, big, at + 8, 4),
             Field(data, big, at + 12, 4), Field(data, big, at + 16, 4), Field(data, big, at + 20, 4),
             Field(data, big, at + 24, 4), Field(data, big, at + 36, 4))
  }

  lemma RowRead(data: seq<Byte>, is64: bool, big: bool, at: nat)
    ensures var r := ReadRecord(data, big, RowLayout(is64), at);
            if at + (if is64 then 64 else 40) > |data| then r == None
            else r.Some? && |r.value| == 10 && RowOf(r.value) == RowIn(data, is64, big, at) &&
                 r.value[5] == RowIn(data, is64, big, at).size && r.value[6] == RowIn(data, is64, big, at).link
  {
    hide Size, ReadRecord, Field;
    RowOffsets(is64);
    var ws := RowLayout(is64);
    TooShort(data, big, ws, at);
    if at + Size(ws) <= |data| {
      RecordField(data, big, ws, at, 0, Size(ws[..0]));
      RecordField(data, big, ws, at, 1, Size(ws[..1]));
      RecordField(data, big, ws, at, 2, Size(ws[..2]));
      RecordField(data, big, ws, at, 3, Size(ws[..3]));
      RecordField(data, big, ws, at, 4, Size(ws[..4]));
      RecordField(data, big, ws, at, 5, Size(ws[..5]));
      RecordField(data, big, ws, at, 6, Size(ws[..6]));
      RecordField(data, big, ws, at, 9, Size(ws[..9]));
    }
  }

  /** Records are read from where they are: each on its own, or none at all. */
  lemma {:induction false} RecordsRead(data: seq<Byte>, big: bool, ws: seq<nat>, base: nat, stride: nat, n: nat)
    ensures var r := ReadRecords(data, big, ws, base, stride, n);
            && (r.None? <==> exists i: nat :: i < n && ReadRecord(data, big, ws, Nth(base, stride, i)).None?)
            && (r.Some? ==> forall i: nat :: i < n ==>
                              ReadRecord(data, big, ws, Nth(base, stride, i)) == Some(r.value[i]))
  {
    hide ReadRecord, Nth;
    if n > 0 {
      RecordsRead(data, big, ws, base, stride, n - 1);
    }
  }

  predicate Inside(data: seq<Byte>, base: nat, stride: nat, size: nat, count: nat) {
    forall i: nat :: i < count ==> Nth(base, stride, i) + size <= |data|
  }

  /** Entry `i` of a table is `i` strides past its start. */
  lemma NthIs(base: nat, stride: nat, i: nat)
    ensures Nth(base, stride, i) == base + i * stride
  {
  }

  function RowsIn(data: seq<Byte>, is64: bool, big: bool, shoff: nat, shentsize: nat, count: nat): (rows: seq<Row>)
    requires Inside(data, shoff, shentsize, if is64 then 64 else 40, count)
    ensures |rows| == count
  {
    seq(count, i requires 0 <= i < count => RowIn(data, is64, big, Nth(shoff, shentsize, i)))
  }

  lemma RowsRead(data: seq<Byte>, is64: bool, big: bool, shoff: nat, shentsize: nat, count: nat)
    ensures var r := ReadRecords(data, big, RowLayout(is64), shoff, shentsize, count);
            if Inside(data, shoff, shentsize, if is64 then 64 else 40, count)
            then r.Some? && (forall i :: 0 <= i < |r.value| ==> |r.value[i]| == 10) &&
                 R.RowsOf(r.value) == RowsIn(data, is64, big, shoff, shentsize, count)
            else r == None
  {
    hide ReadRecord, ReadRecords, RowLayout, RowIn, Nth;
    LayoutSizes(is64);
    RecordsRead(data, big, RowLayout(is64), shoff, shentsize, count);
    forall i: nat | i < count
      ensures ReadRecord(data, big, RowLayout(is64), Nth(shoff, shentsize, i)).None? <==>
              Nth(shoff, shentsize, i) + (if is64 then 64 else 40) > |data|
    {
      RowRead(data, is64, big, Nth(shoff, shentsize, i));
    }
    var r := ReadRecords(data, big, RowLayout(is64), shoff, shentsize, count);
    if r.Some? {
      forall i | 0 <= i < count ensures R.RowsOf(r.value)[i] == RowIn(data, is64, big, Nth(shoff, shentsize, i)) {
        assert ReadRecord(data, big, RowLayout(is64), Nth(shoff, shentsize, i)) == Some(r.value[i]);
        RowRead(data, is64, big, Nth(shoff, shentsize, i));
      }
    }
  }

  /** The sections: how many there are and which one holds the names, by the header or by
      the first row, and each row at its own place; truncated if one is not in the file. */
  lemma SectionsMean(data: seq<Byte>, is64: bool, big: bool, shoff: nat, shentsize: nat, shnum: nat, shstrndx: nat)
    ensures var size := if is64 then 64 else 40;
            var r := R.ReadSections(data, is64, big, shoff, shentsize, shnum, shstrndx);
            if shoff == 0 then r == R.Ok([])
            else if shoff + size > |data| then r == R.Err(R.Truncated) else
            var first := RowIn(data, is64, big, shoff);
            var count := if shnum != 0 then shnum else first.size;
            var index := if shstrndx == 0xFFFF then first.link else shstrndx;
            if !Inside(data, shoff, shentsize, size, count) then r == R.Err(R.Truncated)
            else if count == 0 then r == R.Ok([])
            else if index == 0 || index >= count then r == R.Err(R.NoNameTable)
            else var rows := RowsIn(data, is64, big, shoff, shentsize, count);
                 r == R.NameRows(data, rows, rows[index], count)
  {
    hide ReadRecord, ReadRecords, RowLayout, RowIn, RowOf, R.NameRows, Inside;
    if shoff != 0 {
      RowRead(data, is64, big, shoff);
      if shoff + (if is64 then 64 else 40) <= |data| {
        var first := RowIn(data, is64, big, shoff);
        RowsRead(data, is64, big, shoff, shentsize, if shnum != 0 then shnum else first.size);
      }
    }
  }

  /** A string of a table: the bytes from its offset up to the next zero byte, which is
      inside the table. A table without contents has none. */
  lemma StringMeans(data: seq<Byte>, table: Row, offset: nat)
    ensures var r := R.StringAt(data, table, offset);
            if table.kind == 8 then r == R.Err(R.BadString)
            else if table.offset + table.size > |data| then r == R.Err(R.Truncated)
            else if r.Ok? then
              var start, end := table.offset + offset, table.offset + offset + |r.value|;
              end < table.offset + table.size && data[start..end] == r.value && 0 !in r.value && data[end] == 0
            else r == R.Err(R.BadString) &&
                 (offset >= table.size || 0 !in data[table.offset + offset..table.offset + table.size])
  {
  }

  predicate FirstUnnamed(data: seq<Byte>, rows: seq<Row>, table: Row, i: nat, error: R.Error) {
    && i < |rows| && R.StringAt(data, table, rows[i].name) == R.Err(error)
    && forall k: nat :: k < i ==> R.StringAt(data, table, rows[k].name).Ok?
  }

  /** Each section has the name its own row points at; the first row without one decides
      the error. */
  lemma {:induction false} NamesMean(data: seq<Byte>, rows: seq<Row>, table: Row, n: nat)
    requires n <= |rows|
    ensures var r := R.NameRows(data, rows, table, n);
            && (r.Ok? ==> |r.value| == n && forall i: nat :: i < n ==>
                  r.value[i].row == rows[i] && R.StringAt(data, table, rows[i].name) == R.Ok(r.value[i].name))
            && (r.Err? ==> exists i: nat :: i < n && FirstUnnamed(data, rows, table, i, r.error))
  {
    hide R.StringAt;
    if n > 0 {
      NamesMean(data, rows, table, n - 1);
      var before := R.NameRows(data, rows, table, n - 1);
      if before.Ok? && R.StringAt(data, table, rows[n - 1].name).Err? {
        assert FirstUnnamed(data, rows, table, n - 1, R.StringAt(data, table, rows[n - 1].name).error);
      }
    }
  }

  /** A program header, by the places of its fields. */
  function SegmentIn(data: seq<Byte>, is64: bool, big: bool, at: nat): Segment
    requires at + (if is64 then 56 else 32) <= |data|
  {
    if is64
    then Segment(Field(data, big, at, 4), Field(data, big, at + 16, 8), Field(data, big, at + 24, 8),
                 Field(data, big, at + 32, 8), Field(data, big, at + 40, 8))
    else Segment(Field(data, big, at, 4), Field(data, big, at + 8, 4), Field(data, big, at + 12, 4),
                 Field(data, big, at + 16, 4), Field(data, big, at + 20, 4))
  }

  lemma SegmentRead(data: seq<Byte>, is64: bool, big: bool, at: nat)
    ensures var r := ReadRecord(data, big, SegmentLayout(is64), at);
            if at + (if is64 then 56 else 32) > |data| then r == None
            else r.Some? && |r.value| == 8 && SegmentOf(is64, r.value) == SegmentIn(data, is64, big, at)
  {
    hide Size, ReadRecord, Field;
    SegmentOffsets(is64);
    var ws := SegmentLayout(is64);
    TooShort(data, big, ws, at);
    if at + Size(ws) <= |data| {
      RecordField(data, big, ws, at, 0, Size(ws[..0]));
      RecordField(data, big, ws, at, 2, Size(ws[..2]));
      RecordField(data, big, ws, at, 3, Size(ws[..3]));
      RecordField(data, big, ws, at, 4, Size(ws[..4]));
      RecordField(data, big, ws, at, 5, Size(ws[..5]));
      RecordField(data, big, ws, at, 6, Size(ws[..6]));
    }
  }

  lemma SegmentsMean(data: seq<Byte>, is64: bool, big: bool, phoff: nat, phentsize: nat, phnum: nat)
    ensures var size := if is64 then 56 else 32;
            var r := R.ReadSegments(data, is64, big, phoff, phentsize, phnum);
            if phoff == 0 then r == R.Ok([])
            else if !Inside(data, phoff, phentsize, size, phnum) then r == R.Err(R.Truncated)
            else r.Ok? && |r.value| == phnum && forall i: nat :: i < phnum ==>
                   Nth(phoff, phentsize, i) + size <= |data| &&
                   r.value[i] == SegmentIn(data, is64, big, Nth(phoff, phentsize, i))
  {
    hide ReadRecord, ReadRecords, SegmentLayout, SegmentIn, SegmentOf, Nth;
    LayoutSizes(is64);
    RecordsRead(data, big, SegmentLayout(is64), phoff, phentsize, phnum);
    forall i: nat | i < phnum
      ensures ReadRecord(data, big, SegmentLayout(is64), Nth(phoff, phentsize, i)).None? <==>
              Nth(phoff, phentsize, i) + (if is64 then 56 else 32) > |data|
    {
      SegmentRead(data, is64, big, Nth(phoff, phentsize, i));
    }
    var r := ReadRecords(data, big, SegmentLayout(is64), phoff, phentsize, phnum);
    if r.Some? {
      forall i: nat | i < phnum
        ensures SegmentOf(is64, r.value[i]) == SegmentIn(data, is64, big, Nth(phoff, phentsize, i))
      {
        assert ReadRecord(data, big, SegmentLayout(is64), Nth(phoff, phentsize, i)) == Some(r.value[i]);
        SegmentRead(data, is64, big, Nth(phoff, phentsize, i));
      }
    }
  }

  lemma SymbolRead(data: seq<Byte>, is64: bool, big: bool, at: nat)
    ensures var r := ReadRecord(data, big, SymbolLayout(is64), at);
            if at + (if is64 then 24 else 16) > |data| then r == None
            else r.Some? && |r.value| == 6 &&
                 SymbolOf(is64, r.value) ==
                 (Field(data, big, at, 4), if is64 then Field(data, big, at + 8, 8) else Field(data, big, at + 4, 4))
  {
    hide Size, ReadRecord, Field;
    SymbolOffsets(is64);
    var ws := SymbolLayout(is64);
    TooShort(data, big, ws, at);
    if at + Size(ws) <= |data| {
      RecordField(data, big, ws, at, 0, Size(ws[..0]));
      if is64 {
        RecordField(data, big, ws, at, 4, Size(ws[..4]));
      } else {
        RecordField(data, big, ws, at, 1, Size(ws[..1]));
      }
    }
  }

  /** One more entry of a symbol table: skipped if it has no name, otherwise its name is
      given its value. */
  lemma SymbolMeans(data: seq<Byte>, e: R.Elf, table: Row, strings: Row, n: nat, found: map<Name, nat>)
    ensures var at := table.offset + n * if e.is64 then 24 else 16;
            var before := R.TableSymbols(data, e, table, strings, n, found);
            var r := R.TableSymbols(data, e, table, strings, n + 1, found);
            if before.Err? then r == before
            else if at + (if e.is64 then 24 else 16) > |data| then r == R.Err(R.Truncated)
            else
              var name := Field(data, e.big, at, 4);
              var value := if e.is64 then Field(data, e.big, at + 8, 8) else Field(data, e.big, at + 4, 4);
              var text := R.StringAt(data, strings, name);
              r == if name == 0 then before
                   else if text.Err? then R.Err(text.error)
                   else R.Ok(before.value[text.value := value])
  {
    hide ReadRecord, R.StringAt, Field, SymbolLayout, SymbolOf, Size;
    LayoutSizes(e.is64);
    SymbolRead(data, e.is64, e.big, Nth(table.offset, Size(SymbolLayout(e.is64)), n));
  }

  /** One more section: a symbol table, type 2, is read with the strings it links to. */
  lemma TableMeans(data: seq<Byte>, e: R.Elf, n: nat)
    requires n < |e.sections|
    ensures var before, row := R.SymbolsUpTo(data, e, n), e.sections[n].row;
            R.SymbolsUpTo(data, e, n + 1) ==
            if before.Err? || row.kind != 2 then before
            else if row.link >= |e.sections| then R.Err(R.Crash)
            else
              var count := row.size / if e.is64 then 24 else 16;
              R.TableSymbols(data, e, row, e.sections[row.link].row, count, before.value)
  {
    hide R.TableSymbols;
  }

  // ---------------------------------------------------------------------
  // What the writer puts where the reader does not look
  // ---------------------------------------------------------------------

  /** Identification, version, entry, flags and the three sizes of the header. */
  lemma HeaderWritten(x: W.Input)
    requires W.Representable(x)
    ensures var data, big := W.File(x), x.big;
            && |data| >= (if x.is64 then 64 else 52)
            && data[..16] == [0x7f, 0x45, 0x4c, 0x46, if x.is64 then 2 else 1, if x.big then 2 else 1, 1,
                              0, 0, 0, 0, 0, 0, 0, 0, 0]
            && Field(data, big, 20, 4) == 1
            && if x.is64
               then Field(data, big, 24, 8) == 0 && Field(data, big, 48, 4) == 0 && Field(data, big, 52, 2) == 64 &&
                    Field(data, big, 54, 2) == 56 && Field(data, big, 58, 2) == 64
               else Field(data, big, 24, 4) == 0 && Field(data, big, 36, 4) == 0 && Field(data, big, 40, 2) == 52 &&
                    Field(data, big, 42, 2) == 32 && Field(data, big, 46, 2) == 40
  {
    hide Size, Field, At, PackAll, Records, Table, W.File, W.Blobs, W.Names, ReadRecord, W.SectionsOffset;
    var data, ws, h := W.File(x), HeaderLayout(x.is64), W.HeaderRecord(x);
    FileLayout(x);
    IdentWritten(x);
    LargeEnough(x);
    ReadRecordAt(data, x.big, ws, 16, h);
    HeaderOffsets(x.is64);
    RecordField(data, x.big, ws, 16, 2, Size(ws[..2]));
    RecordField(data, x.big, ws, 16, 3, Size(ws[..3]));
    RecordField(data, x.big, ws, 16, 6, Size(ws[..6]));
    RecordField(data, x.big, ws, 16, 7, Size(ws[..7]));
    RecordField(data, x.big, ws, 16, 8, Size(ws[..8]));
    RecordField(data, x.big, ws, 16, 10, Size(ws[..10]));
  }

  lemma IdentWritten(x: W.Input)
    ensures |W.File(x)| >= 16 && W.File(x)[..16] == W.Ident(x)
  {
    hide W.File, Records, Table, W.Blobs, W.Names, PackAll;
    FileLayout(x);
  }

  lemma LargeEnough(x: W.Input)
    ensures |W.File(x)| >= if x.is64 then 64 else 52
  {
    hide W.File, Records, Table, W.Blobs, W.Names, W.SectionsOffset, Size;
    FileLayout(x);
    LayoutSizes(x.is64);
  }

  /** A section header's info and alignment. */
  lemma RowWritten(x: W.Input, i: nat)
    requires W.Representable(x) && i < |W.Rows(x)|
    ensures var data, big, at := W.File(x), x.big, Nth(W.SectionsOffset(x), if x.is64 then 64 else 40, i);
            && at + (if x.is64 then 64 else 40) <= |data|
            && if x.is64 then Field(data, big, at + 44, 4) == 0 && Field(data, big, at + 48, 8) == 1
               else Field(data, big, at + 28, 4) == 0 && Field(data, big, at + 32, 4) == 1
  {
    hide Size, Field, At, Records, Table, W.File, W.Blobs, W.Names, ReadRecord, ReadRecords, W.SectionsOffset, W.Rows;
    var data, ws, recs := W.File(x), RowLayout(x.is64), W.RowRecords(x);
    FileLayout(x);
    RowOffsets(x.is64);
    WrittenAt(data, x.big, ws, W.SectionsOffset(x), recs, i);
    var at := Nth(W.SectionsOffset(x), Size(ws), i);
    RecordField(data, x.big, ws, at, 7, Size(ws[..7]));
    RecordField(data, x.big, ws, at, 8, Size(ws[..8]));
  }

  lemma WrittenAt(data: seq<Byte>, big: bool, ws: seq<nat>, base: nat, recs: seq<seq<nat>>, i: nat)
    requires AllFit(ws, recs) && At(data, base, Records(big, ws, recs)) && i < |recs|
    ensures var at := Nth(base, Size(ws), i); at + Size(ws) <= |data| && ReadRecord(data, big, ws, at) == Some(recs[i])
  {
    hide Size, At, Records, ReadRecord, ReadRecords, Nth, AllFit;
    ReadRecordsAt(data, big, ws, base, recs);
    RecordsRead(data, big, ws, base, Size(ws), |recs|);
    TooShort(data, big, ws, Nth(base, Size(ws), i));
  }

  /** A program header's flags, file offset and alignment. */
  lemma SegmentWritten(x: W.Input, i: nat)
    requires W.Representable(x) && i < |x.segments|
    ensures var data, big := W.File(x), x.big;
            var at := Nth(if x.is64 then 64 else 52, if x.is64 then 56 else 32, i);
            && at + (if x.is64 then 56 else 32) <= |data|
            && if x.is64 then Field(data, big, at + 4, 4) == 0 && Field(data, big, at + 8, 8) == 0 &&
                              Field(data, big, at + 48, 8) == 0
               else Field(data, big, at + 4, 4) == 0 && Field(data, big, at + 24, 4) == 0 &&
                    Field(data, big, at + 28, 4) == 0
  {
    hide Size, Field, At, Records, Table, W.File, W.Blobs, W.Names, ReadRecord, ReadRecords, W.SectionsOffset;
    var data, ws, recs := W.File(x), SegmentLayout(x.is64), W.SegmentRecords(x);
    FileLayout(x);
    SegmentOffsets(x.is64);
    WrittenAt(data, x.big, ws, W.HeaderSize(x.is64), recs, i);
    var at := Nth(W.HeaderSize(x.is64), Size(ws), i);
    RecordField(data, x.big, ws, at, 1, Size(ws[..1]));
    RecordField(data, x.big, ws, at, 2, Size(ws[..2]));
    RecordField(data, x.big, ws, at, 6, Size(ws[..6]));
    RecordField(data, x.big, ws, at, 7, Size(ws[..7]));
  }

  /** A symbol's size, info, other and section: absolute, but for the null entry. */
  lemma SymbolWritten(x: W.Input, i: nat)
    requires W.Representable(x) && x.symbols != [] && i <= |x.symbols|
    ensures var data, big := W.File(x), x.big;
            var at := Nth(W.DataStart(x) + |W.CommentBlob(x)|, if x.is64 then 24 else 16, i);
            var section := if i == 0 then 0 else 0xFFF1;
            && at + (if x.is64 then 24 else 16) <= |data|
            && if x.is64 then Field(data, big, at + 4, 1) == 0 && Field(data, big, at + 5, 1) == 0 &&
                              Field(data, big, at + 6, 2) == section && Field(data, big, at + 16, 8) == 0
               else Field(data, big, at + 8, 4) == 0 && Field(data, big, at + 12, 1) == 0 &&
                    Field(data, big, at + 13, 1) == 0 && Field(data, big, at + 14, 2) == section
  {
    hide Size, Field, At, Records, Table, W.File, W.Names, ReadRecord, ReadRecords, W.SectionsOffset, W.DataStart,
         W.CommentBlob, W.StringBlob, W.SymbolRecords;
    var data, ws, recs := W.File(x), SymbolLayout(x.is64), W.SymbolRecords(x);
    S.BlobsSplit(x);
    S.SymbolsFit(x);
    SymbolRecordIs(x, i);
    SymbolOffsets(x.is64);
    WrittenAt(data, x.big, ws, W.DataStart(x) + |W.CommentBlob(x)|, recs, i);
    var at := Nth(W.DataStart(x) + |W.CommentBlob(x)|, Size(ws), i);
    RecordField(data, x.big, ws, at, 1, Size(ws[..1]));
    RecordField(data, x.big, ws, at, 2, Size(ws[..2]));
    RecordField(data, x.big, ws, at, 3, Size(ws[..3]));
    RecordField(data, x.big, ws, at, 4, Size(ws[..4]));
    RecordField(data, x.big, ws, at, 5, Size(ws[..5]));
  }

  lemma SymbolRecordIs(x: W.Input, i: nat)
    requires i <= |x.symbols|
    ensures var r, section := W.SymbolRecords(x)[i], if i == 0 then 0 else 0xFFF1;
            && |r| == 6
            && if x.is64 then r[1] == r[2] == r[5] == 0 && r[3] == section
               else r[2] == r[3] == r[4] == 0 && r[5] == section
  {
    hide OffsetOf;
    if i == 0 {
      assert W.SymbolRecords(x)[i] == [0, 0, 0, 0, 0, 0];
    } else {
      var fields := SymbolFields(x.is64, OffsetOf(W.SymbolNames(x), i - 1), x.symbols[i - 1].1);
      assert W.SymbolRecords(x)[i] == fields;
    }
  }

  /** The section headers the writer adds of its own accord: the contents follow the
      headers in this order, the symbol table links to the string table's index. */
  lemma OwnRows(x: W.Input)
    ensures W.DataStart(x) == (if x.is64 then 64 else 52) + (if x.is64 then 56 else 32) * |x.segments|
    ensures W.CommentRow(x) == Row(0, 1, 0, 0, W.DataStart(x), |W.CommentBlob(x)|, 0, 0)
    ensures var at := W.DataStart(x) + |W.CommentBlob(x)|;
            && W.SymtabRow(x) == Row(0, 2, 0, 0, at, |W.SymbolBlob(x)|, W.SymtabRow(x).link, if x.is64 then 24 else 16)
            && W.StrtabRow(x) == Row(0, 3, 0, 0, at + |W.SymbolBlob(x)|, |W.StringBlob(x)|, 0, 0)
            && W.ShstrtabRow(x) == Row(0, 3, 0, 0, W.DataStart(x) + |W.Blobs(x)|, |Table(W.Names(x))|, 0, 0)
    ensures x.symbols != [] ==>
              var link := W.SymtabRow(x).link;
              2 <= link <= |W.Names(x)| && W.Names(x)[link - 1] == W.STRTAB && W.Names(x)[link - 2] == W.SYMTAB
  {
    hide W.CommentBlob, W.SymbolBlob, W.StringBlob, Table;
  }

  /** The contents of the comment section: each string and a zero byte, in order. */
  lemma CommentWritten(x: W.Input)
    requires x.comment.Some?
    ensures At(W.File(x), W.DataStart(x), W.CommentBlob(x))
    ensures W.CommentBlob(x) == if x.comment.value == [] then [0] else Terminated(x.comment.value)
  {
    hide W.File, W.SymbolBlob, W.StringBlob, W.Names, W.SectionsOffset, Records, Table, At, W.DataStart;
    FileLayout(x);
    AtSplit(W.File(x), W.DataStart(x), W.CommentBlob(x) + W.SymbolBlob(x), W.StringBlob(x));
    AtSplit(W.File(x), W.DataStart(x), W.CommentBlob(x), W.SymbolBlob(x));
    JoinedIs(x.comment.value);
  }

  function Terminated(strings: seq<Name>): seq<Byte> {
    if strings == [] then [] else strings[0] + [0] + Terminated(strings[1..])
  }

  lemma {:induction false} JoinedIs(strings: seq<Name>)
    ensures W.Joined(strings) == if strings == [] then [0] else Terminated(strings)
  {
    if |strings| == 1 {
      assert strings[1..] == [];
      assert strings[0] + [0] + [] == strings[0] + [0];
    } else if |strings| > 1 {
      JoinedIs(strings[1..]);
    }
  }

  function Ascii(s: string): seq<Byte>
    requires forall i :: 0 <= i < |s| ==> s[i] < 128 as char
  {
    seq(|s|, i requires 0 <= i < |s| => s[i] as int)
  }

  /** The names of the sections the writer adds of its own accord. */
  lemma NamesWritten()
    ensures W.COMMENT == Ascii(".comment") && W.SYMTAB == Ascii(".symtab")
    ensures W.STRTAB == Ascii(".strtab") && W.SHSTRTAB == Ascii(".shstrtab")
  {
  }
}
