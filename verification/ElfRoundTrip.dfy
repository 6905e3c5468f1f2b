/**
 Reading back what the synthetic writer produced: for every input the writer
 can represent, in both word sizes, both byte orders and both ways of numbering
 sections, the reader returns the sections, segments and symbols asked for.
 */
module ElfRoundTrip {

  import opened Common
  import opened Bytes
  import opened ElfFormat
  import W = ElfWriter
  import R = ElfReader

  // ---------------------------------------------------------------------
  // Where the parts of the file lie
  // ---------------------------------------------------------------------

  lemma SixParts(data: seq<Byte>, a: seq<Byte>, b: seq<Byte>, c: seq<Byte>, d: seq<Byte>, e: seq<Byte>, f: seq<Byte>)
    requires data == a + b + c + d + e + f
    ensures At(data, 0, a)
    ensures At(data, |a|, b)
    ensures At(data, |a| + |b|, c)
    ensures At(data, |a| + |b| + |c|, d)
    ensures At(data, |a| + |b| + |c| + |d|, e)
    ensures At(data, |a| + |b| + |c| + |d| + |e|, f)
  {
    assert At(data, 0, a + b + c + d + e + f);
    AtSplit(data, 0, a + b + c + d + e, f);
    AtSplit(data, 0, a + b + c + d, e);
    AtSplit(data, 0, a + b + c, d);
    AtSplit(data, 0, a + b, c);
    AtSplit(data, 0, a, b);
  }

  lemma HeaderBytes(x: W.Input)
    ensures 16 + |PackAll(x.big, HeaderLayout(x.is64), W.HeaderRecord(x))| == W.HeaderSize(x.is64)
  {
    LayoutSizes(x.is64);
  }

  lemma SegmentBytes(x: W.Input)
    ensures |Records(x.big, SegmentLayout(x.is64), W.SegmentRecords(x))| == W.SegmentSize(x.is64) * |x.segments|
  {
    hide Records, SegmentLayout, W.SegmentRecords, Size;
    LayoutSizes(x.is64);
    var n := |x.segments|;
    assert |Records(x.big, SegmentLayout(x.is64), W.SegmentRecords(x))| == n * Size(SegmentLayout(x.is64));
  }

  lemma FileLayout(x: W.Input)
    ensures At(W.File(x), 0, W.Ident(x))
    ensures At(W.File(x), 16, PackAll(x.big, HeaderLayout(x.is64), W.HeaderRecord(x)))
    ensures At(W.File(x), W.HeaderSize(x.is64), Records(x.big, SegmentLayout(x.is64), W.SegmentRecords(x)))
    ensures At(W.File(x), W.DataStart(x), W.Blobs(x))
    ensures At(W.File(x), W.DataStart(x) + |W.Blobs(x)|, Table(W.Names(x)))
    ensures At(W.File(x), W.SectionsOffset(x), Records(x.big, RowLayout(x.is64), W.RowRecords(x)))
  {
    hide At, Records, PackAll, Table, W.Blobs, W.Names, W.Ident, W.HeaderRecord, W.SegmentRecords, W.RowRecords;
    HeaderBytes(x);
    SegmentBytes(x);
    var a, b := W.Ident(x), PackAll(x.big, HeaderLayout(x.is64), W.HeaderRecord(x));
    var c, d := Records(x.big, SegmentLayout(x.is64), W.SegmentRecords(x)), W.Blobs(x);
    var e, f := Table(W.Names(x)), Records(x.big, RowLayout(x.is64), W.RowRecords(x));
    SixParts(W.File(x), a, b, c, d, e, f);
  }

  // ---------------------------------------------------------------------
  // Strings
  // ---------------------------------------------------------------------

  /** Row `row` describes the string table of `names` in `data`. */
  predicate Describes(data: seq<Byte>, row: Row, names: seq<Name>) {
    row.kind != SHT_NOBITS && row.size == |Table(names)| && At(data, row.offset, Table(names))
  }

  lemma StringRead(data: seq<Byte>, row: Row, names: seq<Name>, i: nat)
    requires Describes(data, row, names) && i < |names|
    ensures R.StringAt(data, row, OffsetOf(names, i)) == R.Ok(UpToNul(names[i]))
  {
    hide Table, UpToNul;
    TableHolds(names, i);
    var o, s := OffsetOf(names, i), names[i] + [0];
    var start, end := row.offset + o, row.offset + row.size;
    assert data[start..start + |s|] == s by {
      SliceOfSlice(data, row.offset, end, o, o + |s|);
    }
    NulFound(data, start, end, names[i]);
  }

  lemma SliceOfSlice(data: seq<Byte>, lo: nat, hi: nat, i: nat, j: nat)
    requires lo <= hi <= |data| && i <= j <= hi - lo
    ensures data[lo..hi][i..j] == data[lo + i..lo + j]
  {
    assert |data[lo..hi][i..j]| == |data[lo + i..lo + j]|;
    forall k | 0 <= k < j - i ensures data[lo..hi][i..j][k] == data[lo + i..lo + j][k] {
    }
  }

  lemma NulFound(data: seq<Byte>, start: nat, end: nat, s: Name)
    requires start + |s| + 1 <= end <= |data| && data[start..start + |s| + 1] == s + [0]
    ensures R.FindNul(data, start, end) == Some(start + |UpToNul(s)|)
    ensures data[start..start + |UpToNul(s)|] == UpToNul(s)
  {
    var t := UpToNul(s);
    var run := data[start..start + |s| + 1];
    assert run[..|t|] == t;
    assert data[start..start + |t|] == run[..|t|];
    assert run[|t|] == 0 && data[start + |t|] == 0;
    var found := R.FindNul(data, start, end);
    assert 0 in data[start..end] by {
      assert data[start..end][|t|] == 0;
    }
    FirstNul(data, start, found.value, t);
  }

  lemma FirstNul(data: seq<Byte>, start: nat, k: nat, t: Name)
    requires start <= k < |data| && data[k] == 0 && 0 !in data[start..k]
    requires start + |t| < |data| && data[start..start + |t|] == t && 0 !in t && data[start + |t|] == 0
    ensures k == start + |t|
  {
    forall i | start <= i < k ensures data[i] != 0 {
      assert data[start..k][i - start] == data[i];
    }
    forall i | start <= i < start + |t| ensures data[i] != 0 {
      assert data[start..start + |t|][i - start] == data[i];
    }
  }

  /** Offset 0 is the empty name. */
  lemma EmptyNameRead(data: seq<Byte>, row: Row, names: seq<Name>)
    requires Describes(data, row, names)
    ensures R.StringAt(data, row, 0) == R.Ok([])
  {
    TableStartsWithNul(names);
    assert data[row.offset] == data[row.offset..row.offset + row.size][0];
    assert data[row.offset..row.offset] == [];
  }

  lemma {:induction false} TableStartsWithNul(names: seq<Name>)
    ensures |Table(names)| > 0 && Table(names)[0] == 0
  {
    if names != [] {
      TableStartsWithNul(names[..|names| - 1]);
    }
  }

  // ---------------------------------------------------------------------
  // Sections
  // ---------------------------------------------------------------------

  /** What the reader is to return for row `i`. */
  function Expected(x: W.Input, i: nat): R.Named
    requires i <= |W.Names(x)|
  {
    R.Named(if i == 0 then [] else UpToNul(W.Names(x)[i - 1]), W.Rows(x)[i])
  }

  function AllExpected(x: W.Input, n: nat): (r: seq<R.Named>)
    requires n <= |W.Names(x)| + 1
    ensures |r| == n && forall i :: 0 <= i < n ==> r[i] == Expected(x, i)
  {
    seq(n, i requires 0 <= i < n => Expected(x, i))
  }

  lemma RowNameOffset(x: W.Input, i: nat)
    requires i <= |W.Names(x)|
    ensures W.Rows(x)[i].name == if i == 0 then 0 else OffsetOf(W.Names(x), i - 1)
  {
    hide OffsetOf, W.Bodies, Table;
  }

  lemma RowName(x: W.Input, data: seq<Byte>, table: Row, i: nat)
    requires i <= |W.Names(x)| && Describes(data, table, W.Names(x))
    ensures R.StringAt(data, table, W.Rows(x)[i].name) == R.Ok(Expected(x, i).name)
  {
    hide Describes, R.StringAt, W.Names, OffsetOf, W.Rows, Table;
    RowNameOffset(x, i);
    if i == 0 {
      EmptyNameRead(data, table, W.Names(x));
    } else {
      StringRead(data, table, W.Names(x), i - 1);
    }
  }

  lemma NameOneMore(data: seq<Byte>, rows: seq<Row>, table: Row, n: nat, before: seq<R.Named>, name: Name)
    requires n < |rows| && R.NameRows(data, rows, table, n) == R.Ok(before)
    requires R.StringAt(data, table, rows[n].name) == R.Ok(name)
    ensures R.NameRows(data, rows, table, n + 1) == R.Ok(before + [R.Named(name, rows[n])])
  {
  }

  lemma {:induction false} RowsNamed(x: W.Input, data: seq<Byte>, table: Row, n: nat)
    requires n <= |W.Names(x)| + 1 && Describes(data, table, W.Names(x))
    ensures R.NameRows(data, W.Rows(x), table, n) == R.Ok(AllExpected(x, n))
  {
    if n > 0 {
      hide Describes, R.StringAt, R.NameRows, W.Names, W.Rows, AllExpected, Expected;
      RowsNamed(x, data, table, n - 1);
      RowName(x, data, table, n - 1);
      NameOneMore(data, W.Rows(x), table, n - 1, AllExpected(x, n - 1), Expected(x, n - 1).name);
      ExpectedOneMore(x, n - 1);
    }
  }

  lemma ExpectedOneMore(x: W.Input, n: nat)
    requires n <= |W.Names(x)|
    ensures AllExpected(x, n + 1) == AllExpected(x, n) + [R.Named(Expected(x, n).name, W.Rows(x)[n])]
  {
    hide W.Names, W.Rows;
  }

  lemma SectionsReadFrom(data: seq<Byte>, is64: bool, big: bool, shoff: nat, shnum: nat, shstrndx: nat,
                         recs: seq<seq<nat>>, named: seq<R.Named>)
    requires shoff != 0 && |recs| > 1 && AllFit(RowLayout(is64), recs) && |RowLayout(is64)| == 10
    requires At(data, shoff, Records(big, RowLayout(is64), recs))
    requires if shnum == 0 then shstrndx == SHN_XINDEX && recs[0][5] == |recs| && recs[0][6] == |recs| - 1
             else shnum == |recs| && shstrndx == |recs| - 1 != SHN_XINDEX
    requires R.NameRows(data, R.RowsOf(recs), R.RowsOf(recs)[|recs| - 1], |recs|) == R.Ok(named)
    ensures R.ReadSections(data, is64, big, shoff, Size(RowLayout(is64)), shnum, shstrndx) == R.Ok(named)
  {
    hide At, Records, AllFit, Size, RowLayout, R.NameRows, ReadRecord, ReadRecords;
    ReadRecordsAt(data, big, RowLayout(is64), shoff, recs);
    FirstRecord(data, big, RowLayout(is64), shoff, recs);
  }

  lemma SectionsRead(x: W.Input)
    requires W.Representable(x)
    ensures var h := W.HeaderRecord(x);
            R.ReadSections(W.File(x), x.is64, x.big, h[5], h[10], h[11], h[12]) ==
            R.Ok(AllExpected(x, |W.Names(x)| + 1))
  {
    hide At, Records, Table, W.File, W.Blobs, W.Names, W.SectionsOffset, W.RowRecords, W.Rows, Describes, R.NameRows,
         R.ReadSections, AllExpected;
    var data, n, recs := W.File(x), |W.Names(x)|, W.RowRecords(x);
    FileLayout(x);
    LayoutSizes(x.is64);
    RowsReadBack(x);
    ShstrtabDescribed(x);
    RowsNamed(x, data, W.Rows(x)[n], n + 1);
    var h := W.HeaderRecord(x);
    CountsFit(x);
    SectionsReadFrom(data, x.is64, x.big, h[5], h[11], h[12], recs, AllExpected(x, n + 1));
  }

  lemma RowsReadBack(x: W.Input)
    ensures R.RowsOf(W.RowRecords(x)) == W.Rows(x)
    ensures x.extended ==> W.RowRecords(x)[0][5] == |W.Names(x)| + 1 && W.RowRecords(x)[0][6] == |W.Names(x)|
  {
    assert RowOf(W.RowRecords(x)[0]) == W.Rows(x)[0] == W.NullRow(x);
  }

  /** A plain section index never collides with the escape value. */
  lemma CountsFit(x: W.Input)
    requires W.Representable(x)
    ensures !x.extended ==> |W.Names(x)| + 1 < 0x10000
    ensures W.SectionsOffset(x) > 0 && |W.Names(x)| >= 1
  {
    var ws, h := HeaderLayout(x.is64), W.HeaderRecord(x);
    assert h[11] < Pow256(ws[11]) && ws[11] == 2;
    assert Pow256(2) == 0x10000 by {
      assert Pow256(1) == 256;
    }
  }

  lemma FirstRecord(data: seq<Byte>, big: bool, ws: seq<nat>, base: nat, recs: seq<seq<nat>>)
    requires AllFit(ws, recs) && recs != [] && At(data, base, Records(big, ws, recs))
    ensures ReadRecord(data, big, ws, base) == Some(recs[0])
  {
    if |recs| == 1 {
      assert recs[..0] == [];
      assert Records(big, ws, recs) == PackAll(big, ws, recs[0]);
      ReadRecordAt(data, big, ws, base, recs[0]);
    } else {
      var n := |recs| - 1;
      AtSplit(data, base, Records(big, ws, recs[..n]), PackAll(big, ws, recs[n]));
      FirstRecord(data, big, ws, base, recs[..n]);
    }
  }

  lemma LastRow(x: W.Input)
    ensures |W.Names(x)| >= 1
    ensures W.Rows(x)[|W.Names(x)|].(name := 0) == W.ShstrtabRow(x)
  {
    var n := |W.Names(x)|;
    assert W.Rows(x)[n] == W.Bodies(x)[n - 1].(name := OffsetOf(W.Names(x), n - 1));
  }

  lemma ShstrtabDescribed(x: W.Input)
    ensures Describes(W.File(x), W.Rows(x)[|W.Names(x)|], W.Names(x))
  {
    hide At, Records, Table, W.File, W.Blobs, W.Names, W.Rows, W.SectionsOffset;
    FileLayout(x);
    LastRow(x);
    var row := W.Rows(x)[|W.Names(x)|];
    assert row.offset == W.ShstrtabRow(x).offset && row.size == W.ShstrtabRow(x).size && row.kind == SHT_STRTAB;
  }

  // ---------------------------------------------------------------------
  // Segments
  // ---------------------------------------------------------------------

  lemma SegmentsReadFrom(data: seq<Byte>, is64: bool, big: bool, phoff: nat, recs: seq<seq<nat>>)
    requires phoff != 0 && |SegmentLayout(is64)| == 8 && AllFit(SegmentLayout(is64), recs)
    requires At(data, phoff, Records(big, SegmentLayout(is64), recs))
    ensures R.ReadSegments(data, is64, big, phoff, Size(SegmentLayout(is64)), |recs|) ==
            R.Ok(R.SegmentsOf(is64, recs))
  {
    ReadRecordsAt(data, big, SegmentLayout(is64), phoff, recs);
  }

  lemma SegmentsRead(x: W.Input)
    requires W.Representable(x)
    ensures var h := W.HeaderRecord(x);
            R.ReadSegments(W.File(x), x.is64, x.big, h[4], h[8], h[9]) == R.Ok(x.segments)
  {
    hide At, Records, W.File, W.Blobs, W.Names, W.SegmentRecords, SegmentLayout, Size;
    FileLayout(x);
    LayoutSizes(x.is64);
    if x.segments != [] {
      var recs := W.SegmentRecords(x);
      SegmentsReadFrom(W.File(x), x.is64, x.big, W.HeaderSize(x.is64), recs);
      assert R.SegmentsOf(x.is64, recs) == x.segments;
    }
  }

  // ---------------------------------------------------------------------
  // The whole file
  // ---------------------------------------------------------------------

  function Image(x: W.Input): R.Elf {
    R.Elf(x.is64, x.big, x.elfType, x.machine, AllExpected(x, |W.Names(x)| + 1), x.segments)
  }

  lemma IdentRead(x: W.Input)
    ensures |W.File(x)| >= 16 && W.File(x)[..4] == MAGIC
    ensures W.File(x)[4] == (if x.is64 then 2 else 1) && W.File(x)[5] == (if x.big then 2 else 1)
  {
    hide Records, PackAll, Table, W.File, W.Blobs, W.Names, W.HeaderRecord;
    FileLayout(x);
    var data, id := W.File(x), W.Ident(x);
    assert data[0..16] == id;
    assert data[..4] == id[..4] == MAGIC;
    assert data[4] == data[0..16][4] && data[5] == data[0..16][5];
  }

  lemma PartsRead(data: seq<Byte>, is64: bool, big: bool, h: seq<nat>, sections: seq<R.Named>, segments: seq<Segment>)
    requires |data| >= 16 && data[..4] == MAGIC && |h| == 13
    requires data[4] == (if is64 then 2 else 1) && data[5] == (if big then 2 else 1)
    requires ReadRecord(data, big, HeaderLayout(is64), 16) == Some(h)
    requires R.ReadSections(data, is64, big, h[5], h[10], h[11], h[12]) == R.Ok(sections)
    requires R.ReadSegments(data, is64, big, h[4], h[8], h[9]) == R.Ok(segments)
    ensures R.Read(data) == R.Ok(R.Elf(is64, big, h[0], h[1], sections, segments))
  {
  }

  /** Parsing what the writer prints gives back exactly what was asked for. */
  lemma RoundTrip(x: W.Input)
    requires W.Representable(x)
    ensures R.Read(W.File(x)) == R.Ok(Image(x))
  {
    hide At, Records, PackAll, Table, W.File, W.Blobs, W.Names, R.Read, R.ReadSections, R.ReadSegments, ReadRecord;
    IdentRead(x);
    FileLayout(x);
    var h := W.HeaderRecord(x);
    ReadRecordAt(W.File(x), x.big, HeaderLayout(x.is64), 16, h);
    SectionsRead(x);
    SegmentsRead(x);
    PartsRead(W.File(x), x.is64, x.big, h, AllExpected(x, |W.Names(x)| + 1), x.segments);
  }

  // ---------------------------------------------------------------------
  // The caller's view of it
  // ---------------------------------------------------------------------

  lemma RowKinds(x: W.Input, i: nat)
    requires i < |W.Names(x)|
    ensures var n, c := |x.sections|, if x.comment.None? then 0 else 1;
            var row := W.Rows(x)[i + 1].(name := 0);
            if i < n then row == W.UserRow(x.sections[i]) && W.Names(x)[i] == x.sections[i].name
            else if i < n + c then row == W.CommentRow(x)
            else if x.symbols != [] && i == n + c then row == W.SymtabRow(x)
            else if x.symbols != [] && i == n + c + 1 then row == W.StrtabRow(x)
            else row == W.ShstrtabRow(x)
    ensures |W.Names(x)| == |x.sections| + (if x.comment.None? then 0 else 1) + (if x.symbols == [] then 0 else 2) + 1
  {
    hide W.DataStart, W.CommentBlob, W.SymbolBlob, W.StringBlob, W.Blobs, Table, OffsetOf;
    assert W.Rows(x)[i + 1] == W.Bodies(x)[i].(name := OffsetOf(W.Names(x), i));
  }

  /** Section `k` comes back, one place later, with its name, type, flags, size
      and entry size. A name is cut at its first zero byte, if it has one. */
  lemma SectionsComeBack(x: W.Input, k: nat)
    requires W.Representable(x) && k < |x.sections|
    ensures R.Read(W.File(x)).Ok?
    ensures var sections := R.Read(W.File(x)).value.sections;
            && |sections| > |x.sections| + 1
            && var (got, asked) := (sections[k + 1], x.sections[k]);
               && got.name == UpToNul(asked.name)
               && (got.name == asked.name <==> 0 !in asked.name)
               && got.row.kind == asked.kind && got.row.flags == asked.flags
               && got.row.size == asked.size && got.row.entsize == asked.entsize && got.row.addr == 0
  {
    hide W.Representable, W.File, R.Read;
    RoundTrip(x);
    RowKinds(x, k);
    hide W.Names, W.Rows;
    assert Image(x).sections[k + 1] == Expected(x, k + 1);
  }
}
