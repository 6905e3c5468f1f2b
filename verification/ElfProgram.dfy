/**
 The writer and the reader in the source's own form: byte arrays and lists
 grown in loops, proved to produce the file, and to read the records, that the
 writer and reader models describe.
 */
module ElfProgram {

  import opened Common
  import opened Bytes
  import opened ElfFormat
  import opened ElfRoundTrip
  import W = ElfWriter
  import R = ElfReader

  // ---------------------------------------------------------------------
  // Writing
  // ---------------------------------------------------------------------

  /** Packs one record after another; packing a value that does not fit fails. */
  method PackRecords(big: bool, ws: seq<nat>, recs: seq<seq<nat>>) returns (r: Option<seq<Byte>>)
    requires SameLength(ws, recs)
    ensures r.Some? <==> AllFit(ws, recs)
    ensures r.Some? ==> r.value == Records(big, ws, recs)
  {
    var out := [];
    for i := 0 to |recs|
      invariant AllFit(ws, recs[..i]) && out == Records(big, ws, recs[..i])
    {
      if !Fits(ws, recs[i]) {
        return None;
      }
      assert recs[..i + 1][..i] == recs[..i];
      out := out + PackAll(big, ws, recs[i]);
    }
    assert recs[..|recs|] == recs;
    return Some(out);
  }

  /** The symbol entries and the string table they point into. */
  method BuildSymbols(x: W.Input) returns (entries: seq<seq<nat>>, strtab: seq<Byte>)
    ensures entries == W.SymbolRecords(x) && strtab == Table(W.SymbolNames(x))
  {
    strtab := [0];
    entries := [[0, 0, 0, 0, 0, 0]];
    ghost var names := W.SymbolNames(x);
    for i := 0 to |x.symbols|
      invariant strtab == Table(names[..i])
      invariant entries == W.SymbolRecords(x)[..i + 1]
    {
      assert W.SymbolRecords(x)[..i + 2] == W.SymbolRecords(x)[..i + 1] + [W.SymbolRecords(x)[i + 1]];
      assert W.SymbolRecords(x)[i + 1] == SymbolFields(x.is64, OffsetOf(W.SymbolNames(x), i), x.symbols[i].1);
      entries := entries + [SymbolFields(x.is64, |strtab|, x.symbols[i].1)];
      TableGrows(names, i);
      strtab := strtab + x.symbols[i].0 + [0];
    }
    assert names[..|x.symbols|] == names;
    assert W.SymbolRecords(x)[..|x.symbols| + 1] == W.SymbolRecords(x);
  }

  /** What the tables hold once `k` sections have been added to them. */
  ghost predicate Built(x: W.Input, k: nat, names: seq<Byte>, table: seq<Row>)
    requires k <= |W.Names(x)|
  {
    && names == Table(W.Names(x)[..k])
    && |table| == k + 1 && table[0] == Row(0, 0, 0, 0, 0, 0, 0, 0)
    && forall i :: 1 <= i <= k ==> table[i] == W.Rows(x)[i]
  }

  /** One call of `name_of` and one `append` take the tables one section on. */
  lemma BuiltOneMore(x: W.Input, k: nat, names: seq<Byte>, table: seq<Row>, body: Row)
    requires k < |W.Names(x)| && Built(x, k, names, table)
    requires W.Rows(x)[k + 1].(name := 0) == body
    ensures Built(x, k + 1, names + W.Names(x)[k] + [0], table + [body.(name := |names|)])
  {
    hide W.Names, W.Bodies;
    TableGrows(W.Names(x), k);
    RowNameIs(x, k);
    assert W.Rows(x)[k + 1] == body.(name := |names|);
  }

  lemma RowNameIs(x: W.Input, k: nat)
    requires k < |W.Names(x)|
    ensures W.Rows(x)[k + 1].name == |Table(W.Names(x)[..k])|
  {
    hide W.Bodies, Table, W.Names;
  }

  method AddSections(x: W.Input) returns (names: seq<Byte>, table: seq<Row>)
    ensures |x.sections| < |W.Names(x)| && Built(x, |x.sections|, names, table)
  {
    names, table := [0], [Row(0, 0, 0, 0, 0, 0, 0, 0)];
    SectionsNamed(x);
    for k := 0 to |x.sections|
      invariant Built(x, k, names, table)
    {
      var s := x.sections[k];
      RowKinds(x, k);
      BuiltOneMore(x, k, names, table, W.UserRow(s));
      table := table + [Row(|names|, s.kind, s.flags, 0, 0, s.size, 0, s.entsize)];
      names := names + s.name + [0];
    }
  }

  lemma SectionsNamed(x: W.Input)
    ensures |x.sections| < |W.Names(x)|
    ensures Table(W.Names(x)[..0]) == [0]
  {
  }

  lemma NamesAfter(x: W.Input)
    ensures var n, c := |x.sections|, if x.comment.None? then 0 else 1;
            && |W.Names(x)| == n + c + (if x.symbols == [] then 0 else 2) + 1
            && (x.comment.Some? ==> W.Names(x)[n] == W.COMMENT)
            && (x.symbols != [] ==> W.Names(x)[n + c] == W.SYMTAB && W.Names(x)[n + c + 1] == W.STRTAB)
            && W.Names(x)[|W.Names(x)| - 1] == W.SHSTRTAB
  {
  }

  /** The section tables and the blobs behind them: the caller's sections, then
      the comment, the symbols and their strings, then the section names. */
  method BuildTables(x: W.Input) returns (names: seq<Byte>, table: seq<Row>, blobs: Option<seq<Byte>>)
    ensures blobs.Some? <==> (x.symbols != [] ==> AllFit(SymbolLayout(x.is64), W.SymbolRecords(x)))
    ensures blobs.Some? ==>
              && blobs.value == W.Blobs(x)
              && Built(x, |W.Names(x)|, names, table)
  {
    hide W.Names, W.Rows, Table, Records, AllFit, W.SymbolRecords, W.SymbolNames, W.Joined;
    NamesAfter(x);
    names, table := AddSections(x);
    ghost var k := |x.sections|;
    var out: seq<Byte> := [];
    if x.comment.Some? {
      var payload := W.Joined(x.comment.value);
      RowKinds(x, k);
      BuiltOneMore(x, k, names, table, W.CommentRow(x));
      table := table + [Row(|names|, SHT_PROGBITS, 0, 0, W.DataStart(x), |payload|, 0, 0)];
      names := names + W.COMMENT + [0];
      out := payload;
      k := k + 1;
    }
    assert out == W.CommentBlob(x);
    if x.symbols != [] {
      var entries, strtab := BuildSymbols(x);
      var syms := PackRecords(x.big, SymbolLayout(x.is64), entries);
      if syms.None? {
        return names, table, None;
      }
      RowKinds(x, k);
      BuiltOneMore(x, k, names, table, W.SymtabRow(x));
      table := table + [Row(|names|, SHT_SYMTAB, 0, 0, W.DataStart(x) + |out|, |syms.value|, |table| + 1,
                            SymbolSize(x.is64))];
      names := names + W.SYMTAB + [0];
      out := out + syms.value;
      RowKinds(x, k + 1);
      BuiltOneMore(x, k + 1, names, table, W.StrtabRow(x));
      table := table + [Row(|names|, SHT_STRTAB, 0, 0, W.DataStart(x) + |out|, |strtab|, 0, 0)];
      names := names + W.STRTAB + [0];
      out := out + strtab;
      k := k + 2;
    }
    assert out == W.Blobs(x);
    RowKinds(x, k);
    BuiltOneMore(x, k, names, table, W.ShstrtabRow(x));
    var nameOffset := |names|;
    names := names + W.SHSTRTAB + [0];
    assert W.Names(x)[..k + 1] == W.Names(x);
    table := table + [Row(nameOffset, SHT_STRTAB, 0, 0, W.DataStart(x) + |out|, |names|, 0, 0)];
    return names, table, Some(out);
  }

  /** `build_elf`: the file, or none when a value does not fit its field. */
  method BuildElf(x: W.Input) returns (file: Option<seq<Byte>>)
    ensures file.Some? <==> W.Representable(x)
    ensures file.Some? ==> file.value == W.File(x) && R.Read(file.value) == R.Ok(Image(x))
  {
    hide W.Names, Table, Records, PackAll, AllFit, Fits, W.Blobs, W.SymbolRecords, R.Read, AllExpected;
    var names, table, blobs := BuildTables(x);
    if blobs.None? {
      return None;
    }
    table := NumberSections(x, table);
    assert W.Names(x)[..|W.Names(x)|] == W.Names(x);
    var header := W.HeaderFields(x.elfType, x.machine, if x.segments == [] then 0 else W.HeaderSize(x.is64),
                                 W.DataStart(x) + |blobs.value| + |names|, x.is64, |x.segments|,
                                 if x.extended then 0 else |table|, if x.extended then SHN_XINDEX else |table| - 1);
    assert header == W.HeaderRecord(x);
    if !Fits(HeaderLayout(x.is64), header) {
      return None;
    }
    var segments := PackSegments(x);
    if segments.None? {
      return None;
    }
    var rows := PackRows(x, table);
    if rows.None? {
      return None;
    }
    file := Some(W.Ident(x) + PackAll(x.big, HeaderLayout(x.is64), header) + segments.value + blobs.value + names +
                 rows.value);
    RoundTrip(x);
  }

  /** Extended numbering moves the counts into row 0. */
  method NumberSections(x: W.Input, table: seq<Row>) returns (rows: seq<Row>)
    requires |table| == |W.Names(x)| + 1 && table[0] == Row(0, 0, 0, 0, 0, 0, 0, 0)
    requires forall i :: 1 <= i < |table| ==> table[i] == W.Rows(x)[i]
    ensures rows == W.Rows(x)
  {
    rows := if x.extended then table[0 := Row(0, 0, 0, 0, 0, |table|, |table| - 1, 0)] else table;
  }

  method PackSegments(x: W.Input) returns (r: Option<seq<Byte>>)
    ensures r.Some? <==> AllFit(SegmentLayout(x.is64), W.SegmentRecords(x))
    ensures r.Some? ==> r.value == Records(x.big, SegmentLayout(x.is64), W.SegmentRecords(x))
  {
    var recs: seq<seq<nat>> := [];
    for i := 0 to |x.segments|
      invariant recs == W.SegmentRecords(x)[..i]
    {
      recs := recs + [SegmentFields(x.is64, x.segments[i])];
    }
    assert W.SegmentRecords(x)[..|x.segments|] == W.SegmentRecords(x);
    r := PackRecords(x.big, SegmentLayout(x.is64), recs);
  }

  method PackRows(x: W.Input, table: seq<Row>) returns (r: Option<seq<Byte>>)
    requires table == W.Rows(x)
    ensures r.Some? <==> AllFit(RowLayout(x.is64), W.RowRecords(x))
    ensures r.Some? ==> r.value == Records(x.big, RowLayout(x.is64), W.RowRecords(x))
  {
    hide W.Rows, Records, AllFit;
    var recs: seq<seq<nat>> := [];
    for i := 0 to |table|
      invariant recs == W.RowRecords(x)[..i]
    {
      recs := recs + [RowFields(table[i])];
    }
    assert W.RowRecords(x)[..|table|] == W.RowRecords(x);
    r := PackRecords(x.big, RowLayout(x.is64), recs);
  }

  // ---------------------------------------------------------------------
  // Reading
  // ---------------------------------------------------------------------

  method FindNul(data: seq<Byte>, start: nat, end: nat) returns (r: Option<nat>)
    requires start <= end <= |data|
    ensures r == R.FindNul(data, start, end)
  {
    var i := start;
    while i < end
      invariant start <= i <= end
      invariant R.FindNul(data, start, end) == R.FindNul(data, i, end)
    {
      if data[i] == 0 {
        return Some(i);
      }
      i := i + 1;
    }
    return None;
  }

  method StringAt(data: seq<Byte>, table: Row, offset: nat) returns (r: R.Result<Name>)
    ensures r == R.StringAt(data, table, offset)
  {
    var size := if table.kind == SHT_NOBITS then 0 else table.size;
    if table.offset + size > |data| && table.kind != SHT_NOBITS {
      return R.Err(R.Truncated);
    }
    if offset >= size {
      return R.Err(R.BadString);
    }
    var end := FindNul(data, table.offset + offset, table.offset + size);
    if end.None? {
      return R.Err(R.BadString);
    }
    return R.Ok(data[table.offset + offset..end.value]);
  }

  /** The records of one table, until one runs past the file. */
  method ReadTable(data: seq<Byte>, big: bool, ws: seq<nat>, base: nat, stride: nat, n: nat)
    returns (r: Option<seq<seq<nat>>>)
    ensures r == ReadRecords(data, big, ws, base, stride, n)
  {
    hide ReadRecord, Nth;
    var recs: seq<seq<nat>> := [];
    for i := 0 to n
      invariant ReadRecords(data, big, ws, base, stride, i) == Some(recs)
    {
      var rec := ReadRecord(data, big, ws, Nth(base, stride, i));
      if rec.None? {
        MissingStays(data, big, ws, base, stride, i + 1, n);
        return None;
      }
      recs := recs + [rec.value];
    }
    return Some(recs);
  }

  lemma {:induction false} MissingStays(data: seq<Byte>, big: bool, ws: seq<nat>,
                                        base: nat, stride: nat, m: nat, n: nat)
    requires m <= n && ReadRecords(data, big, ws, base, stride, m).None?
    ensures ReadRecords(data, big, ws, base, stride, n).None?
  {
    if m < n {
      MissingStays(data, big, ws, base, stride, m, n - 1);
    }
  }

  method NameRows(data: seq<Byte>, rows: seq<Row>, table: Row) returns (r: R.Result<seq<R.Named>>)
    ensures r == R.NameRows(data, rows, table, |rows|)
  {
    hide R.StringAt;
    var named: seq<R.Named> := [];
    for i := 0 to |rows|
      invariant R.NameRows(data, rows, table, i) == R.Ok(named)
    {
      var name := StringAt(data, table, rows[i].name);
      if name.Err? {
        ErrorStays(data, rows, table, i + 1, |rows|);
        return R.Err(name.error);
      }
      named := named + [R.Named(name.value, rows[i])];
    }
    return R.Ok(named);
  }

  lemma {:induction false} ErrorStays(data: seq<Byte>, rows: seq<Row>, table: Row, m: nat, n: nat)
    requires m <= n <= |rows| && R.NameRows(data, rows, table, m).Err?
    ensures R.NameRows(data, rows, table, n) == R.NameRows(data, rows, table, m)
  {
    if m < n {
      ErrorStays(data, rows, table, m, n - 1);
    }
  }

  /** The constructor of `Elf`. */
  method ReadElf(data: seq<Byte>) returns (r: R.Result<R.Elf>)
    ensures r == R.Read(data)
  {
    hide ReadRecord, ReadRecords, R.NameRows;
    if |data| < 4 || data[..4] != MAGIC {
      return R.Err(R.NotElf);
    }
    if |data| < 6 {
      return R.Err(R.Crash);
    }
    if data[4] !in [1, 2] || data[5] !in [1, 2] {
      return R.Err(R.Unsupported);
    }
    var is64, big := data[4] == 2, data[5] == 2;
    var header := ReadRecord(data, big, HeaderLayout(is64), 16);
    if header.None? {
      return R.Err(R.Truncated);
    }
    var h := header.value;
    var sections := ReadSections(data, is64, big, h[5], h[10], h[11], h[12]);
    if sections.Err? {
      return R.Err(sections.error);
    }
    var segments := ReadSegments(data, is64, big, h[4], h[8], h[9]);
    if segments.Err? {
      return R.Err(segments.error);
    }
    return R.Ok(R.Elf(is64, big, h[0], h[1], sections.value, segments.value));
  }

  method ReadSections(data: seq<Byte>, is64: bool, big: bool, shoff: nat, shentsize: nat, shnum: nat, shstrndx: nat)
    returns (r: R.Result<seq<R.Named>>)
    ensures r == R.ReadSections(data, is64, big, shoff, shentsize, shnum, shstrndx)
  {
    hide ReadRecord, ReadRecords, R.NameRows;
    if shoff == 0 {
      return R.Ok([]);
    }
    var first := ReadRecord(data, big, RowLayout(is64), shoff);
    if first.None? {
      return R.Err(R.Truncated);
    }
    var count := if shnum != 0 then shnum else first.value[5];
    var index := if shstrndx == SHN_XINDEX then first.value[6] else shstrndx;
    var recs := ReadTable(data, big, RowLayout(is64), shoff, shentsize, count);
    if recs.None? {
      return R.Err(R.Truncated);
    }
    var rows := R.RowsOf(recs.value);
    if rows == [] {
      return R.Ok([]);
    }
    if !(0 < index < |rows|) {
      return R.Err(R.NoNameTable);
    }
    r := NameRows(data, rows, rows[index]);
  }

  method ReadSegments(data: seq<Byte>, is64: bool, big: bool, phoff: nat, phentsize: nat, phnum: nat)
    returns (r: R.Result<seq<Segment>>)
    ensures r == R.ReadSegments(data, is64, big, phoff, phentsize, phnum)
  {
    hide ReadRecord, ReadRecords;
    if phoff == 0 {
      return R.Ok([]);
    }
    var recs := ReadTable(data, big, SegmentLayout(is64), phoff, phentsize, phnum);
    if recs.None? {
      return R.Err(R.Truncated);
    }
    return R.Ok(R.SegmentsOf(is64, recs.value));
  }

  /** `Elf.symbols`: a dictionary filled table by table, entry by entry. */
  method ReadSymbols(data: seq<Byte>, e: R.Elf) returns (r: R.Result<map<Name, nat>>)
    ensures r == R.Symbols(data, e)
  {
    hide R.TableSymbols;
    var found: map<Name, nat> := map[];
    for i := 0 to |e.sections|
      invariant R.SymbolsUpTo(data, e, i) == R.Ok(found)
    {
      var row := e.sections[i].row;
      if row.kind == SHT_SYMTAB {
        if row.link >= |e.sections| {
          SymbolErrorStays(data, e, i + 1, |e.sections|);
          return R.Err(R.Crash);
        }
        r := ReadEntries(data, e, row, e.sections[row.link].row, row.size / SymbolSize(e.is64), found);
        if r.Err? {
          SymbolErrorStays(data, e, i + 1, |e.sections|);
          return r;
        }
        found := r.value;
      }
    }
    return R.Ok(found);
  }

  lemma {:induction false} SymbolErrorStays(data: seq<Byte>, e: R.Elf, m: nat, n: nat)
    requires m <= n <= |e.sections| && R.SymbolsUpTo(data, e, m).Err?
    ensures R.SymbolsUpTo(data, e, n) == R.SymbolsUpTo(data, e, m)
  {
    hide R.TableSymbols;
    if m < n {
      SymbolErrorStays(data, e, m, n - 1);
    }
  }

  method ReadEntries(data: seq<Byte>, e: R.Elf, table: Row, strings: Row, n: nat, start: map<Name, nat>)
    returns (r: R.Result<map<Name, nat>>)
    ensures r == R.TableSymbols(data, e, table, strings, n, start)
  {
    hide ReadRecord, R.StringAt, Nth;
    var found := start;
    var ws := SymbolLayout(e.is64);
    for i := 0 to n
      invariant R.TableSymbols(data, e, table, strings, i, start) == R.Ok(found)
    {
      var rec := ReadRecord(data, e.big, ws, Nth(table.offset, Size(ws), i));
      if rec.None? {
        EntryErrorStays(data, e, table, strings, i + 1, n, start);
        return R.Err(R.Truncated);
      }
      var (name, value) := SymbolOf(e.is64, rec.value);
      if name != 0 {
        var text := StringAt(data, strings, name);
        if text.Err? {
          EntryErrorStays(data, e, table, strings, i + 1, n, start);
          return R.Err(text.error);
        }
        found := found[text.value := value];
      }
    }
    return R.Ok(found);
  }

  lemma {:induction false} EntryErrorStays(data: seq<Byte>, e: R.Elf, table: Row, strings: Row, m: nat, n: nat,
                                           start: map<Name, nat>)
    requires m <= n && R.TableSymbols(data, e, table, strings, m, start).Err?
    ensures R.TableSymbols(data, e, table, strings, n, start) == R.TableSymbols(data, e, table, strings, m, start)
  {
    hide ReadRecord, R.StringAt, Nth;
    if m < n {
      EntryErrorStays(data, e, table, strings, m, n - 1, start);
    }
  }
}
