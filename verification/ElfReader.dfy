/** The ELF reader, class `Elf` in tools/check_size.py. */
module ElfReader {

  import opened Common
  import opened Bytes
  import opened ElfFormat

  datatype Error = NotElf | Unsupported | Truncated | NoNameTable | BadString | Crash

  datatype Result<+T> = Ok(value: T) | Err(error: Error)

  /** A section header with the name it was given. */
  datatype Named = Named(name: Name, row: Row)

  datatype Elf = Elf(is64: bool, big: bool, elfType: nat, machine: nat, sections: seq<Named>, segments: seq<Segment>)

  // ---------------------------------------------------------------------
  // Strings
  // ---------------------------------------------------------------------

  /** The first zero byte in data[start..end]. */
  function FindNul(data: seq<Byte>, start: nat, end: nat): (r: Option<nat>)
    requires start <= end <= |data|
    ensures r.Some? ==> start <= r.value < end && data[r.value] == 0 && 0 !in data[start..r.value]
    ensures r.None? ==> 0 !in data[start..end]
    decreases end - start
  {
    if start == end then None
    else if data[start] == 0 then Some(start)
    else FindNul(data, start + 1, end)
  }

  function StringAt(data: seq<Byte>, table: Row, offset: nat): Result<Name> {
    var size := if table.kind == SHT_NOBITS then 0 else table.size;
    if table.offset + size > |data| && table.kind != SHT_NOBITS then Err(Truncated)
    else if offset >= size then Err(BadString)
    else
      var end := FindNul(data, table.offset + offset, table.offset + size);
      if end.None? then Err(BadString) else Ok(data[table.offset + offset..end.value])
  }

  // ---------------------------------------------------------------------
  // Sections, segments, symbols
  // ---------------------------------------------------------------------

  /** Names the first `n` rows. */
  function NameRows(data: seq<Byte>, rows: seq<Row>, table: Row, n: nat): (r: Result<seq<Named>>)
    requires n <= |rows|
  {
    if n == 0 then Ok([]) else
      var before := NameRows(data, rows, table, n - 1);
      var name := StringAt(data, table, rows[n - 1].name);
      if before.Err? then before
      else if name.Err? then Err(name.error)
      else Ok(before.value + [Named(name.value, rows[n - 1])])
  }

  function RowsOf(recs: seq<seq<nat>>): (rows: seq<Row>)
    requires forall i :: 0 <= i < |recs| ==> |recs[i]| == 10
    ensures |rows| == |recs|
  {
    seq(|recs|, i requires 0 <= i < |recs| => RowOf(recs[i]))
  }

  function ReadSections(data: seq<Byte>, is64: bool, big: bool, shoff: nat, shentsize: nat, shnum: nat, shstrndx: nat)
    : Result<seq<Named>>
  {
    if shoff == 0 then Ok([]) else
      var first := ReadRecord(data, big, RowLayout(is64), shoff);
      if first.None? then Err(Truncated) else
        var count := if shnum != 0 then shnum else first.value[5];
        var index := if shstrndx == SHN_XINDEX then first.value[6] else shstrndx;
        var recs := ReadRecords(data, big, RowLayout(is64), shoff, shentsize, count);
        if recs.None? then Err(Truncated) else
          var rows := RowsOf(recs.value);
          if rows == [] then Ok([])
          else if !(0 < index < |rows|) then Err(NoNameTable)
          else NameRows(data, rows, rows[index], |rows|)
  }

  function SegmentsOf(is64: bool, recs: seq<seq<nat>>): (segments: seq<Segment>)
    requires forall i :: 0 <= i < |recs| ==> |recs[i]| == 8
    ensures |segments| == |recs|
  {
    seq(|recs|, i requires 0 <= i < |recs| => SegmentOf(is64, recs[i]))
  }

  function ReadSegments(data: seq<Byte>, is64: bool, big: bool, phoff: nat, phentsize: nat, phnum: nat)
    : Result<seq<Segment>>
  {
    if phoff == 0 then Ok([]) else
      var recs := ReadRecords(data, big, SegmentLayout(is64), phoff, phentsize, phnum);
      if recs.None? then Err(Truncated) else Ok(SegmentsOf(is64, recs.value))
  }

  function Read(data: seq<Byte>): Result<Elf> {
    if |data| < 4 || data[..4] != MAGIC then Err(NotElf)
    else if |data| < 6 then Err(Crash)
    else if data[4] !in [1, 2] || data[5] !in [1, 2] then Err(Unsupported)
    else
      var is64, big := data[4] == 2, data[5] == 2;
      var header := ReadRecord(data, big, HeaderLayout(is64), 16);
      if header.None? then Err(Truncated) else
        var h := header.value;
        var sections := ReadSections(data, is64, big, h[5], h[10], h[11], h[12]);
        var segments := ReadSegments(data, is64, big, h[4], h[8], h[9]);
        if sections.Err? then Err(sections.error)
        else if segments.Err? then Err(segments.error)
        else Ok(Elf(is64, big, h[0], h[1], sections.value, segments.value))
  }

  /** The first `n` entries of one symbol table added to `found`. */
  function TableSymbols(data: seq<Byte>, e: Elf, table: Row, strings: Row, n: nat, found: map<Name, nat>)
    : Result<map<Name, nat>>
  {
    if n == 0 then Ok(found) else
      var before := TableSymbols(data, e, table, strings, n - 1, found);
      if before.Err? then before else
        var ws := SymbolLayout(e.is64);
        var rec := ReadRecord(data, e.big, ws, Nth(table.offset, Size(ws), n - 1));
        if rec.None? then Err(Truncated) else
          var (name, value) := SymbolOf(e.is64, rec.value);
          if name == 0 then before else
            var text := StringAt(data, strings, name);
            if text.Err? then Err(text.error) else Ok(before.value[text.value := value])
  }

  /** The symbols of the first `n` sections. */
  function SymbolsUpTo(data: seq<Byte>, e: Elf, n: nat): Result<map<Name, nat>>
    requires n <= |e.sections|
  {
    if n == 0 then Ok(map[]) else
      var before := SymbolsUpTo(data, e, n - 1);
      var row := e.sections[n - 1].row;
      if before.Err? || row.kind != SHT_SYMTAB then before
      else if row.link >= |e.sections| then Err(Crash)
      else TableSymbols(data, e, row, e.sections[row.link].row, row.size / SymbolSize(e.is64), before.value)
  }

  function Symbols(data: seq<Byte>, e: Elf): Result<map<Name, nat>> {
    SymbolsUpTo(data, e, |e.sections|)
  }
}
