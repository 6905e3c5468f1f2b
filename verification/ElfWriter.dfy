/**
 The synthetic ELF writer, `build_elf` in tools/check_size.py: the tables it
 builds and the file it concatenates from them.
 */
module ElfWriter {

  import opened Common
  import opened Bytes
  import opened ElfFormat

  /** A section asked for by the caller. */
  datatype Section = Section(name: Name, kind: nat, flags: nat, size: nat, entsize: nat)

  datatype Input = Input(sections: seq<Section>, segments: seq<Segment>, symbols: seq<(Name, nat)>,
                         comment: Option<seq<Name>>, is64: bool, big: bool, machine: nat, elfType: nat,
                         extended: bool)

  const COMMENT: Name := [0x2e, 0x63, 0x6f, 0x6d, 0x6d, 0x65, 0x6e, 0x74]
  const SYMTAB: Name := [0x2e, 0x73, 0x79, 0x6d, 0x74, 0x61, 0x62]
  const STRTAB: Name := [0x2e, 0x73, 0x74, 0x72, 0x74, 0x61, 0x62]
  const SHSTRTAB: Name := [0x2e, 0x73, 0x68, 0x73, 0x74, 0x72, 0x74, 0x61, 0x62]

  function HeaderSize(is64: bool): nat { if is64 then 64 else 52 }
  function SegmentSize(is64: bool): nat { if is64 then 56 else 32 }
  function RowSize(is64: bool): nat { if is64 then 64 else 40 }
  /** The comment strings, each followed by a zero byte. */
  function CommentBlob(x: Input): seq<Byte> {
    if x.comment.None? then [] else Joined(x.comment.value)
  }

  /** The strings with a zero byte between them, and one at the end. */
  function Joined(strings: seq<Name>): seq<Byte> {
    if strings == [] then [0]
    else if |strings| == 1 then strings[0] + [0]
    else strings[0] + [0] + Joined(strings[1..])
  }

  function SymbolNames(x: Input): (r: seq<Name>)
    ensures |r| == |x.symbols|
  {
    seq(|x.symbols|, i requires 0 <= i < |x.symbols| => x.symbols[i].0)
  }

  /** The null entry, then one entry a symbol. */
  function SymbolRecords(x: Input): (r: seq<seq<nat>>)
    ensures |r| == |x.symbols| + 1 && SameLength(SymbolLayout(x.is64), r)
  {
    seq(|x.symbols| + 1, i requires 0 <= i < |x.symbols| + 1 =>
      if i == 0 then [0, 0, 0, 0, 0, 0]
      else SymbolFields(x.is64, OffsetOf(SymbolNames(x), i - 1), x.symbols[i - 1].1))
  }

  function SymbolBlob(x: Input): seq<Byte> {
    if x.symbols == [] then [] else Records(x.big, SymbolLayout(x.is64), SymbolRecords(x))
  }

  function StringBlob(x: Input): seq<Byte> {
    if x.symbols == [] then [] else Table(SymbolNames(x))
  }

  function Blobs(x: Input): seq<Byte> {
    CommentBlob(x) + SymbolBlob(x) + StringBlob(x)
  }

  function DataStart(x: Input): nat {
    HeaderSize(x.is64) + SegmentSize(x.is64) * |x.segments|
  }

  // ---------------------------------------------------------------------
  // The section headers
  // ---------------------------------------------------------------------

  function SectionNames(x: Input): (r: seq<Name>)
    ensures |r| == |x.sections|
  {
    seq(|x.sections|, i requires 0 <= i < |x.sections| => x.sections[i].name)
  }

  /** The names of every section but the null one, in table order. */
  function Names(x: Input): seq<Name> {
    SectionNames(x)
    + (if x.comment.None? then [] else [COMMENT])
    + (if x.symbols == [] then [] else [SYMTAB, STRTAB])
    + [SHSTRTAB]
  }

  /** Everything in a row but its name. */
  function UserRow(s: Section): Row {
    Row(0, s.kind, s.flags, 0, 0, s.size, 0, s.entsize)
  }

  function CommentRow(x: Input): Row {
    Row(0, SHT_PROGBITS, 0, 0, DataStart(x), |CommentBlob(x)|, 0, 0)
  }

  function SymtabRow(x: Input): Row {
    Row(0, SHT_SYMTAB, 0, 0, DataStart(x) + |CommentBlob(x)|, |SymbolBlob(x)|,
        |x.sections| + (if x.comment.None? then 0 else 1) + 2, SymbolSize(x.is64))
  }

  function StrtabRow(x: Input): Row {
    Row(0, SHT_STRTAB, 0, 0, DataStart(x) + |CommentBlob(x)| + |SymbolBlob(x)|, |StringBlob(x)|, 0, 0)
  }

  function ShstrtabRow(x: Input): Row {
    Row(0, SHT_STRTAB, 0, 0, DataStart(x) + |Blobs(x)|, |Table(Names(x))|, 0, 0)
  }

  function Bodies(x: Input): (r: seq<Row>)
    ensures |r| == |Names(x)|
  {
    seq(|x.sections|, i requires 0 <= i < |x.sections| => UserRow(x.sections[i]))
    + (if x.comment.None? then [] else [CommentRow(x)])
    + (if x.symbols == [] then [] else [SymtabRow(x), StrtabRow(x)])
    + [ShstrtabRow(x)]
  }

  /** Extended numbering keeps the counts that do not fit the header in row 0. */
  function NullRow(x: Input): Row {
    if x.extended then Row(0, 0, 0, 0, 0, |Names(x)| + 1, |Names(x)|, 0) else Row(0, 0, 0, 0, 0, 0, 0, 0)
  }

  function Rows(x: Input): (r: seq<Row>)
    ensures |r| == |Names(x)| + 1
  {
    [NullRow(x)] + seq(|Names(x)|, i requires 0 <= i < |Names(x)| =>
      Bodies(x)[i].(name := OffsetOf(Names(x), i)))
  }

  function RowRecords(x: Input): (r: seq<seq<nat>>)
    ensures |r| == |Rows(x)| && SameLength(RowLayout(x.is64), r)
    ensures forall i :: 0 <= i < |r| ==> |r[i]| == 10 && RowOf(r[i]) == Rows(x)[i]
  {
    seq(|Rows(x)|, i requires 0 <= i < |Rows(x)| => RowFields(Rows(x)[i]))
  }

  function SegmentRecords(x: Input): (r: seq<seq<nat>>)
    ensures |r| == |x.segments| && SameLength(SegmentLayout(x.is64), r)
    ensures forall i :: 0 <= i < |r| ==> |r[i]| == 8 && SegmentOf(x.is64, r[i]) == x.segments[i]
  {
    seq(|x.segments|, i requires 0 <= i < |x.segments| => SegmentFields(x.is64, x.segments[i]))
  }

  // ---------------------------------------------------------------------
  // The file
  // ---------------------------------------------------------------------

  function Ident(x: Input): (s: seq<Byte>)
    ensures |s| == 16
  {
    MAGIC + [if x.is64 then 2 else 1, if x.big then 2 else 1, 1] + [0, 0, 0, 0, 0, 0, 0, 0, 0]
  }

  function SectionsOffset(x: Input): nat {
    DataStart(x) + |Blobs(x)| + |Table(Names(x))|
  }

  function HeaderRecord(x: Input): (r: seq<nat>)
    ensures |r| == 13
  {
    HeaderFields(x.elfType, x.machine, if x.segments == [] then 0 else HeaderSize(x.is64), SectionsOffset(x),
                 x.is64, |x.segments|, if x.extended then 0 else |Names(x)| + 1,
                 if x.extended then SHN_XINDEX else |Names(x)|)
  }

  function HeaderFields(elfType: nat, machine: nat, phoff: nat, shoff: nat, is64: bool, phnum: nat, shnum: nat,
                        shstrndx: nat): (r: seq<nat>)
    ensures |r| == 13
  {
    [elfType, machine, 1, 0, phoff, shoff, 0, HeaderSize(is64), SegmentSize(is64), phnum, RowSize(is64), shnum,
     shstrndx]
  }

  /** Every field packed holds its value; otherwise packing raises an error and
      there is no file. */
  predicate Representable(x: Input) {
    && Fits(HeaderLayout(x.is64), HeaderRecord(x))
    && AllFit(SegmentLayout(x.is64), SegmentRecords(x))
    && AllFit(RowLayout(x.is64), RowRecords(x))
    && (x.symbols != [] ==> AllFit(SymbolLayout(x.is64), SymbolRecords(x)))
  }

  function File(x: Input): seq<Byte> {
    Ident(x)
    + PackAll(x.big, HeaderLayout(x.is64), HeaderRecord(x))
    + Records(x.big, SegmentLayout(x.is64), SegmentRecords(x))
    + Blobs(x)
    + Table(Names(x))
    + Records(x.big, RowLayout(x.is64), RowRecords(x))
  }
}
