/**
 The ELF layout shared by the size tool's reader and its synthetic writer
 (tools/check_size.py): the ELF header, section headers, program headers and
 symbol table entries of chapters 4 and 5 of the System V gABI, in both word
 sizes and both byte orders.
 */
module ElfFormat {

  import opened Common
  import opened Bytes

  const SHT_PROGBITS := 1
  const SHT_SYMTAB := 2
  const SHT_STRTAB := 3
  const SHT_NOBITS := 8
  const SHN_XINDEX := 0xFFFF
  const SHN_ABS := 0xFFF1

  const MAGIC: seq<Byte> := [0x7f, 0x45, 0x4c, 0x46]

  /** One section header. */
  datatype Row = Row(name: nat, kind: nat, flags: nat, addr: nat, offset: nat, size: nat, link: nat, entsize: nat)

  datatype Segment = Segment(kind: nat, vaddr: nat, paddr: nat, filesz: nat, memsz: nat)

  /** The header after its 16 identification bytes: type, machine, version,
      entry, phoff, shoff, flags, ehsize, phentsize, phnum, shentsize, shnum,
      shstrndx. */
  function HeaderLayout(is64: bool): seq<nat> {
    if is64 then [2, 2, 4, 8, 8, 8, 4, 2, 2, 2, 2, 2, 2] else [2, 2, 4, 4, 4, 4, 4, 2, 2, 2, 2, 2, 2]
  }

  function RowLayout(is64: bool): seq<nat> {
    if is64 then [4, 4, 8, 8, 8, 8, 4, 4, 8, 8] else [4, 4, 4, 4, 4, 4, 4, 4, 4, 4]
  }

  function SegmentLayout(is64: bool): seq<nat> {
    if is64 then [4, 4, 8, 8, 8, 8, 8, 8] else [4, 4, 4, 4, 4, 4, 4, 4]
  }

  function SymbolLayout(is64: bool): seq<nat> {
    if is64 then [4, 1, 1, 2, 8, 8] else [4, 4, 4, 1, 1, 2]
  }

  function SymbolSize(is64: bool): nat {
    if is64 then 24 else 16
  }

  function RowFields(r: Row): (f: seq<nat>)
    ensures |f| == 10 && RowOf(f) == r
  {
    [r.name, r.kind, r.flags, r.addr, r.offset, r.size, r.link, 0, 1, r.entsize]
  }

  function RowOf(f: seq<nat>): Row
    requires |f| == 10
  {
    Row(f[0], f[1], f[2], f[3], f[4], f[5], f[6], f[9])
  }

  function SegmentFields(is64: bool, g: Segment): (f: seq<nat>)
    ensures |f| == 8 && SegmentOf(is64, f) == g
  {
    if is64 then [g.kind, 0, 0, g.vaddr, g.paddr, g.filesz, g.memsz, 0]
    else [g.kind, 0, g.vaddr, g.paddr, g.filesz, g.memsz, 0, 0]
  }

  function SegmentOf(is64: bool, f: seq<nat>): Segment
    requires |f| == 8
  {
    if is64 then Segment(f[0], f[3], f[4], f[5], f[6]) else Segment(f[0], f[2], f[3], f[4], f[5])
  }

  function SymbolFields(is64: bool, name: nat, value: nat): (f: seq<nat>)
    ensures |f| == 6 && SymbolOf(is64, f) == (name, value)
  {
    if is64 then [name, 0, 0, SHN_ABS, value, 0] else [name, value, 0, 0, 0, SHN_ABS]
  }

  function SymbolOf(is64: bool, f: seq<nat>): (nat, nat)
    requires |f| == 6
  {
    if is64 then (f[0], f[4]) else (f[0], f[1])
  }

  lemma LayoutSizes(is64: bool)
    ensures |HeaderLayout(is64)| == 13 && Size(HeaderLayout(is64)) == if is64 then 48 else 36
    ensures |RowLayout(is64)| == 10 && Size(RowLayout(is64)) == if is64 then 64 else 40
    ensures |SegmentLayout(is64)| == 8 && Size(SegmentLayout(is64)) == if is64 then 56 else 32
    ensures |SymbolLayout(is64)| == 6 && Size(SymbolLayout(is64)) == if is64 then 24 else 16
  {
    hide Size;
    SizeOfEight(HeaderLayout(is64));
    SizeOfEight(HeaderLayout(is64)[8..]);
    SizeOfEight(RowLayout(is64));
    SizeOfEight(RowLayout(is64)[8..]);
    SizeOfEight(SegmentLayout(is64));
    SizeOfEight(SymbolLayout(is64));
  }

  lemma SizeOfEight(ws: seq<nat>)
    ensures |ws| == 8 ==> Size(ws) == ws[0] + ws[1] + ws[2] + ws[3] + ws[4] + ws[5] + ws[6] + ws[7]
    ensures |ws| >= 8 ==> Size(ws) == ws[0] + ws[1] + ws[2] + ws[3] + ws[4] + ws[5] + ws[6] + ws[7] + Size(ws[8..])
    ensures |ws| == 6 ==> Size(ws) == ws[0] + ws[1] + ws[2] + ws[3] + ws[4] + ws[5]
    ensures |ws| == 5 ==> Size(ws) == ws[0] + ws[1] + ws[2] + ws[3] + ws[4]
    ensures |ws| == 2 ==> Size(ws) == ws[0] + ws[1]
  {
    if |ws| >= 2 {
      assert Size(ws) == ws[0] + ws[1] + Size(ws[2..]);
      if |ws| >= 5 {
        assert Size(ws[2..]) == ws[2] + ws[3] + Size(ws[4..]);
        assert Size(ws[4..]) == ws[4] + Size(ws[5..]);
        if |ws| >= 6 {
          assert Size(ws[5..]) == ws[5] + Size(ws[6..]);
          if |ws| >= 8 {
            assert Size(ws[6..]) == ws[6] + ws[7] + Size(ws[8..]);
          }
        }
      }
    }
  }

  // ---------------------------------------------------------------------
  // Tables of records
  // ---------------------------------------------------------------------

  predicate SameLength(ws: seq<nat>, recs: seq<seq<nat>>) {
    forall i :: 0 <= i < |recs| ==> |recs[i]| == |ws|
  }

  predicate AllFit(ws: seq<nat>, recs: seq<seq<nat>>) {
    SameLength(ws, recs) && forall i :: 0 <= i < |recs| ==> Fits(ws, recs[i])
  }

  /** Records of one layout, one after another. */
  function Records(big: bool, ws: seq<nat>, recs: seq<seq<nat>>): (s: seq<Byte>)
    requires SameLength(ws, recs)
    ensures |s| == |recs| * Size(ws)
  {
    if recs == [] then [] else
      assert |recs| * Size(ws) == (|recs| - 1) * Size(ws) + Size(ws);
      Records(big, ws, recs[..|recs| - 1]) + PackAll(big, ws, recs[|recs| - 1])
  }

  /** Where record `i` of a table starts. */
  function Nth(base: nat, stride: nat, i: nat): nat {
    base + i * stride
  }

  /** The record at `offset`, or none when it runs past the file. */
  function ReadRecord(data: seq<Byte>, big: bool, ws: seq<nat>, offset: nat): (r: Option<seq<nat>>)
    ensures r.Some? ==> |r.value| == |ws|
  {
    if offset + Size(ws) > |data| then None
    else Some(UnpackAll(big, ws, data[offset..offset + Size(ws)]))
  }

  /** `n` records, `stride` bytes apart; none as soon as one runs past the file. */
  function ReadRecords(data: seq<Byte>, big: bool, ws: seq<nat>, base: nat, stride: nat, n: nat)
    : (r: Option<seq<seq<nat>>>)
    ensures r.Some? ==> |r.value| == n && forall i :: 0 <= i < n ==> |r.value[i]| == |ws|
  {
    if n == 0 then Some([]) else
      var before := ReadRecords(data, big, ws, base, stride, n - 1);
      var last := ReadRecord(data, big, ws, Nth(base, stride, n - 1));
      if before.None? || last.None? then None else Some(before.value + [last.value])
  }

  lemma ReadRecordAt(data: seq<Byte>, big: bool, ws: seq<nat>, offset: nat, rec: seq<nat>)
    requires Fits(ws, rec) && At(data, offset, PackAll(big, ws, rec))
    ensures ReadRecord(data, big, ws, offset) == Some(rec)
  {
    UnpackAllPackAll(big, ws, rec);
  }

  lemma ReadOneMore(data: seq<Byte>, big: bool, ws: seq<nat>, base: nat, stride: nat,
                    recs: seq<seq<nat>>, last: seq<nat>)
    requires ReadRecords(data, big, ws, base, stride, |recs|) == Some(recs)
    requires ReadRecord(data, big, ws, Nth(base, stride, |recs|)) == Some(last)
    ensures ReadRecords(data, big, ws, base, stride, |recs| + 1) == Some(recs + [last])
  {
  }

  lemma RecordsSplit(data: seq<Byte>, big: bool, ws: seq<nat>, base: nat, front: seq<seq<nat>>, last: seq<nat>)
    requires SameLength(ws, front) && |last| == |ws| && SameLength(ws, front + [last])
    requires At(data, base, Records(big, ws, front + [last]))
    ensures At(data, base, Records(big, ws, front))
    ensures At(data, Nth(base, Size(ws), |front|), PackAll(big, ws, last))
  {
    var recs := front + [last];
    assert recs[..|recs| - 1] == front;
    AtSplit(data, base, Records(big, ws, front), PackAll(big, ws, last));
  }

  /** Reading back a table of records returns the records. */
  lemma {:induction false} ReadRecordsAt(data: seq<Byte>, big: bool, ws: seq<nat>, base: nat, recs: seq<seq<nat>>)
    requires AllFit(ws, recs)
    requires At(data, base, Records(big, ws, recs))
    ensures ReadRecords(data, big, ws, base, Size(ws), |recs|) == Some(recs)
  {
    if recs != [] {
      hide Fits, Size, At, PackAll, Records, ReadRecord, ReadRecords, Nth;
      var front, last := recs[..|recs| - 1], recs[|recs| - 1];
      assert recs == front + [last];
      RecordsSplit(data, big, ws, base, front, last);
      ReadRecordsAt(data, big, ws, base, front);
      ReadRecordAt(data, big, ws, Nth(base, Size(ws), |front|), last);
      ReadOneMore(data, big, ws, base, Size(ws), front, last);
    }
  }
}
