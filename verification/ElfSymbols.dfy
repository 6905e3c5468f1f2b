/** Reading back the symbol table the synthetic writer produced. */
module ElfSymbols {

  import opened Common
  import opened Bytes
  import opened ElfFormat
  import opened ElfRoundTrip
  import Arith
  import W = ElfWriter
  import R = ElfReader

  /** The caller's symbols as a dictionary; a later one of the same name wins. */
  function Dictionary(symbols: seq<(Name, nat)>): map<Name, nat> {
    if symbols == [] then map[]
    else
      var last := symbols[|symbols| - 1];
      Dictionary(symbols[..|symbols| - 1])[UpToNul(last.0) := last.1]
  }

  /** Distinct names without zero bytes all come back with their own values. */
  lemma {:induction false} DictionaryHolds(symbols: seq<(Name, nat)>, i: nat)
    requires i < |symbols| && forall k :: 0 <= k < |symbols| ==> 0 !in symbols[k].0
    requires forall j, k :: 0 <= j < k < |symbols| ==> symbols[j].0 != symbols[k].0
    ensures symbols[i].0 in Dictionary(symbols) && Dictionary(symbols)[symbols[i].0] == symbols[i].1
  {
    var n := |symbols| - 1;
    if i < n {
      DictionaryHolds(symbols[..n], i);
      assert symbols[..n][i] == symbols[i];
    }
  }

  lemma {:induction false} DictionaryOnly(symbols: seq<(Name, nat)>, name: Name)
    requires name in Dictionary(symbols)
    ensures exists k :: 0 <= k < |symbols| && name == UpToNul(symbols[k].0)
  {
    var n := |symbols| - 1;
    if name != UpToNul(symbols[n].0) {
      DictionaryOnly(symbols[..n], name);
      var k :| 0 <= k < |symbols[..n]| && name == UpToNul(symbols[..n][k].0);
      assert symbols[k] == symbols[..n][k];
    }
  }

  // ---------------------------------------------------------------------
  // One symbol table
  // ---------------------------------------------------------------------

  lemma {:induction false} RecordRead(data: seq<Byte>, big: bool, ws: seq<nat>, base: nat, recs: seq<seq<nat>>, i: nat)
    requires AllFit(ws, recs) && i < |recs| && At(data, base, Records(big, ws, recs))
    ensures ReadRecord(data, big, ws, Nth(base, Size(ws), i)) == Some(recs[i])
  {
    hide Fits, Size, At, PackAll, Records, ReadRecord, Nth;
    var front, last := recs[..|recs| - 1], recs[|recs| - 1];
    assert recs == front + [last];
    RecordsSplit(data, big, ws, base, front, last);
    if i == |front| {
      ReadRecordAt(data, big, ws, Nth(base, Size(ws), |front|), last);
    } else {
      RecordRead(data, big, ws, base, front, i);
    }
  }

  /** Where the symbol entries and their strings lie. */
  predicate SymbolsAt(x: W.Input, data: seq<Byte>, table: Row, strings: Row) {
    && At(data, table.offset, Records(x.big, SymbolLayout(x.is64), W.SymbolRecords(x)))
    && Describes(data, strings, W.SymbolNames(x))
  }

  lemma EntryRead(x: W.Input, data: seq<Byte>, table: Row, strings: Row, i: nat)
    requires AllFit(SymbolLayout(x.is64), W.SymbolRecords(x)) && SymbolsAt(x, data, table, strings)
    requires i < |x.symbols|
    ensures var ws := SymbolLayout(x.is64);
            var rec := ReadRecord(data, x.big, ws, Nth(table.offset, Size(ws), i + 1));
            && rec.Some? && |rec.value| == 6
            && var (name, value) := SymbolOf(x.is64, rec.value);
               && name != 0 && value == x.symbols[i].1
               && R.StringAt(data, strings, name) == R.Ok(UpToNul(x.symbols[i].0))
  {
    hide At, Records, ReadRecord, Nth, Size, R.StringAt, Describes, OffsetOf, AllFit;
    RecordRead(data, x.big, SymbolLayout(x.is64), table.offset, W.SymbolRecords(x), i + 1);
    assert W.SymbolRecords(x)[i + 1] == SymbolFields(x.is64, OffsetOf(W.SymbolNames(x), i), x.symbols[i].1);
    TableHolds(W.SymbolNames(x), i);
    StringRead(data, strings, W.SymbolNames(x), i);
  }

  lemma NullEntryRead(x: W.Input, data: seq<Byte>, table: Row, strings: Row)
    requires AllFit(SymbolLayout(x.is64), W.SymbolRecords(x)) && SymbolsAt(x, data, table, strings)
    ensures var ws := SymbolLayout(x.is64);
            var rec := ReadRecord(data, x.big, ws, Nth(table.offset, Size(ws), 0));
            rec.Some? && |rec.value| == 6 && SymbolOf(x.is64, rec.value).0 == 0
  {
    hide At, Records, ReadRecord, Nth, Size, AllFit;
    RecordRead(data, x.big, SymbolLayout(x.is64), table.offset, W.SymbolRecords(x), 0);
  }

  lemma {:induction false} TableRead(x: W.Input, data: seq<Byte>, e: R.Elf, table: Row, strings: Row, n: nat)
    requires AllFit(SymbolLayout(x.is64), W.SymbolRecords(x)) && SymbolsAt(x, data, table, strings)
    requires e.is64 == x.is64 && e.big == x.big && 0 < n <= |x.symbols| + 1
    ensures R.TableSymbols(data, e, table, strings, n, map[]) == R.Ok(Dictionary(x.symbols[..n - 1]))
  {
    hide AllFit, SymbolsAt, ReadRecord, Nth, Size, R.StringAt, SymbolLayout, SymbolOf;
    if n == 1 {
      NullEntryRead(x, data, table, strings);
      assert R.TableSymbols(data, e, table, strings, 0, map[]) == R.Ok(map[]);
      assert x.symbols[..0] == [];
    } else {
      TableRead(x, data, e, table, strings, n - 1);
      EntryRead(x, data, table, strings, n - 2);
      var front := x.symbols[..n - 1];
      assert front[..n - 2] == x.symbols[..n - 2] && front[n - 2] == x.symbols[n - 2];
    }
  }

  // ---------------------------------------------------------------------
  // All sections
  // ---------------------------------------------------------------------

  /** A section the caller marked as a symbol table holds no whole entry. */
  predicate Harmless(x: W.Input, s: W.Section) {
    s.kind == SHT_SYMTAB ==> s.size < SymbolSize(x.is64)
  }

  function CommentCount(x: W.Input): nat {
    if x.comment.None? then 0 else 1
  }

  lemma BlobsSplit(x: W.Input)
    ensures At(W.File(x), W.DataStart(x) + |W.CommentBlob(x)|, W.SymbolBlob(x))
    ensures At(W.File(x), W.DataStart(x) + |W.CommentBlob(x)| + |W.SymbolBlob(x)|, W.StringBlob(x))
  {
    hide W.File, At, W.DataStart, W.CommentBlob, W.SymbolBlob, W.StringBlob, W.Names, W.SectionsOffset, Records;
    FileLayout(x);
    var a, b, c := W.CommentBlob(x), W.SymbolBlob(x), W.StringBlob(x);
    AtSplit(W.File(x), W.DataStart(x), a + b, c);
    AtSplit(W.File(x), W.DataStart(x), a, b);
  }

  lemma WrittenTable(x: W.Input)
    requires x.symbols != []
    ensures SymbolsAt(x, W.File(x), W.SymtabRow(x), W.StrtabRow(x))
    ensures W.SymtabRow(x).size / SymbolSize(x.is64) == |x.symbols| + 1
  {
    hide W.File, At, W.DataStart, W.CommentBlob, Records, Table, Size, W.SymbolRecords;
    BlobsSplit(x);
    LayoutSizes(x.is64);
    var n, w := |x.symbols| + 1, SymbolSize(x.is64);
    assert W.SymtabRow(x).size == n * w;
    Arith.DivModUnique(n * w, w, n, 0);
  }

  lemma NamesLength(x: W.Input)
    ensures |W.Names(x)| == |x.sections| + CommentCount(x) + (if x.symbols == [] then 0 else 2) + 1
  {
  }

  /** A row with no entries leaves the symbols found so far alone. */
  lemma Skipped(data: seq<Byte>, e: R.Elf, n: nat, found: map<Name, nat>)
    requires n < |e.sections| && R.SymbolsUpTo(data, e, n) == R.Ok(found)
    requires var row := e.sections[n].row;
             row.kind == SHT_SYMTAB ==> row.size < SymbolSize(e.is64) && row.link < |e.sections|
    ensures R.SymbolsUpTo(data, e, n + 1) == R.Ok(found)
  {
    var row := e.sections[n].row;
    if row.kind == SHT_SYMTAB {
      assert row.size / SymbolSize(e.is64) == 0;
    }
  }

  lemma Taken(data: seq<Byte>, e: R.Elf, n: nat, found: map<Name, nat>)
    requires n < |e.sections| && R.SymbolsUpTo(data, e, n) == R.Ok(found)
    requires e.sections[n].row.kind == SHT_SYMTAB && e.sections[n].row.link < |e.sections|
    ensures var row := e.sections[n].row;
            R.SymbolsUpTo(data, e, n + 1) ==
            R.TableSymbols(data, e, row, e.sections[row.link].row, row.size / SymbolSize(e.is64), found)
  {
  }

  /** Where the written symbol table stands among the rows. */
  function TableIndex(x: W.Input): nat {
    |x.sections| + CommentCount(x) + 1
  }

  lemma ImageRow(x: W.Input, i: nat)
    requires i <= |W.Names(x)|
    ensures |Image(x).sections| == |W.Names(x)| + 1 && Image(x).sections[i].row == W.Rows(x)[i]
  {
    hide W.Names, W.Rows;
    assert AllExpected(x, |W.Names(x)| + 1)[i] == Expected(x, i);
  }

  /** No row but the written table has an entry to offer. */
  lemma OtherRow(x: W.Input, i: nat)
    requires i <= |W.Names(x)| && (x.symbols == [] || i != TableIndex(x))
    requires forall s :: s in x.sections ==> Harmless(x, s)
    ensures var row := W.Rows(x)[i];
            row.kind == SHT_SYMTAB ==> row.size < SymbolSize(x.is64) && row.link == 0
  {
    if i > 0 {
      hide W.Names, W.Rows, W.DataStart, W.Blobs, W.CommentBlob, W.SymbolBlob, W.StringBlob, Table;
      RowKinds(x, i - 1);
      var row := W.Rows(x)[i];
      assert row.kind == row.(name := 0).kind && row.size == row.(name := 0).size && row.link == row.(name := 0).link;
      if i - 1 < |x.sections| {
        assert x.sections[i - 1] in x.sections;
      }
    }
  }

  lemma {:induction false} SymbolsRead(x: W.Input, n: nat)
    requires W.Representable(x) && n <= |W.Names(x)| + 1
    requires forall s :: s in x.sections ==> Harmless(x, s)
    ensures |Image(x).sections| == |W.Names(x)| + 1
    ensures R.SymbolsUpTo(W.File(x), Image(x), n) ==
            R.Ok(if x.symbols != [] && n > TableIndex(x) then Dictionary(x.symbols) else map[])
  {
    hide W.Representable, W.File, W.Names, W.Rows, AllExpected, Dictionary, R.SymbolsUpTo, R.TableSymbols, SymbolsAt,
         W.SymtabRow, W.StrtabRow, AllFit;
    NamesLength(x);
    if n == 0 {
      ImageRow(x, 0);
      NoSections(W.File(x), Image(x));
    } else {
      SymbolsRead(x, n - 1);
      ImageRow(x, n - 1);
      if x.symbols != [] && n - 1 == TableIndex(x) {
        SymbolsFit(x);
        WrittenTable(x);
        TableRows(x);
        ImageRow(x, n);
        TableSection(x, W.File(x), Image(x), W.Rows(x)[n - 1], W.Rows(x)[n]);
        Taken(W.File(x), Image(x), n - 1, map[]);
      } else {
        OtherRow(x, n - 1);
        Skipped(W.File(x), Image(x), n - 1,
                if x.symbols != [] && n > TableIndex(x) then Dictionary(x.symbols) else map[]);
      }
    }
  }

  lemma NoSections(data: seq<Byte>, e: R.Elf)
    ensures R.SymbolsUpTo(data, e, 0) == R.Ok(map[])
  {
  }

  lemma SymbolsFit(x: W.Input)
    requires W.Representable(x) && x.symbols != []
    ensures AllFit(SymbolLayout(x.is64), W.SymbolRecords(x))
  {
  }

  lemma TableRows(x: W.Input)
    requires x.symbols != []
    ensures TableIndex(x) + 1 <= |W.Names(x)|
    ensures W.Rows(x)[TableIndex(x)].(name := 0) == W.SymtabRow(x)
    ensures W.Rows(x)[TableIndex(x) + 1].(name := 0) == W.StrtabRow(x)
  {
    hide W.Rows, W.Names, W.SymtabRow, W.StrtabRow, W.CommentRow, W.ShstrtabRow;
    NamesLength(x);
    RowKinds(x, TableIndex(x) - 1);
    RowKinds(x, TableIndex(x));
  }

  lemma TableSection(x: W.Input, data: seq<Byte>, e: R.Elf, row: Row, strings: Row)
    requires x.symbols != [] && AllFit(SymbolLayout(x.is64), W.SymbolRecords(x))
    requires SymbolsAt(x, data, W.SymtabRow(x), W.StrtabRow(x))
    requires W.SymtabRow(x).size / SymbolSize(x.is64) == |x.symbols| + 1
    requires e.is64 == x.is64 && e.big == x.big
    requires row.(name := 0) == W.SymtabRow(x) && strings.(name := 0) == W.StrtabRow(x)
    ensures row.kind == SHT_SYMTAB && row.link == TableIndex(x) + 1
    ensures R.TableSymbols(data, e, row, strings, row.size / SymbolSize(x.is64), map[]) == R.Ok(Dictionary(x.symbols))
  {
    hide SymbolsAt, AllFit, R.TableSymbols, Dictionary, W.DataStart, W.CommentBlob, W.SymbolBlob, W.StringBlob;
    assert row.kind == row.(name := 0).kind && row.size == row.(name := 0).size && row.link == row.(name := 0).link;
    SameTable(x, data, row, strings);
    TableRead(x, data, e, row, strings, |x.symbols| + 1);
    assert x.symbols[..|x.symbols|] == x.symbols;
  }

  lemma SameTable(x: W.Input, data: seq<Byte>, table: Row, strings: Row)
    requires SymbolsAt(x, data, W.SymtabRow(x), W.StrtabRow(x))
    requires table.(name := 0) == W.SymtabRow(x) && strings.(name := 0) == W.StrtabRow(x)
    ensures SymbolsAt(x, data, table, strings)
  {
    assert table.offset == table.(name := 0).offset;
    assert strings.offset == strings.(name := 0).offset && strings.size == strings.(name := 0).size &&
           strings.kind == strings.(name := 0).kind;
  }

  /** The symbols come back, each with its value, and no others. */
  lemma SymbolsComeBack(x: W.Input)
    requires W.Representable(x) && forall s :: s in x.sections ==> Harmless(x, s)
    ensures R.Symbols(W.File(x), Image(x)) == R.Ok(Dictionary(x.symbols))
  {
    hide W.Representable, W.File, R.SymbolsUpTo;
    var n := |W.Names(x)|;
    RowKinds(x, n - 1);
    SymbolsRead(x, n + 1);
  }

  // ---------------------------------------------------------------------
  // When they do not come back
  // ---------------------------------------------------------------------

  // A symbol table the caller asks for has no contents, so its entries are read
  // from the start of the file, where the first name offset is the magic number.

  const MAGIC_OFFSET: nat := 0x464c457f

  lemma MagicAsNumber(big: bool)
    ensures Unpack(big, MAGIC) >= MAGIC_OFFSET
  {
    var m := MAGIC;
    if big {
      assert m[..3] == [0x7f, 0x45, 0x4c] && m[..3][..2] == [0x7f, 0x45] &&
             [0x7f, 0x45][..1] == [0x7f] && [0x7f][..0] == [];
      assert Unpack(true, [0x7f]) == 0x7f;
      assert Unpack(true, [0x7f, 0x45]) == 0x7f45;
      assert Unpack(true, [0x7f, 0x45, 0x4c]) == 0x7f454c;
    } else {
      assert m[1..] == [0x45, 0x4c, 0x46] && m[1..][1..] == [0x4c, 0x46] &&
             [0x4c, 0x46][1..] == [0x46] && [0x46][1..] == [];
      assert Unpack(false, [0x46]) == 0x46;
      assert Unpack(false, [0x4c, 0x46]) == 0x464c;
      assert Unpack(false, [0x45, 0x4c, 0x46]) == 0x464c45;
    }
  }

  lemma FirstField(data: seq<Byte>, big: bool, is64: bool)
    requires |data| >= 24 && data[..4] == MAGIC
    ensures var rec := ReadRecord(data, big, SymbolLayout(is64), 0);
            rec.Some? && |rec.value| == 6 && SymbolOf(is64, rec.value).0 >= MAGIC_OFFSET
  {
    LayoutSizes(is64);
    MagicAsNumber(big);
    var ws := SymbolLayout(is64);
    var s := data[0..Size(ws)];
    assert s[..ws[0]] == data[..4];
  }

  lemma {:induction false} TableFails(data: seq<Byte>, e: R.Elf, row: Row, strings: Row, n: nat, found: map<Name, nat>)
    requires n > 0 && |data| >= 24 && data[..4] == MAGIC && row.offset == 0
    requires strings.kind != SHT_NOBITS && strings.size <= MAGIC_OFFSET
    ensures R.TableSymbols(data, e, row, strings, n, found).Err?
  {
    if n == 1 {
      FirstField(data, e.big, e.is64);
      assert Nth(0, Size(SymbolLayout(e.is64)), 0) == 0;
      hide ReadRecord, Size, SymbolOf;
      assert R.TableSymbols(data, e, row, strings, 0, found) == R.Ok(found);
    } else {
      hide ReadRecord, Size, SymbolOf, R.StringAt;
      TableFails(data, e, row, strings, n - 1, found);
    }
  }

  lemma {:induction false} FailureStays(data: seq<Byte>, e: R.Elf, m: nat, n: nat)
    requires m <= n <= |e.sections| && R.SymbolsUpTo(data, e, m).Err?
    ensures R.SymbolsUpTo(data, e, n).Err?
  {
    if m < n {
      FailureStays(data, e, m, n - 1);
    }
  }

  lemma DivPositive(a: nat, w: nat)
    requires 0 < w <= a
    ensures a / w > 0
  {
    var k := Arith.DivBounds(a, w);
  }

  lemma RowFails(data: seq<Byte>, e: R.Elf, n: nat)
    requires n < |e.sections| && |data| >= 24 && data[..4] == MAGIC
    requires var row := e.sections[n].row;
             row.kind == SHT_SYMTAB && row.offset == 0 && row.link == 0 && row.size >= SymbolSize(e.is64)
    requires e.sections[0].row.kind != SHT_NOBITS && e.sections[0].row.size <= MAGIC_OFFSET
    ensures R.SymbolsUpTo(data, e, n + 1).Err?
  {
    var row, before := e.sections[n].row, R.SymbolsUpTo(data, e, n);
    DivPositive(row.size, SymbolSize(e.is64));
    if before.Ok? {
      TableFails(data, e, row, e.sections[0].row, row.size / SymbolSize(e.is64), before.value);
    }
  }

  lemma BareTableFails(x: W.Input, k: nat)
    requires W.Representable(x) && |W.Names(x)| < MAGIC_OFFSET
    requires k < |x.sections| && !Harmless(x, x.sections[k])
    ensures R.Symbols(W.File(x), Image(x)).Err?
  {
    hide W.Representable, W.File, W.Names, W.Rows, AllExpected, R.SymbolsUpTo;
    NamesLength(x);
    IdentRead(x);
    LargeEnough(x);
    RowKinds(x, k);
    ImageRow(x, k + 1);
    ImageRow(x, 0);
    var row := W.Rows(x)[k + 1];
    assert row.kind == row.(name := 0).kind && row.size == row.(name := 0).size && row.link == row.(name := 0).link &&
           row.offset == row.(name := 0).offset;
    FirstRow(x);
    RowFails(W.File(x), Image(x), k + 1);
    FailureStays(W.File(x), Image(x), k + 2, |Image(x).sections|);
  }

  lemma FirstRow(x: W.Input)
    ensures W.Rows(x)[0] == W.NullRow(x)
    ensures W.Rows(x)[0].kind == 0 && W.Rows(x)[0].size <= |W.Names(x)| + 1
  {
  }

  lemma LargeEnough(x: W.Input)
    ensures |W.File(x)| >= 24
  {
    hide W.File, At, Records, W.Blobs, W.Names, W.SectionsOffset, W.DataStart, Table;
    FileLayout(x);
    HeaderBytes(x);
    assert At(W.File(x), 16, PackAll(x.big, HeaderLayout(x.is64), W.HeaderRecord(x)));
    AtFits(W.File(x), 16, PackAll(x.big, HeaderLayout(x.is64), W.HeaderRecord(x)));
  }

  lemma AtFits(data: seq<Byte>, offset: nat, s: seq<Byte>)
    requires At(data, offset, s)
    ensures offset + |s| <= |data|
  {
  }

  /** Exactly when the symbols can be read back: no section the caller marked as
      a symbol table is large enough to hold an entry. */
  lemma SymbolsReadIff(x: W.Input)
    requires W.Representable(x) && |W.Names(x)| < MAGIC_OFFSET
    ensures R.Symbols(W.File(x), Image(x)).Ok? <==> forall s :: s in x.sections ==> Harmless(x, s)
  {
    hide W.Representable, W.File, W.Names, R.Symbols, Harmless;
    if forall s :: s in x.sections ==> Harmless(x, s) {
      SymbolsComeBack(x);
    } else {
      var s :| s in x.sections && !Harmless(x, s);
      var k :| 0 <= k < |x.sections| && x.sections[k] == s;
      BareTableFails(x, k);
    }
  }
}
