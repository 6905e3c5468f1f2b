/**
 What the size tool measures in a file it has read (tools/check_size.py): the
 class totals of `classify` and the region totals of `regions`.
 */
module ElfSizes {

  import opened Common
  import opened ElfFormat
  import Bytes
  import R = ElfReader

  const SHT_NOTE := 7
  const SHT_INIT_ARRAY := 14
  const SHT_FINI_ARRAY := 15
  const SHT_PREINIT_ARRAY := 16
  const SHT_ARM_EXIDX := 0x70000001
  const EM_ARM := 40
  const PT_LOAD := 1

  const SHF_WRITE := 0x1
  const SHF_ALLOC := 0x2
  const SHF_EXECINSTR := 0x4
  const SHF_TLS := 0x400

  predicate Has(flags: nat, bit: nat)
    requires bit > 0
  {
    flags / bit % 2 == 1
  }

  predicate IsArray(kind: nat) {
    kind in {SHT_INIT_ARRAY, SHT_FINI_ARRAY, SHT_PREINIT_ARRAY}
  }

  predicate Known(machine: nat, kind: nat) {
    kind in {SHT_PROGBITS, SHT_NOBITS, SHT_NOTE} || IsArray(kind) || (machine == EM_ARM && kind == SHT_ARM_EXIDX)
  }

  datatype Class = CodeClass | ConstClass | RamClass | TlsClass | ArrayClass

  predicate Alloc(r: Row) {
    Has(r.flags, SHF_ALLOC)
  }

  function ClassOf(r: Row): Class {
    if Has(r.flags, SHF_TLS) then TlsClass
    else if IsArray(r.kind) then ArrayClass
    else if Has(r.flags, SHF_EXECINSTR) then CodeClass
    else if Has(r.flags, SHF_WRITE) then RamClass
    else ConstClass
  }

  datatype Totals = Totals(code: nat, constant: nat, ram: nat, ramProgbits: nat, ramNobits: nat, tls: nat,
                           arrays: nat, arrayEntries: nat)

  /** What the report says of one section. */
  datatype Listed = Listed(name: Bytes.Name, kind: string, flags: string, class_: Class, bytes: nat)

  function TypeName(kind: nat): string {
    if kind == SHT_PROGBITS then "PROGBITS"
    else if kind == SHT_NOBITS then "NOBITS"
    else if kind == SHT_NOTE then "NOTE"
    else if kind == SHT_INIT_ARRAY then "INIT_ARRAY"
    else if kind == SHT_FINI_ARRAY then "FINI_ARRAY"
    else if kind == SHT_PREINIT_ARRAY then "PREINIT_ARRAY"
    else if kind == SHT_ARM_EXIDX then "ARM_EXIDX"
    else ""
  }

  function Letter(flags: nat, bit: nat, letter: char): string
    requires bit > 0
  {
    if Has(flags, bit) then [letter] else ""
  }

  function FlagLetters(flags: nat): string {
    Letter(flags, SHF_WRITE, 'W') + Letter(flags, SHF_ALLOC, 'A') + Letter(flags, SHF_EXECINSTR, 'X') +
    Letter(flags, SHF_TLS, 'T')
  }

  /** A letter is there exactly when its flag is set: bit 0 is W, bit 1 A, bit 2 X and
      bit 10 T. */
  lemma LettersTell(flags: nat)
    ensures var r := FlagLetters(flags);
            && ('W' in r <==> flags % 2 == 1) && ('A' in r <==> flags / 2 % 2 == 1)
            && ('X' in r <==> flags / 4 % 2 == 1) && ('T' in r <==> flags / 0x400 % 2 == 1)
  {
    assert flags / 1 == flags;
    Lettered(Letter(flags, SHF_WRITE, 'W'), Letter(flags, SHF_ALLOC, 'A'), Letter(flags, SHF_EXECINSTR, 'X'),
             Letter(flags, SHF_TLS, 'T'));
  }

  lemma Lettered(w: string, a: string, x: string, t: string)
    requires w in {"", "W"} && a in {"", "A"} && x in {"", "X"} && t in {"", "T"}
    ensures var r := w + a + x + t;
            && ('W' in r <==> w == "W") && ('A' in r <==> a == "A")
            && ('X' in r <==> x == "X") && ('T' in r <==> t == "T")
  {
  }

  /** The section types by their numbers in the gABI, as the report names them. */
  lemma TypesTell(kind: nat)
    ensures TypeName(kind) == "PROGBITS" <==> kind == 1
    ensures TypeName(kind) == "NOTE" <==> kind == 7
    ensures TypeName(kind) == "NOBITS" <==> kind == 8
    ensures TypeName(kind) == "INIT_ARRAY" <==> kind == 14
    ensures TypeName(kind) == "FINI_ARRAY" <==> kind == 15
    ensures TypeName(kind) == "PREINIT_ARRAY" <==> kind == 16
    ensures TypeName(kind) == "ARM_EXIDX" <==> kind == 0x70000001
  {
    var name := TypeName(kind);
    assert name != "" ==> |name| in {4, 6, 8, 9, 10, 13} && name[0] in ['P', 'N', 'I', 'F', 'A'];
    assert |"PROGBITS"| == 8 && |"NOTE"| == 4 && |"NOBITS"| == 6 && |"INIT_ARRAY"| == |"FINI_ARRAY"| == 10 &&
           |"PREINIT_ARRAY"| == 13 && |"ARM_EXIDX"| == 9;
    assert "INIT_ARRAY"[0] != "FINI_ARRAY"[0];
  }

  function Listing(s: R.Named): Listed {
    Listed(s.name, TypeName(s.row.kind), FlagLetters(s.row.flags), ClassOf(s.row), s.row.size)
  }

  predicate NamesArray(kind: string) {
    kind in {"INIT_ARRAY", "FINI_ARRAY", "PREINIT_ARRAY"}
  }

  /** The class a report line gives is the one its own letters and type call for. */
  predicate Told(l: Listed) {
    l.class_ == if 'T' in l.flags then TlsClass
                else if NamesArray(l.kind) then ArrayClass
                else if 'X' in l.flags then CodeClass
                else if 'W' in l.flags then RamClass
                else ConstClass
  }

  lemma ListingTold(s: R.Named)
    ensures Told(Listing(s))
  {
    hide FlagLetters, TypeName;
    assert s.row.flags / 1 == s.row.flags;
    LettersTell(s.row.flags);
    TypesTell(s.row.kind);
  }

  /** The type and flags listed for a section are enough to tell its class. */
  lemma ListingTells(machine: nat, a: R.Named, b: R.Named)
    requires Known(machine, a.row.kind) && Known(machine, b.row.kind)
    requires Listing(a).kind == Listing(b).kind && Listing(a).flags == Listing(b).flags
    ensures a.row.kind == b.row.kind && Listing(a).class_ == Listing(b).class_
  {
    hide FlagLetters, TypeName, ClassOf;
    TypeNamesDiffer(machine, a.row.kind, b.row.kind);
    ListingTold(a);
    ListingTold(b);
  }

  lemma TypeNamesDiffer(machine: nat, a: nat, b: nat)
    requires Known(machine, a) && Known(machine, b) && TypeName(a) == TypeName(b)
    ensures a == b
  {
    assert |TypeName(a)| == |TypeName(b)| && TypeName(a)[0] == TypeName(b)[0];
  }

  // ---------------------------------------------------------------------
  // The measures the totals are compared with
  // ---------------------------------------------------------------------

  /** Which sections a total is about. */
  datatype Which = InClass(c: Class) | AnyAlloc | RamNobits | RamProgbits

  predicate Picks(w: Which, r: Row) {
    && Alloc(r)
    && match w
       case InClass(c) => ClassOf(r) == c
       case AnyAlloc => true
       case RamNobits => ClassOf(r) == RamClass && r.kind == SHT_NOBITS
       case RamProgbits => ClassOf(r) == RamClass && r.kind != SHT_NOBITS
  }

  /** Bytes of the sections `w` picks. */
  function Sum(sections: seq<R.Named>, w: Which): nat {
    if sections == [] then 0 else
      var r := sections[|sections| - 1].row;
      Sum(sections[..|sections| - 1], w) + if Picks(w, r) then r.size else 0
  }

  /** Entries of the init and fini arrays. */
  function Entries(sections: seq<R.Named>, word: nat): nat
    requires word > 0
  {
    if sections == [] then 0 else
      var r := sections[|sections| - 1].row;
      Entries(sections[..|sections| - 1], word) + if Picks(InClass(ArrayClass), r) then EntryCount(r, word) else 0
  }

  function EntryCount(r: Row, word: nat): nat
    requires word > 0
  {
    r.size / (if r.entsize == 0 then word else r.entsize)
  }

  /** The ALLOC sections, in order. */
  function ListOf(sections: seq<R.Named>): seq<Listed> {
    if sections == [] then [] else
      var last := sections[|sections| - 1];
      ListOf(sections[..|sections| - 1]) +
      if Alloc(last.row) then [Listing(last)] else []
  }

  function ClassSum(listed: seq<Listed>, c: Class): nat {
    if listed == [] then 0 else
      var last := listed[|listed| - 1];
      ClassSum(listed[..|listed| - 1], c) + if last.class_ == c then last.bytes else 0
  }

  /** The five classes partition the bytes of the ALLOC sections. */
  lemma {:induction false} ClassesPartition(sections: seq<R.Named>)
    ensures Sum(sections, InClass(CodeClass)) + Sum(sections, InClass(ConstClass)) + Sum(sections, InClass(RamClass)) +
            Sum(sections, InClass(TlsClass)) + Sum(sections, InClass(ArrayClass)) == Sum(sections, AnyAlloc)
    ensures Sum(sections, RamProgbits) + Sum(sections, RamNobits) == Sum(sections, InClass(RamClass))
  {
    if sections != [] {
      ClassesPartition(sections[..|sections| - 1]);
    }
  }

  /** Every total can be traced back to the sections listed for it. */
  lemma {:induction false} ListedAddUp(sections: seq<R.Named>, c: Class)
    ensures ClassSum(ListOf(sections), c) == Sum(sections, InClass(c))
  {
    if sections != [] {
      ListedAddUp(sections[..|sections| - 1], c);
      var listed, last := ListOf(sections), sections[|sections| - 1];
      if Alloc(last.row) {
        assert listed[..|listed| - 1] == ListOf(sections[..|sections| - 1]);
      } else {
        assert listed == ListOf(sections[..|sections| - 1]);
      }
    }
  }

  // ---------------------------------------------------------------------
  // classify
  // ---------------------------------------------------------------------

  datatype Classified = Unknown(index: nat) | Sized(totals: Totals, listed: seq<Listed>)

  predicate Unclassified(machine: nat, r: Row) {
    Alloc(r) && !Known(machine, r.kind)
  }

  /** The totals are the measured sums. */
  predicate Measures(t: Totals, sections: seq<R.Named>, word: nat)
    requires word > 0
  {
    && t.code == Sum(sections, InClass(CodeClass))
    && t.constant == Sum(sections, InClass(ConstClass))
    && t.ram == Sum(sections, InClass(RamClass))
    && t.ramProgbits == Sum(sections, RamProgbits)
    && t.ramNobits == Sum(sections, RamNobits)
    && t.tls == Sum(sections, InClass(TlsClass))
    && t.arrays == Sum(sections, InClass(ArrayClass))
    && t.arrayEntries == Entries(sections, word)
  }

  /** Adds one ALLOC section to the totals. */
  function Add(t: Totals, r: Row, word: nat): Totals
    requires word > 0
  {
    match ClassOf(r)
    case TlsClass => t.(tls := t.tls + r.size)
    case ArrayClass => t.(arrays := t.arrays + r.size, arrayEntries := t.arrayEntries + EntryCount(r, word))
    case CodeClass => t.(code := t.code + r.size)
    case RamClass =>
      var u := t.(ram := t.ram + r.size);
      if r.kind == SHT_NOBITS then u.(ramNobits := u.ramNobits + r.size) else u.(ramProgbits := u.ramProgbits + r.size)
    case ConstClass => t.(constant := t.constant + r.size)
  }

  lemma AddMeasures(t: Totals, sections: seq<R.Named>, s: R.Named, word: nat)
    requires word > 0 && Measures(t, sections, word)
    ensures Measures(if Alloc(s.row) then Add(t, s.row, word) else t, sections + [s], word)
    ensures ListOf(sections + [s]) == ListOf(sections) + if Alloc(s.row) then [Listing(s)] else []
  {
    assert (sections + [s])[..|sections|] == sections;
  }

  /** What is refused: an ALLOC section of none of those types, the last for Arm only. */
  lemma RefusedMeans(machine: nat, r: Row)
    ensures Unclassified(machine, r) <==>
            && r.flags / 2 % 2 == 1 && r.kind !in {1, 7, 8, 14, 15, 16}
            && !(machine == 40 && r.kind == 0x70000001)
  {
  }

  lemma {:induction false} AllTold(sections: seq<R.Named>)
    ensures forall l :: l in ListOf(sections) ==> Told(l)
  {
    hide Told, Listing;
    if sections != [] {
      AllTold(sections[..|sections| - 1]);
      ListingTold(sections[|sections| - 1]);
    }
  }

  /** `at` is where the ALLOC sections are, in order, and `listed` is their report. */
  ghost predicate Reports(sections: seq<R.Named>, at: seq<nat>, listed: seq<Listed>) {
    && |at| == |listed| && (forall i, j :: 0 <= i < j < |at| ==> at[i] < at[j])
    && (forall j :: 0 <= j < |at| ==>
          at[j] < |sections| && sections[at[j]].row.flags / 2 % 2 == 1 && listed[j] == Listing(sections[at[j]]))
    && forall k: nat :: k < |sections| && sections[k].row.flags / 2 % 2 == 1 ==> k in at
  }

  /** The report lists the ALLOC sections, in order, each with its own name, size, type
      and flags. */
  lemma {:induction false} ListedAre(sections: seq<R.Named>) returns (at: seq<nat>)
    ensures Reports(sections, at, ListOf(sections))
  {
    hide Reports, ListOf;
    at := [];
    if sections == [] {
      NothingListed(sections, at);
    } else {
      var n := |sections| - 1;
      at := ListedAre(sections[..n]);
      ReportsMore(sections, at, ListOf(sections[..n]));
      LastListed(sections);
      if Alloc(sections[n].row) {
        at := at + [n];
      }
    }
  }

  lemma NothingListed(sections: seq<R.Named>, at: seq<nat>)
    requires sections == [] && at == []
    ensures Reports(sections, at, ListOf(sections))
  {
  }

  lemma LastListed(sections: seq<R.Named>)
    requires sections != []
    ensures var n := |sections| - 1; var before := ListOf(sections[..n]);
            ListOf(sections) == if Alloc(sections[n].row) then before + [Listing(sections[n])] else before
  {
    hide Listing;
  }

  lemma ReportsMore(sections: seq<R.Named>, at: seq<nat>, listed: seq<Listed>)
    requires sections != [] && Reports(sections[..|sections| - 1], at, listed)
    ensures var n := |sections| - 1;
            if Alloc(sections[n].row) then Reports(sections, at + [n], listed + [Listing(sections[n])])
            else Reports(sections, at, listed)
  {
    hide Listing;
    var n := |sections| - 1;
    var more := if Alloc(sections[n].row) then at + [n] else at;
    assert forall k :: 0 <= k < n ==> sections[..n][k] == sections[k];
    forall k: nat | k < |sections| && sections[k].row.flags / 2 % 2 == 1 ensures k in more {
      if k == n {
        assert more[|at|] == n;
      }
    }
  }

  /** One more section of `n` bytes raises the total its letters and type call for by
      `n`, and no other. */
  lemma OneMoreCounts(t: Totals, u: Totals, sections: seq<R.Named>, s: R.Named, word: nat)
    requires word > 0 && Measures(t, sections, word) && Measures(u, sections + [s], word)
    ensures var l, n := Listing(s), s.row.size;
            u == if 'A' !in l.flags then t
                 else if 'T' in l.flags then t.(tls := t.tls + n)
                 else if NamesArray(l.kind) then
                   var each := if s.row.entsize == 0 then word else s.row.entsize;
                   t.(arrays := t.arrays + n, arrayEntries := t.arrayEntries + n / each)
                 else if 'X' in l.flags then t.(code := t.code + n)
                 else if 'W' !in l.flags then t.(constant := t.constant + n)
                 else if l.kind == "NOBITS" then t.(ram := t.ram + n, ramNobits := t.ramNobits + n)
                 else t.(ram := t.ram + n, ramProgbits := t.ramProgbits + n)
  {
    hide FlagLetters, TypeName, Measures;
    assert s.row.flags / 1 == s.row.flags;
    LettersTell(s.row.flags);
    TypesTell(s.row.kind);
    AddMeasures(t, sections, s, word);
    SameMeasures(u, if Alloc(s.row) then Add(t, s.row, word) else t, sections + [s], word);
  }

  lemma SameMeasures(t: Totals, u: Totals, sections: seq<R.Named>, word: nat)
    requires word > 0 && Measures(t, sections, word) && Measures(u, sections, word)
    ensures t == u
  {
  }

  lemma NothingMeasured(t: Totals, sections: seq<R.Named>, word: nat)
    requires word > 0 && sections == [] && t == Totals(0, 0, 0, 0, 0, 0, 0, 0)
    ensures Measures(t, sections, word) && ListOf(sections) == []
  {
  }

  lemma Unfolded(machine: nat, r: Row)
    ensures Unclassified(machine, r) <==> Alloc(r) && !Known(machine, r.kind)
  {
  }

  lemma TotalsAre(t: Totals, sections: seq<R.Named>, word: nat)
    requires word > 0 && Measures(t, sections, word)
    ensures t.code + t.constant + t.ram + t.tls + t.arrays == Sum(sections, AnyAlloc)
    ensures t.ram == t.ramProgbits + t.ramNobits
  {
    ClassesPartition(sections);
  }

  method Classify(e: R.Elf) returns (r: Classified)
    ensures r.Unknown? <==> exists i :: 0 <= i < |e.sections| && Unclassified(e.machine, e.sections[i].row)
    ensures r.Unknown? ==>
              && r.index < |e.sections| && Unclassified(e.machine, e.sections[r.index].row)
              && forall i :: 0 <= i < r.index ==> !Unclassified(e.machine, e.sections[i].row)
    ensures r.Sized? ==> r.listed == ListOf(e.sections) && Measures(r.totals, e.sections, if e.is64 then 8 else 4)
    ensures r.Sized? ==> forall l :: l in r.listed ==> Told(l)
    ensures r.Sized? ==>
              var t := r.totals;
              && t.code + t.constant + t.ram + t.tls + t.arrays == Sum(e.sections, AnyAlloc)
              && t.ram == t.ramProgbits + t.ramNobits
  {
    hide *;
    var word := if e.is64 then 8 else 4;
    var totals := Totals(0, 0, 0, 0, 0, 0, 0, 0);
    var listed := [];
    ghost var done := [];
    NothingMeasured(totals, done, word);
    for i := 0 to |e.sections|
      invariant done == e.sections[..i] && listed == ListOf(done) && Measures(totals, done, word)
      invariant forall k :: 0 <= k < i ==> !Unclassified(e.machine, e.sections[k].row)
    {
      var s := e.sections[i];
      Unfolded(e.machine, s.row);
      AddMeasures(totals, done, s, word);
      done := done + [s];
      if Alloc(s.row) {
        if !Known(e.machine, s.row.kind) {
          return Unknown(i);
        }
        totals := Add(totals, s.row, word);
        listed := listed + [Listing(s)];
      }
    }
    assert done == e.sections;
    TotalsAre(totals, e.sections, word);
    AllTold(e.sections);
    return Sized(totals, listed);
  }

  // ---------------------------------------------------------------------
  // regions
  // ---------------------------------------------------------------------

  datatype Region = Region(start: nat, size: nat)

  predicate Inside(r: Region, start: nat, size: nat) {
    r.start <= start && start + size <= r.start + r.size
  }

  predicate Loaded(g: Segment) {
    g.kind == PT_LOAD && g.memsz != 0
  }

  predicate InRam(ram: Region, g: Segment) {
    Loaded(g) && Inside(ram, g.vaddr, g.memsz)
  }

  /** A loaded segment that the regions give no place. */
  predicate Misplaced(flash: Region, ram: Region, g: Segment) {
    && Loaded(g)
    && if InRam(ram, g) then g.filesz != 0 && !Inside(flash, g.paddr, g.filesz) else !Inside(flash, g.vaddr, g.memsz)
  }

  function FileBytes(segments: seq<Segment>): nat {
    if segments == [] then 0 else
      var g := segments[|segments| - 1];
      FileBytes(segments[..|segments| - 1]) + if Loaded(g) then g.filesz else 0
  }

  function RamBytes(ram: Region, segments: seq<Segment>): nat {
    if segments == [] then 0 else
      var g := segments[|segments| - 1];
      RamBytes(ram, segments[..|segments| - 1]) + if InRam(ram, g) then g.memsz else 0
  }

  function Addresses(start: nat, size: nat): (s: set<nat>)
    ensures forall a :: a in s <==> start <= a < start + size
    ensures |s| == size
  {
    if size == 0 then {} else Addresses(start, size - 1) + {start + size - 1}
  }

  /** Every one of `size` bytes from `start` on is in the region. */
  predicate Within(r: Region, start: nat, size: nat) {
    Addresses(start, size) <= Addresses(r.start, r.size)
  }

  lemma InsideIff(r: Region, start: nat, size: nat)
    requires size > 0
    ensures Inside(r, start, size) <==> Within(r, start, size)
  {
    assert start in Addresses(start, size) && start + size - 1 in Addresses(start, size);
  }

  /** What the measures mean for one more segment, of type 1 and not empty: it counts as
      RAM if all of it runs there; what it stores counts as flash; and it has no place if
      it runs in RAM and what it stores is not all in flash, or runs in neither. */
  lemma OneMoreSegment(flash: Region, ram: Region, segments: seq<Segment>, g: Segment)
    ensures var runs := g.kind == 1 && g.memsz > 0;
            var inRam := runs && Within(ram, g.vaddr, g.memsz);
            && RamBytes(ram, segments + [g]) == RamBytes(ram, segments) + (if inRam then g.memsz else 0)
            && FileBytes(segments + [g]) == FileBytes(segments) + (if runs then g.filesz else 0)
            && (Misplaced(flash, ram, g) <==>
                runs && if inRam then !Within(flash, g.paddr, g.filesz) else !Within(flash, g.vaddr, g.memsz))
  {
    assert (segments + [g])[..|segments|] == segments;
    if g.memsz > 0 {
      InsideIff(ram, g.vaddr, g.memsz);
      InsideIff(flash, g.vaddr, g.memsz);
    }
    if g.filesz > 0 {
      InsideIff(flash, g.paddr, g.filesz);
    }
  }

  datatype Placement = Refused(index: nat) | Placed(flash: nat, ram: nat)

  /** Places every loaded segment. Whatever is stored counts as flash, wherever
      it runs; only what runs in the RAM region counts as RAM. */
  method Place(flash: Region, ram: Region, segments: seq<Segment>) returns (r: Placement)
    ensures r.Refused? <==> exists i :: 0 <= i < |segments| && Misplaced(flash, ram, segments[i])
    ensures r.Refused? ==> r.index < |segments| && Misplaced(flash, ram, segments[r.index])
    ensures r.Placed? ==> r.flash == FileBytes(segments) && r.ram == RamBytes(ram, segments)
  {
    var inFlash, inRam := 0, 0;
    for i := 0 to |segments|
      invariant inFlash == FileBytes(segments[..i]) && inRam == RamBytes(ram, segments[..i])
      invariant forall k :: 0 <= k < i ==> !Misplaced(flash, ram, segments[k])
    {
      var g := segments[i];
      assert segments[..i + 1][..i] == segments[..i];
      if g.kind == PT_LOAD && g.memsz != 0 {
        if Inside(ram, g.vaddr, g.memsz) {
          inRam := inRam + g.memsz;
          if g.filesz != 0 {
            if !Inside(flash, g.paddr, g.filesz) {
              assert Misplaced(flash, ram, segments[i]);
              return Refused(i);
            }
            inFlash := inFlash + g.filesz;
          }
        } else if Inside(flash, g.vaddr, g.memsz) {
          inFlash := inFlash + g.filesz;
        } else {
          assert Misplaced(flash, ram, segments[i]);
          return Refused(i);
        }
      }
    }
    assert segments[..|segments|] == segments;
    return Placed(inFlash, inRam);
  }

  // ---------------------------------------------------------------------
  // Disjoint segments fit their region
  // ---------------------------------------------------------------------

  predicate Apart(g: Segment, h: Segment) {
    g.vaddr + g.memsz <= h.vaddr || h.vaddr + h.memsz <= g.vaddr
  }

  predicate Disjoint(segments: seq<Segment>) {
    forall i, j :: 0 <= i < j < |segments| && Loaded(segments[i]) && Loaded(segments[j]) ==>
      Apart(segments[i], segments[j])
  }

  /** Apart is having no address in common. */
  lemma ApartIff(g: Segment, h: Segment)
    requires g.memsz > 0 && h.memsz > 0
    ensures Apart(g, h) <==> Addresses(g.vaddr, g.memsz) !! Addresses(h.vaddr, h.memsz)
  {
    if !Apart(g, h) {
      var a := if g.vaddr <= h.vaddr then h.vaddr else g.vaddr;
      assert a in Addresses(g.vaddr, g.memsz) && a in Addresses(h.vaddr, h.memsz);
    }
  }

  /** The addresses the RAM segments occupy. */
  function Occupied(ram: Region, segments: seq<Segment>): set<nat> {
    if segments == [] then {} else
      var g := segments[|segments| - 1];
      Occupied(ram, segments[..|segments| - 1]) + if InRam(ram, g) then Addresses(g.vaddr, g.memsz) else {}
  }

  lemma {:induction false} OccupiedBy(ram: Region, segments: seq<Segment>, a: nat) returns (i: nat)
    requires a in Occupied(ram, segments)
    ensures i < |segments| && InRam(ram, segments[i]) && a in Addresses(segments[i].vaddr, segments[i].memsz)
  {
    i := |segments| - 1;
    if !(InRam(ram, segments[i]) && a in Addresses(segments[i].vaddr, segments[i].memsz)) {
      i := OccupiedBy(ram, segments[..i], a);
    }
  }

  lemma {:induction false} OccupiedCount(ram: Region, segments: seq<Segment>)
    requires Disjoint(segments)
    ensures |Occupied(ram, segments)| == RamBytes(ram, segments)
    ensures Occupied(ram, segments) <= Addresses(ram.start, ram.size)
  {
    if segments != [] {
      var n := |segments| - 1;
      var front, g := segments[..n], segments[n];
      OccupiedCount(ram, front);
      if InRam(ram, g) {
        forall a | a in Occupied(ram, front) ensures a !in Addresses(g.vaddr, g.memsz) {
          var i := OccupiedBy(ram, front, a);
          assert front[i] == segments[i] && Apart(segments[i], segments[n]);
        }
        assert Occupied(ram, front) !! Addresses(g.vaddr, g.memsz);
      }
    }
  }

  /** Segments that do not overlap never measure more RAM than the region has. */
  lemma RamFits(ram: Region, segments: seq<Segment>)
    requires Disjoint(segments)
    ensures RamBytes(ram, segments) <= ram.size
  {
    OccupiedCount(ram, segments);
    SubsetSize(Occupied(ram, segments), Addresses(ram.start, ram.size));
  }
}
