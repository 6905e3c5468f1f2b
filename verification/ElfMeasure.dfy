/** Writing, reading and measuring end to end. */
module ElfMeasure {

  import Bytes
  import opened ElfFormat
  import opened ElfRoundTrip
  import opened ElfSizes
  import W = ElfWriter
  import R = ElfReader

  /** Bytes of the first `k` sections asked for that `w` picks. */
  function AskedSum(sections: seq<W.Section>, w: Which, k: nat): nat
    requires k <= |sections|
  {
    if k == 0 then 0 else
      var s := sections[k - 1];
      AskedSum(sections, w, k - 1) + if Picks(w, W.UserRow(s)) then s.size else 0
  }

  /** How many of the first `n` rows are sections asked for. */
  function AskedBefore(x: W.Input, n: nat): nat {
    if n == 0 then 0 else if n - 1 < |x.sections| then n - 1 else |x.sections|
  }

  lemma AddedRow(x: W.Input, i: nat)
    requires i <= |W.Names(x)|
    ensures if 0 < i <= |x.sections| then W.Rows(x)[i].(name := 0) == W.UserRow(x.sections[i - 1])
            else W.Rows(x)[i].flags == 0
  {
    hide W.DataStart, W.Blobs, W.CommentBlob, W.SymbolBlob, W.StringBlob, Bytes.Table;
    if i > 0 {
      RowKinds(x, i - 1);
      assert W.Rows(x)[i].flags == W.Rows(x)[i].(name := 0).flags;
    }
  }

  lemma PicksByShape(w: Which, r: Row, s: Row)
    requires r.flags == s.flags && r.kind == s.kind
    ensures Picks(w, r) <==> Picks(w, s)
  {
  }

  lemma SumOneMore(x: W.Input, w: Which, n: nat)
    requires n <= |W.Names(x)|
    ensures Sum(AllExpected(x, n + 1), w) ==
            Sum(AllExpected(x, n), w) + if Picks(w, W.Rows(x)[n]) then W.Rows(x)[n].size else 0
  {
    hide W.Names, W.Rows, Picks;
    var all := AllExpected(x, n + 1);
    assert all[..n] == AllExpected(x, n) && all[n].row == W.Rows(x)[n];
  }

  lemma {:induction false} MeasuredUpTo(x: W.Input, w: Which, n: nat)
    requires n <= |W.Names(x)| + 1
    ensures Sum(AllExpected(x, n), w) == AskedSum(x.sections, w, AskedBefore(x, n))
  {
    hide W.Names, W.Rows, Picks, Sum, AllExpected;
    if n == 0 {
      NothingMeasured(x, w);
    } else {
      MeasuredUpTo(x, w, n - 1);
      SumOneMore(x, w, n - 1);
      var row := W.Rows(x)[n - 1];
      AddedRow(x, n - 1);
      if 0 < n - 1 <= |x.sections| {
        assert row.flags == row.(name := 0).flags && row.kind == row.(name := 0).kind &&
               row.size == row.(name := 0).size;
        PicksByShape(w, row, W.UserRow(x.sections[n - 2]));
      } else {
        NotAlloc(w, row);
      }
    }
  }

  lemma NothingMeasured(x: W.Input, w: Which)
    ensures Sum(AllExpected(x, 0), w) == 0
  {
    hide W.Names, W.Rows;
    assert AllExpected(x, 0) == [];
  }

  lemma NotAlloc(w: Which, r: Row)
    requires r.flags == 0
    ensures !Picks(w, r)
  {
  }

  /** Every figure measured from a written file is the figure of the sections
      asked for: the tables the writer adds count for nothing. */
  lemma MeasuredAsAsked(x: W.Input, w: Which)
    requires W.Representable(x)
    ensures R.Read(W.File(x)).Ok?
    ensures Sum(R.Read(W.File(x)).value.sections, w) == AskedSum(x.sections, w, |x.sections|)
  {
    hide W.Representable, W.File, R.Read, W.Names, Sum;
    RoundTrip(x);
    var n := |W.Names(x)|;
    NamesCount(x);
    MeasuredUpTo(x, w, n + 1);
  }

  lemma NamesCount(x: W.Input)
    ensures |W.Names(x)| >= |x.sections| + 1
  {
  }
}
