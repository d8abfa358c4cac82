/**
 * The per-controller rollup of tab 1 (app.py:310-328, 432-449): `lap` is
 * filtered by the controller selection, grouped by `pengendali` (sums of
 * `pagu` and `capaian`, with a percentage), and a `TOTAL` row is appended
 * that carries the sums of the group rows and a percentage computed from
 * those sums.
 */
module Rekap {
  import opened Wrappers
  import opened Seqs
  import opened Text
  import opened Angka
  import opened Ledger
  import opened Realisasi

  /** The controller names of the rows that have one, in row order. */
  function Names(lap: seq<LapRow>): seq<string>
    decreases |lap|
  {
    if lap == [] then []
    else
      var last := lap[|lap| - 1];
      Names(lap[..|lap| - 1]) + (if last.ma.pengendali.Some? then [last.ma.pengendali.value] else [])
  }

  lemma {:induction false} NamesMember(lap: seq<LapRow>)
    ensures forall n :: n in Names(lap) <==> exists i :: 0 <= i < |lap| && lap[i].ma.pengendali == Some(n)
    decreases |lap|
  {
    if lap != [] {
      var init := lap[..|lap| - 1];
      NamesMember(init);
      assert forall i :: 0 <= i < |init| ==> init[i] == lap[i];
    }
  }

  /** `sorted(lap["pengendali"].dropna().unique())`: the controller selector's options and default. */
  function DaftarPengendali(lap: seq<LapRow>): seq<string>
  {
    SortedDistinct(Names(lap))
  }

  /** A row with a controller name (`pengendali` not NaN). */
  predicate Mapped(r: LapRow)
  {
    r.ma.pengendali.Some?
  }

  function InSelection(sel: seq<string>): LapRow -> bool
  {
    (r: LapRow) => r.ma.pengendali.Some? && r.ma.pengendali.value in sel
  }

  /** `if f_pengendali_realisasi: lap_f = lap_f[lap_f["pengendali"].isin(...)]`; NaN is in no selection. */
  function PengendaliFilter(lap: seq<LapRow>, sel: seq<string>): seq<LapRow>
  {
    if sel == [] then lap else Filter(lap, InSelection(sel))
  }

  /**
   * With the default selection, the filter keeps exactly the rows that have
   * a controller name; an allocation whose controller code is not listed
   * drops out of tab 1 here. When no row has a name the default selection
   * is empty and filters nothing, but then there is no named row either.
   */
  lemma DefaultSelection(lap: seq<LapRow>)
    ensures DaftarPengendali(lap) != [] ==> PengendaliFilter(lap, DaftarPengendali(lap)) == Filter(lap, Mapped)
    ensures DaftarPengendali(lap) == [] ==> Filter(lap, Mapped) == []
  {
    var d := DaftarPengendali(lap);
    NamesMember(lap);
    SortedDistinctSpec(Names(lap));
    forall i | 0 <= i < |lap| ensures InSelection(d)(lap[i]) == Mapped(lap[i]) {
      if Mapped(lap[i]) {
        assert lap[i].ma.pengendali.value in Names(lap);
      }
    }
    if d != [] {
      FilterExt(lap, InSelection(d), Mapped);
    } else {
      FilterNone(lap, Mapped);
    }
  }

  /** One row of the rollup. */
  datatype RekapRow = RekapRow(pengendali: string, pagu: real, capaian: real, persen: Float)

  function PengendaliKey(r: LapRow): Option<string>
  {
    r.ma.pengendali
  }

  /** What an allocation adds to the `pagu` sum: NaN is skipped. */
  function PaguOrZero(r: LapRow): real
  {
    if r.ma.pagu.Some? then r.ma.pagu.value else 0.0
  }

  function CapaianOf(r: LapRow): real
  {
    r.capaian
  }

  /** The group row of controller `n`: summed `pagu` and `capaian`, `persen` with `fillna(0)`. */
  function GroupRow(lapF: seq<LapRow>, n: string): RekapRow
  {
    var p := GroupSum(lapF, PengendaliKey, Some(n), PaguOrZero);
    var c := GroupSum(lapF, PengendaliKey, Some(n), CapaianOf);
    RekapRow(n, p, c, Persen(c, Some(p)))
  }

  /** `groupby("pengendali")`: the group keys, NaN dropped, in ascending order. */
  function Groups(lapF: seq<LapRow>): seq<string>
  {
    SortedDistinct(Names(lapF))
  }

  function GroupRows(lapF: seq<LapRow>, gs: seq<string>): seq<RekapRow>
  {
    seq(|gs|, i requires 0 <= i < |gs| => GroupRow(lapF, gs[i]))
  }

  function RowPagu(r: RekapRow): real
  {
    r.pagu
  }

  function RowCapaian(r: RekapRow): real
  {
    r.capaian
  }

  /** The `TOTAL` row: the given sums, and their ratio times 100 with no `fillna`. */
  function TotalRow(p: real, c: real): RekapRow
  {
    RekapRow("TOTAL", p, c, Times100(Ratio(c, Some(p))))
  }

  /**
   * `rekap_all`: the group rows of the filtered `lap` followed by the `TOTAL`
   * row, whose `pagu` and `capaian` are the sums of those of the rows above it.
   */
  function RekapTable(lap: seq<LapRow>, sel: seq<string>): (r: seq<RekapRow>)
    ensures |r| >= 1 && r[|r| - 1].pengendali == "TOTAL"
    ensures r[|r| - 1] == TotalRow(Sum(r[..|r| - 1], RowPagu), Sum(r[..|r| - 1], RowCapaian))
  {
    var lapF := PengendaliFilter(lap, sel);
    var rows := GroupRows(lapF, Groups(lapF));
    var t := TotalRow(Sum(rows, RowPagu), Sum(rows, RowCapaian));
    assert (rows + [t])[..|rows|] == rows;
    rows + [t]
  }

  /**
   * The rollup as app.py computes it: filter `lap` by the selection, build
   * one row per group while adding up the group sums, then append `TOTAL`.
   */
  method BuildRekap(lap: seq<LapRow>, sel: seq<string>) returns (rekap: seq<RekapRow>)
    ensures rekap == RekapTable(lap, sel)
  {
    var lapF := lap;
    if sel != [] {
      lapF := Where(lapF, InSelection(sel));
    }
    var gs := Groups(lapF);
    rekap := [];
    var totalPagu, totalCapaian := 0.0, 0.0;
    for i := 0 to |gs|
      invariant rekap == GroupRows(lapF, gs[..i])
      invariant totalPagu == Sum(rekap, RowPagu) && totalCapaian == Sum(rekap, RowCapaian)
    {
      var row := GroupRow(lapF, gs[i]);
      GroupRowsStep(lapF, gs, i);
      SumSnoc(rekap, row, RowPagu);
      SumSnoc(rekap, row, RowCapaian);
      rekap := rekap + [row];
      totalPagu := totalPagu + row.pagu;
      totalCapaian := totalCapaian + row.capaian;
    }
    assert gs[..|gs|] == gs;
    rekap := rekap + [TotalRow(totalPagu, totalCapaian)];
  }

  lemma GroupRowsStep(lapF: seq<LapRow>, gs: seq<string>, i: nat)
    requires i < |gs|
    ensures GroupRows(lapF, gs[..i + 1]) == GroupRows(lapF, gs[..i]) + [GroupRow(lapF, gs[i])]
  {
  }

  /**
   * One group row per distinct controller name among the filtered rows, in
   * strictly ascending name order, followed by the `TOTAL` row.
   */
  lemma RekapGroups(lap: seq<LapRow>, sel: seq<string>)
    ensures var lapF := PengendaliFilter(lap, sel);
      var gs := Groups(lapF);
      var rekap := RekapTable(lap, sel);
      && |rekap| == |gs| + 1
      && StrictlySorted(gs)
      && (forall i :: 0 <= i < |gs| ==> rekap[i].pengendali == gs[i])
      && (forall n :: n in gs <==> exists i :: 0 <= i < |lapF| && lapF[i].ma.pengendali == Some(n))
      && rekap[|gs|].pengendali == "TOTAL"
  {
    var lapF := PengendaliFilter(lap, sel);
    SortedDistinctSpec(Names(lapF));
    NamesMember(lapF);
  }

  function Wrap(gs: seq<string>): seq<Option<string>>
  {
    seq(|gs|, i requires 0 <= i < |gs| => Some(gs[i]))
  }

  /** Adding up the group rows is adding up the group sums. */
  lemma {:induction false} SumGroupRows(lapF: seq<LapRow>, gs: seq<string>)
    ensures Sum(GroupRows(lapF, gs), RowPagu) == SumGroups(Wrap(gs), lapF, PengendaliKey, PaguOrZero)
    ensures Sum(GroupRows(lapF, gs), RowCapaian) == SumGroups(Wrap(gs), lapF, PengendaliKey, CapaianOf)
    decreases |gs|
  {
    if gs != [] {
      var n := |gs|;
      SumGroupRows(lapF, gs[..n - 1]);
      assert GroupRows(lapF, gs)[..n - 1] == GroupRows(lapF, gs[..n - 1]);
      assert Wrap(gs)[..n - 1] == Wrap(gs[..n - 1]);
    }
  }

  /**
   * The `TOTAL` row neither loses nor double-counts an allocation: its
   * `pagu` and `capaian` are the sums over every filtered row that has a
   * controller name.
   */
  lemma TotalIsSum(lap: seq<LapRow>, sel: seq<string>)
    ensures var lapF := PengendaliFilter(lap, sel);
      var total := RekapTable(lap, sel)[|Groups(lapF)|];
      && total.pagu == Sum(Filter(lapF, Mapped), PaguOrZero)
      && total.capaian == Sum(Filter(lapF, Mapped), CapaianOf)
  {
    var lapF := PengendaliFilter(lap, sel);
    var gs := Groups(lapF);
    SortedDistinctSpec(Names(lapF));
    NamesMember(lapF);
    SumGroupRows(lapF, gs);
    assert Distinct(Wrap(gs)) by {
      forall i, j | 0 <= i < j < |gs| ensures Wrap(gs)[i] != Wrap(gs)[j] {
        assert gs[i] != gs[j];
      }
    }
    forall i | 0 <= i < |lapF| ensures (PengendaliKey(lapF[i]) in Wrap(gs)) == Mapped(lapF[i]) {
      if Mapped(lapF[i]) {
        var n := lapF[i].ma.pengendali.value;
        assert n in gs;
        var k :| 0 <= k < |gs| && gs[k] == n;
        assert Wrap(gs)[k] == Some(n);
      }
    }
    PartitionSumWhere(Wrap(gs), lapF, PengendaliKey, PaguOrZero, Mapped);
    PartitionSumWhere(Wrap(gs), lapF, PengendaliKey, CapaianOf, Mapped);
  }

  /**
   * The `TOTAL` percentage has no `fillna`: with non-negative sums it is NaN
   * when both sums are 0, an infinity when only `pagu` is 0, and otherwise
   * the share of the summed `capaian` in the summed `pagu`, in hundredths.
   * (A group row's percentage is `Persen`, never NaN by `PersenFacts`.)
   */
  lemma TotalPersen(p: real, c: real)
    requires p >= 0.0 && c >= 0.0
    ensures TotalRow(p, c).persen.NaN? <==> p == 0.0 && c == 0.0
    ensures TotalRow(p, c).persen == Infinite(false) <==> p == 0.0 && c > 0.0
    ensures p > 0.0 ==> TotalRow(p, c).persen.Finite? && TotalRow(p, c).persen.value * p == 100.0 * c
  {
    if p > 0.0 {
      ShareTimes(c, p);
    }
  }

  lemma ShareTimes(c: real, p: real)
    requires p > 0.0
    ensures c / p * 100.0 * p == 100.0 * c
  {
    assert c / p * p == c;
  }

  /** Names skip the rows without a controller, so dropping those rows changes nothing. */
  lemma {:induction false} NamesOfMapped(lap: seq<LapRow>)
    ensures Names(Filter(lap, Mapped)) == Names(lap)
    decreases |lap|
  {
    if lap != [] {
      var init := lap[..|lap| - 1];
      var last := lap[|lap| - 1];
      NamesOfMapped(init);
      var f := Filter(init, Mapped);
      if Mapped(last) {
        assert (f + [last])[..|f|] == f;
      } else {
        assert Filter(lap, Mapped) == f;
      }
    }
  }

  /**
   * Clearing the controller selection gives the same rollup as the default
   * selection: the unnamed rows it lets through belong to no group, as
   * `groupby` drops NaN keys.
   */
  lemma EmptySelectionSameRekap(lap: seq<LapRow>)
    ensures RekapTable(lap, []) == RekapTable(lap, DaftarPengendali(lap))
  {
    var d := DaftarPengendali(lap);
    DefaultSelection(lap);
    if d != [] {
      var lapF := Filter(lap, Mapped);
      NamesOfMapped(lap);
      var gs := Groups(lap);
      forall i | 0 <= i < |gs| ensures GroupRow(lapF, gs[i]) == GroupRow(lap, gs[i]) {
        GroupSumRestrict(lap, PengendaliKey, Some(gs[i]), PaguOrZero, Mapped);
        GroupSumRestrict(lap, PengendaliKey, Some(gs[i]), CapaianOf, Mapped);
      }
      assert GroupRows(lapF, Groups(lapF)) == GroupRows(lap, gs);
    }
  }
}
