/**
 * The transaction report of tab 2 (app.py:479-538): `simrs` narrowed by four
 * membership selections and a date range, each applied only when it is set,
 * followed by the report's total, its document count and its count of
 * cancelled (zero-valued) documents.
 */
module Laporan {
  import opened Wrappers
  import opened Seqs
  import opened Ledger
  import opened Realisasi

  /**
   * The tab-2 selections. `tanggal` is `None` when the data has no dates
   * (no date picker is shown); otherwise it is what the range picker
   * returns: no date, the start alone while the user is still picking, or
   * start and end.
   */
  datatype Pilihan = Pilihan(
    kepada: seq<string>, anggaran: seq<string>, pengendali: seq<string>,
    kodeAnggaran: seq<string>, tanggal: Option<seq<int>>)

  /** The range picker never returns more than two dates. */
  predicate PickerShape(p: Pilihan)
  {
    p.tanggal.Some? ==> |p.tanggal.value| <= 2
  }

  /** What stops the report: indexing `f_tgl[1]` when only a start date has been picked. */
  datatype LaporanError = RangeIncomplete

  /** `isin` on a cell: a missing value is in no selection. */
  predicate CellIn(c: Option<string>, sel: seq<string>)
  {
    c.Some? && c.value in sel
  }

  function KepadaIn(sel: seq<string>): SimrsRow -> bool
  {
    (r: SimrsRow) => CellIn(r.kepada, sel)
  }

  function AnggaranIn(sel: seq<string>): SimrsRow -> bool
  {
    (r: SimrsRow) => CellIn(r.namaAnggaran, sel)
  }

  function PengendaliIn(sel: seq<string>): SimrsRow -> bool
  {
    (r: SimrsRow) => CellIn(r.pengendali, sel)
  }

  function KodeIn(sel: seq<string>): SimrsRow -> bool
  {
    (r: SimrsRow) => CellIn(r.kodeAnggaran, sel)
  }

  /** Both bounds inclusive; a missing date (NaT) compares false with both. */
  function InRange(lo: int, hi: int): SimrsRow -> bool
  {
    (r: SimrsRow) => r.tanggal.Some? && lo <= r.tanggal.value <= hi
  }

  /** `if sel: data = data[mask]`. */
  function WhenSet(data: seq<SimrsRow>, sel: seq<string>, mask: SimrsRow -> bool): seq<SimrsRow>
  {
    if sel == [] then data else Filter(data, mask)
  }

  /** A guarded step keeps only rows it was given. */
  lemma WhenSetMember(data: seq<SimrsRow>, sel: seq<string>, mask: SimrsRow -> bool)
    ensures forall r :: r in WhenSet(data, sel, mask) ==> r in data
  {
    FilterMember(data, mask);
  }

  /**
   * The report `data` of app.py:508-522: each filter in turn on the result
   * of the previous one. It fails exactly when the range picker holds only a
   * start date; otherwise it holds only transactions of `simrs`.
   */
  function LaporanData(simrs: seq<SimrsRow>, p: Pilihan): (r: Result<seq<SimrsRow>, LaporanError>)
    ensures r.Err? <==> p.tanggal.Some? && |p.tanggal.value| == 1
    ensures r.Ok? ==> forall x :: x in r.value ==> x in simrs
  {
    var d1 := WhenSet(simrs, p.kepada, KepadaIn(p.kepada));
    var d2 := WhenSet(d1, p.anggaran, AnggaranIn(p.anggaran));
    var d3 := WhenSet(d2, p.pengendali, PengendaliIn(p.pengendali));
    var d4 := WhenSet(d3, p.kodeAnggaran, KodeIn(p.kodeAnggaran));
    WhenSetMember(simrs, p.kepada, KepadaIn(p.kepada));
    WhenSetMember(d1, p.anggaran, AnggaranIn(p.anggaran));
    WhenSetMember(d2, p.pengendali, PengendaliIn(p.pengendali));
    WhenSetMember(d3, p.kodeAnggaran, KodeIn(p.kodeAnggaran));
    if p.tanggal.None? || p.tanggal.value == [] then Ok(d4)
    else if |p.tanggal.value| < 2 then Err(RangeIncomplete)
    else
      var inRange := InRange(p.tanggal.value[0], p.tanggal.value[1]);
      FilterMember(d4, inRange);
      Ok(Filter(d4, inRange))
  }

  /** The report as app.py builds it: `data` rebound by each filter that is set. */
  method BuildLaporan(simrs: seq<SimrsRow>, p: Pilihan) returns (r: Result<seq<SimrsRow>, LaporanError>)
    requires PickerShape(p)
    ensures r == LaporanData(simrs, p)
  {
    var data := simrs;
    if p.kepada != [] {
      data := Where(data, KepadaIn(p.kepada));
    }
    if p.anggaran != [] {
      data := Where(data, AnggaranIn(p.anggaran));
    }
    if p.pengendali != [] {
      data := Where(data, PengendaliIn(p.pengendali));
    }
    if p.kodeAnggaran != [] {
      data := Where(data, KodeIn(p.kodeAnggaran));
    }
    if p.tanggal.Some? && p.tanggal.value != [] {
      if |p.tanggal.value| < 2 {
        return Err(RangeIncomplete);
      }
      data := Where(data, InRange(p.tanggal.value[0], p.tanggal.value[1]));
    }
    return Ok(data);
  }

  /** A row passes one membership selection when the selection is empty or holds the row's value. */
  predicate Passes(c: Option<string>, sel: seq<string>)
  {
    sel == [] || CellIn(c, sel)
  }

  /** A row passes the date selection when no range is set or its date lies in the range. */
  predicate PassesDate(t: Option<int>, range: Option<seq<int>>)
  {
    range.None? || range.value == [] || (|range.value| >= 2 && t.Some? && range.value[0] <= t.value <= range.value[1])
  }

  /** The four membership selections that are set all hold. */
  function Anggota(p: Pilihan): SimrsRow -> bool
  {
    (r: SimrsRow) =>
      Passes(r.kepada, p.kepada) && Passes(r.namaAnggaran, p.anggaran)
      && Passes(r.pengendali, p.pengendali) && Passes(r.kodeAnggaran, p.kodeAnggaran)
  }

  /** Which rows the report shows: every selection that is set must hold. */
  function Lolos(p: Pilihan): SimrsRow -> bool
  {
    (r: SimrsRow) => Anggota(p)(r) && PassesDate(r.tanggal, p.tanggal)
  }

  /** A guarded step is a filter by "the selection is empty or the mask holds". */
  lemma WhenSetIsFilter(data: seq<SimrsRow>, sel: seq<string>, mask: SimrsRow -> bool, crit: SimrsRow -> bool)
    requires forall r :: crit(r) == (sel == [] || mask(r))
    ensures WhenSet(data, sel, mask) == Filter(data, crit)
  {
    if sel == [] {
      FilterAll(data, crit);
    } else {
      FilterExt(data, mask, crit);
    }
  }

  /** The four membership steps in turn select the rows passing all four. */
  lemma MembershipStages(simrs: seq<SimrsRow>, p: Pilihan)
    ensures WhenSet(WhenSet(WhenSet(WhenSet(simrs, p.kepada, KepadaIn(p.kepada)),
      p.anggaran, AnggaranIn(p.anggaran)), p.pengendali, PengendaliIn(p.pengendali)),
      p.kodeAnggaran, KodeIn(p.kodeAnggaran)) == Filter(simrs, Anggota(p))
  {
    var c1 := (r: SimrsRow) => Passes(r.kepada, p.kepada);
    var c2 := (r: SimrsRow) => Passes(r.namaAnggaran, p.anggaran);
    var c3 := (r: SimrsRow) => Passes(r.pengendali, p.pengendali);
    var c4 := (r: SimrsRow) => Passes(r.kodeAnggaran, p.kodeAnggaran);
    var c12 := (r: SimrsRow) => c1(r) && c2(r);
    var c123 := (r: SimrsRow) => c12(r) && c3(r);
    var d1 := WhenSet(simrs, p.kepada, KepadaIn(p.kepada));
    var d2 := WhenSet(d1, p.anggaran, AnggaranIn(p.anggaran));
    var d3 := WhenSet(d2, p.pengendali, PengendaliIn(p.pengendali));
    WhenSetIsFilter(simrs, p.kepada, KepadaIn(p.kepada), c1);
    WhenSetIsFilter(d1, p.anggaran, AnggaranIn(p.anggaran), c2);
    WhenSetIsFilter(d2, p.pengendali, PengendaliIn(p.pengendali), c3);
    WhenSetIsFilter(d3, p.kodeAnggaran, KodeIn(p.kodeAnggaran), c4);
    FilterFilter(simrs, c1, c2, c12);
    FilterFilter(simrs, c12, c3, c123);
    FilterFilter(simrs, c123, c4, Anggota(p));
  }

  /**
   * The filters combine with AND: unless the range picker holds only a
   * start date, the report is the rows of `simrs` that pass every
   * selection, in their original order; with only a start date it fails.
   */
  lemma Conjunctive(simrs: seq<SimrsRow>, p: Pilihan)
    requires PickerShape(p)
    ensures p.tanggal.Some? && |p.tanggal.value| == 1 ==> LaporanData(simrs, p) == Err(RangeIncomplete)
    ensures !(p.tanggal.Some? && |p.tanggal.value| == 1) ==> LaporanData(simrs, p) == Ok(Filter(simrs, Lolos(p)))
  {
    MembershipStages(simrs, p);
    if p.tanggal.None? || p.tanggal.value == [] {
      FilterExt(simrs, Anggota(p), Lolos(p));
    } else if |p.tanggal.value| >= 2 {
      FilterFilter(simrs, Anggota(p), InRange(p.tanggal.value[0], p.tanggal.value[1]), Lolos(p));
    }
  }

  /** The report is a subsequence of `simrs`: its rows in their original order, at the positions where every selection holds. */
  lemma ReportSelects(simrs: seq<SimrsRow>, p: Pilihan)
    requires PickerShape(p) && !(p.tanggal.Some? && |p.tanggal.value| == 1)
    ensures LaporanData(simrs, p).Ok?
    ensures Selects(LaporanData(simrs, p).value, simrs, FilterIndices(simrs, Lolos(p)))
    ensures forall i :: i in FilterIndices(simrs, Lolos(p)) <==> 0 <= i < |simrs| && Lolos(p)(simrs[i])
  {
    Conjunctive(simrs, p);
    FilterSelects(simrs, Lolos(p));
  }

  /** With nothing selected and no range set, the report is all of `simrs`. */
  lemma NothingSelected(simrs: seq<SimrsRow>, tanggal: Option<seq<int>>)
    requires tanggal.None? || tanggal == Some([])
    ensures LaporanData(simrs, Pilihan([], [], [], [], tanggal)) == Ok(simrs)
  {
  }

  /**
   * With only the initial range from the earliest to the latest date of the
   * data, the report drops exactly the transactions whose date is missing.
   */
  lemma InitialRange(simrs: seq<SimrsRow>, lo: int, hi: int)
    requires forall i :: 0 <= i < |simrs| && simrs[i].tanggal.Some? ==> lo <= simrs[i].tanggal.value <= hi
    ensures LaporanData(simrs, Pilihan([], [], [], [], Some([lo, hi]))) == Ok(Filter(simrs, Dated))
  {
    FilterExt(simrs, InRange(lo, hi), Dated);
  }

  predicate Dated(r: SimrsRow)
  {
    r.tanggal.Some?
  }

  /** `nilai == 0`: a cancelled document. */
  predicate Batal(r: SimrsRow)
  {
    r.nilai == Some(0.0)
  }

  /** `nilai` is NaN. */
  predicate Missing(r: SimrsRow)
  {
    r.nilai.None?
  }

  /** The report's figures: `total`, `jumlah_dokumen` and `jumlah_batal`. */
  datatype Ringkasan = Ringkasan(total: real, dokumen: nat, batal: nat)

  /** The three figures computed in one pass over the report. */
  method HitungRingkasan(data: seq<SimrsRow>) returns (r: Ringkasan)
    ensures r.total == Sum(data, NilaiOrZero)
    ensures r.dokumen == |Filter(data, Counted)|
    ensures r.batal == |Filter(data, Batal)|
  {
    r := Ringkasan(0.0, 0, 0);
    for i := 0 to |data|
      invariant r.total == Sum(data[..i], NilaiOrZero)
      invariant r.dokumen == |Filter(data[..i], Counted)|
      invariant r.batal == |Filter(data[..i], Batal)|
    {
      assert data[..i + 1][..i] == data[..i];
      var x := data[i];
      r := Ringkasan(r.total + NilaiOrZero(x),
        r.dokumen + (if Counted(x) then 1 else 0),
        r.batal + (if Batal(x) then 1 else 0));
    }
    assert data[..|data|] == data;
  }

  /**
   * Every document is counted once: as positive, as cancelled or as having
   * no value, because no `nilai` is negative. Only when no value is missing
   * do `jumlah_dokumen` and `jumlah_batal` add up to the number of rows.
   */
  lemma {:induction false} CountsAddUp(data: seq<SimrsRow>)
    requires forall i :: 0 <= i < |data| ==> NonNegative(data[i].nilai)
    ensures |Filter(data, Counted)| + |Filter(data, Batal)| + |Filter(data, Missing)| == |data|
    decreases |data|
  {
    if data != [] {
      var init := data[..|data| - 1];
      assert forall i :: 0 <= i < |init| ==> init[i] == data[i];
      CountsAddUp(init);
    }
  }

  /** With every value present, positive and cancelled documents make up the whole report. */
  lemma DokumenPlusBatal(data: seq<SimrsRow>)
    requires forall i :: 0 <= i < |data| ==> NonNegative(data[i].nilai) && data[i].nilai.Some?
    ensures |Filter(data, Counted)| + |Filter(data, Batal)| == |data|
  {
    CountsAddUp(data);
    FilterNone(data, Missing);
  }
}
