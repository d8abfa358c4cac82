/**
 * The reconciliation of app.py (app.py:262-289): the transactions of the
 * selected months are grouped by key (sum of `nilai`, count of positive
 * `nilai`), left-joined onto the allocations, and each allocation gets its
 * remainder `sisa` and its percentage `persen`.
 */
module Realisasi {
  import opened Wrappers
  import opened Seqs
  import opened Text
  import opened Angka
  import opened Ledger

  /** The month labels of the rows, one per row. */
  function Bulans(rows: seq<SimrsRow>): seq<string>
  {
    seq(|rows|, i requires 0 <= i < |rows| => rows[i].bulan)
  }

  /**
   * `sorted(simrs["bulan"].dropna().unique())`. The label `"NaT"` of an
   * unparsed date is a string, not a missing value, so it is listed too.
   */
  function DaftarBulan(rows: seq<SimrsRow>): seq<string>
  {
    SortedDistinct(Bulans(rows))
  }

  function InMonths(fBulan: seq<string>): SimrsRow -> bool
  {
    (r: SimrsRow) => r.bulan in fBulan
  }

  /** `if f_bulan: simrs_f = simrs_f[simrs_f["bulan"].isin(f_bulan)]`: an empty selection filters nothing. */
  function MonthFilter(rows: seq<SimrsRow>, fBulan: seq<string>): seq<SimrsRow>
  {
    if fBulan == [] then rows else Filter(rows, InMonths(fBulan))
  }

  /**
   * The default selection is every month in the data, so the month filter
   * the reconciliation runs with keeps every transaction, undated ones included.
   */
  lemma AllMonthsKeepAll(rows: seq<SimrsRow>)
    ensures MonthFilter(rows, DaftarBulan(rows)) == rows
  {
    var fBulan := DaftarBulan(rows);
    SortedDistinctSpec(Bulans(rows));
    forall i | 0 <= i < |rows| ensures InMonths(fBulan)(rows[i]) {
      assert Bulans(rows)[i] == rows[i].bulan;
    }
    FilterAll(rows, InMonths(fBulan));
  }

  /** What a transaction adds to `sum()`: its `nilai`, nothing for NaN. */
  function NilaiOrZero(r: SimrsRow): real
  {
    if r.nilai.Some? then r.nilai.value else 0.0
  }

  /** `x > 0` on a `nilai`: false for NaN. */
  predicate Counted(r: SimrsRow)
  {
    r.nilai.Some? && r.nilai.value > 0.0
  }

  function KeyIs(k: string): SimrsRow -> bool
  {
    (r: SimrsRow) => r.key == k
  }

  function CountedWithKey(k: string): SimrsRow -> bool
  {
    (r: SimrsRow) => r.key == k && Counted(r)
  }

  /** `capaian` of key `k`: the sum of `nilai` over the transactions with that key (0 for none). */
  function Capaian(rows: seq<SimrsRow>, k: string): real
  {
    Sum(Filter(rows, KeyIs(k)), NilaiOrZero)
  }

  /** `jumlah_transaksi` of key `k`: how many transactions with that key have `nilai > 0`. */
  function JumlahTransaksi(rows: seq<SimrsRow>, k: string): nat
  {
    |Filter(rows, CountedWithKey(k))|
  }

  /** One row of `realisasi`, the group-by result. */
  datatype Agg = Agg(capaian: real, jumlahTransaksi: nat)

  /** The aggregate of `k`, with `fillna(0)` for a key that has no group. */
  function Lookup(g: map<string, Agg>, k: string): Agg
  {
    if k in g then g[k] else Agg(0.0, 0)
  }

  /** Adding one transaction to the rows changes only the sum of its own key, by its own amount. */
  lemma CapaianStep(rows: seq<SimrsRow>, i: nat, k: string)
    requires i < |rows|
    ensures Capaian(rows[..i + 1], k) ==
      Capaian(rows[..i], k) + (if rows[i].key == k then NilaiOrZero(rows[i]) else 0.0)
  {
    assert rows[..i + 1][..i] == rows[..i];
    var f := Filter(rows[..i], KeyIs(k));
    assert (f + [rows[i]])[..|f|] == f;
    assert f + [] == f;
  }

  /** Adding one transaction to the rows changes only the count of its own key, by one if it is positive. */
  lemma JumlahStep(rows: seq<SimrsRow>, i: nat, k: string)
    requires i < |rows|
    ensures JumlahTransaksi(rows[..i + 1], k) ==
      JumlahTransaksi(rows[..i], k) + (if rows[i].key == k && Counted(rows[i]) then 1 else 0)
  {
    assert rows[..i + 1][..i] == rows[..i];
  }

  /** The map after one more transaction: its key's aggregate grows by that transaction. */
  function AddRow(g: map<string, Agg>, r: SimrsRow): map<string, Agg>
  {
    var a := Lookup(g, r.key);
    g[r.key := Agg(a.capaian + NilaiOrZero(r), a.jumlahTransaksi + if Counted(r) then 1 else 0)]
  }

  /**
   * `groupby("key").agg(capaian=("nilai", "sum"), jumlah_transaksi=(...))`:
   * one entry per key present, holding that key's sum and count.
   */
  method GroupByKey(rows: seq<SimrsRow>) returns (g: map<string, Agg>)
    ensures forall k :: k in g <==> exists i :: 0 <= i < |rows| && rows[i].key == k
    ensures forall k :: Lookup(g, k) == Agg(Capaian(rows, k), JumlahTransaksi(rows, k))
  {
    g := map[];
    var i := 0;
    while i < |rows|
      invariant 0 <= i <= |rows|
      invariant forall k :: k in g <==> exists j :: 0 <= j < i && rows[j].key == k
      invariant forall k :: Lookup(g, k) == Agg(Capaian(rows[..i], k), JumlahTransaksi(rows[..i], k))
    {
      var ng := AddRow(g, rows[i]);
      forall k ensures Lookup(ng, k) == Agg(Capaian(rows[..i + 1], k), JumlahTransaksi(rows[..i + 1], k)) {
        CapaianStep(rows, i, k);
        JumlahStep(rows, i, k);
      }
      forall k ensures k in ng <==> exists j :: 0 <= j < i + 1 && rows[j].key == k {
        if k == rows[i].key {
          assert rows[i].key == k;
        }
      }
      g := ng;
      i := i + 1;
    }
    assert rows[..|rows|] == rows;
  }

  /** A row of `lap`: the allocation and its reconciled columns. */
  datatype LapRow = LapRow(ma: MaRow, capaian: real, jumlahTransaksi: nat, sisa: Amount, persen: Float)

  /** `pagu - capaian`: NaN when `pagu` is NaN. */
  function Sisa(pagu: Amount, capaian: real): Amount
  {
    match pagu
    case None => None
    case Some(p) => Some(p - capaian)
  }

  /** `capaian / pagu` in floating point: 0/0 and a NaN `pagu` give NaN, `c/0` an infinity of the sign of `c`. */
  function Ratio(c: real, pagu: Amount): Float
  {
    match pagu
    case None => NaN
    case Some(p) =>
      if p != 0.0 then Finite(c / p)
      else if c == 0.0 then NaN
      else Infinite(c < 0.0)
  }

  /** `fillna(0)`. */
  function FillNa(x: Float): Float
  {
    if x.NaN? then Finite(0.0) else x
  }

  /** `* 100` on a float. */
  function Times100(x: Float): Float
  {
    match x
    case Finite(v) => Finite(v * 100.0)
    case _ => x
  }

  /** `persen = (capaian / pagu).fillna(0) * 100`. */
  function Persen(c: real, pagu: Amount): Float
  {
    Times100(FillNa(Ratio(c, pagu)))
  }

  /**
   * `fillna(0)` removes every NaN but only NaN: the percentage is never NaN,
   * it is an infinity exactly when `pagu` is 0 and `capaian` is not, it is 0
   * for a missing `pagu` or a zero `capaian`, and otherwise it is the share
   * `capaian / pagu` in hundredths.
   */
  lemma PersenFacts(c: real, pagu: Amount)
    ensures !Persen(c, pagu).NaN?
    ensures Persen(c, pagu).Infinite? <==> pagu == Some(0.0) && c != 0.0
    ensures pagu.None? || c == 0.0 ==> Persen(c, pagu) == Finite(0.0)
    ensures pagu.Some? && pagu.value != 0.0 ==> Persen(c, pagu).value * pagu.value == 100.0 * c
  {
  }

  /**
   * The `lap` row of allocation `m` against the transactions `rows`: the
   * allocation itself, `sisa` that adds back up to `pagu` with `capaian`
   * (NaN with `pagu`), a percentage that is never NaN and is infinite only
   * against a zero ceiling, and no more transactions counted than carry the key.
   */
  function Reconciled(m: MaRow, rows: seq<SimrsRow>): (r: LapRow)
    ensures r.ma == m
    ensures m.pagu.Some? ==> r.sisa == Some(m.pagu.value - r.capaian)
    ensures m.pagu.None? ==> r.sisa.None?
    ensures !r.persen.NaN?
    ensures r.persen.Infinite? <==> m.pagu == Some(0.0) && r.capaian != 0.0
    ensures r.jumlahTransaksi <= |Filter(rows, KeyIs(m.key))|
  {
    var c := Capaian(rows, m.key);
    PersenFacts(c, m.pagu);
    FilterFilter(rows, KeyIs(m.key), Counted, CountedWithKey(m.key));
    LapRow(m, c, JumlahTransaksi(rows, m.key), Sisa(m.pagu, c), Persen(c, m.pagu))
  }

  /**
   * The reconciliation, as app.py runs it with the month selection `fBulan`:
   * filter the transactions by month, group them by key, then walk the
   * allocations and attach to each the aggregate of its key (`how="left"`
   * with `fillna(0)`), `sisa` and `persen`.
   */
  method HitungRealisasi(ma: seq<MaRow>, simrs: seq<SimrsRow>, fBulan: seq<string>) returns (lap: seq<LapRow>)
    ensures |lap| == |ma|
    ensures forall i :: 0 <= i < |ma| ==> lap[i] == Reconciled(ma[i], MonthFilter(simrs, fBulan))
    ensures forall i, j :: 0 <= i < |ma| && 0 <= j < |ma| && ma[i].key == ma[j].key ==>
      lap[i].capaian == lap[j].capaian && lap[i].jumlahTransaksi == lap[j].jumlahTransaksi
  {
    var simrsF := simrs;
    if fBulan != [] {
      simrsF := Where(simrsF, InMonths(fBulan));
    }
    var g := GroupByKey(simrsF);
    lap := [];
    var i := 0;
    while i < |ma|
      invariant 0 <= i <= |ma|
      invariant |lap| == i
      invariant forall j :: 0 <= j < i ==> lap[j] == Reconciled(ma[j], simrsF)
    {
      var m := ma[i];
      var a := Lookup(g, m.key);
      lap := lap + [LapRow(m, a.capaian, a.jumlahTransaksi, Sisa(m.pagu, a.capaian), Persen(a.capaian, m.pagu))];
      i := i + 1;
    }
  }

  /**
   * The reconciled columns of one allocation: `capaian` is non-negative,
   * `sisa` and `capaian` add back up to `pagu` (both NaN-free) or `sisa` is
   * NaN with `pagu`, and no more transactions are counted than have the key.
   */
  lemma ReconciledFacts(m: MaRow, rows: seq<SimrsRow>)
    requires forall i :: 0 <= i < |rows| ==> NonNegative(rows[i].nilai)
    ensures Reconciled(m, rows).capaian >= 0.0
    ensures m.pagu.Some? ==> Reconciled(m, rows).sisa == Some(m.pagu.value - Reconciled(m, rows).capaian)
    ensures m.pagu.None? ==> Reconciled(m, rows).sisa.None?
    ensures Reconciled(m, rows).jumlahTransaksi <= |Filter(rows, KeyIs(m.key))|
  {
    var f := Filter(rows, KeyIs(m.key));
    FilterMember(rows, KeyIs(m.key));
    forall i | 0 <= i < |f| ensures NilaiOrZero(f[i]) >= 0.0 {
      assert f[i] in f;
    }
    SumNonNegative(f, NilaiOrZero);
    FilterFilter(rows, KeyIs(m.key), Counted, CountedWithKey(m.key));
  }

  /** An allocation no selected transaction refers to gets `capaian` 0, no transactions, `sisa == pagu` and `persen` 0. */
  lemma Unmatched(m: MaRow, rows: seq<SimrsRow>)
    requires forall i :: 0 <= i < |rows| ==> rows[i].key != m.key
    ensures Reconciled(m, rows).capaian == 0.0 && Reconciled(m, rows).jumlahTransaksi == 0
    ensures Reconciled(m, rows).sisa == m.pagu
    ensures Reconciled(m, rows).persen == Finite(0.0)
  {
    FilterNone(rows, KeyIs(m.key));
    FilterNone(rows, CountedWithKey(m.key));
  }

  /** With its default month selection the reconciliation sees every transaction. */
  lemma DefaultMonths(m: MaRow, simrs: seq<SimrsRow>)
    ensures Reconciled(m, MonthFilter(simrs, DaftarBulan(simrs))) == Reconciled(m, simrs)
  {
    AllMonthsKeepAll(simrs);
  }

  function KeyOf(r: SimrsRow): string
  {
    r.key
  }

  /**
   * The group-by neither loses nor double-counts a transaction: the per-key
   * `capaian` of all the distinct keys add up to the whole `nilai` column sum.
   */
  lemma GroupTotal(rows: seq<SimrsRow>)
    ensures SumGroups(SortedDistinct(Keys(rows)), rows, KeyOf, NilaiOrZero) == Sum(rows, NilaiOrZero)
  {
    AllKeysListed(rows);
    PartitionSumAll(SortedDistinct(Keys(rows)), rows, KeyOf, NilaiOrZero);
  }

  lemma AllKeysListed(rows: seq<SimrsRow>)
    ensures Distinct(SortedDistinct(Keys(rows)))
    ensures forall i :: 0 <= i < |rows| ==> KeyOf(rows[i]) in SortedDistinct(Keys(rows))
  {
    SortedDistinctSpec(Keys(rows));
    forall i | 0 <= i < |rows| ensures KeyOf(rows[i]) in SortedDistinct(Keys(rows)) {
      assert Keys(rows)[i] == rows[i].key;
    }
  }

  /** The keys of the rows, one per row. */
  function Keys(rows: seq<SimrsRow>): seq<string>
  {
    seq(|rows|, i requires 0 <= i < |rows| => rows[i].key)
  }
}
