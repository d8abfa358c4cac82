/**
 * The two tables app.py builds from the uploaded worksheets (app.py:214-250):
 * the allocations `ma`, one row per allocation code that parses, and the
 * transactions `simrs`, one row per transaction whose text holds a code.
 * Columns are taken by position, every derived column is computed for all
 * rows, and then the rows without a code are dropped.
 */
module Ledger {
  import opened Wrappers
  import opened Seqs
  import opened Text
  import opened Kode
  import opened Angka

  /** A worksheet as `pd.read_excel` hands it over: `width` columns, every row one cell per column. */
  datatype Sheet = Sheet(width: nat, rows: seq<seq<Cell>>)

  predicate Rectangular(sh: Sheet)
  {
    forall i :: 0 <= i < |sh.rows| ==> |sh.rows[i]| == sh.width
  }

  /** Column `c` of the sheet, `iloc[:, c]`. */
  function Column(sh: Sheet, c: nat): seq<Cell>
    requires Rectangular(sh) && c < sh.width
  {
    seq(|sh.rows|, i requires 0 <= i < |sh.rows| => sh.rows[i][c])
  }

  /**
   * Why a build stops: `iloc` asked for a column the sheet does not have, or
   * an amount cell is not a number. A cell reading as an infinity is
   * reported rather than carried along (float infinities are not modelled).
   */
  datatype Error = ColumnMissing | NotANumber(text: string) | InfiniteAmount(text: string)

  /** A money amount in a table: a value, or `None` for NaN. */
  type Amount = Option<real>

  /** `astype(str)` of a cell: its text, or `"nan"` for a blank. */
  function CellText(c: Cell): string
  {
    match c
    case None => "nan"
    case Some(s) => s
  }

  /** `normalisasi_angka` on one cell of an amount column. */
  function NormaliseCell(c: Cell): Result<Amount, Error>
  {
    match NormalisasiAngka(CellText(c))
    case None => Err(NotANumber(CellText(c)))
    case Some(Finite(v)) => Ok(Some(v))
    case Some(NaN) => Ok(None)
    case Some(Infinite(_)) => Err(InfiniteAmount(CellText(c)))
  }

  /** An amount that is missing or at least zero. */
  predicate NonNegative(a: Amount)
  {
    a.Some? ==> a.value >= 0.0
  }

  /**
   * A blank cell becomes NaN, not 0 and not an error; every amount that is
   * produced is non-negative, because every `-` was turned into `0`.
   */
  lemma NormaliseCellFacts(c: Cell)
    ensures c.None? ==> NormaliseCell(c) == Ok(None)
    ensures NormaliseCell(c).Ok? ==> NonNegative(NormaliseCell(c).value)
  {
    NormalisasiNan();
  }

  /** `conv` applied to every cell of a column: all the values, or the error of the first cell that fails. */
  function ConvertColumn<T, E>(cells: seq<Cell>, conv: Cell -> Result<T, E>): (r: Result<seq<T>, E>)
    ensures r.Ok? ==> |r.value| == |cells|
    decreases |cells|
  {
    if cells == [] then Ok([])
    else
      match ConvertColumn(cells[..|cells| - 1], conv)
      case Err(e) => Err(e)
      case Ok(init) =>
        match conv(cells[|cells| - 1])
        case Err(e) => Err(e)
        case Ok(v) => Ok(init + [v])
  }

  /**
   * The column converts exactly when every cell does, and then cell by
   * cell; otherwise the error is that of the first failing cell.
   */
  lemma {:induction false} ConvertColumnSpec<T, E>(cells: seq<Cell>, conv: Cell -> Result<T, E>)
    ensures ConvertColumn(cells, conv).Ok? <==> forall i :: 0 <= i < |cells| ==> conv(cells[i]).Ok?
    ensures ConvertColumn(cells, conv).Ok? ==>
      var vs := ConvertColumn(cells, conv).value;
      |vs| == |cells| && forall i :: 0 <= i < |cells| ==> conv(cells[i]) == Ok(vs[i])
    ensures ConvertColumn(cells, conv).Err? ==>
      exists i :: 0 <= i < |cells| && conv(cells[i]) == Err(ConvertColumn(cells, conv).error)
        && forall j :: 0 <= j < i ==> conv(cells[j]).Ok?
    decreases |cells|
  {
    if cells != [] {
      var n := |cells|;
      var init := cells[..n - 1];
      ConvertColumnSpec(init, conv);
      assert forall i :: 0 <= i < n - 1 ==> init[i] == cells[i];
      if ConvertColumn(init, conv).Err? {
        var i :| 0 <= i < n - 1 && conv(init[i]) == Err(ConvertColumn(init, conv).error)
          && forall j :: 0 <= j < i ==> conv(init[j]).Ok?;
        assert conv(cells[i]) == Err(ConvertColumn(cells, conv).error);
      }
    }
  }

  /** Once a prefix of the column fails, the whole column fails with the same error. */
  lemma {:induction false} ConvertFails<T, E>(cells: seq<Cell>, conv: Cell -> Result<T, E>, n: nat)
    requires n <= |cells| && ConvertColumn(cells[..n], conv).Err?
    ensures ConvertColumn(cells, conv) == ConvertColumn(cells[..n], conv)
    decreases |cells| - n
  {
    if n < |cells| {
      assert cells[..n + 1][..n] == cells[..n];
      ConvertFails(cells, conv, n + 1);
    } else {
      assert cells[..n] == cells;
    }
  }

  /** `conv` applied to a column one cell at a time, stopping at the first failure. */
  method Convert<T, E>(cells: seq<Cell>, conv: Cell -> Result<T, E>) returns (r: Result<seq<T>, E>)
    ensures r == ConvertColumn(cells, conv)
  {
    var vs: seq<T> := [];
    var i := 0;
    while i < |cells|
      invariant 0 <= i <= |cells|
      invariant ConvertColumn(cells[..i], conv) == Ok(vs)
    {
      assert cells[..i + 1][..i] == cells[..i];
      var v := conv(cells[i]);
      if v.Err? {
        ConvertFails(cells, conv, i + 1);
        return Err(v.error);
      }
      vs := vs + [v.value];
      i := i + 1;
    }
    assert cells[..|cells|] == cells;
    return Ok(vs);
  }

  /** `normalisasi_angka` on a whole amount column. */
  function NormaliseColumn(cells: seq<Cell>): Result<seq<Amount>, Error>
  {
    ConvertColumn(cells, NormaliseCell)
  }

  /** Every amount of a converted column is non-negative. */
  lemma NormaliseColumnNonNegative(cells: seq<Cell>)
    requires NormaliseColumn(cells).Ok?
    ensures forall i :: 0 <= i < |NormaliseColumn(cells).value| ==> NonNegative(NormaliseColumn(cells).value[i])
  {
    ConvertColumnSpec(cells, NormaliseCell);
    forall i | 0 <= i < |cells| ensures NonNegative(NormaliseColumn(cells).value[i]) {
      NormaliseCellFacts(cells[i]);
    }
  }

  /** `PENGENDALI_MAP`: the controller code's name. */
  const PengendaliMap: map<string, string> := map[
    "1" := "TIM KERJA PELAYANAN PENUNJANG",
    "2" := "INST. PEMELIHARAAN SARANA DAN PERALATAN RS (IPSRS)",
    "3" := "INSTALASI KESEHATAN LINGKUNGAN & K3 RS",
    "4" := "TIM KERJA TATA USAHA & RUMAH TANGGA",
    "5" := "INSTALASI SIM RS",
    "6" := "TIM KERJA ORGANISASI & SDM",
    "7" := "TIM KERJA PENDIDIKAN & PELATIHAN",
    "8" := "INSTALASI PEMASARAN & PENGEMBANGAN BISNIS"
  ]

  /** `Series.map(PENGENDALI_MAP)`: the name, or `None` for a missing or unlisted code. */
  function PengendaliOf(code: Option<string>): Option<string>
  {
    if code.Some? && code.value in PengendaliMap then Some(PengendaliMap[code.value]) else None
  }

  /** Only the codes `"1"` to `"8"` have a name; any other code, `"9"` or `"01"` say, has none. */
  lemma PengendaliOfExamples()
    ensures PengendaliOf(Some("5")) == Some("INSTALASI SIM RS")
    ensures PengendaliOf(Some("9")) == None && PengendaliOf(Some("01")) == None
    ensures PengendaliOf(None) == None
  {
  }

  /** A row of `ma`. `kodeAnggaran`/`kodePengendali` are the two parts `parse_kode_ma` found, if any. */
  datatype MaRow = MaRow(
    kodeDana: Cell, kodeMa: Cell, uraian: Cell, pagu: Amount,
    kodeAnggaran: Option<string>, kodePengendali: Option<string>,
    pengendali: Option<string>, key: string)

  /**
   * The `ma` row built from one worksheet row (columns 2, 3, 5 and 7) and
   * its converted `pagu`, before rows are dropped. The key is the whole code
   * cell as text, trimmed.
   */
  function MaCandidate(row: seq<Cell>, pagu: Amount): MaRow
    requires |row| >= 8
  {
    var parts := ParseKodeMa(row[3]);
    MaRow(row[2], row[3], row[5], pagu, parts.0, parts.1, PengendaliOf(parts.1), Strip(CellText(row[3])))
  }

  /** `dropna(subset=["kode_anggaran", "kode_pengendali"])` keeps a row when both parts are present. */
  predicate Parsed(m: MaRow)
  {
    m.kodeAnggaran.Some? && m.kodePengendali.Some?
  }

  function MaCandidates(sh: Sheet, pagu: seq<Amount>): seq<MaRow>
    requires Rectangular(sh) && sh.width >= 8 && |pagu| == |sh.rows|
  {
    seq(|sh.rows|, i requires 0 <= i < |sh.rows| => MaCandidate(sh.rows[i], pagu[i]))
  }

  /** The `ma` table built from the allocation worksheet (app.py:214-227). */
  function MaTable(sh: Sheet): (r: Result<seq<MaRow>, Error>)
    requires Rectangular(sh)
    ensures r.Err? <==> sh.width < 8 || exists i :: 0 <= i < |sh.rows| && NormaliseCell(sh.rows[i][7]).Err?
  {
    if sh.width < 8 then Err(ColumnMissing)
    else
      ConvertColumnSpec(Column(sh, 7), NormaliseCell);
      match NormaliseColumn(Column(sh, 7))
      case Err(e) => Err(e)
      case Ok(pagu) => Ok(Filter(MaCandidates(sh, pagu), Parsed))
  }

  /** Builds `ma`: positional columns, the converted `pagu`, the parsed code parts and key, then the drop. */
  method BuildMa(sh: Sheet) returns (r: Result<seq<MaRow>, Error>)
    requires Rectangular(sh)
    ensures r == MaTable(sh)
  {
    if sh.width < 8 {
      return Err(ColumnMissing);
    }
    var pagu := Convert(Column(sh, 7), NormaliseCell);
    if pagu.Err? {
      return Err(pagu.error);
    }
    var rows := Where(MaCandidates(sh, pagu.value), Parsed);
    return Ok(rows);
  }

  /**
   * `ma` keeps, in worksheet order, exactly the rows whose `kode_ma` parses;
   * a row whose controller code is not in `PENGENDALI_MAP` is kept too. The
   * `j`-th row of `ma` is the candidate built from worksheet row `idx[j]`.
   */
  lemma MaKeepsParsedRows(sh: Sheet, pagu: seq<Amount>)
    requires Rectangular(sh) && sh.width >= 8 && NormaliseColumn(Column(sh, 7)) == Ok(pagu)
    ensures MaTable(sh).Ok?
    ensures
      var cands := MaCandidates(sh, pagu);
      var idx := FilterIndices(cands, Parsed);
      && Selects(MaTable(sh).value, cands, idx)
      && (forall i :: i in idx <==> 0 <= i < |sh.rows| && ParseKodeMa(sh.rows[i][3]).0.Some?)
  {
    var cands := MaCandidates(sh, pagu);
    FilterSelects(cands, Parsed);
    forall i | 0 <= i < |sh.rows| ensures Parsed(cands[i]) <==> ParseKodeMa(sh.rows[i][3]).0.Some? {
      MaCandidateParsed(sh.rows[i], pagu[i]);
    }
  }

  lemma MaCandidateParsed(row: seq<Cell>, pagu: Amount)
    requires |row| >= 8
    ensures Parsed(MaCandidate(row, pagu)) <==> ParseKodeMa(row[3]).0.Some?
  {
  }

  /** A row whose code parses but names no controller stays in `ma`, with a missing `pengendali`. */
  lemma MaKeepsUnmapped(sh: Sheet, pagu: seq<Amount>, i: nat)
    requires Rectangular(sh) && sh.width >= 8 && NormaliseColumn(Column(sh, 7)) == Ok(pagu)
    requires i < |sh.rows| && ParseKodeMa(sh.rows[i][3]).0.Some?
    requires ParseKodeMa(sh.rows[i][3]).1.value !in PengendaliMap
    ensures MaTable(sh).Ok?
    ensures MaCandidate(sh.rows[i], pagu[i]) in MaTable(sh).value
    ensures MaCandidate(sh.rows[i], pagu[i]).pengendali.None?
  {
    var cands := MaCandidates(sh, pagu);
    MaCandidateParsed(sh.rows[i], pagu[i]);
    FilterMember(cands, Parsed);
    assert cands[i] in cands;
  }

  /**
   * What every row of `ma` satisfies: a six-digit budget code and a
   * controller code, both the parts of its own code cell; the controller
   * name `PENGENDALI_MAP` gives; a key that is the trimmed code text; and a
   * non-negative or missing `pagu`.
   */
  predicate MaRowValid(m: MaRow)
  {
    && Parsed(m) && |m.kodeAnggaran.value| == 6
    && (m.kodeAnggaran, m.kodePengendali) == ParseKodeMa(m.kodeMa)
    && m.pengendali == PengendaliOf(m.kodePengendali)
    && m.key == Strip(CellText(m.kodeMa))
    && NonNegative(m.pagu)
  }

  /** Every row of a built `ma` is valid. */
  lemma MaRowFacts(sh: Sheet, pagu: seq<Amount>)
    requires Rectangular(sh) && sh.width >= 8 && NormaliseColumn(Column(sh, 7)) == Ok(pagu)
    ensures MaTable(sh).Ok?
    ensures forall m :: m in MaTable(sh).value ==> MaRowValid(m)
  {
    NormaliseColumnNonNegative(Column(sh, 7));
    var cands := MaCandidates(sh, pagu);
    FilterMember(cands, Parsed);
    forall i | 0 <= i < |cands| && Parsed(cands[i]) ensures MaRowValid(cands[i]) {
      MaCandidateValid(sh.rows[i], pagu[i]);
    }
  }

  lemma MaCandidateValid(row: seq<Cell>, pagu: Amount)
    requires |row| >= 8 && Parsed(MaCandidate(row, pagu)) && NonNegative(pagu)
    ensures MaRowValid(MaCandidate(row, pagu))
  {
  }

  /** A row of `simrs`; `tanggal` is a day number and `bulan` its month's label. */
  datatype SimrsRow = SimrsRow(
    kepada: Cell, tanggal: Option<int>, noTransaksi: Cell, namaAnggaran: Cell,
    kodeMa: Option<string>, nilai: Amount, key: string,
    kodeAnggaran: Option<string>, kodePengendali: Option<string>,
    pengendali: Option<string>, bulan: string)

  /**
   * `dt.to_period("M").astype(str)`: the month label of a date, and `"NaT"`
   * for a date that did not parse (a label like any other, not a missing value).
   */
  function Bulan(tanggal: Option<int>, monthOf: int -> string): string
  {
    match tanggal
    case None => "NaT"
    case Some(d) => monthOf(d)
  }

  /**
   * The `simrs` row built from one worksheet row (columns 0, 1, 2, 3, 5 and
   * 8) and its converted `nilai`, before rows are dropped. `toDate` is
   * `pd.to_datetime(..., errors="coerce")` on one cell. A row without a
   * code is dropped before its key is computed, so its key is left empty.
   */
  function SimrsCandidate(row: seq<Cell>, nilai: Amount, toDate: Cell -> Option<int>, monthOf: int -> string): SimrsRow
    requires |row| >= 9
  {
    var kode := EkstrakKodeSimrs(row[5]);
    var key := if kode.Some? then Strip(kode.value) else "";
    var parts := ParseKodeMa(kode);
    var tanggal := toDate(row[1]);
    SimrsRow(row[0], tanggal, row[2], row[3], kode, nilai, key, parts.0, parts.1,
      PengendaliOf(parts.1), Bulan(tanggal, monthOf))
  }

  /** `dropna(subset=["kode_ma"])` keeps a row when a code was extracted. */
  predicate HasCode(r: SimrsRow)
  {
    r.kodeMa.Some?
  }

  function SimrsCandidates(sh: Sheet, nilai: seq<Amount>, toDate: Cell -> Option<int>, monthOf: int -> string): seq<SimrsRow>
    requires Rectangular(sh) && sh.width >= 9 && |nilai| == |sh.rows|
  {
    seq(|sh.rows|, i requires 0 <= i < |sh.rows| => SimrsCandidate(sh.rows[i], nilai[i], toDate, monthOf))
  }

  /** The `simrs` table built from the transaction worksheet (app.py:232-250). */
  function SimrsTable(sh: Sheet, toDate: Cell -> Option<int>, monthOf: int -> string): (r: Result<seq<SimrsRow>, Error>)
    requires Rectangular(sh)
    ensures r.Err? <==> sh.width < 9 || exists i :: 0 <= i < |sh.rows| && NormaliseCell(sh.rows[i][8]).Err?
  {
    if sh.width < 9 then Err(ColumnMissing)
    else
      ConvertColumnSpec(Column(sh, 8), NormaliseCell);
      match NormaliseColumn(Column(sh, 8))
      case Err(e) => Err(e)
      case Ok(nilai) => Ok(Filter(SimrsCandidates(sh, nilai, toDate, monthOf), HasCode))
  }

  /** Builds `simrs`: positional columns, the converted `nilai`, the extracted code, then the drop and the derived columns. */
  method BuildSimrs(sh: Sheet, toDate: Cell -> Option<int>, monthOf: int -> string) returns (r: Result<seq<SimrsRow>, Error>)
    requires Rectangular(sh)
    ensures r == SimrsTable(sh, toDate, monthOf)
  {
    if sh.width < 9 {
      return Err(ColumnMissing);
    }
    var nilai := Convert(Column(sh, 8), NormaliseCell);
    if nilai.Err? {
      return Err(nilai.error);
    }
    var rows := Where(SimrsCandidates(sh, nilai.value, toDate, monthOf), HasCode);
    return Ok(rows);
  }

  /** `simrs` keeps, in worksheet order, exactly the rows whose free text (column 5) holds a code. */
  lemma SimrsKeepsCodedRows(sh: Sheet, nilai: seq<Amount>, toDate: Cell -> Option<int>, monthOf: int -> string)
    requires Rectangular(sh) && sh.width >= 9 && NormaliseColumn(Column(sh, 8)) == Ok(nilai)
    ensures SimrsTable(sh, toDate, monthOf).Ok?
    ensures
      var cands := SimrsCandidates(sh, nilai, toDate, monthOf);
      var idx := FilterIndices(cands, HasCode);
      && Selects(SimrsTable(sh, toDate, monthOf).value, cands, idx)
      && (forall i :: i in idx <==> 0 <= i < |sh.rows| && EkstrakKodeSimrs(sh.rows[i][5]).Some?)
  {
    FilterSelects(SimrsCandidates(sh, nilai, toDate, monthOf), HasCode);
  }

  /**
   * What every row of `simrs` satisfies: a key equal to its extracted code
   * (stripping changes nothing), code parts that are never missing and are
   * those of the code, the controller name of its controller code, and a
   * non-negative or missing `nilai`.
   */
  predicate SimrsRowValid(r: SimrsRow)
  {
    && r.kodeMa.Some? && r.key == r.kodeMa.value
    && r.kodeAnggaran.Some? && r.kodePengendali.Some?
    && (r.kodeAnggaran, r.kodePengendali) == ParseKodeMa(Some(r.key))
    && r.pengendali == PengendaliOf(r.kodePengendali)
    && NonNegative(r.nilai)
  }

  /** Every row of a built `simrs` is valid. */
  lemma SimrsRowFacts(sh: Sheet, nilai: seq<Amount>, toDate: Cell -> Option<int>, monthOf: int -> string)
    requires Rectangular(sh) && sh.width >= 9 && NormaliseColumn(Column(sh, 8)) == Ok(nilai)
    ensures SimrsTable(sh, toDate, monthOf).Ok?
    ensures forall r :: r in SimrsTable(sh, toDate, monthOf).value ==> SimrsRowValid(r)
  {
    NormaliseColumnNonNegative(Column(sh, 8));
    var cands := SimrsCandidates(sh, nilai, toDate, monthOf);
    FilterMember(cands, HasCode);
    forall i | 0 <= i < |cands| && HasCode(cands[i]) ensures SimrsRowValid(cands[i]) {
      SimrsCandidateValid(sh.rows[i], nilai[i], toDate, monthOf);
    }
  }

  /**
   * A candidate with a code is valid, and its code parts are those of the
   * original text: the code `ekstrak_kode_simrs` cut out parses the same way
   * the whole cell does.
   */
  lemma SimrsCandidateValid(row: seq<Cell>, nilai: Amount, toDate: Cell -> Option<int>, monthOf: int -> string)
    requires |row| >= 9 && HasCode(SimrsCandidate(row, nilai, toDate, monthOf)) && NonNegative(nilai)
    ensures SimrsRowValid(SimrsCandidate(row, nilai, toDate, monthOf))
    ensures (SimrsCandidate(row, nilai, toDate, monthOf).kodeAnggaran,
             SimrsCandidate(row, nilai, toDate, monthOf).kodePengendali) == ParseKodeMa(row[5])
  {
    EkstrakThenParse(row[5]);
  }
}
