# Budget realisation dashboard — reconciliation core in Dafny

`app.py` is a Streamlit dashboard for a hospital's budget office. It reads two
spreadsheets:

- the budget plan (`ma`), one row per budget line with its code and its ceiling (`pagu`);
- the transaction register exported by the hospital information system (`simrs`), one row per spending document with its amount (`nilai`).

The dashboard reconciles the two. For each budget line it computes:

- the amount spent (`capaian`);
- the number of positive documents (`jumlah_transaksi`);
- the remainder (`sisa`);
- the utilisation percentage (`persen`).

On top of that it builds a per-controller rollup with a `TOTAL` row (tab 1) and a filtered transaction report with totals (tab 2).

This project models that core and proves properties of it.

| module | file | models |
|---|---|---|
| `Wrappers` | wrappers.dfy | `Option` and `Result` |
| `Seqs` | seqs.dfy | boolean-mask selection (`Filter`), column sums, group sums and their general laws |
| `Text` | text.dfy | `str.strip`, `str.replace` on one character, decimal digits, `sorted(unique())` on strings |
| `Kode` | kode.dfy | `parse_kode_ma` and `ekstrak_kode_simrs`: the leftmost match of `\d{6}\.\d+\.\d+`, as `re.search` finds it, with `\d` read as an ASCII digit |
| `Angka` | angka.dfy | `normalisasi_angka`, Python `float()` on text, `format_rp`, `warna_persen` |
| `Ledger` | ledger.dfy | building the `ma` and `simrs` tables from the worksheets, the controller map |
| `Realisasi` | realisasi.dfy | month filter, `groupby("key")` aggregation, the left merge into `lap` |
| `Rekap` | rekap.dfy | controller selection, `groupby("pengendali")` rollup and the `TOTAL` row |
| `Laporan` | laporan.dfy | the tab-2 report filters and its three totals |

How the model represents the data:

- A worksheet is a rectangular grid of cells. A cell is `Option<string>`, where `None` is an empty cell.
- An amount is `Option<real>`, where `None` stands for NaN.
- A percentage is a `Float`: finite, ±infinity or NaN.
- Pandas column pipelines become methods. Each method is proved equal to a specification function, with loops where app.py iterates and `Where` for each boolean-mask step:
  - `BuildMa` and `BuildSimrs` build the tables;
  - `HitungRealisasi` and `GroupByKey` compute the reconciliation;
  - `BuildRekap` builds the rollup;
  - `BuildLaporan` and `HitungRingkasan` build the report and its totals.
- The properties are lemmas about those functions.

Three behaviours of app.py that a reader might not expect; the model follows them as written:

- Budget lines whose controller digit is not in the controller map are kept, with no controller (app.py:225-227). They are not dropped.
- The `TOTAL` row's percentage has no `fillna` (app.py:446). It is NaN when both sums are 0, and +infinity when only the ceiling sum is 0.
- `normalisasi_angka` replaces every `-` by `0` (app.py:145). A negative amount such as `-1.234` therefore reads as 1234, not as -1234.

## Model

| member | source | states |
|---|---|---|
| Kode.ParseKodeMa | app.py:166-172 | both parts are present or both are absent; a missing cell gives neither; the first part is exactly six digits and the second a non-empty run of digits |
| Kode.ParseKodeMaLeftmost | app.py:169-172 | when the code pattern first matches at position i, the result is the six digits at i and the digit run between the first and second dot of that match |
| Kode.EkstrakKodeSimrs | app.py:174-178 | a code is extracted exactly when `parse_kode_ma` finds one in the same text; the code starts with six digits and a dot and has at least ten characters |
| Kode.EkstrakKodeSimrsLeftmost | app.py:174-178 | when the code pattern first matches at position i, the whole match from i is returned |
| Kode.NoMatchNone | app.py:166-178 | text in which the pattern matches nowhere gives `(None, None)` and `None` |
| Kode.MatchAtComplete | app.py:169 | greedy digit runs lose no match: whenever the pattern can match at a position, the matcher finds that match there |
| Kode.FirstMatchIs | app.py:169 | the search returns the match at the leftmost position where one exists |
| Kode.EkstrakThenParse | app.py:239-247 | parsing an extracted code gives what parsing the original text gives, both parts are present, and stripping the extracted code changes nothing |
| Kode.ParseKodeMaExample | app.py:166-172 | `"123456.7.89"` parses to `("123456", "7")` |
| Kode.ParseKodeMaShiftedExample | app.py:169-172 | in `"1234567.1.2"` the match starts at the second digit, giving `("234567", "1")` |
| Kode.ParseKodeMaBadExample | app.py:170-171 | text without a code gives `(None, None)` |
| Kode.EkstrakKodeSimrsExample | app.py:174-178 | `"520111.1.0012 ATK"` yields `"520111.1.0012"` |
| Angka.NormalisasiAngka | app.py:140-149 | a normalised amount is never negative and never -infinity, because every `-` has become `0` |
| Angka.NormalisasiPlaceholder | app.py:145-147 | a dash or a blank between any spaces normalises to 0 |
| Angka.PlaceholderBlank | app.py:146-147 | an all-whitespace cell normalises to 0 |
| Angka.NormalisasiPlaceholderExamples | app.py:145-147 | `"-"`, `""` and `"  "` all normalise to 0 |
| Angka.NormalisasiNanWord | app.py:142-148 | any capitalisation of `nan` reads as NaN, so an empty cell rendered by `astype(str)` stays NaN |
| Angka.NormalisasiRejects | app.py:148 | a cell holding an ASCII symbol other than digits, letters, spaces and `.,-+_` is not a number (the conversion fails) |
| Angka.NormalisasiRejectsExample | app.py:148 | `"#N/A"` is not a number |
| Angka.NormalisasiLocale | app.py:143-148 | an Indonesian-format amount `d.ddd,ff` (dot thousands, comma decimals) normalises to its value |
| Angka.NormalisasiLocaleExample | app.py:143-148 | `"1.234.567,89"` normalises to 1234567.89 |
| Angka.NormalisasiFormatRp | app.py:140-152 | round trip: normalising `format_rp(n)` gives back n for every natural n |
| Angka.NormalisasiFormatRpNegative | app.py:145-152 | for a negative x, normalising `format_rp(x)` gives -x, not x: the sign does not survive |
| Angka.PyFloat | app.py:148 | `float()` of empty or all-whitespace text fails |
| Angka.PyFloatDigits | app.py:148 | `float()` of a digit string is the number it spells |
| Angka.PyFloatNan | app.py:148 | `float("nan")` is NaN |
| Angka.PyFloatInf | app.py:148 | `float("inf")` is +infinity |
| Angka.PyFloatNegInf | app.py:148 | `float("-inf")` is -infinity |
| Angka.FormatRp | app.py:151-152 | `format_rp` writes the decimal digits of the absolute value grouped in threes by `.`, with `-` in front of a negative value |
| Angka.GroupReplace | app.py:152 | grouping by `,` and then swapping `,` for `.` is grouping by `.` |
| Angka.FormatRpShape | app.py:151-152 | in `format_rp(n)` a `.` stands exactly at every fourth position from the right, all else is digits, and removing the dots leaves `str(n)` |
| Angka.FormatRpExample | app.py:151-152 | `format_rp(1234567) == "1.234.567"`, `format_rp(999) == "999"`, `format_rp(-1000) == "-1.000"` |
| Angka.WarnaPersen | app.py:154-164 | the style is empty exactly when the label with its `%` removed is not a number; otherwise it is red, yellow or green |
| Angka.WarnaPersenText | app.py:154-164 | a label `t%` or `t %` gets the style of `float(t)`: none when that fails, red from 100, yellow from 70, green below |
| Angka.WarnaPersenLabel | app.py:154-164 | a two-decimal label of a finite percentage, as tab 1 writes it, is coloured by its value's band |
| Angka.WarnaPersenSpecial | app.py:154-164 | the labels of +infinity are red; the labels of NaN and -infinity are green, since every comparison with NaN is false |
| Angka.WarnaPersenRedExample | app.py:159-160 | `"100.00%"` is red |
| Angka.WarnaPersenYellowExample | app.py:161-162 | `"70.00 %"` is yellow |
| Angka.WarnaPersenGreenExample | app.py:163-164 | `"69.99%"` is green |
| Ledger.NormaliseCellFacts | app.py:140-149 | an empty cell becomes NaN; every amount read from a cell is non-negative |
| Ledger.ConvertColumnSpec | app.py:148 | the column converts exactly when every cell does; the values are converted cell by cell; a failure reports the first failing cell |
| Ledger.ConvertFails | app.py:148 | once a prefix of the column fails, the whole column fails with the same error |
| Ledger.Convert | app.py:140-149 | the loop over the column computes the column conversion |
| Ledger.NormaliseColumnNonNegative | app.py:140-149 | every amount of a normalised column is non-negative |
| Ledger.PengendaliOfExamples | app.py:105-114 | digit `5` maps to `INSTALASI SIM RS`; `9`, `01` and a missing code map to no controller |
| Ledger.BuildMa | app.py:214-227 | building `ma` computes the `ma` table of the worksheet, or the error |
| Ledger.MaTable | app.py:214-227 | the `ma` table fails exactly when the worksheet has fewer than 8 columns or some ceiling cell is not a number |
| Ledger.MaKeepsParsedRows | app.py:221-227 | `ma` keeps, in worksheet order, exactly the rows whose budget code parses |
| Ledger.MaCandidateParsed | app.py:221-227 | a row survives the `dropna` exactly when its code parses |
| Ledger.MaKeepsUnmapped | app.py:225-227 | a row whose controller digit is not in the map is kept, with no controller |
| Ledger.MaRowFacts | app.py:214-227 | every `ma` row has a six-digit budget code and a controller code, both parsed from its `kode_ma`; its controller is the map's entry; its key is the stripped text of `kode_ma`; its ceiling is non-negative |
| Ledger.BuildSimrs | app.py:234-250 | building `simrs` computes the `simrs` table of the worksheet, or the error |
| Ledger.SimrsTable | app.py:234-250 | the `simrs` table fails exactly when the worksheet has fewer than 9 columns or some amount cell is not a number |
| Ledger.SimrsKeepsCodedRows | app.py:239-243 | `simrs` keeps, in worksheet order, exactly the rows whose free text holds a budget code |
| Ledger.SimrsRowFacts | app.py:234-250 | every `simrs` row has its extracted code as its key; both code parts are present and parsed from the key; its controller is the map's entry; its amount is non-negative |
| Ledger.SimrsCandidateValid | app.py:239-248 | a row's code parts are those of parsing its free text |
| Text.SortedDistinctSpec | app.py:265 | `sorted(unique())` is strictly ascending, has no duplicates and holds exactly the values present |
| Text.Strip | app.py:146 | defines `strip()` as `lstrip()` followed by `rstrip()`; its properties are the `Strip` lemmas below |
| Text.StripLeftSpec | app.py:146 | `lstrip()` removes a prefix made only of whitespace and stops at a character that is not whitespace |
| Text.StripRightSpec | app.py:146 | `rstrip()` removes a suffix made only of whitespace and stops at a character that is not whitespace |
| Text.StripShape | app.py:146 | `strip()` returns the slice of its input between an all-whitespace prefix and an all-whitespace suffix, and that slice neither starts nor ends with whitespace |
| Text.StripEmpty | app.py:146-147 | `strip()` gives the empty string exactly when its input is all whitespace |
| Text.StripChars | app.py:146 | every character `strip()` keeps occurs in its input |
| Text.StripAround | app.py:146 | whitespace around a core that neither starts nor ends with whitespace is exactly what `strip()` removes |
| Realisasi.AllMonthsKeepAll | app.py:265-274 | selecting all listed months keeps every transaction, including those without a date |
| Realisasi.GroupByKey | app.py:276-283 | the grouping has exactly the keys present; each key's entry is the sum of its amounts (NaN skipped) and the count of its positive amounts |
| Realisasi.GroupTotal | app.py:276-283 | the group sums over the sorted distinct keys add up to the sum of all amounts |
| Realisasi.AllKeysListed | app.py:276-283 | the group keys are distinct and every transaction's key is one of them |
| Realisasi.HitungRealisasi | app.py:271-289 | `lap` has one row per `ma` row, in order, each reconciled against the month-filtered transactions; budget lines with the same key get the same spent amount and count |
| Realisasi.Reconciled | app.py:285-289 | a `lap` row keeps its allocation; remainder plus spent is the ceiling, and the remainder is NaN with the ceiling; the percentage is never NaN and is infinite exactly when the ceiling is 0 and the spent amount is not; the count is at most the number of transactions with the key |
| Realisasi.PersenFacts | app.py:286-289 | the percentage is never NaN; it is infinite exactly when the ceiling is 0 and the spent amount is not; it is 0 for a NaN ceiling or nothing spent; otherwise percentage × ceiling = 100 × spent |
| Realisasi.ReconciledFacts | app.py:285-288 | the spent amount is non-negative; the remainder is ceiling minus spent, NaN when the ceiling is NaN; the count is at most the number of matching transactions |
| Realisasi.Unmatched | app.py:285-289 | a budget line with no transaction has spent 0, count 0, the whole ceiling remaining and 0 percent |
| Realisasi.DefaultMonths | app.py:265-289 | with the default month list the reconciliation equals the one over all transactions |
| Rekap.NamesMember | app.py:310 | the controller names listed are exactly those present in `lap` |
| Rekap.DefaultSelection | app.py:310-328 | the default selection keeps exactly the rows with a controller; when no row has one, there are no such rows |
| Rekap.NamesOfMapped | app.py:310-328 | dropping the rows without a controller leaves the same controller names |
| Rekap.EmptySelectionSameRekap | app.py:310-449 | an empty selection and the full default selection give the same rollup |
| Rekap.BuildRekap | app.py:432-449 | the loop accumulating the group rows and their sums computes the rollup table |
| Rekap.RekapTable | app.py:432-449 | the rollup ends with the `TOTAL` row, whose ceiling and spent amount are the sums over the rows above it |
| Rekap.RekapGroups | app.py:432-449 | one group row per distinct controller name among the selected rows, in strictly ascending order, then the `TOTAL` row |
| Rekap.SumGroupRows | app.py:432-445 | the sums over the group rows are the sums of the per-controller group sums |
| Rekap.TotalIsSum | app.py:432-445 | the `TOTAL` ceiling and spent amount are the sums over all selected rows that have a controller |
| Rekap.TotalPersen | app.py:446 | the `TOTAL` percentage is NaN exactly when both sums are 0, +infinity exactly when only the ceiling sum is 0, and otherwise finite with percentage × ceiling = 100 × spent |
| Laporan.BuildLaporan | app.py:508-522 | applying each filter that is set, in turn, computes the report, or fails when the range picker holds only a start date |
| Laporan.LaporanData | app.py:508-522 | the report fails exactly when the range picker holds only a start date; otherwise every row of it is a transaction of `simrs` |
| Laporan.Conjunctive | app.py:508-522 | the filters combine with AND: the report is exactly the transactions passing every selection that is set, in their original order; with only a start date it fails |
| Laporan.ReportSelects | app.py:508-522 | the report is an order-preserving subsequence of the transactions, at exactly the positions where every selection holds |
| Laporan.NothingSelected | app.py:508-522 | with nothing selected and no range, the report is every transaction |
| Laporan.InitialRange | app.py:497-522 | with the initial range from the earliest to the latest date, the report drops exactly the transactions without a date |
| Laporan.HitungRingkasan | app.py:536-538 | the total is the sum of the amounts (NaN skipped), the document count is the number of positive amounts, and the cancelled count is the number of zero amounts |
| Laporan.CountsAddUp | app.py:536-538 | with no negative amounts, positive, cancelled and NaN-valued documents together are all the documents |
| Laporan.DokumenPlusBatal | app.py:536-538 | when every amount is present, the document count plus the cancelled count is the number of rows |

## Left out

- Streamlit layout, login, file upload and session state, the Google Drive download, Excel export and the charts are left out. They are user interface and I/O.
- The caption with the last update date and the tab-1 detail view of one budget line (app.py:255-260, 356-396) are display only and not modelled.
- Per-row formatting of display tables (`format_rp` on floats, `f"{x:.2f}%"`) is not modelled. The labels appear only as inputs to `Angka.WarnaPersenLabel`.
- Angka.FormatRp: defined on integers only. Python's rounding of a float to zero decimals (half to even) is not modelled.
- Numbers are exact reals. Floating-point rounding in sums and divisions is not modelled, and neither are amounts above 2^53, which a float64 cannot hold exactly: there `f"{x:,.0f}"` prints a rounded value, so the round trip of `Angka.NormalisasiFormatRp` holds in app.py only up to 2^53.
- Ledger.NormaliseCell: a cell reading `inf` or `infinity` is reported as an error (`InfiniteAmount`). The model does not carry an infinite amount through the sums as pandas would.
- Angka.PyFloat: exponents (`1e3`), digit-group underscores and non-ASCII digits accepted by Python's `float()` are not modelled. `Angka.NormalisasiRejects` therefore covers only ASCII symbols other than `.,-+_`.
- Spreadsheet cells are modelled as the text `astype(str)` produces. A cell that pandas reads as a float (for example `1500000.0`) is modelled through that text only.
- Date parsing (`pd.to_datetime(..., errors="coerce")`) and month rendering (`dt.to_period("M")`) are parameters of the `simrs` builder. Dates are day numbers, with any time of day ignored. A missing date gives the month text `NaT`.
- The tab-1 month multiselect (app.py:304-308) is displayed, but app.py computes `lap` before it with all months selected. The model's `HitungRealisasi` takes the month list as an input, and `Realisasi.DefaultMonths` covers app.py's default.
- Kode.ParseKodeMa: `\d` is read as an ASCII digit `0`-`9`. Python's `re` also matches every other Unicode decimal digit (Arabic-Indic, Devanagari, fullwidth and so on), so a code written in such digits is dropped by the model but kept by app.py.
- Kode.EkstrakKodeSimrs: reads `\d` as an ASCII digit, as Kode.ParseKodeMa does, and so also drops a code written in other Unicode decimal digits.
- Laporan.BuildLaporan: requires the range picker to hold at most two dates, which is all it can return.
- Pandas' behaviour when a table has no rows at the row-wise `apply` steps (app.py:221-223, 245-247) is not modelled. The model builds empty tables there.
