/**
 * Number handling of app.py: Python's `float()` on text, `normalisasi_angka`
 * (Indonesian-locale cell text to a number), `format_rp` (an integer to
 * dotted thousands) and `warna_persen` (a percentage label to a cell style).
 * Finite values are exact reals; binary rounding is not modelled.
 */
module Angka {
  import opened Wrappers
  import opened Seqs
  import opened Text

  /** A Python float: a finite value, an infinity, or NaN. */
  datatype Float = Finite(value: real) | Infinite(negative: bool) | NaN

  /** Python's `x >= r` for a float `x` and a finite `r`: false whenever `x` is NaN. */
  predicate AtLeast(x: Float, r: real)
  {
    match x
    case Finite(v) => v >= r
    case Infinite(neg) => !neg
    case NaN => false
  }

  /** Position of the first `c` in `s`. */
  function IndexOf(s: string, c: char): (p: nat)
    requires c in s
    ensures p < |s|
    decreases |s|
  {
    if s[0] == c then 0 else 1 + IndexOf(s[1..], c)
  }

  /** `IndexOf` finds `c`, and no earlier `c`. */
  lemma {:induction false} IndexOfSpec(s: string, c: char)
    requires c in s
    ensures s[IndexOf(s, c)] == c
    ensures forall q :: 0 <= q < IndexOf(s, c) ==> s[q] != c
    decreases |s|
  {
    if s[0] != c {
      assert c in s[1..];
      IndexOfSpec(s[1..], c);
    }
  }

  /** The value of the digits after a decimal point: `0.d1d2...`. */
  function FracValue(f: string): (v: real)
    requires AllDigits(f)
    ensures 0.0 <= v < 1.0
    decreases |f|
  {
    if f == [] then 0.0 else (DigitValue(f[0]) as real + FracValue(f[1..])) / 10.0
  }

  /**
   * An unsigned decimal literal as Python's `float()` reads it: digits with at
   * most one `.`, and at least one digit on one side of it.
   */
  function UnsignedDecimal(t: string): (r: Option<real>)
    ensures r.Some? ==> r.value >= 0.0
  {
    if '.' in t then
      var p := IndexOf(t, '.');
      var whole, frac := t[..p], t[p + 1..];
      if AllDigits(whole) && AllDigits(frac) && |whole| + |frac| > 0 then
        Some(NatOf(whole) as real + FracValue(frac))
      else None
    else if t != [] && AllDigits(t) then Some(NatOf(t) as real)
    else None
  }

  /** ASCII lower case, as `float()` compares its keywords. */
  function Lower(c: char): char
  {
    if 'A' <= c <= 'Z' then (c as int + 32) as char else c
  }

  predicate IsLetter(c: char)
  {
    'a' <= c <= 'z' || 'A' <= c <= 'Z'
  }

  /** `s` spells the lower-case word `w`, in any mix of cases. */
  predicate IsWord(s: string, w: string)
  {
    |s| == |w| && forall i :: 0 <= i < |s| ==> Lower(s[i]) == w[i]
  }

  /** The keywords `float()` accepts instead of digits: `nan`, `inf` and `infinity`. */
  function Keyword(body: string, neg: bool): Option<Float>
  {
    if IsWord(body, "nan") then Some(NaN)
    else if IsWord(body, "inf") || IsWord(body, "infinity") then Some(Infinite(neg))
    else None
  }

  /**
   * What follows the sign: a keyword when it starts with a letter, a decimal
   * literal otherwise (no decimal literal starts with a letter).
   */
  function ReadUnsigned(body: string, neg: bool): Option<Float>
  {
    if body != [] && IsLetter(body[0]) then Keyword(body, neg)
    else
      match UnsignedDecimal(body)
      case None => None
      case Some(v) => Some(Finite(if neg then -v else v))
  }

  /**
   * Python's `float(s)` on text: surrounding whitespace ignored, an optional
   * sign, then a keyword or a decimal literal. `None` stands for the
   * ValueError `float()` raises.
   */
  function PyFloat(s: string): (r: Option<Float>)
    ensures Strip(s) == [] ==> r.None?
  {
    ReadSigned(Strip(s))
  }

  /** `float()` on text with no surrounding whitespace. */
  function ReadSigned(t: string): Option<Float>
  {
    var signed := t != [] && (t[0] == '-' || t[0] == '+');
    ReadUnsigned(if signed then t[1..] else t, signed && t[0] == '-')
  }

  /** The three substitutions of `normalisasi_angka`, before stripping. */
  function Substituted(cell: string): string
  {
    ReplaceAll(ReplaceAll(Without(cell, '.'), ',', '.'), '-', '0')
  }

  /** The text `normalisasi_angka` hands to `astype(float)` for one cell. */
  function Residue(cell: string): string
  {
    var t := Strip(Substituted(cell));
    if t == "" then "0" else t
  }

  /**
   * `normalisasi_angka` on one cell, already rendered by `astype(str)`:
   * thousands dots deleted, the decimal comma made a point, every `-` made
   * `0`, whitespace stripped, the empty string read as 0, and the rest
   * parsed by `float()`. `None` is the ValueError that aborts the column.
   */
  function NormalisasiAngka(cell: string): (r: Option<Float>)
    ensures r.Some? && r.value.Finite? ==> r.value.value >= 0.0
    ensures r != Some(Infinite(true))
  {
    ResidueNonNegative(cell);
    PyFloat(Residue(cell))
  }

  lemma DigitsHaveNo(d: string, c: char)
    requires AllDigits(d) && !IsDigit(c)
    ensures c !in d
  {
    forall i | 0 <= i < |d| ensures d[i] != c {
      assert IsDigit(d[i]);
    }
  }

  /** Text that starts with a digit is no keyword. */
  lemma ReadDigitFirst(body: string, neg: bool)
    requires body != [] && IsDigit(body[0])
    ensures ReadUnsigned(body, neg) == match UnsignedDecimal(body)
      case None => None
      case Some(v) => Some(Finite(if neg then -v else v))
  {
  }

  /** Text with no whitespace around it that starts with a digit has no sign: `float()` reads it unsigned. */
  lemma PyFloatUnsigned(t: string)
    requires t != [] && Strip(t) == t && IsDigit(t[0])
    ensures PyFloat(t) == match UnsignedDecimal(t)
      case None => None
      case Some(v) => Some(Finite(v))
  {
    ReadDigitFirst(t, false);
  }

  lemma PyFloatDigits(d: string)
    requires d != [] && AllDigits(d)
    ensures PyFloat(d) == Some(Finite(NatOf(d) as real))
  {
    StripDigits(d);
    PyFloatUnsigned(d);
    DigitsHaveNo(d, '.');
  }

  lemma PyFloatZero()
    ensures PyFloat("0") == Some(Finite(0.0))
  {
    PyFloatDigits("0");
    assert NatOf("0") == 0;
  }

  lemma StripDigits(d: string)
    requires d != [] && AllDigits(d)
    ensures Strip(d) == d
  {
    StripAround([], d, []);
    assert [] + d + [] == d;
  }

  /** Once the substitutions give `u` and stripping leaves the non-empty `m`, the cell reads as `float(m)`. */
  lemma NormalisasiVia(cell: string, u: string, m: string)
    requires Substituted(cell) == u && Strip(u) == m && m != ""
    ensures NormalisasiAngka(cell) == PyFloat(m)
  {
  }

  /**
   * Every `-` becomes `0` before parsing, so the residue of a cell never
   * reads as a negative number or as minus infinity.
   */
  lemma ResidueNonNegative(cell: string)
    ensures PyFloat(Residue(cell)).Some? && PyFloat(Residue(cell)).value.Finite? ==>
      PyFloat(Residue(cell)).value.value >= 0.0
    ensures PyFloat(Residue(cell)) != Some(Infinite(true))
  {
    var t0 := Substituted(cell);
    ReplaceRemoves(ReplaceAll(Without(cell, '.'), ',', '.'), '-', '0');
    StripChars(t0);
    ResidueNoMinus(cell);
    PyFloatNoMinus(Residue(cell));
  }

  lemma ResidueNoMinus(cell: string)
    requires '-' !in Strip(Substituted(cell))
    ensures '-' !in Residue(cell)
  {
  }

  /** Text without a `-` cannot be read as a negative number. */
  lemma PyFloatNoMinus(u: string)
    requires '-' !in u
    ensures PyFloat(u).Some? && PyFloat(u).value.Finite? ==> PyFloat(u).value.value >= 0.0
    ensures PyFloat(u) != Some(Infinite(true))
  {
    StripChars(u);
    var t := Strip(u);
    if t != [] {
      assert t[0] in t;
    }
  }

  /** A placeholder cell, `-` or blank with any whitespace around it, normalises to 0. */
  lemma NormalisasiPlaceholder(ws1: string, ws2: string)
    requires AllSpace(ws1) && AllSpace(ws2)
    ensures NormalisasiAngka(ws1 + "-" + ws2) == Some(Finite(0.0))
    ensures NormalisasiAngka(ws1 + ws2) == Some(Finite(0.0))
  {
    PlaceholderDash(ws1, ws2);
    PlaceholderBlank(ws1 + ws2);
  }

  lemma PlaceholderDash(ws1: string, ws2: string)
    requires AllSpace(ws1) && AllSpace(ws2)
    ensures NormalisasiAngka(ws1 + "-" + ws2) == Some(Finite(0.0))
  {
    SubstitutedDash(ws1, ws2);
    StripAround(ws1, "0", ws2);
    NormalisasiVia(ws1 + "-" + ws2, ws1 + "0" + ws2, "0");
    PyFloatZero();
  }

  lemma SubstitutedDash(ws1: string, ws2: string)
    requires AllSpace(ws1) && AllSpace(ws2)
    ensures Substituted(ws1 + "-" + ws2) == ws1 + "0" + ws2
  {
    SpacesHaveNo(ws1);
    SpacesHaveNo(ws2);
    var s := ws1 + "-" + ws2;
    assert '.' !in s && ',' !in s;
    WithoutAbsent(s, '.');
    ReplaceAbsent(s, ',', '.');
    ReplaceConcat(ws1 + "-", ws2, '-', '0');
    ReplaceConcat(ws1, "-", '-', '0');
    ReplaceAbsent(ws1, '-', '0');
    ReplaceAbsent(ws2, '-', '0');
    assert ReplaceAll("-", '-', '0') == "0";
  }

  lemma PlaceholderBlank(b: string)
    requires AllSpace(b)
    ensures NormalisasiAngka(b) == Some(Finite(0.0))
  {
    SpacesHaveNo(b);
    WithoutAbsent(b, '.');
    ReplaceAbsent(b, ',', '.');
    ReplaceAbsent(b, '-', '0');
    assert Substituted(b) == b;
    StripAllSpace(b);
    assert Residue(b) == "0";
    PyFloatZero();
  }

  lemma SpacesHaveNo(ws: string)
    requires AllSpace(ws)
    ensures '.' !in ws && ',' !in ws && '-' !in ws
  {
    forall i | 0 <= i < |ws| ensures ws[i] != '.' && ws[i] != ',' && ws[i] != '-' {
      assert IsSpace(ws[i]);
    }
  }

  /** Letters pass the substitutions unchanged. */
  lemma SubstitutedLetters(s: string)
    requires forall i :: 0 <= i < |s| ==> IsLetter(s[i])
    ensures Substituted(s) == s
  {
    assert '.' !in s && ',' !in s && '-' !in s;
    WithoutAbsent(s, '.');
    ReplaceAbsent(s, ',', '.');
    ReplaceAbsent(s, '-', '0');
  }

  /**
   * A blank cell, which `astype(str)` renders as `"nan"`, becomes NaN: not
   * 0 and not an error. So does any spelling of `nan` in the cell itself.
   */
  lemma NormalisasiNanWord(s: string)
    requires IsWord(s, "nan")
    ensures NormalisasiAngka(s) == Some(NaN)
  {
    WordLetters(s, "nan");
    SubstitutedLetters(s);
    StripWord(s);
    NormalisasiVia(s, s, s);
    PyFloatStripped(s);
  }

  lemma NormalisasiNan()
    ensures NormalisasiAngka("nan") == Some(NaN)
  {
    assert IsWord("nan", "nan");
    NormalisasiNanWord("nan");
  }

  /** A keyword is spelt in letters. */
  lemma WordLetters(s: string, w: string)
    requires IsWord(s, w) && forall i :: 0 <= i < |w| ==> 'a' <= w[i] <= 'z'
    ensures forall i :: 0 <= i < |s| ==> IsLetter(s[i])
  {
    forall i | 0 <= i < |s| ensures IsLetter(s[i]) {
      assert Lower(s[i]) == w[i];
    }
  }

  /** A word has no whitespace to strip. */
  lemma StripWord(w: string)
    requires w != [] && forall i :: 0 <= i < |w| ==> IsLetter(w[i])
    ensures Strip(w) == w
  {
    assert IsLetter(w[0]) && IsLetter(w[|w| - 1]);
    StripAround([], w, []);
    assert [] + w + [] == w;
  }

  lemma PyFloatNan()
    ensures PyFloat("nan") == Some(NaN)
  {
    StripWord("nan");
    assert IsWord("nan", "nan");
  }

  lemma PyFloatInf()
    ensures PyFloat("inf") == Some(Infinite(false))
  {
    var w := "inf";
    StripWord(w);
    assert Lower(w[0]) != "nan"[0];
    assert IsWord(w, "inf");
  }

  lemma PyFloatNegInf()
    ensures PyFloat("-inf") == Some(Infinite(true))
  {
    var w := "-inf";
    assert w[0] == '-' && w[|w| - 1] == 'f';
    StripAround([], w, []);
    assert [] + w + [] == w;
    assert w[1..] == "inf";
    assert Lower("inf"[0]) != "nan"[0];
    assert IsWord("inf", "inf");
  }

  /** A character that is not whitespace is still there after stripping. */
  lemma SurvivesStrip(s: string, x: char)
    requires x in s && !IsSpace(x)
    ensures x in Strip(s)
  {
    var l := StripLeft(s);
    StripLeftSpec(s);
    StripRightSpec(l);
    var i :| 0 <= i < |s| && s[i] == x;
    var cut := |s| - |l|;
    assert !IsSpace(s[i]);
    assert i >= cut;
    var j := i - cut;
    assert l[j] == s[i];
    var t := StripRight(l);
    assert !IsSpace(l[j]);
    assert j < |t|;
    assert t[j] == l[j];
  }

  /** `float()` accepts only digits, `.` and the letters of its keywords after the sign. */
  lemma ReadRejects(body: string, neg: bool, x: char)
    requires x in body && !IsDigit(x) && x != '.' && !IsLetter(x)
    ensures ReadUnsigned(body, neg) == None
  {
    NotWord(body, "nan", x);
    NotWord(body, "inf", x);
    NotWord(body, "infinity", x);
    if '.' in body {
      var p := IndexOf(body, '.');
      IndexOfSpec(body, '.');
      var i :| 0 <= i < |body| && body[i] == x;
      if i < p {
        assert body[..p][i] == x;
      } else {
        assert i > p;
        assert body[p + 1..][i - p - 1] == x;
      }
    }
  }

  /** Text holding a character that is not a letter spells no keyword. */
  lemma NotWord(s: string, w: string, x: char)
    requires x in s && !IsLetter(x)
    requires forall i :: 0 <= i < |w| ==> 'a' <= w[i] <= 'z'
    ensures !IsWord(s, w)
  {
    var i :| 0 <= i < |s| && s[i] == x;
    if |s| == |w| {
      assert Lower(s[i]) != w[i];
    }
  }

  /**
   * The error path: a cell holding an ASCII character other than digits,
   * `.`, `,`, signs, `_`, letters and whitespace (an Excel `#N/A`, a `/`, a
   * `%`) is rejected, which aborts the whole column.
   */
  lemma NormalisasiRejects(cell: string, i: nat)
    requires i < |cell|
    requires cell[i] < '\U{80}'
    requires !IsDigit(cell[i]) && !IsSpace(cell[i]) && !IsLetter(cell[i])
    requires cell[i] !in ".,-+_"
    ensures NormalisasiAngka(cell) == None
  {
    var x := cell[i];
    assert x in cell;
    WithoutMember(cell, '.');
    var w := Without(cell, '.');
    ReplaceKeeps(w, ',', '.', x);
    ReplaceKeeps(ReplaceAll(w, ',', '.'), '-', '0', x);
    SurvivesStrip(Substituted(cell), x);
    var r := Residue(cell);
    assert x in r;
    SurvivesStrip(r, x);
    var t := Strip(r);
    var signed := t != [] && (t[0] == '-' || t[0] == '+');
    if signed {
      var k :| 0 <= k < |t| && t[k] == x;
      assert k > 0;
      assert t[1..][k - 1] == x;
    }
    ReadRejects(if signed then t[1..] else t, signed && t[0] == '-', x);
  }

  /** Excel's `#N/A` is not a number. */
  lemma NormalisasiRejectsExample()
    ensures NormalisasiAngka("#N/A") == None
  {
    NormalisasiRejects("#N/A", 0);
  }

  /** Python's `f"{n:,}"` grouping of a digit string: `sep` before every block of three digits from the right. */
  function GroupThousands(d: string, sep: char): string
    decreases |d|
  {
    if |d| <= 3 then d else GroupThousands(d[..|d| - 3], sep) + [sep] + d[|d| - 3..]
  }

  /**
   * `format_rp` on an integer: its decimal digits grouped in threes with `,`
   * as Python's `f"{x:,.0f}"` writes them, then every `,` replaced by `.`.
   */
  function FormatRp(x: int): (r: string)
    ensures x >= 0 ==> r == GroupThousands(NatToString(x), '.')
    ensures x < 0 ==> r == "-" + GroupThousands(NatToString(-x), '.')
  {
    var digits := NatToString(if x < 0 then -x else x);
    GroupedReplace(x);
    ReplaceAll((if x < 0 then "-" else "") + GroupThousands(digits, ','), ',', '.')
  }

  /** Grouping with `,` then swapping `,` for `.` is grouping with `.`. */
  lemma {:induction false} GroupReplace(d: string)
    requires AllDigits(d)
    ensures ReplaceAll(GroupThousands(d, ','), ',', '.') == GroupThousands(d, '.')
    decreases |d|
  {
    if |d| <= 3 {
      DigitsHaveNo(d, ',');
      ReplaceAbsent(d, ',', '.');
    } else {
      var init, tail := d[..|d| - 3], d[|d| - 3..];
      GroupReplace(init);
      ReplaceConcat(GroupThousands(init, ',') + [','], tail, ',', '.');
      ReplaceConcat(GroupThousands(init, ','), [','], ',', '.');
      DigitsHaveNo(tail, ',');
      ReplaceAbsent(tail, ',', '.');
    }
  }

  /**
   * The shape of a grouped number: every character is a digit or the
   * separator, the separators sit exactly at the positions a multiple of four
   * from the end (blocks of three digits, the first block one to three
   * digits), and deleting them gives back the digits.
   */
  lemma GroupShape(d: string, sep: char)
    requires AllDigits(d) && !IsDigit(sep)
    ensures forall i :: 0 <= i < |GroupThousands(d, sep)| ==>
      var g := GroupThousands(d, sep);
      (g[i] == sep <==> (|g| - i) % 4 == 0) && (g[i] != sep ==> IsDigit(g[i]))
    ensures Without(GroupThousands(d, sep), sep) == d
  {
    GroupPositions(d, sep);
    GroupWithout(d, sep);
  }

  lemma {:induction false} GroupPositions(d: string, sep: char)
    requires AllDigits(d) && !IsDigit(sep)
    ensures forall i :: 0 <= i < |GroupThousands(d, sep)| ==>
      var g := GroupThousands(d, sep);
      (g[i] == sep <==> (|g| - i) % 4 == 0) && (g[i] != sep ==> IsDigit(g[i]))
    decreases |d|
  {
    var g := GroupThousands(d, sep);
    if |d| <= 3 {
      DigitsHaveNo(d, sep);
      forall i | 0 <= i < |g| ensures g[i] != sep && (|g| - i) % 4 != 0 {
        assert g[i] in d;
      }
    } else {
      var init, tail := d[..|d| - 3], d[|d| - 3..];
      var g' := GroupThousands(init, sep);
      GroupPositions(init, sep);
      assert g == g' + [sep] + tail;
      assert |g| == |g'| + 4;
      forall i | 0 <= i < |g|
        ensures (g[i] == sep <==> (|g| - i) % 4 == 0) && (g[i] != sep ==> IsDigit(g[i]))
      {
        if i < |g'| {
          assert g[i] == g'[i];
          assert |g| - i == (|g'| - i) + 4;
        } else if i > |g'| {
          assert g[i] == tail[i - |g'| - 1];
          assert 0 < |g| - i < 4;
        }
      }
    }
  }

  lemma {:induction false} GroupWithout(d: string, sep: char)
    requires AllDigits(d) && !IsDigit(sep)
    ensures Without(GroupThousands(d, sep), sep) == d
    decreases |d|
  {
    if |d| <= 3 {
      DigitsHaveNo(d, sep);
      WithoutAbsent(d, sep);
    } else {
      var init, tail := d[..|d| - 3], d[|d| - 3..];
      var g' := GroupThousands(init, sep);
      GroupWithout(init, sep);
      WithoutConcat(g' + [sep], tail, sep);
      WithoutConcat(g', [sep], sep);
      DigitsHaveNo(tail, sep);
      WithoutAbsent(tail, sep);
      assert Without([sep], sep) == [];
      assert init + tail == d;
    }
  }

  /** The text `format_rp` builds, with its `,` swapped for `.`, is the digits grouped by `.` behind the sign. */
  lemma GroupedReplace(x: int)
    ensures var d := NatToString(if x < 0 then -x else x);
      ReplaceAll((if x < 0 then "-" else "") + GroupThousands(d, ','), ',', '.')
      == (if x < 0 then "-" else "") + GroupThousands(d, '.')
  {
    var d := NatToString(if x < 0 then -x else x);
    var g := GroupThousands(d, ',');
    GroupReplace(d);
    if x < 0 {
      ReplaceConcat("-", g, ',', '.');
      assert ReplaceAll("-", ',', '.') == "-";
    } else {
      assert "" + g == g;
    }
  }

  /** For `n >= 0`, `format_rp` writes the digits of `n` grouped in threes, separated by `.`. */
  lemma FormatRpShape(n: nat)
    ensures forall i :: 0 <= i < |FormatRp(n)| ==>
      var s := FormatRp(n);
      (s[i] == '.' <==> (|s| - i) % 4 == 0) && (s[i] != '.' ==> IsDigit(s[i]))
    ensures Without(FormatRp(n), '.') == NatToString(n)
  {
    var d := NatToString(n);
    assert FormatRp(n) == GroupThousands(d, '.');
    GroupShape(d, '.');
  }

  /** `format_rp(1234567) == "1.234.567"`, and the sign of a negative amount stays in front. */
  lemma FormatRpExample()
    ensures FormatRp(1234567) == "1.234.567"
    ensures FormatRp(999) == "999"
    ensures FormatRp(-1000) == "-1.000"
  {
    Digits1234567();
    Group1234567();
    Digits999();
    Digits1000();
    assert GroupThousands("1", '.') == "1";
    assert GroupThousands("1000", '.') == "1.000";
  }

  lemma Digits1234567()
    ensures NatToString(1234567) == "1234567"
  {
    assert NatToString(1) == "1";
    assert NatToString(12) == "12";
    assert NatToString(123) == "123";
    assert NatToString(1234) == "1234";
    assert NatToString(12345) == "12345";
    assert NatToString(123456) == "123456";
  }

  lemma Group1234567()
    ensures GroupThousands("1234567", '.') == "1.234.567"
  {
    assert GroupThousands("1", '.') == "1";
    assert GroupThousands("1234", '.') == "1.234";
  }

  lemma Digits999()
    ensures NatToString(999) == "999"
  {
    assert NatToString(9) == "9";
    assert NatToString(99) == "99";
  }

  lemma Digits1000()
    ensures NatToString(1000) == "1000"
  {
    assert NatToString(1) == "1";
    assert NatToString(10) == "10";
    assert NatToString(100) == "100";
  }

  lemma SubstitutedConcat(a: string, b: string)
    ensures Substituted(a + b) == Substituted(a) + Substituted(b)
  {
    WithoutConcat(a, b, '.');
    ReplaceConcat(Without(a, '.'), Without(b, '.'), ',', '.');
    ReplaceConcat(ReplaceAll(Without(a, '.'), ',', '.'), ReplaceAll(Without(b, '.'), ',', '.'), '-', '0');
  }

  /** Digits pass the substitutions unchanged. */
  lemma SubstitutedDigits(d: string)
    requires AllDigits(d)
    ensures Substituted(d) == d
  {
    DigitsHaveNo(d, '.');
    DigitsHaveNo(d, ',');
    DigitsHaveNo(d, '-');
    WithoutAbsent(d, '.');
    ReplaceAbsent(d, ',', '.');
    ReplaceAbsent(d, '-', '0');
  }

  /** The substitutions delete the thousands dots of a grouped number. */
  lemma SubstitutedGroup(d: string)
    requires AllDigits(d)
    ensures Substituted(GroupThousands(d, '.')) == d
  {
    GroupShape(d, '.');
    SubstitutedDigits(d);
    DigitsHaveNo(d, ',');
    DigitsHaveNo(d, '-');
    ReplaceAbsent(d, ',', '.');
    ReplaceAbsent(d, '-', '0');
  }

  /**
   * Round trip: for every integer `n >= 0`, normalising what `format_rp`
   * writes gives `n` back.
   */
  lemma NormalisasiFormatRp(n: nat)
    ensures NormalisasiAngka(FormatRp(n)) == Some(Finite(n as real))
  {
    var d := NatToString(n);
    SubstitutedGroup(d);
    StripDigits(d);
    NormalisasiVia(FormatRp(n), d, d);
    PyFloatDigits(d);
  }

  /**
   * The round trip fails for negative amounts: the `-` that `format_rp`
   * writes is read back as a leading `0`, giving the magnitude.
   */
  lemma NormalisasiFormatRpNegative(x: int)
    requires x < 0
    ensures NormalisasiAngka(FormatRp(x)) == Some(Finite((-x) as real))
    ensures NormalisasiAngka(FormatRp(x)) != Some(Finite(x as real))
  {
    var d := NatToString(-x);
    SubstitutedNegative(x);
    var z := "0" + d;
    NatOfConcat("0", d);
    StripDigits(z);
    NormalisasiVia(FormatRp(x), z, z);
    PyFloatLeadingZero(d);
  }

  lemma SubstitutedNegative(x: int)
    requires x < 0
    ensures Substituted(FormatRp(x)) == "0" + NatToString(-x)
  {
    var d := NatToString(-x);
    assert FormatRp(x) == "-" + GroupThousands(d, '.');
    SubstitutedConcat("-", GroupThousands(d, '.'));
    assert Substituted("-") == "0";
    SubstitutedGroup(d);
  }

  /** A leading zero does not change the value `float()` reads. */
  lemma PyFloatLeadingZero(d: string)
    requires d != [] && AllDigits(d)
    ensures PyFloat("0" + d) == Some(Finite(NatOf(d) as real))
  {
    assert AllDigits("0") && NatOf("0") == 0;
    NatOfConcat("0", d);
    var z := "0" + d;
    assert NatOf(z) == NatOf(d);
    PyFloatDigits(z);
  }

  lemma UnsignedDecimalAt(t: string, p: nat, whole: string, frac: string)
    requires '.' in t && IndexOf(t, '.') == p && t[..p] == whole && t[p + 1..] == frac
    requires AllDigits(whole) && AllDigits(frac) && |whole| + |frac| > 0
    ensures UnsignedDecimal(t) == Some(NatOf(whole) as real + FracValue(frac))
  {
  }

  /** Reading `whole.frac` when `whole` has no point: the point found is the one after `whole`. */
  lemma UnsignedDecimalSplit(whole: string, frac: string)
    requires AllDigits(whole) && AllDigits(frac) && |whole| + |frac| > 0
    ensures UnsignedDecimal(whole + "." + frac) == Some(NatOf(whole) as real + FracValue(frac))
  {
    var t := whole + "." + frac;
    IndexOfFirst(t, whole, frac);
    assert t[..|whole|] == whole;
    assert t[|whole| + 1..] == frac;
    UnsignedDecimalAt(t, |whole|, whole, frac);
  }

  lemma IndexOfFirst(t: string, whole: string, frac: string)
    requires AllDigits(whole) && t == whole + "." + frac
    ensures '.' in t && IndexOf(t, '.') == |whole|
  {
    assert t[|whole|] == '.';
    var p := IndexOf(t, '.');
    IndexOfSpec(t, '.');
    DigitsHaveNo(whole, '.');
    assert forall q :: 0 <= q < |whole| ==> t[q] == whole[q];
  }

  /**
   * Locale numbers in the canonical form `d{1,3}(.ddd)*,f+` (digits grouped
   * by `.` as `format_rp` writes them, then a decimal comma and a fraction)
   * normalise to their value.
   */
  lemma NormalisasiLocale(d: string, frac: string)
    requires d != [] && AllDigits(d) && frac != [] && AllDigits(frac)
    ensures NormalisasiAngka(GroupThousands(d, '.') + "," + frac) == Some(Finite(NatOf(d) as real + FracValue(frac)))
  {
    SubstitutedLocale(d, frac);
    NormalisasiDecimal(GroupThousands(d, '.') + "," + frac, d, frac);
  }

  /** A cell whose substitutions give `d.frac` reads as that decimal. */
  lemma NormalisasiDecimal(cell: string, d: string, frac: string)
    requires Substituted(cell) == d + "." + frac
    requires frac != [] && AllDigits(frac) && d != [] && AllDigits(d)
    ensures NormalisasiAngka(cell) == Some(Finite(NatOf(d) as real + FracValue(frac)))
  {
    var v := d + "." + frac;
    LocaleStrip(d, frac);
    NormalisasiVia(cell, v, v);
    assert v[0] == d[0];
    PyFloatUnsigned(v);
    UnsignedDecimalSplit(d, frac);
  }

  lemma SubstitutedLocale(d: string, frac: string)
    requires AllDigits(d) && AllDigits(frac)
    ensures Substituted(GroupThousands(d, '.') + "," + frac) == d + "." + frac
  {
    var g := GroupThousands(d, '.');
    SubstitutedConcat(g + ",", frac);
    SubstitutedConcat(g, ",");
    SubstitutedGroup(d);
    SubstitutedDigits(frac);
    assert Substituted(",") == ".";
  }

  lemma LocaleStrip(d: string, frac: string)
    requires d != [] && AllDigits(d) && frac != [] && AllDigits(frac)
    ensures Strip(d + "." + frac) == d + "." + frac
  {
    var v := d + "." + frac;
    var a, z := d[0], frac[|frac| - 1];
    assert IsDigit(a) && IsDigit(z);
    assert v[0] == a;
    assert v[|v| - 1] == z;
    assert !IsSpace(a) && !IsSpace(z);
    StripAround([], v, []);
    assert [] + v + [] == v;
  }

  /** `normalisasi_angka("1.234.567,89") == 1234567.89`, the canonical locale example. */
  lemma NormalisasiLocaleExample()
    ensures NormalisasiAngka("1.234.567,89") == Some(Finite(1234567.89))
  {
    Group1234567();
    NormalisasiLocale("1234567", "89");
    assert "1.234.567" + "," + "89" == "1.234.567,89";
    LocaleValue();
  }

  lemma LocaleValue()
    ensures NatOf("1234567") as real + FracValue("89") == 1234567.89
  {
    Digits1234567();
    assert FracValue("9") == 0.9;
    assert "89"[1..] == "9";
  }

  /** The placeholders: `"-"`, `""` and `"  "` all normalise to 0. */
  lemma NormalisasiPlaceholderExamples()
    ensures NormalisasiAngka("-") == Some(Finite(0.0))
    ensures NormalisasiAngka("") == Some(Finite(0.0))
    ensures NormalisasiAngka("  ") == Some(Finite(0.0))
  {
    PlaceholderDash("", "");
    assert "" + "-" + "" == "-";
    PlaceholderBlank("");
    PlaceholderBlank("  ");
  }

  const Merah := "background-color: #f8d7da; color: #721c24;"
  const Kuning := "background-color: #fff3cd; color: #856404;"
  const Hijau := "background-color: #d4edda; color: #155724;"

  /**
   * `warna_persen`: `%` signs removed, the rest read by `float()`; no style
   * when that fails, otherwise red from 100, yellow from 70 and green below.
   */
  function WarnaPersen(val: string): (r: string)
    ensures r == "" <==> PyFloat(Without(val, '%')).None?
    ensures r == "" || r == Merah || r == Kuning || r == Hijau
  {
    StyleOf(PyFloat(Without(val, '%')))
  }

  /** The style for what `float()` made of a label. */
  function StyleOf(r: Option<Float>): string
  {
    match r
    case None => ""
    case Some(x) =>
      if AtLeast(x, 100.0) then Merah else if AtLeast(x, 70.0) then Kuning else Hijau
  }

  /** The three bands of a finite utilisation percentage: red from 100, yellow from 70, green below. */
  function Band(v: real): string
  {
    if v >= 100.0 then Merah else if v >= 70.0 then Kuning else Hijau
  }

  /** The value a two-decimal label `[-]whole.frac` shows. */
  function LabelValue(neg: bool, whole: string, frac: string): real
    requires AllDigits(whole) && AllDigits(frac)
  {
    var v := NatOf(whole) as real + FracValue(frac);
    if neg then -v else v
  }

  /** The sign `f"{x:.2f}"` writes in front of a negative number. */
  function SignText(neg: bool): string
  {
    if neg then "-" else ""
  }

  /** A number label as `f"{x:.2f}"` writes a finite `x`: an optional `-`, digits, a point, digits. */
  lemma PyFloatLabel(neg: bool, whole: string, frac: string)
    requires whole != [] && AllDigits(whole) && frac != [] && AllDigits(frac)
    ensures PyFloat(SignText(neg) + whole + "." + frac) == Some(Finite(LabelValue(neg, whole, frac)))
  {
    var v := whole + "." + frac;
    var t := SignText(neg) + v;
    assert SignText(neg) + whole + "." + frac == t;
    assert v[0] == whole[0];
    LabelStrip(neg, v);
    PyFloatStripped(t);
    LabelReads(neg, whole, frac);
  }

  /** `float()` on text with nothing to strip. */
  lemma PyFloatStripped(t: string)
    requires Strip(t) == t
    ensures PyFloat(t) == ReadSigned(t)
  {
  }

  lemma LabelReads(neg: bool, whole: string, frac: string)
    requires whole != [] && AllDigits(whole) && frac != [] && AllDigits(frac)
    ensures ReadSigned(SignText(neg) + (whole + "." + frac)) == Some(Finite(LabelValue(neg, whole, frac)))
  {
    var v := whole + "." + frac;
    assert v[0] == whole[0];
    UnsignedDecimalSplit(whole, frac);
    ReadSignedValue(neg, v, NatOf(whole) as real + FracValue(frac));
  }

  lemma ReadSignedValue(neg: bool, v: string, x: real)
    requires v != [] && IsDigit(v[0]) && UnsignedDecimal(v) == Some(x)
    ensures ReadSigned(SignText(neg) + v) == Some(Finite(if neg then -x else x))
  {
    ReadSignedDigits(neg, v);
  }

  /** After an optional `-`, text starting with a digit is read as an unsigned decimal. */
  lemma ReadSignedDigits(neg: bool, v: string)
    requires v != [] && IsDigit(v[0])
    ensures ReadSigned(SignText(neg) + v) == match UnsignedDecimal(v)
      case None => None
      case Some(x) => Some(Finite(if neg then -x else x))
  {
    var t := SignText(neg) + v;
    if neg {
      assert t[0] == '-' && t[1..] == v;
    } else {
      assert t == v;
    }
    ReadDigitFirst(v, neg);
  }

  lemma LabelStrip(neg: bool, v: string)
    requires v != [] && IsDigit(v[0]) && IsDigit(v[|v| - 1])
    ensures Strip(SignText(neg) + v) == SignText(neg) + v
  {
    var t := SignText(neg) + v;
    assert t[0] == '-' || t[0] == v[0];
    assert t[|t| - 1] == v[|v| - 1];
    StripAround([], t, []);
    assert [] + t + [] == t;
  }

  /** A label followed by `%` or ` %` is styled by what `float()` makes of the label. */
  lemma WarnaPersenText(t: string)
    requires t != [] && '%' !in t && !IsSpace(t[0]) && !IsSpace(t[|t| - 1])
    ensures WarnaPersen(t + "%") == StyleOf(PyFloat(t))
    ensures WarnaPersen(t + " %") == StyleOf(PyFloat(t))
  {
    WithoutPercent(t);
    LabelSpace(t);
  }

  /**
   * The style `warna_persen` gives a finite percentage label, `"x.xx%"`
   * or `"x.xx %"`, is the band of the value the label shows.
   */
  lemma WarnaPersenLabel(neg: bool, whole: string, frac: string)
    requires whole != [] && AllDigits(whole) && frac != [] && AllDigits(frac)
    ensures var t := SignText(neg) + whole + "." + frac;
      WarnaPersen(t + "%") == Band(LabelValue(neg, whole, frac))
      && WarnaPersen(t + " %") == Band(LabelValue(neg, whole, frac))
  {
    var t := SignText(neg) + whole + "." + frac;
    PyFloatLabel(neg, whole, frac);
    LabelNoPercent(neg, whole, frac);
    assert t[0] == '-' || t[0] == whole[0];
    assert t[|t| - 1] == frac[|frac| - 1];
    WarnaPersenText(t);
    var v := LabelValue(neg, whole, frac);
    assert PyFloat(t) == Some(Finite(v));
    assert StyleOf(Some(Finite(v))) == Band(v);
  }

  lemma LabelNoPercent(neg: bool, whole: string, frac: string)
    requires AllDigits(whole) && AllDigits(frac)
    ensures '%' !in SignText(neg) + whole + "." + frac
  {
    DigitsHaveNo(whole, '%');
    DigitsHaveNo(frac, '%');
  }

  lemma WithoutPercent(t: string)
    requires '%' !in t
    ensures Without(t + "%", '%') == t && Without(t + " %", '%') == t + " "
  {
    WithoutConcat(t, "%", '%');
    WithoutConcat(t, " %", '%');
    WithoutAbsent(t, '%');
    assert Without("%", '%') == [];
    assert Without(" %", '%') == " ";
    assert t + [] == t;
  }

  /** The space before `%` in the rollup's labels is stripped by `float()`. */
  lemma LabelSpace(t: string)
    requires t != [] && !IsSpace(t[0]) && !IsSpace(t[|t| - 1])
    ensures PyFloat(t + " ") == PyFloat(t)
  {
    StripAround([], t, " ");
    assert [] + t + " " == t + " ";
    StripAround([], t, []);
    assert [] + t + [] == t;
  }

  /** How `f"{x:.2f}"` writes a float that is not finite. */
  function SpecialLabel(x: Float): string
  {
    match x
    case Finite(_) => ""
    case Infinite(neg) => if neg then "-inf" else "inf"
    case NaN => "nan"
  }

  /**
   * Labels of values that are not finite: `"inf%"` (capaian over a zero pagu)
   * is styled red, and `"nan %"` (the TOTAL row when everything is 0) and
   * `"-inf%"` are styled green, since every comparison with NaN is false.
   */
  lemma WarnaPersenSpecial(x: Float)
    requires !x.Finite?
    ensures WarnaPersen(SpecialLabel(x) + "%") == (if x == Infinite(false) then Merah else Hijau)
    ensures WarnaPersen(SpecialLabel(x) + " %") == (if x == Infinite(false) then Merah else Hijau)
  {
    var t := SpecialLabel(x);
    assert '%' !in t;
    assert t[0] == 'i' || t[0] == 'n' || t[0] == '-';
    assert t[|t| - 1] == 'f' || t[|t| - 1] == 'n';
    WarnaPersenText(t);
    match x
    case Infinite(neg) => if neg { PyFloatNegInf(); } else { PyFloatInf(); }
    case NaN => PyFloatNan();
  }

  /** The band edges: 100.00% is red, 70.00% is yellow, 69.99% is green. */
  lemma WarnaPersenRedExample()
    ensures WarnaPersen("100.00%") == Merah
  {
    WarnaPersenLabel(false, "100", "00");
    assert "" + "100" + "." + "00" + "%" == "100.00%";
    Value100();
  }

  lemma WarnaPersenYellowExample()
    ensures WarnaPersen("70.00 %") == Kuning
  {
    var t := "70.00";
    assert t == SignText(false) + "70" + "." + "00";
    WarnaPersenLabel(false, "70", "00");
    assert t + " %" == "70.00 %";
    Value70();
  }

  lemma WarnaPersenGreenExample()
    ensures WarnaPersen("69.99%") == Hijau
  {
    WarnaPersenLabel(false, "69", "99");
    assert "" + "69" + "." + "99" + "%" == "69.99%";
    Value69();
  }

  lemma Value100()
    ensures LabelValue(false, "100", "00") == 100.0
  {
    assert NatOf("1") == 1;
    assert "100"[..2] == "10";
    assert NatOf("10") == 10;
    assert FracValue("0") == 0.0;
    assert "00"[1..] == "0";
  }

  lemma Value70()
    ensures LabelValue(false, "70", "00") == 70.0
  {
    assert NatOf("7") == 7;
    assert "70"[..1] == "7";
    assert FracValue("0") == 0.0;
    assert "00"[1..] == "0";
  }

  lemma Value69()
    ensures LabelValue(false, "69", "99") == 69.99
  {
    assert NatOf("6") == 6;
    assert "69"[..1] == "6";
    assert FracValue("9") == 0.9;
    assert "99"[1..] == "9";
  }
}
