/**
 * The two budget-code recognisers of app.py: `parse_kode_ma`, which splits an
 * allocation code into its program and controller parts, and
 * `ekstrak_kode_simrs`, which pulls a code out of a transaction's free text.
 * Both search for the pattern `\d{6}\.\d+\.\d+` as `re.search` does: the
 * leftmost position where the pattern matches wins, and each `\d+` is greedy.
 * Here `\d` is an ASCII digit `0`-`9`.
 */
module Kode {
  import opened Wrappers
  import opened Text

  /** A spreadsheet cell as pandas hands it over: text, or missing (None/NaN). */
  type Cell = Option<string>

  /** The end of the maximal run of digits that starts at `p`. */
  function RunEnd(s: string, p: nat): (q: nat)
    requires p <= |s|
    ensures p <= q <= |s|
    ensures forall k :: p <= k < q ==> IsDigit(s[k])
    ensures q == |s| || !IsDigit(s[q])
    decreases |s| - p
  {
    if p < |s| && IsDigit(s[p]) then RunEnd(s, p + 1) else p
  }

  /**
   * What the regex engine returns for a match starting at `i`: six digits at
   * `i`, a dot, a non-empty digit run (group 2) ending at `j`, a dot at `j`,
   * and a non-empty digit run ending at `k` that greed extends as far as it goes.
   */
  predicate IsMatch(s: string, i: nat, j: nat, k: nat)
  {
    && i + 7 < j && j + 1 < k <= |s|
    && (forall p :: i <= p < i + 6 ==> IsDigit(s[p]))
    && s[i + 6] == '.'
    && (forall p :: i + 7 <= p < j ==> IsDigit(s[p]))
    && s[j] == '.'
    && (forall p :: j + 1 <= p < k ==> IsDigit(s[p]))
    && (k == |s| || !IsDigit(s[k]))
  }

  /** Tries the pattern at position `i` only: `Some((j, k))` as in `IsMatch`, or `None`. */
  function MatchAt(s: string, i: nat): (m: Option<(nat, nat)>)
    requires i <= |s|
    ensures m.Some? ==> IsMatch(s, i, m.value.0, m.value.1)
  {
    if i + 7 < |s| && AllDigits(s[i..i + 6]) && s[i + 6] == '.' then
      assert forall p :: i <= p < i + 6 ==> s[p] == s[i..i + 6][p - i];
      var j := RunEnd(s, i + 7);
      if i + 7 < j && j + 1 < |s| && s[j] == '.' && IsDigit(s[j + 1]) then
        Some((j, RunEnd(s, j + 1)))
      else None
    else None
  }

  /**
   * The pattern has at most one way to match at a given position, and
   * `MatchAt` finds it: the digit runs leave no choice for `j` or, greed
   * given, for `k`.
   */
  lemma MatchAtComplete(s: string, i: nat, j: nat, k: nat)
    requires IsMatch(s, i, j, k)
    ensures MatchAt(s, i) == Some((j, k))
  {
    assert AllDigits(s[i..i + 6]);
    assert IsDigit(s[j + 1]);
  }

  /** `re.search` from position `i` on: the first position with a match, and the match found there. */
  function FirstMatch(s: string, i: nat): (r: Option<(nat, nat, nat)>)
    requires i <= |s|
    ensures r.Some? ==>
      && i <= r.value.0 <= |s|
      && MatchAt(s, r.value.0) == Some((r.value.1, r.value.2))
      && forall a :: i <= a < r.value.0 ==> MatchAt(s, a).None?
    ensures r.None? ==> forall a :: i <= a <= |s| ==> MatchAt(s, a).None?
    decreases |s| - i
  {
    match MatchAt(s, i)
    case Some(m) => Some((i, m.0, m.1))
    case None => if i == |s| then None else FirstMatch(s, i + 1)
  }

  /**
   * `parse_kode_ma`: for a missing cell or text without a code, `(None, None)`;
   * otherwise the six digits and the digit run after the first dot of the
   * leftmost match.
   */
  function ParseKodeMa(kode: Cell): (r: (Option<string>, Option<string>))
    ensures r.0.Some? <==> r.1.Some?
    ensures kode.None? ==> r.0.None?
    ensures r.0.Some? ==> |r.0.value| == 6 && AllDigits(r.0.value)
    ensures r.1.Some? ==> |r.1.value| > 0 && AllDigits(r.1.value)
  {
    match kode
    case None => (None, None)
    case Some(s) =>
      match FirstMatch(s, 0)
      case None => (None, None)
      case Some(m) =>
        assert IsMatch(s, m.0, m.1, m.2);
        (Some(s[m.0..m.0 + 6]), Some(s[m.0 + 7..m.1]))
  }

  /**
   * `ekstrak_kode_simrs`: the whole leftmost match, or `None`. It finds a
   * code exactly when `parse_kode_ma` does, and a code is at least ten
   * characters: six digits, a dot, a digit, a dot, a digit.
   */
  function EkstrakKodeSimrs(text: Cell): (r: Option<string>)
    ensures r.Some? <==> ParseKodeMa(text).0.Some?
    ensures r.Some? ==> |r.value| >= 10 && AllDigits(r.value[..6]) && r.value[6] == '.'
  {
    match text
    case None => None
    case Some(s) =>
      match FirstMatch(s, 0)
      case None => None
      case Some(m) => Some(s[m.0..m.2])
  }

  /** If the pattern matches at `i` and at no earlier position, `re.search` returns that match. */
  lemma FirstMatchIs(s: string, i: nat, j: nat, k: nat)
    requires IsMatch(s, i, j, k)
    requires forall a :: 0 <= a < i ==> !IsMatch(s, a, MatchEnds(s, a).0, MatchEnds(s, a).1)
    ensures FirstMatch(s, 0) == Some((i, j, k))
  {
    MatchAtComplete(s, i, j, k);
    forall a | 0 <= a < i ensures MatchAt(s, a).None? {
      NoMatchAt(s, a);
    }
  }

  /** Where the pattern cannot match with the only ends it could have, `MatchAt` finds nothing. */
  lemma NoMatchAt(s: string, a: nat)
    requires a <= |s|
    requires !IsMatch(s, a, MatchEnds(s, a).0, MatchEnds(s, a).1)
    ensures MatchAt(s, a).None?
  {
  }

  /**
   * When the leftmost match of the pattern in `s` starts at `i` (nothing
   * matches earlier), `parse_kode_ma` returns its six digits and its group 2.
   */
  lemma ParseKodeMaLeftmost(s: string, i: nat, j: nat, k: nat)
    requires IsMatch(s, i, j, k)
    requires forall a :: 0 <= a < i ==> !IsMatch(s, a, MatchEnds(s, a).0, MatchEnds(s, a).1)
    ensures ParseKodeMa(Some(s)) == (Some(s[i..i + 6]), Some(s[i + 7..j]))
  {
    FirstMatchIs(s, i, j, k);
  }

  /** When the leftmost match in `s` spans `i..k`, `ekstrak_kode_simrs` returns exactly that span. */
  lemma EkstrakKodeSimrsLeftmost(s: string, i: nat, j: nat, k: nat)
    requires IsMatch(s, i, j, k)
    requires forall a :: 0 <= a < i ==> !IsMatch(s, a, MatchEnds(s, a).0, MatchEnds(s, a).1)
    ensures EkstrakKodeSimrs(Some(s)) == Some(s[i..k])
  {
    FirstMatchIs(s, i, j, k);
  }

  /** Where a match at `i` would have to end: the forced `j` and the greedy `k` (meaningful only when one exists). */
  function MatchEnds(s: string, i: nat): (nat, nat)
  {
    if i + 7 <= |s| then
      var j := RunEnd(s, i + 7);
      (j, if j + 1 <= |s| then RunEnd(s, j + 1) else j)
    else (i, i)
  }

  /** With no match anywhere, `parse_kode_ma` gives `(None, None)` and `ekstrak_kode_simrs` gives `None`. */
  lemma NoMatchNone(s: string)
    requires forall a :: 0 <= a <= |s| ==> !IsMatch(s, a, MatchEnds(s, a).0, MatchEnds(s, a).1)
    ensures ParseKodeMa(Some(s)) == (None, None)
    ensures EkstrakKodeSimrs(Some(s)) == None
  {
    forall a | 0 <= a <= |s| ensures MatchAt(s, a).None? {
      NoMatchAt(s, a);
    }
  }

  /**
   * A code returned by `ekstrak_kode_simrs` is itself one whole match of the
   * pattern with no surrounding whitespace, so re-parsing it (app.py:245-247)
   * never yields None and gives the same parts as parsing the original text,
   * and stripping it (app.py:244) leaves it unchanged.
   */
  lemma EkstrakThenParse(text: Cell)
    requires EkstrakKodeSimrs(text).Some?
    ensures ParseKodeMa(Some(EkstrakKodeSimrs(text).value)) == ParseKodeMa(text)
    ensures ParseKodeMa(text).0.Some? && ParseKodeMa(text).1.Some?
    ensures Strip(EkstrakKodeSimrs(text).value) == EkstrakKodeSimrs(text).value
  {
    var s := text.value;
    var m := FirstMatch(s, 0).value;
    assert IsMatch(s, m.0, m.1, m.2);
    assert EkstrakKodeSimrs(text).value == s[m.0..m.2];
    ParseMatchPiece(s, m.0, m.1, m.2);
  }

  /** Parsing the cut-out match gives the same parts as the match had in its text; stripping it changes nothing. */
  lemma ParseMatchPiece(s: string, i: nat, j: nat, k: nat)
    requires IsMatch(s, i, j, k)
    ensures ParseKodeMa(Some(s[i..k])) == (Some(s[i..i + 6]), Some(s[i + 7..j]))
    ensures Strip(s[i..k]) == s[i..k]
  {
    var c := s[i..k];
    MatchSlice(s, i, j, k);
    ParseKodeMaLeftmost(c, 0, j - i, k - i);
    StripWholeMatch(c, j - i);
  }

  /** A whole match starts and ends with a digit, so `strip()` leaves it alone. */
  lemma StripWholeMatch(c: string, j: nat)
    requires IsMatch(c, 0, j, |c|)
    ensures Strip(c) == c
  {
    assert IsDigit(c[0]) && IsDigit(c[|c| - 1]);
    StripAround([], c, []);
    assert [] + c + [] == c;
  }

  /** A match cut out of its text is a match of the whole cut-out piece, with the same groups. */
  lemma MatchSlice(s: string, i: nat, j: nat, k: nat)
    requires IsMatch(s, i, j, k)
    ensures IsMatch(s[i..k], 0, j - i, k - i)
    ensures s[i..k][0..6] == s[i..i + 6] && s[i..k][7..j - i] == s[i + 7..j]
  {
    var c := s[i..k];
    assert forall p :: 0 <= p < |c| ==> c[p] == s[i + p];
  }

  /** `parse_kode_ma("123456.7.89") == ("123456", "7")`. */
  lemma ParseKodeMaExample()
    ensures ParseKodeMa(Some("123456.7.89")) == (Some("123456"), Some("7"))
  {
    var s := "123456.7.89";
    MatchExample();
    ParseKodeMaLeftmost(s, 0, 8, 11);
    assert s[0..6] == "123456" && s[7..8] == "7";
  }

  lemma MatchExample()
    ensures IsMatch("123456.7.89", 0, 8, 11)
  {
    var s := "123456.7.89";
    assert forall p :: 0 <= p < 6 ==> IsDigit(s[p]);
  }

  /** The match need not start at the first digit: `"1234567.1.2"` gives `("234567", "1")`. */
  lemma ParseKodeMaShiftedExample()
    ensures ParseKodeMa(Some("1234567.1.2")) == (Some("234567"), Some("1"))
  {
    var s := "1234567.1.2";
    ShiftedMatchExample();
    ParseKodeMaLeftmost(s, 1, 9, 11);
    assert s[1..7] == "234567" && s[8..9] == "1";
  }

  lemma ShiftedMatchExample()
    ensures IsMatch("1234567.1.2", 1, 9, 11)
    ensures !IsMatch("1234567.1.2", 0, MatchEnds("1234567.1.2", 0).0, MatchEnds("1234567.1.2", 0).1)
  {
    var s := "1234567.1.2";
    assert forall p :: 1 <= p < 7 ==> IsDigit(s[p]);
    assert s[6] != '.';
  }

  /** Text with no code parses to `(None, None)`. */
  lemma ParseKodeMaBadExample()
    ensures ParseKodeMa(Some("bad")) == (None, None)
  {
    NoMatchNone("bad");
  }

  /** The last digit run is greedy and text after the code is not part of it. */
  lemma EkstrakKodeSimrsExample()
    ensures EkstrakKodeSimrs(Some("520111.1.0012 ATK")) == Some("520111.1.0012")
  {
    var s := "520111.1.0012 ATK";
    SimrsMatchExample();
    EkstrakKodeSimrsLeftmost(s, 0, 8, 13);
    assert s[0..13] == "520111.1.0012";
  }

  lemma SimrsMatchExample()
    ensures IsMatch("520111.1.0012 ATK", 0, 8, 13)
  {
    var s := "520111.1.0012 ATK";
    assert forall p :: 0 <= p < 6 ==> IsDigit(s[p]);
    assert forall p :: 9 <= p < 13 ==> IsDigit(s[p]);
  }
}
