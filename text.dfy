/**
 * The pieces of Python's `str` behaviour the dashboard relies on:
 * `str.strip()`, single-character `str.replace`, decimal digit strings and
 * the code-point ordering `sorted()` uses on strings.
 */
module Text {
  import opened Seqs

  /** An ASCII decimal digit. */
  predicate IsDigit(c: char)
  {
    '0' <= c <= '9'
  }

  predicate AllDigits(s: string)
  {
    forall i :: 0 <= i < |s| ==> IsDigit(s[i])
  }

  /** Python's `str.isspace()`: the characters `str.strip()` and `float()` discard. */
  predicate IsSpace(c: char)
  {
    || ('\t' <= c <= '\r')
    || ('\U{1c}' <= c <= '\U{1f}')
    || c == ' ' || c == '\U{85}' || c == '\U{a0}' || c == '\U{1680}'
    || ('\U{2000}' <= c <= '\U{200a}')
    || c == '\U{2028}' || c == '\U{2029}' || c == '\U{202f}' || c == '\U{205f}' || c == '\U{3000}'
  }

  predicate AllSpace(s: string)
  {
    forall i :: 0 <= i < |s| ==> IsSpace(s[i])
  }

  /** `s.lstrip()`: drops the leading whitespace and nothing else. */
  function StripLeft(s: string): string
    decreases |s|
  {
    if s != [] && IsSpace(s[0]) then StripLeft(s[1..]) else s
  }

  /** `s.rstrip()`: drops the trailing whitespace and nothing else. */
  function StripRight(s: string): string
    decreases |s|
  {
    if s != [] && IsSpace(s[|s| - 1]) then StripRight(s[..|s| - 1]) else s
  }

  /** Python's `s.strip()`: `lstrip()` then `rstrip()`. */
  function Strip(s: string): string
  {
    StripRight(StripLeft(s))
  }

  /** `strip()` leaves nothing exactly when its input is all whitespace. */
  lemma StripEmpty(s: string)
    ensures Strip(s) == [] <==> AllSpace(s)
  {
    StripLeftSpec(s);
    StripRightSpec(StripLeft(s));
  }

  /** `lstrip()` removes a prefix of whitespace and stops at a character that is not whitespace. */
  lemma {:induction false} StripLeftSpec(s: string)
    ensures var t := StripLeft(s);
      && |t| <= |s| && t == s[|s| - |t|..]
      && (t == [] || !IsSpace(t[0]))
      && forall i :: 0 <= i < |s| - |t| ==> IsSpace(s[i])
    decreases |s|
  {
    if s != [] && IsSpace(s[0]) {
      StripLeftSpec(s[1..]);
      var t := StripLeft(s[1..]);
      assert forall i :: 1 <= i < |s| ==> s[1..][i - 1] == s[i];
    }
  }

  /** `rstrip()` removes a suffix of whitespace and stops at a character that is not whitespace. */
  lemma {:induction false} StripRightSpec(s: string)
    ensures var t := StripRight(s);
      && |t| <= |s| && t == s[..|t|]
      && (t == [] || !IsSpace(t[|t| - 1]))
      && forall i :: |t| <= i < |s| ==> IsSpace(s[i])
    decreases |s|
  {
    if s != [] && IsSpace(s[|s| - 1]) {
      StripRightSpec(s[..|s| - 1]);
    }
  }

  /**
   * `strip()` returns the slice of its input between a prefix and a suffix
   * of whitespace, and that slice neither starts nor ends with whitespace.
   */
  lemma StripShape(s: string)
    ensures exists a, b :: 0 <= a <= b <= |s| && Strip(s) == s[a..b] && AllSpace(s[..a]) && AllSpace(s[b..])
    ensures Strip(s) == [] || (!IsSpace(Strip(s)[0]) && !IsSpace(Strip(s)[|Strip(s)| - 1]))
  {
    var l := StripLeft(s);
    var t := StripRight(l);
    StripLeftSpec(s);
    StripRightSpec(l);
    var a := |s| - |l|;
    var b := a + |t|;
    assert t == s[a..b];
    assert AllSpace(s[..a]);
    forall i | 0 <= i < |s| - b ensures IsSpace(s[b..][i]) {
      assert s[b..][i] == l[|t| + i];
    }
    if t != [] {
      assert t[0] == l[0];
    }
  }

  /** Every character `strip()` keeps occurs in its input. */
  lemma StripChars(s: string)
    ensures forall c :: c in Strip(s) ==> c in s
  {
    StripShape(s);
    var a, b :| 0 <= a <= b <= |s| && Strip(s) == s[a..b] && AllSpace(s[..a]) && AllSpace(s[b..]);
    forall c | c in Strip(s) ensures c in s {
      var i :| 0 <= i < |s[a..b]| && s[a..b][i] == c;
      assert s[a + i] == c;
    }
  }

  /** Whitespace around a core that neither starts nor ends with whitespace is exactly what `strip()` removes. */
  lemma {:induction false} StripAround(a: string, m: string, b: string)
    requires AllSpace(a) && AllSpace(b)
    requires m != [] && !IsSpace(m[0]) && !IsSpace(m[|m| - 1])
    ensures Strip(a + m + b) == m
  {
    StripLeftSpaces(a, m + b);
    assert a + m + b == a + (m + b);
    StripRightSpaces(m, b);
  }

  lemma {:induction false} StripLeftSpaces(a: string, x: string)
    requires AllSpace(a)
    requires x != [] && !IsSpace(x[0])
    ensures StripLeft(a + x) == x
    decreases |a|
  {
    if a != [] {
      assert (a + x)[1..] == a[1..] + x;
      StripLeftSpaces(a[1..], x);
    }
  }

  lemma {:induction false} StripRightSpaces(x: string, b: string)
    requires AllSpace(b)
    requires x != [] && !IsSpace(x[|x| - 1])
    ensures StripRight(x + b) == x
    decreases |b|
  {
    if b == [] {
      assert x + b == x;
    } else {
      assert (x + b)[..|x + b| - 1] == x + b[..|b| - 1];
      StripRightSpaces(x, b[..|b| - 1]);
    }
  }

  /** A string of whitespace strips to the empty string. */
  lemma {:induction false} StripAllSpace(s: string)
    requires AllSpace(s)
    ensures Strip(s) == []
    decreases |s|
  {
    if s != [] {
      StripAllSpace(s[1..]);
    }
  }

  /** Python's `s.replace(a, b)` for one character by another. */
  function ReplaceAll(s: string, a: char, b: char): (t: string)
    ensures |t| == |s|
    decreases |s|
  {
    if s == [] then []
    else ReplaceAll(s[..|s| - 1], a, b) + [if s[|s| - 1] == a then b else s[|s| - 1]]
  }

  /** Each character equal to `a` becomes `b`; every other character is kept in its place. */
  lemma {:induction false} ReplaceAt(s: string, a: char, b: char)
    ensures forall i :: 0 <= i < |s| ==> ReplaceAll(s, a, b)[i] == if s[i] == a then b else s[i]
    decreases |s|
  {
    if s != [] {
      var init := s[..|s| - 1];
      ReplaceAt(init, a, b);
      assert forall i :: 0 <= i < |init| ==> init[i] == s[i];
    }
  }

  /** Replacing a character that does not occur changes nothing. */
  lemma ReplaceAbsent(s: string, a: char, b: char)
    requires a !in s
    ensures ReplaceAll(s, a, b) == s
  {
    ReplaceAt(s, a, b);
  }

  /** After replacing `a` by a different character, no `a` is left. */
  lemma ReplaceRemoves(s: string, a: char, b: char)
    requires a != b
    ensures a !in ReplaceAll(s, a, b)
  {
    ReplaceAt(s, a, b);
  }

  /** A character other than `a` is still there after replacing `a`. */
  lemma ReplaceKeeps(s: string, a: char, b: char, x: char)
    requires x in s && x != a
    ensures x in ReplaceAll(s, a, b)
  {
    ReplaceAt(s, a, b);
    var i :| 0 <= i < |s| && s[i] == x;
    assert ReplaceAll(s, a, b)[i] == x;
  }

  lemma {:induction false} ReplaceConcat(x: string, y: string, a: char, b: char)
    ensures ReplaceAll(x + y, a, b) == ReplaceAll(x, a, b) + ReplaceAll(y, a, b)
    decreases |y|
  {
    if y == [] {
      assert x + y == x;
    } else {
      ReplaceConcat(x, y[..|y| - 1], a, b);
      assert (x + y)[..|x + y| - 1] == x + y[..|y| - 1];
    }
  }

  predicate NotChar(a: char, c: char)
  {
    c != a
  }

  /** Python's `s.replace(a, "")`: every occurrence of `a` deleted. */
  function Without(s: string, a: char): string
  {
    Filter(s, c => NotChar(a, c))
  }

  /** What is left after deleting `a` is the other characters of `s`, in order. */
  lemma WithoutMember(s: string, a: char)
    ensures forall c :: c in Without(s, a) <==> c in s && c != a
  {
    FilterMember(s, c => NotChar(a, c));
  }

  lemma WithoutConcat(x: string, y: string, a: char)
    ensures Without(x + y, a) == Without(x, a) + Without(y, a)
  {
    FilterConcat(x, y, c => NotChar(a, c));
  }

  /** Deleting a character that does not occur changes nothing. */
  lemma WithoutAbsent(s: string, a: char)
    requires a !in s
    ensures Without(s, a) == s
  {
    FilterAll(s, c => NotChar(a, c));
  }

  function DigitValue(c: char): nat
    requires IsDigit(c)
  {
    c as int - '0' as int
  }

  function DigitChar(d: nat): (c: char)
    requires d < 10
    ensures IsDigit(c) && DigitValue(c) == d
  {
    ('0' as int + d) as char
  }

  function Pow10(k: nat): (p: nat)
    ensures p >= 1
  {
    if k == 0 then 1 else 10 * Pow10(k - 1)
  }

  /** The value of a decimal digit string, as `int()` reads it (0 for the empty string). */
  function NatOf(s: string): nat
    requires AllDigits(s)
    decreases |s|
  {
    if s == [] then 0 else NatOf(s[..|s| - 1]) * 10 + DigitValue(s[|s| - 1])
  }

  /** Reading a concatenation: the left part shifted by the length of the right part. */
  lemma {:induction false} NatOfConcat(a: string, b: string)
    requires AllDigits(a) && AllDigits(b)
    ensures AllDigits(a + b)
    ensures NatOf(a + b) == NatOf(a) * Pow10(|b|) + NatOf(b)
    decreases |b|
  {
    if b == [] {
      assert a + b == a;
    } else {
      var b' := b[..|b| - 1];
      assert (a + b)[..|a + b| - 1] == a + b';
      NatOfConcat(a, b');
      var x, p, y, d := NatOf(a), Pow10(|b'|), NatOf(b'), DigitValue(b[|b| - 1]);
      assert NatOf(a + b) == NatOf(a + b') * 10 + d;
      assert NatOf(b) == y * 10 + d;
      assert Pow10(|b|) == p * 10;
      ShiftTen(x, p, y, d);
    }
  }

  /** `(x * p + y) * 10 + d == x * (p * 10) + (y * 10 + d)`, the arithmetic step of `NatOfConcat`. */
  lemma ShiftTen(x: int, p: int, y: int, d: int)
    ensures (x * p + y) * 10 + d == x * (p * 10) + (y * 10 + d)
  {
    assert x * (p * 10) == (x * p) * 10;
  }

  /** `str(n)` for a natural number: shortest decimal digits, read back as `n`. */
  function NatToString(n: nat): (s: string)
    ensures |s| > 0 && AllDigits(s)
    ensures NatOf(s) == n
    ensures |s| > 1 ==> s[0] != '0'
    decreases n
  {
    if n < 10 then [DigitChar(n)]
    else
      var init := NatToString(n / 10);
      var s := init + [DigitChar(n % 10)];
      assert s[..|s| - 1] == init;
      s
  }

  /** Python's `<` on strings: lexicographic by code point. */
  predicate LexLess(a: string, b: string)
    decreases |a|
  {
    if a == [] then b != []
    else if b == [] then false
    else if a[0] != b[0] then a[0] < b[0]
    else LexLess(a[1..], b[1..])
  }

  lemma {:induction false} LexIrreflexive(a: string)
    ensures !LexLess(a, a)
    decreases |a|
  {
    if a != [] {
      LexIrreflexive(a[1..]);
    }
  }

  lemma {:induction false} LexTransitive(a: string, b: string, c: string)
    requires LexLess(a, b) && LexLess(b, c)
    ensures LexLess(a, c)
    decreases |a|
  {
    if a != [] && b != [] && c != [] && a[0] == b[0] && b[0] == c[0] {
      LexTransitive(a[1..], b[1..], c[1..]);
    }
  }

  lemma {:induction false} LexTotal(a: string, b: string)
    requires a != b
    ensures LexLess(a, b) || LexLess(b, a)
    decreases |a|
  {
    if a != [] && b != [] && a[0] == b[0] {
      assert a == [a[0]] + a[1..] && b == [b[0]] + b[1..];
      LexTotal(a[1..], b[1..]);
    }
  }

  predicate StrictlySorted(xs: seq<string>)
  {
    forall i, j :: 0 <= i < j < |xs| ==> LexLess(xs[i], xs[j])
  }

  /** Puts `x` into its place in an ascending list, unless it is already there. */
  function Insert(r: seq<string>, x: string): seq<string>
    decreases |r|
  {
    if r == [] then [x]
    else if x == r[0] then r
    else if LexLess(x, r[0]) then [x] + r
    else [r[0]] + Insert(r[1..], x)
  }

  lemma {:induction false} InsertSorted(r: seq<string>, x: string)
    requires StrictlySorted(r)
    ensures StrictlySorted(Insert(r, x))
    ensures forall s :: s in Insert(r, x) <==> s in r || s == x
    decreases |r|
  {
    if r != [] && x != r[0] {
      if LexLess(x, r[0]) {
        forall j | 0 <= j < |r| ensures LexLess(x, r[j]) {
          if j > 0 {
            LexTransitive(x, r[0], r[j]);
          }
        }
      } else {
        LexTotal(x, r[0]);
        InsertSorted(r[1..], x);
        assert r == [r[0]] + r[1..];
        var t := Insert(r[1..], x);
        forall j | 0 <= j < |t| ensures LexLess(r[0], t[j]) {
          assert t[j] in t;
        }
      }
    }
  }

  /** `sorted(set(xs))`: the distinct values of `xs` in ascending order. */
  function SortedDistinct(xs: seq<string>): seq<string>
    decreases |xs|
  {
    if xs == [] then [] else Insert(SortedDistinct(xs[..|xs| - 1]), xs[|xs| - 1])
  }

  /** The list holds each value of `xs` once, in strictly ascending order, and nothing else. */
  lemma {:induction false} SortedDistinctSpec(xs: seq<string>)
    ensures StrictlySorted(SortedDistinct(xs))
    ensures Distinct(SortedDistinct(xs))
    ensures forall s :: s in SortedDistinct(xs) <==> s in xs
    decreases |xs|
  {
    if xs != [] {
      var init := xs[..|xs| - 1];
      SortedDistinctSpec(init);
      InsertSorted(SortedDistinct(init), xs[|xs| - 1]);
      assert xs == init + [xs[|xs| - 1]];
    }
    var r := SortedDistinct(xs);
    forall i, j | 0 <= i < j < |r| ensures r[i] != r[j] {
      if r[i] == r[j] {
        LexIrreflexive(r[i]);
      }
    }
  }
}
