/** The C library string searches the harness relies on (strchr, strpbrk,
    strstr), over strings modelled as NUL-free sequences of characters. */
module CString {
  import opened Wrappers

  /** `needle` occurs in `hay` starting at index `i`. */
  predicate OccursAt(hay: string, needle: string, i: nat)
  {
    i + |needle| <= |hay| && hay[i..i + |needle|] == needle
  }

  /** `needle` occurs somewhere in `hay` (strstr would not return NULL). */
  predicate IsSubstring(needle: string, hay: string)
  {
    exists i: nat | i <= |hay| :: OccursAt(hay, needle, i)
  }

  /** Index of the first occurrence of `needle` in `hay` at or after `from`. */
  function FindFrom(hay: string, needle: string, from: nat): (r: Option<nat>)
    requires from <= |hay|
    ensures r.Some? ==> from <= r.value && OccursAt(hay, needle, r.value)
    ensures forall j: nat :: from <= j && (r.None? || j < r.value) ==> !OccursAt(hay, needle, j)
    decreases |hay| - from
  {
    if OccursAt(hay, needle, from) then Some(from)
    else if from + |needle| >= |hay| then None
    else FindFrom(hay, needle, from + 1)
  }

  /** strstr: the index of the first occurrence of `needle` in `hay`, None for NULL. */
  function StrStr(hay: string, needle: string): (r: Option<nat>)
    ensures r.Some? ==> OccursAt(hay, needle, r.value)
    ensures forall j: nat :: (r.None? || j < r.value) ==> !OccursAt(hay, needle, j)
    ensures r.Some? <==> IsSubstring(needle, hay)
  {
    FindFrom(hay, needle, 0)
  }

  /** strpbrk from index `from`: the first index at or after `from` holding a
      character of `accept`, None for NULL. */
  function StrPbrk(s: string, from: nat, accept: set<char>): (r: Option<nat>)
    requires from <= |s|
    ensures r.Some? ==> from <= r.value < |s| && s[r.value] in accept
    ensures forall j :: from <= j < |s| && (r.None? || j < r.value) ==> s[j] !in accept
    decreases |s| - from
  {
    if from == |s| then None
    else if s[from] in accept then Some(from)
    else StrPbrk(s, from + 1, accept)
  }

  /** strchr: the index of the first `c` in `s`, None for NULL. */
  function StrChr(s: string, c: char): (r: Option<nat>)
    ensures r.Some? ==> r.value < |s| && s[r.value] == c
    ensures forall j :: 0 <= j < |s| && (r.None? || j < r.value) ==> s[j] != c
  {
    StrPbrk(s, 0, {c})
  }

  /** Ten to the power `k`. */
  function Pow10(k: nat): (r: nat)
    ensures r >= 1
  {
    if k == 0 then 1 else 10 * Pow10(k - 1)
  }

  predicate IsDigit(c: char)
  {
    '0' <= c <= '9'
  }

  predicate AllDigits(s: string)
  {
    forall i :: 0 <= i < |s| ==> IsDigit(s[i])
  }

  /** The decimal digit character for `v`. */
  function DigitChar(v: nat): (c: char)
    requires v < 10
    ensures IsDigit(c) && c as int - '0' as int == v
  {
    ('0' as int + v) as char
  }

  /** printf's `%<w>.<w>d` for a non-negative `x` with at most `w` digits:
      exactly `w` digits, zero-padded on the left. */
  function PadDecimal(x: nat, w: nat): (r: string)
    requires x < Pow10(w)
    ensures |r| == w && AllDigits(r)
  {
    if w == 0 then [] else PadDecimal(x / 10, w - 1) + [DigitChar(x % 10)]
  }

  /** atol on a string made only of decimal digits. */
  function DecimalValue(s: string): (r: nat)
    requires AllDigits(s)
    ensures r < Pow10(|s|)
  {
    if s == [] then 0
    else DecimalValue(s[..|s| - 1]) * 10 + (s[|s| - 1] as int - '0' as int)
  }

  /** Reading back a zero-padded decimal gives the number printed. */
  lemma {:induction false} DecimalValuePad(x: nat, w: nat)
    requires x < Pow10(w)
    ensures DecimalValue(PadDecimal(x, w)) == x
  {
    if w > 0 {
      var r := PadDecimal(x, w);
      assert r[..|r| - 1] == PadDecimal(x / 10, w - 1);
      DecimalValuePad(x / 10, w - 1);
    }
  }

  /** Printing back the value of a digit string at its own width gives the
      string. */
  lemma {:induction false} PadDecimalOfValue(s: string)
    requires AllDigits(s)
    ensures DecimalValue(s) < Pow10(|s|) && PadDecimal(DecimalValue(s), |s|) == s
  {
    if s != [] {
      var init, c := s[..|s| - 1], s[|s| - 1];
      assert AllDigits(init);
      PadDecimalOfValue(init);
      var v := DecimalValue(s);
      assert v / 10 == DecimalValue(init) && v % 10 == c as int - '0' as int;
      assert DigitChar(v % 10) == c;
      assert s == init + [c];
    }
  }

  /** The value of a concatenation of digit strings: the left part shifted by
      the length of the right part. */
  lemma {:induction false} DecimalValueConcat(a: string, b: string)
    requires AllDigits(a) && AllDigits(b)
    ensures AllDigits(a + b)
    ensures DecimalValue(a + b) == DecimalValue(a) * Pow10(|b|) + DecimalValue(b)
  {
    if b == [] {
      assert a + b == a;
    } else {
      var ab := a + b;
      var b' := b[..|b| - 1];
      assert ab[..|ab| - 1] == a + b';
      DecimalValueConcat(a, b');
      var last := b[|b| - 1] as int - '0' as int;
      assert DecimalValue(ab) == DecimalValue(a + b') * 10 + last;
      assert DecimalValue(b) == DecimalValue(b') * 10 + last;
      ShiftByDigit(DecimalValue(a), Pow10(|b'|), DecimalValue(b'), last);
    }
  }

  lemma ShiftByDigit(x: int, p: int, y: int, last: int)
    ensures (x * p + y) * 10 + last == x * (10 * p) + (y * 10 + last)
  {
  }
}
