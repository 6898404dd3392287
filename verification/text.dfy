/** Character and string helpers shared by the price extractor and the
    negotiation policy: ASCII digits, ASCII lower-casing, Python's `in` on
    strings, and Python's `str()` of an integer. */
module Text {

  predicate IsDigit(c: char) {
    '0' <= c <= '9'
  }

  function DigitValue(c: char): (d: nat)
    requires IsDigit(c)
    ensures d < 10
  {
    c as int - '0' as int
  }

  function DigitChar(d: nat): (c: char)
    requires d < 10
    ensures IsDigit(c) && DigitValue(c) == d
  {
    ('0' as int + d) as char
  }

  predicate AllDigits(s: string) {
    forall i :: 0 <= i < |s| ==> IsDigit(s[i])
  }

  /** True if some character of `s` is a digit. */
  predicate HasDigit(s: string) {
    exists i :: 0 <= i < |s| && IsDigit(s[i])
  }

  /** Index of the leftmost digit of `s`. */
  function FirstDigit(s: string): (k: nat)
    requires HasDigit(s)
    ensures k < |s| && IsDigit(s[k])
    ensures forall j :: 0 <= j < k ==> !IsDigit(s[j])
  {
    if IsDigit(s[0]) then 0
    else
      assert HasDigit(s[1..]) by {
        var i :| 0 <= i < |s| && IsDigit(s[i]);
        assert s[1..][i - 1] == s[i];
      }
      1 + FirstDigit(s[1..])
  }

  /** ASCII case folding, the part of `str.lower()` the model keeps. */
  function LowerChar(c: char): char {
    if 'A' <= c <= 'Z' then (c as int - 'A' as int + 'a' as int) as char else c
  }

  function Lower(s: string): (r: string)
    ensures |r| == |s|
    ensures forall i :: 0 <= i < |s| ==> r[i] == LowerChar(s[i])
  {
    if |s| == 0 then [] else [LowerChar(s[0])] + Lower(s[1..])
  }

  /** Value of a string of decimal digits, most significant first, as
      Python's `int()` reads it (leading zeros allowed). */
  function DecimalValue(ds: string): nat
    requires AllDigits(ds)
  {
    if |ds| == 0 then 0 else 10 * DecimalValue(ds[..|ds| - 1]) + DigitValue(ds[|ds| - 1])
  }

  /** Python's `str()` of a non-negative integer: no sign, no leading zero. */
  function NatToString(n: nat): string {
    if n < 10 then [DigitChar(n)] else NatToString(n / 10) + [DigitChar(n % 10)]
  }

  /** `str()` writes decimal digits without a leading zero, and `int()` reads
      back the number written. */
  lemma {:induction false} NatToStringRoundTrip(n: nat)
    ensures |NatToString(n)| >= 1 && AllDigits(NatToString(n))
    ensures |NatToString(n)| > 1 ==> NatToString(n)[0] != '0'
    ensures DecimalValue(NatToString(n)) == n
  {
    if n >= 10 {
      NatToStringRoundTrip(n / 10);
      var s := NatToString(n);
      assert s[..|s| - 1] == NatToString(n / 10);
    }
  }

  /** Python's `str()` of an integer. Every value the replies format is
      non-negative; the sign case keeps this total on `int`, the type of
      `offer_price` and of the `budget` argument. */
  function IntToString(n: int): string {
    if n < 0 then "-" + NatToString(-n) else NatToString(n)
  }

  /** Python's `word in text`: `word` occurs as a contiguous slice of `text`. */
  predicate Contains(text: string, word: string)
    decreases |text|
  {
    |word| <= |text| && (text[..|word|] == word || Contains(text[1..], word))
  }

  /** `word` occurs in `text` starting at index `i`. */
  predicate OccursAt(text: string, word: string, i: int) {
    0 <= i && i + |word| <= |text| && text[i..i + |word|] == word
  }

  /** `Contains` agrees with the definition by an occurrence index. */
  lemma {:induction false} ContainsIff(text: string, word: string)
    ensures Contains(text, word) <==> exists i :: OccursAt(text, word, i)
    decreases |text|
  {
    if |word| <= |text| && text[..|word|] != word {
      ContainsIff(text[1..], word);
      if Contains(text[1..], word) {
        var i :| OccursAt(text[1..], word, i);
        assert text[i + 1..i + 1 + |word|] == text[1..][i..i + |word|];
        assert OccursAt(text, word, i + 1);
      } else {
        forall i | OccursAt(text, word, i) && i > 0
          ensures OccursAt(text[1..], word, i - 1)
        {
          assert text[1..][i - 1..i - 1 + |word|] == text[i..i + |word|];
        }
      }
    } else if |word| <= |text| {
      assert OccursAt(text, word, 0);
    }
  }

  /** An occurrence at a known position makes `Contains` hold. */
  lemma ContainsAt(text: string, word: string, i: nat)
    requires OccursAt(text, word, i)
    ensures Contains(text, word)
  {
    ContainsIff(text, word);
  }

  /** A word written between two pieces of text is contained in the result. */
  lemma ContainsInfix(a: string, w: string, b: string)
    ensures Contains(a + w + b, w)
  {
    assert (a + w + b)[|a|..|a| + |w|] == w;
    ContainsAt(a + w + b, w, |a|);
  }
}
