/**
  `featurize_text` from ml_api/utils.py: the 8-entry feature vector of a
  string, in the order the classifier was trained on.
 */
module Features {

  import opened PyStr
  import opened Ratios
  import opened Entropy
  import opened Base64Shape

  /**
    What the extractor takes from Python's runtime and cannot see into: the
    Unicode-aware `str.isalpha` and `str.isdigit`, and `math.log2`.
   */
  datatype Platform = Platform(isAlpha: char -> bool, isDigit: char -> bool, log2: real -> real)
  {
    /** On ASCII the character classes are exactly the ASCII letters and the
        decimal digits; `log2` behaves like a logarithm on (0, 1]. */
    ghost predicate Valid() {
      (forall c: char | c as int < 128 :: isAlpha(c) == IsAsciiLetter(c))
      && (forall c: char | c as int < 128 :: isDigit(c) == IsAsciiDigit(c))
      && Log2Like(log2)
    }
  }

  predicate IsAsciiLetter(c: char) {
    ('A' <= c <= 'Z') || ('a' <= c <= 'z')
  }

  predicate IsAsciiDigit(c: char) {
    '0' <= c <= '9'
  }

  /** `HEX_CHARS = set("0123456789abcdefABCDEF")`. */
  const HexChars: set<char> := {
    '0', '1', '2', '3', '4', '5', '6', '7', '8', '9',
    'a', 'b', 'c', 'd', 'e', 'f', 'A', 'B', 'C', 'D', 'E', 'F'
  }

  /** Every hexadecimal digit is an ASCII letter or digit. */
  lemma HexCharsAreAlphanumeric(c: char)
    requires c in HexChars
    ensures c as int < 128 && (IsAsciiLetter(c) || IsAsciiDigit(c))
  {
  }

  /** Membership in `charset`, as a predicate on characters. */
  function InSet(charset: set<char>): char -> bool {
    c => c in charset
  }

  /** `pct_chars_in_set(s, charset)`: 0 for the empty string, otherwise the
      fraction of characters of `s` that are in `charset`; it is 1 exactly
      when every character is in the set. */
  function PctCharsInSet(s: string, charset: set<char>): (r: real)
    ensures s == [] ==> r == 0.0
    ensures 0.0 <= r <= 1.0
    ensures r == 1.0 <==> s != [] && forall i | 0 <= i < |s| :: s[i] in charset
  {
    if s == [] then 0.0
    else
      CountWhereExtremes(s, InSet(charset));
      Ratio(CountWhere(s, InSet(charset)), |s|)
  }

  /** `sum(ord(c) for c in s)`. */
  function SumOrd(s: string): nat {
    if s == [] then 0 else s[0] as int + SumOrd(s[1..])
  }

  /** `avg_ord`: the mean code point, 0 for the empty string. */
  function AvgOrd(s: string): (r: real)
    ensures s == [] ==> r == 0.0
    ensures r >= 0.0
  {
    Ratio(SumOrd(s), |s|)
  }

  lemma {:induction false} SumOrdOfRepeat(c: char, n: nat)
    ensures SumOrd(seq(n, _ => c)) == n * (c as int)
  {
    if n > 0 {
      assert seq(n, _ => c)[1..] == seq(n - 1, _ => c);
      SumOrdOfRepeat(c, n - 1);
    }
  }

  /** The mean code point of one repeated character is that character's
      code point (so "AAA" gives 65). */
  lemma AvgOrdOfRepeat(c: char, n: nat)
    requires n > 0
    ensures AvgOrd(seq(n, _ => c)) == (c as int) as real
  {
    SumOrdOfRepeat(c, n);
    RatioOfMultiple(c as int, n);
  }

  /** The eight features `featurize_text` computes, by name. */
  datatype TextFeatures = TextFeatures(
    length: real, letters: real, digits: real, hex: real,
    base64: real, entropy: real, avgOrd: real, spaces: real)
  {
    /** The list handed to the classifier, in the order it was trained on. */
    function Row(): (r: seq<real>)
      ensures |r| == 8 && r[0] == length && r[4] == base64 && r[7] == spaces
    {
      [length, letters, digits, hex, base64, entropy, avgOrd, spaces]
    }
  }

  /** `featurize_text(s)`: the features of `s.strip()`. The length is the
      stripped length, the four fractions lie in [0, 1], the base64 flag is 1
      exactly when `looks_like_base64(s)` holds and 0 otherwise, and the
      entropy and mean code point are never negative. */
  function FeaturizeText(pf: Platform, s: string): (f: TextFeatures)
    ensures f.length == |Strip(s)| as real
    ensures 0.0 <= f.letters <= 1.0 && 0.0 <= f.digits <= 1.0
    ensures 0.0 <= f.hex <= 1.0 && 0.0 <= f.spaces <= 1.0
    ensures f.base64 == (if LooksLikeBase64(s) then 1.0 else 0.0)
    ensures Log2Like(pf.log2) ==> f.entropy >= 0.0
    ensures f.avgOrd >= 0.0
  {
    var t := Strip(s);
    var n := |t|;
    LooksLikeBase64OfStrip(s);
    TextFeatures(
      n as real,
      Ratio(CountWhere(t, pf.isAlpha), n),
      Ratio(CountWhere(t, pf.isDigit), n),
      PctCharsInSet(t, HexChars),
      if LooksLikeBase64(t) then 1.0 else 0.0,
      ShannonEntropy(pf.log2, t),
      AvgOrd(t),
      Ratio(CountWhere(t, IsSpace), n))
  }

  /** Only `s.strip()` matters. */
  lemma FeaturesOfStrip(pf: Platform, s: string)
    ensures FeaturizeText(pf, Strip(s)) == FeaturizeText(pf, s)
  {
    StripIdempotent(s);
  }

  /** Whitespace added before or after the text changes no feature; the
      whitespace fraction therefore counts interior whitespace only. */
  lemma FeaturesIgnorePadding(pf: Platform, w1: string, s: string, w2: string)
    requires AllSpace(w1) && AllSpace(w2)
    ensures FeaturizeText(pf, w1 + s + w2) == FeaturizeText(pf, s)
  {
    StripIgnoresPadding(w1, s, w2);
  }

  /** Empty or whitespace-only text has all features 0: the regex needs a
      character, entropy is 0 on empty input and `avg_ord` is guarded. */
  lemma BlankFeatures(pf: Platform, s: string)
    requires AllSpace(s)
    ensures FeaturizeText(pf, s).Row() == seq(8, _ => 0.0)
  {
    StripSpec(s);
    EmptyRejected();
  }

  /** Hex digits are letters or digits, so the hex fraction never exceeds the
      letter fraction plus the digit fraction. */
  lemma HexWithinAlphanumeric(pf: Platform, s: string)
    requires pf.Valid()
    ensures var f := FeaturizeText(pf, s);
      f.hex <= f.letters + f.digits
  {
    HexFractionWithinAlphanumeric(pf, Strip(s));
  }

  lemma HexFractionWithinAlphanumeric(pf: Platform, t: string)
    requires pf.Valid()
    ensures PctCharsInSet(t, HexChars)
         <= Ratio(CountWhere(t, pf.isAlpha), |t|) + Ratio(CountWhere(t, pf.isDigit), |t|)
  {
    if t != [] {
      var h, a, d := CountWhere(t, InSet(HexChars)), CountWhere(t, pf.isAlpha), CountWhere(t, pf.isDigit);
      assert PctCharsInSet(t, HexChars) == Ratio(h, |t|);
      HexCountWithinAlphanumeric(pf, t);
      RatioWithinSum(h, a, d, |t|);
    }
  }

  lemma HexCountWithinAlphanumeric(pf: Platform, t: string)
    requires pf.Valid()
    ensures CountWhere(t, InSet(HexChars)) <= CountWhere(t, pf.isAlpha) + CountWhere(t, pf.isDigit)
  {
    forall i | 0 <= i < |t| && InSet(HexChars)(t[i]) ensures pf.isAlpha(t[i]) || pf.isDigit(t[i]) {
      HexCharsAreAlphanumeric(t[i]);
    }
    CountWhereCovered(t, InSet(HexChars), pf.isAlpha, pf.isDigit);
  }

  /** Text made only of hex digits has hex fraction exactly 1. */
  lemma AllHex(pf: Platform, s: string)
    requires s != [] && forall i | 0 <= i < |s| :: s[i] in HexChars
    ensures FeaturizeText(pf, s).hex == 1.0
  {
    assert !IsSpace(s[0]) && !IsSpace(s[|s| - 1]);
    StripTrimmed(s);
  }

  /** When every character is an ASCII letter or digit, the letter and digit
      fractions add up to 1. */
  lemma AsciiAlphanumericSplit(pf: Platform, s: string)
    requires pf.Valid()
    requires s != [] && forall i | 0 <= i < |s| :: IsAsciiLetter(s[i]) || IsAsciiDigit(s[i])
    ensures var f := FeaturizeText(pf, s);
      f.letters + f.digits == 1.0
  {
    assert !IsSpace(s[0]) && !IsSpace(s[|s| - 1]);
    StripTrimmed(s);
    forall i | 0 <= i < |s| ensures pf.isAlpha(s[i]) != pf.isDigit(s[i]) {
      assert s[i] as int < 128;
    }
    CountWherePartition(s, pf.isAlpha, pf.isDigit);
    RatioAdd(CountWhere(s, pf.isAlpha), CountWhere(s, pf.isDigit), |s|);
  }
}
