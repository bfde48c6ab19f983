/**
  `shannon_entropy` from ml_api/utils.py: the base-2 Shannon entropy of the
  character-frequency distribution of a string. The logarithm is a parameter;
  the properties proved here are about the distribution itself and need of
  `log2` only that it is 0 at 1 and never positive on (0, 1].
 */
module Entropy {

  import opened Ratios

  /** `s.count(c)` for a single character `c`. */
  function Occurrences(s: string, c: char): (n: nat)
    ensures n <= |s|
    ensures n > 0 <==> c in s
  {
    if s == [] then 0
    else (if s[0] == c then 1 else 0) + Occurrences(s[1..], c)
  }

  predicate NoDuplicates(d: seq<char>) {
    forall i, j | 0 <= i < j < |d| :: d[i] != d[j]
  }

  /** The elements of `set(s)`, in the order of their last occurrence
      (the order in which Python walks the set does not change the sum). */
  function Distinct(s: string): (d: seq<char>)
    ensures NoDuplicates(d)
    ensures forall c :: c in d <==> c in s
  {
    if s == [] then []
    else
      var rest := Distinct(s[1..]);
      if s[0] in s[1..] then rest else [s[0]] + rest
  }

  /** `[s.count(c) / len(s) for c in d]`. */
  function Frequencies(s: string, d: seq<char>): (ps: seq<real>)
    requires s != []
    ensures |ps| == |d|
  {
    if d == [] then []
    else [Ratio(Occurrences(s, d[0]), |s|)] + Frequencies(s, d[1..])
  }

  /** The probability list `probs` built by `shannon_entropy`: one entry per
      distinct character. */
  function Probabilities(s: string): (ps: seq<real>)
    ensures |ps| == |Distinct(s)|
  {
    if s == [] then [] else Frequencies(s, Distinct(s))
  }

  /** Every probability lies in (0, 1]: each distinct character occurs at
      least once and at most `len(s)` times. */
  lemma ProbabilitiesInUnitInterval(s: string)
    ensures forall i | 0 <= i < |Probabilities(s)| :: 0.0 < Probabilities(s)[i] <= 1.0
  {
    if s != [] {
      FrequenciesAt(s, Distinct(s));
    }
  }

  lemma {:induction false} FrequenciesAt(s: string, d: seq<char>)
    requires s != []
    ensures forall i | 0 <= i < |d| ::
      Frequencies(s, d)[i] == Ratio(Occurrences(s, d[i]), |s|)
  {
    if d != [] {
      FrequenciesAt(s, d[1..]);
    }
  }

  function Sum(xs: seq<real>): real {
    if xs == [] then 0.0 else xs[0] + Sum(xs[1..])
  }

  /** `sum(p * log2(p) for p in ps)`. */
  function SumPLogP(log2: real -> real, ps: seq<real>): real {
    if ps == [] then 0.0 else ps[0] * log2(ps[0]) + SumPLogP(log2, ps[1..])
  }

  /** What the model needs of `math.log2`. */
  ghost predicate Log2Like(log2: real -> real) {
    log2(1.0) == 0.0 && forall x | 0.0 < x <= 1.0 :: log2(x) <= 0.0
  }

  /** `shannon_entropy(s)`: 0 for the empty string, otherwise
      `-sum(p * log2(p))` over the character probabilities. */
  function ShannonEntropy(log2: real -> real, s: string): (h: real)
    ensures s == [] ==> h == 0.0
    ensures Log2Like(log2) ==> h >= 0.0
  {
    if s == [] then 0.0
    else
      var ps := Probabilities(s);
      assert Log2Like(log2) ==> SumPLogP(log2, ps) <= 0.0 by {
        if Log2Like(log2) {
          ProbabilitiesInUnitInterval(s);
          SumPLogPNonPositive(log2, ps);
        }
      }
      -SumPLogP(log2, ps)
  }

  /** Total occurrences in `s` of the characters of `d`. */
  function OccurrenceTotal(s: string, d: seq<char>): nat {
    if d == [] then 0 else Occurrences(s, d[0]) + OccurrenceTotal(s, d[1..])
  }

  lemma {:induction false} OccurrenceTotalEmpty(d: seq<char>)
    ensures OccurrenceTotal([], d) == 0
  {
    if d != [] { OccurrenceTotalEmpty(d[1..]); }
  }

  lemma {:induction false} OccurrenceTotalCons(x: char, t: string, d: seq<char>)
    ensures OccurrenceTotal([x] + t, d) == OccurrenceTotal(t, d) + Occurrences(d, x)
  {
    assert ([x] + t)[1..] == t;
    if d != [] { OccurrenceTotalCons(x, t, d[1..]); }
  }

  lemma {:induction false} OccurrencesOfUnique(d: seq<char>, x: char)
    requires NoDuplicates(d) && x in d
    ensures Occurrences(d, x) == 1
  {
    if d[0] == x {
      assert x !in d[1..] by {
        forall j | 0 <= j < |d[1..]| ensures d[1..][j] != x {
          assert d[1..][j] == d[j + 1];
        }
      }
    } else {
      OccurrencesOfUnique(d[1..], x);
    }
  }

  /** Summing the counts of a duplicate-free list that covers every character
      of `s` gives `len(s)`. */
  lemma {:induction false} OccurrenceTotalCovers(s: string, d: seq<char>)
    requires NoDuplicates(d)
    requires forall c | c in s :: c in d
    ensures OccurrenceTotal(s, d) == |s|
  {
    if s == [] {
      OccurrenceTotalEmpty(d);
    } else {
      var t := s[1..];
      assert s == [s[0]] + t;
      OccurrenceTotalCons(s[0], t, d);
      OccurrencesOfUnique(d, s[0]);
      OccurrenceTotalCovers(t, d);
    }
  }

  lemma {:induction false} SumFrequencies(s: string, d: seq<char>)
    requires s != []
    ensures Sum(Frequencies(s, d)) == Ratio(OccurrenceTotal(s, d), |s|)
  {
    if d != [] {
      SumFrequencies(s, d[1..]);
      RatioAdd(Occurrences(s, d[0]), OccurrenceTotal(s, d[1..]), |s|);
    }
  }

  /** The probabilities of a non-empty string sum to 1. */
  lemma ProbabilitiesSumToOne(s: string)
    requires s != []
    ensures Sum(Probabilities(s)) == 1.0
  {
    SumFrequencies(s, Distinct(s));
    OccurrenceTotalCovers(s, Distinct(s));
  }

  /** A string made of one repeated character has the single probability 1,
      hence entropy 0. */
  lemma {:induction false} RepeatedCharacter(log2: real -> real, c: char, n: nat)
    requires n > 0 && log2(1.0) == 0.0
    ensures Probabilities(seq(n, _ => c)) == [1.0]
    ensures ShannonEntropy(log2, seq(n, _ => c)) == 0.0
  {
    var s := seq(n, _ => c);
    DistinctOfRepeat(c, n);
    assert Occurrences(s, c) == n by {
      OccurrencesOfRepeat(c, n);
    }
    assert Probabilities(s) == [1.0];
    assert SumPLogP(log2, [1.0]) == 1.0 * log2(1.0) + SumPLogP(log2, []);
  }

  lemma {:induction false} DistinctOfRepeat(c: char, n: nat)
    requires n > 0
    ensures Distinct(seq(n, _ => c)) == [c]
  {
    var s := seq(n, _ => c);
    if n > 1 {
      assert s[1..] == seq(n - 1, _ => c);
      assert s[1..][0] == c;
      DistinctOfRepeat(c, n - 1);
    } else {
      assert s[1..] == [];
    }
  }

  lemma {:induction false} OccurrencesOfRepeat(c: char, n: nat)
    ensures Occurrences(seq(n, _ => c), c) == n
  {
    if n > 0 {
      assert seq(n, _ => c)[1..] == seq(n - 1, _ => c);
      OccurrencesOfRepeat(c, n - 1);
    }
  }

  lemma {:induction false} SumPLogPNonPositive(log2: real -> real, ps: seq<real>)
    requires Log2Like(log2)
    requires forall i | 0 <= i < |ps| :: 0.0 < ps[i] <= 1.0
    ensures SumPLogP(log2, ps) <= 0.0
  {
    if ps != [] {
      assert log2(ps[0]) <= 0.0;
      assert ps[0] * log2(ps[0]) <= 0.0;
      SumPLogPNonPositive(log2, ps[1..]);
    }
  }

  lemma {:induction false} SumPLogPConstant(log2: real -> real, ps: seq<real>, p: real)
    requires forall i | 0 <= i < |ps| :: ps[i] == p
    ensures SumPLogP(log2, ps) == |ps| as real * (p * log2(p))
  {
    if ps != [] {
      SumPLogPConstant(log2, ps[1..], p);
    }
  }

  lemma {:induction false} DistinctOfUnique(s: string)
    requires NoDuplicates(s)
    ensures Distinct(s) == s
  {
    if s != [] {
      assert s[0] !in s[1..] by {
        forall j | 0 <= j < |s[1..]| ensures s[1..][j] != s[0] {
          assert s[1..][j] == s[j + 1];
        }
      }
      DistinctOfUnique(s[1..]);
    }
  }

  /** Each of `n` pairwise distinct characters occurs once, so its probability
      is `1/n`. */
  lemma UniformProbabilities(s: string)
    requires s != [] && NoDuplicates(s)
    ensures Probabilities(s) == seq(|s|, _ => Ratio(1, |s|))
  {
    DistinctOfUnique(s);
    FrequenciesAt(s, s);
    forall i | 0 <= i < |s| ensures Occurrences(s, s[i]) == 1 {
      OccurrencesOfUnique(s, s[i]);
    }
  }

  /** A string of `n` pairwise distinct characters gives each character the
      probability `1/n`, so its entropy is `-log2(1/n)` (that is, `log2(n)`). */
  lemma AllDistinct(log2: real -> real, s: string)
    requires s != [] && NoDuplicates(s)
    ensures forall i | 0 <= i < |Probabilities(s)| :: Probabilities(s)[i] == 1.0 / |s| as real
    ensures ShannonEntropy(log2, s) == -log2(1.0 / |s| as real)
  {
    var n := |s| as real;
    UniformProbabilities(s);
    RatioOfOne(|s|);
    var ps := Probabilities(s);
    SumPLogPConstant(log2, ps, 1.0 / n);
    Rescale(n, log2(1.0 / n));
  }
}
