/**
  The pieces of Python's `str` behaviour the feature extractor relies on:
  `str.isspace` (exactly, for every code point), `str.strip()` with no
  argument, and counting the characters that satisfy a predicate
  (`sum(pred(c) for c in s)`).
 */
module PyStr {

  /** Python's `str.isspace` for one character: the fixed list of code points
      whose bidirectional class is WS, B or S, or whose category is Zs. */
  predicate IsSpace(c: char) {
    var k := c as int;
    (9 <= k <= 13) || (28 <= k <= 32) || k == 0x85 || k == 0xA0 || k == 0x1680
    || (0x2000 <= k <= 0x200A) || k == 0x2028 || k == 0x2029 || k == 0x202F
    || k == 0x205F || k == 0x3000
  }

  predicate AllSpace(s: string) {
    forall i | 0 <= i < |s| :: IsSpace(s[i])
  }

  /** Python's `str.lstrip()`: drop leading whitespace. */
  function LStrip(s: string): (r: string)
    ensures |r| <= |s|
  {
    if s != [] && IsSpace(s[0]) then LStrip(s[1..]) else s
  }

  /** What `lstrip` removes is whitespace, and what it keeps is a suffix that
      does not start with whitespace. */
  lemma {:induction false} LStripSpec(s: string)
    ensures LStrip(s) == s[|s| - |LStrip(s)|..]
    ensures forall i | 0 <= i < |s| - |LStrip(s)| :: IsSpace(s[i])
    ensures LStrip(s) == [] || !IsSpace(LStrip(s)[0])
  {
    if s != [] && IsSpace(s[0]) {
      LStripSpec(s[1..]);
      assert s[1..][|s| - 1 - |LStrip(s)|..] == s[|s| - |LStrip(s)|..];
      forall i | 1 <= i < |s| - |LStrip(s)| ensures IsSpace(s[i]) {
        assert s[i] == s[1..][i - 1];
      }
    }
  }

  /** Python's `str.rstrip()`: drop trailing whitespace. */
  function RStrip(s: string): (r: string)
    ensures |r| <= |s|
  {
    if s != [] && IsSpace(s[|s| - 1]) then RStrip(s[..|s| - 1]) else s
  }

  /** What `rstrip` removes is whitespace, and what it keeps is a prefix that
      does not end with whitespace. */
  lemma {:induction false} RStripSpec(s: string)
    ensures RStrip(s) == s[..|RStrip(s)|]
    ensures forall i | |RStrip(s)| <= i < |s| :: IsSpace(s[i])
    ensures RStrip(s) == [] || !IsSpace(RStrip(s)[|RStrip(s)| - 1])
  {
    if s != [] && IsSpace(s[|s| - 1]) {
      var t := s[..|s| - 1];
      RStripSpec(t);
      assert t[..|RStrip(s)|] == s[..|RStrip(s)|];
      forall i | |RStrip(s)| <= i < |s| - 1 ensures IsSpace(s[i]) {
        assert s[i] == t[i];
      }
    }
  }

  /** `rstrip` keeps a string's first character when it is not whitespace. */
  lemma {:induction false} RStripKeepsFirst(s: string)
    ensures s != [] && !IsSpace(s[0]) ==> RStrip(s) != [] && RStrip(s)[0] == s[0]
    decreases |s|
  {
    if s != [] && !IsSpace(s[0]) && IsSpace(s[|s| - 1]) {
      var t := s[..|s| - 1];
      assert t[0] == s[0];
      RStripKeepsFirst(t);
    }
  }

  /** Python's `str.strip()`: whitespace removed at both ends. */
  function Strip(s: string): (r: string)
    ensures |r| <= |s|
  {
    RStrip(LStrip(s))
  }

  /** The strip is empty exactly when `s` is all whitespace, and otherwise
      starts and ends with a character that is not whitespace. */
  lemma StripSpec(s: string)
    ensures Strip(s) == [] <==> AllSpace(s)
    ensures Strip(s) != [] ==> !IsSpace(Strip(s)[0]) && !IsSpace(Strip(s)[|Strip(s)| - 1])
  {
    StripEmpty(s);
    StripEnds(s);
  }

  /** The strip is empty exactly when `s` is all whitespace. */
  lemma StripEmpty(s: string)
    ensures Strip(s) == [] <==> AllSpace(s)
  {
    var l := LStrip(s);
    LStripEmpty(s);
    LStripSpec(s);
    RStripKeepsFirst(l);
  }

  /** A non-empty strip neither starts nor ends with whitespace. */
  lemma StripEnds(s: string)
    ensures Strip(s) != [] ==> !IsSpace(Strip(s)[0]) && !IsSpace(Strip(s)[|Strip(s)| - 1])
  {
    var l := LStrip(s);
    LStripSpec(s);
    RStripSpec(l);
    RStripKeepsFirst(l);
  }

  /** `lstrip` leaves nothing exactly when the string is all whitespace. */
  lemma LStripEmpty(s: string)
    ensures LStrip(s) == [] <==> AllSpace(s)
  {
    LStripSpec(s);
    assert LStrip(s) != [] ==> LStrip(s)[0] == s[|s| - |LStrip(s)|];
  }

  /** The strip of `s` is a slice of `s` and everything outside that slice is
      whitespace. */
  lemma StripIsSlice(s: string) returns (i: nat, j: nat)
    ensures i <= j <= |s| && Strip(s) == s[i..j]
    ensures forall k | 0 <= k < i :: IsSpace(s[k])
    ensures forall k | j <= k < |s| :: IsSpace(s[k])
  {
    var l := LStrip(s);
    var r := RStrip(l);
    LStripSpec(s);
    RStripSpec(l);
    i, j := |s| - |l|, |s| - |l| + |r|;
    SliceOfSuffix(s, i, |r|);
    forall k | j <= k < |s| ensures IsSpace(s[k]) {
      assert s[k] == l[k - i];
    }
  }

  lemma SliceOfSuffix(s: string, i: nat, n: nat)
    requires i + n <= |s|
    ensures s[i..][..n] == s[i..i + n]
  {
  }

  /** A string with no whitespace at either end is its own strip. */
  lemma StripTrimmed(s: string)
    requires s == [] || (!IsSpace(s[0]) && !IsSpace(s[|s| - 1]))
    ensures Strip(s) == s
  {
  }

  /** Stripping twice is stripping once. */
  lemma StripIdempotent(s: string)
    ensures Strip(Strip(s)) == Strip(s)
  {
    StripSpec(s);
    StripTrimmed(Strip(s));
  }

  lemma {:induction false} LStripSpacePrefix(w: string, x: string)
    requires AllSpace(w)
    ensures LStrip(w + x) == LStrip(x)
    decreases |w|
  {
    if w != [] {
      assert (w + x)[1..] == w[1..] + x;
      LStripSpacePrefix(w[1..], x);
    } else {
      assert w + x == x;
    }
  }

  lemma {:induction false} RStripSpaceSuffix(x: string, w: string)
    requires AllSpace(w)
    ensures RStrip(x + w) == RStrip(x)
    decreases |w|
  {
    if w != [] {
      assert (x + w)[..|x + w| - 1] == x + w[..|w| - 1];
      RStripSpaceSuffix(x, w[..|w| - 1]);
    } else {
      assert x + w == x;
    }
  }

  lemma {:induction false} LStripAppend(x: string, y: string)
    requires LStrip(x) != []
    ensures LStrip(x + y) == LStrip(x) + y
    decreases |x|
  {
    var xy := x + y;
    assert xy[0] == x[0];
    if IsSpace(x[0]) {
      assert LStrip(x) == LStrip(x[1..]);
      assert xy[1..] == x[1..] + y;
      assert LStrip(xy) == LStrip(xy[1..]);
      LStripAppend(x[1..], y);
    } else {
      assert LStrip(x) == x;
      assert LStrip(xy) == xy;
    }
  }

  lemma AllSpaceAppend(a: string, b: string)
    requires AllSpace(a) && AllSpace(b)
    ensures AllSpace(a + b)
  {
    forall i | 0 <= i < |a + b| ensures IsSpace((a + b)[i]) {
      if i >= |a| { assert (a + b)[i] == b[i - |a|]; }
    }
  }

  /** Whitespace added at either end of a string does not change its strip. */
  lemma StripIgnoresPadding(w1: string, s: string, w2: string)
    requires AllSpace(w1) && AllSpace(w2)
    ensures Strip(w1 + s + w2) == Strip(s)
  {
    var x := w1 + s + w2;
    assert x == w1 + (s + w2);
    LStripSpacePrefix(w1, s + w2);
    assert Strip(x) == RStrip(LStrip(s + w2));
    assert Strip(s) == RStrip(LStrip(s));
    if LStrip(s) == [] {
      LStripEmpty(s);
      AllSpaceAppend(s, w2);
      LStripEmpty(s + w2);
    } else {
      LStripAppend(s, w2);
      RStripSpaceSuffix(LStrip(s), w2);
    }
  }

  /** `sum(p(c) for c in s)`: how many characters of `s` satisfy `p`. */
  function CountWhere(s: string, p: char -> bool): (n: nat)
    ensures n <= |s|
  {
    if s == [] then 0 else (if p(s[0]) then 1 else 0) + CountWhere(s[1..], p)
  }

  /** The count is the full length exactly when every character satisfies
      `p`, and 0 exactly when none does. */
  lemma {:induction false} CountWhereExtremes(s: string, p: char -> bool)
    ensures CountWhere(s, p) == |s| <==> forall i | 0 <= i < |s| :: p(s[i])
    ensures CountWhere(s, p) == 0 <==> forall i | 0 <= i < |s| :: !p(s[i])
  {
    if s != [] {
      CountWhereExtremes(s[1..], p);
      assert forall i | 1 <= i < |s| :: s[i] == s[1..][i - 1];
    }
  }

  /** Counting distributes over concatenation. */
  lemma {:induction false} CountWhereAppend(a: string, b: string, p: char -> bool)
    ensures CountWhere(a + b, p) == CountWhere(a, p) + CountWhere(b, p)
  {
    if a != [] {
      assert (a + b)[1..] == a[1..] + b;
      CountWhereAppend(a[1..], b, p);
    } else {
      assert a + b == b;
    }
  }

  /** If every character satisfying `p` satisfies `q` or `r`, the `p`-count is
      at most the `q`-count plus the `r`-count. */
  lemma {:induction false} CountWhereCovered(s: string, p: char -> bool, q: char -> bool, r: char -> bool)
    requires forall i | 0 <= i < |s| :: p(s[i]) ==> q(s[i]) || r(s[i])
    ensures CountWhere(s, p) <= CountWhere(s, q) + CountWhere(s, r)
  {
    if s != [] {
      assert forall i | 1 <= i < |s| :: s[i] == s[1..][i - 1];
      CountWhereCovered(s[1..], p, q, r);
    }
  }

  /** If every character satisfies exactly one of `p` and `q`, the two counts
      add up to the length. */
  lemma {:induction false} CountWherePartition(s: string, p: char -> bool, q: char -> bool)
    requires forall i | 0 <= i < |s| :: p(s[i]) != q(s[i])
    ensures CountWhere(s, p) + CountWhere(s, q) == |s|
  {
    if s != [] {
      assert forall i | 1 <= i < |s| :: s[i] == s[1..][i - 1];
      CountWherePartition(s[1..], p, q);
    }
  }
}
