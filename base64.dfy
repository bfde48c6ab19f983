/**
  `looks_like_base64` from ml_api/utils.py: a shape test, never a decode.
  `BASE64_RE = ^[A-Za-z0-9+/]+={0,2}$` is modelled the way Python's `re.match`
  runs it, and then characterised declaratively; RFC 4648, section 4, gives
  the alphabet and the `=` padding character.
 */
module Base64Shape {

  import opened PyStr

  /** The character class `[A-Za-z0-9+/]`. */
  predicate IsBase64Char(c: char) {
    ('A' <= c <= 'Z') || ('a' <= c <= 'z') || ('0' <= c <= '9') || c == '+' || c == '/'
  }

  predicate IsPad(c: char) {
    c == '='
  }

  /** How many characters a greedy `p+`/`p*` consumes at the start of `s`. */
  function Run(s: string, p: char -> bool): (n: nat)
    ensures n <= |s|
  {
    if s != [] && p(s[0]) then 1 + Run(s[1..], p) else 0
  }

  /** The run is the longest prefix whose characters all satisfy `p`. */
  lemma {:induction false} RunIsLongestPrefix(s: string, p: char -> bool)
    ensures forall i | 0 <= i < Run(s, p) :: p(s[i])
    ensures Run(s, p) < |s| ==> !p(s[Run(s, p)])
  {
    if s != [] && p(s[0]) {
      RunIsLongestPrefix(s[1..], p);
      assert forall i | 1 <= i < Run(s, p) :: s[i] == s[1..][i - 1];
    }
  }

  function Min(a: nat, b: nat): nat {
    if a <= b then a else b
  }

  /** `BASE64_RE.match(t)`: the greedy `[A-Za-z0-9+/]+` (at least one
      character), then up to two `=`, then `$`, which matches at the end of
      the string or just before a final newline. */
  predicate MatchesBase64Re(t: string) {
    var body := Run(t, IsBase64Char);
    var pad := Min(Run(t[body..], IsPad), 2);
    var end := body + pad;
    body >= 1 && (end == |t| || (end == |t| - 1 && t[end] == '\n'))
  }

  /** `looks_like_base64(s)`: the stripped string matches and its length is a
      multiple of 4. */
  predicate LooksLikeBase64(s: string) {
    var t := Strip(s);
    MatchesBase64Re(t) && |t| % 4 == 0
  }

  /** `u` is `|u| - n` alphabet characters followed by `n` padding characters,
      with at least one alphabet character. */
  predicate PaddedBy(u: string, n: nat) {
    n < |u|
    && (forall i | 0 <= i < |u| - n :: IsBase64Char(u[i]))
    && (forall i | |u| - n <= i < |u| :: u[i] == '=')
  }

  /** One or more characters of `A-Za-z0-9+/` followed by at most two `=`. */
  predicate Base64Shaped(u: string) {
    PaddedBy(u, 0) || PaddedBy(u, 1) || PaddedBy(u, 2)
  }

  lemma RunIs(s: string, p: char -> bool, m: nat)
    requires m <= |s|
    requires forall i | 0 <= i < m :: p(s[i])
    requires m < |s| ==> !p(s[m])
    ensures Run(s, p) == m
  {
    RunIsLongestPrefix(s, p);
  }

  /** The match succeeds on `u` itself, or on `u + "\n"`, whenever `u` is
      base64-shaped. */
  lemma MatchesShaped(t: string, u: string, n: nat)
    requires n <= 2 && PaddedBy(u, n)
    requires t == u || t == u + "\n"
    ensures MatchesBase64Re(t)
  {
    var b := |u| - n;
    assert t[..|u|] == u;
    RunIs(t, IsBase64Char, b);
    var rest := t[b..];
    forall i | 0 <= i < n ensures IsPad(rest[i]) {
      assert rest[i] == u[b + i];
    }
    RunIs(rest, IsPad, n);
  }

  /** What the greedy match accepts, stated without the regex engine: a
      base64-shaped string, optionally followed by one newline. */
  lemma RegexSemantics(t: string)
    ensures MatchesBase64Re(t) <==>
      Base64Shaped(t) || (t != [] && t[|t| - 1] == '\n' && Base64Shaped(t[..|t| - 1]))
  {
    if MatchesBase64Re(t) {
      var b := Run(t, IsBase64Char);
      RunIsLongestPrefix(t, IsBase64Char);
      var q := Run(t[b..], IsPad);
      RunIsLongestPrefix(t[b..], IsPad);
      var k := Min(q, 2);
      var e := b + k;
      var u := t[..e];
      forall i | e - k <= i < e ensures u[i] == '=' {
        assert u[i] == t[b..][i - b];
      }
      assert PaddedBy(u, k);
      if e == |t| {
        assert u == t;
      } else {
        assert u == t[..|t| - 1];
      }
    } else {
      if Base64Shaped(t) {
        var n :| 0 <= n <= 2 && PaddedBy(t, n);
        MatchesShaped(t, t, n);
      }
      if t != [] && t[|t| - 1] == '\n' && Base64Shaped(t[..|t| - 1]) {
        var u := t[..|t| - 1];
        assert t == u + "\n";
        var n :| 0 <= n <= 2 && PaddedBy(u, n);
        MatchesShaped(t, u, n);
      }
    }
  }

  /** `looks_like_base64(s)` holds exactly when `s.strip()` is one or more
      alphabet characters, then at most two `=`, with a length divisible by 4.
      Because of the strip, `$` never gets to match before a final newline. */
  lemma LooksLikeBase64Spec(s: string)
    ensures LooksLikeBase64(s) <==> Base64Shaped(Strip(s)) && |Strip(s)| % 4 == 0
  {
    var t := Strip(s);
    RegexSemantics(t);
    StripSpec(s);
    assert t != [] ==> IsSpace('\n') && !IsSpace(t[|t| - 1]);
  }

  /** Surrounding whitespace does not matter. */
  lemma LooksLikeBase64OfStrip(s: string)
    ensures LooksLikeBase64(Strip(s)) == LooksLikeBase64(s)
  {
    StripIdempotent(s);
  }

  /** The regex needs at least one alphabet character. */
  lemma EmptyRejected()
    ensures !LooksLikeBase64("")
  {
    LooksLikeBase64Spec("");
  }

  /** A base64-shaped string whose length is a multiple of 4 is flagged;
      having no whitespace at either end, it is its own strip. */
  lemma ShapedAccepted(s: string, n: nat)
    requires n <= 2 && PaddedBy(s, n) && |s| % 4 == 0
    ensures LooksLikeBase64(s)
  {
    assert !IsSpace(s[0]) && !IsSpace(s[|s| - 1]);
    StripTrimmed(s);
    LooksLikeBase64Spec(s);
  }

  /** A character outside the alphabet, other than `=`, anywhere in the
      stripped string rules it out. */
  lemma ForeignCharRejected(s: string, k: nat)
    requires k < |Strip(s)| && !IsBase64Char(Strip(s)[k]) && Strip(s)[k] != '='
    ensures !LooksLikeBase64(s)
  {
    LooksLikeBase64Spec(s);
  }

  /** Padding is only allowed at the end: a `=` followed by anything but
      another `=` rules the string out. */
  lemma InnerPadRejected(s: string, k: nat)
    requires k + 1 < |Strip(s)| && Strip(s)[k] == '=' && Strip(s)[k + 1] != '='
    ensures !LooksLikeBase64(s)
  {
    LooksLikeBase64Spec(s);
  }

  /** The stripped string must start with an alphabet character. */
  lemma LeadingPadRejected(s: string)
    requires Strip(s) != [] && Strip(s)[0] == '='
    ensures !LooksLikeBase64(s)
  {
    LooksLikeBase64Spec(s);
  }

  /** Padding alone, however long (`"===="` among others), is not
      base64-shaped. */
  lemma BarePaddingRejected(n: nat)
    ensures !LooksLikeBase64(seq(n, _ => '='))
  {
    var s := seq(n, _ => '=');
    if n > 0 {
      assert !IsSpace(s[0]) && !IsSpace(s[n - 1]);
      StripTrimmed(s);
      LeadingPadRejected(s);
    } else {
      EmptyRejected();
    }
  }

  lemma InnerPaddingRejected()
    ensures !LooksLikeBase64("ab=c")
  {
    var s := "ab=c";
    StripTrimmed(s);
    InnerPadRejected(s, 2);
  }

  /** Four alphabet characters are accepted. */
  lemma FourCharactersAccepted()
    ensures LooksLikeBase64("abcd")
  {
    var s := "abcd";
    assert PaddedBy(s, 0);
    ShapedAccepted(s, 0);
  }

  /** ... and so is the same string with whitespace around it. */
  lemma PaddedFourCharactersAccepted()
    ensures LooksLikeBase64(" abcd\n")
  {
    var s := "abcd";
    var w := " abcd\n";
    assert w == [' '] + s + ['\n'];
    StripIgnoresPadding([' '], s, ['\n']);
    FourCharactersAccepted();
    LooksLikeBase64OfStrip(w);
  }

  /** A padded base64 string is flagged. */
  lemma PaddedBase64Accepted()
    ensures LooksLikeBase64("YQ==")
  {
    var s := "YQ==";
    assert PaddedBy(s, 2);
    ShapedAccepted(s, 2);
  }

  /** Plain text with a space is not flagged: the space is outside the
      alphabet. */
  lemma PlainTextRejected()
    ensures !LooksLikeBase64("Hello World")
  {
    var s := "Hello World";
    StripTrimmed(s);
    ForeignCharRejected(s, 5);
  }

  /** The heuristic is loose: a hex string whose length is a multiple of 4
      is flagged as base64-shaped too. */
  lemma HexStringAccepted()
    ensures LooksLikeBase64("4d2f8b5c")
  {
    var s := "4d2f8b5c";
    assert PaddedBy(s, 0);
    ShapedAccepted(s, 0);
  }
}
