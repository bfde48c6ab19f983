/**
  The label vocabulary of ml_api/app.py: the hard-coded algorithm list and
  scikit-learn's `LabelEncoder`, whose `fit` keeps the distinct labels in
  sorted order and whose `inverse_transform` maps an index back to a label.
 */
module Labels {

  import opened Wrappers

  /** The list passed to `label_encoder.fit`, in source order. */
  const Algorithms: seq<string> :=
    ["AES", "Blowfish", "ChaCha20", "DES", "RC4", "RSA", "SHA-256", "3DES"]

  /** The same labels in the order `fit` assigns indices to them. */
  const SortedLabels: seq<string> :=
    ["3DES", "AES", "Blowfish", "ChaCha20", "DES", "RC4", "RSA", "SHA-256"]

  /** Python's `<` on strings: lexicographic by code point. */
  predicate StrLess(a: string, b: string) {
    if a == [] then b != []
    else if b == [] then false
    else if a[0] != b[0] then a[0] < b[0]
    else StrLess(a[1..], b[1..])
  }

  lemma {:induction false} StrLessIrreflexive(a: string)
    ensures !StrLess(a, a)
  {
    if a != [] { StrLessIrreflexive(a[1..]); }
  }

  lemma {:induction false} StrLessTransitive(a: string, b: string, c: string)
    requires StrLess(a, b) && StrLess(b, c)
    ensures StrLess(a, c)
  {
    if a != [] && b != [] && c != [] && a[0] == b[0] && b[0] == c[0] {
      StrLessTransitive(a[1..], b[1..], c[1..]);
    }
  }

  lemma {:induction false} StrLessTotal(a: string, b: string)
    requires a != b
    ensures StrLess(a, b) || StrLess(b, a)
  {
    if a != [] && b != [] && a[0] == b[0] {
      assert a == [a[0]] + a[1..] && b == [b[0]] + b[1..];
      StrLessTotal(a[1..], b[1..]);
    }
  }

  /** Strictly increasing, hence free of duplicates. */
  predicate StrictlySorted(s: seq<string>) {
    forall i, j | 0 <= i < j < |s| :: StrLess(s[i], s[j])
  }

  /** Insert `x` into a strictly sorted list, keeping it strictly sorted and
      dropping `x` if it is already there. */
  function Insert(x: string, s: seq<string>): (r: seq<string>)
    requires StrictlySorted(s)
    ensures StrictlySorted(r)
    ensures forall y :: y in r <==> y == x || y in s
  {
    if s == [] then [x]
    else if x == s[0] then s
    else if StrLess(x, s[0]) then
      assert forall j | 0 <= j < |s| :: StrLess(x, s[j]) by {
        forall j | 0 <= j < |s| ensures StrLess(x, s[j]) {
          if j > 0 { StrLessTransitive(x, s[0], s[j]); }
        }
      }
      [x] + s
    else
      StrLessTotal(x, s[0]);
      var rest := Insert(x, s[1..]);
      assert forall y | y in rest :: StrLess(s[0], y) by {
        forall y | y in rest ensures StrLess(s[0], y) {
          if y in s[1..] {
            var j :| 0 <= j < |s[1..]| && s[1..][j] == y;
            assert s[j + 1] == y;
          }
        }
      }
      [s[0]] + rest
  }

  /** `LabelEncoder.fit(labels).classes_`: the distinct labels, sorted. */
  function Fit(labels: seq<string>): (classes: seq<string>)
    ensures StrictlySorted(classes)
    ensures forall y :: y in classes <==> y in labels
  {
    if labels == [] then []
    else
      var r := Insert(labels[0], Fit(labels[1..]));
      assert forall y :: y in labels <==> y == labels[0] || y in labels[1..] by {
        assert labels == [labels[0]] + labels[1..];
      }
      r
  }

  /** Two strictly sorted lists with the same elements are equal. */
  lemma {:induction false} SortedUnique(a: seq<string>, b: seq<string>)
    requires StrictlySorted(a) && StrictlySorted(b)
    requires forall y :: y in a <==> y in b
    ensures a == b
  {
    assert a != [] ==> a[0] in b;
    assert b != [] ==> b[0] in a;
    if a != [] && b != [] {
      assert a[0] == b[0] by {
        if a[0] != b[0] {
          assert b[0] in b && a[0] in a;
          var i :| 0 <= i < |a| && a[i] == b[0];
          var j :| 0 <= j < |b| && b[j] == a[0];
          assert i > 0 && j > 0;
          assert StrLess(a[0], b[0]) && StrLess(b[0], a[0]);
          StrLessTransitive(a[0], b[0], a[0]);
          StrLessIrreflexive(a[0]);
        }
      }
      assert a == [a[0]] + a[1..] && b == [b[0]] + b[1..];
      forall y ensures y in a[1..] <==> y in b[1..] {
        if y in a[1..] {
          var i :| 0 <= i < |a[1..]| && a[1..][i] == y;
          assert StrLess(a[0], a[i + 1]);
          StrLessIrreflexive(y);
          assert y in b && y != b[0];
        }
        if y in b[1..] {
          var j :| 0 <= j < |b[1..]| && b[1..][j] == y;
          assert StrLess(b[0], b[j + 1]);
          StrLessIrreflexive(y);
          assert y in a && y != a[0];
        }
      }
      SortedUnique(a[1..], b[1..]);
    }
  }

  lemma SortedLabelsSorted()
    ensures StrictlySorted(SortedLabels)
  {
    var s := SortedLabels;
    assert forall i | 0 <= i < |s| - 1 :: StrLess(s[i], s[i + 1]);
    forall i, j | 0 <= i < j < |s| ensures StrLess(s[i], s[j]) {
      ChainStep(s, i, j);
    }
  }

  lemma {:induction false} ChainStep(s: seq<string>, i: nat, j: nat)
    requires i < j < |s|
    requires forall k | 0 <= k < |s| - 1 :: StrLess(s[k], s[k + 1])
    ensures StrLess(s[i], s[j])
    decreases j - i
  {
    if j > i + 1 {
      ChainStep(s, i, j - 1);
      StrLessTransitive(s[i], s[j - 1], s[j]);
    }
  }

  /** Fitting the encoder on the service's list puts "3DES" first: index i
      stands for `SortedLabels[i]`. */
  lemma FitAlgorithms()
    ensures Fit(Algorithms) == SortedLabels
  {
    SortedLabelsSorted();
    SortedUnique(Fit(Algorithms), SortedLabels);
  }

  datatype LabelEncoder = LabelEncoder(classes: seq<string>)

  /** `inverse_transform([k])[0]`: the label at index `k`, or the encoder's
      complaint about an index it never assigned. */
  function InverseTransform(enc: LabelEncoder, k: nat): (r: Result<string, string>)
    ensures r.Ok? <==> k < |enc.classes|
    ensures r.Ok? ==> r.value in enc.classes
  {
    if k < |enc.classes| then Ok(enc.classes[k])
    else Err("y contains previously unseen labels")
  }

  /** Distinct indices of a fitted encoder decode to distinct labels. */
  lemma InverseTransformInjective(labels: seq<string>, i: nat, j: nat)
    requires i < |Fit(labels)| && j < |Fit(labels)| && i != j
    ensures InverseTransform(LabelEncoder(Fit(labels)), i) != InverseTransform(LabelEncoder(Fit(labels)), j)
  {
    var c := Fit(labels);
    if i < j {
      StrLessIrreflexive(c[i]);
    } else {
      StrLessIrreflexive(c[j]);
    }
  }
}
