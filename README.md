# CryptoScan ML service: feature extraction and prediction, in Dafny

CryptoScan guesses which cipher produced a piece of ciphertext. Its Python
service does this in two steps. `ml_api/utils.py` turns the text into eight
numeric features:

- the stripped length;
- the letter, digit and hex-digit fractions;
- a base64-shape flag;
- the Shannon entropy of the character distribution;
- the mean code point;
- the whitespace fraction.

`ml_api/app.py` then loads a trained classifier and a `LabelEncoder`. It
answers `POST /predict`, `POST /predict-file` and `GET /health`.

This project models both files and proves what they promise.

| file | module | what it holds |
|---|---|---|
| `wrappers.dfy` | `Wrappers` | `Option` and `Result` |
| `pystr.dfy` | `PyStr` | Python's `str.isspace`, `str.strip()`, and counting characters that satisfy a predicate |
| `ratio.dfy` | `Ratios` | count / length over the reals, 0 for an empty string |
| `entropy.dfy` | `Entropy` | `shannon_entropy`: the character distribution and its sum |
| `base64.dfy` | `Base64Shape` | `BASE64_RE` as Python's greedy `re.match` runs it, and `looks_like_base64` |
| `features.dfy` | `Features` | `HEX_CHARS`, `pct_chars_in_set`, `featurize_text` |
| `labels.dfy` | `Labels` | the hard-coded algorithm list, `LabelEncoder.fit` and `inverse_transform` |
| `service.dfy` | `Service` | the start-up load, `predict`, `predict_file`, `health` |

Pieces of the Python runtime the model cannot look inside are parameters:

- a `Platform` value carries `str.isalpha`, `str.isdigit` and `math.log2`. Its `Valid()` fixes their behaviour on ASCII, and requires `log2` to be 0 at 1 and never positive on (0, 1].
- the trained classifier is a function from a feature row to either a probability row or an error message.
- `featurize_bytes` is a function from bytes to either a feature row or the message of the exception it raised.

The module-level `model` and `label_encoder` are set once at start-up and
only read afterwards. They are therefore an immutable `Engine` value that
`Load` builds and every handler receives. Every core function is
expression-shaped, so the whole model is functions and lemmas.

`featurize_text` counts letters and digits with Python's Unicode-aware
`str.isalpha` and `str.isdigit` (ml_api/utils.py:28-29). The model makes
them parameters that must agree with ASCII below code point 128.

## Model

| member | source | states |
|---|---|---|
| `PyStr.LStripSpec` | ml_api/utils.py:26 | what `lstrip` drops is whitespace; what it keeps is a suffix that is empty or starts with a non-whitespace character |
| `PyStr.RStripSpec` | ml_api/utils.py:26 | what `rstrip` drops is whitespace; what it keeps is a prefix that is empty or ends with a non-whitespace character |
| `PyStr.RStripKeepsFirst` | ml_api/utils.py:26 | `rstrip` keeps a non-whitespace first character |
| `PyStr.StripSpec` | ml_api/utils.py:26 | `strip()` is empty iff the string is all whitespace; otherwise neither of its ends is whitespace |
| `PyStr.StripEmpty` | ml_api/utils.py:26 | `strip()` is empty iff the string is all whitespace |
| `PyStr.StripEnds` | ml_api/utils.py:26 | a non-empty `strip()` neither starts nor ends with whitespace |
| `PyStr.LStripEmpty` | ml_api/utils.py:26 | `lstrip()` is empty iff the string is all whitespace |
| `PyStr.StripIsSlice` | ml_api/utils.py:26 | `strip()` is one contiguous slice of the input, and everything outside it is whitespace |
| `PyStr.StripTrimmed` | ml_api/utils.py:22 | a string with no whitespace at either end is its own strip |
| `PyStr.StripIdempotent` | ml_api/app.py:75 | stripping twice (`predict` strips, then `featurize_text` strips again) is stripping once |
| `PyStr.LStripSpacePrefix` | ml_api/utils.py:26 | leading whitespace prepended to a string does not change its `lstrip` |
| `PyStr.RStripSpaceSuffix` | ml_api/utils.py:26 | trailing whitespace appended to a string does not change its `rstrip` |
| `PyStr.LStripAppend` | ml_api/utils.py:26 | when `lstrip` leaves something, appending text after it passes through unchanged |
| `PyStr.StripIgnoresPadding` | ml_api/utils.py:26 | whitespace added at either end does not change the strip |
| `PyStr.CountWhereExtremes` | ml_api/utils.py:18 | the count equals the length iff every character qualifies, and is 0 iff none does |
| `PyStr.CountWhereAppend` | ml_api/utils.py:18 | counting distributes over concatenation |
| `PyStr.CountWhereCovered` | ml_api/utils.py:28-30 | a class covered by two others counts at most their sum |
| `PyStr.CountWherePartition` | ml_api/utils.py:28-29 | two classes that split every character have counts adding up to the length |
| `Ratios.Ratio` | ml_api/utils.py:17-18 | 0 for length 0; otherwise `r * n == k`; never negative; in [0, 1] when `k <= n`; 1 iff `k == n`; positive when `k` is |
| `Ratios.RatioAdd` | ml_api/utils.py:18 | fractions of one length add like their counts |
| `Ratios.RatioMonotone` | ml_api/utils.py:18 | a larger count gives a larger fraction |
| `Ratios.RatioWithinSum` | ml_api/utils.py:28-30 | a count bounded by a sum gives a fraction bounded by the sum of fractions |
| `Ratios.RatioOfOne` | ml_api/utils.py:13 | one occurrence out of `n` is `1/n` |
| `Ratios.RatioOfMultiple` | ml_api/utils.py:33 | `n` copies of `k` averaged over `n` give `k` |
| `Entropy.Occurrences` | ml_api/utils.py:13 | `s.count(c)` is at most `len(s)` and positive iff `c` occurs |
| `Entropy.Distinct` | ml_api/utils.py:13 | `set(s)`: no duplicates, and exactly the characters of `s` |
| `Entropy.FrequenciesAt` | ml_api/utils.py:13 | entry `i` of the frequency list is `count(d[i]) / len(s)` |
| `Entropy.ProbabilitiesInUnitInterval` | ml_api/utils.py:13 | every probability lies in (0, 1] |
| `Entropy.OccurrenceTotalCovers` | ml_api/utils.py:13 | the counts of a duplicate-free cover of the characters add up to `len(s)` |
| `Entropy.SumFrequencies` | ml_api/utils.py:13 | the frequencies sum to the total count over the length |
| `Entropy.ProbabilitiesSumToOne` | ml_api/utils.py:13 | the probabilities of a non-empty string sum to 1 |
| `Entropy.ShannonEntropy` | ml_api/utils.py:10-14 | 0 for the empty string; never negative when `log2` behaves like a logarithm |
| `Entropy.SumPLogPNonPositive` | ml_api/utils.py:14 | `sum(p * log2(p))` is never positive over probabilities in (0, 1] |
| `Entropy.RepeatedCharacter` | ml_api/utils.py:13-14 | one repeated character gives the distribution `[1]` and entropy 0 |
| `Entropy.DistinctOfRepeat` | ml_api/utils.py:13 | `set` of one repeated character is that character |
| `Entropy.UniformProbabilities` | ml_api/utils.py:13 | `n` pairwise distinct characters each get probability `1/n` |
| `Entropy.AllDistinct` | ml_api/utils.py:13-14 | `n` pairwise distinct characters give entropy `-log2(1/n)` |
| `Base64Shape.RunIsLongestPrefix` | ml_api/utils.py:8 | a greedy repetition consumes the longest prefix of matching characters |
| `Base64Shape.MatchesShaped` | ml_api/utils.py:8 | the regex matches every base64-shaped string, with or without one final newline |
| `Base64Shape.RegexSemantics` | ml_api/utils.py:8 | `BASE64_RE.match(t)` holds iff `t` is base64-shaped, optionally followed by one newline that `$` lets through |
| `Base64Shape.LooksLikeBase64Spec` | ml_api/utils.py:20-23 | `looks_like_base64(s)` iff `s.strip()` is one or more of `A-Za-z0-9+/` then at most two `=`, with length divisible by 4 |
| `Base64Shape.LooksLikeBase64OfStrip` | ml_api/utils.py:22-23 | surrounding whitespace does not change the verdict |
| `Base64Shape.EmptyRejected` | ml_api/utils.py:8 | the empty string is rejected: `+` needs one character |
| `Base64Shape.ShapedAccepted` | ml_api/utils.py:20-23 | base64-shaped text whose length is a multiple of 4 is accepted |
| `Base64Shape.ForeignCharRejected` | ml_api/utils.py:8 | a character outside the alphabet and other than `=` rules the text out |
| `Base64Shape.InnerPadRejected` | ml_api/utils.py:8 | a `=` followed by anything but `=` rules the text out |
| `Base64Shape.LeadingPadRejected` | ml_api/utils.py:8 | text that starts with `=` is rejected |
| `Base64Shape.BarePaddingRejected` | ml_api/utils.py:8 | `=` characters alone, any number of them (`"===="` included), are rejected |
| `Base64Shape.InnerPaddingRejected` | ml_api/utils.py:8 | `"ab=c"` is rejected |
| `Base64Shape.FourCharactersAccepted` | ml_api/utils.py:20-23 | `"abcd"` is accepted |
| `Base64Shape.PaddedFourCharactersAccepted` | ml_api/utils.py:22-23 | `" abcd\n"` is accepted |
| `Base64Shape.PaddedBase64Accepted` | ml_api/utils.py:20-23 | `"YQ=="` is accepted |
| `Base64Shape.PlainTextRejected` | ml_api/utils.py:20-23 | `"Hello World"` is rejected |
| `Base64Shape.HexStringAccepted` | ml_api/utils.py:20-23 | the heuristic is loose: `"4d2f8b5c"` is accepted too |
| `Features.HexCharsAreAlphanumeric` | ml_api/utils.py:7 | every member of `HEX_CHARS` is an ASCII letter or digit |
| `Features.PctCharsInSet` | ml_api/utils.py:16-18 | 0 for the empty string; in [0, 1]; 1 iff the string is non-empty and every character is in the set |
| `Features.AvgOrd` | ml_api/utils.py:33 | the mean code point is never negative, and 0 for empty text |
| `Features.AvgOrdOfRepeat` | ml_api/utils.py:33 | the mean code point of one repeated character is its code point |
| `Features.TextFeatures.Row` | ml_api/utils.py:36 | exactly 8 entries, length first, base64 flag fifth, whitespace fraction last |
| `Features.FeaturizeText` | ml_api/utils.py:25-36 | length is the stripped length; the four fractions are in [0, 1]; the flag is 1 iff `looks_like_base64`, else 0; entropy and mean code point are never negative |
| `Features.FeaturesOfStrip` | ml_api/utils.py:26 | the features depend only on `s.strip()` |
| `Features.FeaturesIgnorePadding` | ml_api/utils.py:26-34 | leading and trailing whitespace change no feature, so the whitespace fraction counts interior whitespace only |
| `Features.BlankFeatures` | ml_api/utils.py:25-36 | empty or whitespace-only text gives the all-zero row |
| `Features.HexCountWithinAlphanumeric` | ml_api/utils.py:28-30 | the hex count is at most the letter count plus the digit count |
| `Features.HexFractionWithinAlphanumeric` | ml_api/utils.py:28-30 | the same inequality holds for the fractions of one string |
| `Features.HexWithinAlphanumeric` | ml_api/utils.py:28-30 | with exact fractions, hex fraction <= letter fraction + digit fraction (see "## Left out") |
| `Features.AllHex` | ml_api/utils.py:30 | text made only of hex digits has hex fraction exactly 1 |
| `Features.AsciiAlphanumericSplit` | ml_api/utils.py:28-29 | on ASCII letters and digits only, the letter and digit fractions sum to 1 |
| `Labels.StrLessIrreflexive` | ml_api/app.py:59 | Python's string `<` is irreflexive |
| `Labels.StrLessTransitive` | ml_api/app.py:59 | Python's string `<` is transitive |
| `Labels.StrLessTotal` | ml_api/app.py:59 | Python's string `<` is total on distinct strings |
| `Labels.Insert` | ml_api/app.py:59 | inserting into a sorted list keeps it strictly sorted, and it holds exactly the old elements and the new one |
| `Labels.Fit` | ml_api/app.py:59 | `classes_` is strictly sorted and holds exactly the fitted labels |
| `Labels.SortedUnique` | ml_api/app.py:59 | two strictly sorted lists with the same elements are equal |
| `Labels.SortedLabelsSorted` | ml_api/app.py:55-58 | the eight labels in encoder order are strictly increasing |
| `Labels.ChainStep` | ml_api/app.py:55-58 | each label is below every later label in a chain of adjacent increases |
| `Labels.FitAlgorithms` | ml_api/app.py:53-59 | fitting the list gives `["3DES","AES","Blowfish","ChaCha20","DES","RC4","RSA","SHA-256"]`, so index 0 is "3DES" |
| `Labels.InverseTransform` | ml_api/app.py:87 | succeeds iff the index is below the number of classes, with a label of the encoder |
| `Labels.InverseTransformInjective` | ml_api/app.py:87 | distinct indices decode to distinct labels |
| `Service.Load` | ml_api/app.py:49-65 | the model is whatever loaded; the encoder exists iff the model does, and its classes are the sorted labels |
| `Service.ArgMax` | ml_api/app.py:84 | `np.argmax`: an index of a maximum, and every earlier entry is strictly smaller, so the first maximum wins |
| `Service.Max` | ml_api/app.py:88 | `np.max`: an element of the row and at least every entry |
| `Service.MaxAtArgMax` | ml_api/app.py:84-88 | the confidence is the probability of the predicted class |
| `Service.Infer` | ml_api/app.py:83-89 | a classifier error passes through; otherwise the result is the label at the argmax with the maximum, and success needs a non-empty row whose argmax the encoder knows |
| `Service.Predict` | ml_api/app.py:70-92 | not loaded gives 500 "Model not loaded" for every input; blank text gives 400; otherwise the answer or a 500 "Prediction error" from inference on the features |
| `Service.PredictFile` | ml_api/app.py:97-132 | not loaded gives 500 first; a 400 happens iff the content is empty or over 2 MiB, with the matching message; the filename is echoed; a failing byte featuriser or inference becomes 500 "File analysis failed", and otherwise the answer is inference on the byte features |
| `Service.InferWithFittedEncoder` | ml_api/app.py:83-89 | with the fitted encoder and an 8-entry row, inference returns the label at the first maximum with that probability |
| `Service.TextPredictionLabel` | ml_api/app.py:75-89 | a loaded service answers non-blank text with the sorted label at the first maximum and its probability |
| `Service.FilePredictionLabel` | ml_api/app.py:106-124 | an upload of 1 to 2,097,152 bytes, both ends included, reaches the classifier and gets the label at the first maximum |
| `Service.BlankTextIgnoresClassifier` | ml_api/app.py:75-77 | blank text gets 400 whatever the classifier is: it is never consulted |
| `Service.Health` | ml_api/app.py:137-143 | "healthy" iff model and encoder are both loaded, else "unhealthy"; the two flags mirror what loaded |

## Left out

- CORS configuration (ml_api/app.py:21-36): environment-driven middleware set-up, with no logic of its own.
- Start-up I/O: `joblib.load` and the console messages. `Load` takes the loaded artifact, or `None` when loading raised.
- `Features.FeaturizeText`: the `1e-9` added to the denominators is not modelled. Fractions are exact `count / length` over the reals, so a fraction that the source computes as just under 1 is exactly 1 here.
- Floating point in general: features and probabilities are reals. Rounding, NaN and infinities are not modelled.
- `math.log2` is a parameter. Only `log2(1) == 0` and `log2 <= 0` on (0, 1] are assumed, so `Entropy.ShannonEntropy` states non-negativity and no numeric value.
- `Features.HexWithinAlphanumeric`: holds only for exact fractions. The source divides letters and digits by `length + 1e-9` but the hex count by exactly `len(s)`, so on `"a"` it computes hex 1.0 and letters + digits just under 1. The count-level `Features.HexCountWithinAlphanumeric` holds in the source as well.
- `Features.AsciiAlphanumericSplit`: holds only for exact fractions. In the source the sum is `n / (n + 1e-9)`, just under 1.
- `str.isalpha` and `str.isdigit` are Unicode-aware parameters. They are pinned down on ASCII only, which is where the hex and partition lemmas need them.
- `featurize_bytes` is not part of this model. Its definition is not in `ml_api/utils.py`, so it is an opaque parameter of `PredictFile` that returns a feature row or an error.
- The classifier (`predict_proba` on a one-row `DataFrame`) is an opaque function returning a probability row or an error. Its internals and the row's origin in a matrix are not modelled.
- `Service.Infer`: the text of exceptions raised inside the libraries is abbreviated. Only the prefix the handler adds ("Prediction error: ", "File analysis failed: ") is exact.
- `Service.Health`: `health` tests the truthiness of the model and encoder objects. The model takes the loaded object to be truthy, so "healthy" means both are present.
- Reading the upload (`await file.read()`) is not modelled. The content is a parameter, and a failing read is not modelled.
- A top-3 ranking is not modelled, because `app.py` returns no ranking.
- `Entropy.Distinct` walks `set(s)` in last-occurrence order. Python's set order differs but does not change the sum.
