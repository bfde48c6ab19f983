/**
  The request handlers of ml_api/app.py. The module-level `model` and
  `label_encoder` are set once at start-up and only read afterwards, so they
  are an immutable `Engine` value handed to each handler. The trained
  classifier and the byte featuriser are parameters: their behaviour is not
  part of this model.
 */
module Service {

  import opened Wrappers
  import opened PyStr
  import opened Features
  import opened Labels

  newtype byte = x: int | 0 <= x < 256

  /** `model.predict_proba` on one feature row: the row of class
      probabilities, or the message of the exception it raised. */
  type Classifier = seq<real> -> Result<seq<real>, string>

  datatype Engine = Engine(model: Option<Classifier>, encoder: Option<LabelEncoder>)

  /** What a handler sends back: a JSON body or an `HTTPException`. */
  datatype Reply =
    | Predicted(algorithm: string, confidence: real)
    | FilePredicted(filename: string, algorithm: string, confidence: real)
    | Failed(status: int, detail: string)

  const MaxFileSize: nat := 2 * 1024 * 1024

  /** The start-up block: `artifact` is what `joblib.load` produced, or `None`
      when it raised. On success the encoder is fitted on the label list; on
      failure both globals are `None`. */
  function Load(artifact: Option<Classifier>): (e: Engine)
    ensures e.model == artifact
    ensures e.encoder.Some? <==> artifact.Some?
    ensures e.encoder.Some? ==> e.encoder.value.classes == SortedLabels
  {
    FitAlgorithms();
    match artifact
    case None => Engine(None, None)
    case Some(m) => Engine(Some(m), Some(LabelEncoder(Fit(Algorithms))))
  }

  predicate Loaded(e: Engine) {
    e.model.Some? && e.encoder.Some?
  }

  /** `np.argmax`: the first index holding the largest value. */
  function ArgMax(xs: seq<real>): (i: nat)
    requires xs != []
    ensures i < |xs|
    ensures forall j | 0 <= j < |xs| :: xs[j] <= xs[i]
    ensures forall j | 0 <= j < i :: xs[j] < xs[i]
  {
    if |xs| == 1 then 0
    else
      var k := ArgMax(xs[1..]);
      assert forall j | 1 <= j < |xs| :: xs[j] == xs[1..][j - 1];
      if xs[0] >= xs[1..][k] then 0 else k + 1
  }

  /** `np.max`. */
  function Max(xs: seq<real>): (m: real)
    requires xs != []
    ensures m in xs
    ensures forall j | 0 <= j < |xs| :: xs[j] <= m
  {
    if |xs| == 1 then xs[0]
    else
      var m' := Max(xs[1..]);
      assert forall j | 1 <= j < |xs| :: xs[j] == xs[1..][j - 1];
      if xs[0] >= m' then xs[0] else m'
  }

  /** The confidence reported is the probability of the predicted class. */
  lemma MaxAtArgMax(xs: seq<real>)
    requires xs != []
    ensures Max(xs) == xs[ArgMax(xs)]
  {
  }

  /** The shared tail of both handlers: classify, pick the first most likely
      class, decode its label. Every failure is an exception message. */
  function Infer(model: Classifier, enc: LabelEncoder, features: seq<real>): (r: Result<(string, real), string>)
    ensures model(features).Err? ==> r == Err(model(features).error)
    ensures model(features).Ok? && model(features).value != [] && r.Ok? ==>
      var probs := model(features).value;
      ArgMax(probs) < |enc.classes| && r.value == (enc.classes[ArgMax(probs)], Max(probs))
    ensures r.Ok? <==> model(features).Ok? && model(features).value != [] &&
                       ArgMax(model(features).value) < |enc.classes|
  {
    match model(features)
    case Err(msg) => Err(msg)
    case Ok(probs) =>
      if probs == [] then Err("attempt to get argmax of an empty sequence")
      else
        match InverseTransform(enc, ArgMax(probs))
        case Err(msg) => Err(msg)
        case Ok(name) => Ok((name, Max(probs)))
  }

  /** `POST /predict`. */
  function Predict(pf: Platform, e: Engine, text: string): (r: Reply)
    ensures !r.FilePredicted?
    ensures !Loaded(e) ==> r == Failed(500, "Model not loaded")
    ensures Loaded(e) && Strip(text) == [] ==> r == Failed(400, "Ciphertext input is required")
    ensures r.Failed? ==> r.status == 400 || r.status == 500
    ensures Loaded(e) && Strip(text) != [] ==>
      var i := Infer(e.model.value, e.encoder.value, FeaturizeText(pf, text).Row());
      (i.Ok? ==> r == Predicted(i.value.0, i.value.1)) &&
      (i.Err? ==> r == Failed(500, "Prediction error: " + i.error))
  {
    FeaturesOfStrip(pf, text);
    if !Loaded(e) then Failed(500, "Model not loaded")
    else
      var t := Strip(text);
      if t == [] then Failed(400, "Ciphertext input is required")
      else
        match Infer(e.model.value, e.encoder.value, FeaturizeText(pf, t).Row())
        case Err(msg) => Failed(500, "Prediction error: " + msg)
        case Ok((name, conf)) => Predicted(name, conf)
  }

  /** `featurize_bytes` on the uploaded content: the feature row, or the
      message of the exception it raised. Its definition is not part of this
      model. */
  type ByteFeaturizer = seq<byte> -> Result<seq<real>, string>

  /** `POST /predict-file`. */
  function PredictFile(e: Engine, featurizeBytes: ByteFeaturizer,
                       filename: string, content: seq<byte>): (r: Reply)
    ensures !r.Predicted?
    ensures !Loaded(e) ==> r == Failed(500, "Model not loaded")
    ensures r.Failed? && r.status == 400 <==>
      Loaded(e) && (content == [] || |content| > MaxFileSize)
    ensures Loaded(e) && content == [] ==> r == Failed(400, "Uploaded file is empty")
    ensures Loaded(e) && |content| > MaxFileSize ==> r == Failed(400, "File too large (max 2MB)")
    ensures r.Failed? ==> r.status == 400 || r.status == 500
    ensures r.FilePredicted? ==> r.filename == filename
    ensures Loaded(e) && 0 < |content| <= MaxFileSize && featurizeBytes(content).Err? ==>
      r == Failed(500, "File analysis failed: " + featurizeBytes(content).error)
    ensures Loaded(e) && 0 < |content| <= MaxFileSize && featurizeBytes(content).Ok? ==>
      var i := Infer(e.model.value, e.encoder.value, featurizeBytes(content).value);
      (i.Ok? ==> r == FilePredicted(filename, i.value.0, i.value.1)) &&
      (i.Err? ==> r == Failed(500, "File analysis failed: " + i.error))
  {
    if !Loaded(e) then Failed(500, "Model not loaded")
    else if content == [] then Failed(400, "Uploaded file is empty")
    else if |content| > MaxFileSize then Failed(400, "File too large (max 2MB)")
    else
      match featurizeBytes(content)
      case Err(msg) => Failed(500, "File analysis failed: " + msg)
      case Ok(features) =>
        match Infer(e.model.value, e.encoder.value, features)
        case Err(msg) => Failed(500, "File analysis failed: " + msg)
        case Ok((name, conf)) => FilePredicted(filename, name, conf)
  }

  /** With the encoder fitted at start-up and a classifier that returns one
      probability per label, inference always succeeds: it names the label
      of the first most likely class, with that class's probability as the
      confidence. */
  lemma InferWithFittedEncoder(m: Classifier, features: seq<real>)
    requires m(features).Ok? && |m(features).value| == |SortedLabels|
    ensures var probs := m(features).value;
            var i := ArgMax(probs);
            Infer(m, LabelEncoder(SortedLabels), features) == Ok((SortedLabels[i], probs[i])) &&
            (forall j | 0 <= j < |probs| :: probs[j] <= probs[i]) &&
            (forall j | 0 <= j < i :: probs[j] < probs[i])
  {
    MaxAtArgMax(m(features).value);
  }

  /** A non-blank text reaching a loaded service is answered with the label
      and probability `InferWithFittedEncoder` describes. */
  lemma TextPredictionLabel(pf: Platform, m: Classifier, text: string)
    requires Strip(text) != []
    requires m(FeaturizeText(pf, Strip(text)).Row()).Ok?
    requires |m(FeaturizeText(pf, Strip(text)).Row()).value| == |SortedLabels|
    ensures var probs := m(FeaturizeText(pf, Strip(text)).Row()).value;
            var i := ArgMax(probs);
            Predict(pf, Load(Some(m)), text) == Predicted(SortedLabels[i], probs[i])
  {
    InferWithFittedEncoder(m, FeaturizeText(pf, Strip(text)).Row());
  }

  /** The file endpoint's counterpart: every upload between one byte and the
      2 MiB limit, both ends included, reaches the classifier. */
  lemma FilePredictionLabel(m: Classifier, featurizeBytes: ByteFeaturizer,
                            filename: string, content: seq<byte>)
    requires 0 < |content| <= MaxFileSize
    requires featurizeBytes(content).Ok?
    requires m(featurizeBytes(content).value).Ok?
    requires |m(featurizeBytes(content).value).value| == |SortedLabels|
    ensures var probs := m(featurizeBytes(content).value).value;
            var i := ArgMax(probs);
            PredictFile(Load(Some(m)), featurizeBytes, filename, content)
              == FilePredicted(filename, SortedLabels[i], probs[i])
  {
    InferWithFittedEncoder(m, featurizeBytes(content).value);
  }

  /** A text that strips to nothing is answered the same whatever the
      classifier would have said: it is never consulted. */
  lemma BlankTextIgnoresClassifier(pf: Platform, m1: Classifier, m2: Classifier, text: string)
    requires Strip(text) == []
    ensures Predict(pf, Load(Some(m1)), text) == Predict(pf, Load(Some(m2)), text)
                                              == Failed(400, "Ciphertext input is required")
  {
  }

  datatype HealthReport = HealthReport(status: string, modelLoaded: bool, encoderLoaded: bool)

  /** `GET /health`. */
  function Health(e: Engine): (h: HealthReport)
    ensures h.status == "healthy" <==> Loaded(e)
    ensures h.status != "healthy" ==> h.status == "unhealthy"
    ensures h.modelLoaded == e.model.Some? && h.encoderLoaded == e.encoder.Some?
  {
    HealthReport(if Loaded(e) then "healthy" else "unhealthy",
                 e.model.Some?, e.encoder.Some?)
  }
}
