/**
 * The prediction request: validate and tokenise the raw symptom string,
 * encode it, classify the vector, name the disease through the label table,
 * and aggregate the recommendation. The classifier is an opaque, pure
 * function from feature vector to class id, passed in by the caller.
 */
module Prediction {
  import opened Common
  import opened PyText
  import opened FeatureEncoder
  import opened Knowledge

  /** The text of the unfilled symptoms field, which is rejected like an empty one. */
  const Placeholder: string := "Symptoms"

  /** The message shown instead of a prediction when the input is rejected. */
  const InvalidSymptomsMessage: string := "Please provide valid symptoms."

  /** The trained classifier: a pure function from feature vector to class id. */
  type Classifier = seq<int> -> int

  /** What the request handler renders: the rejection message, or a diagnosis. */
  datatype Response =
    | Rejected(message: string)
    | Diagnosis(disease: string, record: Record)

  /**
   * `[s.strip() for s in symptoms.split(',')]`: one token per comma-separated
   * piece (one more than there are commas), each piece with its surrounding
   * whitespace removed, so no token holds a comma or starts or ends with
   * whitespace.
   */
  function Tokens(raw: string): (r: seq<string>)
    ensures |r| == Count(raw, ',') + 1
    ensures forall k :: 0 <= k < |r| ==> r[k] == Strip(Split(raw, ',')[k])
    ensures forall k :: 0 <= k < |r| ==> ',' !in r[k]
    ensures forall k :: 0 <= k < |r| ==> r[k] == [] || (!IsSpace(r[k][0]) && !IsSpace(r[k][|r[k]| - 1]))
  {
    var pieces := Split(raw, ',');
    seq(|pieces|, k requires 0 <= k < |pieces| => Strip(pieces[k]))
  }

  /**
   * The guard of the request handler: the input is rejected exactly when it
   * is the placeholder text or holds nothing but whitespace (the empty
   * string included); otherwise it is tokenised.
   */
  function ParseSymptoms(raw: string): (r: Option<seq<string>>)
    ensures r.None? <==> (raw == Placeholder || AllSpace(raw))
    ensures r.Some? ==> r.value == Tokens(raw)
  {
    StripEmptyIff(raw);
    if raw == Placeholder || Strip(raw) == [] then None else Some(Tokens(raw))
  }

  /**
   * `diseases_list[class_id]`: the disease named by the class id, and a
   * failure, not a default name, when the label table lacks the id.
   */
  function DiseaseName(labels: map<int, string>, classId: int): (r: Result<string, Fault>)
    ensures r.Ok? <==> classId in labels
    ensures r.Ok? ==> r.value == labels[classId]
    ensures r.Err? ==> r.error == UnknownClassId(classId)
  {
    if classId in labels then Ok(labels[classId]) else Err(UnknownClassId(classId))
  }

  /**
   * `get_predicted_value`: encode the tokens, classify the vector, and name
   * the class through the label table.
   */
  method GetPredictedValue(tokens: seq<string>, index: map<string, nat>, labels: map<int, string>, classify: Classifier)
    returns (r: Result<string, Fault>)
    requires WellFormed(index)
    ensures r.Ok? <==> classify(FeatureVector(tokens, index)) in labels
    ensures r.Ok? ==> r.value == labels[classify(FeatureVector(tokens, index))]
    ensures r.Err? ==> r.error == UnknownClassId(classify(FeatureVector(tokens, index)))
  {
    var v := Encode(tokens, index);
    r := DiseaseName(labels, classify(v));
  }

  /**
   * Everything after encoding: classify, name the disease, aggregate its
   * record. It fails exactly when the class id has no label or the disease
   * has no precautions row, and reports the label failure first.
   */
  function Diagnose(v: seq<int>, labels: map<int, string>, classify: Classifier, kb: KnowledgeBase)
    : (r: Result<Response, Fault>)
    ensures classify(v) !in labels ==> r == Err(UnknownClassId(classify(v)))
    ensures classify(v) in labels && NoMatch(kb.precautions, labels[classify(v)]) ==>
      r == Err(NoPrecautionsRow(labels[classify(v)]))
    ensures classify(v) in labels && !NoMatch(kb.precautions, labels[classify(v)]) ==>
      r.Ok? && r.value.Diagnosis? && r.value.disease == labels[classify(v)] &&
      Ok(r.value.record) == Aggregate(kb, labels[classify(v)])
  {
    match DiseaseName(labels, classify(v))
    case Err(f) => Err(f)
    case Ok(disease) =>
      match Aggregate(kb, disease)
      case Err(f) => Err(f)
      case Ok(rec) => Ok(Diagnosis(disease, rec))
  }

  /**
   * The response the request handler produces for a raw symptom string: the
   * rejection message for the placeholder and for blank input, and otherwise
   * the diagnosis of the encoded tokens.
   */
  function Respond(raw: string, index: map<string, nat>, labels: map<int, string>, classify: Classifier, kb: KnowledgeBase)
    : (r: Result<Response, Fault>)
    requires WellFormed(index)
    ensures r == Ok(Rejected(InvalidSymptomsMessage)) <==> (raw == Placeholder || AllSpace(raw))
    ensures !(raw == Placeholder || AllSpace(raw)) ==>
      r == Diagnose(FeatureVector(Tokens(raw), index), labels, classify, kb)
  {
    match ParseSymptoms(raw)
    case None => Ok(Rejected(InvalidSymptomsMessage))
    case Some(tokens) => Diagnose(FeatureVector(tokens, index), labels, classify, kb)
  }

  /**
   * The prediction branch of the request handler, running the encoder loop.
   * The rejection message comes back exactly for the placeholder and for
   * blank input.
   */
  method Home(raw: string, index: map<string, nat>, labels: map<int, string>, classify: Classifier, kb: KnowledgeBase)
    returns (r: Result<Response, Fault>)
    requires WellFormed(index)
    ensures r == Respond(raw, index, labels, classify, kb)
    ensures r == Ok(Rejected(InvalidSymptomsMessage)) <==> (raw == Placeholder || AllSpace(raw))
  {
    match ParseSymptoms(raw)
    case None =>
      r := Ok(Rejected(InvalidSymptomsMessage));
    case Some(tokens) =>
      var name := GetPredictedValue(tokens, index, labels, classify);
      match name
      case Err(f) =>
        r := Err(f);
      case Ok(disease) =>
        match Aggregate(kb, disease)
        case Err(f) =>
          r := Err(f);
        case Ok(rec) =>
          r := Ok(Diagnosis(disease, rec));
  }

  /**
   * The response depends only on which known symptoms the input names: the
   * order of the tokens, repeats, spacing around commas and unknown tokens
   * do not change it.
   */
  lemma SameSymptomsSameResponse(raw1: string, raw2: string, index: map<string, nat>, labels: map<int, string>,
                                 classify: Classifier, kb: KnowledgeBase)
    requires WellFormed(index)
    requires ParseSymptoms(raw1).Some? && ParseSymptoms(raw2).Some?
    requires forall t :: t in index ==> (t in Tokens(raw1) <==> t in Tokens(raw2))
    ensures Respond(raw1, index, labels, classify, kb) == Respond(raw2, index, labels, classify, kb)
  {
    SameRecognisedSameVector(Tokens(raw1), Tokens(raw2), index);
  }

  /**
   * An accepted input that names no known symptom is not an error: the
   * all-zero vector goes to the classifier like any other.
   */
  lemma NoKnownSymptomStillClassified(raw: string, index: map<string, nat>, labels: map<int, string>,
                                      classify: Classifier, kb: KnowledgeBase)
    requires WellFormed(index)
    requires ParseSymptoms(raw).Some?
    requires forall k :: 0 <= k < |Tokens(raw)| ==> Tokens(raw)[k] !in index
    ensures Respond(raw, index, labels, classify, kb) == Diagnose(seq(|index|, _ => 0), labels, classify, kb)
  {
    NoRecognisedIsZero(Tokens(raw), index);
  }

  /** After encoding, only the label lookup can fail with UnknownClassId. */
  lemma DiagnoseUnknownClass(v: seq<int>, labels: map<int, string>, classify: Classifier, kb: KnowledgeBase)
    ensures var r := Diagnose(v, labels, classify, kb);
      (r.Err? && r.error.UnknownClassId?) <==> classify(v) !in labels
  {
    var name := DiseaseName(labels, classify(v));
    if name.Ok? {
      var a := Aggregate(kb, name.value);
      assert a.Err? ==> a.error.NoPrecautionsRow?;
    }
  }

  /**
   * The label lookup fails exactly when an accepted input is classified
   * into an id the label table lacks.
   */
  lemma UnknownClassExactly(raw: string, index: map<string, nat>, labels: map<int, string>,
                            classify: Classifier, kb: KnowledgeBase)
    requires WellFormed(index)
    ensures var r := Respond(raw, index, labels, classify, kb);
      (r.Err? && r.error.UnknownClassId?) <==>
      (ParseSymptoms(raw).Some? && classify(FeatureVector(Tokens(raw), index)) !in labels)
  {
    var parsed := ParseSymptoms(raw);
    if parsed.Some? {
      DiagnoseUnknownClass(FeatureVector(parsed.value, index), labels, classify, kb);
    }
  }

  /**
   * When the label table covers the class of every binary vector of the
   * right length, the label lookup never fails, whatever the input.
   */
  lemma CoveredLabelsNeverFail(raw: string, index: map<string, nat>, labels: map<int, string>,
                               classify: Classifier, kb: KnowledgeBase)
    requires WellFormed(index)
    requires forall v :: |v| == |index| && Binary(v) ==> classify(v) in labels
    ensures var r := Respond(raw, index, labels, classify, kb);
      !(r.Err? && r.error.UnknownClassId?)
  {
    UnknownClassExactly(raw, index, labels, classify, kb);
    if ParseSymptoms(raw).Some? {
      var v := FeatureVector(Tokens(raw), index);
      assert |v| == |index| && Binary(v);
    }
  }

  /** The example request splits at its one comma. */
  lemma ExampleSplit()
    ensures Split("itching, skin_rash", ',') == ["itching", " skin_rash"]
  {
    var pieces := ["itching", " skin_rash"];
    assert Join(pieces, ',') == "itching, skin_rash" by {
      assert pieces[1..] == [" skin_rash"];
      assert "itching" + [','] + " skin_rash" == "itching, skin_rash";
    }
    SplitJoin(pieces, ',');
  }

  /** The example's first piece has no blank to strip. */
  lemma ExampleStripFirst()
    ensures Strip("itching") == "itching"
  {
    var p := "itching";
    assert p[..0] == [] && p[|p|..] == [];
    StripUnique(p, 0, |p|);
    assert p[0..|p|] == p;
  }

  /** Stripping the example's second piece removes the blank after the comma. */
  lemma ExampleStripSecond()
    ensures Strip(" skin_rash") == "skin_rash"
  {
    var p := " skin_rash";
    assert p[..1] == [' '] && p[|p|..] == [];
    StripUnique(p, 1, |p|);
    assert p[1..|p|] == "skin_rash";
  }

  /** The example request is not blank. */
  lemma ExampleNotBlank()
    ensures !AllSpace("itching, skin_rash")
  {
    assert !IsSpace("itching, skin_rash"[0]);
  }

  /** An accepted input with one comma yields its two stripped pieces. */
  lemma TwoPieces(raw: string, p: string, q: string)
    requires raw != Placeholder && !AllSpace(raw)
    requires Split(raw, ',') == [p, q]
    ensures ParseSymptoms(raw) == Some([Strip(p), Strip(q)])
  {
    var tokens := Tokens(raw);
    assert |tokens| == 2 && tokens[0] == Strip(p) && tokens[1] == Strip(q);
    assert tokens == [Strip(p), Strip(q)];
  }

  /** The example request "itching, skin_rash" is accepted and yields the two trimmed tokens. */
  lemma ExampleTokens()
    ensures ParseSymptoms("itching, skin_rash") == Some(["itching", "skin_rash"])
  {
    ExampleSplit();
    ExampleStripFirst();
    ExampleStripSecond();
    ExampleNotBlank();
    TwoPieces("itching, skin_rash", "itching", " skin_rash");
  }

  /** Two recognised tokens set their two positions of the zero vector. */
  lemma TwoTokensVector(a: string, b: string, index: map<string, nat>)
    requires WellFormed(index) && a in index && b in index
    ensures FeatureVector([a, b], index) == seq(|index|, _ => 0)[index[a] := 1][index[b] := 1]
  {
    assert [a, b][..1] == [a] && [a][..0] == [];
    assert FeatureVector([], index) == seq(|index|, _ => 0);
    assert FeatureVector([a], index) == FeatureVector([], index)[index[a] := 1];
    assert FeatureVector([a, b], index) == FeatureVector([a], index)[index[b] := 1];
  }

  /** A three-symptom index holding the example's two symptoms. */
  lemma ExampleIndex()
    ensures var index := map["itching" := 0, "skin_rash" := 1, "cough" := 2];
      |index| == 3 && WellFormed(index)
  {
    var index := map["itching" := 0, "skin_rash" := 1, "cough" := 2];
    assert index.Keys == {"itching", "skin_rash", "cough"};
    assert |{"itching", "skin_rash", "cough"}| == 3;
  }

  /** Marking positions 0 and 1 of three. */
  lemma ExampleMarks()
    ensures seq(3, _ => 0)[0 := 1][1 := 1] == [1, 1, 0]
  {
    var v := seq(3, _ => 0)[0 := 1][1 := 1];
    assert v[0] == 1 && v[1] == 1 && v[2] == 0;
  }

  /**
   * The example scenario: with "itching" and "skin_rash" among the known
   * symptoms, the tokens of "itching, skin_rash" (ExampleTokens) set exactly
   * their two positions.
   */
  lemma ExampleVector()
    ensures var index := map["itching" := 0, "skin_rash" := 1, "cough" := 2];
      WellFormed(index) && FeatureVector(["itching", "skin_rash"], index) == [1, 1, 0]
  {
    var index := map["itching" := 0, "skin_rash" := 1, "cough" := 2];
    ExampleIndex();
    TwoTokensVector("itching", "skin_rash", index);
    ExampleMarks();
  }
}
