# Medilab symptom-to-recommendation pipeline, modelled in Dafny

Medilab is a Flask application. Its one piece of real logic turns a
comma-separated string of symptom names into a disease prediction and a
recommendation. The pipeline has four steps:

1. **Guard and tokeniser** (the `/predict` handler `home`). The raw form field
   is rejected with "Please provide valid symptoms." when it is the
   placeholder text `Symptoms` or holds only whitespace. Otherwise it is split
   at every comma and each piece is stripped.
2. **Feature encoder** (`get_predicted_value`). Its loop writes 1 into a zero
   vector with one position per known symptom, at the position of every
   recognised token. Unknown tokens are skipped.
3. **Label lookup**. The classifier's class id is mapped to a disease name
   through `diseases_list`. An id missing from that table fails.
4. **Recommendation aggregator** (`helper`). Five in-memory tables are each
   filtered by the disease name: a description (first match or a
   placeholder), the non-null precautions of the first matching precautions
   row, and
   every matching medication, diet and workout, in table order.

Modules:

- `Common`: `Option`, `Result` and `Fault`, the two runtime failures of the
  pipeline (unknown class id, missing precautions row).
- `PyText`: Python's `str.strip()` and `str.split(',')`. `Strip` removes the
  characters `str.isspace()` accepts. `Split` is characterised by its piece
  count, comma-free pieces and joining back, and `SplitJoin` shows that no
  other split satisfies these.
- `FeatureEncoder`: the symptom index (`map<string, nat>`), the spec function
  `FeatureVector`, and the in-place array loop `Encode`, proved equal to it.
- `Knowledge`: the tables as sequences of `Row(disease, value)`,
  the filter `Select`, and `DescriptionOf`, `PrecautionsOf`, `Aggregate`.
- `Prediction`: `ParseSymptoms`, `DiseaseName`, the method
  `GetPredictedValue`, the request method `Home`, and its spec function
  `Respond`.

The trained classifier is a parameter of type `seq<int> -> int`: a total,
pure function from feature vector to class id. The symptom index, the label
table and the five tables are parameters too. They are loaded from files
the model does not see.

Where the code and the system's stated design disagree, the model follows
the code:

- The design promises that a disease with no precautions row gets an empty
  precautions list. `helper` instead indexes the first row of an empty
  selection (`pre.values[0]`, line 125), which raises. So `PrecautionsOf` and
  `Aggregate` return `Err(NoPrecautionsRow(disease))`, and the whole request
  fails.

## Model

| member | source | states |
|---|---|---|
| PyText.TrimStart | Medilab/app2.py:147 | the result is a suffix of the input, everything removed is whitespace, and it does not start with whitespace |
| PyText.TrimEnd | Medilab/app2.py:147 | the result is a prefix of the input, everything removed is whitespace, and it does not end with whitespace |
| PyText.Strip | Medilab/app2.py:147-151 | `s.strip()` returns a contiguous piece of the input with only whitespace cut off on either side, and no whitespace at either of its ends; with StripUnique this is the only such piece |
| PyText.StripUnique | Medilab/app2.py:151 | any piece with only whitespace around it and none at its ends is exactly what `strip` returns, so `Strip` is Python's `strip` and nothing else |
| PyText.StripEmptyIff | Medilab/app2.py:147 | `s.strip()` is empty exactly when every character of `s` is whitespace, the empty string included |
| PyText.StripIdempotent | Medilab/app2.py:151 | stripping twice gives the same as stripping once |
| PyText.Split | Medilab/app2.py:151 | `split(',')` yields one more piece than there are commas, no piece holds a comma, and joining the pieces with commas gives the input back |
| PyText.SplitJoin | Medilab/app2.py:151 | splitting undoes joining comma-free pieces, so the split is the unique decomposition at the commas |
| FeatureEncoder.FeatureVector | Medilab/app2.py:137-140 | the vector has one entry per key of the symptom index, whatever the input, and every entry is 0 or 1 |
| FeatureEncoder.Encode | Medilab/app2.py:136-140 | the loop over a zeroed array, writing 1 at each recognised token's position, produces exactly FeatureVector of the tokens |
| FeatureEncoder.FeatureVectorAt | Medilab/app2.py:138-140 | entry i is 1 exactly when some input token is a symptom name mapped to i, and 0 otherwise |
| FeatureEncoder.SameRecognisedSameVector | Medilab/app2.py:138-140 | two inputs with the same recognised tokens encode alike, whatever the order, the repeats or the unknown tokens |
| FeatureEncoder.UnknownTokenIgnored | Medilab/app2.py:139 | inserting an unknown token anywhere leaves the vector unchanged |
| FeatureEncoder.NoRecognisedIsZero | Medilab/app2.py:137-139 | an empty or all-unknown token list encodes to the all-zero vector, without failing |
| FeatureEncoder.OnesCountDistinct | Medilab/app2.py:138-140 | with distinct positions for distinct symptoms, the vector holds as many 1 entries as the input holds distinct recognised tokens |
| Knowledge.Select | Medilab/app2.py:116-128 | the boolean-mask filter of a table by disease name: never longer than the table, and every value it yields comes from a row pairing the disease with it; SelectMember, SelectConcat and SelectFirst give the converse, the table order and the first match |
| Knowledge.SelectConcat | Medilab/app2.py:126-128 | filtering a table split in two gives the filter of each part, concatenated: matches come in table order |
| Knowledge.SelectMember | Medilab/app2.py:126-128 | a value is collected exactly when some row of the table pairs the disease with it |
| Knowledge.SelectCollects | Medilab/app2.py:126-128 | the filter holds every value the table pairs with the disease, and only those |
| Knowledge.SelectFirst | Medilab/app2.py:116-118 | the filter is empty exactly when no row matches, and otherwise its first value comes from the first matching row |
| Knowledge.DropNulls | Medilab/app2.py:125 | dropping nulls keeps exactly the present cells' values and never lengthens the list |
| Knowledge.DropNullsConcat | Medilab/app2.py:125 | dropping nulls keeps the remaining cells in column order |
| Knowledge.DescriptionOf | Medilab/app2.py:116-121 | the description of the first row for the disease, or "No description available" when no row matches |
| Knowledge.PrecautionsOf | Medilab/app2.py:124-125 | the non-null Precaution_1..4 values of the first matching row, at most four; fails with NoPrecautionsRow exactly when no row matches |
| Knowledge.Aggregate | Medilab/app2.py:115-129 | fails only when the precautions table lacks the disease; otherwise the description and precautions are as above, and each of medications, diets and workouts is the filter of its own table, one value per matching row in table order, holding exactly that table's matches and empty exactly when that table has none |
| Prediction.Tokens | Medilab/app2.py:151 | one token per comma-separated piece (commas + 1), each the stripped piece, holding no comma and no whitespace at either end |
| Prediction.ParseSymptoms | Medilab/app2.py:147-151 | the input is rejected exactly when it equals "Symptoms" or is all whitespace, and otherwise tokenised |
| Prediction.DiseaseName | Medilab/app2.py:141 | the lookup succeeds exactly when the class id is a key of the label table, and otherwise fails with UnknownClassId rather than defaulting |
| Prediction.GetPredictedValue | Medilab/app2.py:136-141 | succeeds exactly when the classifier's id for the encoded tokens is in the label table, and then returns that id's disease name |
| Prediction.Diagnose | Medilab/app2.py:141-153 | after encoding: fails with UnknownClassId when the class id has no label, otherwise with NoPrecautionsRow when the named disease has no precautions row, and otherwise returns that disease with its aggregated record |
| Prediction.Respond | Medilab/app2.py:146-153 | the request's response: the rejection message exactly for "Symptoms" and blank input, and otherwise the diagnosis of the encoded tokens |
| Prediction.Home | Medilab/app2.py:146-153 | the request's response equals Respond; the rejection message comes back exactly for "Symptoms" and for blank input |
| Prediction.SameSymptomsSameResponse | Medilab/app2.py:151-152 | two accepted inputs whose tokens name the same known symptoms get the same response, whatever the order, repeats and unknown tokens |
| Prediction.NoKnownSymptomStillClassified | Medilab/app2.py:137-141 | an accepted input with no known symptom is classified from the all-zero vector rather than refused |
| Prediction.DiagnoseUnknownClass | Medilab/app2.py:141 | after encoding, the pipeline fails with UnknownClassId exactly when the classifier's id is missing from the label table; the aggregator never produces that failure |
| Prediction.UnknownClassExactly | Medilab/app2.py:141 | the response is an UnknownClassId failure exactly when an accepted input's class id is missing from the label table |
| Prediction.CoveredLabelsNeverFail | Medilab/app2.py:141 | a label table covering the class of every binary vector of the right length rules out the UnknownClassId failure for every input |
| Prediction.ExampleTokens | Medilab/app2.py:147-151 | "itching, skin_rash" is accepted and gives the tokens "itching" and "skin_rash" |
| Prediction.ExampleVector | Medilab/app2.py:137-140 | with a three-symptom index, those two tokens encode to [1, 1, 0] |

## Left out

- Flask routing, the login gate, `render_template`, `flash` and `redirect`: HTTP and presentation plumbing. `Home` returns a `Response` value instead of a rendered page.
- The `User` and `Patient` SQLAlchemy models, registration, login and patient intake: database I/O with no logic of the pipeline.
- Loading the six CSV files with pandas and unpickling the classifier: file I/O done once at start-up. The tables, the indices and the classifier are parameters.
- The classifier's algorithm and its floating-point numerics: it is an opaque, pure function from vector to class id. The batch of one (`svc.predict([v])[0]`) is collapsed into one call.
- numpy's float vector: the encoded vector is a sequence of the integers 0 and 1.
- The contents of `symptoms_dict` and `diseases_list`, which the repository leaves elided. The symptom index is any map whose positions lie below its size (`WellFormed`). The label table is any map from int to string.
- A missing form field (`request.form.get` returning `None`): the raw input is always a string.
- Null cells in the description, medication, diet and workout columns: these values are strings. Only the four precaution columns carry nulls.
- The format of a medication cell: each medication value is one opaque string, handed on as the table holds it.
