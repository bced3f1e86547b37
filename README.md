# Crop recommendation service: the top-crop predictor and the `/predict` endpoint

The service suggests crops for a soil sample of seven measurements
(nitrogen, phosphorus, potassium, temperature, humidity, pH, rainfall).
At start-up it trains a distance-weighted k-nearest-neighbours classifier.
Each request then runs two pieces of plain logic, and this project models
and proves both:

* **`top_crops`** (`server/model.py`). The classifier gives a row of
  probabilities, one per class code. The predictor ranks the class codes by
  falling probability and keeps the first four. It decodes each code to its
  crop name and puts each crop with a positive probability into a dict.
  The dict keeps insertion order.
* **`predict`** (`server/main.py`). This checks the request's `sample`
  field: it must be a list of at least seven values, and the first seven
  are converted to numbers. A bad sample gets a 400 answer. The endpoint
  then calls `top_crops`; any exception there becomes a 500 answer with the
  exception's message. When `lang` starts with `es` (case-insensitive), the
  endpoint renames each crop through a fixed English-to-Spanish table into a
  new dict.

Files:

* `wrappers.dfy`: `Option` and `Result`.
* `py_dict.dfy` (module `PyDict`): a Python `dict` as the sequence of its
  entries in insertion order. `Insert` is `d[k] = v`. `FromPairs` is the
  dict you get by assigning a sequence of pairs one after another.
* `crop_model.dfy`: module `CropModel` covers `top_crops`. Module `Argsort`
  holds one sort that meets the ranking contract, which shows the contract
  can be met.
* `predict_api.dfy` (module `PredictApi`): the endpoint.

The trained artifacts come from library calls, so they are inputs. A
`Trained` value holds:

* the label encoder's class names;
* `proba`, which stands for scaling followed by `predict_proba`;
* `argsortDesc`, which stands for `np.argsort(p)[::-1]`.

`Valid` states what the model assumes about them:

* the crop names are distinct;
* `proba` gives one row per sample, with one probability in [0, 1] per class;
* a batch holding Python `None` makes `proba` raise;
* `argsortDesc` returns a permutation of the class indices in non-increasing
  order of probability.

The model does not fix how the sort orders equal probabilities.
`TieOrderIrrelevant` proves that this order never changes how many crops are
reported or their probabilities. When no positive probability equals
another class's, it does not change the result at all. Ties among zero
probabilities do not matter, since those classes are never reported.

Two points about the code that the model follows:

* `server/main.py` accepts only a `sample` list; there is no named-field
  mode. A request without `sample` goes on with `sample = None`, and the
  predictor then fails with a 500.
* `np.argsort` defaults to an unstable sort, so the model allows any order
  among ties.

## Model

| member | source | states |
|---|---|---|
| `PyDict.Insert` | server/model.py:51 | `d[k] = v`: a key already present keeps its position and takes the new value; a new key is appended |
| `PyDict.InsertKeepsDict` | server/main.py:90 | after an assignment the keys are still distinct, `k` is present, no key is lost, and every entry is an old one or `(k, v)` |
| `PyDict.FromPairs` | server/main.py:86-90 | a dict built by successive assignments has distinct keys, no more entries than pairs, only entries taken from the pairs, and every key of the pairs |
| `PyDict.FromDistinctPairs` | server/model.py:47-51 | when the keys being assigned are distinct, nothing is overwritten: the dict is exactly the pairs in order |
| `PyDict.FromPairsSnoc` | server/model.py:49-51 | one more loop step, `d[k] = v`, extends the dict built so far |
| `CropModel.Valid` | server/model.py:40-44 | definition, no contract: what the model assumes of the library calls — distinct crop names, one probability row per sample with values in [0, 1], `None` in a batch makes `predict_proba` raise, and the argsort gives a permutation by non-increasing probability |
| `CropModel.PositiveEntries` | server/model.py:49-51 | definition, no contract: the entries of the given classes in order, keeping those whose probability is positive |
| `CropModel.TopSelection` | server/model.py:42-51 | definition, no contract: the positive entries among the first four ranked classes; its properties are `TopSelectionIsTop`, `TopSelectionInUnitInterval` and `TieOrderIrrelevant` |
| `CropModel.PositiveEntriesOfSplit` | server/model.py:49-51 | when the positive classes of an index list are exactly its first `k`, the filter keeps exactly their entries |
| `CropModel.PositivesLeadRanking` | server/model.py:43 | in a descending ranking the positive classes come first, and there are as many as the row has positive probabilities |
| `CropModel.PositivesArePrefix` | server/model.py:43 | when the first `q` ranked classes are positive and the rest are not, the positive classes are exactly those `q` |
| `CropModel.TopSelectionIsRankPrefix` | server/model.py:42-51 | the result is the (crop, probability) pairs of the first min(4, number of positive classes) ranked classes |
| `CropModel.RankPrefixDistinct` | server/model.py:44 | distinct class codes decode to distinct crop names, so no result key is overwritten |
| `CropModel.RankPrefixDominates` | server/model.py:43 | a crop outside the kept prefix has no higher probability than any crop kept |
| `CropModel.RankPrefixMembers` | server/model.py:44-51 | each kept entry is some class's crop name paired with that class's own probability |
| `CropModel.RankPrefixIsTop` | server/model.py:42-51 | the entries of the first min(4, number of positive classes) ranked classes form a best-four selection |
| `CropModel.TopSelectionIsTop` | server/model.py:42-53 | for any admissible ranking the result has min(4, number of positive classes) entries, all positive, non-increasing, distinct; each is a class's name with that class's own probability; no left-out class has a higher probability than a kept one |
| `CropModel.TopSelectionInUnitInterval` | server/model.py:41-51 | every reported probability lies in (0, 1] |
| `CropModel.SingleClassMass` | server/model.py:49-51 | when only one class has positive probability, the result is exactly that crop with its probability |
| `CropModel.RankedValueNotGreater` | server/model.py:43 | the i-th probability of one descending ranking is at most the i-th of any other |
| `CropModel.SubsetCard` | server/model.py:43 | proof helper for `TieOrderIrrelevant`, not a model of the line: a subset of a set of class codes has no more elements |
| `CropModel.TieOrderIrrelevant` | server/model.py:43 | any two admissible rankings give results of equal size and equal probability sequence, and equal results when no positive probability ties with another class |
| `CropModel.SelectTop` | server/model.py:42-53 | the slice, decode and insertion loop returns the positive entries among the first four ranked classes, and that result is a best-four selection |
| `CropModel.SelectStep` | server/model.py:47-51 | one pass of the loop assigns the next class's entry when its probability is positive and leaves the dict unchanged otherwise |
| `CropModel.SelectDone` | server/model.py:42-53 | once every sliced index is processed, the dict built is the top selection |
| `CropModel.TopCrops` | server/model.py:39-53 | only the first sample's probability row is used; a library exception is passed on as a failure; a success is a best-four selection with probabilities in (0, 1] |
| `Argsort.InsertByProb` | server/model.py:43 | part of the witness that `Valid`'s ranking assumption can be met, not a model of `np.argsort`: inserting a class into a ranked list adds one element and keeps all the others |
| `Argsort.InsertByProbKeepsOrder` | server/model.py:43 | part of the satisfiability witness: inserting a class keeps the list in non-increasing probability order |
| `Argsort.InsertByProbNoDuplicates` | server/model.py:43 | part of the satisfiability witness: inserting a class that is not yet in the list keeps it free of repetitions |
| `Argsort.SortByProb` | server/model.py:43 | part of the satisfiability witness (an insertion sort, not NumPy's algorithm): sorting indices keeps their number and their elements, adds no repetitions, and orders them by non-increasing probability |
| `Argsort.ArgsortDescending` | server/model.py:43 | satisfiability witness for the assumption on `np.argsort(p)[::-1]`: the sorted class indices are a descending ranking, as `np.argsort(p)[::-1]` is required to be |
| `Argsort.ValidContextExists` | server/model.py:12-13 | satisfiability witness for `Valid`, not a model of the training code: any list of distinct crop names can be completed into a trained context that meets `Valid` |
| `PredictApi.ConvertAll` | server/main.py:50 | the conversion succeeds exactly when every element converts, and the result holds each element's number in order |
| `PredictApi.ReadSample` | server/main.py:42-52 | no field leaves the sample `None`; a non-list or a list of fewer than 7 values fails with the "must be a list" detail; otherwise it succeeds exactly when the first 7 values convert, giving those 7 numbers, and fails with the "Unable to convert" detail when one does not |
| `PredictApi.OnlyFirstSevenInspected` | server/main.py:50 | two lists that agree on their first 7 values validate alike; later elements are never looked at |
| `PredictApi.Lower` | server/main.py:57 | definition, no contract: `str.lower()` on ASCII letters, character by character |
| `PredictApi.WantsSpanish` | server/main.py:57-59 | definition, no contract: the lower-cased `lang` (or "en") starts with "es" |
| `PredictApi.WantsSpanishChars` | server/main.py:57-59 | for every `lang`, Spanish is chosen exactly when the value (or "en" when absent) has at least two characters, the first `e` or `E` and the second `s` or `S` |
| `PredictApi.LanguageChoice` | server/main.py:57-59 | no `lang` means English; "ES" and "es-MX" choose Spanish; "en" and "e" do not |
| `PredictApi.EsMapInjective` | server/main.py:61-84 | no two English names in the table share a Spanish name |
| `PredictApi.EsName` | server/main.py:87-89 | definition, no contract: the table's Spanish name for the lower-cased key, or the key itself |
| `PredictApi.Renamed` | server/main.py:86-89 | definition, no contract: the result's entries in order, each crop replaced by `EsName` of it; `FromPairs` of it is the translated dict |
| `PredictApi.TranslationFacts` | server/main.py:86-90 | the renamed dict has no more entries than the result; each entry is a crop's Spanish name with that crop's probability; every crop's Spanish name is present; when names do not collide, it is the renamed result entry by entry |
| `PredictApi.TranslateStep` | server/main.py:87-90 | one pass of the renaming loop assigns the next crop's Spanish name with its probability |
| `PredictApi.TranslateToSpanish` | server/main.py:86-92 | the renaming loop builds the dict `FromPairs` describes, with the properties `TranslationFacts` proves |
| `PredictApi.KnownCropsTranslateOneToOne` | server/main.py:61-90 | crops whose lower-case names are distinct table keys are renamed one to one, keeping order and probabilities |
| `PredictApi.CaseVariantsMerge` | server/main.py:86-90 | "Rice" and "rice" both become "arroz"; the later probability wins, and only one entry is left |
| `PredictApi.TranslationKeepsBounds` | server/main.py:86-92 | renaming keeps at most 4 entries, makes the keys distinct, and keeps every probability in (0, 1] |
| `PredictApi.Presented` | server/main.py:59-94 | definition, no contract: the translated dict when the language asks for Spanish, the result unchanged otherwise |
| `PredictApi.PresentedFacts` | server/main.py:57-94 | with or without translation, an answer has at most 4 distinct crops with probabilities in (0, 1]; without translation it is the best-four selection itself |
| `PredictApi.Predict` | server/main.py:40-96 | a bad sample gives 400 with its detail, before any prediction; a failed prediction, including a missing sample (given to the predictor as `None`), gives 500 with the exception message; otherwise the answer is the top-crop result, renamed to Spanish when the language asks for it and unchanged otherwise; an untranslated answer is a best-four selection for the sample's own probability row |

## Left out

- Loading the CSV, fitting the label encoder, the train/test split, the scaler and the KNN classifier (server/model.py:9-37). These are library code over floating-point data. Their results enter the model as a `Trained` value.
- What `scaler.transform` and `knn.predict_proba` compute (server/model.py:40-41). In the model, `proba` is an input that either returns rows or fails. Its rows are only promised to have the right shape and values in [0, 1]. Neither the scaler nor the classifier is modelled, so nothing is proved about which crops a given sample gets, and no concrete sample is checked.
- Which equal-probability class `np.argsort` puts first (server/model.py:43). The model allows any order of ties.
- Python `float()` (server/main.py:50), which is the abstract partial function `toFloat`. Floats are modelled as reals. A sample that converts to NaN or infinity is rejected by the library, and the model covers that only as a failure of `proba` (a 500 answer).
- `str()` of the `lang` value (server/main.py:57). The payload holds the string that `str()` gives, or `None` when the key is absent.
- PredictApi.Lower: handles ASCII letters only. Python's `str.lower()` also lowers other letters, for example the Kelvin sign to `k`, which could match a table key. The model does not capture this.
- The FastAPI app, CORS, static files, the index routes, the client-directory check and `uvicorn.run` (server/main.py:1-38, 99-100). These are HTTP and file-system plumbing.
- The response object's JSON serialisation. The answer is the dict as an ordered sequence of entries.
- The browser client (client/main.es.js). It reads the page, sends the request and renders HTML.
