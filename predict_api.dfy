/**
 * The `/predict` endpoint: it validates the `sample` field of the request
 * body, runs the top-crop predictor, optionally renames the crops to
 * Spanish, and maps failures to HTTP status codes (400 for a bad sample,
 * 500 for an exception raised while predicting).
 */
module PredictApi {
  import opened Wrappers
  import opened PyDict
  import opened CropModel

  /** The number of features a sample must provide. */
  const SampleLength: nat := 7

  const NotAListDetail: string := "'sample' must be a list with at least 7 numeric values"
  const NotNumericDetail: string := "Unable to convert sample values to numbers"
  const DefaultLang: string := "en"

  /** The value under the `sample` key of the request body: a JSON list of
      values, or some value that is not a list (`null` included). */
  datatype SampleField<Item> = List(items: seq<Item>) | NotList(other: Item)

  /**
   * The request body. `sample` is `None` when the key is absent; `lang` is
   * `None` when the key is absent and otherwise `str()` of its value.
   */
  datatype Payload<Item> = Payload(sample: Option<SampleField<Item>>, lang: Option<string>)

  /** The HTTP answer: the crop-to-probability object, or a status and detail. */
  datatype Response = Ok(body: Dict<string, real>) | Error(status: nat, detail: string)

  /** `[float(x) for x in items]`, `toFloat` standing for Python's `float()`:
      fails as soon as one value cannot be converted. */
  function ConvertAll<Item>(items: seq<Item>, toFloat: Item -> Option<real>): (r: Option<seq<real>>)
    ensures r.Some? <==> forall i :: 0 <= i < |items| ==> toFloat(items[i]).Some?
    ensures r.Some? ==> |r.value| == |items| && forall i :: 0 <= i < |items| ==> r.value[i] == toFloat(items[i]).value
  {
    if items == [] then Some([])
    else
      match toFloat(items[0])
      case None => None
      case Some(x) =>
        match ConvertAll(items[1..], toFloat)
        case None =>
          assert forall i :: 1 <= i < |items| ==> items[i] == items[1..][i - 1];
          None
        case Some(xs) => Some([x] + xs)
  }

  /** The validation of the `sample` field: an absent field leaves the sample
      `None`; a present one must be a list of at least `SampleLength` values,
      of which the first `SampleLength` are converted to numbers. */
  function ReadSample<Item>(field: Option<SampleField<Item>>, toFloat: Item -> Option<real>): (r: Result<Sample, string>)
    ensures field.None? ==> r == Success(None)
    ensures field.Some? && (field.value.NotList? || |field.value.items| < SampleLength) ==>
              r == Failure(NotAListDetail)
    ensures field.Some? && field.value.List? && |field.value.items| >= SampleLength ==>
              && (r.Success? <==> forall i :: 0 <= i < SampleLength ==> toFloat(field.value.items[i]).Some?)
              && (r.Failure? ==> r.error == NotNumericDetail)
              && (r.Success? ==>
                    && r.value.Some? && |r.value.value| == SampleLength
                    && forall i :: 0 <= i < SampleLength ==> r.value.value[i] == toFloat(field.value.items[i]).value)
  {
    match field
    case None => Success(None)
    case Some(NotList(_)) => Failure(NotAListDetail)
    case Some(List(items)) =>
      if |items| < SampleLength then Failure(NotAListDetail)
      else
        match ConvertAll(items[..SampleLength], toFloat)
        case None => Failure(NotNumericDetail)
        case Some(xs) => Success(Some(xs))
  }

  /** Values after the seventh are never looked at: two lists that agree on
      their first `SampleLength` values validate alike. */
  lemma OnlyFirstSevenInspected<Item>(items: seq<Item>, others: seq<Item>, toFloat: Item -> Option<real>)
    requires |items| >= SampleLength && |others| >= SampleLength
    requires items[..SampleLength] == others[..SampleLength]
    ensures ReadSample(Some(List(items)), toFloat) == ReadSample(Some(List(others)), toFloat)
  {
  }

  /** Python's `str.lower()` on one character, for ASCII letters. */
  function LowerChar(c: char): char {
    if 'A' <= c <= 'Z' then (c as int + 32) as char else c
  }

  /** `s.lower()`, for ASCII letters. */
  function Lower(s: string): string {
    seq(|s|, i requires 0 <= i < |s| => LowerChar(s[i]))
  }

  /** `str(payload.get("lang", "en")).lower().startswith("es")`. */
  predicate WantsSpanish(lang: Option<string>) {
    var l := Lower(lang.GetOr(DefaultLang));
    |l| >= 2 && l[..2] == "es"
  }

  /** The language test on a few values: absent (so "en"), upper case, a
      regional variant, English and a one-letter value. */
  lemma LanguageChoice()
    ensures !WantsSpanish(None)
    ensures WantsSpanish(Some("ES")) && WantsSpanish(Some("es-MX"))
    ensures !WantsSpanish(Some("en")) && !WantsSpanish(Some("e"))
  {
    assert Option<string>.None.GetOr(DefaultLang) == "en";
    assert Lower("en")[..2][1] == 'n' != "es"[1];
    assert Lower("ES") == "es";
    assert Lower("es-MX")[..2] == "es";
  }

  /** For every `lang`, Spanish is chosen exactly when the value (or "en" when
      absent) starts with "es" in any mix of case. */
  lemma WantsSpanishChars(lang: Option<string>)
    ensures WantsSpanish(lang) <==>
      var s := lang.GetOr(DefaultLang);
      |s| >= 2 && (s[0] == 'e' || s[0] == 'E') && (s[1] == 's' || s[1] == 'S')
  {
    var s := lang.GetOr(DefaultLang);
    if |s| >= 2 {
      var l := Lower(s);
      assert l[..2] == [l[0], l[1]];
    }
  }

  /** The Spanish name of each English crop name the model knows. */
  const EsMap: map<string, string> := map[
    "rice" := "arroz",
    "maize" := "maíz",
    "chickpea" := "garbanzo",
    "kidneybeans" := "frijol riñón",
    "pigeonpeas" := "guandú",
    "mothbeans" := "vigna moth",
    "mungbean" := "frijol mungo",
    "blackgram" := "frijol negro",
    "lentil" := "lenteja",
    "pomegranate" := "granada",
    "banana" := "plátano",
    "mango" := "mango",
    "grapes" := "uvas",
    "watermelon" := "sandía",
    "muskmelon" := "melón",
    "apple" := "manzana",
    "orange" := "naranja",
    "papaya" := "papaya",
    "coconut" := "coco",
    "cotton" := "algodón",
    "jute" := "yute",
    "coffee" := "café"
  ]

  /** `es_map.get(key.lower(), key)`: the Spanish name, or the key unchanged. */
  function EsName(key: string): string {
    var lower := Lower(key);
    if lower in EsMap then EsMap[lower] else key
  }

  /** No two English names share a Spanish name. */
  lemma EsMapInjective()
    ensures forall a, b :: a in EsMap && b in EsMap && a != b ==> EsMap[a] != EsMap[b]
  {
  }

  /** The entries of `result` with each crop renamed to Spanish. */
  function Renamed(result: Dict<string, real>): seq<(string, real)> {
    seq(|result|, i requires 0 <= i < |result| => (EsName(result[i].0), result[i].1))
  }

  /** Renaming sends distinct crops of `result` to distinct names. */
  ghost predicate RenamingInjective(result: Dict<string, real>) {
    forall i, j :: 0 <= i < j < |result| ==> EsName(result[i].0) != EsName(result[j].0)
  }

  /** What renaming into a fresh dict gives: no more entries than before,
      each the Spanish name of a crop with that crop's probability, every
      crop's Spanish name present, and, when no two crops share a Spanish
      name, exactly the renamed entries in their order. */
  lemma TranslationFacts(result: Dict<string, real>)
    ensures |FromPairs(Renamed(result))| <= |result| && DistinctKeys(FromPairs(Renamed(result)))
    ensures forall e :: e in FromPairs(Renamed(result)) ==> e in Renamed(result)
    ensures forall i :: 0 <= i < |result| ==> HasKey(FromPairs(Renamed(result)), EsName(result[i].0))
    ensures RenamingInjective(result) ==> FromPairs(Renamed(result)) == Renamed(result)
  {
    forall i | 0 <= i < |result| ensures HasKey(FromPairs(Renamed(result)), EsName(result[i].0)) {
      assert Renamed(result)[i].0 == EsName(result[i].0);
      assert HasKey(Renamed(result), EsName(result[i].0));
    }
    if RenamingInjective(result) {
      FromDistinctPairs(Renamed(result));
    }
  }

  /** One step of the renaming loop: the dict of the first `i + 1` entries is
      the dict of the first `i` with the next entry assigned under its new name. */
  lemma TranslateStep(result: Dict<string, real>, i: nat)
    requires i < |result|
    ensures FromPairs(Renamed(result[..i + 1])) ==
            Insert(FromPairs(Renamed(result[..i])), EsName(result[i].0), result[i].1)
  {
    assert Renamed(result[..i + 1]) == Renamed(result[..i]) + [(EsName(result[i].0), result[i].1)];
    FromPairsSnoc(Renamed(result[..i]), EsName(result[i].0), result[i].1);
  }

  /** The Spanish renaming loop: each entry is assigned under its Spanish name
      into a new dict, a later entry overwriting an earlier one of the same name. */
  method TranslateToSpanish(result: Dict<string, real>) returns (translated: Dict<string, real>)
    ensures translated == FromPairs(Renamed(result))
    ensures |translated| <= |result| && DistinctKeys(translated)
    ensures forall e :: e in translated ==> e in Renamed(result)
    ensures forall i :: 0 <= i < |result| ==> HasKey(translated, EsName(result[i].0))
    ensures RenamingInjective(result) ==> translated == Renamed(result)
  {
    translated := [];
    for i := 0 to |result|
      invariant translated == FromPairs(Renamed(result[..i]))
    {
      var (k, v) := result[i];
      var translatedName := EsName(k);
      TranslateStep(result, i);
      translated := Insert(translated, translatedName, v);
    }
    assert result[..|result|] == result;
    TranslationFacts(result);
  }

  /** A result whose crops are distinct English names of the table (compared
      in lower case) is renamed entry by entry: same order, same probabilities. */
  lemma KnownCropsTranslateOneToOne(result: Dict<string, real>)
    requires forall i :: 0 <= i < |result| ==> Lower(result[i].0) in EsMap
    requires forall i, j :: 0 <= i < j < |result| ==> Lower(result[i].0) != Lower(result[j].0)
    ensures RenamingInjective(result)
    ensures FromPairs(Renamed(result)) == Renamed(result)
  {
    EsMapInjective();
    FromDistinctPairs(Renamed(result));
  }

  /** Keys that differ only in case share a Spanish name, so the later entry
      overwrites the earlier one and the translation is shorter. */
  lemma CaseVariantsMerge()
    ensures FromPairs(Renamed([("Rice", 0.5), ("rice", 0.25)])) == [("arroz", 0.25)]
  {
    assert Lower("Rice") == "rice";
    assert Lower("rice") == "rice";
    assert EsName("Rice") == "arroz" && EsName("rice") == "arroz";
    assert Renamed([("Rice", 0.5), ("rice", 0.25)]) == [("arroz", 0.5), ("arroz", 0.25)];
    FromPairsSnoc([("arroz", 0.5)], "arroz", 0.25);
    assert [("arroz", 0.5)] + [("arroz", 0.25)] == [("arroz", 0.5), ("arroz", 0.25)];
    assert HasKey([("arroz", 0.5)], "arroz");
  }

  /** The response body for a prediction `found`, renamed when Spanish is asked for. */
  function Presented(found: Dict<string, real>, lang: Option<string>): Dict<string, real> {
    if WantsSpanish(lang) then FromPairs(Renamed(found)) else found
  }

  /** Renaming keeps a result within at most `TopN` distinct crops of
      probability in (0, 1]. */
  lemma TranslationKeepsBounds(found: Dict<string, real>)
    requires |found| <= TopN && forall e :: e in found ==> 0.0 < e.1 <= 1.0
    ensures var body := FromPairs(Renamed(found));
      && |body| <= TopN && DistinctKeys(body)
      && forall e :: e in body ==> 0.0 < e.1 <= 1.0
  {
    TranslationFacts(found);
    forall e | e in FromPairs(Renamed(found)) ensures 0.0 < e.1 <= 1.0 {
      var i :| 0 <= i < |Renamed(found)| && Renamed(found)[i] == e;
      assert found[i] in found;
    }
  }

  /** Whatever the language, the body of a successful answer has at most
      `TopN` distinct crops, each with a probability in (0, 1]; without
      translation it is the best-`TopN` selection itself. */
  lemma PresentedFacts(labels: seq<string>, probs: seq<real>, ranking: seq<nat>, lang: Option<string>)
    requires NoDuplicates(labels) && |probs| == |labels| && IsDescendingRanking(probs, ranking)
    requires forall c :: 0 <= c < |probs| ==> 0.0 <= probs[c] <= 1.0
    ensures var body := Presented(TopSelection(labels, probs, ranking), lang);
      && |body| <= TopN && DistinctKeys(body)
      && forall e :: e in body ==> 0.0 < e.1 <= 1.0
    ensures !WantsSpanish(lang) ==> IsTopSelection(labels, probs, Presented(TopSelection(labels, probs, ranking), lang))
  {
    var found := TopSelection(labels, probs, ranking);
    TopSelectionIsTop(labels, probs, ranking);
    TopSelectionInUnitInterval(labels, probs, ranking);
    assert forall e :: e in found ==> 0.0 < e.1 <= 1.0 by {
      forall e | e in found ensures 0.0 < e.1 <= 1.0 {
        var i :| 0 <= i < |found| && found[i] == e;
      }
    }
    if WantsSpanish(lang) {
      TranslationKeepsBounds(found);
    }
  }

  /** `POST /predict`. */
  method Predict<Item>(ctx: Trained, payload: Payload<Item>, toFloat: Item -> Option<real>) returns (resp: Response)
    requires Valid(ctx)
    // the three ways a request ends
    ensures match ReadSample(payload.sample, toFloat)
      case Failure(detail) => resp == Error(400, detail)
      case Success(sample) =>
        match ctx.proba([sample])
        case Failure(message) => resp == Error(500, message)
        case Success(rows) =>
          resp == Ok(Presented(TopSelection(ctx.labels, rows[0], ctx.argsortDesc(rows[0])), payload.lang))
    // a sample that is not a list of at least seven values is rejected before prediction
    ensures payload.sample.Some? && (payload.sample.value.NotList? || |payload.sample.value.items| < SampleLength) ==>
              resp == Error(400, NotAListDetail)
    // without a sample, the predictor fails on `None`
    ensures payload.sample.None? ==> resp == Error(500, ctx.proba([None]).error)
    // an answer holds at most four crops of probability in (0, 1]
    ensures resp.Ok? ==>
              && |resp.body| <= TopN && DistinctKeys(resp.body)
              && forall e :: e in resp.body ==> 0.0 < e.1 <= 1.0
    // without translation, the answer is a best-four selection for the sample's own row
    ensures resp.Ok? && !WantsSpanish(payload.lang) ==>
              && ReadSample(payload.sample, toFloat).Success?
              && var rows := ctx.proba([ReadSample(payload.sample, toFloat).value]);
                 rows.Success? && IsTopSelection(ctx.labels, rows.value[0], resp.body)
  {
    var sample: Sample := None;
    if payload.sample.Some? {
      var checked := ReadSample(payload.sample, toFloat);
      if checked.Failure? {
        return Error(400, checked.error);
      }
      sample := checked.value;
    }
    var result := TopCrops(ctx, [sample]);
    if result.Failure? {
      return Error(500, result.error);
    }
    ghost var probs := ctx.proba([sample]).value[0];
    ghost var ranking := ctx.argsortDesc(probs);
    PresentedFacts(ctx.labels, probs, ranking, payload.lang);
    var found := result.value;
    if WantsSpanish(payload.lang) {
      var translated := TranslateToSpanish(found);
      return Ok(translated);
    }
    assert IsTopSelection(ctx.labels, probs, found);
    return Ok(found);
  }
}
