/** The inference wrapper of src/meal_predictor.py: the calorie lookup with its
    keyword fallback, the recognizer object whose artifacts are loaded once,
    the top-K shaping of one forward pass, and the process-wide recognizer. */
module MealPredictor {
  import opened Common

  // ---------------------------------------------------------------------------
  // Calorie lookup (get_meal_calories)
  // ---------------------------------------------------------------------------

  /** What `get_meal_calories` returns: the table's own value, or one of the
      fixed keyword estimates (kcal). */
  datatype Calories<V> = TableEntry(value: V) | Estimated(kcal: nat)

  const SoupKeywords: seq<string> := ["salad", "salade", "soup", "soupe"]
  const StarchKeywords: seq<string> := ["pasta", "pâte", "rice", "riz"]
  const ProteinKeywords: seq<string> := ["steak", "meat", "viande", "fish", "poisson"]
  const FastFoodKeywords: seq<string> := ["pizza", "burger"]
  const DessertKeywords: seq<string> := ["cake", "dessert", "gâteau"]

  const SoupKcal: nat := 200
  const StarchKcal: nat := 350
  const ProteinKcal: nat := 400
  const FastFoodKcal: nat := 500
  const DessertKcal: nat := 300
  const DefaultKcal: nat := 250

  /** Python's `any(x in name for x in keywords)`. */
  predicate MentionsAny(name: string, keywords: seq<string>)
  {
    exists k :: 0 <= k < |keywords| && Contains(name, keywords[k])
  }

  /** The keyword buckets, tried in order on the lower-cased name; the first
      bucket that matches decides, and a name matching none gets the default. */
  function KeywordEstimate(name: string): (kcal: nat)
    ensures kcal in {SoupKcal, StarchKcal, ProteinKcal, FastFoodKcal, DessertKcal, DefaultKcal}
    ensures MentionsAny(Lower(name), SoupKeywords) ==> kcal == SoupKcal
    ensures (!MentionsAny(Lower(name), SoupKeywords) && MentionsAny(Lower(name), StarchKeywords))
              ==> kcal == StarchKcal
    ensures (!MentionsAny(Lower(name), SoupKeywords) && !MentionsAny(Lower(name), StarchKeywords)
             && MentionsAny(Lower(name), ProteinKeywords))
              ==> kcal == ProteinKcal
    ensures (!MentionsAny(Lower(name), SoupKeywords) && !MentionsAny(Lower(name), StarchKeywords)
             && !MentionsAny(Lower(name), ProteinKeywords) && MentionsAny(Lower(name), FastFoodKeywords))
              ==> kcal == FastFoodKcal
    ensures (!MentionsAny(Lower(name), SoupKeywords) && !MentionsAny(Lower(name), StarchKeywords)
             && !MentionsAny(Lower(name), ProteinKeywords) && !MentionsAny(Lower(name), FastFoodKeywords)
             && MentionsAny(Lower(name), DessertKeywords))
              ==> kcal == DessertKcal
    ensures kcal == DefaultKcal <==>
              !MentionsAny(Lower(name), SoupKeywords) && !MentionsAny(Lower(name), StarchKeywords)
              && !MentionsAny(Lower(name), ProteinKeywords) && !MentionsAny(Lower(name), FastFoodKeywords)
              && !MentionsAny(Lower(name), DessertKeywords)
  {
    var lowered := Lower(name);
    if MentionsAny(lowered, SoupKeywords) then SoupKcal
    else if MentionsAny(lowered, StarchKeywords) then StarchKcal
    else if MentionsAny(lowered, ProteinKeywords) then ProteinKcal
    else if MentionsAny(lowered, FastFoodKeywords) then FastFoodKcal
    else if MentionsAny(lowered, DessertKeywords) then DessertKcal
    else DefaultKcal
  }

  /** `get_meal_calories(meal_name, nutrition_db)`: an exact table entry wins,
      whatever the name says; otherwise (and always when no table is given)
      the keyword estimate. It never fails. */
  function MealCalories<V>(mealName: string, nutritionDb: Option<map<string, V>>): (r: Calories<V>)
    ensures nutritionDb.Some? && mealName in nutritionDb.value ==>
              r == TableEntry(nutritionDb.value[mealName])
    ensures nutritionDb.None? ==> r.Estimated?
    ensures r.Estimated? <==> nutritionDb.None? || mealName !in nutritionDb.value
    ensures r.Estimated? ==> r.kcal == KeywordEstimate(mealName)
  {
    var table := if nutritionDb.None? then map[] else nutritionDb.value;
    if mealName in table then TableEntry(table[mealName])
    else Estimated(KeywordEstimate(mealName))
  }

  /** Keyword matching ignores case: a name and its lower-cased form get the
      same estimate. */
  lemma EstimateIgnoresCase(name: string)
    ensures KeywordEstimate(name) == KeywordEstimate(Lower(name))
  {
    LowerIdempotent(name);
  }

  /** "Rice with Steaks" matches both the starch and the protein buckets;
      the starch bucket comes first and wins. */
  lemma RiceWithSteaks()
    ensures MealCalories<int>("Rice with Steaks", None) == Estimated(350)
  {
    var lowered := Lower("Rice with Steaks");
    LowerRiceWithSteaks();
    assert OccursAt(lowered, StarchKeywords[2], 0);
    assert MentionsAny(lowered, StarchKeywords);
    NoSoupInRiceWithSteaks(lowered);
  }

  lemma LowerRiceWithSteaks()
    ensures Lower("Rice with Steaks") == "rice with steaks"
  {
    var s := "Rice with Steaks";
    var t := "rice with steaks";
    assert Lower(s)[0] == 'r';
    forall i | 1 <= i < |s| ensures Lower(s)[i] == t[i] {
      if i == 1 {
        assert s[1] == 'i';
      } else if i == 2 {
        assert s[2] == 'c';
      } else if i == 3 {
        assert s[3] == 'e';
      } else if i == 4 {
        assert s[4] == ' ';
      } else if i == 5 {
        assert s[5] == 'w';
      } else if i == 6 {
        assert s[6] == 'i';
      } else if i == 7 {
        assert s[7] == 't';
      } else if i == 8 {
        assert s[8] == 'h';
      } else if i == 9 {
        assert s[9] == ' ';
      } else if i == 10 {
        assert s[10] == 'S';
      } else if i == 11 {
        assert s[11] == 't';
      } else if i == 12 {
        assert s[12] == 'e';
      } else if i == 13 {
        assert s[13] == 'a';
      } else if i == 14 {
        assert s[14] == 'k';
      } else {
        assert s[15] == 's';
      }
    }
  }

  lemma NoSoupInRiceWithSteaks(lowered: string)
    requires lowered == "rice with steaks"
    ensures !MentionsAny(lowered, SoupKeywords)
  {
    assert forall i :: 0 <= i < |lowered| && lowered[i] == 's' ==> i == 10 || i == 15;
    forall k, i | 0 <= k < |SoupKeywords| && 0 <= i <= |lowered| - |SoupKeywords[k]|
      ensures !OccursAt(lowered, SoupKeywords[k], i)
    {
      var w := SoupKeywords[k];
      assert lowered[i..i + |w|][0] == lowered[i] && lowered[i..i + |w|][1] == lowered[i + 1];
      assert lowered[i] != w[0] || lowered[i + 1] != w[1];
    }
  }

  /** A soup with an exact table entry gets the table's value, not the soup
      bucket. */
  lemma ExactEntryBeatsKeywords(db: map<string, int>)
    requires "Soupe Minestrone" in db
    ensures MealCalories("Soupe Minestrone", Some(db)) == TableEntry(db["Soupe Minestrone"])
  {
  }

  // ---------------------------------------------------------------------------
  // FoodRecognizer: artifacts loaded into fields, predictions read them
  // ---------------------------------------------------------------------------

  /** One artifact file: not on disk, on disk but failing to load (the load
      raises), or loaded. */
  datatype Artifact<T> = Absent | Unreadable | Loaded(content: T)

  /** A loaded Keras network, known by the file it came from. Its forward pass
      is opaque; `Predict` receives the pass's outcome as a `Forward`. */
  datatype Network = Network(path: string)

  /** The three files `load_model` reads: weights, label encoder, class list. */
  datatype ArtifactFiles = ArtifactFiles(
    model: Artifact<Network>,
    encoder: Artifact<seq<string>>,
    classes: Artifact<seq<string>>)

  /** `load_model` returns True: the weights exist and load, and neither of the
      other two files is present-but-unreadable (a missing one is skipped). */
  predicate LoadSucceeds(files: ArtifactFiles)
  {
    files.model.Loaded? && !files.encoder.Unreadable? && !files.classes.Unreadable?
  }

  /** What preprocessing an image and running the network on it gave:
      `preprocess_image` returned None, `model.predict` raised, or the
      probabilities together with `np.argsort(probs)[::-1]`. */
  datatype Forward =
    | PreprocessFailed
    | ForwardFailed
    | Probabilities(probs: seq<real>, ranking: seq<nat>)

  /** What numpy promises of `np.argsort(probs)[::-1]`: every class index once,
      by non-increasing probability. The order among equal probabilities is
      left open, as numpy's default sort is not stable. */
  predicate IsDescendingArgsort(probs: seq<real>, ranking: seq<nat>)
  {
    && |ranking| == |probs|
    && (forall i :: 0 <= i < |ranking| ==> ranking[i] < |probs|)
    && (forall i, j :: 0 <= i < j < |ranking| ==> ranking[i] != ranking[j])
    && (forall i, j :: 0 <= i < j < |ranking| ==> probs[ranking[i]] >= probs[ranking[j]])
  }

  /** The dict `predict` returns: meal, confidence (percent), the ranked
      (meal, confidence) pairs and the success flag. */
  datatype PredictionResult = PredictionResult(
    meal: Option<string>,
    confidence: real,
    topPredictions: seq<(string, real)>,
    success: bool)

  /** The result `predict` starts from and returns on every early exit. */
  const NoPrediction := PredictionResult(None, 0.0, [], false)

  /** The name `predict` shows for class `idx`: `classes[idx]` when a non-empty
      class list is loaded, "Class idx" otherwise; None where `classes[idx]`
      raises IndexError. */
  function ClassName(classes: Option<seq<string>>, idx: nat): (r: Option<string>)
    ensures (classes.None? || classes.value == []) ==> r == Some("Class " + NatToString(idx))
    ensures classes.Some? && classes.value != [] ==>
              (r.Some? <==> idx < |classes.value|) && (r.Some? ==> r.value == classes.value[idx])
  {
    if classes.Some? && |classes.value| > 0 then
      (if idx < |classes.value| then Some(classes.value[idx]) else None)
    else
      Some("Class " + NatToString(idx))
  }

  /** What `predict(image, top_k)` returns for a recognizer in state
      (`loaded`, `classes`): the empty failure result without a loaded model
      or a forward pass; otherwise the first ranked classes, each named and
      scored (probability times 100), at most `top_k` of them by Python's
      `[:top_k]`, `success` exactly when every one of those names resolves,
      and a class past the end of the class list ending the list there. */
  predicate Ranked(result: PredictionResult, loaded: bool, classes: Option<seq<string>>,
                   forward: Forward, topK: int)
    requires forward.Probabilities? ==> IsDescendingArgsort(forward.probs, forward.ranking)
  {
    && (!loaded || !forward.Probabilities? ==> result == NoPrediction)
    && (loaded && forward.Probabilities? ==>
          var k := PrefixLen(|forward.probs|, topK);
          && |result.topPredictions| <= k
          && (forall i :: 0 <= i < |result.topPredictions| ==>
                ClassName(classes, forward.ranking[i]) == Some(result.topPredictions[i].0)
                && result.topPredictions[i].1 == forward.probs[forward.ranking[i]] * 100.0)
          && (result.success <==> forall i :: 0 <= i < k ==> ClassName(classes, forward.ranking[i]).Some?)
          && (result.success ==> |result.topPredictions| == k)
          && (!result.success ==>
                (|result.topPredictions| < k && ClassName(classes, forward.ranking[|result.topPredictions|]).None?)))
    && (forall i, j :: 0 <= i < j < |result.topPredictions| ==>
          result.topPredictions[i].1 >= result.topPredictions[j].1)
    && (|result.topPredictions| > 0 ==>
          result.meal == Some(result.topPredictions[0].0) && result.confidence == result.topPredictions[0].1)
    && (|result.topPredictions| == 0 ==> result.meal == None && result.confidence == 0.0)
  }

  class FoodRecognizer {
    var model: Option<Network>
    var labelEncoder: Option<seq<string>>
    var classes: Option<seq<string>>
    var modelLoaded: bool

    /** The recognizer reports itself loaded only once it holds a network. */
    ghost predicate Valid()
      reads this
    {
      modelLoaded ==> model.Some?
    }

    /** `FoodRecognizer(...)`: all fields empty, then one `load_model`. */
    constructor (files: ArtifactFiles)
      ensures Valid()
      ensures modelLoaded == LoadSucceeds(files)
      ensures model == (if files.model.Loaded? then Some(files.model.content) else None)
      ensures labelEncoder ==
                (if files.model.Loaded? && files.encoder.Loaded? then Some(files.encoder.content) else None)
      ensures classes ==
                (if files.model.Loaded? && !files.encoder.Unreadable? && files.classes.Loaded?
                 then Some(files.classes.content) else None)
    {
      model := None;
      labelEncoder := None;
      classes := None;
      modelLoaded := false;
      new;
      var _ := LoadModel(files);
    }

    /** `load_model`: the weights first (a missing or unreadable file stops
        here), then the encoder and the class list, each only if its file
        exists; an exception on the way leaves what was already assigned and
        returns False. `model_loaded` is set only at the very end. */
    method LoadModel(files: ArtifactFiles) returns (ok: bool)
      requires Valid()
      modifies this
      ensures Valid()
      ensures ok == LoadSucceeds(files)
      ensures modelLoaded == (old(modelLoaded) || ok)
      ensures model == (if files.model.Loaded? then Some(files.model.content) else old(model))
      ensures labelEncoder ==
                (if files.model.Loaded? && files.encoder.Loaded? then Some(files.encoder.content)
                 else old(labelEncoder))
      ensures classes ==
                (if files.model.Loaded? && !files.encoder.Unreadable? && files.classes.Loaded?
                 then Some(files.classes.content) else old(classes))
    {
      if !files.model.Loaded? {
        return false;
      }
      model := Some(files.model.content);
      if files.encoder.Unreadable? {
        return false;
      }
      if files.encoder.Loaded? {
        labelEncoder := Some(files.encoder.content);
      }
      if files.classes.Unreadable? {
        return false;
      }
      if files.classes.Loaded? {
        classes := Some(files.classes.content);
      }
      modelLoaded := true;
      return true;
    }

    /** `predict(image, top_k)`. Without a loaded model, or when preprocessing
        or the forward pass fails, the empty failure result. Otherwise the
        first `top_k` ranked classes (Python's `[:top_k]`), each named and
        scored (probability times 100), the first of them also as the meal; a
        class index past the end of the class list raises IndexError inside
        the `try`, which stops the list there with `success` False. */
    method Predict(forward: Forward, topK: int) returns (result: PredictionResult)
      requires Valid()
      requires forward.Probabilities? ==> IsDescendingArgsort(forward.probs, forward.ranking)
      ensures Ranked(result, modelLoaded, classes, forward, topK)
    {
      if !modelLoaded || !forward.Probabilities? {
        return NoPrediction;
      }
      var probs, ranking := forward.probs, forward.ranking;
      var k := PrefixLen(|ranking|, topK);
      var meal: Option<string> := None;
      var confidence: real := 0.0;
      var top: seq<(string, real)> := [];
      var rank := 0;
      while rank < k
        invariant 0 <= rank <= k
        invariant |top| == rank
        invariant forall i :: 0 <= i < rank ==>
                    ClassName(classes, ranking[i]) == Some(top[i].0) && top[i].1 == probs[ranking[i]] * 100.0
        invariant rank > 0 ==> meal == Some(top[0].0) && confidence == top[0].1
        invariant rank == 0 ==> meal == None && confidence == 0.0
      {
        var idx := ranking[rank];
        var name := ClassName(classes, idx);
        if name.None? {
          return PredictionResult(meal, confidence, top, false);
        }
        var score := probs[idx] * 100.0;
        if rank == 0 {
          meal, confidence := name, score;
        }
        top := top + [(name.value, score)];
        rank := rank + 1;
      }
      return PredictionResult(meal, confidence, top, true);
    }
  }

  // ---------------------------------------------------------------------------
  // The process-wide recognizer (get_recognizer, predict_meal)
  // ---------------------------------------------------------------------------

  /** The module-level `_recognizer`: None until the first `get_recognizer`. */
  class RecognizerSlot {
    var instance: FoodRecognizer?

    ghost predicate Valid()
      reads this, instance
    {
      instance != null ==> instance.Valid()
    }

    constructor ()
      ensures Valid() && instance == null
    {
      instance := null;
    }

    /** `get_recognizer()`: builds a recognizer on the first call only and
        hands back that same object on every later call. */
    method GetRecognizer(files: ArtifactFiles) returns (r: FoodRecognizer)
      requires Valid()
      modifies this
      ensures Valid() && instance == r && r.Valid()
      ensures old(instance) != null ==> r == old(instance) && unchanged(r)
      ensures old(instance) == null ==> fresh(r) && r.modelLoaded == LoadSucceeds(files)
    {
      if instance == null {
        instance := new FoodRecognizer(files);
      }
      r := instance;
    }

    /** `predict_meal(image)`: the shared recognizer's `predict` with top_k = 3. */
    method PredictMeal(files: ArtifactFiles, forward: Forward) returns (result: PredictionResult)
      requires Valid()
      requires forward.Probabilities? ==> IsDescendingArgsort(forward.probs, forward.ranking)
      modifies this
      ensures Valid() && instance != null
      ensures old(instance) != null ==> instance == old(instance)
      ensures old(instance) == null ==> instance.modelLoaded == LoadSucceeds(files)
      ensures Ranked(result, instance.modelLoaded, instance.classes, forward, 3)
      ensures result.success ==> forward.Probabilities? && |result.topPredictions| == PrefixLen(|forward.probs|, 3)
      ensures !instance.modelLoaded ==> result == NoPrediction
    {
      var recognizer := GetRecognizer(files);
      result := recognizer.Predict(forward, 3);
    }
  }

  /** Two calls of `get_recognizer` return one and the same object. */
  method GetRecognizerTwice(slot: RecognizerSlot, first: ArtifactFiles, second: ArtifactFiles)
    returns (a: FoodRecognizer, b: FoodRecognizer)
    requires slot.Valid()
    modifies slot
    ensures a == b
  {
    a := slot.GetRecognizer(first);
    b := slot.GetRecognizer(second);
  }
}
