/** src/diet_advisor.py: `SportDietAdvisor.analyze_meal`, which names the
    dish the network scores highest, looks its calories up in the nutrition
    table built by the data loader, and grades the dish against the user's
    goal and calorie budget. Reading and resizing the image and the network
    itself are abstract: the analysis receives the score vector, or None
    when preparing the image raised. */
module DietAdvisor {
  import opened Common
  import opened Tables

  /** A Python float as far as the grading needs it: NaN, or a real value.
      Every comparison with NaN is false. */
  datatype Float = NaN | Finite(v: real)

  predicate Greater(x: Float, bound: real)
  {
    x.Finite? && x.v > bound
  }

  predicate Less(x: Float, bound: real)
  {
    x.Finite? && x.v < bound
  }

  /** The grades `analyze_meal` hands out. */
  datatype Status = Neutre | Deconseille | Attention | Valide | Insuffisant

  const WeightLoss: string := "perte_poids"
  const MassGain: string := "prise_masse"

  /** The defaults of `analyze_meal`. */
  const DefaultGoal: string := WeightLoss
  const DefaultBudget: int := 600

  /** The grade and whether an advice sentence goes with it (the sentence
      itself is display text). */
  datatype Verdict = Verdict(status: Status, advised: bool)

  /** The coaching chain of lines 36-57. */
  function Grade(goal: string, calories: Float, budget: int): (r: Verdict)
    ensures r.advised <==> r.status != Neutre
    ensures r.status == Neutre <==> goal != WeightLoss && goal != MassGain
  {
    if goal == WeightLoss then
      if Greater(calories, budget as real) then Verdict(Deconseille, true)
      else if Less(calories, 200.0) then Verdict(Attention, true)
      else Verdict(Valide, true)
    else if goal == MassGain then
      if Less(calories, 400.0) then Verdict(Insuffisant, true)
      else Verdict(Valide, true)
    else Verdict(Neutre, false)
  }

  /** For weight loss a real calorie count is accepted exactly in the band
      from 200 up to the budget (both ends included), flagged as too rich
      above the budget, and as too light below 200 when within budget. */
  lemma WeightLossBands(c: real, budget: int)
    ensures Grade(WeightLoss, Finite(c), budget).status == Valide <==> 200.0 <= c <= budget as real
    ensures Grade(WeightLoss, Finite(c), budget).status == Deconseille <==> c > budget as real
    ensures Grade(WeightLoss, Finite(c), budget).status == Attention <==> c < 200.0 && c <= budget as real
  {
  }

  /** For mass gain only the lower bound exists: from 400 up, however large,
      the dish is accepted. */
  lemma MassGainHasNoUpperBound(c: real, budget: int)
    ensures Grade(MassGain, Finite(c), budget).status == Valide <==> c >= 400.0
    ensures Grade(MassGain, Finite(c), budget).status == Insuffisant <==> c < 400.0
  {
  }

  /** `float(value)` of what the table holds for the dish, as written: a
      missing key gives 0 (the `.get` default), None raises TypeError and
      the handler gives 0, a string that does not parse raises ValueError
      and gives 0, and an empty CSV cell is NaN, which converts to NaN.
      `parse` is `float()` on a string: None when it raises. */
  function CaloriesAsWritten(db: map<Cell, Option<Cell>>, dish: Cell, parse: string -> Option<real>): (r: Float)
    ensures dish !in db ==> r == Finite(0.0)
    ensures dish in db && db[dish] == None ==> r == Finite(0.0)
    ensures dish in db && db[dish] == Some(Missing) ==> r == NaN
    ensures dish in db && db[dish].Some? && db[dish].value.Number? ==> r == Finite(db[dish].value.v)
    ensures dish in db && db[dish].Some? && db[dish].value.Text? ==>
              if parse(db[dish].value.s).Some? then r == Finite(parse(db[dish].value.s).value) else r == Finite(0.0)
  {
    if dish !in db then Finite(0.0)
    else match db[dish]
      case None => Finite(0.0)
      case Some(Missing) => NaN
      case Some(Number(v, _)) => Finite(v)
      case Some(Text(s)) => if parse(s).Some? then Finite(parse(s).value) else Finite(0.0)
  }

  /** The conversion as the comment of line 30 intends it: missing or
      malformed calories count as 0, so the result is never NaN. */
  function Calories(db: map<Cell, Option<Cell>>, dish: Cell, parse: string -> Option<real>): (r: Float)
    ensures r.Finite?
    ensures dish !in db || db[dish] == None || db[dish] == Some(Missing) ==> r == Finite(0.0)
    ensures CaloriesAsWritten(db, dish, parse).Finite? ==> r == CaloriesAsWritten(db, dish, parse)
  {
    var c := CaloriesAsWritten(db, dish, parse);
    if c.NaN? then Finite(0.0) else c
  }

  /** The dictionary `analyze_meal` returns, or the exception it raises. */
  datatype Analysis =
    | Analysis(plat: Cell, calories: Float, confianceIa: real, statut: Status, advised: bool)
    | ImageFailed      // imread gave None and resize raised
    | NoScores         // argmax of an empty prediction raises
    | UnknownIndex     // inv_label_map has no entry for the predicted index

  /** The shared part of both versions, given the calorie conversion. */
  function AnalyseWith(invLabelMap: map<nat, Cell>, db: map<Cell, Option<Cell>>, prediction: Option<seq<real>>,
                       goal: string, budget: int, convert: (map<Cell, Option<Cell>>, Cell) -> Float): (r: Analysis)
    ensures r.ImageFailed? <==> prediction.None?
    ensures r.NoScores? <==> prediction.Some? && prediction.value == []
    ensures prediction.Some? && prediction.value != [] ==>
              (r.UnknownIndex? <==> ArgMax(prediction.value) !in invLabelMap)
    ensures r.Analysis? ==>
              && prediction.Some? && prediction.value != []
              && var scores := prediction.value;
                 var best := ArgMax(scores);
                 && best in invLabelMap && r.plat == invLabelMap[best]
                 && (forall k :: 0 <= k < |scores| ==> scores[k] <= scores[best])
                 && r.confianceIa == scores[best] * 100.0
                 && r.calories == convert(db, r.plat)
                 && Verdict(r.statut, r.advised) == Grade(goal, r.calories, budget)
  {
    if prediction.None? then ImageFailed
    else if prediction.value == [] then NoScores
    else
      var best := ArgMax(prediction.value);
      if best !in invLabelMap then UnknownIndex
      else
        var dish := invLabelMap[best];
        var calories := convert(db, dish);
        var verdict := Grade(goal, calories, budget);
        Analysis(dish, calories, prediction.value[best] * 100.0, verdict.status, verdict.advised)
  }

  /** `analyze_meal` as written. */
  function AnalyzeMealAsWritten(invLabelMap: map<nat, Cell>, db: map<Cell, Option<Cell>>,
                                prediction: Option<seq<real>>, goal: string, budget: int,
                                parse: string -> Option<real>): Analysis
  {
    AnalyseWith(invLabelMap, db, prediction, goal, budget, (d: map<Cell, Option<Cell>>, dish: Cell) => CaloriesAsWritten(d, dish, parse))
  }

  /** `analyze_meal` with missing calories counted as 0. */
  function AnalyzeMeal(invLabelMap: map<nat, Cell>, db: map<Cell, Option<Cell>>,
                       prediction: Option<seq<real>>, goal: string, budget: int,
                       parse: string -> Option<real>): (r: Analysis)
    ensures r.Analysis? <==> prediction.Some? && prediction.value != [] && ArgMax(prediction.value) in invLabelMap
    ensures r.Analysis? ==>
              && r.plat == invLabelMap[ArgMax(prediction.value)]
              && r.confianceIa == prediction.value[ArgMax(prediction.value)] * 100.0
              && r.calories == Calories(db, r.plat, parse)
              && Verdict(r.statut, r.advised) == Grade(goal, r.calories, budget)
    ensures r.Analysis? ==> r.calories.Finite?
    ensures r.Analysis? && r.plat !in db ==> r.calories == Finite(0.0)
  {
    AnalyseWith(invLabelMap, db, prediction, goal, budget, (d: map<Cell, Option<Cell>>, dish: Cell) => Calories(d, dish, parse))
  }

  /** The two agree on every dish whose table entry converts to a number. */
  lemma AnalyzeMealAgrees(invLabelMap: map<nat, Cell>, db: map<Cell, Option<Cell>>, prediction: Option<seq<real>>,
                          goal: string, budget: int, parse: string -> Option<real>)
    requires prediction.Some? && prediction.value != [] && ArgMax(prediction.value) in invLabelMap
    requires var dish := invLabelMap[ArgMax(prediction.value)];
      dish !in db || db[dish] != Some(Missing)
    ensures AnalyzeMealAsWritten(invLabelMap, db, prediction, goal, budget, parse)
            == AnalyzeMeal(invLabelMap, db, prediction, goal, budget, parse)
  {
  }

  /** A dish whose calories cell was empty in the CSV: as written it is
      graded VALIDE for both goals (every comparison with NaN is false),
      while counting it as 0 makes it too light for either goal. */
  lemma EmptyCaloriesCellPasses(dish: Cell, budget: int, parse: string -> Option<real>)
    requires budget >= 0
    ensures var invLabelMap, db, prediction := map[0 := dish], map[dish := Some(Missing)], Some([1.0]);
      && AnalyzeMealAsWritten(invLabelMap, db, prediction, WeightLoss, budget, parse).statut == Valide
      && AnalyzeMealAsWritten(invLabelMap, db, prediction, MassGain, budget, parse).statut == Valide
      && AnalyzeMeal(invLabelMap, db, prediction, WeightLoss, budget, parse).statut == Attention
      && AnalyzeMeal(invLabelMap, db, prediction, MassGain, budget, parse).statut == Insuffisant
  {
    assert ArgMax([1.0]) == 0;
  }

  /** With the defaults the budget is 600 for weight loss: 601 kcal is too
      rich, 600 is still accepted. */
  lemma DefaultBudgetBoundary(invLabelMap: map<nat, Cell>, dish: Cell, parse: string -> Option<real>)
    ensures var db600, db601 := map[dish := Some(Number(600.0, "600"))], map[dish := Some(Number(601.0, "601"))];
      var im := map[0 := dish];
      && AnalyzeMeal(im, db600, Some([1.0]), DefaultGoal, DefaultBudget, parse).statut == Valide
      && AnalyzeMeal(im, db601, Some([1.0]), DefaultGoal, DefaultBudget, parse).statut == Deconseille
  {
    assert ArgMax([1.0]) == 0;
  }
}
