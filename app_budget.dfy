/** The meal evaluation of app.py: the default calorie budget of each goal
    and meal, the status chain that grades a dish against the budget, and
    the remaining-budget and progress figures shown beside it. The dish and
    its calories come from a simulated random prediction, so they are
    inputs here; the budget and the daily goal are the sidebar inputs. */
module AppBudget {

  datatype Goal = Seche | PriseDeMasse | Maintenance
  datatype Meal = PetitDejeuner | Dejeuner | Snack | Diner

  /** `meal_budgets[goal][meal]`. */
  function DefaultBudget(goal: Goal, meal: Meal): (kcal: nat)
    ensures 200 <= kcal <= 900
  {
    match goal
    case Seche =>
      (match meal case PetitDejeuner => 400 case Dejeuner => 600 case Snack => 200 case Diner => 500)
    case PriseDeMasse =>
      (match meal case PetitDejeuner => 700 case Dejeuner => 900 case Snack => 400 case Diner => 800)
    case Maintenance =>
      (match meal case PetitDejeuner => 500 case Dejeuner => 700 case Snack => 300 case Diner => 600)
  }

  /** Within every goal the snack gets the least and lunch the most:
      Snack < Petit-déjeuner < Dîner < Déjeuner. */
  lemma BudgetsOrderedByMeal(goal: Goal)
    ensures DefaultBudget(goal, Snack) < DefaultBudget(goal, PetitDejeuner)
            < DefaultBudget(goal, Diner) < DefaultBudget(goal, Dejeuner)
  {
  }

  /** For every meal the cut gets the least and mass gain the most:
      Sèche < Maintenance < Prise de masse. */
  lemma BudgetsOrderedByGoal(meal: Meal)
    ensures DefaultBudget(Seche, meal) < DefaultBudget(Maintenance, meal) < DefaultBudget(PriseDeMasse, meal)
  {
  }

  /** The ranges the two sidebar inputs enforce (lines 106-121). */
  predicate ValidInputs(budget: int, dailyGoal: int)
  {
    50 <= budget <= 2000 && 1200 <= dailyGoal <= 5000
  }

  /** Every default budget is a value the budget input accepts, on its
      50-kcal grid. */
  lemma DefaultBudgetsAccepted(goal: Goal, meal: Meal)
    ensures ValidInputs(DefaultBudget(goal, meal), 2000)
    ensures DefaultBudget(goal, meal) % 50 == 0
  {
  }

  datatype Status = Deconseille | TropLeger | Valide | Insuffisant | TropRiche | Parfait | LegerementEleve | Leger

  /** The CSS class of the status card. */
  datatype Colour = Invalid | Warning | ValidColour

  datatype Verdict = Verdict(status: Status, colour: Colour)

  /** `remaining_budget`. */
  function Remaining(budget: int, calories: int): int
  {
    budget - calories
  }

  /** The status chain of lines 243-287. The float products
      `calorie_budget * 1.3`, `* 1.1` and `* 0.7` are compared exactly, by
      cross-multiplying by 10. */
  function Evaluate(goal: Goal, calories: int, budget: int): Verdict
  {
    match goal
    case Seche =>
      if calories > budget then Verdict(Deconseille, Invalid)
      else if calories < 100 then Verdict(TropLeger, Warning)
      else Verdict(Valide, ValidColour)
    case PriseDeMasse =>
      if calories < 300 then Verdict(Insuffisant, Warning)
      else if 10 * calories > 13 * budget then Verdict(TropRiche, Warning)
      else Verdict(Valide, ValidColour)
    case Maintenance =>
      var remaining := Remaining(budget, calories);
      if -50 < remaining < 50 then Verdict(Parfait, ValidColour)
      else if 10 * calories > 11 * budget then Verdict(LegerementEleve, Warning)
      else if 10 * calories < 7 * budget then Verdict(Leger, Warning)
      else Verdict(Valide, ValidColour)
  }

  /** The statuses each goal can produce, and the colour of each. */
  lemma StatusesPerGoal(goal: Goal, calories: int, budget: int)
    ensures var v := Evaluate(goal, calories, budget);
      && (goal == Seche ==> v.status in {Deconseille, TropLeger, Valide})
      && (goal == PriseDeMasse ==> v.status in {Insuffisant, TropRiche, Valide})
      && (goal == Maintenance ==> v.status in {Parfait, LegerementEleve, Leger, Valide})
      && (v.colour == ValidColour <==> v.status in {Valide, Parfait})
      && (v.colour == Invalid <==> v.status == Deconseille)
  {
  }

  /** The red "invalid" card appears only for a cut whose dish is over the
      budget, and always then. */
  lemma InvalidOnlyOverCutBudget(goal: Goal, calories: int, budget: int)
    ensures Evaluate(goal, calories, budget).colour == Invalid <==> goal == Seche && calories > budget
  {
  }

  /** For a cut, the accepted dishes are exactly those from 100 kcal up to
      the budget. */
  lemma CutAcceptsBand(calories: int, budget: int)
    ensures Evaluate(Seche, calories, budget).status == Valide <==> 100 <= calories <= budget
  {
  }

  /** For mass gain, the accepted dishes are those from 300 kcal up to 1.3
      times the budget. */
  lemma MassGainAcceptsBand(calories: int, budget: int)
    ensures Evaluate(PriseDeMasse, calories, budget).status == Valide <==>
              300 <= calories && 10 * calories <= 13 * budget
  {
  }

  /** For mass gain the two warnings split the rest: INSUFFISANT exactly
      below 300 kcal, whatever the budget, and TROP RICHE exactly from 300
      kcal up when the dish is above 1.3 times the budget. */
  lemma MassGainBands(calories: int, budget: int)
    ensures Evaluate(PriseDeMasse, calories, budget).status == Insuffisant <==> calories < 300
    ensures Evaluate(PriseDeMasse, calories, budget).status == TropRiche <==>
              300 <= calories && 10 * calories > 13 * budget
  {
  }

  /** In maintenance, being within 50 kcal of the budget wins over every
      other test: with a 300 kcal budget a 340 kcal dish is PARFAIT although
      it is more than 1.1 times the budget. */
  lemma PerfectWinsOverHigh()
    ensures 10 * 340 > 11 * 300
    ensures Evaluate(Maintenance, 340, 300).status == Parfait
  {
  }

  /** In maintenance the four statuses split the calorie axis: PARFAIT
      strictly within 50 kcal of the budget, LÉGÈREMENT ÉLEVÉ above that
      band and above 1.1 times the budget, LÉGER below the band and below
      0.7 times the budget, VALIDE otherwise. */
  lemma MaintenanceBands(calories: int, budget: int)
    requires budget > 0
    ensures var s := Evaluate(Maintenance, calories, budget).status;
      && (s == Parfait <==> budget - 50 < calories < budget + 50)
      && (s == LegerementEleve <==> !(budget - 50 < calories < budget + 50) && 10 * calories > 11 * budget)
      && (s == Leger <==> !(budget - 50 < calories < budget + 50) && 10 * calories < 7 * budget)
  {
  }

  /** The "Restant" figure: `max(0, remaining_budget)`. */
  function ShownRemaining(budget: int, calories: int): (r: nat)
    ensures r >= Remaining(budget, calories)
    ensures Remaining(budget, calories) >= 0 ==> r == Remaining(budget, calories)
    ensures calories >= budget ==> r == 0
  {
    if Remaining(budget, calories) > 0 then Remaining(budget, calories) else 0
  }

  /** The value given to the meal progress bar:
      `min(min(calories / calorie_budget, 1.5), 1.0)`. */
  function MealProgress(calories: nat, budget: int): (p: real)
    requires budget > 0
    ensures 0.0 <= p <= 1.0
    ensures calories <= budget ==> p * budget as real == calories as real
    ensures calories >= budget ==> p == 1.0
  {
    var ratio := calories as real / budget as real;
    var capped := if ratio < 1.5 then ratio else 1.5;
    if capped < 1.0 then capped else 1.0
  }

  /** The value given to the daily progress bar:
      `min(daily_percentage / 100, 1.0)`. */
  function DailyProgress(calories: nat, dailyGoal: int): (p: real)
    requires dailyGoal > 0
    ensures 0.0 <= p <= 1.0
    ensures calories <= dailyGoal ==> p * dailyGoal as real == calories as real
    ensures calories >= dailyGoal ==> p == 1.0
  {
    var percentage := (calories as real / dailyGoal as real) * 100.0;
    if percentage / 100.0 < 1.0 then percentage / 100.0 else 1.0
  }

  /** The caption under the meal bar: by how many kcal and by what
      percentage the dish exceeds the budget, or the percentage of the
      budget it uses. */
  datatype Caption = Exceeds(kcal: int, percent: real) | Uses(percent: real)

  function MealCaption(calories: nat, budget: int): (c: Caption)
    requires budget > 0
    ensures c.Exceeds? <==> calories > budget
    ensures c.Exceeds? ==> c.kcal > 0 && c.kcal == calories - budget
    ensures c.Exceeds? ==> c.percent > 0.0 && c.percent * budget as real == c.kcal as real * 100.0
    ensures c.Uses? ==> 0.0 <= c.percent <= 100.0 && c.percent * budget as real == calories as real * 100.0
  {
    if calories > budget then Exceeds(calories - budget, (calories as real / budget as real - 1.0) * 100.0)
    else Uses((calories as real / budget as real) * 100.0)
  }

  /** Everything the analysis panel shows for one dish. */
  datatype Panel = Panel(verdict: Verdict, remaining: nat, mealBar: real, dailyBar: real, caption: Caption)

  /** The analysis panel of lines 239-356 for a dish of `calories` kcal. */
  function AnalysePanel(goal: Goal, calories: nat, budget: int, dailyGoal: int): (p: Panel)
    requires ValidInputs(budget, dailyGoal)
    ensures p.verdict == Evaluate(goal, calories, budget)
    ensures p.remaining as int == if calories < budget then budget - calories else 0
    ensures 0.0 <= p.mealBar <= 1.0 && 0.0 <= p.dailyBar <= 1.0
    ensures p.caption.Exceeds? <==> calories > budget
    ensures p.mealBar == 1.0 <==> calories >= budget
  {
    Panel(Evaluate(goal, calories, budget), ShownRemaining(budget, calories),
          MealProgress(calories, budget), DailyProgress(calories, dailyGoal), MealCaption(calories, budget))
  }
}
