# Food-IA: a Dafny model of the meal-recognition core

Food-IA is a demonstration app. It recognises a dish from a photo with a CNN, looks up the dish's calories, and grades the dish against a sports goal and a calorie budget. A small companion OCR script reads capital letters from an image.

This project models the parts of that system that decide something. The models and the properties proved about them are listed below.

- **Common** (`common.dfy`) holds shared helpers:
  - Python's `str.lower` on the characters the data uses;
  - substring tests and `os.path.join`;
  - list filtering and `[:k]`;
  - first-match search;
  - `np.argmax`;
  - the `/ 255.0` pixel scaling.
- **Tables** (`tables.dfy`) covers the CSV table as pandas sees it (cells may be missing, i.e. NaN), with:
  - `find_col`, the column resolver shared by the training script and the data loader;
  - the rule that adds `.jpg` to an image name without an image extension;
  - `unique()`, which keeps the first occurrence.
- **MealPredictor** (`meal_predictor.dfy`) covers `src/meal_predictor.py`:
  - `get_meal_calories`, with its ordered keyword buckets;
  - the `FoodRecognizer` object: its constructor, `load_model`, and `predict` with its top-K loop;
  - the lazily created process-wide recognizer (`get_recognizer`, `predict_meal`).
- **TrainModel** (`train_model.dfy`) covers the data side of `train_model.py`:
  - `load_and_prepare_data`: column detection, cleaning, the existence check of each image, and the minimum-images-per-class filter;
  - `load_image`;
  - `load_images_batch`, with its optional sample.
- **DataLoader** (`data_loader.dfy`) covers `src/data_loader.py`:
  - how the CSV file and the images folder are located;
  - `load_food_data`: the row selection, the label maps, the nutrition table, images and labels appended in step, and one-hot encoding.
- **DietAdvisor** (`diet_advisor.dfy`) covers `SportDietAdvisor.analyze_meal`: arg-max dish, calorie conversion and the coaching rules.
- **AppBudget** (`app_budget.dfy`) covers the meal evaluation in `app.py`:
  - the default budget per goal and meal, and the sidebar input ranges;
  - the status and colour chain;
  - the remaining budget, the two progress bars and the caption.
- **OcrEngine** (`ocr_engine.dfy`) covers `src/ocr_engine.py`:
  - the class-to-letter dictionary;
  - the stable left-to-right sort of contours;
  - the noise filter and the text accumulation of `predict_image`.

The file system, OpenCV, Keras and pickle are parameters of the model:
- `fileExists` stands for `os.path.exists`.
- `isDir` stands for `os.path.isdir`.
- `glob` stands for `glob.glob`.
- `read` stands for `cv2.imread` followed by the resize.
- `parse` stands for `float()` on a string.
- `box` stands for `cv2.boundingRect`.
- `predict` stands for the network's forward pass.
- The outcome of each artifact load is an input.

Where the source raises an exception, the model returns an explicit error value. Examples: `MissingColumns` for the KeyError, `RaisedKeyError`, `SampleRejected` and `PredictionFailed`. The one exception the pipeline does not reproduce is the KeyError of train_model.py:112: `TrainModel.LoadAndPrepareData` uses the corrected outcome (see "## Findings"), and `TrainModel.PrepareOutcomeAsWritten` models the code as written.

## Model

| member | source | states |
|---|---|---|
| Common.ArgMax | src/diet_advisor.py:25 | the index returned holds a largest score, and every earlier index holds a strictly smaller one (numpy's first maximum) |
| Common.NatToString | src/meal_predictor.py:134 | `str(idx)`: decimal digits only, no leading zero, and the digits read back as the number |
| Common.Normalise | train_model.py:142 | scaling keeps the length, puts every value in [0, 1], and each value times 255 gives back its byte |
| Tables.FindColumnSpec | train_model.py:60-68 | the resolved column is a header containing a candidate (ignoring case); None holds exactly when no header contains any candidate; when some header equals a candidate, the result equals a candidate, and every earlier candidate equals no header; when none does, the result is the first header in table order that contains a candidate |
| Tables.WithImageExtensionSpec | train_model.py:91 | a name that already ends in .jpg/.jpeg/.png (any case) is kept; any other gets ".jpg"; the result always has an image extension |
| Tables.WithImageExtensionIdempotent | train_model.py:91 | applying the extension rule twice gives the same name as once |
| Tables.Unique | src/data_loader.py:96 | every input value appears in the result, and the result has no duplicates |
| Tables.UniqueFromInput | src/data_loader.py:96 | every value of the result comes from the input |
| Tables.UniqueFirstAppearance | src/data_loader.py:96 | unique values are ordered by first appearance: a later one has not occurred before some occurrence of an earlier one |
| MealPredictor.KeywordEstimate | src/meal_predictor.py:161-175 | the estimate is one of the six constants; the buckets are tried in order on the lower-cased name and the first that matches decides: soup or salad 200, then starch 350, then protein 400, then fast food 500, then dessert 300; the default 250 comes exactly when none of the five matches |
| MealPredictor.MealCalories | src/meal_predictor.py:149-175 | a name present in the table gets the table's value; otherwise, and always without a table, it gets the keyword estimate |
| MealPredictor.EstimateIgnoresCase | src/meal_predictor.py:162 | a name and its lower-cased form get the same estimate |
| MealPredictor.RiceWithSteaks | src/meal_predictor.py:164-169 | "Rice with Steaks", which also mentions a protein keyword, gets the starch estimate 350 because that bucket is tested first |
| MealPredictor.ExactEntryBeatsKeywords | src/meal_predictor.py:158-159 | a soup that has a table entry gets the table's value, not the soup estimate |
| MealPredictor.ClassName | src/meal_predictor.py:134 | "Class " followed by the decimal digits of idx when no non-empty class list is loaded; classes[idx] when idx is in range; an IndexError (None) past the end |
| MealPredictor.FoodRecognizer.constructor | src/meal_predictor.py:25-32 | fields start empty and one load_model runs; loaded exactly when that load succeeds |
| MealPredictor.FoodRecognizer.LoadModel | src/meal_predictor.py:34-64 | True exactly when the weights load and neither optional file fails; the weights, encoder and class list change only to artifacts that loaded, the latter two only after the weights loaded (the class list also needs the encoder not to fail first); a True load sets model_loaded, and model_loaded is never cleared |
| MealPredictor.FoodRecognizer.Predict | src/meal_predictor.py:90-147 | `Ranked`: no model or no forward pass gives the empty failed result; otherwise the entries are the first ranked classes with name and 100 × probability, at most min(top_k, n) of them, by non-increasing confidence; success exactly when all min(top_k, n) names resolve, and a class past the end of the class list stops the list; meal and confidence are those of the first entry, or None and 0 |
| MealPredictor.RecognizerSlot.GetRecognizer | src/meal_predictor.py:181-186 | the first call builds and stores a fresh recognizer; later calls return the stored one unchanged |
| MealPredictor.RecognizerSlot.PredictMeal | src/meal_predictor.py:188-191 | the result is `Ranked` for the shared recognizer's loaded flag and class list with top_k = 3: names and 100 × probabilities of the first min(3, n) ranked classes, success exactly when all of them resolve, and the empty result without a loaded model or a forward pass; a recognizer built by this call is loaded exactly when its load succeeds |
| MealPredictor.GetRecognizerTwice | src/meal_predictor.py:179-186 | two calls of get_recognizer return the same object |
| TrainModel.DropIncomplete | train_model.py:81 | every kept row has both an image and a title cell |
| TrainModel.DropDuplicateImages | train_model.py:82 | no two kept rows share an image cell |
| TrainModel.CandidatesAt | train_model.py:90-100 | the record built for row i has the joined path of the extended image name, the row's dish and the extended name |
| TrainModel.BuildRecords | train_model.py:89-103 | records are the candidate records whose file exists, in row order; valid_count is their number; valid and missing counts sum to the row count |
| TrainModel.KeepFrequentClasses | train_model.py:111-122 | every kept record's dish has at least MIN_IMAGES_PER_CLASS records before filtering |
| TrainModel.ClassKeptIff | train_model.py:121-122 | a dish keeps all its records when it has at least 5, and none otherwise |
| TrainModel.PrepareOutcomeAsWritten | train_model.py:108-132 | as written, no valid image at all raises KeyError |
| TrainModel.PrepareOutcome | train_model.py:120-132 | never raises; (None, None, None) exactly when the class filter leaves nothing; otherwise the filtered records |
| TrainModel.NoValidImageRaises | train_model.py:109-112 | with no valid image, as written raises KeyError, while the corrected version reports no data |
| TrainModel.PrepareOutcomeAgrees | train_model.py:108-132 | both versions agree whenever at least one image exists |
| TrainModel.LoadAndPrepareData | train_model.py:46-132 | no CSV or a missing title/image column gives (None, None, None); otherwise the rows are cleaned, the existence loop runs, and the outcome is the corrected class-filter outcome (no record gives (None, None, None)), equal to the as-written outcome whenever at least one image exists; every returned path exists and both columns are headers of the table |
| TrainModel.LoadImage | train_model.py:134-145 | None exactly when reading fails; otherwise the bytes read scaled by 1/255 (`Normalise`), same size, values in [0, 1] |
| TrainModel.RowsToLoad | train_model.py:151-153 | without a (non-zero) sample size, all records; with one, min(size, n) records, the i-th being the record at the i-th of the distinct picked positions; a negative count is rejected |
| TrainModel.LoadImagesBatch | train_model.py:147-178 | X and y run in step with the rows whose image loads, X[i] being that row's image and y[i] its dish; failed counts the rest; (None, None) exactly when nothing loads |
| DataLoader.NamedDirs | src/data_loader.py:29-34 | the four named folders joined under the dataset path, in order |
| DataLoader.LocateDataset | src/data_loader.py:20-53 | FileNotFoundError exactly when no *.csv matches; otherwise the first CSV and the images folder of the chain |
| DataLoader.ImagesDirChain | src/data_loader.py:36-53 | the first named folder that exists; else the first listed sub-folder holding .jpg/.jpeg files; else the dataset path itself |
| DataLoader.SelectedRows | src/data_loader.py:86-87 | a prefix of the rows with an image cell, in order, of length `limit` cut by Python slice semantics; every row kept has an image cell |
| DataLoader.LabelMap | src/data_loader.py:97 | each dish maps to a position below the dish count, and that position holds the dish |
| DataLoader.LabelMapAt | src/data_loader.py:97 | the dish at position i gets label i |
| DataLoader.LabelMapsInverse | src/data_loader.py:97-98 | label_map and inv_label_map are inverse bijections between the dishes and 0..n-1 |
| DataLoader.Titles | src/data_loader.py:96 | one title cell per row, in row order |
| DataLoader.UniqueDishes | src/data_loader.py:96 | the unique dishes have no duplicates |
| DataLoader.LabelsFollowFirstAppearance | src/data_loader.py:96-97 | a dish first seen at or before row a, when the dish of row b has not appeared by then, gets a smaller label than row b's dish |
| DataLoader.EveryDishLabelled | src/data_loader.py:96-97 | every row's dish has a label below the number of dishes, so `label_map[dish_name]` never raises |
| DataLoader.NutritionDb | src/data_loader.py:102-116 | the table's keys are exactly the rows' dishes |
| DataLoader.NutritionLastWins | src/data_loader.py:116 | a dish's entry holds the calories of its last row (None without a calories column) |
| DataLoader.OneHot | src/data_loader.py:138 | a vector of n zeros with a one at the label |
| DataLoader.ToCategorical | src/data_loader.py:138 | one one-hot row per label |
| DataLoader.LoadedInStep | src/data_loader.py:121-127 | images and labels are appended together: both equal, position by position, those of the rows whose image loads |
| DataLoader.ProcessRows | src/data_loader.py:102-133 | the loop builds the nutrition table of all rows, and the images and labels of the rows whose image loads, in step |
| DataLoader.LoadSelectedRows | src/data_loader.py:89-140 | the five results: maps from the unique dishes, nutrition table of all rows, X[j] the scaled image and y[j] the one-hot label of the j-th row whose image loads |
| DataLoader.LoadFoodData | src/data_loader.py:56-140 | KeyError exactly when the title or image column is missing; otherwise the five results for the selected rows; the default `limit` is `DataLoader.DefaultLimit`, 500 |
| DietAdvisor.Grade | src/diet_advisor.py:36-57 | an advice sentence goes with every status except NEUTRE, and NEUTRE comes exactly for a goal other than the two known ones |
| DietAdvisor.WeightLossBands | src/diet_advisor.py:40-49 | for weight loss: VALIDE exactly in [200, budget], DECONSEILLE exactly above the budget, ATTENTION exactly below 200 within budget |
| DietAdvisor.MassGainHasNoUpperBound | src/diet_advisor.py:51-57 | for mass gain: VALIDE exactly from 400 up, INSUFFISANT exactly below 400 |
| DietAdvisor.CaloriesAsWritten | src/diet_advisor.py:31-34 | as written: a dish missing from the table gives 0; a None entry gives 0 (TypeError caught); a numeric cell gives its value; a string gives its parsed value, or 0 when it does not parse (ValueError caught); an empty calories cell gives NaN |
| DietAdvisor.Calories | src/diet_advisor.py:29-34 | the corrected conversion is never NaN; missing or empty calories give 0; otherwise it agrees with the code as written |
| DietAdvisor.AnalyseWith | src/diet_advisor.py:18-65 | a failed image raises; an empty prediction raises; an arg-max index without a label raises exactly then; otherwise the dish is the arg-max class, confidence is 100 × its score, and the status is the coaching grade of the converted calories |
| DietAdvisor.AnalyzeMeal | src/diet_advisor.py:12-65 | an analysis comes exactly when the prediction is non-empty and its arg-max has a label; it names that dish, confidence 100 × its score, the corrected calories and their coaching grade; the calories are finite, 0 for a dish missing from the table |
| DietAdvisor.AnalyzeMealAgrees | src/diet_advisor.py:31-34 | both versions agree unless the dish's calories cell is empty |
| DietAdvisor.EmptyCaloriesCellPasses | src/diet_advisor.py:31-57 | an empty calories cell is graded VALIDE for both goals as written; the corrected version grades it ATTENTION or INSUFFISANT |
| DietAdvisor.DefaultBudgetBoundary | src/diet_advisor.py:12 | with the defaults (weight loss, 600 kcal), 600 kcal is VALIDE and 601 is DECONSEILLE |
| AppBudget.DefaultBudget | app.py:84-103 | every default budget lies between 200 and 900 kcal |
| AppBudget.BudgetsOrderedByMeal | app.py:84-103 | within each goal: Snack < Petit-déjeuner < Dîner < Déjeuner |
| AppBudget.BudgetsOrderedByGoal | app.py:84-103 | for each meal: Sèche < Maintenance < Prise de masse |
| AppBudget.DefaultBudgetsAccepted | app.py:106-112 | every default budget is accepted by the budget input (50..2000) and lies on its 50-kcal grid |
| AppBudget.StatusesPerGoal | app.py:243-287 | each goal yields only its own statuses; the card is "valid" exactly for VALIDE or PARFAIT and "invalid" exactly for DÉCONSEILLÉ |
| AppBudget.InvalidOnlyOverCutBudget | app.py:243-247 | the "invalid" card appears exactly for a cut whose dish exceeds the budget |
| AppBudget.CutAcceptsBand | app.py:243-255 | for a cut, VALIDE exactly from 100 kcal up to the budget |
| AppBudget.MassGainAcceptsBand | app.py:257-268 | for mass gain, VALIDE exactly from 300 kcal up to 1.3 × budget |
| AppBudget.MassGainBands | app.py:257-268 | for mass gain, INSUFFISANT exactly below 300 kcal, and TROP RICHE exactly from 300 kcal up when calories > 1.3 × budget |
| AppBudget.PerfectWinsOverHigh | app.py:271-277 | PARFAIT is tested first: a 340 kcal dish on a 300 kcal budget is PARFAIT although above 1.1 × budget |
| AppBudget.MaintenanceBands | app.py:271-287 | maintenance: PARFAIT exactly within 50 kcal of the budget; outside it, LÉGÈREMENT ÉLEVÉ exactly above 1.1 × budget, LÉGER exactly below 0.7 × budget |
| AppBudget.ShownRemaining | app.py:327 | the shown remainder is never negative, equals the remainder when that is not negative, and is 0 once the dish reaches the budget |
| AppBudget.MealProgress | app.py:345-347 | the meal bar lies in [0, 1]; it is calories / budget up to the budget and full from there |
| AppBudget.DailyProgress | app.py:354-355 | the daily bar (from the percentage of line 240) lies in [0, 1]; it is calories / daily goal up to the goal and full from there |
| AppBudget.MealCaption | app.py:348-351 | the caption reports an excess exactly when calories > budget, by calories − budget > 0 kcal and the matching percentage; otherwise it reports the share used, in [0, 100] % |
| AppBudget.AnalysePanel | app.py:239-356 | the panel for inputs in range: the verdict of the chain, max(0, remaining), both bars in [0, 1], an excess caption exactly when over budget, and a full meal bar exactly from the budget on |
| OcrEngine.Range | src/ocr_engine.py:7 | range(n) as a set: exactly 0..n-1, n elements |
| OcrEngine.WordDictAlphabet | src/ocr_engine.py:7 | word_dict has the 26 keys 0..25, maps key i to chr(65 + i) in 'A'..'Z', and no two keys share a letter |
| OcrEngine.Insert | src/ocr_engine.py:16-17 | one insertion step adds exactly the new contour |
| OcrEngine.InsertSorted | src/ocr_engine.py:16-17 | inserting into a list sorted by x keeps it sorted |
| OcrEngine.InsertKeepsColumn | src/ocr_engine.py:16-17 | among contours of one x, the inserted one goes in front of those already there |
| OcrEngine.SortContours | src/ocr_engine.py:12-18 | sort_contours returns a permutation of its input ordered by non-decreasing x, and needs a non-empty list |
| OcrEngine.SortContoursStable | src/ocr_engine.py:16-17 | stability: contours with the same x leave in the order they came in |
| OcrEngine.LetterOf | src/ocr_engine.py:67-69 | a letter exactly when there are scores and their arg-max is a key of word_dict; it is the capital 65 + arg-max |
| OcrEngine.TextOf | src/ocr_engine.py:44-71 | the accumulated reading is never "image missing" |
| OcrEngine.TextOfAccepted | src/ocr_engine.py:46-71 | the text is read exactly when every contour with w > 10 and h > 10 gets a letter; the text then has one letter per such contour, in order |
| OcrEngine.FailureEndsReading | src/ocr_engine.py:67-69 | once a prediction raises, the whole reading fails |
| OcrEngine.PredictImage | src/ocr_engine.py:20-71 | no image exactly when imread fails; otherwise the loop reads exactly the text of the sorted contours (sorting only a non-empty list) |
| OcrEngine.AcceptedLeftToRight | src/ocr_engine.py:41-51 | the contours that produce letters are visited in non-decreasing x |

## Left out

- Keras, OpenCV, pickle and the file system are parameters. The model does not capture what they compute: the network's scores, image decoding and resizing, Otsu thresholding, contour finding, the ROI padding and resize, or the contents of the pickles.
- The CSV parser (`pd.read_csv`) is left out. The model starts from the parsed table. In `TrainModel.LoadAndPrepareData` a failed read is `None`, as train_model.py:50-54 catches it. `DataLoader.LoadFoodData` takes an already parsed table, so the uncaught exception `pd.read_csv` can raise at src/data_loader.py:62 is not modelled.
- `AppBudget.Evaluate` compares `calories > calorie_budget * 1.3`, `* 1.1` and `* 0.7` exactly, by cross-multiplying integers. Python compares against a rounded float product. The two can differ only when `10 × calories` equals `13`, `11` or `7 × budget`.
- AppBudget.MealProgress, AppBudget.DailyProgress and AppBudget.MealCaption use exact rationals where Python uses floats. Display rounding (`:.0f`, `:.1f`) is left out.
- AppBudget.AnalysePanel takes the dish's calories as an input. The app draws the dish at random from a built-in table (`meal_types_db`, `random.choice`), so that simulation is left out.
- The rest of `app.py` is left out: the Streamlit layout, HTML and CSS, the statistics and history tabs, the advice sentences, and the session history.
- DietAdvisor.Grade records only whether an advice sentence is given, not its text. The same holds for the app's advice strings.
- Common.Lower lower-cases ASCII and Latin-1 capitals only. Python's `str.lower` covers all of Unicode.
- Common.JoinPath joins with "/" as POSIX `os.path.join` does. Drive letters and absolute second arguments are not modelled.
- MealPredictor.FoodRecognizer.Predict takes the ranking from `np.argsort(probs)[::-1]` as an input. It requires that ranking to be a descending permutation. The order numpy gives to equal probabilities is not modelled.
- Title cells that are NaN are ordinary keys in the model. Pandas and Python dictionaries treat NaN keys by object identity.
- `preprocess_image` of `src/meal_predictor.py` is part of the forward pass parameter. The model keeps its two outcomes: None, or a prepared batch.
- Printing, progress messages and matplotlib display are left out.
- `train_model.py` beyond line 178 is left out: label encoding, the Keras model, training, evaluation and saving.
- The remaining scripts are not part of this model: `src/train.py`, `src/food_model.py`, `src/main.py` and the setup scripts.
- DataFrame index labels, and the `(idx + 1) % 1000` progress print, are left out.
- TrainModel.LoadAndPrepareData ends with the corrected `PrepareOutcome`: on a table with no image on disk it returns (None, None, None) where train_model.py:109-112 raises KeyError. The code as written is `TrainModel.PrepareOutcomeAsWritten`, and the method's result equals it whenever an image exists.
- The sample drawn by `DataFrame.sample(random_state=...)` is an input: the model takes any choice of distinct rows of the right size.

## Findings

| source | as written | input that shows it | evidently intended | confidence | as-written member | corrected member |
|---|---|---|---|---|---|---|
| src/diet_advisor.py:31-34 | `float(nutrition_db.get(dish, 0))` turns an empty calories cell (pandas NaN) into NaN without raising, and every later comparison with NaN is false | a dish whose calories cell is empty in the CSV; goal "perte_poids" or "prise_masse": it is graded VALIDE | missing calories count as 0, as the comment on line 30 says, so the dish is ATTENTION or INSUFFISANT | not executed; high | DietAdvisor.EmptyCaloriesCellPasses | DietAdvisor.AnalyzeMeal |
| train_model.py:108-112 | with no image found on disk, `images_data` is empty; `pd.DataFrame([])` has no columns, so `data_df['label']` raises KeyError before the `len(data_df) == 0` check | a CSV whose image files are all missing | return `(None, None, None)` as for an empty class filter | not executed; high | TrainModel.NoValidImageRaises | TrainModel.PrepareOutcome |
