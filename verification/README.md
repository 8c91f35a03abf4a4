# Fitness calorie tracker: verified model of the predictor and the account rules

This project models two pieces of the fitness calorie tracker in Dafny.

- **The weight predictor** `predict_weight` (model/weight_model.py). It applies a row-count guard. It derives "days since start" and "net calories" features. It drops rows with no weight, fits a linear model and computes the future day. It averages the last three net-calorie values, then evaluates and rounds the prediction.
- **The account and calculator rules** of the Streamlit front end (app.py). There is a users table with a `logged_in` flag, stepped by signup, login and logout. There is a case-insensitive, first-match food lookup with proportional scaling, and there is the walking-calorie formula.

Modules:

- `Maybes` (maybe.dfy) defines `Maybe`, used for missing weights and "no match".
- `Stats` (stats.dfy) holds exact-real sum, mean, minimum, maximum and two-decimal rounding.
- `WeightModel` (weight_model.dfy) models `predict_weight`.
- `Accounts` (accounts.dfy) models the session flag, signup, login and logout.
- `Calculators` (calculators.dfy) models the food intake analyzer and the walking estimator.

Modelling choices:

- Dates are integer day numbers. Calorie and weight values are `real`.
- The regressor is a parameter `fit: seq<Sample> -> Linear`. The contracts describe the rows fed into the fit and how its coefficients are used. They say nothing about how the coefficients are chosen.
- Lowercasing is a per-character parameter `lower: char -> char`.
- Widget input, CSV files and on-screen messages become function arguments and returned outcome values.

The model follows the code as written:

- The guard counts all rows before rows with no weight are dropped (model/weight_model.py:10 and :20).
- The day origin is the earliest date over all rows, including dropped ones (:16).
- There is no special case for a single distinct date.
- "Last three" means the last three rows in storage order, not in date order (:33).

## Model

| member | source | states |
|---|---|---|
| WeightModel.Earliest | model/weight_model.py:16 | the origin date is the date of one of the input rows and no row has an earlier date |
| WeightModel.Featurize | model/weight_model.py:15-17 | one featured row per input row, in order; each day is the row's date minus the earliest date over all rows, so every day is non-negative and some row is at day 0; net calories are intake minus burned; the weight passes through unchanged |
| WeightModel.FeaturizeKeepsGaps | model/weight_model.py:16 | the gap between any two rows' days equals the gap between their dates |
| WeightModel.DaysAreDetermined | model/weight_model.py:16 | non-negative days, one day at 0 and date-preserving differences are enough to fix the days: any day assignment with these properties is the one computed |
| WeightModel.DropMissing | model/weight_model.py:20 | every kept row comes from a row with a weight and has the same features; the result is empty exactly when no row has a weight |
| WeightModel.DropMissingKeepsWeighted | model/weight_model.py:20 | every row with a weight is kept, with its features and weight |
| WeightModel.DropMissingAppend | model/weight_model.py:20 | the filter distributes over concatenation, so kept rows keep their relative order |
| WeightModel.DropMissingKeepsAllWeighted | model/weight_model.py:20 | when every weight is present, training row i is input row i |
| WeightModel.Training | model/weight_model.py:14-25 | every training row is a weighted input row, with features (days since the earliest date over all rows, net calories) and the weight as target; the set is empty iff no row has a weight |
| WeightModel.TrainingKeepsWeighted | model/weight_model.py:14-25 | every weighted input row appears in the training set, its day measured from the earliest date over all rows, including dropped ones |
| WeightModel.LatestDay | model/weight_model.py:31 | the largest training day is the day of one training row and is at least every training day |
| WeightModel.FutureDay | model/weight_model.py:31 | the future day is the latest training day plus the horizon |
| WeightModel.FutureDayNotBeforeTraining | model/weight_model.py:6-31 | with a non-negative horizon the future day is not before any training day; with the default horizon of 7 it is strictly after every one |
| WeightModel.RecentNets | model/weight_model.py:33 | the window holds the net calories of the last three training rows (all of them when there are fewer), in storage order, position by position |
| WeightModel.RecentAverageNet | model/weight_model.py:33 | the average is the arithmetic mean of the last three training rows' net calories (of the two or one there are, when fewer), and so lies between the smallest and the largest of them |
| WeightModel.RecentAverageIgnoresOlderRows | model/weight_model.py:33 | only the last three rows matter: prepending older rows leaves the average unchanged |
| WeightModel.RecentAverageDependsOnStorageOrder | model/weight_model.py:33 | the same four rows stored in two orders give averages 300 and 200, so "last three" follows storage order, not date order |
| WeightModel.Predict | model/weight_model.py:6-36 | the horizon defaults to 7 days; "need more data" with the fixed message exactly when there are fewer than 3 rows of any kind; with 3 or more rows and no weights, the fit is called with no rows; a forecast is a whole number of hundredths |
| WeightModel.ForecastIsFittedModelValue | model/weight_model.py:10-36 | three or more rows with at least one weight give a forecast, and it is within 0.005 of the model fitted to the weighted rows, evaluated at (future day, recent average net calories) |
| WeightModel.ShortHistoryIgnoresContents | model/weight_model.py:10-11 | with fewer than 3 rows the answer depends neither on the rows' contents nor on the regressor |
| WeightModel.OriginCountsDroppedRows | model/weight_model.py:15-20 | when the earliest row has no weight, the training days start at 2, not 0, because the origin was taken before the drop |
| WeightModel.GuardPassesUnweightedHistory | model/weight_model.py:10-28 | three rows without any weight pass the guard and reach the fit with an empty training set |
| WeightModel.PredictChecked | model/weight_model.py:10-36 | corrected guard: "need more data" exactly when fewer than 3 rows have a weight; a forecast always rests on at least 3 training rows and the fit is never called with none |
| WeightModel.PredictCheckedAgreesWhenEnoughWeights | model/weight_model.py:10-36 | whenever at least 3 rows have a weight, the corrected and the original predictor return the same answer |
| Stats.Mean | model/weight_model.py:33 | the mean of a non-empty column, counted once per entry, gives back the column's sum |
| Stats.MeanBetweenExtremes | model/weight_model.py:33 | the mean of a non-empty column lies between its minimum and its maximum |
| Stats.Round2 | model/weight_model.py:36 | the rounded value is a whole number of hundredths within 0.005 of the input |
| Stats.Round2Fixes | model/weight_model.py:36 | a value that already has at most two decimals is unchanged by rounding |
| Stats.Round2HalfToEven | model/weight_model.py:36 | an exact half-hundredth rounds to the neighbouring even number of hundredths |
| Accounts.InitialFlag | app.py:12-13 | a fresh session starts logged out; a flag already in the session is kept |
| Accounts.Registered | app.py:55 | a username is taken iff some row has exactly that username (case-sensitive) |
| Accounts.Matches | app.py:42-46 | credentials match iff a single row has both the username and the password |
| Accounts.SaveUser | app.py:22-26 | the new table is the old one with exactly one row, the given username and password, added at the end |
| Accounts.DoSignup | app.py:22-59 | an existing username is refused with "username taken" and nothing changes; otherwise exactly one row is appended, all existing rows are kept in order, and the flag is untouched |
| Accounts.DoLogin | app.py:40-51 | login succeeds iff some row matches both fields, and only then is the flag raised; otherwise the session is unchanged and "invalid credentials" is reported; the table never changes |
| Accounts.DoLogout | app.py:91 | logout clears the flag and leaves the table as it was |
| Accounts.Handle | app.py:31-91 | logged out, only login and signup act; logged in, only logout acts; any other button press changes nothing |
| Accounts.SignupThenLogin | app.py:40-59 | after signing up a new username, logging in with the same username and password succeeds |
| Accounts.SignupKeepsLogins | app.py:22-26 | any credentials that could log in before a signup can still log in after it |
| Accounts.SignupKeepsNamesUnique | app.py:53-59 | signup keeps usernames unique across the table |
| Accounts.HandleKeepsNamesUnique | app.py:31-91 | no button press creates a duplicate username |
| Accounts.RunKeepsNamesUnique | app.py:31-91 | any run of button presses starting from unique usernames ends with unique usernames |
| Accounts.RunOnlyAppends | app.py:22-26 | any run of button presses only appends: the original table is a prefix of the final one |
| Accounts.LogoutThenLogin | app.py:40-91 | from a logged-in session, logout followed by a valid login returns exactly the same session |
| Calculators.FirstMatchFrom | app.py:117-119 | returns the first matching row at or after the start index, or nothing exactly when no row from there matches |
| Calculators.FirstMatch | app.py:117-119 | returns the first row whose lowercased name equals the lowercased query, or nothing exactly when no row matches |
| Calculators.IntakeFor | app.py:114-120 | for a quantity of at least 1 g (the widget's minimum), the estimate is the calories per 100 g scaled in proportion to the grams |
| Calculators.AnalyzeIntake | app.py:113-123 | "food not found" exactly when no row matches; otherwise the estimate is the first matching row's calories scaled to the quantity |
| Calculators.AnalyzeIgnoresCase | app.py:117 | two queries that lowercase alike get the same answer |
| Calculators.FirstMatchSameKey | app.py:117 | queries with the same lowercased key find the same first row |
| Calculators.AppendedRowsDoNotShadow | app.py:117-119 | rows appended after a match never change the result |
| Calculators.IntakeIsLinear | app.py:120 | the estimate is additive in the quantity |
| Calculators.IntakeOfHundredGrams | app.py:120 | 100 g gives exactly the listed calories per 100 g |
| Calculators.WalkingCalories | app.py:130-135 | for inputs the widgets allow (weight at least 1, distance at least 0.1), the burn is positive and equals 0.9 kcal per kg per km |
| Calculators.WalkingIsMonotone | app.py:134 | the burn never decreases as weight or distance grows |
| Calculators.WalkingIsAdditive | app.py:134 | the burn is additive in distance |

## Findings

| source | as written | input that shows it | evidently intended | confidence | as-written member | corrected member |
|---|---|---|---|---|---|---|
| model/weight_model.py:10 | `len(df) < 3` counts every row before the rows with no weight are dropped at line 20 | three rows, none with a weight: the guard passes and the regressor is called with an empty training set (the library raises) | require at least three rows that have a weight, as the comment "Need at least 3 data points for a trend" and the message say | medium; not executed | WeightModel.GuardPassesUnweightedHistory | WeightModel.PredictChecked |

## Left out

- WeightModel.Predict: `NoTrainingRows` stands for the library error the regressor raises on an empty training set. Its exception type and message are not modelled.
- WeightModel.Predict: the regressor's internals are not modelled. The fit is an arbitrary function from training rows to coefficients, so nothing is said about its least-squares behaviour or about degenerate inputs (one distinct day, collinear features).
- Stats.Round2: rounds the exact real value half-to-even. Binary floating point and the float results of Python's `round` are not modelled.
- Calculators.Lower: lowercasing maps one character to one character. Unicode case mappings that change length are not modelled.
- Calculators.WalkingCalories: `0.9` is the exact real 9/10, not the binary float.
- Floating-point arithmetic in general: all values are exact reals.
- Date parsing (`pd.to_datetime`): dates are day numbers already.
- Missing intake or burned values: these are not modelled; only a missing weight is.
- The copy taken at model/weight_model.py:14 needs no model. Values are immutable, so the caller's table cannot change.
- Calculators.AnalyzeIntake and Calculators.WalkingCalories: return the exact value. The two-decimal `:.2f` formatting of the displayed message (app.py:121, :135) is display only and is not modelled.
- Streamlit rendering, page config, styles, sidebar navigation and `st.rerun`: these are UI only. Their messages are returned as outcome values.
- The Home page's target metrics (500 and 2200 kcal/day): these are display constants with no logic.
- CSV reading and writing and `st.cache_data`: the users and food tables are arguments. The users table in the model is the file as `save_user` writes it. It is not the cached read that `load_users` returns (app.py:18-20), which `save_user` never clears.
- Accounts.SignupThenLogin: describes a script that re-reads the users file. In the running app, the login match (app.py:42-46) reads the cached table. So a user who has just signed up is told "Invalid username or password" until the cache is cleared.
- Accounts.Handle: the duplicate check (app.py:55) and the login match (app.py:42-46) are modelled against the table as written. The running app checks them against the cached table, so until the cache is cleared a second signup of the same name passes the check. `save_user` also starts again from the cached table (app.py:23), so it overwrites a row added earlier in the same cache lifetime.
- Accounts.RunKeepsNamesUnique: holds for a script that re-reads the users file after every write, for the same caching reason.
- CSV type inference: for example, a numeric username read back as a number. This is not modelled.
- Password storage and security: passwords are plain strings compared for equality.
