/**
 * The two calculators of the main screen: the food intake analyzer (a
 * case-insensitive, first-match lookup in the food table followed by
 * proportional scaling) and the walking calorie estimator.
 *
 * Lowercasing is a per-character function `lower` given by the caller.
 */
module Calculators {
  import opened Maybes

  /** One row of the food table: a name and its calories per 100 g. */
  datatype Food = Food(name: string, caloriesPer100g: real)

  /** What the intake analyzer reports. */
  datatype IntakeResult = Estimated(kcal: real) | FoodNotFound

  /** Multiplier of the walking formula, kcal per kg per km. */
  const WalkingFactor: real := 0.9

  /** Lowercases a string one character at a time. */
  function Lower(s: string, lower: char -> char): (r: string)
    ensures |r| == |s|
    ensures forall i :: 0 <= i < |r| ==> r[i] == lower(s[i])
  {
    seq(|s|, i requires 0 <= i < |s| => lower(s[i]))
  }

  /** A row matches when its lowercased name equals the lowercased query. */
  predicate NameMatches(f: Food, query: string, lower: char -> char)
  {
    Lower(f.name, lower) == Lower(query, lower)
  }

  /**
   * Index of the first row at or after `from` whose name matches the query,
   * or `Nothing` if no such row exists.
   */
  function FirstMatchFrom(table: seq<Food>, query: string, lower: char -> char, from: nat): (r: Maybe<nat>)
    requires from <= |table|
    ensures r.Just? ==> from <= r.value < |table| && NameMatches(table[r.value], query, lower)
    ensures r.Just? ==> forall j :: from <= j < r.value ==> !NameMatches(table[j], query, lower)
    ensures r.Nothing? <==> forall j :: from <= j < |table| ==> !NameMatches(table[j], query, lower)
    decreases |table| - from
  {
    if from == |table| then Nothing
    else if NameMatches(table[from], query, lower) then Just(from)
    else FirstMatchFrom(table, query, lower, from + 1)
  }

  /** Index of the first matching row of the whole table. */
  function FirstMatch(table: seq<Food>, query: string, lower: char -> char): (r: Maybe<nat>)
    ensures r.Just? ==> r.value < |table| && NameMatches(table[r.value], query, lower)
    ensures r.Just? ==> forall j :: 0 <= j < r.value ==> !NameMatches(table[j], query, lower)
    ensures r.Nothing? <==> forall j :: 0 <= j < |table| ==> !NameMatches(table[j], query, lower)
  {
    FirstMatchFrom(table, query, lower, 0)
  }

  /** Calories in `grams` of a food with `caloriesPer100g`, by proportion. */
  function IntakeFor(caloriesPer100g: real, grams: int): (kcal: real)
    requires grams >= 1
    ensures kcal * 100.0 == caloriesPer100g * grams as real
  {
    (caloriesPer100g / 100.0) * grams as real
  }

  /**
   * The intake analyzer: looks the food up, case-insensitively, taking the first
   * matching row, and scales its calories to the quantity; no match gives
   * "Food not found".
   */
  function AnalyzeIntake(table: seq<Food>, query: string, grams: int, lower: char -> char): (r: IntakeResult)
    requires grams >= 1
    ensures r.FoodNotFound? <==> forall j :: 0 <= j < |table| ==> !NameMatches(table[j], query, lower)
    ensures r.Estimated? ==>
              exists i :: 0 <= i < |table| && NameMatches(table[i], query, lower)
                       && (forall j :: 0 <= j < i ==> !NameMatches(table[j], query, lower))
                       && r.kcal == IntakeFor(table[i].caloriesPer100g, grams)
  {
    var found := FirstMatch(table, query, lower);
    if found.Nothing? then FoodNotFound
    else
      var i := found.value;
      var r := Estimated(IntakeFor(table[i].caloriesPer100g, grams));
      assert 0 <= i < |table| && NameMatches(table[i], query, lower)
             && (forall j :: 0 <= j < i ==> !NameMatches(table[j], query, lower))
             && r.kcal == IntakeFor(table[i].caloriesPer100g, grams);
      r
  }

  /** Two queries that lowercase alike get the same answer. */
  lemma AnalyzeIgnoresCase(table: seq<Food>, q1: string, q2: string, grams: int, lower: char -> char)
    requires grams >= 1
    requires Lower(q1, lower) == Lower(q2, lower)
    ensures AnalyzeIntake(table, q1, grams, lower) == AnalyzeIntake(table, q2, grams, lower)
  {
    assert forall j :: 0 <= j < |table| ==> (NameMatches(table[j], q1, lower) <==> NameMatches(table[j], q2, lower));
    FirstMatchSameKey(table, q1, q2, lower, 0);
  }

  /** Queries with the same lowercased key find the same first row. */
  lemma {:induction false} FirstMatchSameKey(table: seq<Food>, q1: string, q2: string, lower: char -> char, from: nat)
    requires from <= |table|
    requires Lower(q1, lower) == Lower(q2, lower)
    ensures FirstMatchFrom(table, q1, lower, from) == FirstMatchFrom(table, q2, lower, from)
    decreases |table| - from
  {
    if from < |table| {
      FirstMatchSameKey(table, q1, q2, lower, from + 1);
    }
  }

  /** A row listed after an earlier match never shadows it: appending rows does not change a found result. */
  lemma AppendedRowsDoNotShadow(table: seq<Food>, extra: seq<Food>, query: string, grams: int, lower: char -> char)
    requires grams >= 1
    requires AnalyzeIntake(table, query, grams, lower).Estimated?
    ensures AnalyzeIntake(table + extra, query, grams, lower) == AnalyzeIntake(table, query, grams, lower)
  {
    var i := FirstMatch(table, query, lower).value;
    var k := FirstMatch(table + extra, query, lower);
    assert (table + extra)[i] == table[i];
    assert k.Just?;
    assert forall j :: 0 <= j < |table| ==> (table + extra)[j] == table[j];
    assert k.value == i;
  }

  /** The intake estimate is linear in the quantity. */
  lemma IntakeIsLinear(caloriesPer100g: real, g1: int, g2: int)
    requires g1 >= 1 && g2 >= 1
    ensures IntakeFor(caloriesPer100g, g1 + g2) == IntakeFor(caloriesPer100g, g1) + IntakeFor(caloriesPer100g, g2)
  {
  }

  /** 100 g of a food has exactly its listed calories. */
  lemma IntakeOfHundredGrams(caloriesPer100g: real)
    ensures IntakeFor(caloriesPer100g, 100) == caloriesPer100g
  {
  }

  /** Calories burned walking `distanceKm` at `weightKg`. */
  function WalkingCalories(weightKg: int, distanceKm: real): (kcal: real)
    requires weightKg >= 1 && distanceKm >= 0.1
    ensures kcal > 0.0
    ensures kcal * 10.0 == 9.0 * weightKg as real * distanceKm
  {
    weightKg as real * distanceKm * WalkingFactor
  }

  /** A heavier walker, or a longer walk, never burns fewer calories. */
  lemma WalkingIsMonotone(w1: int, w2: int, d1: real, d2: real)
    requires 1 <= w1 <= w2 && 0.1 <= d1 <= d2
    ensures WalkingCalories(w1, d1) <= WalkingCalories(w2, d1)
    ensures WalkingCalories(w1, d1) <= WalkingCalories(w1, d2)
    ensures WalkingCalories(w1, d1) <= WalkingCalories(w2, d2)
  {
    var a, b := w1 as real, w2 as real;
    assert (b - a) * d1 >= 0.0;
    assert a * (d2 - d1) >= 0.0;
    assert (b - a) * d2 >= 0.0;
  }

  /** Walking is additive in distance: two legs burn what the whole walk burns. */
  lemma WalkingIsAdditive(w: int, d1: real, d2: real)
    requires w >= 1 && d1 >= 0.1 && d2 >= 0.1
    ensures WalkingCalories(w, d1 + d2) == WalkingCalories(w, d1) + WalkingCalories(w, d2)
  {
  }
}
