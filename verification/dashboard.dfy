/** The dashboard page (`Dashboard.jsx`): the daily-progress bar and the table of
    foods ranked by protein per dollar. */
module Dashboard {
  import Sorting

  datatype FoodRow = FoodRow(
    name: string, protein: real, price: real, store: string, distance: string, perDollar: real)

  /** The hard-coded `foods` table (Dashboard.jsx:9-18). */
  const Foods: seq<FoodRow> := [
    FoodRow("Organic Tofu", 20.0, 3.99, "Whole Foods", "0.3 mi", 5.0),
    FoodRow("Red Lentils", 26.0, 2.49, "Trader Joes", "0.8 mi", 10.4),
    FoodRow("Chickpeas (canned)", 15.0, 1.29, "Safeway", "0.2 mi", 11.6),
    FoodRow("Quinoa", 8.0, 4.99, "Whole Foods", "0.3 mi", 1.6),
    FoodRow("Black Beans", 15.0, 0.99, "Walmart", "1.2 mi", 15.2),
    FoodRow("Tempeh", 31.0, 3.49, "Sprouts", "0.9 mi", 8.9),
    FoodRow("Edamame (frozen)", 18.0, 2.99, "Trader Joes", "0.8 mi", 6.0),
    FoodRow("Peanut Butter", 25.0, 4.49, "Costco", "2.1 mi", 5.6)
  ]

  /** The grams consumed today, a constant on this page. */
  const Consumed: real := 67.0

  /** `useState(120)`. */
  const InitialGoal: real := 120.0

  /** `Math.min((consumed / goal) * 100, 100)`. The goal comes from a number input and
      may be zero (67 / 0 is Infinity in JavaScript, so the bar is full) or negative. */
  function Progress(goal: real): (r: real)
    ensures r <= 100.0
    ensures r == 100.0 <==> 0.0 <= goal <= Consumed
    ensures r >= 0.0 <==> goal >= 0.0
    ensures (goal > Consumed || goal < 0.0) ==> r * goal == Consumed * 100.0
  {
    if goal == 0.0 then 100.0
    else
      var ratio := Consumed / goal * 100.0;
      if ratio < 100.0 then ratio else 100.0
  }

  /** The bar starts at 67 / 120 of the goal. */
  lemma InitialProgress()
    ensures Progress(InitialGoal) * 120.0 == 6700.0
  {
  }

  function PerDollar(f: FoodRow): real {
    f.perDollar
  }

  /** `foods.sort((a, b) => b.perDollar - a.perDollar)`: the rows the table renders. */
  function Ranked(foods: seq<FoodRow>): (r: seq<FoodRow>)
    ensures multiset(r) == multiset(foods)
    ensures Sorting.SortedDesc(r, PerDollar)
    ensures |r| > 0 ==> forall f | f in foods :: r[0].perDollar >= f.perDollar
  {
    var r := Sorting.SortDesc(foods, PerDollar);
    if |r| > 0 then Sorting.HeadIsMax(foods, r, PerDollar); r else r
  }

  /** A row whose value per dollar beats every other row heads the ranking. */
  lemma UniqueBestHeadsRanking(foods: seq<FoodRow>, best: FoodRow)
    requires best in foods
    requires forall f | f in foods && f != best :: f.perDollar < best.perDollar
    ensures |Ranked(foods)| == |foods| && Ranked(foods)[0] == best
  {
    var r := Ranked(foods);
    assert |r| == |multiset(r)| == |multiset(foods)| == |foods|;
    assert r[0] in multiset(foods);
  }

  /** The highlighted first row of the table is the "Best Value Today" card's food:
      Black Beans at Walmart, 15.2 g per dollar (Dashboard.jsx:96-98). */
  lemma BestValueIsFirstRow()
    ensures Ranked(Foods)[0] == FoodRow("Black Beans", 15.0, 0.99, "Walmart", "1.2 mi", 15.2)
  {
    var foods := Foods;
    UniqueBestHeadsRanking(foods, foods[4]);
  }
}
