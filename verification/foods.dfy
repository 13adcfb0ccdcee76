/** The `/foods` router: listing with search and filters, the category list, the
    top-protein list, the development seed and lookup by id. The table is the
    sequence of `foods` rows in insertion order. */
module Foods {
  import opened Wrappers
  import opened Seqs
  import opened Sorting
  import opened Http
  import opened Models

  const MaxListLimit := 100
  const DefaultListLimit := 50
  const MaxTopLimit := 50
  const DefaultTopLimit := 10

  function Protein(f: Food): real { f.proteinPer100g }

  /** A query parameter given and non-empty; an absent or empty one adds no filter. */
  predicate Given(q: Option<string>) {
    q.Some? && q.value != ""
  }

  /** The `WHERE` clause of the list endpoint: the name contains the search text
      ignoring ASCII case (`ILIKE '%search%'`), the category is equal to the one
      asked for, and the food is vegan when only vegan foods are wanted. */
  predicate Matches(f: Food, search: Option<string>, category: Option<string>, veganOnly: bool) {
    (Given(search) ==> ContainsIgnoringCase(f.name, search.value))
    && (Given(category) ==> f.category == Some(category.value))
    && (veganOnly ==> f.isVegan)
  }

  /** `GET /foods/`: the matching foods, highest protein first, at most `limit` of
      them; a limit above 100 is rejected before the query runs. Omitted query
      parameters take the endpoint's defaults: no search, no category, vegan and
      non-vegan foods, and 50 rows. */
  function ListFoods(foods: seq<Food>, search: Option<string> := None, category: Option<string> := None,
                     veganOnly: bool := false, limit: int := DefaultListLimit)
    : (r: Result<seq<Food>, ApiError>)
    ensures r.Err? <==> limit > MaxListLimit
    ensures r.Err? ==> r.error == Unprocessable("limit")
    ensures r.Ok? ==> forall f | f in r.value :: f in foods && Matches(f, search, category, veganOnly)
    ensures r.Ok? ==> SortedDesc(r.value, Protein)
    ensures r.Ok? ==> multiset(r.value) <= multiset(foods)
    ensures r.Ok? && limit >= 0 ==> |r.value| <= limit
    ensures r.Ok? ==> forall f | f in foods && Matches(f, search, category, veganOnly) && f !in r.value
                        :: |r.value| == limit && forall g | g in r.value :: Protein(g) >= Protein(f)
  {
    if limit > MaxListLimit then Err(Unprocessable("limit"))
    else
      var matching := Filter(foods, f => Matches(f, search, category, veganOnly));
      var top := TopBy(matching, Protein, limit);
      Ok(top)
  }

  /** The distinct non-null categories of `foods`, each where it first occurs. */
  function Categories(foods: seq<Food>): (r: seq<string>)
    ensures forall c | c in r :: exists f | f in foods :: f.category == Some(c)
    ensures forall f | f in foods && f.category.Some? :: f.category.value in r
    ensures forall i, j | 0 <= i < j < |r| :: r[i] != r[j]
  {
    if |foods| == 0 then []
    else
      var init := foods[..|foods| - 1];
      var last := foods[|foods| - 1];
      var rest := Categories(init);
      assert forall f | f in foods :: f in init || f == last;
      if last.category.Some? && last.category.value !in rest then rest + [last.category.value] else rest
  }

  /** `GET /foods/top-protein`: the list endpoint with no search and no category,
      vegan only by default, at most 50 rows. */
  function TopProtein(foods: seq<Food>, limit: int := DefaultTopLimit, veganOnly: bool := true)
    : (r: Result<seq<Food>, ApiError>)
    ensures r.Err? <==> limit > MaxTopLimit
    ensures r.Err? ==> r.error == Unprocessable("limit")
    ensures r.Ok? ==> forall f | f in r.value :: f in foods && (veganOnly ==> f.isVegan)
    ensures r.Ok? ==> SortedDesc(r.value, Protein)
    ensures r.Ok? && limit >= 0 ==> |r.value| <= limit
  {
    if limit > MaxTopLimit then Err(Unprocessable("limit"))
    else
      var candidates := Filter(foods, (f: Food) => veganOnly ==> f.isVegan);
      var top := TopBy(candidates, Protein, limit);
      Ok(top)
  }

  /** With its query parameters omitted, the list endpoint answers with at most 50
      foods, and leaves a food out only when it has 50 foods with at least as much
      protein. */
  lemma ListFoodsDefaults(foods: seq<Food>)
    ensures ListFoods(foods).Ok? && |ListFoods(foods).value| <= DefaultListLimit
    ensures forall f | f in foods && f !in ListFoods(foods).value ::
              |ListFoods(foods).value| == DefaultListLimit
              && forall g | g in ListFoods(foods).value :: Protein(g) >= Protein(f)
  {
    assert forall f | f in foods :: Matches(f, None, None, false);
  }

  /** With its query parameters omitted, the top-protein endpoint answers with at
      most 10 foods, all of them vegan. */
  lemma TopProteinDefaultsToVegan(foods: seq<Food>)
    ensures TopProtein(foods).Ok?
    ensures forall f | f in TopProtein(foods).value :: f.isVegan
    ensures |TopProtein(foods).value| <= DefaultTopLimit
  {
  }

  /** Within its own bound the top-protein endpoint answers exactly as the list
      endpoint with the same vegan flag and limit and no other filter. */
  lemma TopProteinIsUnfilteredList(foods: seq<Food>, limit: int, veganOnly: bool)
    requires limit <= MaxTopLimit
    ensures TopProtein(foods, limit, veganOnly) == ListFoods(foods, None, None, veganOnly, limit)
  {
    FilterExtensional(foods, (f: Food) => veganOnly ==> f.isVegan, f => Matches(f, None, None, veganOnly));
  }

  /** An entry of the seed list: the columns it sets. */
  datatype SeedFood = SeedFood(name: string, protein: real, category: string, isVegan: bool)

  const SeedData: seq<SeedFood> := [
    SeedFood("Tofu (Firm)", 17.3, "Soy Products", true),
    SeedFood("Tempeh", 20.3, "Soy Products", true),
    SeedFood("Edamame", 11.9, "Soy Products", true),
    SeedFood("Red Lentils", 24.6, "Legumes", true),
    SeedFood("Black Beans", 21.6, "Legumes", true),
    SeedFood("Chickpeas", 19.3, "Legumes", true),
    SeedFood("Peanuts", 25.8, "Nuts & Seeds", true),
    SeedFood("Almonds", 21.2, "Nuts & Seeds", true),
    SeedFood("Hemp Seeds", 31.6, "Nuts & Seeds", true),
    SeedFood("Chia Seeds", 16.5, "Nuts & Seeds", true),
    SeedFood("Quinoa", 14.1, "Grains", true),
    SeedFood("Oats", 16.9, "Grains", true),
    SeedFood("Seitan", 75.0, "Wheat Protein", true),
    SeedFood("Spirulina", 57.5, "Supplements", true),
    SeedFood("Nutritional Yeast", 50.0, "Supplements", true),
    SeedFood("Pea Protein Powder", 80.0, "Supplements", true),
    SeedFood("Greek Yogurt", 10.0, "Dairy", false),
    SeedFood("Cottage Cheese", 11.1, "Dairy", false)
  ]

  /** The reply of the seed endpoint. */
  datatype SeedReply = SeedReply(message: string, count: int)

  /** `POST /foods/seed`: a table that already has a row is left alone and its size
      reported; an empty one receives the seed list, numbered from 1. */
  function SeedFoods(foods: seq<Food>): (r: (seq<Food>, SeedReply))
    ensures |foods| > 0 ==> r.0 == foods && r.1 == SeedReply("Foods already seeded", |foods|)
    ensures |foods| == 0 ==> r.1 == SeedReply("Foods seeded successfully", |SeedData|)
    ensures |foods| == 0 ==> |r.0| == |SeedData| && UniqueIds(r.0, FoodId)
    ensures |foods| == 0 ==> forall i | 0 <= i < |SeedData| ::
              r.0[i] == Food(i + 1, SeedData[i].name, SeedData[i].protein, Some(SeedData[i].category), SeedData[i].isVegan, None)
  {
    if |foods| > 0 then (foods, SeedReply("Foods already seeded", |foods|))
    else
      var rows := seq(|SeedData|, i requires 0 <= i < |SeedData| =>
        Food(i + 1, SeedData[i].name, SeedData[i].protein, Some(SeedData[i].category), SeedData[i].isVegan, None));
      (rows, SeedReply("Foods seeded successfully", |SeedData|))
  }

  /** Seeding twice leaves the table as seeding once, and the second call reports it
      already seeded with the seed list's size. */
  lemma SeedIdempotent(foods: seq<Food>)
    ensures SeedFoods(SeedFoods(foods).0).0 == SeedFoods(foods).0
    ensures |foods| == 0 ==> SeedFoods(SeedFoods(foods).0).1 == SeedReply("Foods already seeded", |SeedData|)
  {
    assert |SeedData| == 18;
  }

  /** `GET /foods/{food_id}`: the food with the id, or 404 "Food not found". */
  function GetFood(foods: seq<Food>, id: int): (r: Result<Food, ApiError>)
    ensures r.Err? <==> forall f | f in foods :: f.id != id
    ensures r.Err? ==> r.error == NotFound("Food not found")
    ensures r.Ok? ==> r.value in foods && r.value.id == id
  {
    match FindById(foods, FoodId, id)
    case None => Err(NotFound("Food not found"))
    case Some(f) => Ok(f)
  }

  /** With unique ids, looking up the id of any row finds that row. */
  lemma GetFoodFindsRow(foods: seq<Food>, i: nat)
    requires i < |foods|
    requires UniqueIds(foods, FoodId)
    ensures GetFood(foods, foods[i].id) == Ok(foods[i])
  {
    FindByIdFindsRow(foods, FoodId, i);
  }
}
