/** The Discover page (`Discover.jsx`): a search box filtering the featured products,
    a favourites list and a category selector. */
module Discover {
  import opened Wrappers
  import opened Seqs

  datatype Product = Product(
    id: int, name: string, protein: real, price: real, rating: real, store: string, tag: string)

  /** `featuredProducts` (Discover.jsx:30-97), less the image and colour fields. */
  const FeaturedProducts: seq<Product> := [
    Product(1, "Organic Black Beans", 21.0, 2.49, 4.8, "Whole Foods", "Best Value"),
    Product(2, "Hemp Seeds", 31.0, 8.99, 4.9, "Sprouts", "High Protein"),
    Product(3, "Extra Firm Tofu", 20.0, 3.29, 4.7, "Trader Joe's", "Popular"),
    Product(4, "Red Lentils", 26.0, 3.99, 4.6, "Safeway", "Quick Cook"),
    Product(5, "Spirulina Powder", 57.0, 15.99, 4.5, "iHerb", "Superfood"),
    Product(6, "Tempeh Strips", 31.0, 4.49, 4.8, "Whole Foods", "Fermented")
  ]

  /** `p.name.toLowerCase().includes(searchQuery.toLowerCase())`. */
  predicate NameMatches(p: Product, query: string) {
    ContainsIgnoringCase(p.name, query)
  }

  /** The `filteredProducts` memo: an empty query (falsy in JavaScript) keeps every
      product; any other query keeps the products whose name contains it, ignoring
      case. */
  function FilteredProducts(products: seq<Product>, query: string): (r: seq<Product>)
    ensures query == "" ==> r == products
    ensures forall p | p in r :: p in products && (query == "" || NameMatches(p, query))
    ensures forall p | p in products && NameMatches(p, query) :: p in r
    ensures forall p | p in products ::
      multiset(r)[p] == if query == "" || NameMatches(p, query) then multiset(products)[p] else 0
  {
    if query == "" then products else Filter(products, p => NameMatches(p, query))
  }

  /** The filter keeps the products' relative order: filtering a concatenation is
      concatenating the filtered parts. */
  lemma FilteredProductsKeepsOrder(a: seq<Product>, b: seq<Product>, query: string)
    ensures FilteredProducts(a + b, query) == FilteredProducts(a, query) + FilteredProducts(b, query)
  {
    if query != "" {
      FilterConcat(a, b, p => NameMatches(p, query));
    }
  }

  /** The query's letter case does not matter. */
  lemma FilteredProductsIgnoresCase(products: seq<Product>, query: string)
    ensures FilteredProducts(products, Lower(query)) == FilteredProducts(products, query)
  {
    LowerIdempotent(query);
    if query != "" {
      FilterExtensional(products, p => NameMatches(p, Lower(query)), p => NameMatches(p, query));
    }
  }

  /** `toggleFavorite`: an id already present is removed (every copy of it); any other
      id is appended. */
  function ToggleFavorite(favorites: seq<int>, id: int): (r: seq<int>)
    ensures id in favorites ==> id !in r
    ensures id in favorites ==> forall x | x in favorites && x != id :: multiset(r)[x] == multiset(favorites)[x]
    ensures id in favorites ==> forall x | x in r :: x in favorites
    ensures id !in favorites ==> r == favorites + [id]
    ensures NoDuplicates(favorites) ==> NoDuplicates(r)
  {
    if id in favorites then Filter(favorites, f => f != id) else favorites + [id]
  }

  /** Toggling the same id twice restores the favourites as a set, and restores the
      list itself when the id was absent. */
  lemma {:induction false} ToggleTwice(favorites: seq<int>, id: int)
    ensures forall x :: x in ToggleFavorite(ToggleFavorite(favorites, id), id) <==> x in favorites
    ensures id !in favorites ==> ToggleFavorite(ToggleFavorite(favorites, id), id) == favorites
  {
    if id !in favorites {
      FilterConcat(favorites, [id], f => f != id);
      FilterAll(favorites, f => f != id);
    }
  }

  /** The category buttons: clicking the selected category clears the selection,
      clicking any other selects it. */
  function ClickCategory(selected: Option<int>, clicked: int): (r: Option<int>)
    ensures r == None <==> selected == Some(clicked)
    ensures r != None ==> r == Some(clicked)
  {
    if selected == Some(clicked) then None else Some(clicked)
  }

  /** Two clicks on the same category leave it selected only if it was selected before. */
  lemma ClickCategoryTwice(selected: Option<int>, clicked: int)
    ensures ClickCategory(ClickCategory(selected, clicked), clicked)
         == if selected == Some(clicked) then Some(clicked) else None
  {
  }

  /** The page's state. */
  datatype Page = Page(query: string, selectedCategory: Option<int>, favorites: seq<int>)

  /** The product cards shown: the memo reads only the search query. */
  function Shown(page: Page): seq<Product> {
    FilteredProducts(FeaturedProducts, page.query)
  }

  /** A category click changes the selection and nothing else; in particular the
      products shown stay the same. */
  function SelectCategory(page: Page, clicked: int): (r: Page)
    ensures r.selectedCategory == ClickCategory(page.selectedCategory, clicked)
    ensures r.(selectedCategory := page.selectedCategory) == page
    ensures Shown(r) == Shown(page)
  {
    page.(selectedCategory := ClickCategory(page.selectedCategory, clicked))
  }
}
