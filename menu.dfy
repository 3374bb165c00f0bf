/** The menu page: the favourite toggle, the search/cuisine filter and the
    sort of the visible items, the cuisine list and the Clear button. */
module Menu {
  import Text
  import Sorting

  /** A card of the static menu; prices are whole yen. */
  datatype MenuItem = MenuItem(id: int, name: string, category: string, price: int, rating: real)

  /** The page's filter state and the favourite ids. */
  datatype MenuState = MenuState(searchTerm: string, cuisine: string, priceRange: string, sortBy: string, favorites: seq<int>)

  const Popular := "popular"
  const PriceLow := "price-low"
  const PriceHigh := "price-high"

  /** The state the page starts in. */
  function Initial(): (st: MenuState)
    ensures st.searchTerm == "" && st.cuisine == "" && st.priceRange == "" && st.sortBy == Popular
    ensures st.favorites == []
  {
    MenuState("", "", "", Popular, [])
  }

  // ---- toggleFavorite ----

  /** `prev.filter(fav => fav !== id)`. */
  function Without(favs: seq<int>, id: int): (r: seq<int>)
    ensures forall x :: x in r <==> x in favs && x != id
  {
    Sorting.Filter(favs, (fav: int) => fav != id)
  }

  /** `toggleFavorite(id)`: a present id is removed (every copy), an absent
      one appended. */
  function ToggleFavorite(favs: seq<int>, id: int): (r: seq<int>)
    ensures id in r <==> id !in favs
    ensures forall x :: x != id ==> (x in r <==> x in favs)
    ensures id !in favs ==> r == favs + [id]
  {
    if id in favs then Without(favs, id) else favs + [id]
  }

  /** Toggling the same id twice restores which ids are favourites. */
  lemma ToggleTwiceMembership(favs: seq<int>, id: int)
    ensures forall x :: x in ToggleFavorite(ToggleFavorite(favs, id), id) <==> x in favs
  {
  }

  /** No id appears twice. */
  predicate Distinct(favs: seq<int>) {
    forall i, j :: 0 <= i < j < |favs| ==> favs[i] != favs[j]
  }

  /** Starting from an id that is not a favourite, toggling it on and off
      gives back exactly the same list. */
  lemma ToggleOnOffRestores(favs: seq<int>, id: int)
    requires id !in favs
    ensures ToggleFavorite(ToggleFavorite(favs, id), id) == favs
  {
    var p := (fav: int) => fav != id;
    Sorting.FilterSnoc(favs, id, p);
    Sorting.FilterKeepsAll(favs, p);
  }

  /** With distinct ids, toggling one off and on moves it to the end. */
  lemma ToggleOffOnMovesToEnd(favs: seq<int>, id: int)
    requires Distinct(favs) && id in favs
    ensures ToggleFavorite(ToggleFavorite(favs, id), id) == Without(favs, id) + [id]
  {
  }

  /** Toggling keeps the favourite ids distinct. */
  lemma ToggleKeepsDistinct(favs: seq<int>, id: int)
    requires Distinct(favs)
    ensures Distinct(ToggleFavorite(favs, id))
  {
    if id in favs {
      FilterKeepsDistinct(favs, (fav: int) => fav != id);
    }
  }

  lemma {:induction false} FilterKeepsDistinct(favs: seq<int>, p: int -> bool)
    requires Distinct(favs)
    ensures Distinct(Sorting.Filter(favs, p))
  {
    if favs != [] {
      var tail := favs[1..];
      assert Distinct(tail) by {
        forall i, j | 0 <= i < j < |tail| ensures tail[i] != tail[j] {
          assert tail[i] == favs[i + 1] && tail[j] == favs[j + 1];
        }
      }
      FilterKeepsDistinct(tail, p);
      assert favs[0] !in tail;
      assert favs[0] !in Sorting.Filter(tail, p);
    }
  }

  // ---- filteredItems ----

  /** `item.name.toLowerCase().includes(searchTerm.toLowerCase())`. */
  predicate MatchesSearch(item: MenuItem, searchTerm: string) {
    Text.Includes(Text.ToLower(item.name), Text.ToLower(searchTerm))
  }

  /** `!cuisine || item.category === cuisine`. */
  predicate MatchesCuisine(item: MenuItem, cuisine: string) {
    cuisine == "" || item.category == cuisine
  }

  /** The `filter` step of `filteredItems`. */
  function FilterItems(items: seq<MenuItem>, searchTerm: string, cuisine: string): (r: seq<MenuItem>)
    ensures forall x :: x in r <==> x in items && MatchesSearch(x, searchTerm) && MatchesCuisine(x, cuisine)
    ensures multiset(r) <= multiset(items)
  {
    Sorting.Filter(items, (x: MenuItem) => MatchesSearch(x, searchTerm) && MatchesCuisine(x, cuisine))
  }

  function NegRating(x: MenuItem): real {
    -x.rating
  }

  function PriceKey(x: MenuItem): real {
    x.price as real
  }

  function NegPrice(x: MenuItem): real {
    -(x.price as real)
  }

  /** The `sort` step of `filteredItems`: "popular" by rating, highest
      first; "price-low" cheapest first; "price-high" dearest first; any
      other value compares everything as equal and keeps the order. */
  function SortItems(items: seq<MenuItem>, sortBy: string): (r: seq<MenuItem>)
    ensures multiset(r) == multiset(items) && |r| == |items|
    ensures sortBy == Popular ==> forall i, j :: 0 <= i < j < |r| ==> r[i].rating >= r[j].rating
    ensures sortBy == PriceLow ==> forall i, j :: 0 <= i < j < |r| ==> r[i].price <= r[j].price
    ensures sortBy == PriceHigh ==> forall i, j :: 0 <= i < j < |r| ==> r[i].price >= r[j].price
    ensures sortBy != Popular && sortBy != PriceLow && sortBy != PriceHigh ==> r == items
  {
    if sortBy == Popular then
      var r := Sorting.SortBy(items, NegRating);
      assert forall i, j :: 0 <= i < j < |r| ==> NegRating(r[i]) <= NegRating(r[j]);
      r
    else if sortBy == PriceLow then
      var r := Sorting.SortBy(items, PriceKey);
      assert forall i, j :: 0 <= i < j < |r| ==> PriceKey(r[i]) <= PriceKey(r[j]);
      r
    else if sortBy == PriceHigh then
      var r := Sorting.SortBy(items, NegPrice);
      assert forall i, j :: 0 <= i < j < |r| ==> NegPrice(r[i]) <= NegPrice(r[j]);
      r
    else items
  }

  /** `filteredItems` as the page computes it: the price-range selection
      takes no part. */
  function VisibleAsWritten(items: seq<MenuItem>, st: MenuState): (r: seq<MenuItem>)
    ensures forall x :: x in r <==> x in items && MatchesSearch(x, st.searchTerm) && MatchesCuisine(x, st.cuisine)
    ensures multiset(r) == multiset(FilterItems(items, st.searchTerm, st.cuisine))
    ensures multiset(r) <= multiset(items)
    ensures st.sortBy == Popular ==> forall i, j :: 0 <= i < j < |r| ==> r[i].rating >= r[j].rating
    ensures st.sortBy == PriceLow ==> forall i, j :: 0 <= i < j < |r| ==> r[i].price <= r[j].price
    ensures st.sortBy == PriceHigh ==> forall i, j :: 0 <= i < j < |r| ==> r[i].price >= r[j].price
    ensures st.sortBy != Popular && st.sortBy != PriceLow && st.sortBy != PriceHigh ==>
      r == FilterItems(items, st.searchTerm, st.cuisine)
  {
    var kept := FilterItems(items, st.searchTerm, st.cuisine);
    var r := SortItems(kept, st.sortBy);
    SameElements(r, kept);
    r
  }

  /** Equal multisets have the same members. */
  lemma SameElements(a: seq<MenuItem>, b: seq<MenuItem>)
    requires multiset(a) == multiset(b)
    ensures forall x :: x in a <==> x in b
  {
    forall x ensures x in a <==> x in b {
      assert x in a <==> x in multiset(a);
      assert x in b <==> x in multiset(b);
    }
  }

  /** Every name contains the empty search term. */
  lemma EmptySearchMatches(item: MenuItem)
    ensures MatchesSearch(item, "")
  {
    assert Text.ToLower("") == "";
    Text.IncludesEmpty(Text.ToLower(item.name));
  }

  /** With "Under ¥700" selected, a dish of ¥700 or more is still shown. */
  lemma PriceRangeIgnored(items: seq<MenuItem>, st: MenuState, x: MenuItem)
    requires st.searchTerm == "" && st.cuisine == "" && st.priceRange == "low"
    requires x in items && x.price >= 700
    ensures x in VisibleAsWritten(items, st)
  {
    EmptySearchMatches(x);
  }

  /** The price-range options: "low" is under ¥700, "mid" ¥700 to ¥850,
      "high" over ¥850, and "" (or anything else) every price. */
  predicate InPriceRange(price: int, priceRange: string) {
    if priceRange == "low" then price < 700
    else if priceRange == "mid" then 700 <= price <= 850
    else if priceRange == "high" then price > 850
    else true
  }

  /** The three named ranges split the prices: every price is in exactly
      one of them, and the empty option takes them all. */
  lemma PriceRangesPartition(price: int)
    ensures InPriceRange(price, "low") || InPriceRange(price, "mid") || InPriceRange(price, "high")
    ensures !(InPriceRange(price, "low") && InPriceRange(price, "mid"))
    ensures !(InPriceRange(price, "mid") && InPriceRange(price, "high"))
    ensures !(InPriceRange(price, "low") && InPriceRange(price, "high"))
    ensures InPriceRange(price, "")
  {
  }

  /** The visible items with the price range applied as the options
      describe. */
  function Visible(items: seq<MenuItem>, st: MenuState): (r: seq<MenuItem>)
    ensures forall x :: x in r <==>
      x in items && MatchesSearch(x, st.searchTerm) && MatchesCuisine(x, st.cuisine) && InPriceRange(x.price, st.priceRange)
    ensures multiset(r) <= multiset(items)
    ensures st.sortBy == Popular ==> forall i, j :: 0 <= i < j < |r| ==> r[i].rating >= r[j].rating
    ensures st.sortBy == PriceLow ==> forall i, j :: 0 <= i < j < |r| ==> r[i].price <= r[j].price
    ensures st.sortBy == PriceHigh ==> forall i, j :: 0 <= i < j < |r| ==> r[i].price >= r[j].price
  {
    var shown := Sorting.Filter(FilterItems(items, st.searchTerm, st.cuisine), (x: MenuItem) => InPriceRange(x.price, st.priceRange));
    var r := SortItems(shown, st.sortBy);
    SameElements(r, shown);
    r
  }

  /** Without a price range both agree on what is shown. */
  lemma NoPriceRangeAgrees(items: seq<MenuItem>, st: MenuState)
    requires st.priceRange == ""
    ensures forall x :: x in Visible(items, st) <==> x in VisibleAsWritten(items, st)
  {
  }

  /** "Under ¥700" shows no dish of ¥700 or more. */
  lemma LowRangeHidesDearDishes(items: seq<MenuItem>, st: MenuState, x: MenuItem)
    requires st.priceRange == "low" && x.price >= 700
    ensures x !in Visible(items, st)
  {
  }

  // ---- categories ----

  /** `[...new Set(menuItems.map(item => item.category))]`: each category once,
      in order of first appearance. */
  function Categories(items: seq<MenuItem>): (r: seq<string>)
    ensures forall c :: c in r <==> exists k :: 0 <= k < |items| && items[k].category == c
    ensures forall i, j :: 0 <= i < j < |r| ==> r[i] != r[j]
  {
    if items == [] then []
    else
      var n := |items| - 1;
      var before := Categories(items[..n]);
      assert forall k :: 0 <= k < n ==> items[..n][k] == items[k];
      if items[n].category in before then before else before + [items[n].category]
  }

  /** Every item's category is offered exactly once. */
  lemma CategoryOfferedOnce(items: seq<MenuItem>, k: nat)
    requires k < |items|
    ensures exists i :: 0 <= i < |Categories(items)| && Categories(items)[i] == items[k].category
    ensures forall i, j :: (0 <= i < |Categories(items)| && 0 <= j < |Categories(items)| &&
      Categories(items)[i] == items[k].category && Categories(items)[j] == items[k].category) ==> i == j
  {
    var r := Categories(items);
    assert items[k].category in r;
  }

  // ---- Clear ----

  /** The Clear button: the search term, cuisine and price range become empty
      and the sort "popular"; the favourites stay. */
  function Clear(st: MenuState): (r: MenuState)
    ensures r.searchTerm == "" && r.cuisine == "" && r.priceRange == "" && r.sortBy == Popular
    ensures r.favorites == st.favorites
  {
    st.(searchTerm := "", cuisine := "", priceRange := "", sortBy := Popular)
  }

  /** After Clear the page shows the whole menu again, most popular first;
      so does the corrected list. */
  lemma ClearShowsWholeMenu(items: seq<MenuItem>, st: MenuState)
    ensures multiset(VisibleAsWritten(items, Clear(st))) == multiset(items)
    ensures var r := VisibleAsWritten(items, Clear(st));
      forall i, j :: 0 <= i < j < |r| ==> r[i].rating >= r[j].rating
    ensures multiset(Visible(items, Clear(st))) == multiset(items)
    ensures var r := Visible(items, Clear(st));
      forall i, j :: 0 <= i < j < |r| ==> r[i].rating >= r[j].rating
  {
    forall x: MenuItem ensures MatchesSearch(x, "") {
      EmptySearchMatches(x);
    }
    var p := (x: MenuItem) => MatchesSearch(x, "") && MatchesCuisine(x, "");
    Sorting.FilterKeepsAll(items, p);
    Sorting.FilterKeepsAll(items, (x: MenuItem) => InPriceRange(x.price, ""));
  }
}
