/** The favourites endpoints: adding and removing a favourite while keeping
    each dish's denormalised `favoriteCount` in step with the favourite rows,
    the batch membership check, the list's query parameters and pagination,
    and the per-category statistics. */
module FavoriteController {
  import opened Wrappers
  import opened FavoriteFood
  import DishModel
  import Pagination
  import Sorting

  type Catalog = map<Id, DishModel.Dish>

  /** The number of favourite rows naming dish `d`, over every user. */
  function CountFor(rows: seq<Favorite>, d: Id): nat {
    if |rows| == 0 then 0
    else CountFor(rows[..|rows| - 1], d) + (if rows[|rows| - 1].dishId == d then 1 else 0)
  }

  lemma {:induction false} CountConcat(a: seq<Favorite>, b: seq<Favorite>, d: Id)
    ensures CountFor(a + b, d) == CountFor(a, d) + CountFor(b, d)
    decreases |b|
  {
    if |b| > 0 {
      var b' := b[..|b| - 1];
      assert (a + b)[..|a + b| - 1] == a + b';
      CountConcat(a, b', d);
    } else {
      assert a + b == a;
    }
  }

  /** The counter invariant: every catalogued dish counts exactly the rows
      that name it. */
  ghost predicate Counted(rows: seq<Favorite>, dishes: Catalog) {
    forall d :: d in dishes ==> dishes[d].favoriteCount == CountFor(rows, d)
  }

  /** `Dish.findByIdAndUpdate(d, { $inc: { favoriteCount: delta } })`: an
      unknown id matches no document and changes nothing. */
  function Bump(dishes: Catalog, d: Id, delta: int): (r: Catalog)
    ensures r.Keys == dishes.Keys
    ensures d in dishes ==> r[d] == dishes[d].(favoriteCount := dishes[d].favoriteCount + delta)
    ensures forall e :: e in dishes && e != d ==> r[e] == dishes[e]
  {
    if d in dishes then dishes[d := dishes[d].(favoriteCount := dishes[d].favoriteCount + delta)]
    else dishes
  }

  /** Appending a row for a dish and incrementing that dish's count keeps the
      counter invariant. */
  lemma AddKeepsCounted(rows: seq<Favorite>, dishes: Catalog, row: Favorite)
    requires Counted(rows, dishes)
    ensures Counted(rows + [row], Bump(dishes, row.dishId, 1))
  {
    var rows' := rows + [row];
    assert rows'[..|rows'| - 1] == rows;
  }

  /** `rows` without the row at index `i`. */
  function RemoveAt(rows: seq<Favorite>, i: nat): (r: seq<Favorite>)
    requires i < |rows|
    ensures |r| == |rows| - 1
    ensures forall k :: 0 <= k < i ==> r[k] == rows[k]
    ensures forall k :: i <= k < |r| ==> r[k] == rows[k + 1]
  {
    rows[..i] + rows[i + 1..]
  }

  /** Deleting one row and decrementing its dish's count keeps the counter
      invariant. */
  lemma RemoveKeepsCounted(rows: seq<Favorite>, dishes: Catalog, i: nat)
    requires i < |rows| && Counted(rows, dishes)
    ensures Counted(RemoveAt(rows, i), Bump(dishes, rows[i].dishId, -1))
  {
    var r := RemoveAt(rows, i);
    var dish := rows[i].dishId;
    assert rows == rows[..i] + [rows[i]] + rows[i + 1..];
    assert r == rows[..i] + rows[i + 1..];
    forall d | d in dishes
      ensures CountFor(r, d) == CountFor(rows, d) - (if d == dish then 1 else 0)
    {
      CountConcat(rows[..i] + [rows[i]], rows[i + 1..], d);
      CountConcat(rows[..i], [rows[i]], d);
      CountConcat(rows[..i], rows[i + 1..], d);
      assert ([] + [rows[i]])[..0] == [];
      assert CountFor([rows[i]], d) == (if d == dish then 1 else 0) by {
        assert [rows[i]][..0] == [];
      }
    }
  }

  /** Deleting a row keeps the pairs unique, and with unique pairs no row for
      the deleted row's pair remains. */
  lemma RemoveKeepsUnique(rows: seq<Favorite>, i: nat)
    requires i < |rows| && UniquePairs(rows)
    ensures UniquePairs(RemoveAt(rows, i))
    ensures !HasPair(RemoveAt(rows, i), rows[i].userId, rows[i].dishId)
  {
    var r := RemoveAt(rows, i);
    forall a, b | 0 <= a < b < |r|
      ensures r[a].userId != r[b].userId || r[a].dishId != r[b].dishId
    {
      var a' := if a < i then a else a + 1;
      var b' := if b < i then b else b + 1;
      assert r[a] == rows[a'] && r[b] == rows[b'];
    }
    forall k | 0 <= k < |r|
      ensures r[k].userId != rows[i].userId || r[k].dishId != rows[i].dishId
    {
      if k < i {
        assert r[k] == rows[k];
      } else {
        assert r[k] == rows[k + 1];
      }
    }
  }

  /** The first row holding the pair, as `findOneAndDelete` picks it. */
  function IndexOfPair(rows: seq<Favorite>, userId: Id, dishId: Id): (r: Option<nat>)
    ensures r.None? <==> !HasPair(rows, userId, dishId)
    ensures r.Some? ==> r.value < |rows| && rows[r.value].userId == userId && rows[r.value].dishId == dishId
    ensures r.Some? ==> forall k :: 0 <= k < r.value ==> rows[k].userId != userId || rows[k].dishId != dishId
  {
    if |rows| == 0 then None
    else if rows[0].userId == userId && rows[0].dishId == dishId then Some(0)
    else
      var rest := IndexOfPair(rows[1..], userId, dishId);
      assert HasPair(rows, userId, dishId) ==> HasPair(rows[1..], userId, dishId) by {
        if HasPair(rows, userId, dishId) {
          var i :| 0 <= i < |rows| && rows[i].userId == userId && rows[i].dishId == dishId;
          assert rows[1..][i - 1] == rows[i];
        }
      }
      if rest.None? then None
      else
        assert rows[rest.value + 1] == rows[1..][rest.value];
        assert forall k :: 1 <= k <= rest.value ==> rows[k] == rows[1..][k - 1];
        Some(rest.value + 1)
  }

  /** A `dishId` that `!dishId` rejects: missing or the empty string. */
  predicate MissingId(dishId: Option<Id>) {
    dishId.None? || dishId == Some("")
  }

  datatype AddOutcome = DishIdRequired | AlreadyFavorite | DishNotFound | Added(favorite: Favorite)

  function AddStatus(o: AddOutcome): (status: int)
    ensures o.Added? <==> status == 201
  {
    match o
    case DishIdRequired => 400
    case AlreadyFavorite => 409
    case DishNotFound => 404
    case Added(_) => 201
  }

  datatype RemoveOutcome = FavoriteNotFound | Removed

  function RemoveStatus(o: RemoveOutcome): (status: int)
    ensures o.Removed? <==> status == 200
  {
    if o.Removed? then 200 else 404
  }

  /** The favourite rows together with the dish catalogue they count into. */
  class FavoriteService {
    var favorites: seq<Favorite>
    var dishes: Catalog

    /** The unique index holds and every dish's counter is exact. */
    ghost predicate Valid()
      reads this
    {
      UniquePairs(favorites) && Counted(favorites, dishes)
    }

    constructor (favorites: seq<Favorite>, dishes: Catalog)
      ensures this.favorites == favorites && this.dishes == dishes
    {
      this.favorites := favorites;
      this.dishes := dishes;
    }

    /** `addFavorite`: a missing id is refused first (400), then an existing
        pair (409), then an unknown dish (404); otherwise one row is created
        and that dish's counter goes up by one. */
    method AddFavorite(userId: Id, dishId: Option<Id>, now: int) returns (r: AddOutcome)
      modifies this
      ensures MissingId(dishId) <==> r == DishIdRequired
      ensures !MissingId(dishId) ==>
        (r == AlreadyFavorite <==> CheckDuplicate(old(favorites), userId, dishId.value))
      ensures !MissingId(dishId) && !CheckDuplicate(old(favorites), userId, dishId.value) ==>
        (r == DishNotFound <==> dishId.value !in old(dishes))
      ensures r.Added? ==> r.favorite == Favorite(userId, dishId.value, now)
      ensures r.Added? ==> favorites == old(favorites) + [r.favorite]
      ensures r.Added? ==> dishes == Bump(old(dishes), r.favorite.dishId, 1)
      ensures !r.Added? ==> favorites == old(favorites) && dishes == old(dishes)
      ensures old(Valid()) ==> Valid()
    {
      if MissingId(dishId) {
        return DishIdRequired;
      }
      var d := dishId.value;
      if CheckDuplicate(favorites, userId, d) {
        return AlreadyFavorite;
      }
      if d !in dishes {
        return DishNotFound;
      }
      if UniquePairs(favorites) {
        CreateKeepsUnique(favorites, NewFavorite(Some(userId), Some(d)), now);
      }
      if Counted(favorites, dishes) {
        AddKeepsCounted(favorites, dishes, Favorite(userId, d, now));
      }
      var created := Create(favorites, NewFavorite(Some(userId), Some(d)), now);
      favorites := created.value;
      dishes := Bump(dishes, d, 1);
      r := Added(Favorite(userId, d, now));
    }

    /** `removeFavorite`: an absent pair gets 404 and nothing changes;
        otherwise that one row is deleted and its dish's counter goes down by
        one. */
    method RemoveFavorite(userId: Id, dishId: Id) returns (r: RemoveOutcome)
      modifies this
      ensures r == FavoriteNotFound <==> !HasPair(old(favorites), userId, dishId)
      ensures r == FavoriteNotFound ==> favorites == old(favorites) && dishes == old(dishes)
      ensures r == Removed ==>
        favorites == RemoveAt(old(favorites), IndexOfPair(old(favorites), userId, dishId).value)
      ensures r == Removed ==> dishes == Bump(old(dishes), dishId, -1)
      ensures old(Valid()) ==> Valid()
      ensures old(Valid()) && r == Removed ==> !HasPair(favorites, userId, dishId)
    {
      var found := IndexOfPair(favorites, userId, dishId);
      if found.None? {
        return FavoriteNotFound;
      }
      var i := found.value;
      if UniquePairs(favorites) {
        RemoveKeepsUnique(favorites, i);
      }
      if Counted(favorites, dishes) {
        RemoveKeepsCounted(favorites, dishes, i);
      }
      favorites := RemoveAt(favorites, i);
      dishes := Bump(dishes, dishId, -1);
      r := Removed;
    }
  }

  // ---- checkMultipleFavorites ----

  /** `req.body.dishIds`: an array of ids or some other value. */
  datatype DishIdsInput = NotAnArray | DishIds(ids: seq<Id>)

  /** `favorites.map(f => f.dishId)` over the user's rows whose dish is one
      of `ids`. */
  function FavoriteDishIds(rows: seq<Favorite>, userId: Id, ids: seq<Id>): (r: seq<Id>)
    ensures forall d :: d in r <==> d in ids && HasPair(rows, userId, d)
  {
    if |rows| == 0 then []
    else
      var rest := FavoriteDishIds(rows[1..], userId, ids);
      assert forall d :: HasPair(rows, userId, d) <==>
        (rows[0].userId == userId && rows[0].dishId == d) || HasPair(rows[1..], userId, d) by {
        forall d
          ensures HasPair(rows, userId, d) <==>
            (rows[0].userId == userId && rows[0].dishId == d) || HasPair(rows[1..], userId, d)
        {
          if HasPair(rows[1..], userId, d) {
            var i :| 0 <= i < |rows| - 1 && rows[1..][i].userId == userId && rows[1..][i].dishId == d;
            assert rows[i + 1] == rows[1..][i];
          }
          if HasPair(rows, userId, d) && !(rows[0].userId == userId && rows[0].dishId == d) {
            var i :| 0 <= i < |rows| && rows[i].userId == userId && rows[i].dishId == d;
            assert rows[1..][i - 1] == rows[i];
          }
        }
      }
      if rows[0].userId == userId && rows[0].dishId in ids then [rows[0].dishId] + rest else rest
  }

  /** `dishIds.reduce((acc, id) => { acc[id] = favIds.includes(id); ... }, {})`. */
  function Tally(ids: seq<Id>, favIds: seq<Id>): (acc: map<Id, bool>)
    ensures acc.Keys == set id | id in ids
    ensures forall id :: id in acc ==> (acc[id] <==> id in favIds)
  {
    if |ids| == 0 then map[]
    else
      var last := ids[|ids| - 1];
      var acc := Tally(ids[..|ids| - 1], favIds);
      assert forall id :: id in ids <==> id in ids[..|ids| - 1] || id == last by {
        assert ids == ids[..|ids| - 1] + [last];
      }
      acc[last := last in favIds]
  }

  /** `checkMultipleFavorites`: a non-array or an empty array gets 400;
      otherwise each given id maps to whether the user has favourited it. */
  function CheckMultipleFavorites(rows: seq<Favorite>, userId: Id, input: DishIdsInput): (r: Result<map<Id, bool>, int>)
    ensures r.Failure? <==> input.NotAnArray? || |input.ids| == 0
    ensures r.Failure? ==> r.error == 400
    ensures r.Success? ==> r.value.Keys == set id | id in input.ids
    ensures r.Success? ==> forall id :: id in r.value ==> (r.value[id] <==> CheckDuplicate(rows, userId, id))
  {
    if input.NotAnArray? || |input.ids| == 0 then Failure(400)
    else Success(Tally(input.ids, FavoriteDishIds(rows, userId, input.ids)))
  }

  // ---- getFavorites ----

  /** The dish field the list is sorted by. */
  datatype SortField = ByName | ByPrice | ByRating | ByCreatedAt

  /** `req.query.sortBy || "createdAt"` mapped onto a sort field: anything
      other than "name", "price" or "rating" sorts by creation time. */
  function SortFieldOf(sortBy: Option<string>): (f: SortField)
    ensures f == ByName <==> sortBy == Some("name")
    ensures f == ByPrice <==> sortBy == Some("price")
    ensures f == ByRating <==> sortBy == Some("rating")
    ensures f == ByCreatedAt <==> sortBy != Some("name") && sortBy != Some("price") && sortBy != Some("rating")
  {
    var s := if sortBy.None? || sortBy == Some("") then "createdAt" else sortBy.value;
    if s == "name" then ByName
    else if s == "price" then ByPrice
    else if s == "rating" then ByRating
    else ByCreatedAt
  }

  /** `req.query.sortOrder === "asc" ? 1 : -1`. */
  function SortOrderOf(sortOrder: Option<string>): (o: int)
    ensures o == 1 <==> sortOrder == Some("asc")
    ensures o == 1 || o == -1
  {
    if sortOrder == Some("asc") then 1 else -1
  }

  /** The aggregation's parameters and the response's pagination object. */
  datatype FavoritesPage = FavoritesPage(
    query: Pagination.PageQuery, field: SortField, order: int, pagination: Pagination.PageMeta)

  /** The rows the `$match` on `userId` keeps whose `$lookup` finds the dish
      (the `$unwind` drops the others), in their original order. */
  function OwnRows(rows: seq<Favorite>, dishes: Catalog, userId: Id): seq<Favorite> {
    Sorting.Filter(rows, (f: Favorite) => f.userId == userId && f.dishId in dishes)
  }

  /** The user's favourite rows joined with their dishes (`$match` on the
      user, then `$lookup` and `$unwind`, which drops rows whose dish is
      gone). */
  function Joined(rows: seq<Favorite>, dishes: Catalog, userId: Id): (r: seq<DishModel.Dish>)
    ensures |r| <= |rows|
    ensures forall k :: 0 <= k < |r| ==> r[k] in dishes.Values
  {
    if |rows| == 0 then []
    else
      var rest := Joined(rows[1..], dishes, userId);
      var d := rows[0].dishId;
      if rows[0].userId == userId && d in dishes then [dishes[d]] + rest else rest
  }

  lemma OwnRowsCons(rows: seq<Favorite>, dishes: Catalog, userId: Id)
    requires |rows| > 0
    ensures OwnRows(rows, dishes, userId) ==
      (if rows[0].userId == userId && rows[0].dishId in dishes then [rows[0]] else []) + OwnRows(rows[1..], dishes, userId)
  {
  }

  /** `r` holds, in order, the catalogue dish of each row of `own`. */
  ghost predicate JoinsTo(r: seq<DishModel.Dish>, own: seq<Favorite>, dishes: Catalog) {
    |r| == |own| && forall k :: 0 <= k < |r| ==> own[k].dishId in dishes && r[k] == dishes[own[k].dishId]
  }

  lemma JoinsToCons(f: Favorite, own: seq<Favorite>, rest: seq<DishModel.Dish>, dishes: Catalog)
    requires f.dishId in dishes && JoinsTo(rest, own, dishes)
    ensures JoinsTo([dishes[f.dishId]] + rest, [f] + own, dishes)
  {
    var r := [dishes[f.dishId]] + rest;
    forall k | 1 <= k < |r|
      ensures ([f] + own)[k].dishId in dishes && r[k] == dishes[([f] + own)[k].dishId]
    {
      assert r[k] == rest[k - 1] && ([f] + own)[k] == own[k - 1];
    }
  }

  /** The joined list is, in order, the catalogue dish of each of the user's
      rows whose dish exists. */
  lemma {:induction false} JoinedFollowsOwnRows(rows: seq<Favorite>, dishes: Catalog, userId: Id)
    ensures JoinsTo(Joined(rows, dishes, userId), OwnRows(rows, dishes, userId), dishes)
    decreases |rows|
  {
    if |rows| > 0 {
      JoinedFollowsOwnRows(rows[1..], dishes, userId);
      OwnRowsCons(rows, dishes, userId);
      if rows[0].userId == userId && rows[0].dishId in dishes {
        JoinsToCons(rows[0], OwnRows(rows[1..], dishes, userId), Joined(rows[1..], dishes, userId), dishes);
      }
    }
  }

  /** The number of joined rows the category and search stages keep, which
      the `$count` stage reports (`countResult[0]?.total || 0`). */
  function CountMatching(joined: seq<DishModel.Dish>, keep: DishModel.Dish -> bool): (n: nat)
    ensures n <= |joined|
    ensures n == |Sorting.Filter(joined, keep)|
  {
    if |joined| == 0 then 0
    else (if keep(joined[0]) then 1 else 0) + CountMatching(joined[1..], keep)
  }

  /** `getFavorites`: page defaults to 1 and limit to 20, skip is
      (page - 1) * limit, and the pagination object is built from the count;
      a negative skip or limit makes the `$skip` / `$limit` stage fail (500). */
  function GetFavorites(
    rows: seq<Favorite>, dishes: Catalog, userId: Id, keep: DishModel.Dish -> bool,
    pageRaw: Option<int>, limitRaw: Option<int>, sortBy: Option<string>, sortOrder: Option<string>
  ): (r: Result<FavoritesPage, int>)
    ensures var q := Pagination.ParsePageQuery(pageRaw, limitRaw, 20);
      r.Failure? <==> q.skip < 0 || q.limit < 0
    ensures r.Failure? ==> r.error == 500
    ensures r.Success? ==> r.value.query == Pagination.ParsePageQuery(pageRaw, limitRaw, 20)
    ensures r.Success? ==> r.value.field == SortFieldOf(sortBy) && r.value.order == SortOrderOf(sortOrder)
    ensures r.Success? ==>
      r.value.pagination == Pagination.Meta(r.value.query, CountMatching(Joined(rows, dishes, userId), keep))
  {
    var q := Pagination.ParsePageQuery(pageRaw, limitRaw, 20);
    if q.skip < 0 || q.limit < 0 then Failure(500)
    else
      var total := CountMatching(Joined(rows, dishes, userId), keep);
      Success(FavoritesPage(q, SortFieldOf(sortBy), SortOrderOf(sortOrder), Pagination.Meta(q, total)))
  }

  /** Without query parameters the first page of 20 is requested, sorted by
      creation time, newest first. */
  lemma GetFavoritesDefaults(rows: seq<Favorite>, dishes: Catalog, userId: Id, keep: DishModel.Dish -> bool)
    ensures var r := GetFavorites(rows, dishes, userId, keep, None, None, None, None);
      r.Success? && r.value.query == Pagination.PageQuery(1, 20, 0) &&
      r.value.field == ByCreatedAt && r.value.order == -1 && !r.value.pagination.hasPrev
  {
  }

  // ---- getFavoriteStats ----

  /** One `$group` bucket: a category name (null for a dish without one) and
      how many favourites fall in it. */
  datatype CategoryStat = CategoryStat(category: Option<string>, count: nat)

  /** The category name a dish is grouped under (`$category.name`): null when
      the dish has no category or the category is gone. */
  function CategoryOf(dish: DishModel.Dish, categories: map<Id, string>): Option<string> {
    if dish.categoryId.Some? && dish.categoryId.value in categories then Some(categories[dish.categoryId.value])
    else None
  }

  /** Sum of the counts: `stats.reduce((sum, stat) => sum + stat.count, 0)`. */
  function TotalFavorites(stats: seq<CategoryStat>): nat {
    if |stats| == 0 then 0 else TotalFavorites(stats[..|stats| - 1]) + stats[|stats| - 1].count
  }

  predicate DistinctCategories(stats: seq<CategoryStat>) {
    forall i, j :: 0 <= i < j < |stats| ==> stats[i].category != stats[j].category
  }

  /** Adds one favourite to the bucket of `c`, opening a bucket at the end
      when there is none. */
  function GroupAdd(stats: seq<CategoryStat>, c: Option<string>): (r: seq<CategoryStat>)
    ensures |r| == |stats| || r == stats + [CategoryStat(c, 1)]
    ensures forall k :: 0 <= k < |stats| ==> r[k].category == stats[k].category
    ensures forall k :: |stats| <= k < |r| ==> r[k].category == c
  {
    if |stats| == 0 then [CategoryStat(c, 1)]
    else if stats[0].category == c then [stats[0].(count := stats[0].count + 1)] + stats[1..]
    else
      [stats[0]] + GroupAdd(stats[1..], c)
  }

  lemma {:induction false} GroupAddTotal(stats: seq<CategoryStat>, c: Option<string>)
    ensures TotalFavorites(GroupAdd(stats, c)) == TotalFavorites(stats) + 1
    decreases |stats|
  {
    if |stats| > 0 {
      if stats[0].category == c {
        TotalSplit([stats[0].(count := stats[0].count + 1)], stats[1..]);
        TotalSplit([stats[0]], stats[1..]);
        assert [stats[0]] + stats[1..] == stats;
      } else {
        GroupAddTotal(stats[1..], c);
        TotalSplit([stats[0]], GroupAdd(stats[1..], c));
        TotalSplit([stats[0]], stats[1..]);
        assert [stats[0]] + stats[1..] == stats;
      }
      assert TotalFavorites([stats[0]]) == stats[0].count by {
        assert [stats[0]][..0] == [];
      }
      assert TotalFavorites([stats[0].(count := stats[0].count + 1)]) == stats[0].count + 1 by {
        assert [stats[0].(count := stats[0].count + 1)][..0] == [];
      }
    }
  }

  lemma {:induction false} TotalSplit(a: seq<CategoryStat>, b: seq<CategoryStat>)
    ensures TotalFavorites(a + b) == TotalFavorites(a) + TotalFavorites(b)
    decreases |b|
  {
    if |b| == 0 {
      assert a + b == a;
    } else {
      assert (a + b)[..|a + b| - 1] == a + b[..|b| - 1];
      TotalSplit(a, b[..|b| - 1]);
    }
  }

  lemma GroupAddDistinct(stats: seq<CategoryStat>, c: Option<string>)
    requires DistinctCategories(stats)
    ensures DistinctCategories(GroupAdd(stats, c))
  {
    var r := GroupAdd(stats, c);
    if |r| != |stats| {
      forall i | 0 <= i < |stats|
        ensures stats[i].category != c
      {
        if stats[i].category == c {
          GroupAddKeepsLength(stats, c, i);
        }
      }
    }
  }

  /** When `c` already has a bucket, adding to it opens no new one. */
  lemma {:induction false} GroupAddKeepsLength(stats: seq<CategoryStat>, c: Option<string>, i: nat)
    requires i < |stats| && stats[i].category == c
    ensures |GroupAdd(stats, c)| == |stats|
    decreases |stats|
  {
    if stats[0].category != c {
      GroupAddKeepsLength(stats[1..], c, i - 1);
    }
  }

  /** Under distinct categories, the bucket of `c` gains one and every other
      bucket keeps its count; a bucket is opened at the end exactly when `c`
      has none. */
  lemma {:induction false} GroupAddCounts(stats: seq<CategoryStat>, c: Option<string>)
    requires DistinctCategories(stats)
    ensures var r := GroupAdd(stats, c);
      (|r| == |stats| + 1 <==> forall k :: 0 <= k < |stats| ==> stats[k].category != c)
      && (|r| == |stats| + 1 ==> r[|stats|] == CategoryStat(c, 1))
      && forall k :: 0 <= k < |stats| ==> r[k].count == stats[k].count + (if stats[k].category == c then 1 else 0)
    decreases |stats|
  {
    if |stats| > 0 {
      var r := GroupAdd(stats, c);
      if stats[0].category == c {
        assert r == [stats[0].(count := stats[0].count + 1)] + stats[1..];
        forall k | 1 <= k < |stats|
          ensures r[k].count == stats[k].count + (if stats[k].category == c then 1 else 0)
        {
          assert r[k] == stats[k];
        }
      } else {
        var tail := stats[1..];
        assert DistinctCategories(tail) by {
          forall i, j | 0 <= i < j < |tail| ensures tail[i].category != tail[j].category {
            assert tail[i] == stats[i + 1] && tail[j] == stats[j + 1];
          }
        }
        GroupAddCounts(tail, c);
        var rt := GroupAdd(tail, c);
        assert r == [stats[0]] + rt;
        forall k | 1 <= k < |stats|
          ensures r[k].count == stats[k].count + (if stats[k].category == c then 1 else 0)
        {
          assert r[k] == rt[k - 1] && stats[k] == tail[k - 1];
        }
        assert (forall k :: 0 <= k < |stats| ==> stats[k].category != c) <==>
               (forall k :: 0 <= k < |tail| ==> tail[k].category != c) by {
          forall k | 0 <= k < |tail| ensures tail[k] == stats[k + 1] { }
        }
        if |r| == |stats| + 1 {
          assert r[|stats|] == rt[|tail|];
        }
      }
    }
  }

  /** How many of `cats` are `c`. */
  function Occurrences(cats: seq<Option<string>>, c: Option<string>): nat {
    if |cats| == 0 then 0
    else Occurrences(cats[..|cats| - 1], c) + (if cats[|cats| - 1] == c then 1 else 0)
  }

  lemma {:induction false} OccurrencesPositive(cats: seq<Option<string>>, c: Option<string>)
    ensures Occurrences(cats, c) > 0 <==> c in cats
    decreases |cats|
  {
    if |cats| > 0 {
      var prefix := cats[..|cats| - 1];
      OccurrencesPositive(prefix, c);
      assert cats == prefix + [cats[|cats| - 1]];
    }
  }

  /** `$group` by category: a bucket for exactly the categories that occur,
      each counting the favourites in that category. */
  lemma {:induction false} GroupByCategoryCounts(cats: seq<Option<string>>)
    ensures var r := GroupByCategory(cats);
      (forall c :: (exists k :: 0 <= k < |r| && r[k].category == c) <==> c in cats)
      && forall k :: 0 <= k < |r| ==> r[k].count == Occurrences(cats, r[k].category)
    decreases |cats|
  {
    if |cats| > 0 {
      var prefix := cats[..|cats| - 1];
      var x := cats[|cats| - 1];
      var p := GroupByCategory(prefix);
      var r := GroupByCategory(cats);
      GroupByCategoryCounts(prefix);
      GroupAddCounts(p, x);
      assert r == GroupAdd(p, x);
      assert cats == prefix + [x];
      forall c
        ensures (exists k :: 0 <= k < |r| && r[k].category == c) <==> c in cats
      {
        if c in cats && c != x {
          assert c in prefix;
          var k :| 0 <= k < |p| && p[k].category == c;
          assert r[k].category == c;
        }
        if c == x && |r| == |p| {
          var k :| 0 <= k < |p| && p[k].category == x;
          assert r[k].category == c;
        }
        if c == x && |r| != |p| {
          assert r[|p|].category == c;
        }
        if k :| 0 <= k < |r| && r[k].category == c {
          if k < |p| {
            assert p[k].category == c;
          }
        }
      }
      forall k | 0 <= k < |r|
        ensures r[k].count == Occurrences(cats, r[k].category)
      {
        if k == |p| {
          assert forall j :: 0 <= j < |p| ==> p[j].category != x;
          OccurrencesPositive(prefix, x);
        }
      }
    }
  }

  /** The `$group` stage over the categories of the joined favourites. */
  function GroupByCategory(cats: seq<Option<string>>): (r: seq<CategoryStat>)
    ensures DistinctCategories(r)
  {
    if |cats| == 0 then []
    else
      var prefix := GroupByCategory(cats[..|cats| - 1]);
      GroupAddDistinct(prefix, cats[|cats| - 1]);
      GroupAdd(prefix, cats[|cats| - 1])
  }

  /** Grouping loses no favourite: the buckets' counts sum to the number of
      favourites grouped. */
  lemma {:induction false} GroupTotal(cats: seq<Option<string>>)
    ensures TotalFavorites(GroupByCategory(cats)) == |cats|
    decreases |cats|
  {
    if |cats| > 0 {
      GroupTotal(cats[..|cats| - 1]);
      GroupAddTotal(GroupByCategory(cats[..|cats| - 1]), cats[|cats| - 1]);
    }
  }

  /** The categories of the user's joined favourites, in order. */
  function CategoriesOf(joined: seq<DishModel.Dish>, categories: map<Id, string>): (r: seq<Option<string>>)
    ensures |r| == |joined|
  {
    if |joined| == 0 then [] else [CategoryOf(joined[0], categories)] + CategoriesOf(joined[1..], categories)
  }

  datatype FavoriteStats = FavoriteStats(totalFavorites: nat, byCategory: seq<CategoryStat>)

  /** `getFavoriteStats`, without the float averages and the bucket order. */
  function GetFavoriteStats(rows: seq<Favorite>, dishes: Catalog, categories: map<Id, string>, userId: Id): (s: FavoriteStats)
    ensures s.totalFavorites == TotalFavorites(s.byCategory)
    ensures s.totalFavorites == |Joined(rows, dishes, userId)|
    ensures DistinctCategories(s.byCategory)
  {
    var cats := CategoriesOf(Joined(rows, dishes, userId), categories);
    GroupTotal(cats);
    var stats := GroupByCategory(cats);
    FavoriteStats(TotalFavorites(stats), stats)
  }

  /** `totalFavorites` is the number of the user's favourites whose dish
      still exists. */
  lemma TotalIsJoinedCount(rows: seq<Favorite>, dishes: Catalog, categories: map<Id, string>, userId: Id)
    ensures GetFavoriteStats(rows, dishes, categories, userId).totalFavorites == |Joined(rows, dishes, userId)|
  {
    GroupTotal(CategoriesOf(Joined(rows, dishes, userId), categories));
  }
}
