/** The favourite relation between users and dishes: a row per (user, dish)
    pair, kept unique by a compound index, and the duplicate lookup. */
module FavoriteFood {
  import opened Wrappers

  type Id = string

  /** A stored favourite row; `createdAt` is the timestamp Mongoose adds. */
  datatype Favorite = Favorite(userId: Id, dishId: Id, createdAt: int)

  /** The unique index on (userId, dishId): no two rows share the pair. */
  predicate UniquePairs(rows: seq<Favorite>) {
    forall i, j :: 0 <= i < j < |rows| ==>
      rows[i].userId != rows[j].userId || rows[i].dishId != rows[j].dishId
  }

  /** Some row links `userId` to `dishId`. */
  predicate HasPair(rows: seq<Favorite>, userId: Id, dishId: Id) {
    exists i :: 0 <= i < |rows| && rows[i].userId == userId && rows[i].dishId == dishId
  }

  /** `checkDuplicate(userId, dishId)`: looks the pair up, changing nothing
      (a function of the rows, so there is no state for it to change). */
  function CheckDuplicate(rows: seq<Favorite>, userId: Id, dishId: Id): (found: bool)
    ensures found <==> HasPair(rows, userId, dishId)
  {
    if |rows| == 0 then false
    else if rows[0].userId == userId && rows[0].dishId == dishId then true
    else
      var rest := CheckDuplicate(rows[1..], userId, dishId);
      assert HasPair(rows[1..], userId, dishId) ==> HasPair(rows, userId, dishId) by {
        if HasPair(rows[1..], userId, dishId) {
          var i :| 0 <= i < |rows| - 1 && rows[1..][i].userId == userId && rows[1..][i].dishId == dishId;
          assert rows[i + 1] == rows[1..][i];
        }
      }
      assert HasPair(rows, userId, dishId) ==> HasPair(rows[1..], userId, dishId) by {
        if HasPair(rows, userId, dishId) {
          var i :| 0 <= i < |rows| && rows[i].userId == userId && rows[i].dishId == dishId;
          assert i != 0;
          assert rows[1..][i - 1] == rows[i];
        }
      }
      rest
  }

  /** A document handed to `FavoriteFood.create`; both references are
      required by the schema. */
  datatype NewFavorite = NewFavorite(userId: Option<Id>, dishId: Option<Id>)

  datatype Field = UserIdField | DishIdField

  datatype CreateError =
    | ValidationFailed(missing: set<Field>)  // a `required` validator failed
    | DuplicateKey                            // the unique index refused the pair

  /** The fields whose `required` validator fails. */
  function MissingFields(doc: NewFavorite): (missing: set<Field>)
    ensures UserIdField in missing <==> doc.userId.None?
    ensures DishIdField in missing <==> doc.dishId.None?
    ensures missing == {} <==> doc.userId.Some? && doc.dishId.Some?
  {
    (if doc.userId.None? then {UserIdField} else {}) + (if doc.dishId.None? then {DishIdField} else {})
  }

  /** `FavoriteFood.create(doc)`: validation, then the unique index, then the
      row is appended. */
  function Create(rows: seq<Favorite>, doc: NewFavorite, now: int): (r: Result<seq<Favorite>, CreateError>)
    ensures r.Failure? && r.error.ValidationFailed? <==> doc.userId.None? || doc.dishId.None?
    ensures r == Failure(DuplicateKey) <==>
      doc.userId.Some? && doc.dishId.Some? && HasPair(rows, doc.userId.value, doc.dishId.value)
    ensures r.Success? ==> r.value == rows + [Favorite(doc.userId.value, doc.dishId.value, now)]
  {
    var missing := MissingFields(doc);
    if missing != {} then Failure(ValidationFailed(missing))
    else if CheckDuplicate(rows, doc.userId.value, doc.dishId.value) then Failure(DuplicateKey)
    else Success(rows + [Favorite(doc.userId.value, doc.dishId.value, now)])
  }

  /** Whatever `Create` accepts keeps the pairs unique and contains the new
      pair. */
  lemma CreateKeepsUnique(rows: seq<Favorite>, doc: NewFavorite, now: int)
    requires UniquePairs(rows)
    requires Create(rows, doc, now).Success?
    ensures UniquePairs(Create(rows, doc, now).value)
    ensures HasPair(Create(rows, doc, now).value, doc.userId.value, doc.dishId.value)
  {
    var r := Create(rows, doc, now).value;
    var n := |rows|;
    assert r[n].userId == doc.userId.value && r[n].dishId == doc.dishId.value;
    forall i, j | 0 <= i < j < |r|
      ensures r[i].userId != r[j].userId || r[i].dishId != r[j].dishId
    {
      if j == n {
        assert r[i] == rows[i];
      } else {
        assert r[i] == rows[i] && r[j] == rows[j];
      }
    }
  }
}
