/** The weekly lunch-schedule collection: one document per (user, week start),
    create-or-replace by that key, the meal sub-document's defaults and
    limits, and the active-only lookup. */
module LunchSchedule {
  import opened Wrappers
  import Text

  type Id = string
  /** Instants as milliseconds since the Unix epoch (UTC). */
  type Millis = int

  const DayMs: int := 86400000
  const MaxNotesLength := 500

  /** A meal as handed to the model, before the sub-schema casts it:
      `None` is an absent field. */
  datatype MealFields = MealFields(date: Option<Millis>, dishId: Option<Id>, notes: Option<string>)

  /** A stored meal sub-document. */
  datatype MealSlot = MealSlot(date: Millis, dishId: Option<Id>, notes: string)

  datatype Schedule = Schedule(
    id: nat, userId: Id, weekStartDate: Millis, weekEndDate: Millis,
    meals: seq<MealSlot>, isActive: bool)

  /** The unique compound index (userId, weekStartDate). */
  datatype Key = Key(userId: Id, weekStartDate: Millis)

  /** Why the collection refused to save a document. */
  datatype SaveError = MealDateRequired(index: nat) | NotesTooLong(index: nat)

  /** A meal the sub-schema accepts. */
  predicate MealAccepted(m: MealFields) {
    m.date.Some? && (m.notes.None? || Text.Utf16Length(Text.Trim(m.notes.value)) <= MaxNotesLength)
  }

  /** The meal sub-schema: `date` is required, `dishId` defaults to null,
      `notes` defaults to "" and is trimmed, and more than 500 UTF-16 code units
      after trimming is refused. */
  function CastMeal(m: MealFields, index: nat): (r: Result<MealSlot, SaveError>)
    ensures m.date.None? ==> r == Failure(MealDateRequired(index))
    ensures m.date.Some? && m.notes.Some? && Text.Utf16Length(Text.Trim(m.notes.value)) > MaxNotesLength ==> r == Failure(NotesTooLong(index))
    ensures r.Success? <==> MealAccepted(m)
    ensures r.Success? ==> r.value.date == m.date.value && r.value.dishId == m.dishId
    ensures r.Success? ==> r.value.notes == (if m.notes.None? then "" else Text.Trim(m.notes.value))
    ensures r.Success? ==> |r.value.notes| <= Text.Utf16Length(r.value.notes) <= MaxNotesLength
  {
    if m.date.None? then Failure(MealDateRequired(index))
    else
      var notes := if m.notes.None? then "" else Text.Trim(m.notes.value);
      if Text.Utf16Length(notes) > MaxNotesLength then Failure(NotesTooLong(index))
      else Success(MealSlot(m.date.value, m.dishId, notes))
  }

  /** Casting an array of meals: the first refused meal fails the whole save;
      otherwise every meal is cast, in order. */
  function CastMeals(ms: seq<MealFields>): (r: Result<seq<MealSlot>, SaveError>)
    ensures r.Success? <==> forall k :: 0 <= k < |ms| ==> MealAccepted(ms[k])
    ensures r.Success? ==> |r.value| == |ms|
    ensures r.Success? ==> forall k :: 0 <= k < |ms| ==> r.value[k] == CastMeal(ms[k], k).value
    ensures r.Failure? ==>
      && 0 <= r.error.index < |ms|
      && CastMeal(ms[r.error.index], r.error.index) == Failure(r.error)
      && forall k :: 0 <= k < r.error.index ==> MealAccepted(ms[k])
  {
    var r := CastFrom(ms, 0);
    if r.Success? then
      assert forall k :: 0 <= k < |ms| ==> r.value[k] == CastMeal(ms[k], k).value by {
        forall k | 0 <= k < |ms| {
          CastFromElement(ms, 0, k);
        }
      }
      r
    else
      CastFromFirstFailure(ms, 0);
      r
  }

  /** Casting the meals from index `i` on. */
  function CastFrom(ms: seq<MealFields>, i: nat): (r: Result<seq<MealSlot>, SaveError>)
    requires i <= |ms|
    ensures r.Success? <==> forall k :: i <= k < |ms| ==> MealAccepted(ms[k])
    ensures r.Success? ==> |r.value| == |ms| - i
    decreases |ms| - i
  {
    if i == |ms| then Success([])
    else
      var head := CastMeal(ms[i], i);
      if head.Failure? then Failure(head.error)
      else
        var rest := CastFrom(ms, i + 1);
        if rest.Failure? then Failure(rest.error)
        else Success([head.value] + rest.value)
  }

  /** Meal `k` of a successful cast is meal `k` of the input, cast. */
  lemma {:induction false} CastFromElement(ms: seq<MealFields>, i: nat, k: nat)
    requires i <= k < |ms| && CastFrom(ms, i).Success?
    ensures CastFrom(ms, i).value[k - i] == CastMeal(ms[k], k).value
    decreases |ms| - i
  {
    var head := CastMeal(ms[i], i);
    var rest := CastFrom(ms, i + 1);
    assert CastFrom(ms, i).value == [head.value] + rest.value;
    if k > i {
      CastFromElement(ms, i + 1, k);
      assert ([head.value] + rest.value)[k - i] == rest.value[k - (i + 1)];
    }
  }

  /** A failed cast reports the first refused meal, by its index. */
  lemma {:induction false} CastFromFirstFailure(ms: seq<MealFields>, i: nat)
    requires i <= |ms| && CastFrom(ms, i).Failure?
    ensures var e := CastFrom(ms, i).error;
      && i <= e.index < |ms|
      && CastMeal(ms[e.index], e.index) == Failure(e)
      && forall k :: i <= k < e.index ==> MealAccepted(ms[k])
    decreases |ms| - i
  {
    if CastMeal(ms[i], i).Success? {
      CastFromFirstFailure(ms, i + 1);
    }
  }

  /** Every document is stored under its own (user, week) key. */
  ghost predicate Keyed(docs: map<Key, Schedule>) {
    forall k :: k in docs ==> docs[k].userId == k.userId && docs[k].weekStartDate == k.weekStartDate
  }

  /** Each stored document sits under its own key, and ids are unique and
      below the next id to hand out. */
  ghost predicate WellFormed(docs: map<Key, Schedule>, nextId: nat) {
    && Keyed(docs)
    && (forall k :: k in docs ==> docs[k].id < nextId)
    && (forall k1, k2 :: k1 in docs && k2 in docs && k1 != k2 ==> docs[k1].id != docs[k2].id)
  }

  /** The collection after `createOrUpdate` has written `meals` for `key`: an
      existing document (active or not) gets its end date and meals
      replaced, keeping its id and active flag; otherwise a new active
      document with id `nextId` is inserted. No other key is touched. */
  function Upsert(docs: map<Key, Schedule>, nextId: nat, key: Key, weekEnd: Millis, meals: seq<MealSlot>): (r: map<Key, Schedule>)
    ensures r.Keys == docs.Keys + {key}
    ensures forall k :: k in docs && k != key ==> r[k] == docs[k]
    ensures r[key].meals == meals && r[key].weekEndDate == weekEnd
    ensures key in docs ==> r[key].id == docs[key].id && r[key].isActive == docs[key].isActive
    ensures key !in docs ==> r[key].id == nextId && r[key].isActive
  {
    if key in docs then docs[key := docs[key].(weekEndDate := weekEnd, meals := meals)]
    else docs[key := Schedule(nextId, key.userId, key.weekStartDate, weekEnd, meals, true)]
  }

  /** The next id after an upsert. */
  function NextIdAfter(docs: map<Key, Schedule>, nextId: nat, key: Key): nat {
    if key in docs then nextId else nextId + 1
  }

  /** An upsert keeps the collection well formed. */
  lemma UpsertWellFormed(docs: map<Key, Schedule>, nextId: nat, key: Key, weekEnd: Millis, meals: seq<MealSlot>)
    requires WellFormed(docs, nextId)
    ensures WellFormed(Upsert(docs, nextId, key, weekEnd, meals), NextIdAfter(docs, nextId, key))
  {
    var r := Upsert(docs, nextId, key, weekEnd, meals);
    var n := NextIdAfter(docs, nextId, key);
    assert r[key].userId == key.userId && r[key].weekStartDate == key.weekStartDate;
    assert r[key].id < n;
    forall k1, k2 | k1 in r && k2 in r && k1 != k2
      ensures r[k1].id != r[k2].id
    {
      if k1 != key && k2 != key {
        assert r[k1] == docs[k1] && r[k2] == docs[k2];
      }
    }
  }

  /** Repeating an upsert with the same arguments converges: the second call
      updates the document the first one wrote and changes nothing more. */
  lemma {:induction false} UpsertIdempotent(docs: map<Key, Schedule>, nextId: nat, key: Key, weekEnd: Millis, meals: seq<MealSlot>)
    ensures var once := Upsert(docs, nextId, key, weekEnd, meals);
      Upsert(once, NextIdAfter(docs, nextId, key), key, weekEnd, meals) == once
  {
    var once := Upsert(docs, nextId, key, weekEnd, meals);
    var twice := Upsert(once, NextIdAfter(docs, nextId, key), key, weekEnd, meals);
    assert twice.Keys == once.Keys;
    assert twice[key] == once[key];
  }

  /** Two upserts for one key leave one document holding the second call's
      meals and end date: last write wins, nothing from the first survives. */
  lemma LastWriteWins(docs: map<Key, Schedule>, nextId: nat, key: Key,
                      end1: Millis, meals1: seq<MealSlot>, end2: Millis, meals2: seq<MealSlot>)
    ensures var once := Upsert(docs, nextId, key, end1, meals1);
      var twice := Upsert(once, NextIdAfter(docs, nextId, key), key, end2, meals2);
      twice.Keys == docs.Keys + {key} && twice[key].meals == meals2 && twice[key].weekEndDate == end2
      && twice[key].id == once[key].id
  {
  }

  /** `findByUserAndWeek`: the document for exactly that user and week, and
      only while it is active. */
  function Find(docs: map<Key, Schedule>, userId: Id, weekStartDate: Millis): (r: Option<Schedule>)
    ensures r.Some? <==> Key(userId, weekStartDate) in docs && docs[Key(userId, weekStartDate)].isActive
    ensures r.Some? ==> r.value == docs[Key(userId, weekStartDate)]
  {
    var key := Key(userId, weekStartDate);
    if key in docs && docs[key].isActive then Some(docs[key]) else None
  }

  /** After an upsert the week is found with the new meals, unless it had been
      soft-deleted: the update does not reactivate it. */
  lemma {:induction false} FindAfterUpsert(docs: map<Key, Schedule>, nextId: nat, key: Key, weekEnd: Millis, meals: seq<MealSlot>)
    ensures var r := Find(Upsert(docs, nextId, key, weekEnd, meals), key.userId, key.weekStartDate);
      if key in docs && !docs[key].isActive then r == None
      else r.Some? && r.value.meals == meals && r.value.weekEndDate == weekEnd
  {
    assert Key(key.userId, key.weekStartDate) == key;
  }

  /** The schedule collection. */
  class ScheduleStore {
    var docs: map<Key, Schedule>
    var nextId: nat

    ghost predicate Valid()
      reads this
    {
      WellFormed(docs, nextId)
    }

    constructor ()
      ensures Valid() && docs == map[] && nextId == 0
    {
      docs := map[];
      nextId := 0;
    }

    /** `findByUserAndWeek(userId, weekStartDate)`. */
    function FindByUserAndWeek(userId: Id, weekStartDate: Millis): (r: Option<Schedule>)
      reads this
      ensures r == Find(docs, userId, weekStartDate)
    {
      Find(docs, userId, weekStartDate)
    }

    /** `createOrUpdate(userId, weekStartDate, weekEndDate, meals)`: the meal
        sub-documents are cast and validated first; a refusal leaves the
        collection unchanged. */
    method CreateOrUpdate(userId: Id, weekStartDate: Millis, weekEndDate: Millis, meals: seq<MealFields>)
        returns (r: Result<Schedule, SaveError>)
      requires Valid()
      modifies this
      ensures Valid()
      ensures r.Success? <==> CastMeals(meals).Success?
      ensures r.Failure? ==> docs == old(docs) && nextId == old(nextId) && r == Failure(CastMeals(meals).error)
      ensures r.Success? ==>
        var key := Key(userId, weekStartDate);
        && docs == Upsert(old(docs), old(nextId), key, weekEndDate, CastMeals(meals).value)
        && nextId == NextIdAfter(old(docs), old(nextId), key)
        && r.value == docs[key]
    {
      var cast := CastMeals(meals);
      if cast.Failure? {
        return Failure(cast.error);
      }
      var key := Key(userId, weekStartDate);
      UpsertWellFormed(docs, nextId, key, weekEndDate, cast.value);
      if key in docs {
        var existing := docs[key];
        docs := docs[key := existing.(weekEndDate := weekEndDate, meals := cast.value)];
      } else {
        docs := docs[key := Schedule(nextId, userId, weekStartDate, weekEndDate, cast.value, true)];
        nextId := nextId + 1;
      }
      r := Success(docs[key]);
    }
  }
}
