/** The weekly lunch-schedule page in the browser: the Monday it opens on,
    the seven dates of the shown week, the merge of the server's meals into a
    fixed seven-slot grid, the per-date edit handlers, the payload sent on
    save, and week navigation. Dates are calendar-date values; the page's
    `YYYY-MM-DD` strings are `IsoDate` of them. */
module LunchSchedulePage {
  import opened Wrappers
  import opened CivilDates

  /** A meal's `dishId` on the page: null, an id string, or a populated dish
      object carrying its `_id` (possibly empty). */
  datatype DishRef = NullRef | IdRef(id: string) | DishObject(objectId: string)

  /** JavaScript truthiness of a `dishId`: null and "" are falsy. */
  predicate Truthy(r: DishRef) {
    match r
    case NullRef => false
    case IdRef(id) => id != ""
    case DishObject(_) => true
  }

  /** A meal as the server returned it; `date` is None for an Invalid Date,
      otherwise its calendar fields in the browser. */
  datatype ServerMeal = ServerMeal(date: Option<CalendarDate>, dishId: DishRef, notes: string)

  /** One slot of the week grid. */
  datatype GridMeal = GridMeal(date: string, dishId: DishRef, notes: string)

  /** A grid slot with nothing planned. */
  function EmptySlot(date: string): (m: GridMeal)
    ensures m.date == date && m.dishId == NullRef && m.notes == ""
  {
    GridMeal(date, NullRef, "")
  }

  // ----------------------------------------------------------- week start

  /** `-day + (day === 0 ? -6 : 1)`, the shift from today to this week's
      Monday for `getDay()` = `weekday` (0 is Sunday). */
  function MondayOffset(weekday: int): (offset: int)
    requires 0 <= weekday <= 6
    ensures offset == -((weekday + 6) % 7)
    ensures -6 <= offset <= 0
    ensures weekday == 0 ==> offset == -6
    ensures weekday == 1 ==> offset == 0
  {
    -weekday + (if weekday == 0 then -6 else 1)
  }

  /** The week the page opens on: `today.setDate(diff)` with
      `day = today.getDay()`; it is always a Monday. */
  function MondayOf(today: CalendarDate): (monday: CalendarDate)
    ensures DayOfWeek(monday) == 1
  {
    var w := DayOfWeek(today);
    var offset := MondayOffset(w);
    DayOfWeekAddDays(today, offset);
    OffsetReachesMonday(w);
    AddDays(today, offset)
  }

  lemma OffsetReachesMonday(weekday: int)
    requires 0 <= weekday <= 6
    ensures (weekday + MondayOffset(weekday)) % 7 == 1
  {
    assert weekday + MondayOffset(weekday) == if weekday == 0 then -6 else 1;
  }

  /** Today is 0 to 6 days after the Monday the page opens on (0 on a
      Monday, 6 on a Sunday). */
  lemma TodayIsInOpeningWeek(today: CalendarDate)
    ensures var k := (DayOfWeek(today) + 6) % 7;
      0 <= k <= 6 && AddDays(MondayOf(today), k) == today &&
      (DayOfWeek(today) == 1 <==> k == 0) && (DayOfWeek(today) == 0 <==> k == 6)
  {
    AddDaysInverse(today, MondayOffset(DayOfWeek(today)));
  }

  /** "Previous week": `setDate(getDate() - 7)`; the same weekday, earlier. */
  function PreviousWeek(start: CalendarDate): (r: CalendarDate)
    ensures Before(r, start) && DayOfWeek(r) == DayOfWeek(start)
  {
    WeeksAway(start, -1);
    AddDays(start, -7)
  }

  /** "Next week": `setDate(getDate() + 7)`; the same weekday, later. */
  function NextWeek(start: CalendarDate): (r: CalendarDate)
    ensures Before(start, r) && DayOfWeek(r) == DayOfWeek(start)
  {
    WeeksAway(start, 1);
    AddDays(start, 7)
  }

  /** The two navigation buttons undo each other. */
  lemma NavigationInverse(start: CalendarDate)
    ensures PreviousWeek(NextWeek(start)) == start
    ensures NextWeek(PreviousWeek(start)) == start
  {
    AddDaysInverse(start, 7);
    AddDaysInverse(start, -7);
  }

  // ----------------------------------------------------------- week dates

  /** The keys of the seven days starting at `start`. */
  function WeekDates(start: CalendarDate): (dates: seq<string>)
    ensures |dates| == 7
  {
    seq(7, i requires 0 <= i < 7 => IsoDate(AddDays(start, i)))
  }

  /** `getWeekDates`: the loop pushing one formatted date per day. */
  method GetWeekDates(start: CalendarDate) returns (dates: seq<string>)
    ensures dates == WeekDates(start)
  {
    dates := [];
    ghost var week := WeekDates(start);
    for i := 0 to 7
      invariant dates == week[..i]
    {
      var day := AddDays(start, i);
      assert week[i] == IsoDate(day);
      dates := dates + [IsoDate(day)];
    }
  }

  /** The week's first date is the start, and each date is the day after the
      one before it. */
  lemma WeekDatesConsecutive(start: CalendarDate)
    ensures WeekDates(start)[0] == IsoDate(start)
    ensures forall i :: 0 <= i < 6 ==> WeekDates(start)[i + 1] == IsoDate(NextDay(AddDays(start, i)))
  {
    forall i | 0 <= i < 6
      ensures WeekDates(start)[i + 1] == IsoDate(NextDay(AddDays(start, i)))
    {
      AddDaysCompose(start, i, 1);
    }
  }

  /** The seven dates are seven different days. */
  lemma WeekDatesDistinct(start: CalendarDate)
    ensures forall i, j :: 0 <= i < j < 7 ==> WeekDates(start)[i] != WeekDates(start)[j]
  {
    forall i, j | 0 <= i < j < 7
      ensures WeekDates(start)[i] != WeekDates(start)[j]
    {
      AddDaysOrdered(start, i, j);
      if WeekDates(start)[i] == WeekDates(start)[j] {
        IsoDateInjective(AddDays(start, i), AddDays(start, j));
      }
    }
  }

  // ----------------------------------------------------------------- merge

  /** The key a server meal is filed under; an Invalid Date prints as NaN. */
  function DateKey(m: ServerMeal): (key: string)
    ensures m.date.None? ==> key == "NaN-NaN-NaN"
    ensures m.date.Some? && m.date.value.year >= 100 ==> ParseIsoDate(key) == Some(m.date.value)
  {
    if m.date.None? then "NaN-NaN-NaN"
    else
      if m.date.value.year >= 100 then ParseIsoDateRoundTrip(m.date.value); IsoDate(m.date.value)
      else IsoDate(m.date.value)
  }

  /** `meal.dishId ? (typeof object ? meal.dishId._id || meal.dishId : meal.dishId) : null` */
  function GridRef(r: DishRef): (g: DishRef)
    ensures !Truthy(r) ==> g == NullRef
    ensures r.IdRef? && Truthy(r) ==> g == r
    ensures r.DishObject? && r.objectId != "" ==> g == IdRef(r.objectId)
  {
    match r
    case NullRef => NullRef
    case IdRef(id) => if id == "" then NullRef else r
    case DishObject(oid) => if oid == "" then r else IdRef(oid)
  }

  function SlotOf(m: ServerMeal): (g: GridMeal)
    ensures g.date == DateKey(m)
  {
    GridMeal(DateKey(m), GridRef(m.dishId), m.notes)
  }

  /** `items.forEach(x => { m[key(x)] = val(x); })` starting from `{}`. */
  function FileAll<T, V>(items: seq<T>, key: T -> string, val: T -> V): map<string, V> {
    if items == [] then map[]
    else FileAll(items[..|items| - 1], key, val)[key(items[|items| - 1]) := val(items[|items| - 1])]
  }

  /** A key gets an entry exactly when some item has it, and every entry is
      the value of an item with that key. */
  lemma {:induction false} FileAllHas<T, V>(items: seq<T>, key: T -> string, val: T -> V, k: string)
    ensures k in FileAll(items, key, val) <==> exists j :: 0 <= j < |items| && key(items[j]) == k
    ensures k in FileAll(items, key, val) ==>
      exists j :: 0 <= j < |items| && key(items[j]) == k && FileAll(items, key, val)[k] == val(items[j])
  {
    if items != [] {
      var n := |items|;
      var init := items[..n - 1];
      FileAllHas(init, key, val, k);
      if key(items[n - 1]) != k {
        if j :| 0 <= j < n && key(items[j]) == k {
          assert init[j] == items[j];
        }
        if j :| 0 <= j < |init| && key(init[j]) == k && FileAll(init, key, val)[k] == val(init[j]) {
          assert init[j] == items[j];
        }
      }
    }
  }

  /** The entry of a key holds the LAST item with that key. */
  lemma {:induction false} FileAllLastWins<T, V>(items: seq<T>, key: T -> string, val: T -> V, j: nat)
    requires j < |items|
    requires forall l :: j < l < |items| ==> key(items[l]) != key(items[j])
    ensures key(items[j]) in FileAll(items, key, val)
    ensures FileAll(items, key, val)[key(items[j])] == val(items[j])
  {
    var n := |items|;
    if j < n - 1 {
      var init := items[..n - 1];
      assert init[j] == items[j];
      assert forall l :: j < l < |init| ==> init[l] == items[l];
      FileAllLastWins(init, key, val, j);
      assert key(items[n - 1]) != key(items[j]);
    }
  }

  /** `mealsMap` after the `forEach` over the server's meals: one entry per
      date key that occurs, each filed under its own date. */
  function MealsMapOf(meals: seq<ServerMeal>): (r: map<string, GridMeal>)
    ensures forall k :: k in r <==> exists j :: 0 <= j < |meals| && DateKey(meals[j]) == k
    ensures forall k :: k in r ==> r[k].date == k
  {
    MealsMapKeys(meals);
    FileAll(meals, DateKey, SlotOf)
  }

  lemma MealsMapKeys(meals: seq<ServerMeal>)
    ensures forall k :: k in FileAll(meals, DateKey, SlotOf) <==> exists j :: 0 <= j < |meals| && DateKey(meals[j]) == k
    ensures forall k :: k in FileAll(meals, DateKey, SlotOf) ==> FileAll(meals, DateKey, SlotOf)[k].date == k
  {
    forall k: string
      ensures k in FileAll(meals, DateKey, SlotOf) <==> exists j :: 0 <= j < |meals| && DateKey(meals[j]) == k
      ensures k in FileAll(meals, DateKey, SlotOf) ==> FileAll(meals, DateKey, SlotOf)[k].date == k
    {
      FileAllHas(meals, DateKey, SlotOf, k);
    }
  }

  /** The `forEach` filling `mealsMap`. */
  method BuildMealsMap(meals: seq<ServerMeal>) returns (mealsMap: map<string, GridMeal>)
    ensures mealsMap == MealsMapOf(meals)
  {
    mealsMap := map[];
    for i := 0 to |meals|
      invariant mealsMap == FileAll(meals[..i], DateKey, SlotOf)
    {
      assert meals[..i + 1][..i] == meals[..i];
      mealsMap := mealsMap[DateKey(meals[i]) := SlotOf(meals[i])];
    }
    assert meals[..|meals|] == meals;
  }

  /** A date gets an entry exactly when some server meal falls on it, and
      the entry is the LAST such meal: a later meal on the same date
      overwrites an earlier one. */
  lemma MealsMapLastWins(meals: seq<ServerMeal>, key: string)
    ensures key in MealsMapOf(meals) <==> exists j :: 0 <= j < |meals| && DateKey(meals[j]) == key
    ensures key in MealsMapOf(meals) ==> MealsMapOf(meals)[key].date == key
    ensures forall j ::
      (0 <= j < |meals| && DateKey(meals[j]) == key && (forall l :: j < l < |meals| ==> DateKey(meals[l]) != key))
      ==> MealsMapOf(meals)[key] == SlotOf(meals[j])
  {
    FileAllHas(meals, DateKey, SlotOf, key);
    forall j | 0 <= j < |meals| && DateKey(meals[j]) == key
        && (forall l :: j < l < |meals| ==> DateKey(meals[l]) != key)
      ensures MealsMapOf(meals)[key] == SlotOf(meals[j])
    {
      FileAllLastWins(meals, DateKey, SlotOf, j);
    }
  }

  /** `weekDates.map(date => mealsMap[date] || empty)`. */
  function MergeGrid(dates: seq<string>, mealsMap: map<string, GridMeal>): (grid: seq<GridMeal>)
    ensures |grid| == |dates|
  {
    seq(|dates|, i requires 0 <= i < |dates| =>
      if dates[i] in mealsMap then mealsMap[dates[i]] else EmptySlot(dates[i]))
  }

  /** What the server answered for the shown week. */
  datatype FetchResult = FetchFailed | NoSchedule | Found(meals: seq<ServerMeal>)

  /** The grid shown after loading the week starting at `start`. */
  function GridAfterFetch(start: CalendarDate, result: FetchResult): (grid: seq<GridMeal>)
    ensures |grid| == 7
  {
    match result
    case Found(meals) => MergeGrid(WeekDates(start), MealsMapOf(meals))
    case _ => MergeGrid(WeekDates(start), map[])
  }

  /** `fetchSchedule`'s effect on the meals list. */
  method LoadWeek(start: CalendarDate, result: FetchResult) returns (grid: seq<GridMeal>)
    ensures grid == GridAfterFetch(start, result)
  {
    var dates := GetWeekDates(start);
    var mealsMap: map<string, GridMeal> := map[];
    if result.Found? {
      mealsMap := BuildMealsMap(result.meals);
    }
    grid := MergeGrid(dates, mealsMap);
  }

  /** The loaded grid has the week's seven dates in order; a day without a
      server meal is empty, a day with server meals shows the last of them,
      and meals outside the week appear nowhere. */
  lemma GridAfterFetchContents(start: CalendarDate, meals: seq<ServerMeal>, i: nat)
    requires i < 7
    ensures var grid := GridAfterFetch(start, Found(meals));
      var date := WeekDates(start)[i];
      && grid[i].date == date
      && ((forall j :: 0 <= j < |meals| ==> DateKey(meals[j]) != date) ==> grid[i] == EmptySlot(date))
      && (forall j :: 0 <= j < |meals| && DateKey(meals[j]) == date
            && (forall l :: j < l < |meals| ==> DateKey(meals[l]) != date)
            ==> grid[i] == SlotOf(meals[j]))
  {
    MealsMapLastWins(meals, WeekDates(start)[i]);
  }

  /** Without a schedule, or after a failed fetch, the grid is seven empty days. */
  lemma EmptyWeekWithoutSchedule(start: CalendarDate, result: FetchResult)
    requires !result.Found?
    ensures forall i :: 0 <= i < 7 ==> GridAfterFetch(start, result)[i] == EmptySlot(WeekDates(start)[i])
  {
  }

  // -------------------------------------------------------------- editing

  /** The dates of a meals list, in order. */
  function Dates(meals: seq<GridMeal>): (ds: seq<string>)
    ensures |ds| == |meals|
  {
    seq(|meals|, i requires 0 <= i < |meals| => meals[i].date)
  }

  predicate DistinctDates(meals: seq<GridMeal>) {
    forall i, j :: 0 <= i < j < |meals| ==> meals[i].date != meals[j].date
  }

  /** Every loaded grid has distinct dates. */
  lemma LoadedGridHasDistinctDates(start: CalendarDate, result: FetchResult)
    ensures DistinctDates(GridAfterFetch(start, result))
  {
    WeekDatesDistinct(start);
    var grid := GridAfterFetch(start, result);
    forall i | 0 <= i < 7
      ensures grid[i].date == WeekDates(start)[i]
    {
      if result.Found? {
        GridAfterFetchContents(start, result.meals, i);
      }
    }
  }

  /** `handleSelectDish`: set `dishId` on the meal of that date. */
  function SelectDish(meals: seq<GridMeal>, date: string, dishId: DishRef): (r: seq<GridMeal>)
    ensures |r| == |meals| && Dates(r) == Dates(meals)
    ensures forall i :: 0 <= i < |meals| && meals[i].date != date ==> r[i] == meals[i]
    ensures forall i :: 0 <= i < |meals| && meals[i].date == date ==>
      r[i].dishId == dishId && r[i].notes == meals[i].notes
  {
    seq(|meals|, i requires 0 <= i < |meals| =>
      if meals[i].date == date then meals[i].(dishId := dishId) else meals[i])
  }

  /** `handleRemoveDish`: clear the dish and the notes of that date. */
  function RemoveDish(meals: seq<GridMeal>, date: string): (r: seq<GridMeal>)
    ensures |r| == |meals| && Dates(r) == Dates(meals)
    ensures forall i :: 0 <= i < |meals| && meals[i].date != date ==> r[i] == meals[i]
    ensures forall i :: 0 <= i < |meals| && meals[i].date == date ==> r[i] == EmptySlot(date)
  {
    seq(|meals|, i requires 0 <= i < |meals| =>
      if meals[i].date == date then meals[i].(dishId := NullRef, notes := "") else meals[i])
  }

  /** `handleUpdateNotes`: set the notes of that date. */
  function UpdateNotes(meals: seq<GridMeal>, date: string, notes: string): (r: seq<GridMeal>)
    ensures |r| == |meals| && Dates(r) == Dates(meals)
    ensures forall i :: 0 <= i < |meals| && meals[i].date != date ==> r[i] == meals[i]
    ensures forall i :: 0 <= i < |meals| && meals[i].date == date ==>
      r[i].notes == notes && r[i].dishId == meals[i].dishId
  {
    seq(|meals|, i requires 0 <= i < |meals| =>
      if meals[i].date == date then meals[i].(notes := notes) else meals[i])
  }

  /** On a grid with distinct dates, an edit of a date in the grid changes
      exactly that one slot. */
  lemma EditTouchesOneSlot(meals: seq<GridMeal>, k: nat, dishId: DishRef, notes: string)
    requires DistinctDates(meals) && k < |meals|
    ensures var d := meals[k].date;
      && (forall i :: 0 <= i < |meals| && i != k ==>
            SelectDish(meals, d, dishId)[i] == meals[i]
            && RemoveDish(meals, d)[i] == meals[i]
            && UpdateNotes(meals, d, notes)[i] == meals[i])
      && SelectDish(meals, d, dishId)[k] == meals[k].(dishId := dishId)
      && RemoveDish(meals, d)[k] == EmptySlot(d)
      && UpdateNotes(meals, d, notes)[k] == meals[k].(notes := notes)
  {
  }

  /** Removing after selecting leaves no trace of the selection, and a
      second removal changes nothing. */
  lemma RemoveAfterSelect(meals: seq<GridMeal>, date: string, dishId: DishRef)
    ensures RemoveDish(SelectDish(meals, date, dishId), date) == RemoveDish(meals, date)
    ensures RemoveDish(RemoveDish(meals, date), date) == RemoveDish(meals, date)
  {
  }

  /** Edits of two different dates do not interfere. */
  lemma EditsOnDifferentDatesCommute(meals: seq<GridMeal>, d1: string, d2: string, dishId: DishRef, notes: string)
    requires d1 != d2
    ensures SelectDish(UpdateNotes(meals, d1, notes), d2, dishId) == UpdateNotes(SelectDish(meals, d2, dishId), d1, notes)
  {
  }

  // ----------------------------------------------------------------- save

  /** One element of the request body. `date` is the day whose local noon
      is sent (`new Date(y, m - 1, d, 12).toISOString()`). */
  datatype PayloadMeal = PayloadMeal(date: CalendarDate, dishId: Option<string>, notes: string)

  /** `dishId` as sent: the id string, a populated object's `_id`, or null;
      an object without `_id` is sent as its `toString()`. */
  function PayloadDishId(r: DishRef): (id: Option<string>)
    ensures !Truthy(r) <==> id.None?
    ensures r.IdRef? && Truthy(r) ==> id == Some(r.id)
    ensures r.DishObject? && r.objectId != "" ==> id == Some(r.objectId)
  {
    match r
    case NullRef => None
    case IdRef(id) => if id == "" then None else Some(id)
    case DishObject(oid) => if oid == "" then Some("[object Object]") else Some(oid)
  }

  /** The body of one meal, or None when its date text does not name a
      calendar date. For a part that reads as NaN ("NaN-NaN-NaN") the date
      is invalid, `toISOString` throws and the save is abandoned; texts that
      `new Date` would roll over to another day ("2024-02-30") are also
      None here, see README "Left out". */
  function NormalizeMeal(m: GridMeal): (r: Option<PayloadMeal>)
    ensures r.Some? <==> ParseIsoDate(m.date).Some?
    ensures r.Some? ==> (r.value.date == ParseIsoDate(m.date).value
      && r.value.dishId == PayloadDishId(m.dishId) && r.value.notes == m.notes)
  {
    match ParseIsoDate(m.date)
    case None => None
    case Some(d) => Some(PayloadMeal(d, PayloadDishId(m.dishId), m.notes))
  }

  /** `meals.map(normalize)`: same length and order, or the whole save fails. */
  function NormalizeForSave(meals: seq<GridMeal>): (r: Option<seq<PayloadMeal>>)
    ensures r.Some? <==> forall i :: 0 <= i < |meals| ==> NormalizeMeal(meals[i]).Some?
    ensures r.Some? ==> (|r.value| == |meals|
      && forall i :: 0 <= i < |meals| ==> r.value[i] == NormalizeMeal(meals[i]).value)
  {
    if forall i :: 0 <= i < |meals| ==> NormalizeMeal(meals[i]).Some? then
      Some(seq(|meals|, i requires 0 <= i < |meals| => NormalizeMeal(meals[i]).value))
    else None
  }

  /** Saving a grid built for a week sends one meal per day of that week, in
      order, for any week from the year 100 on. */
  lemma SavedGridCoversWeek(start: CalendarDate, result: FetchResult)
    requires forall i :: 0 <= i < 7 ==> AddDays(start, i).year >= 100
    ensures var grid := GridAfterFetch(start, result);
      var payload := NormalizeForSave(grid);
      payload.Some? && |payload.value| == 7
      && forall i :: 0 <= i < 7 ==> (payload.value[i].date == AddDays(start, i)
           && payload.value[i].dishId == PayloadDishId(grid[i].dishId))
  {
    var grid := GridAfterFetch(start, result);
    forall i | 0 <= i < 7
      ensures grid[i].date == IsoDate(AddDays(start, i))
      ensures ParseIsoDate(grid[i].date) == Some(AddDays(start, i))
    {
      if result.Found? {
        GridAfterFetchContents(start, result.meals, i);
      }
      ParseIsoDateRoundTrip(AddDays(start, i));
    }
  }
}
