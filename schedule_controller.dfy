/** The lunch-schedule endpoints: save a week (validate every meal, normalise
    its date, then create or replace), read one week, list the active weeks
    page by page, generate a week from the user's favourites, soft-delete. */
module LunchScheduleController {
  import opened Wrappers
  import opened LunchSchedule
  import DishModel
  import Pagination
  import CivilDates

  type Catalog = map<Id, DishModel.Dish>

  /** A date field of a request: `Absent` for a missing or falsy value,
      otherwise what `new Date(value)` parsed (`None` for an Invalid Date). */
  datatype DateParam = Absent | Given(parsed: Option<Millis>)

  /** One element of the request's `meals` array; `dishId` and `notes` are
      `None` when missing. An empty `dishId` is falsy as well (`GivenDish`). */
  datatype MealInput = MealInput(date: DateParam, dishId: Option<Id>, notes: Option<string>)

  /** The dish `if (meal.dishId)` looks up and `meal.dishId || null` stores:
      a missing or empty id is no dish. */
  function GivenDish(m: MealInput): (d: Option<Id>)
    ensures d.Some? <==> m.dishId.Some? && m.dishId.value != ""
    ensures d.Some? ==> d == m.dishId
  {
    if m.dishId == Some("") then None else m.dishId
  }

  datatype ScheduleError =
    | WeekStartRequired | WeekStartInvalid | MealsNotArray
    | MealDateMissing | MealDateInvalid | DishNotFound(dishId: Id)
    | SaveFailed(cause: SaveError) | ScheduleNotFound

  /** The HTTP status each failure is answered with. */
  function Status(e: ScheduleError): (code: int)
    ensures e.DishNotFound? || e.ScheduleNotFound? <==> code == 404
    ensures e.SaveFailed? <==> code == 500
    ensures code in {400, 404, 500}
  {
    match e
    case DishNotFound(_) => 404
    case ScheduleNotFound => 404
    case SaveFailed(_) => 500
    case _ => 400
  }

  // ---------------------------------------------------------------- dates

  /** 1970-01-01, the zero of `Millis`, as a day count from 0000-01-01
      (`CivilDates.DayNumber`). */
  const EpochDay := 719528
  /** The day count of 0100-01-01. */
  const Year100Day := 36525
  /** How far `Date.UTC` moves a day of the years 1 to 99, and of year 0 after
      29 February: from year y to year 1900 + y. */
  const CenturiesShift := 693960

  /** `t` falls in the years 0 to 99 (UTC). */
  predicate InTwoDigitYear(t: Millis) {
    0 <= t / DayMs + EpochDay < Year100Day
  }

  /** `Date.UTC(y, m - 1, d)` in days from the epoch: ECMAScript's MakeDay,
      with a year from 0 to 99 read as 1900 + year and a day past the end of
      its month running on into the next. */
  function UtcDay(y: int, m: int, d: int): int
    requires 1 <= m <= 12
  {
    var year := CivilDates.ConstructorYear(y);
    CivilDates.DaysBeforeYear(year) + CivilDates.DaysBeforeMonth(year, m) + d - 1 - EpochDay
  }

  /** `Date.UTC(t.getUTCFullYear(), t.getUTCMonth(), t.getUTCDate(), 0, 0, 0, 0)`,
      computed on the day count: midnight (UTC) of the day holding `t`, except
      that `Date.UTC` moves a day of the years 0 to 99 to the same month and
      day of 1900 + year. Up to 29 February of year 0 the move is one day
      longer, so that 29 February 0000, which 1900 lacks, becomes 1 March 1900. */
  function NormalizeToUtcDay(t: Millis): (n: Millis)
    ensures n % DayMs == 0
    ensures !InTwoDigitYear(t) ==> n <= t < n + DayMs
    ensures InTwoDigitYear(t) ==> t < n && !InTwoDigitYear(n)
  {
    var day := t / DayMs;
    var k := day + EpochDay;
    if 0 <= k < 60 then (day + CenturiesShift + 1) * DayMs
    else if 60 <= k < Year100Day then (day + CenturiesShift) * DayMs
    else day * DayMs
  }

  /** The normalisation is `Date.UTC` of the UTC calendar fields of `t`:
      whatever date `d` holds `t`, the result is midnight of `UtcDay` of
      `d`'s year, month and day. */
  lemma NormalizeIsUtcOfFields(d: CivilDates.Date, t: Millis)
    requires CivilDates.Valid(d) && t / DayMs == CivilDates.DayNumber(d) - EpochDay
    ensures NormalizeToUtcDay(t) == UtcDay(d.year, d.month, d.day) * DayMs
  {
    var k := CivilDates.DayNumber(d);
    NormalizeOfDay(t, k);
    if d.year < 0 || d.year >= 100 {
      UtcDayOutsideTwoDigitYears(d);
    } else if d.year == 0 {
      UtcDayYearZero(d);
    } else {
      UtcDayYears1To99(d);
    }
  }

  /** A meal dated in the years 0 to 99 is stored on the same month and day
      of 1900 + year: 0050-01-03T12:00Z becomes 1950-01-03T00:00Z. Only
      29 February 0000, which 1900 lacks, becomes 1 March 1900. */
  lemma TwoDigitYearMovesTo1900s(d: CivilDates.Date, t: Millis)
    requires CivilDates.Valid(d) && 0 <= d.year <= 99
    requires t / DayMs == CivilDates.DayNumber(d) - EpochDay
    ensures d != CivilDates.Date(0, 2, 29) ==>
      && CivilDates.Valid(CivilDates.Date(1900 + d.year, d.month, d.day))
      && NormalizeToUtcDay(t) == (CivilDates.DayNumber(CivilDates.Date(1900 + d.year, d.month, d.day)) - EpochDay) * DayMs
    ensures d == CivilDates.Date(0, 2, 29) ==>
      NormalizeToUtcDay(t) == (CivilDates.DayNumber(CivilDates.Date(1900 + d.year, 3, 1)) - EpochDay) * DayMs
  {
    NormalizeIsUtcOfFields(d, t);
    UtcDayIn1900s(d);
  }

  /** `Date.UTC` of a day of the years 0 to 99 is that day of 1900 + year,
      with 29 February 0000 running on to 1 March 1900. */
  lemma UtcDayIn1900s(d: CivilDates.Date)
    requires CivilDates.Valid(d) && 0 <= d.year <= 99
    ensures d != CivilDates.Date(0, 2, 29) ==>
      && CivilDates.Valid(CivilDates.Date(1900 + d.year, d.month, d.day))
      && UtcDay(d.year, d.month, d.day) == CivilDates.DayNumber(CivilDates.Date(1900 + d.year, d.month, d.day)) - EpochDay
    ensures d == CivilDates.Date(0, 2, 29) ==>
      UtcDay(d.year, d.month, d.day) == CivilDates.DayNumber(CivilDates.Date(1900 + d.year, 3, 1)) - EpochDay
  {
    var c := 1900 + d.year;
    assert UtcDay(d.year, d.month, d.day) ==
      CivilDates.DaysBeforeYear(c) + CivilDates.DaysBeforeMonth(c, d.month) + d.day - 1 - EpochDay;
    if d.year > 0 {
      SameLeapAs1900s(d.year);
    } else {
      assert !CivilDates.IsLeapYear(c);
      assert CivilDates.DaysBeforeMonth(c, 3) == CivilDates.DaysBeforeMonth(c, 2) + 28;
    }
  }

  /** The normalisation read on the day count `k` from 0000-01-01. */
  lemma NormalizeOfDay(t: Millis, k: int)
    requires t / DayMs == k - EpochDay
    ensures NormalizeToUtcDay(t) == DayMs *
      (if 0 <= k < 60 then k - EpochDay + CenturiesShift + 1
       else if 60 <= k < Year100Day then k - EpochDay + CenturiesShift
       else k - EpochDay)
  {
  }

  /** Before year 0 and from year 100 on, `Date.UTC` keeps the day. */
  lemma UtcDayOutsideTwoDigitYears(d: CivilDates.Date)
    requires CivilDates.Valid(d) && (d.year < 0 || d.year >= 100)
    ensures var k := CivilDates.DayNumber(d);
      (k < 0 || k >= Year100Day) && UtcDay(d.year, d.month, d.day) == k - EpochDay
  {
    CivilDates.DayNumberInYear(d);
    if d.year < 0 {
      CivilDates.DaysBeforeYearGrows(d.year + 1, 0);
    } else {
      Year100DayIsYear100();
      CivilDates.DaysBeforeYearGrows(100, d.year);
    }
  }

  /** Year 0 is a leap year and 1900 is not: up to 29 February `Date.UTC`
      moves the day by one day more than the shift, from March on by the
      shift. */
  lemma UtcDayYearZero(d: CivilDates.Date)
    requires CivilDates.Valid(d) && d.year == 0
    ensures var k := CivilDates.DayNumber(d);
      && 0 <= k < Year100Day
      && (k < 60 ==> UtcDay(d.year, d.month, d.day) == k - EpochDay + CenturiesShift + 1)
      && (k >= 60 ==> UtcDay(d.year, d.month, d.day) == k - EpochDay + CenturiesShift)
  {
    var z, c, m := d.year, 1900 + d.year, d.month;
    var inZero := CivilDates.DaysBeforeMonth(z, m) + d.day - 1;
    var in1900 := CivilDates.DaysBeforeMonth(c, m) + d.day - 1;
    assert CivilDates.DayNumber(d) == inZero;
    assert UtcDay(z, m, d.day) == CivilDates.DaysBeforeYear(c) + in1900 - EpochDay;
    ShiftOfYearZero();
    CivilDates.YearZeroAhead(m);
    CivilDates.YearZeroMonths(m);
  }

  /** The years 1 to 99 agree with 1900 to 1999 on leap years, so `Date.UTC`
      moves each of their days by the shift. */
  lemma UtcDayYears1To99(d: CivilDates.Date)
    requires CivilDates.Valid(d) && 1 <= d.year <= 99
    ensures var k := CivilDates.DayNumber(d);
      60 <= k < Year100Day && UtcDay(d.year, d.month, d.day) == k - EpochDay + CenturiesShift
  {
    var y, c, m := d.year, 1900 + d.year, d.month;
    var inY := CivilDates.DaysBeforeMonth(y, m) + d.day - 1;
    var inC := CivilDates.DaysBeforeMonth(c, m) + d.day - 1;
    assert CivilDates.DayNumber(d) == CivilDates.DaysBeforeYear(y) + inY;
    assert UtcDay(y, m, d.day) == CivilDates.DaysBeforeYear(c) + inC - EpochDay;
    CivilDates.DaysBeforeMonthEnd(y, m);
    CivilDates.DaysBeforeNextYear(y);
    CivilDates.DaysBeforeYearGrows(0, y);
    CivilDates.DaysBeforeYearGrows(y + 1, 100);
    Year100DayIsYear100();
    ShiftOfYear(y);
    SameLeapAs1900s(y);
    CivilDates.SameLeapSameMonths(y, c, m);
  }

  /** `Year100Day` is the day count of 0100-01-01. */
  lemma Year100DayIsYear100()
    ensures CivilDates.DaysBeforeYear(100) == Year100Day
  {
    CivilDates.DaysBeforeYearValue(100, Year100Day);
  }

  /** `EpochDay` is the day count of 1970-01-01. */
  lemma EpochDayIs1970()
    ensures CivilDates.DayNumber(CivilDates.Date(1970, 1, 1)) == EpochDay
  {
    CivilDates.DaysBeforeYearValue(1970, EpochDay);
  }

  /** From 0000-01-01 to 1900-01-01 is one day more than the shift. */
  lemma ShiftOfYearZero()
    ensures CivilDates.DaysBeforeYear(1900) == CenturiesShift + 1
  {
    CivilDates.DaysBeforeYearValue(1900, CenturiesShift + 1);
  }

  /** From 1 January of a year y in 1 to 99 to 1 January of 1900 + y is the
      shift. */
  lemma ShiftOfYear(y: int)
    requires 1 <= y <= 99
    ensures CivilDates.DaysBeforeYear(1900 + y) - CivilDates.DaysBeforeYear(y) == CenturiesShift
  {
    LeapYearsOver1900Years(y);
    CivilDates.DaysBeforeYearValue(y, 365 * y + CivilDates.LeapYearsBefore(y));
    CivilDates.DaysBeforeYearValue(1900 + y, 365 * (1900 + y) + CivilDates.LeapYearsBefore(1900 + y));
  }

  /** 460 leap years lie between a year y in 1 to 99 and 1900 + y. */
  lemma LeapYearsOver1900Years(y: int)
    requires 1 <= y <= 99
    ensures CivilDates.LeapYearsBefore(1900 + y) - CivilDates.LeapYearsBefore(y) == 460
  {
    assert (1900 + y + 3) / 4 == (y + 3) / 4 + 475;
    assert (1900 + y + 99) / 100 == 20 && (y + 99) / 100 == 1;
    assert (1900 + y + 399) / 400 == 5 && (y + 399) / 400 == 1;
  }

  lemma SameLeapAs1900s(y: int)
    requires 1 <= y <= 99
    ensures CivilDates.IsLeapYear(y) == CivilDates.IsLeapYear(1900 + y)
  {
  }

  /** The midnight at or before `t` and less than a day before it is what
      `t` normalises to, outside the years 0 to 99. */
  lemma NormalizeUnique(t: Millis, n: Millis)
    requires !InTwoDigitYear(t)
    requires n % DayMs == 0 && n <= t < n + DayMs
    ensures NormalizeToUtcDay(t) == n
  {
  }

  /** Normalising an already normalised date changes nothing. */
  lemma NormalizeIdempotent(t: Millis)
    ensures NormalizeToUtcDay(NormalizeToUtcDay(t)) == NormalizeToUtcDay(t)
  {
    NormalizeUnique(NormalizeToUtcDay(t), NormalizeToUtcDay(t));
  }

  /** Two instants on the same UTC day normalise to the same date. */
  lemma SameUtcDaySameDate(t1: Millis, t2: Millis)
    requires t1 / DayMs == t2 / DayMs
    ensures NormalizeToUtcDay(t2) == NormalizeToUtcDay(t1)
  {
  }

  /** `endDate.setDate(endDate.getDate() + 6)`. */
  function WeekEnd(start: Millis): (end: Millis)
    ensures end - start == 6 * DayMs
  {
    start + 6 * DayMs
  }

  /** `if (!weekStartDate) ...; new Date(weekStartDate); if (isNaN(...)) ...` */
  function ParseWeekStart(p: DateParam): (r: Result<Millis, ScheduleError>)
    ensures p.Absent? ==> r == Failure(WeekStartRequired)
    ensures p.Given? && p.parsed.None? ==> r == Failure(WeekStartInvalid)
    ensures p.Given? && p.parsed.Some? ==> r == Success(p.parsed.value)
  {
    match p
    case Absent => Failure(WeekStartRequired)
    case Given(None) => Failure(WeekStartInvalid)
    case Given(Some(t)) => Success(t)
  }

  // ---------------------------------------------------------------- meals

  /** The checks the save endpoint makes on one meal, in their order: the
      date is present, it parses, and a given dish exists in the catalogue.
      A meal that passes has its date normalised (`NormalizeToUtcDay`), a
      missing or empty dish id as null and missing notes as "". */
  function CheckMeal(m: MealInput, catalog: Catalog): (r: Result<MealFields, ScheduleError>)
    ensures m.date.Absent? ==> r == Failure(MealDateMissing)
    ensures m.date.Given? && m.date.parsed.None? ==> r == Failure(MealDateInvalid)
    ensures r.Failure? && r.error.DishNotFound? ==>
      m.dishId == Some(r.error.dishId) && r.error.dishId != "" && r.error.dishId !in catalog
    ensures r.Success? <==> m.date.Given? && m.date.parsed.Some? && (GivenDish(m).None? || GivenDish(m).value in catalog)
    ensures r.Success? ==> r.value.date == Some(NormalizeToUtcDay(m.date.parsed.value))
    ensures r.Success? ==> r.value.dishId == GivenDish(m) && (r.value.dishId.Some? ==> r.value.dishId.value in catalog)
    ensures r.Success? && m.dishId == Some("") ==> r.value.dishId.None?
    ensures r.Success? ==> r.value.notes == Some(if m.notes.None? then "" else m.notes.value)
  {
    match m.date
    case Absent => Failure(MealDateMissing)
    case Given(None) => Failure(MealDateInvalid)
    case Given(Some(t)) =>
      var dish := GivenDish(m);
      if dish.Some? && dish.value !in catalog then Failure(DishNotFound(dish.value))
      else Success(MealFields(Some(NormalizeToUtcDay(t)), dish, Some(if m.notes.None? then "" else m.notes.value)))
  }

  /** All-or-nothing validation of the meal list: it succeeds exactly when
      every meal passes, keeping one validated meal per input meal. */
  function ValidateMeals(meals: seq<MealInput>, catalog: Catalog): (r: Result<seq<MealFields>, ScheduleError>)
    ensures r.Success? <==> forall k :: 0 <= k < |meals| ==> CheckMeal(meals[k], catalog).Success?
    ensures r.Success? ==> |r.value| == |meals|
  {
    if meals == [] then Success([])
    else
      var head := CheckMeal(meals[0], catalog);
      if head.Failure? then Failure(head.error)
      else
        var rest := ValidateMeals(meals[1..], catalog);
        assert forall k :: 1 <= k < |meals| ==> meals[k] == meals[1..][k - 1];
        if rest.Failure? then Failure(rest.error)
        else Success([head.value] + rest.value)
  }

  /** Validation keeps the meals in input order. */
  lemma {:induction false} ValidatedMealAt(meals: seq<MealInput>, catalog: Catalog, k: nat)
    requires k < |meals| && ValidateMeals(meals, catalog).Success?
    ensures ValidateMeals(meals, catalog).value[k] == CheckMeal(meals[k], catalog).value
  {
    if k > 0 {
      ValidatedMealAt(meals[1..], catalog, k - 1);
      assert meals[1..][k - 1] == meals[k];
    }
  }

  /** The endpoint's `for (const meal of meals)` loop, filling
      `validatedMeals` and returning at the first failing meal. */
  method ValidateMealList(meals: seq<MealInput>, catalog: Catalog) returns (r: Result<seq<MealFields>, ScheduleError>)
    ensures r == ValidateMeals(meals, catalog)
  {
    var validated: seq<MealFields> := [];
    var i := 0;
    while i < |meals|
      invariant 0 <= i <= |meals|
      invariant |validated| == i
      invariant forall k :: 0 <= k < i ==> CheckMeal(meals[k], catalog).Success?
      invariant forall k :: 0 <= k < i ==> validated[k] == CheckMeal(meals[k], catalog).value
    {
      var checked := CheckMeal(meals[i], catalog);
      if checked.Failure? {
        FirstFailureIsReported(meals, catalog, i);
        return Failure(checked.error);
      }
      validated := validated + [checked.value];
      i := i + 1;
    }
    forall k | 0 <= k < |meals|
      ensures validated[k] == ValidateMeals(meals, catalog).value[k]
    {
      ValidatedMealAt(meals, catalog, k);
    }
    assert validated == ValidateMeals(meals, catalog).value;
    r := Success(validated);
  }

  /** When meal `i` is the first that fails, its error is the one reported. */
  lemma {:induction false} FirstFailureIsReported(meals: seq<MealInput>, catalog: Catalog, i: nat)
    requires i < |meals| && CheckMeal(meals[i], catalog).Failure?
    requires forall k :: 0 <= k < i ==> CheckMeal(meals[k], catalog).Success?
    ensures ValidateMeals(meals, catalog) == Failure(CheckMeal(meals[i], catalog).error)
  {
    if i > 0 {
      assert forall k :: 0 <= k < i - 1 ==> meals[1..][k] == meals[k + 1];
      FirstFailureIsReported(meals[1..], catalog, i - 1);
      assert meals[1..][i - 1] == meals[i];
    }
  }

  /** Every checked request field in endpoint order: week start, the meals
      array, then each meal. */
  function CheckSaveRequest(weekStart: DateParam, meals: Option<seq<MealInput>>, catalog: Catalog)
    : (r: Result<(Millis, seq<MealFields>), ScheduleError>)
    ensures ParseWeekStart(weekStart).Failure? ==> r == Failure(ParseWeekStart(weekStart).error)
    ensures ParseWeekStart(weekStart).Success? && meals.None? ==> r == Failure(MealsNotArray)
    ensures ParseWeekStart(weekStart).Success? && meals.Some? ==>
      (r.Success? <==> ValidateMeals(meals.value, catalog).Success?)
      && (r.Failure? ==> r.error == ValidateMeals(meals.value, catalog).error)
      && (r.Success? ==> r.value == (ParseWeekStart(weekStart).value, ValidateMeals(meals.value, catalog).value))
  {
    match ParseWeekStart(weekStart)
    case Failure(e) => Failure(e)
    case Success(start) =>
      if meals.None? then Failure(MealsNotArray)
      else
        match ValidateMeals(meals.value, catalog)
        case Failure(e) => Failure(e)
        case Success(v) => Success((start, v))
  }

  /** Validated meals all sit at UTC midnight and name only catalogue dishes. */
  lemma ValidatedMealsAreNormalized(weekStart: DateParam, meals: Option<seq<MealInput>>, catalog: Catalog)
    requires CheckSaveRequest(weekStart, meals, catalog).Success?
    ensures var v := CheckSaveRequest(weekStart, meals, catalog).value.1;
      forall k :: 0 <= k < |v| ==> (v[k].date.Some? && v[k].date.value % DayMs == 0
        && (v[k].dishId.Some? ==> v[k].dishId.value in catalog) && v[k].notes.Some?)
  {
    var v := CheckSaveRequest(weekStart, meals, catalog).value.1;
    forall k | 0 <= k < |v|
      ensures v[k].date.Some? && v[k].date.value % DayMs == 0
        && (v[k].dishId.Some? ==> v[k].dishId.value in catalog) && v[k].notes.Some?
    {
      ValidatedMealAt(meals.value, catalog, k);
    }
  }

  /** POST /lunch-schedule. Any failed check returns before the store is
      called; the week start is stored as parsed, the end six days later. */
  method CreateOrUpdateSchedule(store: ScheduleStore, catalog: Catalog, userId: Id,
                                weekStart: DateParam, meals: Option<seq<MealInput>>)
      returns (r: Result<Schedule, ScheduleError>)
    requires store.Valid()
    modifies store
    ensures store.Valid()
    ensures CheckSaveRequest(weekStart, meals, catalog).Failure? ==>
      r == Failure(CheckSaveRequest(weekStart, meals, catalog).error)
      && store.docs == old(store.docs) && store.nextId == old(store.nextId)
    ensures CheckSaveRequest(weekStart, meals, catalog).Success? ==>
      var (start, fields) := CheckSaveRequest(weekStart, meals, catalog).value;
      var key := Key(userId, start);
      if CastMeals(fields).Failure? then
        r == Failure(SaveFailed(CastMeals(fields).error))
        && store.docs == old(store.docs) && store.nextId == old(store.nextId)
      else
        && store.docs == Upsert(old(store.docs), old(store.nextId), key, WeekEnd(start), CastMeals(fields).value)
        && store.nextId == NextIdAfter(old(store.docs), old(store.nextId), key)
        && r == Success(store.docs[key])
  {
    var start;
    match ParseWeekStart(weekStart) {
      case Failure(e) => return Failure(e);
      case Success(t) => start := t;
    }
    var end := WeekEnd(start);
    if meals.None? {
      return Failure(MealsNotArray);
    }
    var validated := ValidateMealList(meals.value, catalog);
    if validated.Failure? {
      return Failure(validated.error);
    }
    var saved := store.CreateOrUpdate(userId, start, end, validated.value);
    match saved {
      case Failure(e) => r := Failure(SaveFailed(e));
      case Success(s) => r := Success(s);
    }
  }

  // --------------------------------------------------------- read paths

  /** A meal with its dish looked up: `populate("meals.dishId")`. */
  datatype PopulatedMeal = PopulatedMeal(date: Millis, dish: Option<DishModel.Dish>, notes: string)

  /** Populating keeps every meal in place; a dish missing from the
      catalogue reads as null instead of failing. */
  function Populate(meals: seq<MealSlot>, catalog: Catalog): (r: seq<PopulatedMeal>)
    ensures |r| == |meals|
    ensures forall k :: 0 <= k < |meals| ==>
      r[k].date == meals[k].date && r[k].notes == meals[k].notes
      && (r[k].dish.Some? <==> meals[k].dishId.Some? && meals[k].dishId.value in catalog)
      && (r[k].dish.Some? ==> r[k].dish.value == catalog[meals[k].dishId.value])
  {
    seq(|meals|, k requires 0 <= k < |meals| =>
      PopulatedMeal(meals[k].date,
        if meals[k].dishId.Some? && meals[k].dishId.value in catalog then Some(catalog[meals[k].dishId.value]) else None,
        meals[k].notes))
  }

  /** GET /lunch-schedule/week: a week without an active plan is a success
      carrying null, not an error; a found plan is sent with its meals'
      dishes populated from the catalogue. */
  function GetScheduleByWeek(docs: map<Key, Schedule>, catalog: Catalog, userId: Id, weekStart: DateParam)
    : (r: Result<Option<(Schedule, seq<PopulatedMeal>)>, ScheduleError>)
    ensures ParseWeekStart(weekStart).Failure? ==> r == Failure(ParseWeekStart(weekStart).error)
    ensures ParseWeekStart(weekStart).Success? ==> r.Success?
    ensures r.Success? && r.value.Some? ==>
      var key := Key(userId, ParseWeekStart(weekStart).value);
      key in docs && r.value.value.0 == docs[key] && docs[key].isActive
      && r.value.value.1 == Populate(docs[key].meals, catalog)
    ensures r.Success? && r.value.None? ==>
      var key := Key(userId, ParseWeekStart(weekStart).value);
      key !in docs || !docs[key].isActive
  {
    match ParseWeekStart(weekStart)
    case Failure(e) => Failure(e)
    case Success(t) =>
      match LunchSchedule.Find(docs, userId, t)
      case None => Success(None)
      case Some(sch) => Success(Some((sch, Populate(sch.meals, catalog))))
  }

  /** The week starts of the user's active schedules. */
  function ActiveWeeks(docs: map<Key, Schedule>, userId: Id): set<Millis> {
    set k | k in docs && k.userId == userId && docs[k].isActive :: k.weekStartDate
  }

  /** A set of integers is empty or has an element. */
  lemma EmptyOrInhabited(s: set<int>)
    ensures s == {} || exists x :: x in s
  {
    if forall x :: x !in s {
      assert s == {};
    }
  }

  /** A finite non-empty set of integers has a largest element. */
  lemma {:induction false} MaxExists(s: set<int>)
    requires s != {}
    ensures exists m :: m in s && forall x :: x in s ==> x <= m
    decreases |s|
  {
    EmptyOrInhabited(s);
    var y :| y in s;
    if s - {y} != {} {
      MaxExists(s - {y});
      var m :| m in s - {y} && forall x :: x in s - {y} ==> x <= m;
      var top := if m < y then y else m;
      forall x | x in s
        ensures x <= top
      {
        if x != y {
          assert x in s - {y};
        }
      }
    } else {
      assert s == {y};
    }
  }

  /** The largest element of a non-empty set of integers. */
  function MaxOf(s: set<int>): (m: int)
    requires s != {}
    ensures m in s && forall x :: x in s ==> x <= m
  {
    MaxExists(s);
    var m :| m in s && forall x :: x in s ==> x <= m;
    m
  }

  /** The elements of a set of integers from largest to smallest. */
  function Descending(s: set<int>): (r: seq<int>)
    ensures |r| == |s|
    decreases |s|
  {
    if s == {} then []
    else
      var m := MaxOf(s);
      [m] + Descending(s - {m})
  }

  /** `Descending(s)` lists exactly the elements of `s`. */
  lemma {:induction false} DescendingMembers(s: set<int>)
    ensures forall x :: x in s <==> x in Descending(s)
    decreases |s|
  {
    if s != {} {
      var m := MaxOf(s);
      DescendingMembers(s - {m});
      assert Descending(s) == [m] + Descending(s - {m});
    }
  }

  /** `Descending(s)` is strictly decreasing. */
  lemma {:induction false} DescendingStrict(s: set<int>)
    ensures forall i, j :: 0 <= i < j < |Descending(s)| ==> Descending(s)[i] > Descending(s)[j]
    decreases |s|
  {
    if s != {} {
      var m := MaxOf(s);
      var rest := Descending(s - {m});
      DescendingStrict(s - {m});
      DescendingMembers(s - {m});
      var r := Descending(s);
      assert r == [m] + rest;
      forall i, j | 0 <= i < j < |r|
        ensures r[i] > r[j]
      {
        assert r[j] == rest[j - 1] && rest[j - 1] in s - {m};
        if i > 0 {
          assert r[i] == rest[i - 1];
        }
      }
    }
  }

  /** A week in `ActiveWeeks` is an active document stored under the user's key. */
  lemma ActiveWeekIsStored(docs: map<Key, Schedule>, userId: Id, w: Millis)
    requires Keyed(docs) && w in ActiveWeeks(docs, userId)
    ensures Key(userId, w) in docs && docs[Key(userId, w)].isActive
    ensures docs[Key(userId, w)].weekStartDate == w && docs[Key(userId, w)].userId == userId
  {
    var k :| k in docs && k.userId == userId && docs[k].isActive && k.weekStartDate == w;
    assert k == Key(userId, w);
  }

  /** The user's active schedules, newest week first:
      `find({userId, isActive: true}).sort({weekStartDate: -1})`. */
  function ActiveSchedules(docs: map<Key, Schedule>, userId: Id): (r: seq<Schedule>)
    requires Keyed(docs)
    ensures |r| == |ActiveWeeks(docs, userId)|
    ensures forall i :: 0 <= i < |r| ==>
      (Key(userId, r[i].weekStartDate) in docs && r[i] == docs[Key(userId, r[i].weekStartDate)] && r[i].isActive)
    ensures forall i, j :: 0 <= i < j < |r| ==> r[i].weekStartDate > r[j].weekStartDate
  {
    var weeks := Descending(ActiveWeeks(docs, userId));
    DescendingMembers(ActiveWeeks(docs, userId));
    DescendingStrict(ActiveWeeks(docs, userId));
    forall i | 0 <= i < |weeks|
      ensures Key(userId, weeks[i]) in docs && docs[Key(userId, weeks[i])].isActive
      ensures docs[Key(userId, weeks[i])].weekStartDate == weeks[i]
    {
      ActiveWeekIsStored(docs, userId, weeks[i]);
    }
    seq(|weeks|, i requires 0 <= i < |weeks| => docs[Key(userId, weeks[i])])
  }

  /** Every active schedule of the user is listed. */
  lemma ActiveSchedulesComplete(docs: map<Key, Schedule>, userId: Id, k: Key)
    requires Keyed(docs) && k in docs && k.userId == userId && docs[k].isActive
    ensures docs[k] in ActiveSchedules(docs, userId)
  {
    var r := ActiveSchedules(docs, userId);
    var weeks := Descending(ActiveWeeks(docs, userId));
    DescendingMembers(ActiveWeeks(docs, userId));
    assert k.weekStartDate in ActiveWeeks(docs, userId);
    var i :| 0 <= i < |weeks| && weeks[i] == k.weekStartDate;
    assert r[i].weekStartDate == weeks[i] by {
      ActiveWeekIsStored(docs, userId, weeks[i]);
    }
    assert r[i] == docs[k];
  }

  /** The body of GET /lunch-schedule. */
  datatype ScheduleList = ScheduleList(schedules: seq<Schedule>, pagination: Pagination.PageMeta)

  /** GET /lunch-schedule: one page of the active schedules (`limit`
      defaults to 10) and its metadata; a negative skip is a database error. */
  function GetAllSchedules(docs: map<Key, Schedule>, userId: Id, pageRaw: Option<int>, limitRaw: Option<int>)
    : (r: Option<ScheduleList>)
    requires Keyed(docs)
    ensures var q := Pagination.ParsePageQuery(pageRaw, limitRaw, 10);
      (r.None? <==> q.skip < 0)
      && (r.Some? ==> r.value.pagination == Pagination.Meta(q, |ActiveWeeks(docs, userId)|))
      && (r.Some? ==>
            |r.value.schedules| == Pagination.Min(Pagination.Abs(q.limit), Pagination.Max(0, |ActiveWeeks(docs, userId)| - q.skip)))
      && (r.Some? ==> forall i :: 0 <= i < |r.value.schedules| ==>
            q.skip + i < |ActiveWeeks(docs, userId)|
            && r.value.schedules[i] == ActiveSchedules(docs, userId)[q.skip + i])
  {
    var q := Pagination.ParsePageQuery(pageRaw, limitRaw, 10);
    var all := ActiveSchedules(docs, userId);
    var page := Pagination.Window(all, q.skip, q.limit);
    if page.None? then None
    else
      assert forall i :: 0 <= i < |page.value| ==> q.skip + i < |all| && page.value[i] == all[q.skip + i];
      Some(ScheduleList(page.value, Pagination.Meta(q, |all|)))
  }

  // ------------------------------------------------------------ generate

  /** `Math.floor(draw * n)` for a `Math.random()` draw in [0, 1). */
  function PickIndex(draw: real, n: nat): (i: int)
    requires 0.0 <= draw < 1.0
    ensures n > 0 ==> 0 <= i < n
    ensures n == 0 ==> i == 0
  {
    if n == 0 then 0
    else
      assert draw * (n as real) < n as real by {
        assert (1.0 - draw) * (n as real) > 0.0;
      }
      (draw * (n as real)).Floor
  }

  /** The meal for day `i` of a generated week: the date `i` days after the
      start, a dish drawn from the favourites (null when none resolved), no
      notes. */
  function PlannedMeal(start: Millis, dishes: seq<DishModel.Dish>, draw: real, i: nat): (m: MealFields)
    requires 0.0 <= draw < 1.0
    ensures m.date == Some(start + i * DayMs) && m.notes == Some("")
    ensures m.dishId.Some? <==> |dishes| > 0
    ensures m.dishId.Some? ==> exists d :: d in dishes && m.dishId.value == d.id
  {
    var idx := PickIndex(draw, |dishes|);
    MealFields(Some(start + i * DayMs), if idx < |dishes| then Some(dishes[idx].id) else None, Some(""))
  }

  /** `favorites.map(f => f.dishId).filter(Boolean)`: the favourites whose
      dish still resolves. */
  function ResolvedDishes(favorites: seq<Option<DishModel.Dish>>): (r: seq<DishModel.Dish>)
    ensures |r| <= |favorites|
    ensures forall d :: d in r <==> Some(d) in favorites
  {
    if favorites == [] then []
    else (if favorites[0].Some? then [favorites[0].value] else []) + ResolvedDishes(favorites[1..])
  }

  predicate Draws(draws: seq<real>) {
    |draws| >= 7 && forall i :: 0 <= i < |draws| ==> 0.0 <= draws[i] < 1.0
  }

  /** The generator's `for (let i = 0; i < 7; i++)` loop. */
  method PlanWeek(start: Millis, dishes: seq<DishModel.Dish>, draws: seq<real>) returns (meals: seq<MealFields>)
    requires Draws(draws)
    ensures |meals| == 7
    ensures forall i :: 0 <= i < 7 ==> meals[i] == PlannedMeal(start, dishes, draws[i], i)
  {
    meals := [];
    for i := 0 to 7
      invariant |meals| == i
      invariant forall k :: 0 <= k < i ==> meals[k] == PlannedMeal(start, dishes, draws[k], k)
    {
      meals := meals + [PlannedMeal(start, dishes, draws[i], i)];
    }
  }

  /** A generated week always passes the meal sub-schema. */
  lemma PlannedWeekIsAccepted(start: Millis, dishes: seq<DishModel.Dish>, draws: seq<real>, meals: seq<MealFields>)
    requires Draws(draws) && |meals| == 7
    requires forall i :: 0 <= i < 7 ==> meals[i] == PlannedMeal(start, dishes, draws[i], i)
    ensures CastMeals(meals).Success?
    ensures forall i :: 0 <= i < 7 ==> CastMeals(meals).value[i] == MealSlot(start + i * DayMs, meals[i].dishId, "")
  {
    assert Text.Trim("") == "";
  }

  /** POST /lunch-schedule/generate: zero favourites is a success with null
      and writes nothing; otherwise seven consecutive days from the start are
      written through the same create-or-update as a manual save. */
  method GenerateScheduleFromHistory(store: ScheduleStore, userId: Id, weekStart: DateParam,
                                     favorites: seq<Option<DishModel.Dish>>, draws: seq<real>)
      returns (r: Result<Option<Schedule>, ScheduleError>)
    requires store.Valid() && Draws(draws)
    modifies store
    ensures store.Valid()
    ensures ParseWeekStart(weekStart).Failure? ==>
      r == Failure(ParseWeekStart(weekStart).error) && store.docs == old(store.docs) && store.nextId == old(store.nextId)
    ensures ParseWeekStart(weekStart).Success? && favorites == [] ==>
      r == Success(None) && store.docs == old(store.docs) && store.nextId == old(store.nextId)
    ensures ParseWeekStart(weekStart).Success? && favorites != [] ==>
      var start := ParseWeekStart(weekStart).value;
      var key := Key(userId, start);
      var dishes := ResolvedDishes(favorites);
      && key in store.docs
      && r == Success(Some(store.docs[key]))
      && store.docs.Keys == old(store.docs).Keys + {key}
      && (forall k :: k in old(store.docs) && k != key ==> store.docs[k] == old(store.docs)[k])
      && store.docs[key].weekEndDate == WeekEnd(start)
      && (key in old(store.docs) ==>
            store.docs[key].id == old(store.docs)[key].id && store.docs[key].isActive == old(store.docs)[key].isActive
            && store.nextId == old(store.nextId))
      && (key !in old(store.docs) ==>
            store.docs[key].id == old(store.nextId) && store.docs[key].isActive && store.nextId == old(store.nextId) + 1)
      && |store.docs[key].meals| == 7
      && forall i :: 0 <= i < 7 ==>
           store.docs[key].meals[i] == MealSlot(start + i * DayMs, PlannedMeal(start, dishes, draws[i], i).dishId, "")
  {
    var start;
    match ParseWeekStart(weekStart) {
      case Failure(e) => return Failure(e);
      case Success(t) => start := t;
    }
    if |favorites| == 0 {
      return Success(None);
    }
    var dishes := ResolvedDishes(favorites);
    var meals := PlanWeek(start, dishes, draws);
    var end := WeekEnd(start);
    PlannedWeekIsAccepted(start, dishes, draws, meals);
    var saved := store.CreateOrUpdate(userId, start, end, meals);
    r := Success(Some(saved.value));
  }

  // -------------------------------------------------------------- delete

  /** The collection after `findOneAndUpdate({_id, userId}, {isActive: false})`. */
  function Deactivate(docs: map<Key, Schedule>, scheduleId: nat, userId: Id): (r: map<Key, Schedule>)
    ensures r.Keys == docs.Keys
    ensures forall k :: k in docs ==>
      r[k] == if docs[k].id == scheduleId && docs[k].userId == userId then docs[k].(isActive := false) else docs[k]
  {
    map k | k in docs :: if docs[k].id == scheduleId && docs[k].userId == userId then docs[k].(isActive := false) else docs[k]
  }

  /** Some document has that id and belongs to that user. */
  predicate Owns(docs: map<Key, Schedule>, scheduleId: nat, userId: Id) {
    exists k :: k in docs && docs[k].id == scheduleId && docs[k].userId == userId
  }

  /** DELETE /lunch-schedule/:scheduleId. */
  method DeleteSchedule(store: ScheduleStore, scheduleId: nat, userId: Id) returns (r: Result<(), ScheduleError>)
    requires store.Valid()
    modifies store
    ensures store.Valid() && store.nextId == old(store.nextId)
    ensures r.Success? <==> Owns(old(store.docs), scheduleId, userId)
    ensures r.Failure? ==> r.error == ScheduleNotFound && store.docs == old(store.docs)
    ensures r.Success? ==> store.docs == Deactivate(old(store.docs), scheduleId, userId)
  {
    if !Owns(store.docs, scheduleId, userId) {
      return Failure(ScheduleNotFound);
    }
    store.docs := Deactivate(store.docs, scheduleId, userId);
    r := Success(());
  }

  /** In a well-formed collection ids are unique, so a user cannot delete a
      schedule that belongs to someone else: the request gets the same 404
      as an id that does not exist. */
  lemma DeleteOnlyByOwner(docs: map<Key, Schedule>, nextId: nat, k: Key, userId: Id)
    requires WellFormed(docs, nextId) && k in docs && docs[k].userId != userId
    ensures !Owns(docs, docs[k].id, userId)
  {
  }

  /** The owner can always delete their own schedule, even one that is
      already inactive. */
  lemma OwnerCanDelete(docs: map<Key, Schedule>, k: Key)
    requires k in docs
    ensures Owns(docs, docs[k].id, docs[k].userId)
  {
  }

  /** After a delete the week no longer reads back, and no other document
      changes at all. */
  lemma DeletedWeekIsHidden(docs: map<Key, Schedule>, nextId: nat, k: Key)
    requires WellFormed(docs, nextId) && k in docs
    ensures var after := Deactivate(docs, docs[k].id, k.userId);
      LunchSchedule.Find(after, k.userId, k.weekStartDate) == None
      && forall k2 :: k2 in docs && k2 != k ==> after[k2] == docs[k2]
  {
  }
}
