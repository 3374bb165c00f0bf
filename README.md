# Chef's Picks — a Dafny model of the lunch-planning core

Chef's Picks is a restaurant web application: an Express/Mongoose server and a React client.
This project models the parts of it that hold its rules:

- **Weekly lunch schedule.** The `LunchSchedule` document has one document per user and
  week. The controller saves, reads, lists, generates and deletes schedules. The
  schedule page builds the Monday-to-Sunday grid, edits it and normalises it for saving.
- **Favourites.** The `FavoriteFood` collection is unique per user and dish. The
  favourite controller keeps each dish's `favoriteCount` equal to the number of
  favourite rows that point at it.
- **Dishes.** The `Dish` schema and its rating clamp. The dish routes: the paginated listing,
  the price-range query, the text search, lookup by id and placing an order.
- **Client pages.** The dish-detail cart kept in browser storage, the meal-history
  pager, the menu page's filters, sorts and favourite toggle, and the reset-password form.
- **Authentication.** Register, login, forgot and reset password, logout, and the
  bearer-token guard middleware.

Conventions:

- Server timestamps are integer milliseconds.
- Client calendar dates are `CivilDates.Date` records. `CivilDates.IsoDateInjective`
  justifies comparing them in place of their `YYYY-MM-DD` strings.
- Random draws, clocks, hashes, `jwt.verify`, `isValidObjectId` and the result of
  `express-validator` are parameters of the operations that use them.
- Objects the source updates in place are classes with `modifies` clauses. These are the
  schedule store, favourite service, user store, order collection, dish document and
  dish-detail page. Each of their methods is proved against the specification
  functions beside it.

Three behaviours of the code are worth noting:

- A note longer than 500 UTF-16 code units fails Mongoose validation inside `save`, and the
  controller's catch turns that into a 500, not a 400.
- The week start sent by the client is stored as given. Only the meal dates are moved
  to midnight UTC, and a meal date in the years 0 to 99 lands in 1900 to 1999, because
  `Date.UTC` reads a two-digit year that way.
- The dates of a generated schedule are `weekStart + i` days and are not normalised.

## Model

| member | source | states |
|---|---|---|
| LunchSchedule.CastMeal | server/src/models/LunchSchedule.js:20-37 | A meal without a date is rejected. A note whose trimmed text exceeds 500 UTF-16 code units (`maxlength` counts JavaScript's `length`) is rejected. An accepted meal keeps its date and dish, and its note is trimmed (default "") and at most 500 code units long. |
| LunchSchedule.CastMeals | server/src/models/LunchSchedule.js:20-38 | The meal list casts iff every meal is accepted. The result has the same length, each element being that meal's cast, and a failure names a failing meal. |
| LunchSchedule.Upsert | server/src/models/LunchSchedule.js:66-81 | The target key gets the new meals and end date, and every other document is unchanged. An existing document keeps its id and `isActive`; a new one gets the next id and is active. |
| LunchSchedule.UpsertWellFormed | server/src/models/LunchSchedule.js:50 | The upsert preserves the unique (user, week) index: documents are filed under their own key, and ids are distinct and below the id counter. |
| LunchSchedule.UpsertIdempotent | server/src/models/LunchSchedule.js:66-81 | Saving the same week twice gives the same store as saving it once. |
| LunchSchedule.LastWriteWins | server/src/models/LunchSchedule.js:69-72 | A second save of a week replaces the meals and end date of the first and keeps its id. |
| LunchSchedule.Find | server/src/models/LunchSchedule.js:57-63 | A schedule is found iff the (user, week) document exists and is active, and then it is that document. |
| LunchSchedule.FindAfterUpsert | server/src/models/LunchSchedule.js:39-42 | Right after a save of a new week, the lookup returns the saved meals (new documents are active by default). |
| LunchSchedule.ScheduleStore.FindByUserAndWeek | server/src/models/LunchSchedule.js:57-63 | The store's lookup agrees with `Find` on its documents. |
| LunchSchedule.ScheduleStore.CreateOrUpdate | server/src/models/LunchSchedule.js:66-81 | It succeeds iff the meals cast. On failure nothing changes. On success the documents become `Upsert` of the old ones and the well-formedness invariant is kept. |
| LunchScheduleController.Status | server/src/controllers/LunchScheduleController.js:12-116 | A missing dish or schedule is 404, a failed save 500, and every other error 400. |
| LunchScheduleController.NormalizeToUtcDay | server/src/controllers/LunchScheduleController.js:60-65 | The result is a UTC midnight. Outside the years 0 to 99 it is the midnight at or before the timestamp and within one day of it. Inside them it is a later midnight outside those years, since `Date.UTC` reads the year as 1900 + year. |
| LunchScheduleController.NormalizeIsUtcOfFields | server/src/controllers/LunchScheduleController.js:60-65 | For the calendar date holding the timestamp, the result is `Date.UTC` of that date's year, month and day (`UtcDay`: the constructor's year, with month-end overflow). |
| LunchScheduleController.TwoDigitYearMovesTo1900s | server/src/controllers/LunchScheduleController.js:60-65 | An instant in the years 0 to 99 is stored as midnight of the same month and day of 1900 + year. 29 February 0000 becomes 1 March 1900. |
| LunchScheduleController.UtcDayIn1900s | server/src/controllers/LunchScheduleController.js:60-65 | `Date.UTC` of a date in the years 0 to 99 is that day of 1900 + year, or 1 March 1900 for 29 February 0000. |
| LunchScheduleController.EpochDayIs1970 | server/src/controllers/LunchScheduleController.js:60-65 | The day count of 1970-01-01, the zero of the timestamps, is 719528. |
| LunchScheduleController.NormalizeUnique | server/src/controllers/LunchScheduleController.js:60-65 | Outside the years 0 to 99, any midnight within a day before the timestamp is the normalised value. |
| LunchScheduleController.NormalizeIdempotent | server/src/controllers/LunchScheduleController.js:60-65 | Normalising twice is normalising once. |
| LunchScheduleController.SameUtcDaySameDate | server/src/controllers/LunchScheduleController.js:60-65 | Two timestamps on the same UTC day (the same day count) normalise to the same date, in every year. |
| LunchScheduleController.WeekEnd | server/src/controllers/LunchScheduleController.js:29-30 | The week ends six days after it starts. |
| LunchScheduleController.ParseWeekStart | server/src/controllers/LunchScheduleController.js:12-26 | A missing week start is "required", an unparsable one "invalid", and otherwise it is the parsed instant. |
| LunchScheduleController.CheckMeal | server/src/controllers/LunchScheduleController.js:43-82 | A meal without a date, or with an unparsable one, is rejected. A non-empty unknown dish id is reported by id. An accepted meal has its normalised date, its dish (known to the catalogue; an empty id is stored as null) and its note (default ""). |
| LunchScheduleController.GivenDish | server/src/controllers/LunchScheduleController.js:68-80 | A dish is given iff the id is present and not empty (`if (meal.dishId)`; an empty id is stored as null), and then it is that id. |
| LunchScheduleController.ValidateMeals | server/src/controllers/LunchScheduleController.js:42-83 | The list is accepted iff every meal is accepted, and the result has the same length. |
| LunchScheduleController.ValidatedMealAt | server/src/controllers/LunchScheduleController.js:78-82 | Element k of the validated list is the check of meal k. |
| LunchScheduleController.ValidateMealList | server/src/controllers/LunchScheduleController.js:42-83 | The loop returns exactly `ValidateMeals`. |
| LunchScheduleController.FirstFailureIsReported | server/src/controllers/LunchScheduleController.js:42-83 | The error returned is the one of the first rejected meal. |
| LunchScheduleController.CheckSaveRequest | server/src/controllers/LunchScheduleController.js:12-83 | Week-start errors come first, then "meals must be an array", then the first meal error. On success it gives the week start and the validated meals. |
| LunchScheduleController.ValidatedMealsAreNormalized | server/src/controllers/LunchScheduleController.js:60-76 | Every accepted meal has a midnight-UTC date, a catalogue dish or none, and a note. |
| LunchScheduleController.CreateOrUpdateSchedule | server/src/controllers/LunchScheduleController.js:9-118 | A rejected request leaves the store and its id counter unchanged and returns its error. A cast failure is a 500 with the store unchanged. Otherwise the store is upserted at (user, week start) with end date start plus 6 days, the id counter moves on only for a new document, and the saved document is returned. |
| LunchScheduleController.Populate | server/src/controllers/LunchScheduleController.js:141-146 | Each meal keeps its date and note, and its dish is resolved iff its id is in the catalogue; a missing dish reads as null. |
| LunchScheduleController.GetScheduleByWeek | server/src/controllers/LunchScheduleController.js:126-159 | Week-start errors are returned. Otherwise the result is the active document for the week with its meals populated, or none when there is no active one. |
| LunchScheduleController.MaxOf | server/src/controllers/LunchScheduleController.js:178-186 | The result is the greatest element of a non-empty set of week starts. |
| LunchScheduleController.DescendingMembers | server/src/controllers/LunchScheduleController.js:178-186 | The descending listing holds exactly the active week starts. |
| LunchScheduleController.DescendingStrict | server/src/controllers/LunchScheduleController.js:178-186 | The listing is strictly newest first. |
| LunchScheduleController.ActiveWeekIsStored | server/src/controllers/LunchScheduleController.js:178-186 | Every listed week is an active stored document of that user. |
| LunchScheduleController.ActiveSchedules | server/src/controllers/LunchScheduleController.js:178-186 | The user's active documents, one per active week, strictly newest week first. |
| LunchScheduleController.ActiveSchedulesComplete | server/src/controllers/LunchScheduleController.js:178-186 | Every active document of the user is in the listing. |
| LunchScheduleController.GetAllSchedules | server/src/controllers/LunchScheduleController.js:174-206 | Page and limit default to 1 and 10, and a negative skip fails. The page holds exactly min(|limit|, total − skip) schedules, the ones at positions `skip..skip+limit` of the newest-first listing. The metadata counts all active weeks. |
| LunchScheduleController.PickIndex | server/src/controllers/LunchScheduleController.js:262-263 | `floor(random * n)` is a valid index for a non-empty list. |
| LunchScheduleController.PlannedMeal | server/src/controllers/LunchScheduleController.js:257-270 | Day i is start plus i days with an empty note. It has a dish iff there are favourite dishes, and that dish is one of them. |
| LunchScheduleController.ResolvedDishes | server/src/controllers/LunchScheduleController.js:255 | Favourites whose dish no longer exists are dropped, and every listed dish is one that resolved. |
| LunchScheduleController.PlanWeek | server/src/controllers/LunchScheduleController.js:257-270 | The loop produces seven meals, day i being `PlannedMeal` for draw i. |
| LunchScheduleController.PlannedWeekIsAccepted | server/src/controllers/LunchScheduleController.js:257-282 | A generated week always passes schema validation, and its stored slots are the planned days and dishes. |
| LunchScheduleController.GenerateScheduleFromHistory | server/src/controllers/LunchScheduleController.js:222-297 | A bad week start is returned with the store and id counter unchanged. No favourites gives null with the store unchanged. Otherwise the week is upserted with seven planned meals and every other document is untouched; an existing document keeps its id and active flag, a new one takes the next id and is active, and the counter moves on only then. |
| LunchScheduleController.Deactivate | server/src/controllers/LunchScheduleController.js:307-323 | Only the document with that id and owner loses `isActive`, and every other document is unchanged. |
| LunchScheduleController.DeleteSchedule | server/src/controllers/LunchScheduleController.js:304-331 | It succeeds iff the user owns a schedule with that id, and then soft-deletes it. Otherwise it is a 404 and nothing changes. |
| LunchScheduleController.DeleteOnlyByOwner | server/src/controllers/LunchScheduleController.js:307-312 | In a well-formed store (unique ids), a document belonging to another user is never matched by `{_id, userId}`, so the request is a 404. |
| LunchScheduleController.OwnerCanDelete | server/src/controllers/LunchScheduleController.js:307-312 | The owner's `{_id, userId}` query always matches their own document, active or not. |
| LunchScheduleController.DeletedWeekIsHidden | server/src/controllers/LunchScheduleController.js:307-323 | After deletion, the week lookup finds nothing, and other weeks are untouched. |
| LunchSchedulePage.EmptySlot | client/src/pages/LunchSchedulePage.jsx:118-121 | An empty slot has its date, no dish and an empty note. |
| LunchSchedulePage.MondayOffset | client/src/pages/LunchSchedulePage.jsx:14-19 | The offset to Monday is between -6 and 0: Sunday goes back 6 days and Monday stays. |
| LunchSchedulePage.MondayOf | client/src/pages/LunchSchedulePage.jsx:12-20 | The week the page opens on always starts on a Monday (`getDay()` is 1). |
| LunchSchedulePage.TodayIsInOpeningWeek | client/src/pages/LunchSchedulePage.jsx:14-19 | Today is day k of the opening week, k = (getDay() + 6) mod 7: day 0 exactly on a Monday and day 6 exactly on a Sunday. |
| LunchSchedulePage.NavigationInverse | client/src/pages/LunchSchedulePage.jsx:173-184 | "Previous week" and "next week" undo each other. |
| LunchSchedulePage.PreviousWeek | client/src/pages/LunchSchedulePage.jsx:172-177 | "Previous week" gives an earlier date on the same weekday. |
| LunchSchedulePage.NextWeek | client/src/pages/LunchSchedulePage.jsx:179-184 | "Next week" gives a later date on the same weekday. |
| LunchSchedulePage.WeekDates | client/src/pages/LunchSchedulePage.jsx:56-72 | A week has seven date keys. |
| LunchSchedulePage.GetWeekDates | client/src/pages/LunchSchedulePage.jsx:56-72 | The loop returns `WeekDates`. |
| LunchSchedulePage.WeekDatesConsecutive | client/src/pages/LunchSchedulePage.jsx:56-72 | The keys start at the week start and each is the day after the previous one. |
| LunchSchedulePage.WeekDatesDistinct | client/src/pages/LunchSchedulePage.jsx:56-72 | The seven keys are pairwise different. |
| LunchSchedulePage.GridRef | client/src/pages/LunchSchedulePage.jsx:105-108 | A falsy dish reference becomes null. A populated dish becomes its `_id`, and a plain id is kept. |
| LunchSchedulePage.DateKey | client/src/pages/LunchSchedulePage.jsx:97-102 | An Invalid Date is filed under "NaN-NaN-NaN"; a valid date's key parses back to that date for years from 100. |
| LunchSchedulePage.SlotOf | client/src/pages/LunchSchedulePage.jsx:110-114 | A server meal is filed under its own date key. |
| LunchSchedulePage.FileAllHas | client/src/pages/LunchSchedulePage.jsx:95-115 | A key is filled iff some meal has that date, and its entry is one of those meals. |
| LunchSchedulePage.FileAllLastWins | client/src/pages/LunchSchedulePage.jsx:95-115 | When several meals share a date, the last one wins. |
| LunchSchedulePage.MealsMapOf | client/src/pages/LunchSchedulePage.jsx:92-115 | The map has an entry exactly for each date key some meal has, and each entry carries its own key as date. |
| LunchSchedulePage.BuildMealsMap | client/src/pages/LunchSchedulePage.jsx:95-115 | The `forEach` loop builds exactly `MealsMapOf`. |
| LunchSchedulePage.MealsMapLastWins | client/src/pages/LunchSchedulePage.jsx:95-115 | The map has a key iff a meal has that date. Each entry carries its own date and is the last meal with that date. |
| LunchSchedulePage.MergeGrid | client/src/pages/LunchSchedulePage.jsx:118-121 | The grid has one slot per date of the week. |
| LunchSchedulePage.GridAfterFetch | client/src/pages/LunchSchedulePage.jsx:88-146 | The grid has seven slots whatever the fetch returned. |
| LunchSchedulePage.LoadWeek | client/src/pages/LunchSchedulePage.jsx:88-146 | Loading a week sets the grid to `GridAfterFetch`. |
| LunchSchedulePage.GridAfterFetchContents | client/src/pages/LunchSchedulePage.jsx:92-123 | Slot i has day i's key. It is empty when no meal has that date, and otherwise it is the last meal with that date. |
| LunchSchedulePage.EmptyWeekWithoutSchedule | client/src/pages/LunchSchedulePage.jsx:124-146 | With no schedule, or on an error, all seven slots are empty. |
| LunchSchedulePage.Dates | client/src/pages/LunchSchedulePage.jsx:118-121 | One date per slot. |
| LunchSchedulePage.LoadedGridHasDistinctDates | client/src/pages/LunchSchedulePage.jsx:118-121 | A loaded grid never has two slots with the same date. |
| LunchSchedulePage.SelectDish | client/src/pages/LunchSchedulePage.jsx:241-246 | Slots of the chosen date get the dish and keep their note, and all other slots are unchanged. |
| LunchSchedulePage.RemoveDish | client/src/pages/LunchSchedulePage.jsx:253-259 | Slots of the chosen date are emptied, and all others are unchanged. |
| LunchSchedulePage.UpdateNotes | client/src/pages/LunchSchedulePage.jsx:262-268 | Slots of the chosen date get the note and keep their dish, and all others are unchanged. |
| LunchSchedulePage.EditTouchesOneSlot | client/src/pages/LunchSchedulePage.jsx:241-268 | On a grid with distinct dates, each edit changes exactly the one slot of its date. |
| LunchSchedulePage.RemoveAfterSelect | client/src/pages/LunchSchedulePage.jsx:241-259 | Removing after selecting is removing, and removing twice is removing once. |
| LunchSchedulePage.EditsOnDifferentDatesCommute | client/src/pages/LunchSchedulePage.jsx:241-268 | Edits on different dates commute. |
| LunchSchedulePage.PayloadDishId | client/src/pages/LunchSchedulePage.jsx:215-219 | A falsy reference is sent as null. Otherwise the plain id, or the populated object's `_id`, is sent. |
| LunchSchedulePage.NormalizeMeal | client/src/pages/LunchSchedulePage.jsx:209-225 | A slot normalises iff its key parses as a date. The result has that date, the payload dish id and the note. |
| LunchSchedulePage.NormalizeForSave | client/src/pages/LunchSchedulePage.jsx:209-225 | The grid normalises iff every slot does, slot by slot and in order. |
| LunchSchedulePage.SavedGridCoversWeek | client/src/pages/LunchSchedulePage.jsx:209-227 | For a week from the year 100 on, any loaded grid normalises to seven meals whose dates are the seven days of the week. |
| CivilDates.DaysInMonth | client/src/pages/LunchSchedulePage.jsx:62-64 | A month has 28 to 31 days, and February has 29 exactly in leap years. |
| CivilDates.NextDay | client/src/pages/LunchSchedulePage.jsx:62-64 | The next day is a valid date and later. |
| CivilDates.PrevDay | client/src/pages/LunchSchedulePage.jsx:173-178 | The previous day is a valid date and earlier. |
| CivilDates.PrevNext | client/src/pages/LunchSchedulePage.jsx:62-64 | The next and previous day are inverse. |
| CivilDates.AddDays | client/src/pages/LunchSchedulePage.jsx:62-64 | `setDate(getDate() + n)` always gives a valid date, rolling over months and years. |
| CivilDates.AddDaysCompose | client/src/pages/LunchSchedulePage.jsx:173-184 | Adding a and then b days is adding a + b. |
| CivilDates.AddDaysInverse | client/src/pages/LunchSchedulePage.jsx:173-184 | Adding n days and then −n days returns the start. |
| CivilDates.AddDaysOrdered | client/src/pages/LunchSchedulePage.jsx:56-72 | Later offsets give later dates. |
| CivilDates.IsoDate | client/src/pages/LunchSchedulePage.jsx:66-69 | The key is the year's text plus six characters: two dashes and two two-digit fields. |
| CivilDates.DayOfWeek | client/src/pages/LunchSchedulePage.jsx:15 | `getDay()` is between 0 (Sunday) and 6 (Saturday). |
| CivilDates.YearZeroStartsOnSaturday | client/src/pages/LunchSchedulePage.jsx:15 | The weekday count is anchored: 1 January of year 0 is a Saturday (so 1 January 1970 is a Thursday). |
| CivilDates.AddDaysNumber | client/src/pages/LunchSchedulePage.jsx:62-64 | Adding n days moves the day count by exactly n. |
| CivilDates.DayOfWeekAddDays | client/src/pages/LunchSchedulePage.jsx:15-17 | Adding n days moves the weekday by n mod 7. |
| CivilDates.WeeksAway | client/src/pages/LunchSchedulePage.jsx:172-184 | Moving a whole number of weeks keeps the weekday and lands later (forward) or earlier (back). |
| CivilDates.IsoDateInjective | client/src/pages/LunchSchedulePage.jsx:66-69 | Different valid dates have different `YYYY-MM-DD` keys. |
| CivilDates.ConstructorYear | client/src/pages/LunchSchedulePage.jsx:211-212 | `new Date(year, …)` reads a year from 0 to 99 as 1900 + year and keeps every other year. |
| CivilDates.YearLengthOf | server/src/controllers/LunchScheduleController.js:60-65 | A year has 366 days iff it is a leap year, else 365. |
| CivilDates.DaysBeforeYearClosed | server/src/controllers/LunchScheduleController.js:60-65 | The day count of 1 January of year y is 365·y plus the leap years before y. |
| CivilDates.DaysBeforeYearGrows | server/src/controllers/LunchScheduleController.js:60-65 | Every year adds at least 365 days to the count. |
| CivilDates.DayNumberInYear | server/src/controllers/LunchScheduleController.js:60-65 | A date's day count lies between the counts of 1 January of its year and of the next. |
| CivilDates.ParseIsoDate | client/src/pages/LunchSchedulePage.jsx:211-212 | A key that parses gives a valid date, in the constructor's year (never below 100). |
| CivilDates.ParseIsoDateOfKey | client/src/pages/LunchSchedulePage.jsx:211-212 | The key of a date with an unsigned year reads back as that date in the constructor's year, or as nothing when that is not a calendar date. |
| CivilDates.ParseIsoDateRoundTrip | client/src/pages/LunchSchedulePage.jsx:66-69 | Parsing a date's key gives the date back, for years from 100. |
| CivilDates.TwoDigitYearReadsAs1900s | client/src/pages/LunchSchedulePage.jsx:211-212 | The key of 3 January of year 50 reads back as 3 January 1950. |
| CivilDates.FourDigitYearShape | client/src/pages/LunchSchedulePage.jsx:66-69 | For four-digit years the key is ten characters: digits, with dashes at positions 4 and 7. |
| FavoriteFood.CheckDuplicate | server/src/models/FavoriteFood.js:31-34 | True iff a row with that user and dish exists. |
| FavoriteFood.MissingFields | server/src/models/FavoriteFood.js:5-16 | Each required field is reported iff it is absent. |
| FavoriteFood.Create | server/src/models/FavoriteFood.js:5-24 | A missing field is a validation error, and an existing pair is a duplicate-key error. Otherwise exactly the new row is appended. |
| FavoriteFood.CreateKeepsUnique | server/src/models/FavoriteFood.js:24 | A successful create keeps (user, dish) pairs unique and contains the new pair. |
| FavoriteController.CountConcat | server/src/controllers/FavoriteController.js:44-46 | A dish's favourite count over two row lists is the sum of the counts. |
| FavoriteController.Bump | server/src/controllers/FavoriteController.js:44-46 | `$inc` changes only that dish's `favoriteCount`, by delta. |
| FavoriteController.AddKeepsCounted | server/src/controllers/FavoriteController.js:38-46 | Appending a row and incrementing its dish keeps every counter equal to its number of rows. |
| FavoriteController.RemoveAt | server/src/controllers/FavoriteController.js:69-76 | Deleting row i shifts the later rows down by one. |
| FavoriteController.RemoveKeepsCounted | server/src/controllers/FavoriteController.js:69-81 | Deleting a row and decrementing its dish keeps every counter exact. |
| FavoriteController.RemoveKeepsUnique | server/src/controllers/FavoriteController.js:69-81 | Deleting keeps pairs unique, and the deleted pair is gone. |
| FavoriteController.IndexOfPair | server/src/controllers/FavoriteController.js:69-76 | `findOneAndDelete` hits the first row with the pair, or none iff there is none. |
| FavoriteController.AddStatus | server/src/controllers/FavoriteController.js:12-52 | Only an added favourite is 201. |
| FavoriteController.RemoveStatus | server/src/controllers/FavoriteController.js:69-90 | Only a removal is 200. |
| FavoriteController.FavoriteService.AddFavorite | server/src/controllers/FavoriteController.js:9-59 | A missing dish id is 400, an existing pair 409 and an unknown dish 404, each with nothing changed. Otherwise one row is appended and the dish's counter goes up by one, keeping the counter invariant. |
| FavoriteController.FavoriteService.RemoveFavorite | server/src/controllers/FavoriteController.js:66-90 | It is a 404 iff the pair is absent, and then nothing changes. Otherwise the first matching row is deleted and the counter goes down by one. The invariant is kept and the pair is no longer a favourite. |
| FavoriteController.FavoriteDishIds | server/src/controllers/FavoriteController.js:260-267 | Lists exactly the requested ids the user has favourited. |
| FavoriteController.Tally | server/src/controllers/FavoriteController.js:269-272 | The map has one key per requested id, true iff the id is a favourite. |
| FavoriteController.CheckMultipleFavorites | server/src/controllers/FavoriteController.js:250-276 | A non-array or empty list is 400. Otherwise each requested id maps to whether the user favourited it. |
| FavoriteController.SortFieldOf | server/src/controllers/FavoriteController.js:161-168 | "name", "price" and "rating" choose their field, and anything else sorts by creation date. |
| FavoriteController.SortOrderOf | server/src/controllers/FavoriteController.js:106 | Ascending iff "asc", otherwise descending. |
| FavoriteController.Joined | server/src/controllers/FavoriteController.js:113-122 | The join yields at most one catalogue dish per row, and only dishes of the catalogue. |
| FavoriteController.JoinedFollowsOwnRows | server/src/controllers/FavoriteController.js:113-122 | In order, one dish per row of the user whose dish exists (`$match`, `$lookup`, `$unwind`): the k-th kept row gives the catalogue dish it names. |
| FavoriteController.CountMatching | server/src/controllers/FavoriteController.js:126-158 | The `$count` is exactly the number of joined rows the category and search stages keep. |
| FavoriteController.GetFavorites | server/src/controllers/FavoriteController.js:101-212 | Page and limit default to 1 and 20, and a negative skip or limit fails. The sort choice follows the parameters, and the metadata counts the filtered favourites. |
| FavoriteController.GetFavoritesDefaults | server/src/controllers/FavoriteController.js:101-106 | With no parameters: page 1, limit 20, newest first, and no previous page. |
| FavoriteController.GroupAdd | server/src/controllers/FavoriteController.js:313-322 | Bucket categories are kept, and a bucket added at the end is for the favourite's category. |
| FavoriteController.GroupAddCounts | server/src/controllers/FavoriteController.js:313-322 | With distinct categories, the bucket of the favourite's category gains one and every other bucket keeps its count. A bucket with count 1 is opened at the end exactly when the category has none. |
| FavoriteController.GroupAddTotal | server/src/controllers/FavoriteController.js:313-325 | Grouping one more favourite raises the total by one. |
| FavoriteController.GroupAddDistinct | server/src/controllers/FavoriteController.js:313-322 | Buckets keep distinct categories. |
| FavoriteController.GroupByCategory | server/src/controllers/FavoriteController.js:313-322 | No two buckets share a category. |
| FavoriteController.OccurrencesPositive | server/src/controllers/FavoriteController.js:313-322 | A category occurs at least once iff it is in the list. |
| FavoriteController.GroupByCategoryCounts | server/src/controllers/FavoriteController.js:313-322 | `$group` opens a bucket for exactly the categories that occur, and each bucket counts the favourites in its category. |
| FavoriteController.GroupTotal | server/src/controllers/FavoriteController.js:313-325 | The bucket counts sum to the number of grouped favourites. |
| FavoriteController.CategoriesOf | server/src/controllers/FavoriteController.js:305-312 | One category (or none) per joined dish. |
| FavoriteController.GetFavoriteStats | server/src/controllers/FavoriteController.js:290-330 | `totalFavorites` is the number of the user's favourites whose dish exists, and the sum of the bucket counts. The buckets have distinct categories; `GroupByCategoryCounts` gives what each one counts. |
| FavoriteController.TotalIsJoinedCount | server/src/controllers/FavoriteController.js:294-325 | `totalFavorites` equals the number of the user's favourites whose dish exists. |
| DishModel.ClampRating | server/src/models/Dish.js:82-86 | The result is within 0..5, in-range ratings are kept, and out-of-range ones go to the nearer bound. |
| DishModel.ClampIdempotent | server/src/models/Dish.js:82-86 | Clamping twice is clamping once. |
| DishModel.DishDocument.constructor | server/src/models/Dish.js:5-62 | A new document has the schema defaults: no category, empty description and image, rating 0, available, and favourite count 0. Its name is trimmed. |
| Text.Utf16Length | server/src/models/Dish.js:21-28 | A string's UTF-16 length lies between its character count and twice it. |
| Text.Utf16LengthIsLength | server/src/models/Dish.js:21-28 | The UTF-16 length is the character count iff no character is above U+FFFF. |
| Text.Utf16LengthConcat | server/src/models/Dish.js:21-28 | The UTF-16 lengths of two strings add up under concatenation. |
| Text.EmojiCountTwice | server/src/models/LunchSchedule.js:35 | Three emoji are three characters and six code units. |
| DishModel.DishDocument.Violations | server/src/models/Dish.js:5-62 | Each schema rule is reported iff it is broken: required restaurant, name and price; name and description lengths in UTF-16 code units (150 and 1000); non-negative price; rating within 0..5; non-negative favourite count. |
| DishModel.DishDocument.ClampRatingHook | server/src/models/Dish.js:82-86 | The pre-save hook clamps the rating and changes no other field. |
| DishModel.DishDocument.Record | server/src/models/Dish.js:5-62 | A valid document's stored record has a rating in range, a non-negative price, and a non-empty name within the length bound. |
| DishModel.DishDocument.Save | server/src/models/Dish.js:40-45 | Validation runs before the hook. An invalid document fails with its violations. A valid one is stored unchanged, because an in-range rating survives the clamp. |
| DishModel.SavedRatingIsInRange | server/src/models/Dish.js:82-86 | The clamp never changes a rating that passed validation. |
| DishRouter.ListMetaOf | server/src/routes/dish-router.js:32-37 | The metadata echoes page, limit and total, and `totalPages` is the smallest page count that holds the total. |
| DishRouter.ListPage | server/src/routes/dish-router.js:21-41 | A negative skip is a 500. Otherwise the page is the window of available dishes starting at skip, of length min(\|limit\|, remaining), with the metadata of all available dishes. |
| DishRouter.ListDishes | server/src/routes/dish-router.js:19-21 | The listing is `ListPage` of the query parsed with default page 1 and limit 20. |
| DishRouter.Available | server/src/routes/dish-router.js:23 | Exactly the available dishes are listed. |
| DishRouter.ListDefaults | server/src/routes/dish-router.js:19-26 | Without parameters: page 1, limit 20, and the first 20 available dishes. |
| DishRouter.BoundOrDefault | server/src/routes/dish-router.js:124-125 | A missing, non-numeric or zero bound gives the default. |
| DishRouter.PriceRange | server/src/routes/dish-router.js:124-137 | A negative bound is refused, then min > max is refused, and otherwise the range is (min, max). Each holds iff its condition holds. |
| DishRouter.ZeroMaxMeansDefault | server/src/routes/dish-router.js:125 | `maxPrice=0` is falsy and asks for everything up to 100000. |
| DishRouter.PriceQuery | server/src/routes/dish-router.js:124-146 | It fails iff the range is refused. Otherwise it lists exactly the available dishes priced within the range, cheapest first, drawn from the catalogue. |
| DishRouter.Search | server/src/routes/dish-router.js:88-99 | A missing or blank query is a 400. Otherwise it lists exactly the available dishes the text index matches. |
| DishRouter.SearchRefused | server/src/routes/dish-router.js:90 | A query is refused iff it is missing or consists of whitespace only. |
| DishRouter.BlankSearchRefused | server/src/routes/dish-router.js:90 | A query of spaces only is refused. |
| DishRouter.GetDish | server/src/routes/dish-router.js:157-168 | A malformed id is 400, an unknown one 404, and otherwise the result is the stored dish. Each holds iff its condition holds. |
| DishRouter.OrderStatus | server/src/routes/dish-router.js:205 | Only a saved order is 201. |
| DishRouter.MissingField | server/src/routes/dish-router.js:185 | A body passes iff user, dish and restaurant ids are present and non-empty and the price is present and non-zero. |
| DishRouter.OrderCollection.PlaceOrder | server/src/routes/dish-router.js:182-203 | A missing or falsy field (a 0 price included) is 400 before any id is checked. A malformed id is 400. Otherwise exactly one order with the body's fields and the current time is appended, and in every other case the collection is unchanged. |
| DishDetailCart.NewItem | client/src/pages/DishDetail.jsx:26-28 | A new cart item is the dish with quantity 1. |
| DishDetailCart.GetCart | client/src/pages/DishDetail.jsx:15-18 | Nothing stored means an empty cart. |
| DishDetailCart.FirstWithId | client/src/pages/DishDetail.jsx:22 | `find` stops at the first item with the id, or finds none iff the dish is not in the cart. |
| DishDetailCart.CartAdd | client/src/pages/DishDetail.jsx:20-32 | After adding, the dish is in the cart. The length grows by one exactly for a new dish, every item keeps its id and fields, and items with other ids are unchanged. |
| DishDetailCart.AddExisting | client/src/pages/DishDetail.jsx:24-25 | A dish already in the cart gains one in quantity, and every other item and the length stay. |
| DishDetailCart.AddNew | client/src/pages/DishDetail.jsx:26-28 | A new dish is appended with quantity 1. |
| DishDetailCart.AddKeepsUnique | client/src/pages/DishDetail.jsx:20-32 | Adding keeps item ids unique. |
| DishDetailCart.AddCountsOne | client/src/pages/DishDetail.jsx:20-32 | Every addition adds exactly one unit to the cart. |
| DishDetailCart.AddMakesPresent | client/src/pages/DishDetail.jsx:20-32 | After an addition the dish is in the cart. |
| DishDetailCart.DishDetailPage.AddToCart | client/src/pages/DishDetail.jsx:20-32 | The stored cart, read, updated and written back, becomes `CartAdd` of the old one, and the page state is unchanged. |
| DishDetailCart.DishDetailPage.ShowDish | client/src/pages/DishDetail.jsx:112-113 | After loading, the in-cart flag agrees with the stored cart. |
| DishDetailCart.DishDetailPage.HandleAddToCart | client/src/pages/DishDetail.jsx:124-134 | With no dish nothing happens. Otherwise the dish is added and the flag becomes true, still agreeing with the cart. |
| DishDetailCart.DishDetailPage.HandleOrder | client/src/pages/DishDetail.jsx:136-146 | The dish is added only when the flag says it is not yet in the cart. |
| DishDetailCart.OrderAddsOnce | client/src/pages/DishDetail.jsx:136-146 | With an accurate flag, ordering leaves the dish in the cart and never adds a second unit. |
| MealHistory.SortNewestFirst | client/src/pages/MealHistory.jsx:49-51 | The history is a permutation of the orders, newest first. |
| MealHistory.TotalPages | client/src/pages/MealHistory.jsx:68 | `ceil(total / 5)`: the smallest page count that holds the orders. |
| MealHistory.Loaded | client/src/pages/MealHistory.jsx:49-73 | The loaded orders are a permutation of the fetched ones, newest `orderDate` first, and are counted. A current page beyond the new last page resets to 1. |
| MealHistory.LoadedPageIsInRange | client/src/pages/MealHistory.jsx:65-73 | After loading, the current page is within 1..max(1, totalPages). |
| MealHistory.PageChange | client/src/pages/MealHistory.jsx:75-80 | Only pages 1..totalPages are accepted, and otherwise the view is unchanged. |
| MealHistory.PageChangeKeepsGood | client/src/pages/MealHistory.jsx:75-80 | Page changes keep the current page in range. |
| MealHistory.CurrentItems | client/src/pages/MealHistory.jsx:114-116 | At most 5 orders are shown, exactly those of the current page. |
| MealHistory.PagesShowWholeHistory | client/src/pages/MealHistory.jsx:65-73 | Together the pages show every order exactly once and in order. |
| MealHistory.CurrentItemsIsPage | client/src/pages/MealHistory.jsx:114-116 | The current page follows the pages before it. |
| MealHistory.WindowPage | client/src/pages/MealHistory.jsx:225-230 | Each of the first min(5, totalPages) buttons is a page in range; away from both ends the window is centred on the current page. |
| MealHistory.PageWindow | client/src/pages/MealHistory.jsx:223-229 | The buttons are min(5, totalPages) consecutive pages within range, including the current page. |
| Menu.Initial | client/src/pages/Menu.jsx:80-84 | The page opens unfiltered, sorted by popularity, with no favourites. |
| Menu.ToggleFavorite | client/src/pages/Menu.jsx:86-90 | The toggled id flips membership, every other id keeps it, and a new favourite is appended. |
| Menu.ToggleTwiceMembership | client/src/pages/Menu.jsx:86-90 | Toggling twice restores membership. |
| Menu.ToggleOnOffRestores | client/src/pages/Menu.jsx:86-90 | Adding then removing restores the exact list. |
| Menu.ToggleOffOnMovesToEnd | client/src/pages/Menu.jsx:86-90 | Removing then re-adding moves the id to the end. |
| Menu.ToggleKeepsDistinct | client/src/pages/Menu.jsx:86-90 | Favourites never repeat. |
| Sorting.FilterMultiplicity | client/src/pages/Menu.jsx:92-95 | `filter` keeps each passing item exactly as many times as it occurs and drops every failing one. |
| Menu.FilterItems | client/src/pages/Menu.jsx:92-95 | Exactly the items whose lower-cased name contains the lower-cased search term, in the chosen cuisine (or any). |
| Menu.SortItems | client/src/pages/Menu.jsx:96-101 | A permutation. "popular" is by rating descending, "price-low" ascending and "price-high" descending by price, and any other value keeps the order. |
| Menu.VisibleAsWritten | client/src/pages/Menu.jsx:92-101 | The page shows exactly the items that match search and cuisine, each as often as in the menu. The price range plays no part. The list is ordered by rating for "popular" and by price for the two price sorts. |
| Menu.EmptySearchMatches | client/src/pages/Menu.jsx:93 | An empty search matches every item. |
| Menu.PriceRangeIgnored | client/src/pages/Menu.jsx:82 | With the "low" range chosen, a dish of 700 or more is still shown. |
| Menu.PriceRangesPartition | client/src/pages/Menu.jsx:139-148 | Every price is in exactly one of the bands "low", "mid" and "high", and not choosing a band admits every price. |
| Menu.Visible | client/src/pages/Menu.jsx:139-148 | The corrected list: search, cuisine and the chosen price band all apply, with the same sort. |
| Menu.NoPriceRangeAgrees | client/src/pages/Menu.jsx:92-101 | With no price range, the corrected list shows the same items as the page. |
| Menu.LowRangeHidesDearDishes | client/src/pages/Menu.jsx:145 | Under "low" (under 700) a dish of 700 or more is hidden. |
| Menu.Categories | client/src/pages/Menu.jsx:103 | Each category of the menu is offered exactly once. |
| Menu.CategoryOfferedOnce | client/src/pages/Menu.jsx:103 | Every item's category appears in the list at exactly one position. |
| Menu.Clear | client/src/pages/Menu.jsx:160-166 | "Clear" resets search, cuisine, range and sort, and keeps the favourites. |
| Menu.ClearShowsWholeMenu | client/src/pages/Menu.jsx:160-166 | After "clear" the page shows the whole menu, most popular first, and so does the corrected list. |
| Auth.ResetMinutes | server/src/controllers/auth-controller.js:9-10 | `Number(env) \|\| 30`: a missing, non-numeric or zero setting gives 30 minutes, and any other number is used as is. |
| Auth.ResetExpiry | server/src/controllers/auth-controller.js:162-169 | With the default setting the code expires 30 minutes after issue, and always later than now for a positive setting. |
| Auth.ResetCodeValue | server/src/controllers/auth-controller.js:14-17 | `100000 + floor(r * 900000)` lies in 100000..999999. |
| Auth.GenerateResetCode | server/src/controllers/auth-controller.js:14-17 | The code is six decimal digits spelling that number. |
| Auth.FirstWhere | server/src/controllers/auth-controller.js:33-39 | `findOne` returns the first matching user, or none iff no user matches. |
| Auth.FindByEmail | server/src/controllers/auth-controller.js:33-39 | The lookup finds a user with the email iff one exists. |
| Auth.FoundIsOnly | server/src/controllers/auth-controller.js:33-39 | With unique emails the lookup finds that user. |
| Auth.SameEmailKeepsUnique | server/src/controllers/auth-controller.js:165-169 | Updating a user in place without changing the email keeps emails unique. |
| Auth.NewUser | server/src/controllers/auth-controller.js:30-48 | The new account stores the hashed password and the trimmed name, defaults its role to "user", and has no reset token. |
| Auth.RegisterKeepsUnique | server/src/controllers/auth-controller.js:33-48 | Registering a fresh email keeps emails unique. |
| Auth.RegisterStatus | server/src/controllers/auth-controller.js:21-56 | Only a registration is 201. |
| Auth.LoginStatus | server/src/controllers/auth-controller.js:81-118 | Invalid input is 400, an unknown email 404, a wrong password 401, and only a login 200. |
| Auth.Login | server/src/controllers/auth-controller.js:81-118 | Invalid input is 400 and an unknown email 404. A password `compare` rejects is 401, and otherwise the result is that account. Only the last case is 200. |
| Auth.IssueToken | server/src/controllers/auth-controller.js:162-169 | The account stores the code's hash and expiry and is otherwise unchanged. |
| Auth.FindRedeemable | server/src/controllers/auth-controller.js:213-219 | A user is found iff one has that email, that token hash and an expiry after now. |
| Auth.Redeemed | server/src/controllers/auth-controller.js:228-232 | The new password hash is stored and the token and expiry are cleared. |
| Auth.RedeemableIff | server/src/controllers/auth-controller.js:213-226 | With unique emails, a code is accepted iff the account's stored hash equals it and has not expired. |
| Auth.ResetIsOneTime | server/src/controllers/auth-controller.js:228-232 | After a reset, no code redeems for that email again until a new one is issued. |
| Auth.IssuedCodeRedeemsUntilExpiry | server/src/controllers/auth-controller.js:162-232 | A freshly issued code redeems exactly for an attempt with the same hash before its expiry. |
| Auth.ResetStatus | server/src/controllers/auth-controller.js:221-234 | Only a completed reset is 200. |
| Auth.BearerToken | server/src/controllers/auth-controller.js:256 | The token is the text after "Bearer " up to the next space, and it is empty iff nothing follows or a space does. |
| Auth.Logout | server/src/controllers/auth-controller.js:248-270 | A missing or non-Bearer header is 401. Logout succeeds iff the bearer token verifies. |
| Auth.UserStore.Register | server/src/controllers/auth-controller.js:20-74 | Invalid input is 400 and a taken email is also 400, both with nothing stored. Otherwise exactly the new user is appended and emails stay unique. |
| Auth.ForgotStatus | server/src/controllers/auth-controller.js:141-196 | Invalid input is 400 and a mailing failure 500; an unknown email gets the same 200 as a mailed code. |
| Auth.UserStore.ForgotPassword | server/src/controllers/auth-controller.js:141-196 | Invalid input is 400. An unknown email gets the same acknowledgement and nothing changes. A known one stores a fresh code's hash and expiry, and the answer is the mailed code, or a 500 when mailing fails. |
| Auth.UserStore.ResetPassword | server/src/controllers/auth-controller.js:200-245 | Invalid input is 400. It resets iff an account has that email, code and an unexpired token, and then that user's password is replaced and the token cleared. Otherwise nothing changes. |
| AuthMiddleware.PrincipalOf | server/src/middlewares/auth-middleware.js:34 | `req.user` carries the account's id, email, role and name. |
| AuthMiddleware.GuardStatus | server/src/middlewares/auth-middleware.js:7-41 | Every rejection is 401. |
| AuthMiddleware.FindById | server/src/middlewares/auth-middleware.js:26-32 | The account with the token's id is found iff it exists. |
| AuthMiddleware.Authenticate | server/src/middlewares/auth-middleware.js:7-41 | A missing or non-Bearer header or an empty token is rejected as not logged in, an unverifiable token as invalid, and a token without `userId` or with an unknown account as a missing account. The request passes iff all checks pass, carrying that account. |
| AuthMiddleware.EmptyTokenHeaders | server/src/middlewares/auth-middleware.js:14-20 | "Bearer" followed by nothing or by a space is refused. |
| AuthMiddleware.WellFormedHeaderPasses | server/src/middlewares/auth-middleware.js:14-35 | A space-free token that verifies to an existing account lets the request through as that account. |
| ResetPasswordPage.CodeFilter | client/src/pages/ResetPasswordPage.jsx:188 | The code field keeps the first six digits typed, drops every other character, and is at most six long. |
| ResetPasswordPage.CodeFilterIdempotent | client/src/pages/ResetPasswordPage.jsx:188 | Filtering twice is filtering once. |
| ResetPasswordPage.CodeFilterKeepsCodes | client/src/pages/ResetPasswordPage.jsx:188 | A valid code passes unchanged. |
| ResetPasswordPage.Validate | client/src/pages/ResetPasswordPage.jsx:33-51 | Checked in order: a missing field, then an email without "@", then a password under 6 UTF-16 code units (`newPassword.length`), then a mismatch. The form is valid iff none of them applies. |
| ResetPasswordPage.EmojiPasswordLongEnough | client/src/pages/ResetPasswordPage.jsx:43 | A password of three emoji has `length` 6 and passes the form. |
| ResetPasswordPage.Opened | client/src/pages/ResetPasswordPage.jsx:20-25 | The email is prefilled from the saved one when there is one, and the form opens with no error. |
| ResetPasswordPage.CodeTyped | client/src/pages/ResetPasswordPage.jsx:188 | Typing into the code field stores the filtered text. |
| ResetPasswordPage.Submit | client/src/pages/ResetPasswordPage.jsx:30-86 | A request is sent iff validation passes, carrying the form's fields. Success means a request and an ok, successful reply, and it clears the saved email. Every failure shows an error, and the fields are kept. |
| ResetPasswordPage.SentCodeIsFiltered | client/src/pages/ResetPasswordPage.jsx:53-62 | Any code the page sends is at most six digits. |
| Pagination.ParsePageQuery | server/src/controllers/LunchScheduleController.js:174-176 | `parseInt(x) \|\| default`: page and limit are never 0, and skip is (page − 1) × limit. Missing values give the defaults. |
| Pagination.CeilDiv | server/src/controllers/LunchScheduleController.js:193 | `Math.ceil(total / limit)`: for a positive limit, the smallest page count that holds the total. |
| Pagination.Meta | server/src/controllers/FavoriteController.js:199-212 | The metadata gives `hasNext` iff the page is before the last and `hasPrev` iff it is after the first. |
| Pagination.HasNextMeansMoreItems | server/src/controllers/FavoriteController.js:205-212 | `hasNext` holds iff items remain after this page. |
| Pagination.Window | server/src/controllers/FavoriteController.js:173-174 | `$skip`/`$limit`: a negative skip fails. Otherwise the items from skip on, at most \|limit\| of them. |
| Pagination.AllPagesCoverList | server/src/controllers/LunchScheduleController.js:193 | The pages 1..totalPages together are exactly the list. |

## Left out

- Time zones and daylight saving: server instants are UTC milliseconds and client dates are civil dates. JavaScript `Date` overflow (beyond ±8.64e15 ms) is not modelled.
- Floating point: prices and ratings are reals. `parseFloat`/`parseInt` are an `Option`, `None` meaning NaN. That makes the `isNaN` branch of `/price` (server/src/routes/dish-router.js:127-129) unreachable, as `parseFloat(x) || d` never yields NaN.
- The race between `checkDuplicate` and `create` in `addFavorite` (two concurrent requests, one of which hits the unique index and answers 409) is not modelled; requests are sequential.
- The listing's `.populate("meals.dishId")` (server/src/controllers/LunchScheduleController.js:185): `GetAllSchedules` returns the stored schedules with plain dish ids. The GET /week populate is modelled by `LunchScheduleController.Populate`.
- Mongoose `$lookup` joins, `$text` scoring and regex matching: `DishRouter.Search` takes the text-index match as a parameter, and the favourites list's category and search stages are a `keep` predicate.
- FavoriteController.GetFavorites: the listed favourites themselves and their `$sort` are not computed. Only the parameters, the sort choice and the pagination metadata are modelled.
- FavoriteController.GetFavoriteStats: the final `$sort` by count and the `avgPrice`/`avgRating` and `totalSpent` fields (floating-point averages and sums of prices) are not modelled.
- `getPopularDishes`, and the `/popular`, `/restaurant/:restaurantId` and `/category/:categoryId` dish routes: plain filtered and sorted queries of the same shape as `/price`, not modelled separately.
- `checkFavorite` is `FavoriteFood.CheckDuplicate` answered as JSON and has no member of its own.
- bcrypt hashing and comparison, SHA-256, JWT signing and verification, `isValidObjectId`, `Math.random` and `Date.now` are parameters. Sending mail is a `mailOk` parameter, and `express-validator`'s verdict is a `valid` parameter.
- server/src/models/user-model.js is not part of this model; the user record holds only the fields the auth controller reads and writes.
- A malformed ObjectId reaching a Mongoose query (a cast error answered 500) is not modelled; ids are opaque strings.
- Text.Trim: whitespace is space, tab, line feed and carriage return only. JavaScript's `trim` also strips vertical tab, form feed, no-break space, the line and paragraph separators and the other Unicode space characters.
- Text.ToLower: only ASCII letters are lowered, not the full Unicode tables JavaScript uses.
- React rendering, effects, timers, navigation, `localStorage` access errors and `JSON.parse` failures are not modelled. Stored values are already-parsed `Option`s.
- Sorting.SortBy is an insertion sort. The order of items with equal keys is not claimed, so stability of `Array.prototype.sort` and MongoDB's tie order are not modelled.
- CivilDates.IsoDate does not pad years below 1000 to four digits, and negative years are spelled with a leading "-". The round trip is proved for years from 100 and the fixed shape for years 1000..9999.
- DishRouter.Search: the order of search results (text score) is not claimed, only their membership.
- Auth.ResetMinutes: `Number` of the `RESET_TOKEN_EXPIRATION_MINUTES` variable is taken as already converted to an integer, so a fractional setting is not modelled.
- Menu: the page's static `menuItems` catalogue is a parameter of every member rather than a constant.
- LunchScheduleController.Status: the 409 answered for a duplicate-key error (code 11000, server/src/controllers/LunchScheduleController.js:104-110) is not an outcome. It needs two concurrent saves of the same new week racing past `createOrUpdate`'s `findOne` to the unique index, and requests are sequential here, so a save never meets an existing key on insert.
- LunchSchedulePage.NormalizeMeal: a key whose year is 0 to 99 is sent as the same day of 1900 + year, as the constructor does (`CivilDates.ConstructorYear`). Such keys reach a save only for a week about 1,900 years back. A date text that `new Date(y, m - 1, d)` rolls over is None here, though the page would send the rolled-over day. Examples are "2024-02-30" (1 March) and "2024--05" (`Number("")` is 0, giving 5 December 2023). Grid keys always come from `CivilDates.IsoDate` (`LunchSchedulePage.SavedGridCoversWeek`), so no grid the page builds reaches this case.
- CivilDates.ParseIsoDate: only dash-separated digit runs naming a calendar date in the constructor's year parse; the 0-99 to 1900-1999 mapping is modelled. Month and day rollover, and the other spellings `Number` accepts (leading and trailing whitespace, a sign, decimals, exponents), are not modelled; as above, no key the page builds needs them.
- DateKey: the parse-back of a key is claimed only from year 100. For years 0 to 99 the key reads back as the 19xx date, as `CivilDates.ParseIsoDateOfKey` states.
- ParseIsoDateRoundTrip: claimed only from year 100. For years 0 to 99 the constructor reads the year as 1900 + year (`CivilDates.TwoDigitYearReadsAs1900s`).
- SavedGridCoversWeek: claimed only for weeks from the year 100 on. For an earlier week the page sends the 19xx days in place of the week's own, as `CivilDates.ParseIsoDateOfKey` shows per key.
- LunchSchedulePage.WeekDates: the week start is taken as a date. The parse of the `currentWeekStart` string at client/src/pages/LunchSchedulePage.jsx:59-60 is the one of `CivilDates.ParseIsoDate`, but it is not applied here, so the 1900 mapping of a two-digit start year is not part of the grid model.
- LunchScheduleController.NormalizeUnique: claimed only outside the years 0 to 99, because inside them `Date.UTC` moves the day to 1900 + year, so the result is not the midnight at or before the timestamp. That move is modelled; `LunchScheduleController.TwoDigitYearMovesTo1900s` states it.
- DishModel.DishDocument: the `ingredients` array of trimmed strings (server/src/models/Dish.js:46-51) is not a field. No modelled operation reads or validates it.
- DishModel.DishDocument: the name is trimmed in the constructor only. The class has no setter, so a name assigned to the field afterwards is not re-trimmed, whereas Mongoose's `trim` runs on every assignment.

## Findings

| source | as written | input that shows it | evidently intended | confidence | as-written member | corrected member |
|---|---|---|---|---|---|---|
| client/src/pages/Menu.jsx:82 | The "price range" select (lines 139-148) stores `priceRange`, but `filteredItems` (lines 92-101) tests only search and cuisine, so the choice changes nothing. | Choose "Under 700" with an empty search and no cuisine: the 980 "Pork Cutlet Set" is still listed. | Only items in the chosen band are listed: under 700, 700 to 850, or over 850. | not executed | Menu.PriceRangeIgnored | Menu.LowRangeHidesDearDishes |
