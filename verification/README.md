# Viewing statistics of a movie-logging site, in Dafny

This project models the statistics engine of a Rails site where users log the
movies they watch. It also models the model callbacks and validators that
feed that engine. The model follows the Ruby code. `StatsService` works over
a user's watch logs and legacy logs, and covers:

- the overview: distinct movies, total runtime, reviews, rewatches, and the
  genre and decade breakdowns;
- the top genres, directors and actors;
- the "most watched" ranking;
- the month-by-month activity and rating trends;
- the day-by-day heatmap;
- the year pickers.

The runtime total reads each movie's stored runtime. When that is missing, it
asks the external movie-metadata provider and caches the answer.
`StatsController#selected_year` picks the year to show. The `WatchLog`
callbacks mirror every watch log into the legacy `logs` table, which holds the
ratings and rewatch flags the statistics read. The `User` validators check
usernames and password complexity.

The model has one module per concern:

- `Calendar`, `Text`, `IsoFormat` and `Sorting` are value-level foundations:
  Gregorian dates, Ruby's `to_i`, the "YYYY-MM-DD" and "YYYY-MM" keys, and a
  sort by a total preorder.
- `Records` holds the rows.
- `Reconcile` gives the rewatch formulas.
- `Breakdowns`, `Ranking`, `Trends`, `Heatmap` and `YearLists` hold the
  aggregators.
- `Service` is the stateful service object, with its runtime cache and
  runtime backfill.
- `StatsController` models `selected_year`.
- `WatchLogSync` holds the callbacks on a pair of tables.
- `UserRules` holds the validators.

Loops in the Ruby code are methods with loop invariants. Each method is proved
against a recursive definition of what it computes, and the properties are
proved about those definitions. Objects whose state changes are classes:

- `StatsService` holds the movie rows and `@runtime_cache`;
- `LogTables` holds the watch-log and legacy tables;
- `WatchLogDraft` is a record being created.

`total_hours` in the overview holds minutes, not hours. `calculate_total_hours`
sums runtimes stored in minutes (app/services/stats_service.rb:141-146), and the
service's own test expects 284 for films of 148 and 136 minutes. The model
keeps minutes, and `TotalHours` says so.

## Model

| member | source | states |
|---|---|---|
| Service.ResolvedRuntimeOf | app/services/stats_service.rb:299-305 | A positive stored runtime is returned as is. Without one, a movie without an external id resolves to 0. A positive result that was not stored is exactly what the provider answers for the movie's id. A result of 0 means neither the row nor the provider has a positive runtime. |
| Service.RuntimeOfId | app/services/stats_service.rb:299-305 | A watch log whose movie row is missing contributes 0. A movie with a positive stored runtime contributes exactly that runtime. |
| Service.SumResolved | app/services/stats_service.rb:141-146 | The total is at least the runtime of every watch log, and it is 0 exactly when every watch log resolves to 0. |
| Service.StatsService.constructor | app/services/stats_service.rb:2-6 | A new service starts with an empty runtime cache, has made no provider call and no write, and its cache invariant holds. |
| Service.StatsService.UpdateRuntimeFromProvider | app/services/stats_service.rb:307-328 | Without an external id nothing changes. A cache hit makes no provider call and writes the cached runtime only when it differs from the stored one. A miss calls the provider once: a positive answer is cached and written, anything else changes nothing. The cache keeps only positive provider answers. |
| Service.StatsService.ResolvedRuntime | app/services/stats_service.rb:299-305 | Returns `RuntimeOfId` for the movie table as it was before the call, which is 0 for a missing movie. A missing movie or a positive stored runtime causes no provider call and no write. A positive result is left stored on the movie. Every movie resolves to the same runtime afterwards, only runtimes change, the cache only grows, and other movies are untouched. |
| Service.StatsService.TotalHours | app/services/stats_service.rb:141-146 | The sum of the resolved runtime of every watch log, in minutes, over the table as it was before the call. The backfill changes no movie's resolved runtime and touches nothing but runtimes. |
| Service.StatsService.CalculateOverview | app/services/stats_service.rb:8-29 | When some watch log's movie is gone, the result is the all-zero overview. Otherwise: `totalMovies` is the number of distinct movies, `totalHours` is the runtime sum, `totalReviews` is the number of reviews, `totalRewatches` is `TotalRewatches`, and both breakdowns are tallies sorted by count. |
| Service.GenreItemsSameKeys | app/services/stats_service.rb:148-158 | A table that differs only in runtimes gives the same genre items and the same missing-movie verdict. |
| Service.DecadeItemsSameKeys | app/services/stats_service.rb:160-178 | A table that differs only in runtimes gives the same decade items. |
| Service.TotalIsRuntimeTimesViewings | app/services/stats_service.rb:141-146 | The runtime total equals the sum, over the distinct watched movies, of each runtime times its number of watch logs, so rewatches count again. |
| Service.OverviewScenario | app/services/stats_service.rb:8-18 | Two movies of 148 and 136 minutes, each watched once, plus a rewatch-flagged legacy log: 2 movies, 284 minutes, 1 rewatch. |
| Reconcile.MovieIds | app/services/stats_service.rb:12 | The distinct watched movies, each once: a movie is listed exactly when it has a watch log. |
| Reconcile.RepeatedMovies | app/services/stats_service.rb:293 | A movie is listed exactly when it has more than one watch log. |
| Reconcile.RewatchFor | app/services/stats_service.rb:52-59 | A movie's ranking rewatch count is the larger of its legacy rewatch flags and its watch logs minus one, never their sum. |
| Reconcile.TotalRewatches | app/services/stats_service.rb:292-297 | The overview's rewatch total is the watch logs beyond each movie's first, plus the flagged legacy rows of movies without repeated watch logs. It lies between 0 and the rows of both tables. |
| Reconcile.WatchRewatchesIsRepeatViewings | app/services/stats_service.rb:292-294 | The watch-log part of `total_rewatches` is the number of watch logs minus the number of distinct movies, and is never negative. |
| Reconcile.LegacyFlagCountsOnce | app/services/stats_service.rb:292-297 | A legacy rewatch flag on a movie with repeated watch logs adds nothing to the total. On any other movie it adds exactly one. |
| Reconcile.UnflaggedLegacyIgnored | app/services/stats_service.rb:295 | A legacy log without the rewatch flag never changes the total. |
| Reconcile.ExtraViewingsIsSumMinusLength | app/services/stats_service.rb:294 | Summing `count - 1` over a list of movies gives their summed counts minus the list's length. |
| Reconcile.SumCountsOfMovieIds | app/services/stats_service.rb:293 | The watch counts of the distinct movies add up to the number of watch logs. |
| Breakdowns.CountEach | app/services/stats_service.rb:149-155 | The counting loop gives each distinct item once, with its number of occurrences, and nothing else. |
| Breakdowns.Breakdown | app/services/stats_service.rb:157 | A tally of the items ordered by non-increasing count. |
| Breakdowns.TopTen | app/services/stats_service.rb:189-191 | At most ten rows from the tally, in non-increasing count order. An item left out occurs no more often than every kept row, and only when ten rows are kept. |
| Breakdowns.GenreBreakdown | app/services/stats_service.rb:148-158 | Fails exactly when a watch log's movie is gone. Otherwise it returns the sorted tally of every genre of every watch log's movie, so a rewatch counts each genre again. |
| Breakdowns.Decade | app/services/stats_service.rb:172 | The decade starts at a multiple of ten and is at most nine years before the year. |
| Breakdowns.DecadeBreakdown | app/services/stats_service.rb:160-178 | The sorted tally of decade labels of the watch logs whose movie has a release year. Other logs are skipped and never cause an error. |
| Breakdowns.CalculateTopContributors | app/services/stats_service.rb:31-38 | Fails exactly when a watch log's movie is gone. Otherwise it returns the top-ten lists of genres per watch log, and of directors and actors per distinct watched movie. |
| Breakdowns.RewatchLeavesPeopleUnchanged | app/services/stats_service.rb:194-228 | Directors and actors count each movie once: another watch log of an already watched movie changes neither list. |
| Breakdowns.RewatchCountsGenresAgain | app/services/stats_service.rb:180-187 | Another watch log of a movie raises the count of each of its genres. |
| Breakdowns.OccurrencesPositive | app/services/stats_service.rb:153 | An item has a positive count exactly when it occurs. |
| Ranking.RankLeIsTotalPreorder | app/services/stats_service.rb:72 | The ranking order is total and transitive: it sorts by more rewatches, then more watches, then title. |
| Ranking.CountViewings | app/services/stats_service.rb:45-49 | One entry per existing movie with a watch log. Each entry holds the movie's watch count and a rewatch count of 0, without duplicates. |
| Ranking.FoldLegacyFlags | app/services/stats_service.rb:42-54 | Adds an entry for every movie with rewatch flags. Each rewatch count becomes the larger of the old count and the movie's flags, and watch counts are kept. |
| Ranking.ApplyRepeatRule | app/services/stats_service.rb:56-59 | Every rewatch count becomes the larger of itself and the watch count minus one. |
| Ranking.BuildRows | app/services/stats_service.rb:61-71 | One row per entry whose movie exists, each equal to `RowFor`, with no movie twice. |
| Ranking.RankAndTake | app/services/stats_service.rb:72 | At most `limit` of the rows, sorted by rank and distinct. A row left out ranks no earlier than every kept row, and only when `limit` rows are kept. |
| Ranking.MostWatchedMovies | app/services/stats_service.rb:40-76 | At most `limit` rows, none for a negative limit (the rescue). Every row is a ranked movie with its watch count and reconciled rewatch count, sorted by rank, with no movie twice. A ranked movie is left out only when `limit` rows that rank no later are kept. |
| Trends.MonthsShown | app/services/stats_service.rb:231-232 | The activity series never covers more than twelve months. |
| Trends.MonthlyCount | app/services/stats_service.rb:235-239 | A month's count never exceeds the watch logs, and is positive exactly when some watch log in the window falls in that month. |
| Trends.AverageRating | app/services/stats_service.rb:282 | A month without ratings averages 0. Otherwise the average times the count is the sum. |
| Trends.ActivityTrend | app/services/stats_service.rb:230-250 | One entry per month from January through `[December 31, end of this month].min`, in order: twelve for a past year, up to this month for this year, none for a later one. Each entry holds the watch logs of that month inside the window, and 0 for a month without any. |
| Trends.RatingAt | app/services/stats_service.rb:259-262 | No rating exactly when no legacy log has that movie and date. A rating found is that of a legacy log with the key. |
| Trends.CollectRatings | app/services/stats_service.rb:264-273 | Each month key holds the sum and number of ratings of that month's watch logs. A month without a key has neither. |
| Trends.RatingTrend | app/services/stats_service.rb:252-285 | Empty when no watch log falls in the window. Otherwise it covers all twelve months of the year in order, each with its rating sum and count. |
| Trends.RatedTotalBounds | app/models/log.rb:5 | With legacy ratings within 1..10, a month's rating sum lies between its count and ten times its count. |
| Trends.AverageWithinRatingScale | app/services/stats_service.rb:282 | With ratings within 1..10, every month's average is within 1..10, or is 0 when the month has no ratings. |
| Trends.UnratedLogAddsNoRating | app/services/stats_service.rb:266-267 | A watch log without a legacy rating at its key changes no month's ratings, though it counts for activity. |
| Heatmap.HeatmapData | app/services/stats_service.rb:88-110 | Every day from January 1 through `[December 31, today].min` has its "YYYY-MM-DD" key, mapped to that day's number of watch logs. Every key is such a day. A year after today's gives an empty map. |
| Heatmap.CountWindowDays | app/services/stats_service.rb:95-100 | After the counting loop, each key is a window day holding its count, and a window day without a key has no watch logs. |
| Heatmap.FillWindowDays | app/services/stats_service.rb:104-107 | After the filling loop over the window, every window day has a key and the counts are unchanged. |
| Heatmap.CountOnAppend | app/services/stats_service.rb:95-100 | A day's count over two runs of watch logs is the sum of the two counts. |
| Heatmap.CountOn | app/services/stats_service.rb:95-100 | A day's count never exceeds the watch logs, and is positive exactly when some watch log falls on that day. |
| IsoFormat.ParseIsoDateOfFormat | app/services/stats_service.rb:97 | Reading a day's "YYYY-MM-DD" key back gives the day. |
| IsoFormat.FormatIsoDate | app/services/stats_service.rb:97 | The key has at least ten characters and ends in "-MM-DD": dashes three and six characters from the end. |
| IsoFormat.IsoDateFields | app/services/stats_service.rb:97 | The key's two-digit fields read back as the day's month and day of month. |
| IsoFormat.FormatYearMonth | app/services/stats_service.rb:237 | The key has at least seven characters and ends in "-MM": a dash three characters from the end. |
| IsoFormat.YearMonthField | app/services/stats_service.rb:237 | The key's last two digits read back as the month. |
| IsoFormat.FormatIsoDateInjective | app/services/stats_service.rb:97 | Two different days never share a heatmap key. |
| IsoFormat.ParseYearMonthOfFormat | app/services/stats_service.rb:237 | Reading a month's "YYYY-MM" key back gives the month. |
| IsoFormat.FormatYearMonthInjective | app/services/stats_service.rb:244 | Two different months never share a month key. |
| IsoFormat.DecadeLabelInjective | app/services/stats_service.rb:173 | Two different decades never share a label. |
| Calendar.NextMonth | app/services/stats_service.rb:246 | `next_month` lands in the following month and is a later date. It keeps the day of the month, or, when that month is shorter, falls on its last day. |
| Calendar.NextDayIsSuccessor | app/services/stats_service.rb:104 | No day lies strictly between a day and the next one, so the filling loop visits every day of the range. |
| Calendar.NextDay | app/services/stats_service.rb:104 | The next day is a valid date, later than the day. |
| Calendar.EndOfMonth | app/services/stats_service.rb:232 | `end_of_month` is a valid date of the same month, no earlier than the date, and is that month's last day. |
| YearLists.LastFiveYears | app/services/stats_service.rb:287-290 | Five years, newest first, starting at this year and strictly descending: exactly the years from four years ago through this one. |
| YearLists.TrendYears | app/services/stats_service.rb:122-126 | The trend picker offers the last five years. |
| YearLists.Uniq | app/services/stats_service.rb:114 | The same elements, each once. |
| YearLists.DescendingYears | app/services/stats_service.rb:113-114 | The distinct log years, strictly descending. |
| YearLists.AtLeast | app/services/stats_service.rb:115 | Keeps exactly the years at or above the floor, and keeps descending order. |
| YearLists.HeatmapYears | app/services/stats_service.rb:112-120 | At most five years, strictly descending. With no log year at or after four years ago, the last five years. Otherwise every year kept is a recent log year, and a recent log year is left out only when five newer ones are kept. |
| YearLists.HeatmapYearsShowsEveryRecentYear | app/services/stats_service.rb:115-117 | When no watch log is dated after this year, every recent log year appears. |
| StatsController.SelectedYear | app/controllers/stats_controller.rb:33-37 | The requested year when it is offered. Otherwise the first offered year, or this year when nothing is offered. With a non-empty list, always an offered year. |
| StatsController.SelectingAnOfferedYear | app/controllers/stats_controller.rb:34-35 | Asking for an offered year by its decimal text selects it. |
| StatsController.UnreadableParamFallsThrough | app/controllers/stats_controller.rb:34-36 | A missing parameter, or one with no digit after its white space and sign (the empty parameter among them), reads as 0. It then falls to the first offered year unless 0 is offered. |
| StatsController.SelectingAPrefixedYear | app/controllers/stats_controller.rb:34-35 | An offered year written with the "0d" or "0D" radix prefix, unsigned or after a '+', selects that year. |
| Text.RubyToI | app/controllers/stats_controller.rb:34 | `to_i` is 0 for text that has no digit after its white space and sign. A negative result comes only from a leading minus sign. The value of a numeral is stated by Text.RubyToIOfIntToDecimal, and the radix prefix by Text.DecimalPrefixSkipped. |
| Text.RubyToIOfIntToDecimal | app/controllers/stats_controller.rb:34 | `n.to_s.to_i == n`: the decimal text of every integer, negative ones included, reads back as that integer. |
| Text.DecimalPrefixSkipped | app/controllers/stats_controller.rb:34 | A digit string behind "0d" or "0D", after no sign, '+' or '-', reads as the digit string's value, negated after '-'. |
| Text.SignedUnsignedPart | app/controllers/stats_controller.rb:34 | Text made of an optional sign and a digit-led body has no white space to skip, and its unsigned part is the body. |
| WatchLogSync.WatchedOnErrors | app/models/watch_log.rb:7-19 | A blank date fails only the presence check. A date after today fails only the future check. There is at most one error. |
| WatchLogSync.WatchLogDraft.constructor | app/models/watch_log.rb:1-5 | A draft holds the given user, watch history, movie, date and incoming rating. |
| WatchLogSync.WatchLogDraft.AssignUserFromWatchHistory | app/models/watch_log.rb:23-27 | The user id is taken from the watch history only when it is blank and a history is present. Nothing else changes. |
| WatchLogSync.FindLegacy | app/models/watch_log.rb:41 | The first row with the key, or none when no row has it. |
| WatchLogSync.LatestReview | app/models/watch_log.rb:37 | None exactly when the user has no review of the movie. Otherwise one of their reviews of it, with no other created later. |
| WatchLogSync.RatingFor | app/models/watch_log.rb:34-39 | The incoming rating when given. Otherwise it is the rating of a review by the user of the movie that no other such review postdates, and none exactly when there is no such review. |
| WatchLogSync.PriorWatch | app/models/watch_log.rb:43-44 | `prior_watch` holds exactly when the user has a legacy row of the movie on another date, or the watch history has another watch log of the movie. |
| WatchLogSync.LegacyOnOtherDay | app/models/watch_log.rb:43 | The scan finds a legacy row of the user and movie on another date exactly when one exists. |
| WatchLogSync.OtherViewingInHistory | app/models/watch_log.rb:44 | The scan finds another watch log of the movie in the same watch history exactly when one exists. |
| WatchLogSync.SyncedLegacy | app/models/watch_log.rb:31-49 | The sync adds at most one row and keeps the key of every existing row. A row it adds carries the watch log's key, which no earlier row had. |
| WatchLogSync.RemovedLegacy | app/models/watch_log.rb:51-58 | The removal deletes at most one row and keeps only rows that were there. With a user, it deletes a row exactly when a row with the watch log's key exists. |
| WatchLogSync.LogTables.constructor | app/models/watch_log.rb:1-3 | The tables as other code left them: the given watch logs, legacy rows, reviews and movies, with the next id above every stored id. A legacy table with one row per key and the next id above every stored id are required and kept as the invariant. |
| WatchLogSync.LogTables.SyncToLog | app/models/watch_log.rb:31-49 | The legacy table becomes `SyncedLegacy`, keeps one row per key, and nothing else changes. |
| WatchLogSync.LogTables.RemoveSyncedLog | app/models/watch_log.rb:51-58 | The legacy table becomes `RemovedLegacy`, keeps one row per key, and nothing else changes. |
| WatchLogSync.LogTables.Create | app/models/watch_log.rb:7-12 | The user is taken from the history first. Each error (no history, unknown movie, blank date, future date) is reported exactly when it applies. With errors nothing is saved; without them the row is saved with the next id, which no stored watch log has (the invariant keeps every stored id below it), and mirrored by the sync. |
| WatchLogSync.LogTables.Destroy | app/models/watch_log.rb:51-58 | The watch log is removed, the other rows keep their order, and its mirrored legacy row is removed. |
| WatchLogSync.SyncWritesNothingWithoutRating | app/models/watch_log.rb:34-39 | Without an incoming rating and without a review, the sync writes nothing. |
| WatchLogSync.SyncWritesTheRating | app/models/watch_log.rb:41-46 | With a user and a rating within 1..10, a row with the key carries that rating. Rows with other keys stay where and as they were, and at most one row, with the key, is added. |
| WatchLogSync.SyncNeverClearsRewatch | app/models/watch_log.rb:43-45 | A flagged row stays flagged. The row written is flagged exactly when it was before or there is a prior watch. |
| WatchLogSync.SyncKeepsKeysUnique | app/models/watch_log.rb:41-46 | One row per key before the sync means one row per key after it. |
| WatchLogSync.RemoveKeepsKeysUnique | app/models/watch_log.rb:54-55 | One row per key before the removal means one row per key after it. |
| WatchLogSync.RemoveDeletesOnlyItsKey | app/models/watch_log.rb:54-55 | With one row per key, no row with the watch log's key remains, and every other row keeps its order. |
| WatchLogSync.SyncThenRemoveRestores | app/models/watch_log.rb:31-58 | Creating then destroying a watch log whose key had no legacy row leaves the legacy table as it was. |
| UserRules.IsBlank | app/models/user.rb:8 | `blank?` holds exactly when every character is white space. |
| UserRules.UsernameErrors | app/models/user.rb:7-14 | Each error is reported exactly when it applies: blank, taken ignoring case, under 3 or over 20 characters, a character outside `[a-zA-Z0-9_]` or empty. |
| UserRules.UsernameValidIff | app/models/user.rb:7-14 | A username passes exactly when it has 3 to 20 word characters and no existing name equals it ignoring case. |
| UserRules.TakenIgnoresCase | app/models/user.rb:9 | Names equal ignoring case are both taken or both free. |
| UserRules.ExistingNameBlocksCaseVariants | app/models/user.rb:9 | An existing name blocks every case variant of itself. |
| UserRules.LowerIdempotent | app/models/user.rb:9 | Lower-casing twice is lower-casing once. |
| UserRules.LowerCaseSpellingTaken | app/models/user.rb:9 | Once a username exists, its all-lower-case spelling is refused as taken. |
| UserRules.Lower | app/models/user.rb:9 | Lower-casing keeps the length and maps each character to its ASCII lower case. |
| UserRules.Taken | app/models/user.rb:9 | The uniqueness query holds exactly when some existing username equals the name ignoring case. |
| UserRules.PasswordComplexityOk | app/models/user.rb:19-28 | A blank password passes. Otherwise it passes exactly when it has at least 8 characters, no newline, an ASCII capital, and a digit or a character other than a letter or `_`. |
| UserRules.UnderscoreDoesNotQualify | app/models/user.rb:22 | An underscore never counts as the required digit or symbol. |
| UserRules.PasswordWithDigitAccepted | app/models/user.rb:22 | "Password1" passes. |
| UserRules.PasswordWithSymbolAccepted | app/models/user.rb:22 | "Secret!pass" passes. |
| UserRules.ShortPasswordRejected | app/models/user.rb:22 | "Pass1" fails on length. |
| UserRules.UnderscorePasswordRejected | app/models/user.rb:22 | "Password_" fails: the underscore is not a symbol. |
| UserRules.LowercasePasswordRejected | app/models/user.rb:22 | "password1" fails: it has no capital. |

## Left out

- Dates are proleptic Gregorian. Ruby's `Date` switches to the Julian calendar before 1582-10-15; no statistic depends on that range.
- The provider call (`TmdbService#movie_details`) is a deterministic function parameter. It answers the runtime, or nothing for a failed call, a non-hash reply or a missing "runtime". The HTTP client, its own caching and `Rails.cache` are not part of this model.
- The logging done in every `rescue` is left out. Each rescue is modelled by its result: the zero overview, an empty ranking, or an unchanged table.
- `cached_at` timestamps written by the backfill are left out, since no statistic reads them.
- A failed `movie.update` in the backfill is not modelled; the write is assumed to succeed.
- `profile_path` of directors and actors is left out. It is presentation only, and which row supplies it depends on the database's row order.
- Average ratings are exact quotients (`AverageRating`); `round(2)` and floating point are not modelled.
- Database row order is fixed as list order. `FindLegacy` takes the first row with the key. `RatingAt` takes the last legacy row read for a movie and date. `LatestReview` breaks ties in `created_at` by taking the last review listed.
- Decade labels exist only for movies with a parsed release year; parsing `release_date` text is not part of this model.
- String comparisons (titles, "YYYY-MM" keys) are by code point; the ordering is proved total but no collation is modelled.
- `blank?`, `to_i`, `\w`, `\d` and case-insensitive uniqueness are ASCII only; Unicode white space and case folding are not modelled.
- A `nil` username is modelled as the empty string, so it fails presence and format.
- UserRules.UsernameErrors: uniqueness is checked against the other users' names only. Excluding the record's own row on update is left to the caller.
- The year parameter arrives as text or nothing. A parameter sent as an array or a hash (`?trend_year[]=2024`) makes `to_i` raise `NoMethodError` and the request fail; that path is not modelled.
- `incoming_rating` arrives as an integer or nothing. Rails' casting of form text to an integer is not modelled.
- `save!` of the legacy row fails only on a rating outside 1..10; other database errors are not modelled.
- `prior_watch` looks for other watch logs of the same movie in the same watch history within the watch-log table of `LogTables`.
- Devise's own validations (email, password length) and the authentication filters are not part of this model.
- `build_stats_for` (app/controllers/stats_controller.rb:18-31) only wires the service calls together and is not modelled separately.
- The `rescue` fallbacks `[Date.current.year]` of `trend_years` and `heatmap_years` cannot be reached in the model: nothing in their bodies fails here.
- Credits are read from each watched movie's row. When a watch log's movie is gone, the top genres raise before any credit is read, so the request fails (`None`) as in the source.
- One clock value (`today`, and `current` for the year lists) stands for both `Date.today` (the heatmap's window end) and `Date.current` (the trend windows and the year lists). The two can differ around midnight when the application's time zone is not the system's; that difference is not modelled.
- Default arguments are required parameters: `limit` of `most_watched_movies` (5 by default) and `year` of `calculate_trend_data` and `calculate_heatmap_data` (`Date.current.year` by default) are always passed explicitly.
- Concurrency between requests, and the database's own uniqueness enforcement, are not modelled.
