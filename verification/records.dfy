/**
 * The rows the statistics engine reads: watch logs (one per viewing), legacy
 * logs (one per user, movie and date, carrying a rating and a rewatch flag),
 * movies with their genres and credited people, and reviews.
 */
module Records {
  import opened Wrappers
  import opened Calendar

  type MovieId = int
  type UserId = int
  /** The external metadata provider's movie id (`movies.tmdb_id`). */
  type TmdbId = int

  /**
   * A row of `watch_logs`. `watchedOn` is never nil for a stored row: the
   * model validates its presence before the row is saved.
   */
  datatype WatchLog = WatchLog(id: int, historyId: int, userId: Option<UserId>, movieId: MovieId, watchedOn: Day)

  /** A row of the legacy `logs` table; the Log model keeps `rating` within 1..10. */
  datatype LegacyLog = LegacyLog(userId: UserId, movieId: MovieId, watchedOn: Day, rating: int, rewatch: bool)

  predicate ValidRating(r: int) {
    1 <= r <= 10
  }

  /** The `role` of a `movie_people` row. */
  datatype Role = Director | Cast | OtherRole(name: string)

  datatype Credit = Credit(personName: string, role: Role)

  /**
   * A movie. `runtime` is in minutes and may be missing or zero;
   * `releaseYear` is the year of `release_date` when that parses.
   */
  datatype Movie = Movie(
    id: MovieId,
    title: string,
    runtime: Option<int>,
    tmdbId: Option<TmdbId>,
    releaseYear: Option<int>,
    genres: seq<string>,
    credits: seq<Credit>)

  datatype Review = Review(userId: UserId, movieId: MovieId, rating: int, createdAt: int)
}
