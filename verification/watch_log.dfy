/**
 * The write side of the watch log: validating a new watch log, taking its
 * user from the watch history, mirroring it into the legacy `logs` table
 * after it is created (rating and rewatch flag), and removing the mirrored
 * row after it is destroyed.
 */
module WatchLogSync {
  import opened Wrappers
  import opened Calendar
  import opened Records

  // ------------------------------------------------------------ validation

  datatype WatchHistory = WatchHistory(id: int, userId: Option<UserId>)

  datatype ValidationError =
    | HistoryMissing      // belongs_to :watch_history
    | MovieMissing        // belongs_to :movie
    | WatchedOnBlank      // validates :watched_on, presence: true
    | WatchedOnInFuture   // watched_on_cannot_be_in_future

  /**
   * The errors about `watched_on`: a blank date fails only the presence
   * check; a date after today fails only the future check.
   */
  function WatchedOnErrors(watchedOn: Option<Day>, today: Day): (errs: seq<ValidationError>)
    ensures WatchedOnBlank in errs <==> watchedOn.None?
    ensures WatchedOnInFuture in errs <==> watchedOn.Some? && Lt(today, watchedOn.value)
    ensures |errs| <= 1
  {
    if watchedOn.None? then [WatchedOnBlank]
    else if Lt(today, watchedOn.value) then [WatchedOnInFuture]
    else []
  }

  /** A watch log being created, before it is saved. */
  class WatchLogDraft {
    var userId: Option<UserId>
    var history: Option<WatchHistory>
    var movieId: Option<MovieId>
    var watchedOn: Option<Day>
    /** `incoming_rating`, already cast to an integer; None when blank. */
    var incomingRating: Option<int>

    constructor(userId0: Option<UserId>, history0: Option<WatchHistory>, movieId0: Option<MovieId>,
                watchedOn0: Option<Day>, incomingRating0: Option<int>)
      ensures userId == userId0 && history == history0 && movieId == movieId0
      ensures watchedOn == watchedOn0 && incomingRating == incomingRating0
    {
      userId := userId0;
      history := history0;
      movieId := movieId0;
      watchedOn := watchedOn0;
      incomingRating := incomingRating0;
    }

    /**
     * `assign_user_from_watch_history`: the user id is copied from the watch
     * history only when it is blank and there is a watch history; otherwise
     * it is left as it was. Nothing else changes.
     */
    method AssignUserFromWatchHistory()
      modifies this
      ensures old(userId).None? && history.Some? ==> userId == history.value.userId
      ensures old(userId).Some? || history.None? ==> userId == old(userId)
      ensures history == old(history) && movieId == old(movieId)
      ensures watchedOn == old(watchedOn) && incomingRating == old(incomingRating)
    {
      if userId.None? && history.Some? {
        userId := history.value.userId;
      }
    }
  }

  // ------------------------------------------------------------ the legacy table

  /** The legacy row's key: (user, movie, watched_on). */
  predicate HasKey(l: LegacyLog, u: UserId, m: MovieId, d: Date) {
    l.userId == u && l.movieId == m && l.watchedOn == d
  }

  /** At most one legacy row per (user, movie, watched_on). */
  predicate UniqueKeys(legacy: seq<LegacyLog>) {
    forall i, j :: 0 <= i < j < |legacy| ==>
      !HasKey(legacy[j], legacy[i].userId, legacy[i].movieId, legacy[i].watchedOn)
  }

  /** `Log.find_by(user_id:, movie_id:, watched_on:)`: the first row with the key, if any. */
  function FindLegacy(legacy: seq<LegacyLog>, u: UserId, m: MovieId, d: Date): (r: Option<nat>)
    ensures r.Some? ==> r.value < |legacy| && HasKey(legacy[r.value], u, m, d)
    ensures r.Some? ==> forall j :: 0 <= j < r.value ==> !HasKey(legacy[j], u, m, d)
    ensures r.None? ==> forall j :: 0 <= j < |legacy| ==> !HasKey(legacy[j], u, m, d)
  {
    if legacy == [] then None
    else if HasKey(legacy[0], u, m, d) then Some(0)
    else
      match FindLegacy(legacy[1..], u, m, d)
      case None => None
      case Some(k) => Some(k + 1)
  }

  /** The user's most recent review of the movie (by `created_at`; of equal ones, the last listed). */
  function LatestReview(reviews: seq<Review>, u: UserId, m: MovieId): (r: Option<Review>)
    ensures r.None? <==> forall i :: 0 <= i < |reviews| ==> reviews[i].userId != u || reviews[i].movieId != m
    ensures r.Some? ==> r.value in reviews && r.value.userId == u && r.value.movieId == m
    ensures r.Some? ==> forall i :: 0 <= i < |reviews| && reviews[i].userId == u && reviews[i].movieId == m ==>
      reviews[i].createdAt <= r.value.createdAt
  {
    if reviews == [] then None
    else
      var last := reviews[|reviews| - 1];
      var rest := LatestReview(reviews[..|reviews| - 1], u, m);
      if last.userId != u || last.movieId != m then rest
      else if rest.Some? && rest.value.createdAt > last.createdAt then rest
      else Some(last)
  }

  /** The rating to mirror: the incoming rating when given, else the latest review's. */
  function RatingFor(reviews: seq<Review>, u: UserId, m: MovieId, incoming: Option<int>): (r: Option<int>)
    ensures incoming.Some? ==> r == incoming
    ensures incoming.None? && r.Some? ==>
      exists i :: 0 <= i < |reviews| && reviews[i].userId == u && reviews[i].movieId == m && reviews[i].rating == r.value &&
        forall j :: 0 <= j < |reviews| && reviews[j].userId == u && reviews[j].movieId == m ==>
          reviews[j].createdAt <= reviews[i].createdAt
    ensures incoming.None? ==> (r.None? <==> forall i :: 0 <= i < |reviews| ==> reviews[i].userId != u || reviews[i].movieId != m)
  {
    if incoming.Some? then incoming
    else
      match LatestReview(reviews, u, m)
      case None => None
      case Some(rv) => Some(rv.rating)
  }

  /**
   * `prior_watch`: another legacy row of the user and movie on a different
   * date, or another watch log of the movie in the same watch history.
   */
  function PriorWatch(legacy: seq<LegacyLog>, watchLogs: seq<WatchLog>, w: WatchLog, u: UserId): (b: bool)
    ensures b <==>
      (exists i :: 0 <= i < |legacy| && legacy[i].userId == u && legacy[i].movieId == w.movieId && legacy[i].watchedOn != w.watchedOn) ||
      (exists i :: 0 <= i < |watchLogs| && watchLogs[i].historyId == w.historyId && watchLogs[i].movieId == w.movieId && watchLogs[i].id != w.id)
  {
    LegacyOnOtherDay(legacy, u, w.movieId, w.watchedOn) || OtherViewingInHistory(watchLogs, w)
  }

  /** `Log.where(user:, movie:).where.not(watched_on:).exists?`, row by row. */
  function LegacyOnOtherDay(legacy: seq<LegacyLog>, u: UserId, m: MovieId, d: Date): (b: bool)
    ensures b <==> exists i :: 0 <= i < |legacy| && legacy[i].userId == u && legacy[i].movieId == m && legacy[i].watchedOn != d
  {
    if legacy == [] then false
    else
      var row := legacy[|legacy| - 1];
      (row.userId == u && row.movieId == m && row.watchedOn != d) || LegacyOnOtherDay(legacy[..|legacy| - 1], u, m, d)
  }

  /** `WatchLog.where(watch_history_id:, movie_id:).where.not(id:).exists?`, row by row. */
  function OtherViewingInHistory(watchLogs: seq<WatchLog>, w: WatchLog): (b: bool)
    ensures b <==> exists i :: 0 <= i < |watchLogs| && watchLogs[i].historyId == w.historyId && watchLogs[i].movieId == w.movieId && watchLogs[i].id != w.id
  {
    if watchLogs == [] then false
    else
      var row := watchLogs[|watchLogs| - 1];
      (row.historyId == w.historyId && row.movieId == w.movieId && row.id != w.id) || OtherViewingInHistory(watchLogs[..|watchLogs| - 1], w)
  }

  /**
   * The legacy table after `sync_to_log` for watch log `w`. Without a user,
   * or without a rating, nothing is written; a rating outside 1..10 fails
   * the Log validation and the rescue leaves the table as it was. Otherwise
   * the row with the key gets the rating and its rewatch flag is or-ed with
   * `prior_watch`, or a new row with that rating and flag is appended.
   */
  function SyncedLegacy(legacy: seq<LegacyLog>, watchLogs: seq<WatchLog>, reviews: seq<Review>, w: WatchLog, incoming: Option<int>): (r: seq<LegacyLog>)
    ensures |legacy| <= |r| <= |legacy| + 1
    ensures forall i :: 0 <= i < |legacy| ==>
      r[i].userId == legacy[i].userId && r[i].movieId == legacy[i].movieId && r[i].watchedOn == legacy[i].watchedOn
    ensures |r| > |legacy| ==>
      w.userId.Some? && HasKey(r[|legacy|], w.userId.value, w.movieId, w.watchedOn) &&
      forall i :: 0 <= i < |legacy| ==> !HasKey(legacy[i], w.userId.value, w.movieId, w.watchedOn)
  {
    if w.userId.None? then legacy
    else
      var u := w.userId.value;
      var rating := RatingFor(reviews, u, w.movieId, incoming);
      if rating.None? || !ValidRating(rating.value) then legacy
      else
        var prior := PriorWatch(legacy, watchLogs, w, u);
        match FindLegacy(legacy, u, w.movieId, w.watchedOn)
        case Some(i) => legacy[i := legacy[i].(rating := rating.value, rewatch := prior || legacy[i].rewatch)]
        case None => legacy + [LegacyLog(u, w.movieId, w.watchedOn, rating.value, prior)]
  }

  /** The legacy table after `remove_synced_log`: the first row with the key is destroyed, if there is one. */
  function RemovedLegacy(legacy: seq<LegacyLog>, w: WatchLog): (r: seq<LegacyLog>)
    ensures |legacy| - 1 <= |r| <= |legacy|
    ensures multiset(r) <= multiset(legacy)
    ensures w.userId.Some? ==>
      (|r| < |legacy| <==> exists i :: 0 <= i < |legacy| && HasKey(legacy[i], w.userId.value, w.movieId, w.watchedOn))
  {
    if w.userId.None? then legacy
    else
      match FindLegacy(legacy, w.userId.value, w.movieId, w.watchedOn)
      case Some(i) =>
        assert legacy == legacy[..i] + [legacy[i]] + legacy[i + 1..];
        legacy[..i] + legacy[i + 1..]
      case None => legacy
  }

  /** The watch-log and legacy tables the callbacks read and write, with the rows they consult. */
  class LogTables {
    var watchLogs: seq<WatchLog>
    var legacy: seq<LegacyLog>
    var reviews: seq<Review>
    var movieIds: set<MovieId>
    var nextId: int

    /**
     * The legacy table keeps one row per key, as the callbacks maintain it,
     * and the next id lies above every stored watch log's id.
     */
    ghost predicate Valid()
      reads this
    {
      UniqueKeys(legacy) && (forall i :: 0 <= i < |watchLogs| ==> watchLogs[i].id < nextId)
    }

    /**
     * Tables as other code left them: a legacy table with one row per key,
     * and a next id above every stored watch log's id (the auto-increment).
     */
    constructor(watchLogs0: seq<WatchLog>, legacy0: seq<LegacyLog>, reviews0: seq<Review>, movieIds0: set<MovieId>, nextId0: int)
      requires UniqueKeys(legacy0)
      requires forall i :: 0 <= i < |watchLogs0| ==> watchLogs0[i].id < nextId0
      ensures Valid()
      ensures watchLogs == watchLogs0 && legacy == legacy0 && reviews == reviews0 && movieIds == movieIds0 && nextId == nextId0
    {
      watchLogs := watchLogs0;
      legacy := legacy0;
      reviews := reviews0;
      movieIds := movieIds0;
      nextId := nextId0;
    }

    /**
     * `sync_to_log` (after_create). The legacy table becomes
     * `SyncedLegacy`; a table with one row per key keeps that property.
     */
    method SyncToLog(w: WatchLog, incoming: Option<int>)
      requires Valid()
      modifies this
      ensures legacy == SyncedLegacy(old(legacy), watchLogs, reviews, w, incoming)
      ensures Valid()
      ensures watchLogs == old(watchLogs) && reviews == old(reviews)
      ensures movieIds == old(movieIds) && nextId == old(nextId)
    {
      if w.userId.None? {
        return;
      }
      var u := w.userId.value;
      var rating := incoming;
      if rating.None? {
        var latest := LatestReview(reviews, u, w.movieId);
        if latest.Some? {
          rating := Some(latest.value.rating);
        }
      }
      if rating.None? {
        return;
      }
      var found := FindLegacy(legacy, u, w.movieId, w.watchedOn);
      var prior := PriorWatch(legacy, watchLogs, w, u);
      if !ValidRating(rating.value) {
        // save! fails the rating validation; the rescue swallows the error.
        return;
      }
      if found.Some? {
        var i := found.value;
        legacy := legacy[i := legacy[i].(rating := rating.value, rewatch := prior || legacy[i].rewatch)];
      } else {
        legacy := legacy + [LegacyLog(u, w.movieId, w.watchedOn, rating.value, prior)];
      }
      SyncKeepsKeysUnique(old(legacy), watchLogs, reviews, w, incoming);
    }

    /** `remove_synced_log` (after_destroy): the legacy table becomes `RemovedLegacy`. */
    method RemoveSyncedLog(w: WatchLog)
      requires Valid()
      modifies this
      ensures legacy == RemovedLegacy(old(legacy), w)
      ensures Valid()
      ensures watchLogs == old(watchLogs) && reviews == old(reviews)
      ensures movieIds == old(movieIds) && nextId == old(nextId)
    {
      if w.userId.None? {
        return;
      }
      var found := FindLegacy(legacy, w.userId.value, w.movieId, w.watchedOn);
      if found.Some? {
        var i := found.value;
        legacy := legacy[..i] + legacy[i + 1..];
      }
      RemoveKeepsKeysUnique(old(legacy), w);
    }

    /**
     * Creating a watch log: take the user from the watch history, validate,
     * and on success save the row with a fresh id and mirror it into the
     * legacy table. A draft with errors saves nothing.
     */
    method Create(d: WatchLogDraft, today: Day) returns (errs: seq<ValidationError>, saved: Option<WatchLog>)
      requires Valid()
      modifies this, d
      ensures Valid()
      ensures d.userId == (if old(d.userId).None? && d.history.Some? then d.history.value.userId else old(d.userId))
      ensures HistoryMissing in errs <==> d.history.None?
      ensures MovieMissing in errs <==> d.movieId.None? || d.movieId.value !in movieIds
      ensures WatchedOnBlank in errs <==> d.watchedOn.None?
      ensures WatchedOnInFuture in errs <==> d.watchedOn.Some? && Lt(today, d.watchedOn.value)
      ensures saved.None? <==> errs != []
      ensures saved.None? ==> watchLogs == old(watchLogs) && legacy == old(legacy) && nextId == old(nextId)
      ensures saved.Some? ==>
        saved.value == WatchLog(old(nextId), d.history.value.id, d.userId, d.movieId.value, d.watchedOn.value) &&
        watchLogs == old(watchLogs) + [saved.value] && nextId == old(nextId) + 1 &&
        legacy == SyncedLegacy(old(legacy), watchLogs, reviews, saved.value, d.incomingRating)
      ensures saved.Some? ==> forall i :: 0 <= i < |old(watchLogs)| ==> old(watchLogs)[i].id != saved.value.id
      ensures reviews == old(reviews) && movieIds == old(movieIds)
    {
      d.AssignUserFromWatchHistory();
      errs := (if d.history.None? then [HistoryMissing] else []) +
              (if d.movieId.None? || d.movieId.value !in movieIds then [MovieMissing] else []) +
              WatchedOnErrors(d.watchedOn, today);
      if errs != [] {
        return errs, None;
      }
      var w := WatchLog(nextId, d.history.value.id, d.userId, d.movieId.value, d.watchedOn.value);
      watchLogs := watchLogs + [w];
      nextId := nextId + 1;
      SyncToLog(w, d.incomingRating);
      saved := Some(w);
    }

    /** Destroying the watch log at position `i`, then removing its mirrored legacy row. */
    method Destroy(i: nat)
      requires Valid() && i < |watchLogs|
      modifies this
      ensures Valid()
      ensures watchLogs == old(watchLogs[..i]) + old(watchLogs[i + 1..])
      ensures legacy == RemovedLegacy(old(legacy), old(watchLogs[i]))
      ensures reviews == old(reviews) && movieIds == old(movieIds) && nextId == old(nextId)
    {
      var w := watchLogs[i];
      watchLogs := watchLogs[..i] + watchLogs[i + 1..];
      RemoveSyncedLog(w);
    }
  }

  // ---------------------------------------------------------------- lemmas

  /** Without an incoming rating and without a review of the movie, the sync writes nothing. */
  lemma SyncWritesNothingWithoutRating(legacy: seq<LegacyLog>, watchLogs: seq<WatchLog>, reviews: seq<Review>, w: WatchLog)
    requires w.userId.Some?
    requires forall i :: 0 <= i < |reviews| ==> reviews[i].userId != w.userId.value || reviews[i].movieId != w.movieId
    ensures SyncedLegacy(legacy, watchLogs, reviews, w, None) == legacy
  {
  }

  /**
   * With a user and a rating within 1..10, the synced table has a row with
   * the watch log's key carrying that rating; every row with another key
   * is left where and as it was, and at most one row is added, with the key.
   */
  lemma SyncWritesTheRating(legacy: seq<LegacyLog>, watchLogs: seq<WatchLog>, reviews: seq<Review>, w: WatchLog, incoming: Option<int>)
    ensures var r := SyncedLegacy(legacy, watchLogs, reviews, w, incoming);
      (|r| == |legacy| || |r| == |legacy| + 1) &&
      (w.userId.None? ==> r == legacy) &&
      (w.userId.Some? ==>
        var u := w.userId.value;
        var rating := RatingFor(reviews, u, w.movieId, incoming);
        (forall i :: 0 <= i < |legacy| && !HasKey(legacy[i], u, w.movieId, w.watchedOn) ==> r[i] == legacy[i]) &&
        (|r| == |legacy| + 1 ==> HasKey(r[|legacy|], u, w.movieId, w.watchedOn)) &&
        (rating.Some? && ValidRating(rating.value) ==>
          exists i :: 0 <= i < |r| && HasKey(r[i], u, w.movieId, w.watchedOn) && r[i].rating == rating.value))
  {
    var r := SyncedLegacy(legacy, watchLogs, reviews, w, incoming);
    if w.userId.Some? {
      var u := w.userId.value;
      var rating := RatingFor(reviews, u, w.movieId, incoming);
      if rating.Some? && ValidRating(rating.value) {
        match FindLegacy(legacy, u, w.movieId, w.watchedOn)
        case Some(i) =>
          assert HasKey(r[i], u, w.movieId, w.watchedOn) && r[i].rating == rating.value;
        case None =>
          assert HasKey(r[|legacy|], u, w.movieId, w.watchedOn) && r[|legacy|].rating == rating.value;
      }
    }
  }

  /**
   * The rewatch flag is never cleared: a row flagged before the sync is
   * still flagged after it. The row the sync writes is flagged exactly when
   * it was already flagged or there is a prior watch.
   */
  lemma SyncNeverClearsRewatch(legacy: seq<LegacyLog>, watchLogs: seq<WatchLog>, reviews: seq<Review>, w: WatchLog, incoming: Option<int>)
    ensures var r := SyncedLegacy(legacy, watchLogs, reviews, w, incoming);
      forall i :: 0 <= i < |legacy| && legacy[i].rewatch ==> r[i].rewatch
    ensures var r := SyncedLegacy(legacy, watchLogs, reviews, w, incoming);
      w.userId.Some? ==>
        var u := w.userId.value;
        var rating := RatingFor(reviews, u, w.movieId, incoming);
        var prior := PriorWatch(legacy, watchLogs, w, u);
        rating.Some? && ValidRating(rating.value) ==>
          match FindLegacy(legacy, u, w.movieId, w.watchedOn)
          case Some(i) => r[i].rewatch == (prior || legacy[i].rewatch)
          case None => r[|legacy|].rewatch == prior
  {
    SyncWritesTheRating(legacy, watchLogs, reviews, w, incoming);
  }

  /** One row per key before the sync means one row per key after it. */
  lemma SyncKeepsKeysUnique(legacy: seq<LegacyLog>, watchLogs: seq<WatchLog>, reviews: seq<Review>, w: WatchLog, incoming: Option<int>)
    requires UniqueKeys(legacy)
    ensures UniqueKeys(SyncedLegacy(legacy, watchLogs, reviews, w, incoming))
  {
    var r := SyncedLegacy(legacy, watchLogs, reviews, w, incoming);
    if w.userId.Some? {
      var u := w.userId.value;
      var rating := RatingFor(reviews, u, w.movieId, incoming);
      if rating.Some? && ValidRating(rating.value) && FindLegacy(legacy, u, w.movieId, w.watchedOn).None? {
        forall i, j | 0 <= i < j < |r|
          ensures !HasKey(r[j], r[i].userId, r[i].movieId, r[i].watchedOn)
        {
          if j == |legacy| {
            assert r[i] == legacy[i];
          }
        }
      }
    }
  }

  lemma RemoveKeepsKeysUnique(legacy: seq<LegacyLog>, w: WatchLog)
    requires UniqueKeys(legacy)
    ensures UniqueKeys(RemovedLegacy(legacy, w))
  {
    var r := RemovedLegacy(legacy, w);
    if w.userId.Some? {
      match FindLegacy(legacy, w.userId.value, w.movieId, w.watchedOn)
      case None =>
      case Some(k) =>
        forall i, j | 0 <= i < j < |r|
          ensures !HasKey(r[j], r[i].userId, r[i].movieId, r[i].watchedOn)
        {
          var i' := if i < k then i else i + 1;
          var j' := if j < k then j else j + 1;
          assert r[i] == legacy[i'] && r[j] == legacy[j'];
        }
    }
  }

  /**
   * `remove_synced_log` deletes only the row with the watch log's key: with
   * one row per key, no row with the key remains, and the other rows keep
   * their order.
   */
  lemma RemoveDeletesOnlyItsKey(legacy: seq<LegacyLog>, w: WatchLog)
    requires UniqueKeys(legacy) && w.userId.Some?
    ensures var r := RemovedLegacy(legacy, w);
      var u := w.userId.value;
      (forall i :: 0 <= i < |r| ==> !HasKey(r[i], u, w.movieId, w.watchedOn)) &&
      r == Without(legacy, u, w.movieId, w.watchedOn)
  {
    var u := w.userId.value;
    match FindLegacy(legacy, u, w.movieId, w.watchedOn)
    case None =>
      WithoutAbsent(legacy, u, w.movieId, w.watchedOn);
    case Some(k) =>
      OnlyRowWithKey(legacy, k, u, w.movieId, w.watchedOn);
      WithoutOneRow(legacy, k, u, w.movieId, w.watchedOn);
  }

  lemma OnlyRowWithKey(legacy: seq<LegacyLog>, k: nat, u: UserId, m: MovieId, d: Date)
    requires UniqueKeys(legacy) && k < |legacy| && HasKey(legacy[k], u, m, d)
    ensures forall j :: 0 <= j < |legacy| && j != k ==> !HasKey(legacy[j], u, m, d)
  {
    forall j | 0 <= j < |legacy| && j != k
      ensures !HasKey(legacy[j], u, m, d)
    {
      if j < k {
        assert !HasKey(legacy[k], legacy[j].userId, legacy[j].movieId, legacy[j].watchedOn);
      } else {
        assert !HasKey(legacy[j], legacy[k].userId, legacy[k].movieId, legacy[k].watchedOn);
      }
    }
  }

  lemma {:induction false} WithoutOneRow(legacy: seq<LegacyLog>, k: nat, u: UserId, m: MovieId, d: Date)
    requires k < |legacy| && HasKey(legacy[k], u, m, d)
    requires forall j :: 0 <= j < |legacy| && j != k ==> !HasKey(legacy[j], u, m, d)
    ensures Without(legacy, u, m, d) == legacy[..k] + legacy[k + 1..]
    decreases k
  {
    if k == 0 {
      WithoutAbsent(legacy[1..], u, m, d);
    } else {
      WithoutOneRow(legacy[1..], k - 1, u, m, d);
      assert legacy[..k] == [legacy[0]] + legacy[1..][..k - 1];
      assert legacy[k + 1..] == legacy[1..][k..];
    }
  }

  /** The rows without the key, in order. */
  function Without(legacy: seq<LegacyLog>, u: UserId, m: MovieId, d: Date): (r: seq<LegacyLog>)
    ensures forall i :: 0 <= i < |r| ==> !HasKey(r[i], u, m, d)
  {
    if legacy == [] then []
    else (if HasKey(legacy[0], u, m, d) then [] else [legacy[0]]) + Without(legacy[1..], u, m, d)
  }

  lemma {:induction false} WithoutAbsent(legacy: seq<LegacyLog>, u: UserId, m: MovieId, d: Date)
    requires forall i :: 0 <= i < |legacy| ==> !HasKey(legacy[i], u, m, d)
    ensures Without(legacy, u, m, d) == legacy
  {
    if legacy != [] {
      WithoutAbsent(legacy[1..], u, m, d);
    }
  }

  /**
   * Creating and then destroying a watch log whose key had no legacy row
   * leaves the legacy table as it was: the row the sync appended is the
   * one the removal deletes.
   */
  lemma SyncThenRemoveRestores(legacy: seq<LegacyLog>, watchLogs: seq<WatchLog>, reviews: seq<Review>, w: WatchLog, incoming: Option<int>)
    requires w.userId.Some? && FindLegacy(legacy, w.userId.value, w.movieId, w.watchedOn).None?
    ensures RemovedLegacy(SyncedLegacy(legacy, watchLogs, reviews, w, incoming), w) == legacy
  {
    var r := SyncedLegacy(legacy, watchLogs, reviews, w, incoming);
    if r != legacy {
      var u := w.userId.value;
      assert FindLegacy(r, u, w.movieId, w.watchedOn) == Some(|legacy|) by {
        FindLegacyAppended(legacy, r[|legacy|], u, w.movieId, w.watchedOn);
      }
      assert r[..|legacy|] == legacy;
    }
  }

  lemma {:induction false} FindLegacyAppended(legacy: seq<LegacyLog>, l: LegacyLog, u: UserId, m: MovieId, d: Date)
    requires FindLegacy(legacy, u, m, d).None? && HasKey(l, u, m, d)
    ensures FindLegacy(legacy + [l], u, m, d) == Some(|legacy|)
  {
    if legacy != [] {
      assert (legacy + [l])[1..] == legacy[1..] + [l];
      FindLegacyAppended(legacy[1..], l, u, m, d);
    }
  }
}
