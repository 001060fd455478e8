/**
 * The series-tracking rules as functions of the user store: the existence
 * guard, the `find` lookups, the progress computation, and one transition
 * per route giving the new store and the route's response.
 */
module Tracking {
  import opened Records

  /** The store after a route has run, and the route's response. */
  datatype Step<+T> = Step(db: Db, response: Result<T>)

  /** The JavaScript string `toFixed(0)` yields for the progress ratio. */
  datatype Progress = Percent(value: nat) | NaN | Infinity

  // ---------------------------------------------------------------------------
  // Existence guard and lookups
  // ---------------------------------------------------------------------------

  /** Resolves the `username` header to the stored user, or fails with 404. */
  function CheckUserExists(db: Db, username: string): (r: Result<User>)
    ensures r.Ok? <==> username in db
    ensures r.Err? ==> r.failure == UserNotFound
    ensures r.Err? ==> r.failure.Status() == 404 && r.failure.Message() == "User not found."
    ensures r.Ok? ==> r.value == db[username]
    ensures r.Ok? && ValidDb(db) ==> r.value.username == username
  {
    if username in db then Ok(db[username]) else Err(UserNotFound)
  }

  /** Position of the first series whose id equals `id`, as a linear search from the front finds it. */
  function FindSeries(ss: seq<Series>, id: string): (r: Option<nat>)
    ensures r.Some? ==> r.value < |ss| && ss[r.value].id == id
    ensures r.Some? ==> forall k :: 0 <= k < r.value ==> ss[k].id != id
    ensures r.None? <==> forall k :: 0 <= k < |ss| ==> ss[k].id != id
  {
    if |ss| == 0 then None
    else if ss[0].id == id then Some(0)
    else match FindSeries(ss[1..], id)
      case None => None
      case Some(k) => Some(k + 1)
  }

  /** Position of the first episode whose number equals `number`. */
  function FindEpisode(eps: seq<Episode>, number: nat): (r: Option<nat>)
    ensures r.Some? ==> r.value < |eps| && eps[r.value].number == number
    ensures r.Some? ==> forall k :: 0 <= k < r.value ==> eps[k].number != number
    ensures r.None? <==> forall k :: 0 <= k < |eps| ==> eps[k].number != number
  {
    if |eps| == 0 then None
    else if eps[0].number == number then Some(0)
    else match FindEpisode(eps[1..], number)
      case None => None
      case Some(k) => Some(k + 1)
  }

  /** Two series lists with the same ids position by position give the same lookup. */
  lemma FindSeriesByIds(ss: seq<Series>, ts: seq<Series>, id: string)
    requires |ss| == |ts|
    requires forall k :: 0 <= k < |ss| ==> ss[k].id == ts[k].id
    ensures FindSeries(ss, id) == FindSeries(ts, id)
  {
  }

  /** Two episode lists with the same numbers position by position give the same lookup. */
  lemma FindEpisodeByNumbers(eps: seq<Episode>, fps: seq<Episode>, number: nat)
    requires |eps| == |fps|
    requires forall k :: 0 <= k < |eps| ==> eps[k].number == fps[k].number
    ensures FindEpisode(eps, number) == FindEpisode(fps, number)
  {
  }

  // ---------------------------------------------------------------------------
  // Progress
  // ---------------------------------------------------------------------------

  /** The episodes whose watched flag is set, in their original order. */
  function Watched(eps: seq<Episode>): (r: seq<Episode>)
    ensures |r| <= |eps|
    ensures forall e :: e in r ==> e.watched && e in eps
    ensures forall k :: 0 <= k < |eps| && eps[k].watched ==> eps[k] in r
    ensures (forall k :: 0 <= k < |eps| ==> eps[k].watched) ==> r == eps
    ensures (forall k :: 0 <= k < |eps| ==> !eps[k].watched) ==> r == []
  {
    if |eps| == 0 then []
    else (if eps[0].watched then [eps[0]] else []) + Watched(eps[1..])
  }

  /**
   * The filter keeps each watched episode as often as it occurs and drops every
   * unwatched one, so its length is the number of watched episodes.
   */
  lemma {:induction false} WatchedCounts(eps: seq<Episode>)
    ensures forall e :: multiset(Watched(eps))[e] == if e.watched then multiset(eps)[e] else 0
  {
    if |eps| > 0 {
      assert eps == [eps[0]] + eps[1..];
      WatchedCounts(eps[1..]);
    }
  }

  /** Marking episode `j` adds one watched episode if it was unwatched, none otherwise. */
  lemma {:induction false} WatchedAfterMark(eps: seq<Episode>, j: nat)
    requires j < |eps|
    ensures |Watched(eps[j := eps[j].(watched := true)])| == |Watched(eps)| + (if eps[j].watched then 0 else 1)
  {
    var fps := eps[j := eps[j].(watched := true)];
    if j > 0 {
      assert fps[1..] == eps[1..][j - 1 := eps[j].(watched := true)];
      WatchedAfterMark(eps[1..], j - 1);
    } else {
      assert fps[1..] == eps[1..];
    }
  }

  /**
   * 100 * w / n rounded to an integer as `toFixed(0)` does for a non-negative
   * value: to the nearest integer, a tie going to the larger one.
   */
  function RoundPercent(w: nat, n: nat): (r: nat)
    requires n > 0
    ensures -(n as int) <= 2 * (100 * w - r * n) < n
  {
    var q := (200 * w + n) / (2 * n);
    assert 200 * w + n == 2 * n * q + (200 * w + n) % (2 * n);
    q
  }

  /** Dividing a sign condition by a positive factor. */
  lemma ProductSign(a: int, n: int)
    requires n > 0
    ensures a * n <= 0 ==> a <= 0
    ensures a * n < 0 ==> a < 0
  {
  }

  /** A ratio of at most one gives a percentage of at most 100; none watched is 0, all watched is 100. */
  lemma RoundPercentBounds(w: nat, n: nat)
    requires 0 < n && w <= n
    ensures RoundPercent(w, n) <= 100
    ensures w == 0 ==> RoundPercent(w, n) == 0
    ensures w == n ==> RoundPercent(w, n) == 100
  {
    var r: int := RoundPercent(w, n);
    ProductSign(2 * r - 201, n);
    if w == 0 {
      ProductSign(2 * r - 1, n);
    }
    if w == n {
      ProductSign(199 - 2 * r, n);
    }
  }

  /** More watched episodes never give a lower percentage. */
  lemma RoundPercentMonotone(w1: nat, w2: nat, n: nat)
    requires 0 < n && w1 <= w2
    ensures RoundPercent(w1, n) <= RoundPercent(w2, n)
  {
    var r1: int, r2: int := RoundPercent(w1, n), RoundPercent(w2, n);
    assert 2 * (r1 * n) <= 200 * w1 + n;
    assert 200 * w2 + n < 2 * (r2 * n) + 2 * n;
    assert (r1 - r2 - 1) * n == r1 * n - r2 * n - n;
    ProductSign(r1 - r2 - 1, n);
  }

  /** The documented examples: 1 of 3 is 33, 2 of 4 is 50, 2 of 3 rounds up to 67. */
  lemma RoundPercentExamples()
    ensures RoundPercent(1, 3) == 33
    ensures RoundPercent(2, 4) == 50
    ensures RoundPercent(2, 3) == 67
    ensures RoundPercent(1, 8) == 13
  {
  }

  /**
   * The progress of one series: the watched count times 100 over the episode
   * count given at creation, printed with no decimals. A zero count divides by
   * zero, which prints NaN with nothing watched and Infinity otherwise.
   */
  function SeriesProgress(s: Series): (p: Progress)
    ensures s.qtEpisodes > 0 ==> p.Percent?
    ensures p.Percent? ==> (s.qtEpisodes > 0 &&
      var w := |Watched(s.episodes)|;
      -(s.qtEpisodes as int) <= 2 * (100 * w - p.value * s.qtEpisodes) < s.qtEpisodes)
    ensures p == NaN <==> s.qtEpisodes == 0 && forall k :: 0 <= k < |s.episodes| ==> !s.episodes[k].watched
    ensures p == Infinity <==> s.qtEpisodes == 0 && exists k :: 0 <= k < |s.episodes| && s.episodes[k].watched
  {
    var w := |Watched(s.episodes)|;
    if s.qtEpisodes > 0 then Percent(RoundPercent(w, s.qtEpisodes))
    else if w == 0 then NaN
    else Infinity
  }

  /** A well-formed series reports 0..100, or NaN when it has no episodes; never Infinity. */
  lemma SeriesProgressRange(s: Series)
    requires WellFormedSeries(s)
    ensures s.qtEpisodes > 0 <==> SeriesProgress(s).Percent?
    ensures s.qtEpisodes == 0 <==> SeriesProgress(s) == NaN
    ensures SeriesProgress(s).Percent? ==> SeriesProgress(s).value <= 100
  {
    if s.qtEpisodes > 0 {
      RoundPercentBounds(|Watched(s.episodes)|, s.qtEpisodes);
    }
  }

  /** Sets the watched flag of the episode at position `j` of `s`. */
  function SetWatched(s: Series, j: nat): (r: Series)
    requires j < |s.episodes|
    ensures r.id == s.id && r.name == s.name && r.qtEpisodes == s.qtEpisodes
    ensures |r.episodes| == |s.episodes|
    ensures r.episodes[j].watched && r.episodes[j].number == s.episodes[j].number
    ensures forall m :: 0 <= m < |s.episodes| && m != j ==> r.episodes[m] == s.episodes[m]
  {
    s.(episodes := s.episodes[j := s.episodes[j].(watched := true)])
  }

  /** Marking an episode watched never lowers the series' progress. */
  lemma SetWatchedRaisesProgress(s: Series, j: nat)
    requires j < |s.episodes|
    ensures SeriesProgress(s).Percent? ==> SeriesProgress(SetWatched(s, j)).Percent?
    ensures SeriesProgress(s).Percent? ==> SeriesProgress(s).value <= SeriesProgress(SetWatched(s, j)).value
  {
    WatchedAfterMark(s.episodes, j);
    if s.qtEpisodes > 0 {
      RoundPercentMonotone(|Watched(s.episodes)|, |Watched(SetWatched(s, j).episodes)|, s.qtEpisodes);
    }
  }

  // ---------------------------------------------------------------------------
  // Routes
  // ---------------------------------------------------------------------------

  /** POST /users: rejects a taken username, otherwise stores `{id, name, username, series: []}`. */
  function CreateUser(db: Db, name: string, username: string, freshId: string): (s: Step<User>)
    ensures s.response.Err? <==> username in db
    ensures s.response.Err? ==> s.response.failure == UserAlreadyExists && s.db == db
    ensures s.response.Err? ==> s.response.failure.Status() == 400 && s.response.failure.Message() == "User already exists"
    ensures s.response.Ok? ==> s.response.value == User(freshId, name, username, [])
    ensures s.response.Ok? ==> s.db.Keys == db.Keys + {username} && |s.db| == |db| + 1
    ensures s.response.Ok? ==> s.db[username] == s.response.value
    ensures s.response.Ok? ==> forall k :: k in db ==> s.db[k] == db[k]
    ensures ValidDb(db) ==> ValidDb(s.db)
  {
    if username in db then Step(db, Err(UserAlreadyExists))
    else
      var u := User(freshId, name, username, []);
      Step(db[username := u], Ok(u))
  }

  /** PUT /users: stores the new name and answers with the record as it was before. */
  function UpdateName(db: Db, username: string, name: string): (s: Step<User>)
    ensures username !in db ==> s == Step(db, Err(UserNotFound))
    ensures username in db ==> s.response == Ok(db[username])
    ensures username in db ==> s.db.Keys == db.Keys && s.db[username].name == name
    ensures username in db ==> s.db[username].id == db[username].id && s.db[username].username == db[username].username
    ensures username in db ==> s.db[username].series == db[username].series
    ensures forall k :: k in db && k != username ==> k in s.db && s.db[k] == db[k]
    ensures ValidDb(db) ==> ValidDb(s.db)
  {
    match CheckUserExists(db, username)
    case Err(f) => Step(db, Err(f))
    case Ok(u) => Step(db[username := u.(name := name)], Ok(u))
  }

  /** POST /series: appends a series of `qtEpisodes` unwatched episodes to the user's list. */
  function CreateSeries(db: Db, username: string, name: string, qtEpisodes: nat, freshId: string): (s: Step<Series>)
    ensures username !in db ==> s == Step(db, Err(UserNotFound))
    ensures username in db ==> s.response.Ok?
    ensures s.response.Ok? ==> s.response.value.id == freshId && s.response.value.name == name
    ensures s.response.Ok? ==> s.response.value.qtEpisodes == qtEpisodes && |s.response.value.episodes| == qtEpisodes
    ensures s.response.Ok? ==> forall i :: 0 <= i < qtEpisodes ==> s.response.value.episodes[i] == Episode(i + 1, false)
    ensures username in db ==> s.db.Keys == db.Keys && s.db[username].series == db[username].series + [s.response.value]
    ensures username in db ==> s.db[username].id == db[username].id && s.db[username].name == db[username].name
    ensures username in db ==> s.db[username].username == db[username].username
    ensures forall k :: k in db && k != username ==> k in s.db && s.db[k] == db[k]
    ensures ValidDb(db) ==> ValidDb(s.db)
  {
    match CheckUserExists(db, username)
    case Err(f) => Step(db, Err(f))
    case Ok(u) =>
      var serie := Series(freshId, name, qtEpisodes, Numbered(qtEpisodes));
      Step(db[username := u.(series := u.series + [serie])], Ok(serie))
  }

  /** GET /series: the user's series list, read only. */
  function ListSeries(db: Db, username: string): (r: Result<seq<Series>>)
    ensures r.Err? <==> username !in db
    ensures r.Err? ==> r.failure == UserNotFound
  {
    match CheckUserExists(db, username)
    case Err(f) => Err(f)
    case Ok(u) => Ok(u.series)
  }

  /** PATCH /series/:id/watched: sets `watched` on the first matching episode of the first matching series. */
  function MarkWatched(db: Db, username: string, id: string, epNumber: nat): (s: Step<Series>)
    ensures s.response == Err(UserNotFound) <==> username !in db
    ensures s.response == Err(SerieNotFound) <==>
      username in db && forall k :: 0 <= k < |db[username].series| ==> db[username].series[k].id != id
    ensures s.response == Err(InvalidEpisode) <==>
      username in db && FindSeries(db[username].series, id).Some? &&
      var eps := db[username].series[FindSeries(db[username].series, id).value].episodes;
      forall k :: 0 <= k < |eps| ==> eps[k].number != epNumber
    ensures s.response.Err? ==> s.response.failure in {UserNotFound, SerieNotFound, InvalidEpisode}
    ensures s.response.Err? ==> s.response.failure.Status() == 404
    ensures s.response == Err(SerieNotFound) ==> s.response.failure.Message() == "Serie not found"
    ensures s.response == Err(InvalidEpisode) ==> s.response.failure.Message() == "Invalid episode"
    ensures s.response.Err? ==> s.db == db
    ensures ValidDb(db) ==> ValidDb(s.db)
  {
    match CheckUserExists(db, username)
    case Err(f) => Step(db, Err(f))
    case Ok(u) =>
      match FindSeries(u.series, id)
      case None => Step(db, Err(SerieNotFound))
      case Some(i) =>
        match FindEpisode(u.series[i].episodes, epNumber)
        case None => Step(db, Err(InvalidEpisode))
        case Some(j) =>
          var serie := SetWatched(u.series[i], j);
          Step(db[username := u.(series := u.series[i := serie])], Ok(serie))
  }

  /** GET /series/:id/progress: the progress of the first series with that id, read only. */
  function GetProgress(db: Db, username: string, id: string): (r: Result<Progress>)
    ensures r == Err(UserNotFound) <==> username !in db
    ensures r == Err(SerieNotFound) <==>
      username in db && forall k :: 0 <= k < |db[username].series| ==> db[username].series[k].id != id
    ensures r.Err? ==> r.failure in {UserNotFound, SerieNotFound}
    ensures r.Err? ==> r.failure.Status() == 404
    ensures r == Err(SerieNotFound) ==> r.failure.Message() == "Serie not found"
    ensures r.Ok? ==> (username in db && FindSeries(db[username].series, id).Some? &&
      r.value == SeriesProgress(db[username].series[FindSeries(db[username].series, id).value]))
  {
    match CheckUserExists(db, username)
    case Err(f) => Err(f)
    case Ok(u) =>
      match FindSeries(u.series, id)
      case None => Err(SerieNotFound)
      case Some(i) => Ok(SeriesProgress(u.series[i]))
  }

  // ---------------------------------------------------------------------------
  // Properties relating the routes
  // ---------------------------------------------------------------------------

  /**
   * A successful mark sets `watched` on exactly one episode, the first one
   * numbered `epNumber` in the first series with that id; every other
   * episode, series and user stays as it was.
   */
  lemma MarkWatchedSuccess(db: Db, username: string, id: string, epNumber: nat)
    requires MarkWatched(db, username, id, epNumber).response.Ok?
    ensures username in db && FindSeries(db[username].series, id).Some?
    ensures
      var s := MarkWatched(db, username, id, epNumber);
      var ss, ts := db[username].series, s.db[username].series;
      var i := FindSeries(ss, id).value;
      && s.db.Keys == db.Keys
      && (forall k :: k in db && k != username ==> s.db[k] == db[k])
      && s.db[username] == db[username].(series := ts)
      && |ts| == |ss|
      && (forall k :: 0 <= k < |ss| && k != i ==> ts[k] == ss[k])
      && FindEpisode(ss[i].episodes, epNumber).Some?
      && var j := FindEpisode(ss[i].episodes, epNumber).value;
      && ts[i] == ss[i].(episodes := ts[i].episodes)
      && |ts[i].episodes| == |ss[i].episodes|
      && ts[i].episodes[j] == Episode(epNumber, true)
      && (forall m :: 0 <= m < |ss[i].episodes| && m != j ==> ts[i].episodes[m] == ss[i].episodes[m])
      && s.response.value == ts[i]
  {
  }

  /** Marking the same episode twice leaves the store and the response as marking it once. */
  lemma MarkWatchedIdempotent(db: Db, username: string, id: string, epNumber: nat)
    ensures
      var once := MarkWatched(db, username, id, epNumber);
      MarkWatched(once.db, username, id, epNumber) == once
  {
    if username in db {
      var u := db[username];
      match FindSeries(u.series, id)
      case None =>
      case Some(i) =>
        match FindEpisode(u.series[i].episodes, epNumber)
        case None =>
        case Some(j) =>
          var serie := SetWatched(u.series[i], j);
          var ts := u.series[i := serie];
          var u2 := u.(series := ts);
          var db2 := db[username := u2];
          assert MarkWatched(db, username, id, epNumber) == Step(db2, Ok(serie));
          FindSeriesByIds(u.series, ts, id);
          FindEpisodeByNumbers(u.series[i].episodes, serie.episodes, epNumber);
          assert SetWatched(serie, j) == serie;
          assert ts[i := serie] == ts;
          assert u2.(series := ts) == u2;
          assert db2[username := u2] == db2;
          assert MarkWatched(db2, username, id, epNumber) == Step(db2, Ok(serie));
    }
  }

  /** Marking an episode watched never lowers the progress reported for any series of any user. */
  lemma MarkWatchedNeverLowersProgress(db: Db, username: string, id: string, epNumber: nat, who: string, query: string)
    ensures
      var before := GetProgress(db, who, query);
      var after := GetProgress(MarkWatched(db, username, id, epNumber).db, who, query);
      before.Ok? && before.value.Percent? ==>
        after.Ok? && after.value.Percent? && before.value.value <= after.value.value
  {
    var s := MarkWatched(db, username, id, epNumber);
    if s.response.Ok? && who == username {
      MarkWatchedSuccess(db, username, id, epNumber);
      var ss, ts := db[username].series, s.db[username].series;
      var i := FindSeries(ss, id).value;
      var j := FindEpisode(ss[i].episodes, epNumber).value;
      FindSeriesByIds(ss, ts, query);
      match FindSeries(ss, query)
      case None =>
      case Some(k) =>
        if k == i {
          assert ts[i] == SetWatched(ss[i], j);
          SetWatchedRaisesProgress(ss[i], j);
        }
    }
  }

  /** On a valid store, progress is 0..100, or NaN for a series created with no episodes; never Infinity. */
  lemma GetProgressRange(db: Db, username: string, id: string)
    requires ValidDb(db)
    ensures
      var r := GetProgress(db, username, id);
      r.Ok? ==> r.value != Infinity && (r.value.Percent? ==> r.value.value <= 100)
  {
    var r := GetProgress(db, username, id);
    if r.Ok? {
      var ss := db[username].series;
      var i := FindSeries(ss, id).value;
      assert ValidUser(username, db[username]);
      SeriesProgressRange(ss[i]);
    }
  }

  /**
   * On a valid store, the progress of the first series with the id, when it
   * has N > 0 episodes of which W are watched, is 100 * W / N rounded to the
   * nearest integer, a tie going up.
   */
  lemma GetProgressFormula(db: Db, username: string, id: string)
    requires ValidDb(db) && username in db
    requires FindSeries(db[username].series, id).Some?
    requires db[username].series[FindSeries(db[username].series, id).value].qtEpisodes > 0
    ensures
      var s := db[username].series[FindSeries(db[username].series, id).value];
      var n, w := |s.episodes|, |Watched(s.episodes)|;
      var r := GetProgress(db, username, id);
      && w <= n
      && r.Ok? && r.value.Percent?
      && -(n as int) <= 2 * (100 * w - r.value.value * n) < n
  {
    var s := db[username].series[FindSeries(db[username].series, id).value];
    assert ValidUser(username, db[username]);
    assert WellFormedSeries(s);
  }

  /**
   * Listing after a series is created shows the old list plus the new series,
   * for that user only: every other user's list is as before.
   */
  lemma ListSeriesAfterCreate(db: Db, username: string, name: string, qtEpisodes: nat, freshId: string, who: string)
    ensures
      var s := CreateSeries(db, username, name, qtEpisodes, freshId);
      ListSeries(s.db, who) ==
        if who == username && username in db then Ok(db[username].series + [s.response.value])
        else ListSeries(db, who)
  {
  }

  /** With an unused id, the new series is the one the id finds, and it starts at 0% (NaN when empty). */
  lemma CreatedSeriesProgress(db: Db, username: string, name: string, qtEpisodes: nat, freshId: string)
    requires username in db
    requires forall k :: 0 <= k < |db[username].series| ==> db[username].series[k].id != freshId
    ensures
      var s := CreateSeries(db, username, name, qtEpisodes, freshId);
      && FindSeries(s.db[username].series, freshId) == Some(|db[username].series|)
      && GetProgress(s.db, username, freshId) == Ok(if qtEpisodes == 0 then NaN else Percent(0))
  {
    var s := CreateSeries(db, username, name, qtEpisodes, freshId);
    var ts := s.db[username].series;
    var n := |db[username].series|;
    assert ts[n].id == freshId;
    var serie := ts[n];
    assert serie == s.response.value;
    assert Watched(serie.episodes) == [];
    if qtEpisodes > 0 {
      RoundPercentBounds(0, qtEpisodes);
    }
  }

  /** Create user, create a two-episode series, mark episode 1, and the progress is 50. */
  lemma EndToEnd()
    ensures
      var s1 := CreateUser(map[], "Alice", "alice", "user-1");
      var s2 := CreateSeries(s1.db, "alice", "Show", 2, "series-1");
      var s3 := MarkWatched(s2.db, "alice", "series-1", 1);
      && s3.response.Ok?
      && GetProgress(s3.db, "alice", "series-1") == Ok(Percent(50))
  {
    var u := User("user-1", "Alice", "alice", []);
    assert CreateUser(map[], "Alice", "alice", "user-1") == Step(map["alice" := u], Ok(u));
    assert Numbered(2) == [Episode(1, false), Episode(2, false)] by {
      assert Numbered(1) == [Episode(1, false)];
    }
    var created := Series("series-1", "Show", 2, [Episode(1, false), Episode(2, false)]);
    var u2 := u.(series := [created]);
    assert u.(series := u.series + [created]) == u2;
    assert map["alice" := u]["alice" := u2] == map["alice" := u2];
    assert CreateSeries(map["alice" := u], "alice", "Show", 2, "series-1") == Step(map["alice" := u2], Ok(created));
    var marked := Series("series-1", "Show", 2, [Episode(1, true), Episode(2, false)]);
    assert FindSeries([created], "series-1") == Some(0);
    assert FindEpisode(created.episodes, 1) == Some(0);
    assert SetWatched(created, 0) == marked;
    var u3 := u2.(series := [marked]);
    assert u2.(series := u2.series[0 := marked]) == u3;
    assert map["alice" := u2]["alice" := u3] == map["alice" := u3];
    assert MarkWatched(map["alice" := u2], "alice", "series-1", 1) == Step(map["alice" := u3], Ok(marked));
    assert FindSeries([marked], "series-1") == Some(0);
    assert Watched(marked.episodes) == [Episode(1, true)] by {
      assert Watched([Episode(2, false)]) == [];
    }
    assert RoundPercent(1, 2) == 50;
  }
}
