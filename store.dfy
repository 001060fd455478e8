/**
 * The route handlers as methods of a store object whose `users` map the
 * routes update in place: the existence guard runs first, then the handler
 * changes the resolved user's record and writes it back.
 */
module Server {
  import opened Records
  import Tracking

  /** The counting loop that builds the episodes of a new series, numbered from 1. */
  method NewEpisodes(qtEpisodes: nat) returns (episodes: seq<Episode>)
    ensures episodes == Numbered(qtEpisodes)
    ensures |episodes| == qtEpisodes
    ensures forall i :: 0 <= i < qtEpisodes ==> episodes[i] == Episode(i + 1, false)
  {
    episodes := [];
    var i := 1;
    while i <= qtEpisodes
      invariant 1 <= i <= qtEpisodes + 1
      invariant episodes == Numbered(i - 1)
    {
      episodes := episodes + [Episode(i, false)];
      i := i + 1;
    }
  }

  /** The user store, keyed by username, and the routes that read and write it. */
  class Store {
    var users: Db

    ghost predicate Valid()
      reads this
    {
      ValidDb(users)
    }

    constructor ()
      ensures Valid() && users == map[]
    {
      users := map[];
    }

    /** POST /users */
    method CreateUser(name: string, username: string, freshId: string) returns (r: Result<User>)
      requires Valid()
      modifies this
      ensures Valid()
      ensures users == Tracking.CreateUser(old(users), name, username, freshId).db
      ensures r == Tracking.CreateUser(old(users), name, username, freshId).response
    {
      if username in users {
        return Err(UserAlreadyExists);
      }
      var newUser := User(freshId, name, username, []);
      users := users[username := newUser];
      r := Ok(newUser);
    }

    /** PUT /users */
    method UpdateName(username: string, name: string) returns (r: Result<User>)
      requires Valid()
      modifies this
      ensures Valid()
      ensures users == Tracking.UpdateName(old(users), username, name).db
      ensures r == Tracking.UpdateName(old(users), username, name).response
    {
      var found := Tracking.CheckUserExists(users, username);
      if found.Err? {
        return Err(found.failure);
      }
      var user := found.value;
      users := users[username := user.(name := name)];
      r := Ok(user);
    }

    /** POST /series */
    method CreateSeries(username: string, name: string, qtEpisodes: nat, freshId: string) returns (r: Result<Series>)
      requires Valid()
      modifies this
      ensures Valid()
      ensures users == Tracking.CreateSeries(old(users), username, name, qtEpisodes, freshId).db
      ensures r == Tracking.CreateSeries(old(users), username, name, qtEpisodes, freshId).response
    {
      var found := Tracking.CheckUserExists(users, username);
      if found.Err? {
        return Err(found.failure);
      }
      var user := found.value;
      var episodes := NewEpisodes(qtEpisodes);
      var serie := Series(freshId, name, qtEpisodes, episodes);
      var series := user.series + [serie];
      users := users[username := user.(series := series)];
      r := Ok(serie);
    }

    /** GET /series */
    method ListSeries(username: string) returns (r: Result<seq<Series>>)
      ensures r == Tracking.ListSeries(users, username)
      ensures r.Ok? ==> username in users && r.value == users[username].series
    {
      var found := Tracking.CheckUserExists(users, username);
      if found.Err? {
        return Err(found.failure);
      }
      r := Ok(found.value.series);
    }

    /** PATCH /series/:id/watched */
    method MarkWatched(username: string, id: string, epNumber: nat) returns (r: Result<Series>)
      requires Valid()
      modifies this
      ensures Valid()
      ensures users == Tracking.MarkWatched(old(users), username, id, epNumber).db
      ensures r == Tracking.MarkWatched(old(users), username, id, epNumber).response
    {
      var found := Tracking.CheckUserExists(users, username);
      if found.Err? {
        return Err(found.failure);
      }
      var user := found.value;
      var series := user.series;
      var i := Tracking.FindSeries(series, id);
      if i.None? {
        return Err(SerieNotFound);
      }
      var episodes := series[i.value].episodes;
      var j := Tracking.FindEpisode(episodes, epNumber);
      if j.None? {
        return Err(InvalidEpisode);
      }
      episodes := episodes[j.value := episodes[j.value].(watched := true)];
      var serie := series[i.value].(episodes := episodes);
      series := series[i.value := serie];
      users := users[username := user.(series := series)];
      r := Ok(serie);
    }

    /** GET /series/:id/progress */
    method Progress(username: string, id: string) returns (r: Result<Tracking.Progress>)
      requires Valid()
      ensures r == Tracking.GetProgress(users, username, id)
      ensures r.Ok? ==> r.value != Tracking.Infinity && (r.value.Percent? ==> r.value.value <= 100)
    {
      var found := Tracking.CheckUserExists(users, username);
      if found.Err? {
        return Err(found.failure);
      }
      var i := Tracking.FindSeries(found.value.series, id);
      if i.None? {
        return Err(SerieNotFound);
      }
      r := Ok(Tracking.SeriesProgress(found.value.series[i.value]));
      Tracking.GetProgressRange(users, username, id);
    }
  }
}
