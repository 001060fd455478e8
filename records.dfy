/**
 * The records kept by the series-tracking service: users, each owning an
 * ordered list of series, each owning an ordered list of episodes, and the
 * failures a route can report.
 */
module Records {

  datatype Option<+T> = None | Some(value: T)

  /** One episode of a series; `number` is 1-based. */
  datatype Episode = Episode(number: nat, watched: bool)

  /** A tracked series. `qtEpisodes` is the episode count given at creation. */
  datatype Series = Series(id: string, name: string, qtEpisodes: nat, episodes: seq<Episode>)

  /** A registered user and the series it tracks, in creation order. */
  datatype User = User(id: string, name: string, username: string, series: seq<Series>)

  /** The user store, keyed by username. */
  type Db = map<string, User>

  /** The failures a route reports, each with its HTTP status and message. */
  datatype Failure = UserNotFound | UserAlreadyExists | SerieNotFound | InvalidEpisode
  {
    function Status(): nat
    {
      if this == UserAlreadyExists then 400 else 404
    }

    function Message(): string
    {
      match this
      case UserNotFound => "User not found."
      case UserAlreadyExists => "User already exists"
      case SerieNotFound => "Serie not found"
      case InvalidEpisode => "Invalid episode"
    }
  }

  datatype Result<+T> = Ok(value: T) | Err(failure: Failure)

  /**
   * The episode list a series of `n` episodes is created with: exactly `n`
   * episodes, numbered 1..n in order, none watched.
   */
  function Numbered(n: nat): (r: seq<Episode>)
    ensures |r| == n
    ensures forall i :: 0 <= i < n ==> r[i] == Episode(i + 1, false)
  {
    if n == 0 then [] else Numbered(n - 1) + [Episode(n, false)]
  }

  /** Episode k (0-based position) carries number k + 1. */
  ghost predicate WellNumbered(eps: seq<Episode>)
  {
    forall k :: 0 <= k < |eps| ==> eps[k].number == k + 1
  }

  /** What series creation establishes and no route breaks. */
  ghost predicate WellFormedSeries(s: Series)
  {
    s.qtEpisodes == |s.episodes| && WellNumbered(s.episodes)
  }

  ghost predicate ValidUser(key: string, u: User)
  {
    u.username == key && forall k :: 0 <= k < |u.series| ==> WellFormedSeries(u.series[k])
  }

  /** The store invariant: each user is stored under its own username, and all its series are well formed. */
  ghost predicate ValidDb(db: Db)
  {
    forall key :: key in db ==> ValidUser(key, db[key])
  }
}
