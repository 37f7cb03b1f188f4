/** The `movie_data` dict the scrapers fill in, one key at a time. Each key
    is a Slot: absent until some step writes it, so that "this step leaves
    the key as it was" can be stated. */
module Movie {
  import opened Wrappers
  import PyDict

  /** One Cineplanet showtime group: the dict with keys "dimension",
      "format", "language" and "showtimes"; each showtime is the Python list
      [time, url]. */
  datatype SessionGroup = SessionGroup(
    dimension: string,
    format: string,
    language: string,
    showtimes: seq<seq<string>>)

  /** Cinema name to that cinema's groups, in insertion order */
  type ShowtimesByCinema = PyDict.Dict<string, seq<SessionGroup>>

  datatype MovieData = MovieData(
    title: Slot<string>,
    genre: Slot<string>,
    runningTime: Slot<string>,
    ageRestriction: Slot<string>,
    imageUrl: Slot<Option<string>>,
    city: Slot<string>,
    cinema: Slot<string>,
    day: Slot<string>,
    showtimes: Slot<ShowtimesByCinema>,
    languages: Slot<seq<string>>)

  /** `movie_data = {}` */
  const EmptyMovie: MovieData :=
    MovieData(Absent, Absent, Absent, Absent, Absent, Absent, Absent, Absent, Absent, Absent)

  /** The string-valued keys: "title", "genre", "running_time",
      "age_restriction", "city", "cinema", "day" */
  datatype Field = Title | Genre | RunningTime | AgeRestriction | City | Cinema | Day

  function Get(d: MovieData, f: Field): Slot<string> {
    match f
    case Title => d.title
    case Genre => d.genre
    case RunningTime => d.runningTime
    case AgeRestriction => d.ageRestriction
    case City => d.city
    case Cinema => d.cinema
    case Day => d.day
  }

  /** `movie_data[f] = v`: that key now holds `v`, every other key is as it
      was. */
  function Put(d: MovieData, f: Field, v: string): (r: MovieData)
    ensures Get(r, f) == Present(v)
    ensures forall g :: g != f ==> Get(r, g) == Get(d, g)
    ensures r.imageUrl == d.imageUrl && r.showtimes == d.showtimes && r.languages == d.languages
  {
    match f
    case Title => d.(title := Present(v))
    case Genre => d.(genre := Present(v))
    case RunningTime => d.(runningTime := Present(v))
    case AgeRestriction => d.(ageRestriction := Present(v))
    case City => d.(city := Present(v))
    case Cinema => d.(cinema := Present(v))
    case Day => d.(day := Present(v))
  }
}
