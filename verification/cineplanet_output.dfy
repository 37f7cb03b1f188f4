/** What the Cineplanet scraper does with a movie once its showtimes are
    collected (scrapers/cineplanet_scraper.py): the filter chips that label
    the record with city, cinema and day; the output folder path; and the
    flattening of the nested record into one spreadsheet row per showtime. */
module CineplanetOutput {
  import opened Wrappers
  import opened Text
  import opened Seqs
  import opened Dom
  import PyDict
  import opened Movie
  import opened BrowserUtils
  import opened CineplanetTraversal

  // ---------------------------------------------------------------------
  // save_excel: the rows

  /** One showtime as the row loop meets it: the cinema key, the group it
      belongs to, and the showtime list itself (normally [time, url]). */
  datatype Showing = Showing(cinema: string, group: SessionGroup, entry: seq<string>)

  /** The showtimes of one group, in order */
  function GroupShowings(cinema: string, g: SessionGroup): (r: seq<Showing>)
    ensures |r| == |g.showtimes|
    ensures forall k :: 0 <= k < |r| ==> r[k] == Showing(cinema, g, g.showtimes[k])
  {
    seq(|g.showtimes|, k requires 0 <= k < |g.showtimes| => Showing(cinema, g, g.showtimes[k]))
  }

  function GroupsShowingLists(cinema: string, groups: seq<SessionGroup>): (r: seq<seq<Showing>>)
    ensures |r| == |groups|
    ensures forall j :: 0 <= j < |r| ==> r[j] == GroupShowings(cinema, groups[j])
  {
    seq(|groups|, j requires 0 <= j < |groups| => GroupShowings(cinema, groups[j]))
  }

  /** The showtimes of one cinema: group by group, in order */
  function CinemaShowings(cinema: string, groups: seq<SessionGroup>): seq<Showing> {
    Flatten(GroupsShowingLists(cinema, groups))
  }

  function CinemasShowingLists(entries: seq<(string, seq<SessionGroup>)>): (r: seq<seq<Showing>>)
    ensures |r| == |entries|
    ensures forall c :: 0 <= c < |r| ==> r[c] == CinemaShowings(entries[c].0, entries[c].1)
  {
    seq(|entries|, c requires 0 <= c < |entries| => CinemaShowings(entries[c].0, entries[c].1))
  }

  /** Every showtime of the dict entries: cinema by cinema in the dict's
      order, then group by group, then showtime by showtime. */
  function ShowingsOf(entries: seq<(string, seq<SessionGroup>)>): seq<Showing> {
    Flatten(CinemasShowingLists(entries))
  }

  /** One spreadsheet row, column by column: Título, Género, Duración,
      Restricción de edad, Cine, Ciudad, Día, Dimensión, Formato, Idioma,
      Hora, URL. */
  datatype Row = Row(
    title: string,
    genre: string,
    duration: string,
    ageRestriction: string,
    cine: string,
    city: string,
    day: string,
    dimension: string,
    format: string,
    language: string,
    hour: string,
    url: string)

  /** Why `save_excel` raises: `movie_data['title']` finds no title
      (KeyError), or `hora, url = hora_url` meets a list that does not have
      exactly two items (ValueError; `got` is how many it had). */
  datatype SaveError = TitleKeyError | UnpackError(got: nat)

  /** The row of one showtime: the movie's keys with "" for a missing one,
      the cinema key, the group's labels, the time and the URL. */
  function RowOf(movie: MovieData, s: Showing): Row
    requires |s.entry| == 2
  {
    Row(movie.title.GetOr(""), movie.genre.GetOr(""), movie.runningTime.GetOr(""),
        movie.ageRestriction.GetOr(""), s.cinema, movie.city.GetOr(""), movie.day.GetOr(""),
        s.group.dimension, s.group.format, s.group.language, s.entry[0], s.entry[1])
  }

  /** The showtime at `m` is the first one that does not unpack */
  ghost predicate FirstUnpackFailure(shows: seq<Showing>, m: nat) {
    && m < |shows|
    && |shows[m].entry| != 2
    && forall m' :: 0 <= m' < m ==> |shows[m'].entry| == 2
  }

  /** `r` is what the row loop gives for `shows`: if every showtime unpacks,
      one row per showtime, in order; otherwise the error of the first one
      that does not. */
  ghost predicate RowsFor(movie: MovieData, shows: seq<Showing>, r: Result<seq<Row>, SaveError>) {
    && (r.Success? <==> forall m :: 0 <= m < |shows| ==> |shows[m].entry| == 2)
    && (r.Success? ==> |r.value| == |shows| && forall m :: 0 <= m < |shows| ==> r.value[m] == RowOf(movie, shows[m]))
    && (r.Failure? ==> exists m: nat :: FirstUnpackFailure(shows, m) && r.error == UnpackError(|shows[m].entry|))
  }

  /** Running one loop after another: the first error wins, otherwise the
      rows are concatenated. */
  function Then(ra: Result<seq<Row>, SaveError>, rb: Result<seq<Row>, SaveError>): Result<seq<Row>, SaveError> {
    match ra
    case Failure(e) => Failure(e)
    case Success(a) =>
      match rb
      case Failure(e) => Failure(e)
      case Success(b) => Success(a + b)
  }

  lemma {:induction false} RowsForAppend(movie: MovieData, a: seq<Showing>, b: seq<Showing>,
                      ra: Result<seq<Row>, SaveError>, rb: Result<seq<Row>, SaveError>)
    requires RowsFor(movie, a, ra) && RowsFor(movie, b, rb)
    ensures RowsFor(movie, a + b, Then(ra, rb))
  {
    var ab := a + b;
    if ra.Failure? {
      var m: nat :| FirstUnpackFailure(a, m) && ra.error == UnpackError(|a[m].entry|);
      assert ab[m] == a[m];
      assert forall m' :: 0 <= m' < m ==> ab[m'] == a[m'];
      assert FirstUnpackFailure(ab, m);
    } else if rb.Failure? {
      var m: nat :| FirstUnpackFailure(b, m) && rb.error == UnpackError(|b[m].entry|);
      assert ab[|a| + m] == b[m];
      assert forall m' :: |a| <= m' < |a| + m ==> ab[m'] == b[m' - |a|];
      assert FirstUnpackFailure(ab, |a| + m);
    } else {
      forall m | 0 <= m < |ab|
        ensures |ab[m].entry| == 2
      {
        if m >= |a| {
          assert ab[m] == b[m - |a|];
        }
      }
    }
  }

  /** `hora, url = hora_url` and the row appended for it */
  function Unpack(movie: MovieData, s: Showing): (r: Result<seq<Row>, SaveError>)
    ensures RowsFor(movie, [s], r)
  {
    if |s.entry| == 2 then
      Success([RowOf(movie, s)])
    else
      assert FirstUnpackFailure([s], 0);
      Failure(UnpackError(|s.entry|))
  }

  /** The first `n` iterations of the loop over a group's showtimes */
  function ShowtimeLoop(movie: MovieData, cinema: string, g: SessionGroup, n: nat): (r: Result<seq<Row>, SaveError>)
    requires n <= |g.showtimes|
    ensures RowsFor(movie, GroupShowings(cinema, g)[..n], r)
    decreases n
  {
    if n == 0 then
      Success([])
    else
      var shows := GroupShowings(cinema, g);
      var prev := ShowtimeLoop(movie, cinema, g, n - 1);
      var here := Unpack(movie, Showing(cinema, g, g.showtimes[n - 1]));
      RowsForAppend(movie, shows[..n - 1], [shows[n - 1]], prev, here);
      PrefixSnoc(shows, n - 1);
      Then(prev, here)
  }

  lemma {:induction false} CinemaShowingsSnoc(cinema: string, groups: seq<SessionGroup>, n: nat)
    requires 0 < n <= |groups|
    ensures CinemaShowings(cinema, groups[..n]) == CinemaShowings(cinema, groups[..n - 1]) + GroupShowings(cinema, groups[n - 1])
  {
    var lists := GroupsShowingLists(cinema, groups[..n]);
    assert lists[..n - 1] == GroupsShowingLists(cinema, groups[..n - 1]);
  }

  /** The first `n` iterations of the loop over a cinema's groups */
  function GroupLoop(movie: MovieData, cinema: string, groups: seq<SessionGroup>, n: nat): (r: Result<seq<Row>, SaveError>)
    requires n <= |groups|
    ensures RowsFor(movie, CinemaShowings(cinema, groups[..n]), r)
    decreases n
  {
    if n == 0 then
      Success([])
    else
      var g := groups[n - 1];
      var prev := GroupLoop(movie, cinema, groups, n - 1);
      var here := ShowtimeLoop(movie, cinema, g, |g.showtimes|);
      assert GroupShowings(cinema, g)[..|g.showtimes|] == GroupShowings(cinema, g);
      CinemaShowingsSnoc(cinema, groups, n);
      RowsForAppend(movie, CinemaShowings(cinema, groups[..n - 1]), GroupShowings(cinema, g), prev, here);
      Then(prev, here)
  }

  lemma {:induction false} ShowingsOfSnoc(entries: seq<(string, seq<SessionGroup>)>, n: nat)
    requires 0 < n <= |entries|
    ensures ShowingsOf(entries[..n]) == ShowingsOf(entries[..n - 1]) + CinemaShowings(entries[n - 1].0, entries[n - 1].1)
  {
    var lists := CinemasShowingLists(entries[..n]);
    assert lists[..n - 1] == CinemasShowingLists(entries[..n - 1]);
  }

  /** The first `n` iterations of the loop over the dict's items */
  function CinemaRowLoop(movie: MovieData, entries: seq<(string, seq<SessionGroup>)>, n: nat): (r: Result<seq<Row>, SaveError>)
    requires n <= |entries|
    ensures RowsFor(movie, ShowingsOf(entries[..n]), r)
    decreases n
  {
    if n == 0 then
      Success([])
    else
      var (cinema, groups) := entries[n - 1];
      var prev := CinemaRowLoop(movie, entries, n - 1);
      var here := GroupLoop(movie, cinema, groups, |groups|);
      assert groups[..|groups|] == groups;
      ShowingsOfSnoc(entries, n);
      RowsForAppend(movie, ShowingsOf(entries[..n - 1]), CinemaShowings(cinema, groups), prev, here);
      Then(prev, here)
  }

  /** The showtimes dict of a record: `movie_data.get("showtimes", {})` */
  function ShowtimesOf(movie: MovieData): ShowtimesByCinema {
    movie.showtimes.GetOr(PyDict.Dict([]))
  }

  /** The rows `save_excel` hands to the DataFrame. The file name is built
      from `movie_data['title']` before any row, so a record without a title
      raises KeyError; otherwise one row per showtime across all cinemas and
      groups, in nested order, or the ValueError of the first showtime that
      is not a pair. */
  function SaveExcelRows(movie: MovieData): (r: Result<seq<Row>, SaveError>)
    ensures movie.title.Absent? ==> r == Failure(TitleKeyError)
    ensures movie.title.Present? ==> RowsFor(movie, ShowingsOf(ShowtimesOf(movie).entries), r)
    ensures movie.title.Present? && movie.showtimes.Absent? ==> r == Success([])
  {
    if movie.title.Absent? then
      Failure(TitleKeyError)
    else
      var entries := ShowtimesOf(movie).entries;
      assert entries[..|entries|] == entries;
      CinemaRowLoop(movie, entries, |entries|)
  }

  /** Where a showtime of the dict comes from: the cinema entry `c`, its
      group `j`, and the showtime `k` within that group. */
  lemma {:induction false} ShowingOrigin(entries: seq<(string, seq<SessionGroup>)>, s: Showing) returns (c: nat, j: nat, k: nat)
    requires s in ShowingsOf(entries)
    ensures c < |entries| && j < |entries[c].1| && k < |entries[c].1[j].showtimes|
    ensures s == Showing(entries[c].0, entries[c].1[j], entries[c].1[j].showtimes[k])
  {
    var lists := CinemasShowingLists(entries);
    FlattenMember(lists, s);
    c :| 0 <= c < |lists| && s in lists[c];
    var (cinema, groups) := entries[c];
    var inner := GroupsShowingLists(cinema, groups);
    FlattenMember(inner, s);
    j :| 0 <= j < |inner| && s in inner[j];
    var shows := GroupShowings(cinema, groups[j]);
    var k' :| 0 <= k' < |shows| && shows[k'] == s;
    k := k';
  }

  /** Saving succeeds only for a titled record, and every row repeats its
      title, genre, duration, age restriction, city and day ("" for a key
      the record lacks); the Cine column is a key of the showtimes dict. */
  lemma {:induction false} RowsCarryMovieFields(movie: MovieData)
    requires SaveExcelRows(movie).Success?
    ensures movie.title.Present?
    ensures forall row :: row in SaveExcelRows(movie).value ==>
      && row.title == movie.title.value
      && row.genre == movie.genre.GetOr("")
      && row.duration == movie.runningTime.GetOr("")
      && row.ageRestriction == movie.ageRestriction.GetOr("")
      && row.city == movie.city.GetOr("")
      && row.day == movie.day.GetOr("")
      && row.cine in PyDict.Keys(ShowtimesOf(movie))
  {
    var d := ShowtimesOf(movie);
    var rows := SaveExcelRows(movie).value;
    var shows := ShowingsOf(d.entries);
    forall row | row in rows
      ensures row.cine in PyDict.Keys(d)
    {
      var m :| 0 <= m < |rows| && rows[m] == row;
      var c, j, k := ShowingOrigin(d.entries, shows[m]);
      assert PyDict.Keys(d)[c] == row.cine;
    }
  }

  /** A dict in which every showtime is a two-item list */
  ghost predicate AllPairs(d: ShowtimesByCinema) {
    forall c, j, k :: 0 <= c < |d.entries| && 0 <= j < |d.entries[c].1| && 0 <= k < |d.entries[c].1[j].showtimes| ==>
      |d.entries[c].1[j].showtimes[k]| == 2
  }

  /** `save_excel` raises exactly when the record has no title or some
      showtime is not a pair. */
  lemma {:induction false} SaveExcelSucceedsIffPairs(movie: MovieData)
    ensures SaveExcelRows(movie).Success? <==> movie.title.Present? && AllPairs(ShowtimesOf(movie))
  {
    ShowingsArePairs(ShowtimesOf(movie));
  }

  /** The showtimes the row loop meets are all pairs exactly when the dict's
      are. */
  lemma {:induction false} ShowingsArePairs(d: ShowtimesByCinema)
    ensures (forall m :: 0 <= m < |ShowingsOf(d.entries)| ==> |ShowingsOf(d.entries)[m].entry| == 2) <==> AllPairs(d)
  {
    var shows := ShowingsOf(d.entries);
    if AllPairs(d) {
      forall m | 0 <= m < |shows|
        ensures |shows[m].entry| == 2
      {
        var c, j, k := ShowingOrigin(d.entries, shows[m]);
      }
    } else {
      var c, j, k :| 0 <= c < |d.entries| && 0 <= j < |d.entries[c].1| && 0 <= k < |d.entries[c].1[j].showtimes| &&
        |d.entries[c].1[j].showtimes[k]| != 2;
      var (cinema, groups) := d.entries[c];
      var s := Showing(cinema, groups[j], groups[j].showtimes[k]);
      assert s in GroupShowings(cinema, groups[j]);
      FlattenContains(GroupsShowingLists(cinema, groups), j, s);
      FlattenContains(CinemasShowingLists(d.entries), c, s);
      var m :| 0 <= m < |shows| && shows[m] == s;
    }
  }

  /** The reference groups of a cinema hold only [time, url] pairs. */
  lemma {:induction false} ExpectedGroupsArePairs(page: DetailPage, i: nat, oracle: Oracle, j: nat, k: nat)
    requires i < |page.cinemas| && j < |ExpectedGroups(page, i, oracle)|
    requires k < |ExpectedGroups(page, i, oracle)[j].showtimes|
    ensures |ExpectedGroups(page, i, oracle)[j].showtimes[k]| == 2
  {
    assert ExpectedGroups(page, i, oracle)[j] == ExpectedGroup(page, i, j, oracle);
    var kept := KeptPositions(ItemsOf(page, i, j), IsBookable);
    assert ExpectedShowtimes(page, i, j, oracle)[k] == ExpectedEntry(page, i, j, kept[k], oracle);
  }

  /** The showtimes dict the traversal builds holds only [time, url] pairs. */
  lemma {:induction false} TraversalYieldsPairs(page: DetailPage, oracle: Oracle)
    ensures AllPairs(ScrapeShowtimesData(page, oracle).value)
  {
    var d := ScrapeShowtimesData(page, oracle).value;
    forall c, j, k | 0 <= c < |d.entries| && 0 <= j < |d.entries[c].1| && 0 <= k < |d.entries[c].1[j].showtimes|
      ensures |d.entries[c].1[j].showtimes[k]| == 2
    {
      EntryIsPair(page, oracle, d, c, j, k);
    }
  }

  /** One showtime of the traversal's dict is a [time, url] pair: its entry
      is the last write of some cinema, whose groups are the reference ones. */
  lemma {:induction false} EntryIsPair(page: DetailPage, oracle: Oracle, d: ShowtimesByCinema, c: nat, j: nat, k: nat)
    requires PyDict.HoldsLastWrites(d, CinemaNames(page), AllGroups(page, oracle))
    requires c < |d.entries| && j < |d.entries[c].1| && k < |d.entries[c].1[j].showtimes|
    ensures |d.entries[c].1[j].showtimes[k]| == 2
  {
    var names, groups := CinemaNames(page), AllGroups(page, oracle);
    PyDict.HoldsLastWritesValues(d, names, groups, c);
    var i :| 0 <= i < |names| && names[i] == d.entries[c].0 && groups[i] == d.entries[c].1;
    assert groups[i] == ExpectedGroups(page, i, oracle);
    ExpectedGroupsArePairs(page, i, oracle, j, k);
  }

  // ---------------------------------------------------------------------
  // The chip loop of process_movies

  /** The first `n` iterations of the chip loop: chip 0's trimmed text is
      the city, chip 1's the cinema, and every later chip overwrites the
      day. */
  function AssignChips(d: MovieData, chips: seq<Element>, n: nat): (r: MovieData)
    requires n <= |chips|
    ensures r.city == if n > 0 then Present(Strip(chips[0].innerText)) else d.city
    ensures r.cinema == if n > 1 then Present(Strip(chips[1].innerText)) else d.cinema
    ensures r.day == if n > 2 then Present(Strip(chips[n - 1].innerText)) else d.day
    ensures r.title == d.title && r.genre == d.genre && r.runningTime == d.runningTime
    ensures r.ageRestriction == d.ageRestriction && r.imageUrl == d.imageUrl
    ensures r.showtimes == d.showtimes && r.languages == d.languages
    decreases n
  {
    if n == 0 then
      d
    else
      var prev := AssignChips(d, chips, n - 1);
      var text := Strip(chips[n - 1].innerText);
      if n - 1 == 0 then prev.(city := Present(text))
      else if n - 1 == 1 then prev.(cinema := Present(text))
      else prev.(day := Present(text))
  }

  // ---------------------------------------------------------------------
  // create_folder

  /** `path / component` for a path held as its components: an empty
      component leaves the path as it is. */
  function PathJoin(path: seq<string>, component: string): seq<string> {
    if component == "" then path else path + [component]
  }

  predicate NonEmpty(s: string) {
    s != ""
  }

  /** `path / c1 / c2 / ...`: the path extended by the non-empty
      components, in order. */
  function JoinAll(path: seq<string>, comps: seq<string>): (r: seq<string>)
    ensures |r| >= |path| && r[..|path|] == path
    ensures var kept := KeptPositions(comps, NonEmpty);
      && |r| == |path| + |kept|
      && forall m :: 0 <= m < |kept| ==> r[|path| + m] == comps[kept[m]]
    decreases |comps|
  {
    if |comps| == 0 then
      path
    else
      var n := |comps| - 1;
      var prev := JoinAll(path, comps[..n]);
      var r := PathJoin(prev, comps[n]);
      assert r[..|prev|] == prev;
      r
  }

  /** `create_folder(city, cinema, day)`: the path
      data/<city>/cineplanet/<cinema>/<day>, each name slugified (the city
      with "-", the cinema and the day with "_"), where a name that slugifies
      to "" drops out of the path. `slugify(text, separator)` is a
      parameter. */
  function CreateFolder(slugify: (string, string) -> string, city: string, cinema: string, day: string): (r: seq<string>)
    ensures var comps := [slugify(city, "-"), "cineplanet", slugify(cinema, "_"), slugify(day, "_")];
      var kept := KeptPositions(comps, NonEmpty);
      && |r| == 1 + |kept|
      && r[0] == "data"
      && forall m :: 0 <= m < |kept| ==> r[1 + m] == comps[kept[m]]
  {
    var citySlug := slugify(city, "-");
    var daySlug := slugify(day, "_");
    var cinemaSlug := slugify(cinema, "_");
    JoinAll(["data"], [citySlug, "cineplanet", cinemaSlug, daySlug])
  }

  /** With every slug non-empty the folder is exactly
      data/<city>/cineplanet/<cinema>/<day>. */
  lemma {:induction false} CreateFolderFull(slugify: (string, string) -> string, city: string, cinema: string, day: string)
    requires slugify(city, "-") != "" && slugify(cinema, "_") != "" && slugify(day, "_") != ""
    ensures CreateFolder(slugify, city, cinema, day) ==
      ["data", slugify(city, "-"), "cineplanet", slugify(cinema, "_"), slugify(day, "_")]
  {
    var comps := [slugify(city, "-"), "cineplanet", slugify(cinema, "_"), slugify(day, "_")];
    KeptAll(comps, NonEmpty);
    var kept := KeptPositions(comps, NonEmpty);
    assert kept[0] == 0 && kept[1] == 1 && kept[2] == 2 && kept[3] == 3;
    var r := CreateFolder(slugify, city, cinema, day);
    assert |r| == 5;
    assert r[1] == comps[0] && r[2] == comps[1] && r[3] == comps[2] && r[4] == comps[3];
  }

  // ---------------------------------------------------------------------
  // One movie of process_movies

  /** The separator of Cineplanet's extra-info line */
  const ExtraInfoSplitter := ", "

  /** One movie of `process_movies` up to the save: the general information
      from its card into a fresh record, the chip labels, then the showtimes
      of its detail page. */
  function ProcessMovie(card: MovieCard, chips: seq<Element>, page: DetailPage, oracle: Oracle): (r: Result<MovieData, Failure>)
    ensures r.Success? <==> card.title.Some? && card.extraInfo.Some? && card.image.Some?
    ensures r.Success? ==> r.value.title == Present(Strip(card.title.value.innerText))
    ensures r.Success? ==> r.value.city == if |chips| > 0 then Present(Strip(chips[0].innerText)) else Absent
    ensures r.Success? ==> r.value.cinema == if |chips| > 1 then Present(Strip(chips[1].innerText)) else Absent
    ensures r.Success? ==> r.value.day == if |chips| > 2 then Present(Strip(chips[|chips| - 1].innerText)) else Absent
    ensures r.Success? ==>
      var parts := Split(Strip(card.extraInfo.value.innerText), ExtraInfoSplitter);
      && r.value.genre == Present(parts[0])
      && r.value.runningTime == (if |parts| > 1 then Present(parts[1]) else Absent)
      && r.value.ageRestriction == (if |parts| > 2 then Present(parts[2]) else Absent)
      && r.value.imageUrl == Present(card.image.value.Attr("src"))
      && r.value.languages == Absent
    ensures card.title.None? ==> r == Failure(MissingTitle)
    ensures card.title.Some? && card.extraInfo.None? ==> r == Failure(MissingExtraInfo)
    ensures card.title.Some? && card.extraInfo.Some? && card.image.None? ==> r == Failure(MissingImage)
    ensures r.Success? ==> r.value.showtimes == Present(ScrapeShowtimesData(page, oracle).value)
  {
    match ExtractGeneralInformation(card, EmptyMovie, ExtraInfoSplitter)
    case Failure(e) => Failure(e)
    case Success(d) =>
      var labelled := AssignChips(d, chips, |chips|);
      var scraped := ScrapeShowtimesData(page, oracle);
      Success(labelled.(showtimes := Present(scraped.value)))
  }

  /** End to end: the record of a movie with a complete card is saved
      without error, one row per showtime; every row carries the card's
      trimmed title, the first chip as city and the last of three or more
      chips as day ("" when missing), and a Cine that is the trimmed name of
      a cinema on the detail page. */
  lemma {:induction false} ProcessedMovieSaves(card: MovieCard, chips: seq<Element>, page: DetailPage, oracle: Oracle)
    requires card.title.Some? && card.extraInfo.Some? && card.image.Some?
    ensures var movie := ProcessMovie(card, chips, page, oracle).value;
      var rows := SaveExcelRows(movie);
      && rows.Success?
      && |rows.value| == |ShowingsOf(ShowtimesOf(movie).entries)|
      && forall row :: row in rows.value ==>
           && row.title == Strip(card.title.value.innerText)
           && row.city == (if |chips| > 0 then Strip(chips[0].innerText) else "")
           && row.day == (if |chips| > 2 then Strip(chips[|chips| - 1].innerText) else "")
           && exists i :: 0 <= i < |page.cinemas| && row.cine == CinemaName(page, i)
  {
    var movie := ProcessMovie(card, chips, page, oracle).value;
    ScrapedMovieSaves(movie, page, oracle);
  }

  /** A titled record whose showtimes are the traversal's dict saves
      without error, one row per showtime, each naming a cinema of the
      page. (Without a title, `SaveExcelRows` raises KeyError.) */
  lemma {:induction false} ScrapedMovieSaves(movie: MovieData, page: DetailPage, oracle: Oracle)
    requires movie.title.Present?
    requires movie.showtimes == Present(ScrapeShowtimesData(page, oracle).value)
    ensures var rows := SaveExcelRows(movie);
      && rows.Success?
      && |rows.value| == |ShowingsOf(ShowtimesOf(movie).entries)|
      && forall row :: row in rows.value ==>
           && row.title == movie.title.value
           && row.city == movie.city.GetOr("")
           && row.day == movie.day.GetOr("")
           && exists i :: 0 <= i < |page.cinemas| && row.cine == CinemaName(page, i)
  {
    var d := ScrapeShowtimesData(page, oracle).value;
    assert ShowtimesOf(movie) == d;
    TraversalYieldsPairs(page, oracle);
    SaveExcelSucceedsIffPairs(movie);
    RowsCarryMovieFields(movie);
    var rows := SaveExcelRows(movie).value;
    var names := CinemaNames(page);
    forall row | row in rows
      ensures exists i :: 0 <= i < |page.cinemas| && row.cine == CinemaName(page, i)
    {
      assert row.cine in names;
      var i :| 0 <= i < |names| && names[i] == row.cine;
    }
  }

  /** A titled record with one cinema of two groups of two showtimes each
      gives four rows: the first group's showtimes, then the second's. */
  lemma {:induction false} FourRowsScenario(movie: MovieData, cinema: string, g1: SessionGroup, g2: SessionGroup)
    requires movie.title.Present?
    requires movie.showtimes == Present(PyDict.Dict([(cinema, [g1, g2])]))
    requires |g1.showtimes| == 2 && |g2.showtimes| == 2
    requires forall k :: 0 <= k < 2 ==> |g1.showtimes[k]| == 2 && |g2.showtimes[k]| == 2
    ensures var rows := SaveExcelRows(movie);
      && rows.Success? && |rows.value| == 4
      && rows.value[0] == RowOf(movie, Showing(cinema, g1, g1.showtimes[0]))
      && rows.value[1] == RowOf(movie, Showing(cinema, g1, g1.showtimes[1]))
      && rows.value[2] == RowOf(movie, Showing(cinema, g2, g2.showtimes[0]))
      && rows.value[3] == RowOf(movie, Showing(cinema, g2, g2.showtimes[1]))
  {
    var shows := ShowingsOf(ShowtimesOf(movie).entries);
    TwoGroupsShowings(cinema, g1, g2);
    SingleCinemaShowings(cinema, [g1, g2]);
    assert shows == GroupShowings(cinema, g1) + GroupShowings(cinema, g2);
    assert shows[0] == GroupShowings(cinema, g1)[0] && shows[1] == GroupShowings(cinema, g1)[1];
    assert shows[2] == GroupShowings(cinema, g2)[0] && shows[3] == GroupShowings(cinema, g2)[1];
  }

  lemma {:induction false} TwoGroupsShowings(cinema: string, g1: SessionGroup, g2: SessionGroup)
    ensures CinemaShowings(cinema, [g1, g2]) == GroupShowings(cinema, g1) + GroupShowings(cinema, g2)
  {
    var groups := [g1, g2];
    assert groups[..1] == [g1] && groups[..0] == [] && groups[..2] == groups;
    CinemaShowingsSnoc(cinema, groups, 2);
    CinemaShowingsSnoc(cinema, groups, 1);
  }

  lemma {:induction false} SingleCinemaShowings(cinema: string, groups: seq<SessionGroup>)
    ensures ShowingsOf([(cinema, groups)]) == CinemaShowings(cinema, groups)
  {
    var entries := [(cinema, groups)];
    assert entries[..1] == entries && entries[..0] == [];
    ShowingsOfSnoc(entries, 1);
  }
}
