/** `extract_general_information` (scrapers/utils/browser_utils.py): the
    title, the positional split of the "extra info" line into genre, running
    time and age restriction, and the poster's `src`. */
module BrowserUtils {
  import opened Wrappers
  import opened Text
  import opened Dom
  import opened Movie

  /** The three elements a movie card is queried for; `query_selector`
      answers None when an element is missing. */
  datatype MovieCard = MovieCard(title: Option<Element>, extraInfo: Option<Element>, image: Option<Element>)

  /** Reading text from a missing element raises AttributeError on None. */
  datatype Failure = MissingTitle | MissingExtraInfo | MissingImage

  /** `keys = ["genre", "running_time", "age_restriction"]` */
  const PositionalFields: seq<Field> := [Genre, RunningTime, AgeRestriction]

  ghost predicate DistinctFields(fs: seq<Field>) {
    forall i, j :: 0 <= i < j < |fs| ==> fs[i] != fs[j]
  }

  /** `for key, value in zip(keys, values): movie_data[key] = value`. The
      first min(|keys|, |values|) keys receive the values at the same
      positions; every other key keeps what it had. */
  function AssignZipped(d: MovieData, keys: seq<Field>, values: seq<string>): (r: MovieData)
    ensures DistinctFields(keys) ==>
      forall k :: 0 <= k < |keys| && k < |values| ==> Get(r, keys[k]) == Present(values[k])
    ensures forall f :: (forall k :: 0 <= k < |keys| && k < |values| ==> keys[k] != f) ==> Get(r, f) == Get(d, f)
    ensures r.imageUrl == d.imageUrl && r.showtimes == d.showtimes && r.languages == d.languages
    decreases |keys|
  {
    if |keys| == 0 || |values| == 0 then
      d
    else
      AssignZipped(Put(d, keys[0], values[0]), keys[1..], values[1..])
  }

  /** The zip over the three fixed keys is a positional assignment: piece 0
      is the genre, piece 1 the running time, piece 2 the age restriction;
      a key without a piece keeps its value, and further pieces are
      dropped. */
  lemma {:induction false} PositionalAssignment(d: MovieData, parts: seq<string>)
    requires |parts| >= 1
    ensures var r := AssignZipped(d, PositionalFields, parts);
      && r.genre == Present(parts[0])
      && r.runningTime == (if |parts| > 1 then Present(parts[1]) else d.runningTime)
      && r.ageRestriction == (if |parts| > 2 then Present(parts[2]) else d.ageRestriction)
      && r.title == d.title && r.city == d.city && r.cinema == d.cinema && r.day == d.day
      && r.imageUrl == d.imageUrl && r.showtimes == d.showtimes && r.languages == d.languages
  {
    var r := AssignZipped(d, PositionalFields, parts);
    assert DistinctFields(PositionalFields);
    assert Get(r, Genre) == Present(parts[0]);
    if |parts| > 1 {
      assert Get(r, RunningTime) == Present(parts[1]);
    } else {
      assert Get(r, RunningTime) == Get(d, RunningTime);
    }
    if |parts| > 2 {
      assert Get(r, AgeRestriction) == Present(parts[2]);
    } else {
      assert Get(r, AgeRestriction) == Get(d, AgeRestriction);
    }
    assert Get(r, Title) == Get(d, Title);
    assert Get(r, City) == Get(d, City);
    assert Get(r, Cinema) == Get(d, Cinema);
    assert Get(r, Day) == Get(d, Day);
  }

  /** What a successful extraction writes: the trimmed title; the trimmed
      extra-info text split on the separator, its pieces (not trimmed again)
      assigned in order to genre, running_time and age_restriction, with the
      keys beyond the number of pieces untouched and pieces beyond three
      ignored; and the image's `src` attribute as it is, None included. */
  ghost predicate GeneralInfoWritten(card: MovieCard, d: MovieData, splitter: string, r: MovieData)
    requires |splitter| > 0
    requires card.title.Some? && card.extraInfo.Some? && card.image.Some?
  {
    var parts := Split(Strip(card.extraInfo.value.innerText), splitter);
    && r.title == Present(Strip(card.title.value.innerText))
    && r.genre == Present(parts[0])
    && r.runningTime == (if |parts| > 1 then Present(parts[1]) else d.runningTime)
    && r.ageRestriction == (if |parts| > 2 then Present(parts[2]) else d.ageRestriction)
    && r.imageUrl == Present(card.image.value.Attr("src"))
    && r.city == d.city && r.cinema == d.cinema && r.day == d.day
    && r.showtimes == d.showtimes && r.languages == d.languages
  }

  /** `extract_general_information(movie, movie_data, ..., splitter)` */
  function ExtractGeneralInformation(card: MovieCard, d: MovieData, splitter: string): (r: Result<MovieData, Failure>)
    requires |splitter| > 0
    ensures r.Success? <==> card.title.Some? && card.extraInfo.Some? && card.image.Some?
    ensures card.title.None? ==> r == Failure(MissingTitle)
    ensures card.title.Some? && card.extraInfo.None? ==> r == Failure(MissingExtraInfo)
    ensures card.title.Some? && card.extraInfo.Some? && card.image.None? ==> r == Failure(MissingImage)
    ensures r.Success? ==> GeneralInfoWritten(card, d, splitter, r.value)
  {
    match card.title
    case None => Failure(MissingTitle)
    case Some(t) =>
      var withTitle := Put(d, Title, Strip(t.innerText));
      match card.extraInfo
      case None => Failure(MissingExtraInfo)
      case Some(x) =>
        var extras := Split(Strip(x.innerText), splitter);
        var withExtras := AssignZipped(withTitle, PositionalFields, extras);
        PositionalAssignment(withTitle, extras);
        match card.image
        case None => Failure(MissingImage)
        case Some(img) => Success(withExtras.(imageUrl := Present(img.Attr("src"))))
  }

  /** A card whose extra-info line is three comma-free pieces joined by
      ", " fills genre, running time and age restriction with exactly those
      pieces. */
  lemma {:induction false} ThreePieceCard(card: MovieCard, d: MovieData, genre: string, duration: string, age: string)
    requires card.title.Some? && card.extraInfo.Some? && card.image.Some?
    requires LacksFirstOf(genre, ", ") && LacksFirstOf(duration, ", ") && LacksFirstOf(age, ", ")
    requires |genre| > 0 && !IsSpace(genre[0]) && |age| > 0 && !IsSpace(age[|age| - 1])
    requires card.extraInfo.value.innerText == genre + ", " + duration + ", " + age
    ensures var r := ExtractGeneralInformation(card, d, ", ");
      && r.Success?
      && r.value.genre == Present(genre)
      && r.value.runningTime == Present(duration)
      && r.value.ageRestriction == Present(age)
  {
    var extra := card.extraInfo.value.innerText;
    var parts := [genre, duration, age];
    assert extra[0] == genre[0] && extra[|extra| - 1] == age[|age| - 1];
    StripOfTrimmed(extra);
    JoinCons(duration, [age], ", ");
    assert [genre] + [duration, age] == parts;
    JoinCons(genre, [duration, age], ", ");
    assert Join(parts, ", ") == extra;
    SplitJoin(parts, ", ");
  }

  /** A title whose text has no surrounding whitespace is stored as is. */
  lemma {:induction false} TrimmedTitleKept(card: MovieCard, d: MovieData, splitter: string)
    requires |splitter| > 0 && card.title.Some? && card.extraInfo.Some? && card.image.Some?
    requires var t := card.title.value.innerText; |t| > 0 ==> !IsSpace(t[0]) && !IsSpace(t[|t| - 1])
    ensures ExtractGeneralInformation(card, d, splitter).value.title == Present(card.title.value.innerText)
  {
    StripOfTrimmed(card.title.value.innerText);
  }

  /** The card of tests/utils/test_browser_utils.py: "Matrix" and
      "Acción, 1h 45min, +14." split on ", " give the genre
      "Acción", the running time "1h 45min", the age restriction "+14." and
      the image URL as is. */
  lemma {:induction false} MatrixCardScenario(card: MovieCard)
    requires card.title == Some(Element("Matrix", map[]))
    requires card.extraInfo == Some(Element("Acción, 1h 45min, +14.", map[]))
    requires card.image == Some(Element("", map["src" := "https://www.imagen.com"]))
    ensures var r := ExtractGeneralInformation(card, EmptyMovie, ", ");
      && r.Success?
      && r.value.genre == Present("Acción")
      && r.value.runningTime == Present("1h 45min")
      && r.value.ageRestriction == Present("+14.")
      && r.value.imageUrl == Present(Some("https://www.imagen.com"))
  {
    ThreePieceCard(card, EmptyMovie, "Acción", "1h 45min", "+14.");
  }

  /** ... and the title "Matrix" as is. */
  lemma {:induction false} MatrixTitleScenario(card: MovieCard)
    requires card.title == Some(Element("Matrix", map[]))
    requires card.extraInfo.Some? && card.image.Some?
    ensures ExtractGeneralInformation(card, EmptyMovie, ", ").value.title == Present("Matrix")
  {
    TrimmedTitleKept(card, EmptyMovie, ", ");
  }
}
