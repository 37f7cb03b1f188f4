/** The UVK scraper's data logic: which cinemas of the listing are kept, and
    what the details page's language tags write into the movie record. */
module Uvk {
  import opened Wrappers
  import opened Text
  import opened Seqs
  import opened Dom
  import opened Movie

  /** Cinemas left out of the listing, by trimmed title */
  const Excluded: seq<string> := ["UVK ILO", "UVK TUMBES"]

  /** A `.cinema-shows` element and its `.cinema-title`, when it has one */
  datatype CinemaShows = CinemaShows(shows: Element, title: Option<Element>)

  /** The cinema has a title and the title is not excluded */
  predicate IsListed(c: CinemaShows) {
    c.title.Some? && Strip(c.title.value.innerText) !in Excluded
  }

  function CinemaAt(cinemas: seq<CinemaShows>): nat -> CinemaShows {
    (k: nat) => if k < |cinemas| then cinemas[k] else CinemaShows(Element("", map[]), None)
  }

  /** `filter_cinemas`: the listed cinemas, in page order */
  method FilterCinemas(cinemas: seq<CinemaShows>) returns (r: seq<CinemaShows>)
    ensures MatchesKept(cinemas, IsListed, CinemaAt(cinemas), r)
    ensures forall c :: c in r <==> c in cinemas && IsListed(c)
  {
    r := [];
    for i := 0 to |cinemas|
      invariant MatchesKept(cinemas[..i], IsListed, CinemaAt(cinemas), r)
    {
      MatchesKeptSnoc(cinemas, i, IsListed, CinemaAt(cinemas), r);
      var cinema := cinemas[i];
      if cinema.title.Some? {
        var titleText := Strip(cinema.title.value.innerText);
        if titleText !in Excluded {
          r := r + [cinema];
        }
      }
    }
    assert cinemas[..|cinemas|] == cinemas;
    ListedElements(cinemas, r);
  }

  lemma {:induction false} ListedElements(cinemas: seq<CinemaShows>, r: seq<CinemaShows>)
    requires MatchesKept(cinemas, IsListed, CinemaAt(cinemas), r)
    ensures forall c :: c in r <==> c in cinemas && IsListed(c)
  {
    var kept := KeptPositions(cinemas, IsListed);
    forall m | 0 <= m < |r|
      ensures r[m] == cinemas[kept[m]]
    {
    }
    KeptElements(cinemas, IsListed, r);
  }

  /** The result keeps the relative order of the input: cinemas that come
      out in some order came in in that order. */
  lemma {:induction false} FilterPreservesOrder(cinemas: seq<CinemaShows>, r: seq<CinemaShows>, m: nat, m': nat)
    requires MatchesKept(cinemas, IsListed, CinemaAt(cinemas), r)
    requires m < m' < |r|
    ensures exists k, k' :: 0 <= k < k' < |cinemas| && cinemas[k] == r[m] && cinemas[k'] == r[m']
  {
    var kept := KeptPositions(cinemas, IsListed);
    KeptPositionsAscending(cinemas, IsListed);
    assert kept[m] < kept[m'];
    assert cinemas[kept[m]] == r[m] && cinemas[kept[m']] == r[m'];
  }

  /** Of three cinemas, the one titled "UVK ILO" (after trimming) goes and
      the others stay. */
  lemma {:induction false} ExcludedMiddleDropped(cinemas: seq<CinemaShows>, r: seq<CinemaShows>)
    requires |cinemas| == 3 && IsListed(cinemas[0]) && IsListed(cinemas[2])
    requires cinemas[1].title.Some? && Strip(cinemas[1].title.value.innerText) == Excluded[0]
    requires MatchesKept(cinemas, IsListed, CinemaAt(cinemas), r)
    ensures r == [cinemas[0], cinemas[2]]
  {
    KeptOuterOfThree(cinemas, IsListed);
  }

  /** A cinema without a title element is dropped whatever else it holds. */
  lemma {:induction false} UntitledDropped(cinemas: seq<CinemaShows>, r: seq<CinemaShows>, c: CinemaShows)
    requires MatchesKept(cinemas, IsListed, CinemaAt(cinemas), r)
    requires c.title.None?
    ensures c !in r
  {
    ListedElements(cinemas, r);
  }

  /** What `extract_info_from_details_page` leaves: the genre is the trimmed
      text of the first tag, the last one its reversed loop visits, and left
      as it was without tags; the languages are always the empty list,
      because the flag that would divert later tags to them is reset on
      every iteration; nothing else changes. */
  ghost predicate DetailsAsWritten(d: MovieData, tags: seq<Element>, r: MovieData) {
    r == d.(genre := if |tags| > 0 then Present(Strip(tags[0].innerText)) else d.genre,
            languages := Present([]))
  }

  /** `extract_info_from_details_page` as written, over the `.language-tag`
      elements in page order */
  method ExtractInfoFromDetailsPage(d: MovieData, tags: seq<Element>) returns (r: MovieData)
    ensures DetailsAsWritten(d, tags, r)
  {
    r := d;
    var languages: seq<string> := [];
    var i := |tags|;
    while i > 0
      invariant 0 <= i <= |tags|
      invariant languages == []
      invariant r == d.(genre := if i < |tags| then Present(Strip(tags[i].innerText)) else d.genre)
      decreases i
    {
      i := i - 1;
      var extra := tags[i];
      var genreAdded := false;
      if genreAdded {
        languages := languages + [Strip(extra.innerText)];
      } else {
        r := r.(genre := Present(Strip(extra.innerText)));
        genreAdded := true;
      }
    }
    r := r.(languages := Present(languages));
  }

  /** The evidently intended result: the first tag visited (the last on the
      page) is the genre, and every later one, in visiting order, a
      language. */
  function DetailsIntended(d: MovieData, tags: seq<Element>): (r: MovieData)
    ensures |tags| == 0 ==> r == d.(languages := Present([]))
    ensures |tags| > 0 ==> r.genre == Present(Strip(tags[|tags| - 1].innerText))
    ensures r.languages.Present? && |r.languages.value| == if |tags| == 0 then 0 else |tags| - 1
    ensures |tags| > 0 ==> forall m :: 0 <= m < |tags| - 1 ==>
      r.languages.value[m] == Strip(tags[|tags| - 2 - m].innerText)
    ensures r.(genre := d.genre, languages := d.languages) == d
  {
    if |tags| == 0 then
      d.(languages := Present([]))
    else
      d.(genre := Present(Strip(tags[|tags| - 1].innerText)), languages := Present(LaterTags(tags)))
  }

  /** The trimmed texts of all tags but the last, from the second to last
      back to the first */
  function LaterTags(tags: seq<Element>): (r: seq<string>)
    requires |tags| > 0
    ensures |r| == |tags| - 1
    ensures forall m :: 0 <= m < |r| ==> r[m] == Strip(tags[|tags| - 2 - m].innerText)
  {
    var n := |tags| - 1;
    seq(n, m requires 0 <= m < n => Strip(tags[n - 1 - m].innerText))
  }

  /** In the intended reading every tag shows up once: as the genre or as
      one of the languages. */
  lemma {:induction false} DetailsIntendedKeepsEveryTag(d: MovieData, tags: seq<Element>, k: nat)
    requires k < |tags|
    ensures var r := DetailsIntended(d, tags);
      Present(Strip(tags[k].innerText)) == r.genre || Strip(tags[k].innerText) in r.languages.value
  {
    var r := DetailsIntended(d, tags);
    if k < |tags| - 1 {
      assert r.languages.value[|tags| - 2 - k] == Strip(tags[k].innerText);
    }
  }

  /** With two tags whose texts differ, the code as written disagrees with
      the intended reading on both keys: it keeps no language and takes the
      genre from the other tag. */
  lemma {:induction false} DetailsTwoTagsDisagree(d: MovieData, tags: seq<Element>, r: MovieData)
    requires |tags| == 2 && Strip(tags[0].innerText) != Strip(tags[1].innerText)
    requires DetailsAsWritten(d, tags, r)
    ensures r.languages == Present([])
    ensures |DetailsIntended(d, tags).languages.value| == 1
    ensures r.genre != DetailsIntended(d, tags).genre
  {
  }
}
