/** The Cinepolis scraper's data logic: reading the options of a filter
    select, picking the option the user chose, applying the three filters in
    order, and collecting the showtimes of one movie's cinema blocks.

    The browser is abstracted away. A select's options are the rendered texts
    of its `option` elements, or None when the select does not appear within
    the four-second wait. The user's answer is a parameter. */
module Cinepolis {
  import opened Wrappers
  import opened Text
  import opened Seqs
  import opened Dom

  /** Options whose text contains this are placeholders, not choices */
  const Placeholder := "Selecciona un"

  /** Removed from the end of every city option */
  const CountrySuffix := ", Perú"

  datatype ScrapeError =
    | Timeout(selectId: string)   // the select did not appear in time
    | IndexError(chosen: int)     // `filters[chosen - 1]` is out of range

  // ---------------------------------------------------------------------
  // extract_filters

  /** An option that is offered to the user */
  predicate IsOffered(text: string) {
    !Contains(text, Placeholder)
  }

  /** How an offered option is listed for a filter type */
  function Shown(text: string, filterType: string): string {
    if filterType == "ciudad" then RemoveSuffix(text, CountrySuffix) else text
  }

  function ShownAt(texts: seq<string>, filterType: string): nat -> string {
    (k: nat) => if k < |texts| then Shown(texts[k], filterType) else ""
  }

  /** The list built from the first `n` options */
  function FiltersUpTo(texts: seq<string>, filterType: string, n: nat): (r: seq<string>)
    requires n <= |texts|
    ensures MatchesKept(texts[..n], IsOffered, ShownAt(texts, filterType), r)
    decreases n
  {
    if n == 0 then
      []
    else
      var prev := FiltersUpTo(texts, filterType, n - 1);
      MatchesKeptSnoc(texts, n - 1, IsOffered, ShownAt(texts, filterType), prev);
      if IsOffered(texts[n - 1]) then prev + [Shown(texts[n - 1], filterType)] else prev
  }

  /** `extract_filters`: the offered options in page order, each as shown
      for its filter type; a timeout when the select never appears. */
  function ExtractFilters(options: Option<seq<string>>, selectId: string, filterType: string)
    : (r: Result<seq<string>, ScrapeError>)
    ensures options.None? <==> r.Failure?
    ensures r.Failure? ==> r.error == Timeout(selectId)
    ensures r.Success? ==> MatchesKept(options.value, IsOffered, ShownAt(options.value, filterType), r.value)
  {
    match options
    case None => Failure(Timeout(selectId))
    case Some(texts) =>
      assert texts[..|texts|] == texts;
      Success(FiltersUpTo(texts, filterType, |texts|))
  }

  /** No listed filter contains the placeholder, the ", Perú" cut included. */
  lemma {:induction false} FiltersOmitPlaceholder(texts: seq<string>, selectId: string, filterType: string)
    ensures forall m :: 0 <= m < |ExtractFilters(Some(texts), selectId, filterType).value| ==>
      IsOffered(ExtractFilters(Some(texts), selectId, filterType).value[m])
  {
    var filters := ExtractFilters(Some(texts), selectId, filterType).value;
    var kept := KeptPositions(texts, IsOffered);
    forall m | 0 <= m < |filters|
      ensures IsOffered(filters[m])
    {
      var text := texts[kept[m]];
      assert filters[m] == Shown(text, filterType);
      if Contains(filters[m], Placeholder) {
        assert filters[m] == text[..|filters[m]|];
        ContainsInPrefix(text, |filters[m]|, Placeholder);
      }
    }
  }

  /** Outside the city filter, a select whose first option is the
      placeholder and whose other options are choices lists those choices
      verbatim. */
  lemma {:induction false} FiltersAfterPlaceholder(texts: seq<string>, selectId: string, filterType: string)
    requires |texts| > 0 && !IsOffered(texts[0])
    requires forall k :: 1 <= k < |texts| ==> IsOffered(texts[k])
    requires filterType != "ciudad"
    ensures ExtractFilters(Some(texts), selectId, filterType) == Success(texts[1..])
  {
    var filters := ExtractFilters(Some(texts), selectId, filterType).value;
    ListedAfterPlaceholder(texts, filterType, filters);
  }

  lemma {:induction false} ListedAfterPlaceholder(texts: seq<string>, filterType: string, filters: seq<string>)
    requires |texts| > 0 && !IsOffered(texts[0])
    requires forall k :: 1 <= k < |texts| ==> IsOffered(texts[k])
    requires filterType != "ciudad"
    requires MatchesKept(texts, IsOffered, ShownAt(texts, filterType), filters)
    ensures filters == texts[1..]
  {
    KeptAllButFirst(texts, IsOffered);
    var kept := KeptPositions(texts, IsOffered);
    forall m | 0 <= m < |filters|
      ensures filters[m] == texts[1..][m]
    {
      assert filters[m] == Shown(texts[kept[m]], filterType);
    }
  }

  // ---------------------------------------------------------------------
  // extract_chosen_filter

  /** Python's `xs[i]`: negative indices count from the end; None stands for
      IndexError. */
  function PyIndex<T>(xs: seq<T>, i: int): (r: Option<T>)
    ensures r.Some? <==> -|xs| <= i < |xs|
    ensures r.Some? && i >= 0 ==> r.value == xs[i]
    ensures r.Some? && i < 0 ==> r.value == xs[|xs| + i]
  {
    if 0 <= i < |xs| then Some(xs[i])
    else if -|xs| <= i < 0 then Some(xs[|xs| + i])
    else None
  }

  /** Option `k` is the first whose trimmed text contains `needle` */
  ghost predicate FirstMatchAt(texts: seq<string>, needle: string, k: nat) {
    && k < |texts|
    && Contains(Strip(texts[k]), needle)
    && forall k' :: 0 <= k' < k ==> !Contains(Strip(texts[k']), needle)
  }

  /** The position of the first option whose trimmed text contains
      `needle` */
  function FirstMatch(texts: seq<string>, needle: string): (r: Option<nat>)
    ensures r.Some? ==> FirstMatchAt(texts, needle, r.value)
    ensures r.None? ==> forall k :: 0 <= k < |texts| ==> !Contains(Strip(texts[k]), needle)
    decreases |texts|
  {
    if |texts| == 0 then
      None
    else if Contains(Strip(texts[0]), needle) then
      Some(0)
    else
      match FirstMatch(texts[1..], needle)
      case None => None
      case Some(k) => Some(k + 1)
  }

  /** `extract_chosen_filter`: the first trimmed option text containing
      `filters[chosen - 1]`, None when no option contains it. The index is
      evaluated inside the loop, so with no options there is no IndexError. */
  function ExtractChosenFilter(texts: seq<string>, filters: seq<string>, chosen: int)
    : (r: Result<Option<string>, ScrapeError>)
    ensures |texts| == 0 ==> r == Success(None)
    ensures |texts| > 0 ==> (r.Failure? <==> PyIndex(filters, chosen - 1).None?)
    ensures r.Failure? ==> r.error == IndexError(chosen)
    ensures r.Success? && r.value.Some? ==>
      exists k: nat :: FirstMatchAt(texts, PyIndex(filters, chosen - 1).value, k) && r.value.value == Strip(texts[k])
    ensures r.Success? && r.value.None? && |texts| > 0 ==>
      forall k :: 0 <= k < |texts| ==> !Contains(Strip(texts[k]), PyIndex(filters, chosen - 1).value)
  {
    if |texts| == 0 then
      Success(None)
    else
      match PyIndex(filters, chosen - 1)
      case None => Failure(IndexError(chosen))
      case Some(needle) =>
        match FirstMatch(texts, needle)
        case None => Success(None)
        case Some(k) => Success(Some(Strip(texts[k])))
  }

  /** Neither end of `s` is whitespace */
  predicate NoOuterSpace(s: string) {
    |s| > 0 ==> !IsSpace(s[0]) && !IsSpace(s[|s| - 1])
  }

  /** Options rendered without surrounding whitespace */
  predicate AllTrimmed(texts: seq<string>)
    decreases |texts|
  {
    |texts| == 0 || (NoOuterSpace(texts[0]) && AllTrimmed(texts[1..]))
  }

  lemma {:induction false} TrimmedAt(texts: seq<string>, k: nat)
    requires AllTrimmed(texts) && k < |texts|
    ensures NoOuterSpace(texts[k])
    decreases k
  {
    if k > 0 {
      TrimmedAt(texts[1..], k - 1);
    }
  }

  /** `extract_chosen_filter` returns an option text */
  predicate PicksOption(texts: seq<string>, filters: seq<string>, chosen: int) {
    var r := ExtractChosenFilter(texts, filters, chosen);
    r.Success? && r.value.Some?
  }

  /** A choice from the printed list always finds an option when the options
      carry no surrounding whitespace: the listed text is a prefix of its own
      option. */
  lemma {:induction false} ChosenListedFilterFound(texts: seq<string>, filterType: string, filters: seq<string>, chosen: int)
    requires AllTrimmed(texts)
    requires MatchesKept(texts, IsOffered, ShownAt(texts, filterType), filters)
    requires 1 <= chosen <= |filters|
    ensures PicksOption(texts, filters, chosen)
  {
    var k := TrimmedListedSource(texts, filterType, filters, chosen);
    TrimmedChoiceFound(texts, filters, chosen, k);
  }

  /** Option `k` is trimmed and the text listed for choice `chosen` is a
      prefix of it */
  predicate ListedFrom(texts: seq<string>, filters: seq<string>, chosen: int, k: nat) {
    && k < |texts| && NoOuterSpace(texts[k])
    && 1 <= chosen <= |filters| && IsPrefixOf(filters[chosen - 1], texts[k])
  }

  /** The option a listed filter was read from, trimmed when all are */
  lemma {:induction false} TrimmedListedSource(texts: seq<string>, filterType: string, filters: seq<string>, chosen: int) returns (k: nat)
    requires AllTrimmed(texts)
    requires MatchesKept(texts, IsOffered, ShownAt(texts, filterType), filters) && 1 <= chosen <= |filters|
    ensures ListedFrom(texts, filters, chosen, k)
  {
    k := ListedIsOptionPrefix(texts, filterType, filters, chosen - 1);
    TrimmedAt(texts, k);
  }

  lemma {:induction false} TrimmedChoiceFound(texts: seq<string>, filters: seq<string>, chosen: int, k: nat)
    requires ListedFrom(texts, filters, chosen, k)
    ensures PicksOption(texts, filters, chosen)
  {
    PrefixOfOptionFound(texts, filters[chosen - 1], k);
    FoundNeedleChosen(texts, filters, chosen);
  }

  predicate IsPrefixOf(a: string, b: string) {
    |a| <= |b| && a == b[..|a|]
  }

  /** Each listed filter is a prefix of the option it was read from. */
  lemma {:induction false} ListedIsOptionPrefix(texts: seq<string>, filterType: string, filters: seq<string>, m: nat) returns (k: nat)
    requires MatchesKept(texts, IsOffered, ShownAt(texts, filterType), filters) && m < |filters|
    ensures k < |texts| && IsPrefixOf(filters[m], texts[k])
  {
    k := KeptPositions(texts, IsOffered)[m];
    assert filters[m] == Shown(texts[k], filterType);
  }

  /** A prefix of a trimmed option is found, at that option or before. */
  lemma {:induction false} PrefixOfOptionFound(texts: seq<string>, needle: string, k: nat)
    requires k < |texts| && NoOuterSpace(texts[k])
    requires IsPrefixOf(needle, texts[k])
    ensures FirstMatch(texts, needle).Some?
  {
    StripOfTrimmed(texts[k]);
    ContainsPrefix(texts[k], |needle|);
    assert Contains(Strip(texts[k]), needle);
  }

  lemma {:induction false} FoundNeedleChosen(texts: seq<string>, filters: seq<string>, chosen: int)
    requires 1 <= chosen <= |filters| && FirstMatch(texts, filters[chosen - 1]).Some?
    ensures ExtractChosenFilter(texts, filters, chosen).Success?
    ensures ExtractChosenFilter(texts, filters, chosen).value.Some?
  {
    assert PyIndex(filters, chosen - 1) == Some(filters[chosen - 1]);
  }

  /** Matching is by substring, so an earlier option that contains the chosen
      one's text wins over it. */
  lemma {:induction false} EarlierSupersetWins(texts: seq<string>, filters: seq<string>)
    requires |texts| == 2 && AllTrimmed(texts)
    requires |filters| == 2 && filters[1] == texts[1]
    requires Contains(texts[0], texts[1])
    ensures ExtractChosenFilter(texts, filters, 2) == Success(Some(texts[0]))
  {
    assert FirstMatch(texts, filters[1]) == Some(0);
  }

  /** The listed text keeps the option's whitespace but the comparison trims
      the option, so an option with leading whitespace is not found when it
      is the only one. */
  lemma {:induction false} PaddedOptionNotFound(text: string, filterType: string)
    requires |text| > 0 && IsSpace(text[0]) && IsOffered(text) && filterType != "ciudad"
    ensures ExtractChosenFilter([text], ExtractFilters(Some([text]), "", filterType).value, 1) == Success(None)
  {
    var filters := ExtractFilters(Some([text]), "", filterType).value;
    KeptAll([text], IsOffered);
    assert filters[0] == text;
    var s := Strip(text);
    assert |s| < |text| by {
      StripSpec(text);
      var a: nat :| StrippedAt(text, s, a);
    }
    assert !Contains(s, text);
  }

  // ---------------------------------------------------------------------
  // apply_filters_cinepolis

  /** A filter: its type as the user is asked about it, and its select */
  datatype FilterStage = FilterStage(kind: string, selectId: string)

  /** City, then cinema complex, then date */
  const Stages: seq<FilterStage> := [
    FilterStage("ciudad", "#cmbCiudades"),
    FilterStage("cine", "#cmbComplejos"),
    FilterStage("día", "#cmbFechas")]

  /** `select_filter_cinepolis`: list the options, ask the user, pick the
      matching option. `choose` is the user's answer to the printed list. */
  function SelectFilter(stage: FilterStage, options: Option<seq<string>>, choose: (seq<string>, string) -> int)
    : (r: Result<Option<string>, ScrapeError>)
    ensures options.None? ==> r == Failure(Timeout(stage.selectId))
    ensures options.Some? && |options.value| == 0 ==> r == Success(None)
    ensures options.Some? && |options.value| > 0 ==>
      var filters := ExtractFilters(options, stage.selectId, stage.kind).value;
      var chosen := choose(filters, stage.kind);
      && (r.Failure? <==> !(-|filters| <= chosen - 1 < |filters|))
      && (r.Failure? ==> r.error == IndexError(chosen))
      && (r.Success? && r.value.Some? ==>
            exists k: nat :: FirstMatchAt(options.value, PyIndex(filters, chosen - 1).value, k)
                             && r.value.value == Strip(options.value[k]))
      && (r.Success? && r.value.None? ==>
            forall k :: 0 <= k < |options.value| ==> !Contains(Strip(options.value[k]), PyIndex(filters, chosen - 1).value))
  {
    match ExtractFilters(options, stage.selectId, stage.kind)
    case Failure(e) => Failure(e)
    case Success(filters) => ExtractChosenFilter(options.value, filters, choose(filters, stage.kind))
  }

  /** The options a select shows once the earlier filters were applied, by
      their labels; None when it does not appear within the wait. */
  type Page = (string, seq<Option<string>>) -> Option<seq<string>>

  /** `labels[k]` is what `step` gives at stage `k`, after the labels
      before it */
  ghost predicate Chain<T, E>(step: (nat, seq<T>) -> Result<T, E>, labels: seq<T>) {
    forall k :: 0 <= k < |labels| ==> step(k, labels[..k]) == Success(labels[k])
  }

  lemma {:induction false} ChainSnoc<T, E>(step: (nat, seq<T>) -> Result<T, E>, labels: seq<T>, v: T)
    requires Chain(step, labels) && step(|labels|, labels) == Success(v)
    ensures Chain(step, labels + [v])
  {
    var labels' := labels + [v];
    forall k | 0 <= k < |labels'|
      ensures step(k, labels'[..k]) == Success(labels'[k])
    {
      if k < |labels| {
        assert labels'[..k] == labels[..k];
      } else {
        assert labels'[..k] == labels;
      }
    }
  }

  /** A chain is fixed by its length: each stage sees what the earlier ones
      gave. */
  lemma {:induction false} ChainUnique<T, E>(step: (nat, seq<T>) -> Result<T, E>, a: seq<T>, b: seq<T>)
    requires Chain(step, a) && Chain(step, b) && |a| == |b|
    ensures a == b
    decreases |a|
  {
    if |a| > 0 {
      var n := |a| - 1;
      assert Chain(step, a[..n]) by {
        forall k | 0 <= k < n
          ensures a[..n][..k] == a[..k] && a[..n][k] == a[k]
        {
        }
      }
      assert Chain(step, b[..n]) by {
        forall k | 0 <= k < n
          ensures b[..n][..k] == b[..k] && b[..n][k] == b[k]
        {
        }
      }
      ChainUnique(step, a[..n], b[..n]);
      assert step(n, a[..n]) == Success(a[n]) && step(n, b[..n]) == Success(b[n]);
      assert a == a[..n] + [a[n]] && b == b[..n] + [b[n]];
    }
  }

  /** Stage `k` on the page the labels so far have left. There is no stage
      after the date; the value given past it is never used. */
  function StageStep(page: Page, choose: (seq<string>, string) -> int)
    : (nat, seq<Option<string>>) -> Result<Option<string>, ScrapeError>
  {
    (k: nat, applied: seq<Option<string>>) =>
      if k < |Stages| then SelectFilter(Stages[k], page(Stages[k].selectId, applied), choose)
      else Failure(Timeout(""))
  }

  /** `labels` are what the first |labels| stages select, each on the page
      left by the ones before it. */
  ghost predicate Consistent(labels: seq<Option<string>>, page: Page, choose: (seq<string>, string) -> int) {
    |labels| <= |Stages| && Chain(StageStep(page, choose), labels)
  }

  /** The stages determine their labels: two consistent runs of the same
      length selected the same options. */
  lemma {:induction false} ConsistentUnique(a: seq<Option<string>>, b: seq<Option<string>>, page: Page, choose: (seq<string>, string) -> int)
    requires Consistent(a, page, choose) && Consistent(b, page, choose) && |a| == |b|
    ensures a == b
  {
    ChainUnique(StageStep(page, choose), a, b);
  }

  /** A stage is sure to pick an option: its select appears with untrimmed-
      free options and the user answers within the printed list. */
  ghost predicate StageReady(stage: FilterStage, options: Option<seq<string>>, choose: (seq<string>, string) -> int) {
    && options.Some?
    && AllTrimmed(options.value)
    && var filters := ExtractFilters(options, stage.selectId, stage.kind).value;
       1 <= choose(filters, stage.kind) <= |filters|
  }

  /** Every stage the run can reach is sure to pick an option. */
  ghost predicate AllStagesReady(page: Page, choose: (seq<string>, string) -> int) {
    forall labels :: Consistent(labels, page, choose) && |labels| < |Stages| ==>
      StageReady(Stages[|labels|], page(Stages[|labels|].selectId, labels), choose)
  }

  /** A reachable stage that is ready picks an option. */
  lemma {:induction false} ReadyStagePicks(page: Page, choose: (seq<string>, string) -> int, applied: seq<Option<string>>)
    requires Consistent(applied, page, choose) && |applied| < |Stages|
    ensures StageStep(page, choose)(|applied|, applied) ==
      SelectFilter(Stages[|applied|], page(Stages[|applied|].selectId, applied), choose)
    ensures AllStagesReady(page, choose) ==>
      var name := StageStep(page, choose)(|applied|, applied);
      name.Success? && name.value.Some?
  {
    var stage := Stages[|applied|];
    var options := page(stage.selectId, applied);
    if AllStagesReady(page, choose) {
      assert StageReady(stage, options, choose);
      var filters := ExtractFilters(options, stage.selectId, stage.kind).value;
      ChosenListedFilterFound(options.value, stage.kind, filters, choose(filters, stage.kind));
    }
  }

  /** `apply_filters_cinepolis`: the labels selected for city, cinema and
      date, in that order; the first stage that fails stops the run. */
  method ApplyFiltersCinepolis(page: Page, choose: (seq<string>, string) -> int)
    returns (r: Result<seq<Option<string>>, ScrapeError>)
    ensures r.Success? ==> |r.value| == |Stages| && Consistent(r.value, page, choose)
    ensures r.Failure? ==>
      exists labels :: Consistent(labels, page, choose) && |labels| < |Stages|
        && StageStep(page, choose)(|labels|, labels) == Failure(r.error)
    ensures AllStagesReady(page, choose) ==> r.Success? && forall k :: 0 <= k < |r.value| ==> r.value[k].Some?
  {
    var applied: seq<Option<string>> := [];
    while |applied| < |Stages|
      invariant Consistent(applied, page, choose)
      invariant AllStagesReady(page, choose) ==> forall k :: 0 <= k < |applied| ==> applied[k].Some?
      decreases |Stages| - |applied|
    {
      var stage := Stages[|applied|];
      var name := SelectFilter(stage, page(stage.selectId, applied), choose);
      ReadyStagePicks(page, choose, applied);
      if name.Failure? {
        assert StageStep(page, choose)(|applied|, applied) == Failure(name.error);
        return Failure(name.error);
      }
      ChainSnoc(StageStep(page, choose), applied, name.value);
      applied := applied + [name.value];
    }
    return Success(applied);
  }

  // ---------------------------------------------------------------------
  // scrape_showtimes_data

  /** One showtime: the untrimmed text of the time's anchor and its href */
  datatype Showtime = Showtime(time: string, link: Option<string>)

  /** A `.horarioExp` block: the children of its `.col3` (language last,
      format before it) and the anchors of its `.btnhorario` times */
  datatype CinemaBlock = CinemaBlock(extraInfo: seq<Element>, times: seq<Element>)

  /** The dict `data` of `scrape_showtimes_data`; each key absent until
      written */
  datatype ShowingData = ShowingData(language: Slot<string>, format: Slot<string>, showtimes: Slot<seq<Showtime>>)

  const EmptyData := ShowingData(Absent, Absent, Absent)

  /** The showtimes of one block, in page order */
  method BlockShowtimes(times: seq<Element>) returns (r: seq<Showtime>)
    ensures |r| == |times|
    ensures forall j :: 0 <= j < |times| ==> r[j] == Showtime(times[j].innerText, times[j].Attr("href"))
  {
    r := [];
    for j := 0 to |times|
      invariant |r| == j
      invariant forall j' :: 0 <= j' < j ==> r[j'] == Showtime(times[j'].innerText, times[j'].Attr("href"))
    {
      r := r + [Showtime(times[j].innerText, times[j].Attr("href"))];
    }
  }

  /** The showtimes list a block yields */
  function BlockShowtimeList(times: seq<Element>): seq<Showtime> {
    seq(|times|, j requires 0 <= j < |times| => Showtime(times[j].innerText, times[j].Attr("href")))
  }

  /** One block's writes into `data`: language from the last child when
      there is one, format from the second to last when there are two, and
      the showtimes always. */
  function VisitBlock(d: ShowingData, b: CinemaBlock): ShowingData {
    var c := b.extraInfo;
    ShowingData(
      if |c| > 0 then Present(Strip(c[|c| - 1].innerText)) else d.language,
      if |c| > 1 then Present(Strip(c[|c| - 2].innerText)) else d.format,
      Present(BlockShowtimeList(b.times)))
  }

  /** The child `back` places from the end of the `.col3` of the last block
      that has that many children; None when no block has. */
  function ChildFromEnd(blocks: seq<CinemaBlock>, back: nat): (r: Option<Element>)
    requires back > 0
    ensures r.Some? ==>
      exists i :: && 0 <= i < |blocks| && |blocks[i].extraInfo| >= back
                  && r.value == blocks[i].extraInfo[|blocks[i].extraInfo| - back]
                  && forall i' :: i < i' < |blocks| ==> |blocks[i'].extraInfo| < back
    ensures r.None? ==> forall i :: 0 <= i < |blocks| ==> |blocks[i].extraInfo| < back
    decreases |blocks|
  {
    if |blocks| == 0 then
      None
    else
      var n := |blocks| - 1;
      var c := blocks[n].extraInfo;
      if |c| >= back then
        Some(c[|c| - back])
      else
        var r := ChildFromEnd(blocks[..n], back);
        assert forall i :: 0 <= i < n ==> blocks[..n][i] == blocks[i];
        r
  }

  /** The trimmed text of an element that may be missing */
  function TextOf(e: Option<Element>): Slot<string> {
    match e
    case None => Absent
    case Some(x) => Present(Strip(x.innerText))
  }

  /** The one dict every block writes into: the last block's showtimes, and
      the language and format of the last blocks that had them. */
  function SharedData(blocks: seq<CinemaBlock>): (r: ShowingData)
    ensures r.showtimes == if |blocks| == 0 then Absent else Present(BlockShowtimeList(blocks[|blocks| - 1].times))
    ensures r.language == TextOf(ChildFromEnd(blocks, 1))
    ensures r.format == TextOf(ChildFromEnd(blocks, 2))
    decreases |blocks|
  {
    if |blocks| == 0 then
      EmptyData
    else
      var n := |blocks| - 1;
      var prev := SharedData(blocks[..n]);
      VisitBlock(prev, blocks[n])
  }

  /** `scrape_showtimes_data`: a list holding exactly one dict, the one
      every block wrote into. */
  method ScrapeCinemaBlocks(blocks: seq<CinemaBlock>) returns (r: seq<ShowingData>)
    ensures |r| == 1
    ensures r[0].showtimes == if |blocks| == 0 then Absent else Present(BlockShowtimeList(blocks[|blocks| - 1].times))
    ensures r[0].language == TextOf(ChildFromEnd(blocks, 1))
    ensures r[0].format == TextOf(ChildFromEnd(blocks, 2))
    ensures |blocks| == 0 ==> r == [EmptyData]
  {
    var data := EmptyData;
    for i := 0 to |blocks|
      invariant data == SharedData(blocks[..i])
    {
      var c := blocks[i].extraInfo;
      var formats := |c|;
      if formats > 0 {
        data := data.(language := Present(Strip(c[formats - 1].innerText)));
      }
      if formats > 1 {
        data := data.(format := Present(Strip(c[formats - 2].innerText)));
      }
      var showtimesTotal := BlockShowtimes(blocks[i].times);
      assert showtimesTotal == BlockShowtimeList(blocks[i].times);
      data := data.(showtimes := Present(showtimesTotal));
      assert blocks[..i + 1][..i] == blocks[..i] && blocks[..i + 1][i] == blocks[i];
    }
    assert blocks[..|blocks|] == blocks;
    r := [data];
  }

  /** A later cinema with no times erases an earlier cinema's showtimes, and
      one without language children inherits the earlier language. */
  lemma {:induction false} SharedDictLosesEarlierBlock(blocks: seq<CinemaBlock>)
    requires |blocks| == 2
    requires |blocks[0].times| > 0 && |blocks[0].extraInfo| > 0
    requires |blocks[1].times| == 0 && |blocks[1].extraInfo| == 0
    ensures SharedData(blocks).showtimes == Present([])
    ensures Showtime(blocks[0].times[0].innerText, blocks[0].times[0].Attr("href")) !in SharedData(blocks).showtimes.value
    ensures SharedData(blocks).language == Present(Strip(blocks[0].extraInfo[|blocks[0].extraInfo| - 1].innerText))
  {
    assert |BlockShowtimeList(blocks[1].times)| == 0;
    assert blocks[..1][0] == blocks[0];
  }

  /** The evidently intended result: one dict per cinema block, each written
      from that block alone. */
  function PerCinemaData(blocks: seq<CinemaBlock>): (r: seq<ShowingData>)
    ensures |r| == |blocks|
    ensures forall i :: 0 <= i < |blocks| ==> r[i] == VisitBlock(EmptyData, blocks[i])
  {
    seq(|blocks|, i requires 0 <= i < |blocks| => VisitBlock(EmptyData, blocks[i]))
  }

  /** Per cinema, every showtime of every block is kept, and a block's
      language and format are present exactly when that block has them. */
  lemma {:induction false} PerCinemaKeepsEveryBlock(blocks: seq<CinemaBlock>, i: nat)
    requires i < |blocks|
    ensures PerCinemaData(blocks)[i].showtimes == Present(BlockShowtimeList(blocks[i].times))
    ensures forall j :: 0 <= j < |blocks[i].times| ==>
      Showtime(blocks[i].times[j].innerText, blocks[i].times[j].Attr("href")) in PerCinemaData(blocks)[i].showtimes.value
    ensures PerCinemaData(blocks)[i].language.Present? <==> |blocks[i].extraInfo| > 0
    ensures PerCinemaData(blocks)[i].format.Present? <==> |blocks[i].extraInfo| > 1
  {
    var st := BlockShowtimeList(blocks[i].times);
    assert forall j :: 0 <= j < |blocks[i].times| ==> st[j] == Showtime(blocks[i].times[j].innerText, blocks[i].times[j].Attr("href"));
  }

  /** What the shared dict keeps of the showtimes is the last cinema's entry
      of the intended per-cinema list. */
  lemma {:induction false} SharedIsLastPerCinema(blocks: seq<CinemaBlock>)
    requires |blocks| > 0
    ensures SharedData(blocks).showtimes == PerCinemaData(blocks)[|blocks| - 1].showtimes
  {
  }
}
