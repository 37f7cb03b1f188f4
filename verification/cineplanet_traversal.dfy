/** The Cineplanet showtime traversal (scrapers/cineplanet_scraper.py):
    cinemas, then the sessions-details groups of each cinema, then the
    session items of each group, always re-resolved by index; every bookable
    item is visited on its purchase page and its URL captured, a disabled
    item is skipped without a click.

    The detail page is a snapshot. Going back from the purchase page is
    assumed to rebuild the detail page exactly as it was first loaded, so
    the element found again at the same indices is the same element; the
    one piece of page state the model tracks is which cinema accordions were
    clicked open since the page was last (re)loaded. */
module CineplanetTraversal {
  import opened Wrappers
  import opened Text
  import opened Seqs
  import opened Dom
  import PyDict
  import opened Movie

  /** Class marker of a session that cannot be booked */
  const DisabledMarker := "showtime-selector_disable"
  /** Class marker of an open cinema accordion */
  const ExpandedMarker := "accordion_expanded"
  /** URL recorded when the purchase page could not be reached */
  const ErrorUrl := "Error"

  /** `.sessions-details--session-item` and its `.showtime-selector--link` */
  datatype SessionItem = SessionItem(item: Element, link: Element)

  /** `.cinema-showcases--sessions-details`: the three format labels and the
      session items */
  datatype SessionsDetails = SessionsDetails(
    dimension: Element,
    theater: Element,
    language: Element,
    items: seq<SessionItem>)

  /** `.film-detail-showtimes--accordion`: the accordion itself, its
      `.cinema-showcases--summary-name`, and its groups */
  datatype CinemaAccordion = CinemaAccordion(accordion: Element, name: Element, details: seq<SessionsDetails>)

  /** The movie's detail page */
  datatype DetailPage = DetailPage(cinemas: seq<CinemaAccordion>)

  /** Indices of a session item: cinema, group within it, item within that */
  datatype Position = Position(cinema: nat, group: nat, item: nat)

  /** The waits of the trip to the purchase page, in order: clicking the
      session link, clicking the optional confirmation button, waiting for
      the purchase URL, waiting for the seat map. */
  datatype Stage = LinkClick | ConfirmClick | PurchaseUrl | SeatMap

  /** What the site does when a session link is clicked: whether the
      confirmation button shows up, at which wait (if any) a TimeoutError is
      raised, and the URL the page is on once it gets there. */
  datatype Navigation = Navigation(confirmShown: bool, timedOutAt: Option<Stage>, landedUrl: string)

  /** The site's answer for every session link */
  type Oracle = Position -> Navigation

  /** The browser actions of the traversal */
  datatype Event =
    | ExpandCinema(cinema: nat)
    | Forward(stage: Stage, at: Position)
    | GoBack
    | WaitShowtimes

  /** A result with the actions taken to compute it and the set of cinema
      accordions clicked open since the page was last loaded */
  datatype Traced<T> = Traced(value: T, events: seq<Event>, clickedOpen: set<nat>)

  predicate IsBookable(s: SessionItem) {
    !Contains(s.item.ClassOrEmpty(), DisabledMarker)
  }

  predicate ValidGroup(page: DetailPage, i: nat, j: nat) {
    i < |page.cinemas| && j < |page.cinemas[i].details|
  }

  function ItemsOf(page: DetailPage, i: nat, j: nat): seq<SessionItem>
    requires ValidGroup(page, i, j)
  {
    page.cinemas[i].details[j].items
  }

  /** The cinema accordion at index `i` is open: it was clicked open since the
      last load, or it was rendered open. */
  predicate IsExpanded(page: DetailPage, clickedOpen: set<nat>, i: nat)
    requires i < |page.cinemas|
  {
    i in clickedOpen || Contains(page.cinemas[i].accordion.ClassOrEmpty(), ExpandedMarker)
  }

  // ---------------------------------------------------------------------
  // The purchase-page trip (_click_extract_then_go_back)

  /** The waits a trip goes through when nothing times out */
  function ForwardStages(nav: Navigation): seq<Stage> {
    [LinkClick] + (if nav.confirmShown then [ConfirmClick] else []) + [PurchaseUrl, SeatMap]
  }

  /** The trip raises TimeoutError at one of its waits */
  predicate TimesOut(nav: Navigation) {
    nav.timedOutAt.Some? && nav.timedOutAt.value in ForwardStages(nav)
  }

  /** The waits attempted: all of them, up to and including the one that
      timed out. */
  function Attempted(stages: seq<Stage>, stop: Option<Stage>): (r: seq<Stage>)
    ensures |stages| > 0 ==> |r| > 0 && r[0] == stages[0]
    ensures |r| <= |stages| && r == stages[..|r|]
    ensures stop.Some? && stop.value in stages ==> r[|r| - 1] == stop.value
    ensures !(stop.Some? && stop.value in stages) ==> r == stages
    decreases |stages|
  {
    if |stages| == 0 then []
    else if stop == Some(stages[0]) then [stages[0]]
    else [stages[0]] + Attempted(stages[1..], stop)
  }

  /** The positions whose session link was clicked, in order */
  function PurchaseClicks(events: seq<Event>): seq<Position>
    decreases |events|
  {
    if |events| == 0 then []
    else
      var here := match events[0]
        case Forward(LinkClick, at) => [at]
        case _ => [];
      here + PurchaseClicks(events[1..])
  }

  lemma {:induction false} PurchaseClicksAppend(a: seq<Event>, b: seq<Event>)
    ensures PurchaseClicks(a + b) == PurchaseClicks(a) + PurchaseClicks(b)
    decreases |a|
  {
    if |a| > 0 {
      assert (a + b)[1..] == a[1..] + b;
      PurchaseClicksAppend(a[1..], b);
    } else {
      assert a + b == b;
    }
  }

  function ForwardEvents(stages: seq<Stage>, at: Position): (r: seq<Event>)
    ensures |r| == |stages|
    ensures forall m :: 0 <= m < |r| ==> r[m] == Forward(stages[m], at)
    ensures LinkClick !in stages ==> PurchaseClicks(r) == []
    ensures |stages| > 0 && stages[0] == LinkClick && LinkClick !in stages[1..] ==> PurchaseClicks(r) == [at]
    decreases |stages|
  {
    if |stages| == 0 then []
    else [Forward(stages[0], at)] + ForwardEvents(stages[1..], at)
  }

  // ---------------------------------------------------------------------
  // The accordions along a trace of actions

  /** The accordions clicked open after one action: expanding adds one,
      going back reloads the detail page, which closes every clicked one. */
  function StepOpen(open: set<nat>, e: Event): set<nat> {
    match e
    case ExpandCinema(c) => open + {c}
    case GoBack => {}
    case _ => open
  }

  /** The accordions clicked open after replaying `events` from `open` */
  function OpenAfter(open: set<nat>, events: seq<Event>): set<nat>
    decreases |events|
  {
    if |events| == 0 then open else OpenAfter(StepOpen(open, events[0]), events[1..])
  }

  /** Replaying `events` from `open`, every session link is clicked while
      its cinema's accordion is open (a link inside a closed accordion cannot
      be clicked). */
  predicate ClicksWhileOpen(page: DetailPage, open: set<nat>, events: seq<Event>)
    decreases |events|
  {
    || |events| == 0
    || (&& (events[0].Forward? && events[0].stage == LinkClick ==>
              events[0].at.cinema < |page.cinemas| && IsExpanded(page, open, events[0].at.cinema))
        && ClicksWhileOpen(page, StepOpen(open, events[0]), events[1..]))
  }

  /** `events`, run from the accordions `open`, click no link inside a
      closed accordion and leave `after` clicked open. */
  predicate OpenBeforeClicks(page: DetailPage, open: set<nat>, events: seq<Event>, after: set<nat>) {
    ClicksWhileOpen(page, open, events) && after == OpenAfter(open, events)
  }

  /** Replaying two traces one after the other */
  lemma {:induction false} ReplayAppend(page: DetailPage, open: set<nat>, a: seq<Event>, b: seq<Event>)
    ensures OpenAfter(open, a + b) == OpenAfter(OpenAfter(open, a), b)
    ensures ClicksWhileOpen(page, open, a + b) <==> ClicksWhileOpen(page, open, a) && ClicksWhileOpen(page, OpenAfter(open, a), b)
    decreases |a|
  {
    if |a| > 0 {
      assert (a + b)[1..] == a[1..] + b;
      ReplayAppend(page, StepOpen(open, a[0]), a[1..], b);
    } else {
      assert a + b == b;
    }
  }

  /** Two steps of a loop, one after the other, keep `OpenBeforeClicks`. */
  lemma {:induction false} OpenBeforeClicksThen(page: DetailPage, open: set<nat>, a: seq<Event>, mid: set<nat>, b: seq<Event>, after: set<nat>)
    requires OpenBeforeClicks(page, open, a, mid) && OpenBeforeClicks(page, mid, b, after)
    ensures OpenBeforeClicks(page, open, a + b, after)
  {
    ReplayAppend(page, open, a, b);
  }

  /** The waits of a trip after the link click touch no accordion. */
  lemma {:induction false} ForwardKeepsOpen(page: DetailPage, stages: seq<Stage>, at: Position, open: set<nat>)
    requires at.cinema < |page.cinemas| && IsExpanded(page, open, at.cinema)
    ensures ClicksWhileOpen(page, open, ForwardEvents(stages, at))
    ensures OpenAfter(open, ForwardEvents(stages, at)) == open
    decreases |stages|
  {
    if |stages| > 0 {
      var r := ForwardEvents(stages, at);
      assert r[1..] == ForwardEvents(stages[1..], at);
      ForwardKeepsOpen(page, stages[1..], at, open);
    }
  }

  /** `_click_extract_then_go_back`: the trip to the purchase page. It records
      the URL reached, or "Error" when a wait timed out, and in every case
      ends by going back and waiting for the showtimes again; the page is
      then as first loaded. */
  function ClickExtractThenGoBack(at: Position, nav: Navigation): (r: Traced<string>)
    ensures TimesOut(nav) ==> r.value == ErrorUrl
    ensures !TimesOut(nav) ==> r.value == nav.landedUrl && Forward(SeatMap, at) in r.events
    ensures |r.events| >= 3 && r.events[0] == Forward(LinkClick, at)
    ensures r.events[|r.events| - 2..] == [GoBack, WaitShowtimes]
    ensures PurchaseClicks(r.events) == [at]
    ensures r.clickedOpen == {}
  {
    var stages := ForwardStages(nav);
    var attempted := Attempted(stages, nav.timedOutAt);
    assert LinkClick !in attempted[1..] by {
      assert attempted[1..] == stages[1..|attempted|];
    }
    var forward := ForwardEvents(attempted, at);
    var url := if TimesOut(nav) then ErrorUrl else nav.landedUrl;
    var events := forward + [GoBack, WaitShowtimes];
    PurchaseClicksAppend(forward, [GoBack, WaitShowtimes]);
    assert PurchaseClicks([GoBack, WaitShowtimes]) == [];
    assert !TimesOut(nav) ==> forward[|forward| - 1] == Forward(SeatMap, at);
    Traced(url, events, {})
  }

  /** A trip that starts inside an open accordion clicks no link inside a
      closed one, and going back leaves no accordion clicked open. */
  lemma {:induction false} TripOpenBeforeClicks(page: DetailPage, at: Position, nav: Navigation, open: set<nat>)
    requires at.cinema < |page.cinemas| && IsExpanded(page, open, at.cinema)
    ensures var r := ClickExtractThenGoBack(at, nav); OpenBeforeClicks(page, open, r.events, r.clickedOpen)
  {
    TripEventsOpen(page, Attempted(ForwardStages(nav), nav.timedOutAt), at, open);
  }

  /** The actions of a trip: the waits, then going back */
  lemma {:induction false} TripEventsOpen(page: DetailPage, stages: seq<Stage>, at: Position, open: set<nat>)
    requires at.cinema < |page.cinemas| && IsExpanded(page, open, at.cinema)
    ensures OpenBeforeClicks(page, open, ForwardEvents(stages, at) + [GoBack, WaitShowtimes], {})
  {
    var back := [GoBack, WaitShowtimes];
    ForwardKeepsOpen(page, stages, at, open);
    ReplayAppend(page, open, ForwardEvents(stages, at), back);
    assert back[1..] == [WaitShowtimes];
  }

  // ---------------------------------------------------------------------
  // One session item (_parse_showtimes and the loop body around it)

  /** The URL recorded for a bookable session */
  function CapturedUrl(nav: Navigation): string {
    if TimesOut(nav) then ErrorUrl else nav.landedUrl
  }

  /** `_parse_showtimes`: [] for a disabled item, without any click;
      otherwise the trimmed link text and the captured URL. */
  function ParseShowtimes(s: SessionItem, at: Position, nav: Navigation, clickedOpen: set<nat>): (r: Traced<seq<string>>)
    ensures !IsBookable(s) ==> r == Traced([], [], clickedOpen)
    ensures IsBookable(s) ==> r.value == [Strip(s.link.innerText), CapturedUrl(nav)]
    ensures IsBookable(s) ==> PurchaseClicks(r.events) == [at] && r.clickedOpen == {}
  {
    if !IsBookable(s) then
      Traced([], [], clickedOpen)
    else
      var trip := ClickExtractThenGoBack(at, nav);
      Traced([Strip(s.link.innerText), trip.value], trip.events, trip.clickedOpen)
  }

  /** Parsing an item inside an open accordion clicks no link inside a
      closed one. */
  lemma {:induction false} ParseOpenBeforeClicks(page: DetailPage, s: SessionItem, at: Position, nav: Navigation, open: set<nat>)
    requires at.cinema < |page.cinemas| && IsExpanded(page, open, at.cinema)
    ensures var r := ParseShowtimes(s, at, nav, open); OpenBeforeClicks(page, open, r.events, r.clickedOpen)
  {
    if IsBookable(s) {
      TripOpenBeforeClicks(page, at, nav, open);
    }
  }

  /** One iteration of the session loop of `_build_showtime_entry`: open the
      cinema accordion if it is closed, then parse the item. The accordion is
      clicked exactly when it is closed, so the item's link is clicked with
      the accordion open. */
  function VisitItem(page: DetailPage, i: nat, j: nat, k: nat, oracle: Oracle, clickedOpen: set<nat>): (r: Traced<seq<string>>)
    requires ValidGroup(page, i, j) && k < |ItemsOf(page, i, j)|
    ensures r.value == if IsBookable(ItemsOf(page, i, j)[k]) then ExpectedEntry(page, i, j, k, oracle) else []
    ensures PurchaseClicks(r.events) == if IsBookable(ItemsOf(page, i, j)[k]) then [Position(i, j, k)] else []
    ensures (|r.events| > 0 && r.events[0] == ExpandCinema(i)) <==> !IsExpanded(page, clickedOpen, i)
    ensures OpenBeforeClicks(page, clickedOpen, r.events, r.clickedOpen)
  {
    var expanded := IsExpanded(page, clickedOpen, i);
    var expand := if expanded then [] else [ExpandCinema(i)];
    var openNow := if expanded then clickedOpen else clickedOpen + {i};
    var at := Position(i, j, k);
    var parsed := ParseShowtimes(ItemsOf(page, i, j)[k], at, oracle(at), openNow);
    PurchaseClicksAppend(expand, parsed.events);
    assert OpenAfter(clickedOpen, expand) == openNow && ClicksWhileOpen(page, clickedOpen, expand);
    ParseOpenBeforeClicks(page, ItemsOf(page, i, j)[k], at, oracle(at), openNow);
    ReplayAppend(page, clickedOpen, expand, parsed.events);
    Traced(parsed.value, expand + parsed.events, parsed.clickedOpen)
  }

  // ---------------------------------------------------------------------
  // Reference: what each group should hold, stated without the loops

  /** The entry of the bookable item `k` */
  function ExpectedEntry(page: DetailPage, i: nat, j: nat, k: nat, oracle: Oracle): seq<string>
    requires ValidGroup(page, i, j) && k < |ItemsOf(page, i, j)|
  {
    [Strip(ItemsOf(page, i, j)[k].link.innerText), CapturedUrl(oracle(Position(i, j, k)))]
  }

  /** One entry per bookable item, in page order */
  function ExpectedShowtimes(page: DetailPage, i: nat, j: nat, oracle: Oracle): seq<seq<string>>
    requires ValidGroup(page, i, j)
  {
    var kept := KeptPositions(ItemsOf(page, i, j), IsBookable);
    seq(|kept|, m requires 0 <= m < |kept| => ExpectedEntry(page, i, j, kept[m], oracle))
  }

  function ExpectedGroup(page: DetailPage, i: nat, j: nat, oracle: Oracle): SessionGroup
    requires ValidGroup(page, i, j)
  {
    var d := page.cinemas[i].details[j];
    SessionGroup(Strip(d.dimension.innerText), Strip(d.theater.innerText), Strip(d.language.innerText),
                 ExpectedShowtimes(page, i, j, oracle))
  }

  /** One group per sessions-details container, in page order */
  function ExpectedGroups(page: DetailPage, i: nat, oracle: Oracle): seq<SessionGroup>
    requires i < |page.cinemas|
  {
    seq(|page.cinemas[i].details|, j requires 0 <= j < |page.cinemas[i].details| => ExpectedGroup(page, i, j, oracle))
  }

  /** The cinema's name as the traversal reads it */
  function CinemaName(page: DetailPage, i: nat): string
    requires i < |page.cinemas|
  {
    Strip(page.cinemas[i].name.innerText)
  }

  /** `p` comes strictly before `q` in cinema, group, item order */
  predicate Before(p: Position, q: Position) {
    || p.cinema < q.cinema
    || (p.cinema == q.cinema && p.group < q.group)
    || (p.cinema == q.cinema && p.group == q.group && p.item < q.item)
  }

  ghost predicate InPageOrder(ps: seq<Position>) {
    forall a, b :: 0 <= a < b < |ps| ==> Before(ps[a], ps[b])
  }

  /** `p` names a bookable session item of the page */
  ghost predicate IsBookableAt(page: DetailPage, p: Position) {
    && ValidGroup(page, p.cinema, p.group)
    && p.item < |ItemsOf(page, p.cinema, p.group)|
    && IsBookable(ItemsOf(page, p.cinema, p.group)[p.item])
  }

  // ---------------------------------------------------------------------
  // The loops

  /** The entry of item `k` of group (i, j), as a function of `k` */
  function EntryOf(page: DetailPage, i: nat, j: nat, oracle: Oracle): nat -> seq<string>
    requires ValidGroup(page, i, j)
  {
    (k: nat) => if k < |ItemsOf(page, i, j)| then ExpectedEntry(page, i, j, k, oracle) else []
  }

  /** The position of item `k` of group (i, j), as a function of `k` */
  function PositionIn(i: nat, j: nat): nat -> Position {
    (k: nat) => Position(i, j, k)
  }

  /** After the first `n` iterations of the session loop: one entry per
      bookable item among the first `n`, in page order, and a purchase click
      on exactly those items, in the same order. */
  ghost predicate SessionsMatch(page: DetailPage, i: nat, j: nat, n: nat, oracle: Oracle,
                                showtimes: seq<seq<string>>, clicks: seq<Position>)
    requires ValidGroup(page, i, j) && n <= |ItemsOf(page, i, j)|
  {
    var items := ItemsOf(page, i, j)[..n];
    && MatchesKept(items, IsBookable, EntryOf(page, i, j, oracle), showtimes)
    && MatchesKept(items, IsBookable, PositionIn(i, j), clicks)
  }

  /** The first `n` iterations of the session loop of
      `_build_showtime_entry`. */
  function SessionLoop(page: DetailPage, i: nat, j: nat, n: nat, oracle: Oracle, clickedOpen: set<nat>): (r: Traced<seq<seq<string>>>)
    requires ValidGroup(page, i, j) && n <= |ItemsOf(page, i, j)|
    ensures SessionsMatch(page, i, j, n, oracle, r.value, PurchaseClicks(r.events))
    ensures OpenBeforeClicks(page, clickedOpen, r.events, r.clickedOpen)
    decreases n
  {
    if n == 0 then
      Traced([], [], clickedOpen)
    else
      var prev := SessionLoop(page, i, j, n - 1, oracle, clickedOpen);
      var step := VisitItem(page, i, j, n - 1, oracle, prev.clickedOpen);
      SessionStep(page, i, j, n, oracle, prev, step);
      var showtimes := if step.value == [] then prev.value else prev.value + [step.value];
      OpenBeforeClicksThen(page, clickedOpen, prev.events, prev.clickedOpen, step.events, step.clickedOpen);
      Traced(showtimes, prev.events + step.events, step.clickedOpen)
  }

  /** One more iteration of the session loop keeps `SessionsMatch`: a
      bookable item adds its entry and its purchase click, any other item
      adds nothing. */
  lemma {:induction false} SessionStep(page: DetailPage, i: nat, j: nat, n: nat, oracle: Oracle,
                                       prev: Traced<seq<seq<string>>>, step: Traced<seq<string>>)
    requires ValidGroup(page, i, j) && 0 < n <= |ItemsOf(page, i, j)|
    requires SessionsMatch(page, i, j, n - 1, oracle, prev.value, PurchaseClicks(prev.events))
    requires var item := ItemsOf(page, i, j)[n - 1];
      && step.value == (if IsBookable(item) then ExpectedEntry(page, i, j, n - 1, oracle) else [])
      && PurchaseClicks(step.events) == (if IsBookable(item) then [Position(i, j, n - 1)] else [])
    ensures SessionsMatch(page, i, j, n, oracle, if step.value == [] then prev.value else prev.value + [step.value],
                          PurchaseClicks(prev.events + step.events))
  {
    var items := ItemsOf(page, i, j);
    PurchaseClicksAppend(prev.events, step.events);
    EntriesStep(items, n - 1, EntryOf(page, i, j, oracle), prev.value, step.value);
    ClicksStep(items, n - 1, PositionIn(i, j), PurchaseClicks(prev.events), PurchaseClicks(step.events));
  }

  /** The entry half of `SessionStep`: an entry is never empty, so testing
      it against [] tells a bookable item from any other. */
  lemma {:induction false} EntriesStep(items: seq<SessionItem>, n: nat, entry: nat -> seq<string>,
                                       showtimes: seq<seq<string>>, value: seq<string>)
    requires n < |items| && MatchesKept(items[..n], IsBookable, entry, showtimes)
    requires |entry(n)| == 2 && value == if IsBookable(items[n]) then entry(n) else []
    ensures MatchesKept(items[..n + 1], IsBookable, entry, if value == [] then showtimes else showtimes + [value])
  {
    MatchesKeptSnoc(items, n, IsBookable, entry, showtimes);
  }

  /** The click half of `SessionStep` */
  lemma {:induction false} ClicksStep(items: seq<SessionItem>, n: nat, at: nat -> Position,
                                      clicks: seq<Position>, added: seq<Position>)
    requires n < |items| && MatchesKept(items[..n], IsBookable, at, clicks)
    requires added == if IsBookable(items[n]) then [at(n)] else []
    ensures MatchesKept(items[..n + 1], IsBookable, at, clicks + added)
  {
    MatchesKeptSnoc(items, n, IsBookable, at, clicks);
    if !IsBookable(items[n]) {
      assert clicks + added == clicks;
    }
  }

  /** `_build_showtime_entry(page, i, j)`: the group's trimmed labels and one
      [time, url] entry per bookable item, in page order. */
  function BuildShowtimeEntry(page: DetailPage, i: nat, j: nat, oracle: Oracle, clickedOpen: set<nat>): (r: Traced<SessionGroup>)
    requires ValidGroup(page, i, j)
    ensures r.value == ExpectedGroup(page, i, j, oracle)
    ensures InPageOrder(PurchaseClicks(r.events))
    ensures forall p :: p in PurchaseClicks(r.events) <==> p.cinema == i && p.group == j && IsBookableAt(page, p)
    ensures OpenBeforeClicks(page, clickedOpen, r.events, r.clickedOpen)
  {
    var d := page.cinemas[i].details[j];
    var dimension := Strip(d.dimension.innerText);
    var theater := Strip(d.theater.innerText);
    var language := Strip(d.language.innerText);
    var loop := SessionLoop(page, i, j, |d.items|, oracle, clickedOpen);
    GroupComplete(page, i, j, oracle, loop.value, PurchaseClicks(loop.events));
    Traced(SessionGroup(dimension, theater, language, loop.value), loop.events, loop.clickedOpen)
  }

  /** The whole session loop yields the reference showtimes, and its clicks
      are in page order and are exactly the group's bookable items. */
  lemma {:induction false} GroupComplete(page: DetailPage, i: nat, j: nat, oracle: Oracle, showtimes: seq<seq<string>>, clicks: seq<Position>)
    requires ValidGroup(page, i, j)
    requires SessionsMatch(page, i, j, |ItemsOf(page, i, j)|, oracle, showtimes, clicks)
    ensures showtimes == ExpectedShowtimes(page, i, j, oracle)
    ensures InPageOrder(clicks)
    ensures forall p :: p in clicks <==> p.cinema == i && p.group == j && IsBookableAt(page, p)
  {
    var items := ItemsOf(page, i, j);
    assert items[..|items|] == items;
    GroupShowtimes(page, i, j, oracle, showtimes);
    GroupClicksOrdered(items, i, j, clicks);
    GroupClicksExact(page, i, j, clicks);
  }

  lemma {:induction false} GroupShowtimes(page: DetailPage, i: nat, j: nat, oracle: Oracle, showtimes: seq<seq<string>>)
    requires ValidGroup(page, i, j)
    requires MatchesKept(ItemsOf(page, i, j), IsBookable, EntryOf(page, i, j, oracle), showtimes)
    ensures showtimes == ExpectedShowtimes(page, i, j, oracle)
  {
    var kept := KeptPositions(ItemsOf(page, i, j), IsBookable);
    var expected := ExpectedShowtimes(page, i, j, oracle);
    forall m | 0 <= m < |kept|
      ensures showtimes[m] == expected[m]
    {
    }
  }

  lemma {:induction false} GroupClicksOrdered(items: seq<SessionItem>, i: nat, j: nat, clicks: seq<Position>)
    requires MatchesKept(items, IsBookable, PositionIn(i, j), clicks)
    ensures InPageOrder(clicks)
  {
    var kept := KeptPositions(items, IsBookable);
    KeptPositionsAscending(items, IsBookable);
    forall a, b | 0 <= a < b < |clicks|
      ensures Before(clicks[a], clicks[b])
    {
      assert clicks[a] == Position(i, j, kept[a]) && clicks[b] == Position(i, j, kept[b]);
    }
  }

  lemma {:induction false} GroupClicksExact(page: DetailPage, i: nat, j: nat, clicks: seq<Position>)
    requires ValidGroup(page, i, j)
    requires MatchesKept(ItemsOf(page, i, j), IsBookable, PositionIn(i, j), clicks)
    ensures forall p :: p in clicks <==> p.cinema == i && p.group == j && IsBookableAt(page, p)
  {
    var kept := KeptPositions(ItemsOf(page, i, j), IsBookable);
    KeptPositionsComplete(ItemsOf(page, i, j), IsBookable);
    forall p: Position
      ensures p in clicks <==> p.cinema == i && p.group == j && IsBookableAt(page, p)
    {
      if p in clicks {
        var m :| 0 <= m < |clicks| && clicks[m] == p;
        assert p == Position(i, j, kept[m]);
      }
      if p.cinema == i && p.group == j && IsBookableAt(page, p) {
        assert p.item in kept;
        var m :| 0 <= m < |kept| && kept[m] == p.item;
        assert clicks[m] == p;
      }
    }
  }

  lemma {:induction false} InPageOrderAppend(a: seq<Position>, b: seq<Position>)
    requires InPageOrder(a) && InPageOrder(b)
    requires forall x, y :: x in a && y in b ==> Before(x, y)
    ensures InPageOrder(a + b)
  {
  }

  /** After the first `n` iterations of the container loop: the reference
      groups of the first `n` containers, and clicks in page order on
      exactly their bookable items. */
  ghost predicate GroupsMatch(page: DetailPage, i: nat, n: nat, oracle: Oracle,
                              groups: seq<SessionGroup>, clicks: seq<Position>)
    requires i < |page.cinemas| && n <= |page.cinemas[i].details|
  {
    && |groups| == n
    && (forall j :: 0 <= j < n ==> groups[j] == ExpectedGroup(page, i, j, oracle))
    && InPageOrder(clicks)
    && (forall p :: p in clicks <==> p.cinema == i && p.group < n && IsBookableAt(page, p))
  }

  lemma {:induction false} GroupStep(page: DetailPage, i: nat, n: nat, oracle: Oracle,
                  groups: seq<SessionGroup>, clicks: seq<Position>, group: SessionGroup, stepClicks: seq<Position>)
    requires i < |page.cinemas| && 0 < n <= |page.cinemas[i].details|
    requires GroupsMatch(page, i, n - 1, oracle, groups, clicks)
    requires group == ExpectedGroup(page, i, n - 1, oracle)
    requires InPageOrder(stepClicks)
    requires forall p :: p in stepClicks <==> p.cinema == i && p.group == n - 1 && IsBookableAt(page, p)
    ensures GroupsMatch(page, i, n, oracle, groups + [group], clicks + stepClicks)
  {
    InPageOrderAppend(clicks, stepClicks);
  }

  /** The first `n` iterations of the container loop of
      `_parse_showtimes_for_cinema`. */
  function ContainerLoop(page: DetailPage, i: nat, n: nat, oracle: Oracle, clickedOpen: set<nat>): (r: Traced<seq<SessionGroup>>)
    requires i < |page.cinemas| && n <= |page.cinemas[i].details|
    ensures GroupsMatch(page, i, n, oracle, r.value, PurchaseClicks(r.events))
    ensures OpenBeforeClicks(page, clickedOpen, r.events, r.clickedOpen)
    decreases n
  {
    if n == 0 then
      Traced([], [], clickedOpen)
    else
      var prev := ContainerLoop(page, i, n - 1, oracle, clickedOpen);
      var step := BuildShowtimeEntry(page, i, n - 1, oracle, prev.clickedOpen);
      PurchaseClicksAppend(prev.events, step.events);
      GroupStep(page, i, n, oracle, prev.value, PurchaseClicks(prev.events), step.value, PurchaseClicks(step.events));
      OpenBeforeClicksThen(page, clickedOpen, prev.events, prev.clickedOpen, step.events, step.clickedOpen);
      Traced(prev.value + [step.value], prev.events + step.events, step.clickedOpen)
  }

  /** `_parse_showtimes_for_cinema(page, i)`: the cinema's trimmed name and
      one group per sessions-details container, in page order. */
  function ParseShowtimesForCinema(page: DetailPage, i: nat, oracle: Oracle, clickedOpen: set<nat>): (r: Traced<(string, seq<SessionGroup>)>)
    requires i < |page.cinemas|
    ensures r.value == (CinemaName(page, i), ExpectedGroups(page, i, oracle))
    ensures InPageOrder(PurchaseClicks(r.events))
    ensures forall p :: p in PurchaseClicks(r.events) <==> p.cinema == i && IsBookableAt(page, p)
    ensures OpenBeforeClicks(page, clickedOpen, r.events, r.clickedOpen)
  {
    var name := CinemaName(page, i);
    var loop := ContainerLoop(page, i, |page.cinemas[i].details|, oracle, clickedOpen);
    CinemaComplete(page, i, oracle, loop.value, PurchaseClicks(loop.events));
    Traced((name, loop.value), loop.events, loop.clickedOpen)
  }

  /** The completed container loop gives the reference groups, and clicks on
      exactly the cinema's bookable items. */
  lemma {:induction false} CinemaComplete(page: DetailPage, i: nat, oracle: Oracle, groups: seq<SessionGroup>, clicks: seq<Position>)
    requires i < |page.cinemas| && GroupsMatch(page, i, |page.cinemas[i].details|, oracle, groups, clicks)
    ensures groups == ExpectedGroups(page, i, oracle)
    ensures forall p :: p in clicks <==> p.cinema == i && IsBookableAt(page, p)
  {
    assert forall p: Position :: p.cinema == i && IsBookableAt(page, p) ==> p.group < |page.cinemas[i].details|;
  }

  /** The cinema names in page order, as the traversal reads them */
  function CinemaNames(page: DetailPage): (r: seq<string>)
    ensures |r| == |page.cinemas|
  {
    seq(|page.cinemas|, i requires 0 <= i < |page.cinemas| => CinemaName(page, i))
  }

  /** The groups of every cinema in page order */
  function AllGroups(page: DetailPage, oracle: Oracle): (r: seq<seq<SessionGroup>>)
    ensures |r| == |page.cinemas|
  {
    seq(|page.cinemas|, i requires 0 <= i < |page.cinemas| => ExpectedGroups(page, i, oracle))
  }

  /** After the first `n` iterations of the cinema loop: the dict is what
      writing the groups of each of the first `n` cinemas under its name, in
      page order, leaves; the clicks are in page order and are exactly the
      bookable items of those cinemas. */
  ghost predicate CinemasMatch(page: DetailPage, n: nat, oracle: Oracle, d: ShowtimesByCinema, clicks: seq<Position>)
    requires n <= |page.cinemas|
  {
    && PyDict.HoldsLastWrites(d, CinemaNames(page)[..n], AllGroups(page, oracle)[..n])
    && InPageOrder(clicks)
    && (forall p :: p in clicks <==> p.cinema < n && IsBookableAt(page, p))
  }

  lemma {:induction false} CinemaStep(page: DetailPage, n: nat, oracle: Oracle, d: ShowtimesByCinema, clicks: seq<Position>,
                   stepClicks: seq<Position>)
    requires 0 < n <= |page.cinemas|
    requires CinemasMatch(page, n - 1, oracle, d, clicks)
    requires InPageOrder(stepClicks)
    requires forall p :: p in stepClicks <==> p.cinema == n - 1 && IsBookableAt(page, p)
    ensures CinemasMatch(page, n, oracle, PyDict.Put(d, CinemaName(page, n - 1), ExpectedGroups(page, n - 1, oracle)),
                         clicks + stepClicks)
  {
    var names, groups := CinemaNames(page), AllGroups(page, oracle);
    PyDict.PutLastWrite(d, names[..n - 1], groups[..n - 1], names[n - 1], groups[n - 1]);
    PrefixSnoc(names, n - 1);
    PrefixSnoc(groups, n - 1);
    InPageOrderAppend(clicks, stepClicks);
  }

  /** Writing the `n`-th cinema's name keeps the keys in first-appearance
      order. */
  lemma {:induction false} CinemaKeyStep(page: DetailPage, n: nat, d: ShowtimesByCinema, groups: seq<SessionGroup>)
    requires 0 < n <= |page.cinemas|
    requires PyDict.Keys(d) == PyDict.FirstOccurrences(CinemaNames(page)[..n - 1])
    ensures PyDict.Keys(PyDict.Put(d, CinemaName(page, n - 1), groups)) == PyDict.FirstOccurrences(CinemaNames(page)[..n])
  {
    var names := CinemaNames(page);
    PyDict.PutKeyOrder(d, names[..n - 1], names[n - 1], groups);
    PrefixSnoc(names, n - 1);
  }

  /** The first `n` iterations of the cinema loop of `scrape_showtimes_data`;
      a later cinema with a name already seen overwrites the earlier one's
      groups and keeps its place. */
  function CinemaLoop(page: DetailPage, n: nat, oracle: Oracle, clickedOpen: set<nat>): (r: Traced<ShowtimesByCinema>)
    requires n <= |page.cinemas|
    ensures CinemasMatch(page, n, oracle, r.value, PurchaseClicks(r.events))
    ensures PyDict.Keys(r.value) == PyDict.FirstOccurrences(CinemaNames(page)[..n])
    ensures OpenBeforeClicks(page, clickedOpen, r.events, r.clickedOpen)
    decreases n
  {
    if n == 0 then
      Traced(PyDict.Dict([]), [], clickedOpen)
    else
      var prev := CinemaLoop(page, n - 1, oracle, clickedOpen);
      var step := ParseShowtimesForCinema(page, n - 1, oracle, prev.clickedOpen);
      PurchaseClicksAppend(prev.events, step.events);
      CinemaStep(page, n, oracle, prev.value, PurchaseClicks(prev.events), PurchaseClicks(step.events));
      CinemaKeyStep(page, n, prev.value, step.value.1);
      OpenBeforeClicksThen(page, clickedOpen, prev.events, prev.clickedOpen, step.events, step.clickedOpen);
      Traced(PyDict.Put(prev.value, step.value.0, step.value.1), prev.events + step.events, step.clickedOpen)
  }

  /** `scrape_showtimes_data(page, movie_data)`: the showtimes-by-cinema dict
      of the whole detail page, starting from the page as loaded. The dict is
      what writing each cinema's groups under its trimmed name, in page
      order, leaves: one key per distinct name, in the order the names first
      appear, holding the groups of the last cinema with that name. A purchase click happens on every bookable item and no other,
      in page order. */
  function ScrapeShowtimesData(page: DetailPage, oracle: Oracle): (r: Traced<ShowtimesByCinema>)
    ensures PyDict.HoldsLastWrites(r.value, CinemaNames(page), AllGroups(page, oracle))
    ensures PyDict.Keys(r.value) == PyDict.FirstOccurrences(CinemaNames(page))
    ensures InPageOrder(PurchaseClicks(r.events))
    ensures forall p :: p in PurchaseClicks(r.events) <==> IsBookableAt(page, p)
    ensures ClicksWhileOpen(page, {}, r.events)
  {
    var names, groups := CinemaNames(page), AllGroups(page, oracle);
    assert names[..|names|] == names && groups[..|groups|] == groups;
    CinemaLoop(page, |page.cinemas|, oracle, {})
  }

  /** A group of three sessions of which the middle one is disabled: two
      entries, for the first and the third session in that order (and
      `BuildShowtimeEntry` returns exactly these showtimes). */
  lemma {:induction false} DisabledMiddleScenario(page: DetailPage, i: nat, j: nat, oracle: Oracle)
    requires ValidGroup(page, i, j) && |ItemsOf(page, i, j)| == 3
    requires IsBookable(ItemsOf(page, i, j)[0]) && !IsBookable(ItemsOf(page, i, j)[1]) && IsBookable(ItemsOf(page, i, j)[2])
    ensures var items := ItemsOf(page, i, j);
      ExpectedShowtimes(page, i, j, oracle) ==
        [[Strip(items[0].link.innerText), CapturedUrl(oracle(Position(i, j, 0)))],
         [Strip(items[2].link.innerText), CapturedUrl(oracle(Position(i, j, 2)))]]
  {
    KeptOuterOfThree(ItemsOf(page, i, j), IsBookable);
  }

  /** ... and purchase clicks on those two sessions only, in order. */
  lemma {:induction false} DisabledMiddleClicksScenario(page: DetailPage, i: nat, j: nat, oracle: Oracle, clickedOpen: set<nat>)
    requires ValidGroup(page, i, j) && |ItemsOf(page, i, j)| == 3
    requires IsBookable(ItemsOf(page, i, j)[0]) && !IsBookable(ItemsOf(page, i, j)[1]) && IsBookable(ItemsOf(page, i, j)[2])
    ensures PurchaseClicks(BuildShowtimeEntry(page, i, j, oracle, clickedOpen).events) == [Position(i, j, 0), Position(i, j, 2)]
  {
    GroupClicksInOrder(page, i, j, oracle, clickedOpen);
    OuterOfThreeClicked(ItemsOf(page, i, j), i, j, PurchaseClicks(BuildShowtimeEntry(page, i, j, oracle, clickedOpen).events));
  }

  lemma {:induction false} OuterOfThreeClicked(items: seq<SessionItem>, i: nat, j: nat, clicks: seq<Position>)
    requires |items| == 3 && IsBookable(items[0]) && !IsBookable(items[1]) && IsBookable(items[2])
    requires MatchesKept(items, IsBookable, PositionIn(i, j), clicks)
    ensures clicks == [Position(i, j, 0), Position(i, j, 2)]
  {
    KeptOuterOfThree(items, IsBookable);
    assert clicks[0] == PositionIn(i, j)(0) && clicks[1] == PositionIn(i, j)(2);
  }

  /** The purchase clicks of a group are its bookable positions, in order. */
  lemma {:induction false} GroupClicksInOrder(page: DetailPage, i: nat, j: nat, oracle: Oracle, clickedOpen: set<nat>)
    requires ValidGroup(page, i, j)
    ensures MatchesKept(ItemsOf(page, i, j), IsBookable, PositionIn(i, j),
                        PurchaseClicks(BuildShowtimeEntry(page, i, j, oracle, clickedOpen).events))
  {
    var items := ItemsOf(page, i, j);
    var n := |items|;
    assert items[..n] == items;
    var sessions := SessionLoop(page, i, j, n, oracle, clickedOpen);
    assert BuildShowtimeEntry(page, i, j, oracle, clickedOpen).events == sessions.events;
  }
}
