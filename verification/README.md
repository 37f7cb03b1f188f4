# cine-scrapper: the data logic of the scrapers, in Dafny

cine-scrapper drives a browser over the sites of three Peruvian cinema
chains (Cineplanet, Cinepolis, UVK). Underneath the Playwright calls sit a
few loops that are pure data logic once the page is fixed. This project
models those loops as functions over immutable snapshots of the rendered
page and proves what they compute.

- **Cineplanet showtime traversal** (`CineplanetTraversal`). The scraper walks
  cinemas, then the sessions-details groups of each cinema, then the session
  items of each group. It looks every element up again by index after each
  trip to a purchase page.
  - It skips disabled items without clicking them.
  - Every other item becomes `[time, url]`. The URL is `"Error"` when the trip
    timed out, and the trip always ends by going back.
  - The groups go into a dict keyed by cinema name, where a later cinema with
    the same name overwrites an earlier one.
  - The site's answer to each purchase click is a parameter: an oracle from
    position to `Navigation`.
  - The model keeps a trace of browser events, so that "no click on a disabled
    item" and "always goes back" can be stated.
- **Cineplanet output** (`CineplanetOutput`):
  - the rows `save_excel` builds, one per showtime;
  - the chip loop that labels a movie with city, cinema and day;
  - the folder path of `create_folder`;
  - one movie of `process_movies`, end to end up to the save.
- **Positional field split** (`BrowserUtils`). `extract_general_information`
  trims the extra-info line and splits it once. It then zips the pieces with
  genre, running time and age restriction.
- **Cinepolis** (`Cinepolis`):
  - the options of a filter select, with placeholders dropped and ", Perú"
    cut from cities;
  - the substring match that picks the chosen option;
  - the three filters applied in order;
  - the showtimes builder, which writes every cinema block into one shared
    dict.
- **UVK** (`Uvk`): the cinema filter, and the details-page loop whose flag
  is reset on every iteration.

Supporting modules:

- `Text` has Python's `strip`, `in`, `find`, `split`, `join` and
  `removesuffix`. `strip` uses Python's `isspace` set.
- `PyDict` is an insertion-ordered dict. A key keeps its first position, and
  the last write to it wins.
- `Movie` is the `movie_data` record. Every key is a `Slot`, absent until
  written.
- `Seqs` says that a loop output equals the elements at the kept positions.
  It is the shared form of "append the ones that pass".
- `Dom` holds an element's rendered text and attributes.

Where the code and the design description of the system disagree, the model
follows the code:

- A failure while reading one movie's card is not skipped. `ProcessMovie`
  returns it, as the Python raises.
- The purchase trip's waits are the code's: a click, an optional
  confirmation, the URL, then the seat map.

## Model

| member | source | states |
|---|---|---|
| Text.StripSpec | scrapers/utils/browser_utils.py:21 | `strip()` leaves a contiguous slice of the text. Everything cut from either side is whitespace, and neither end of the result is whitespace. |
| Text.StripUnique | scrapers/utils/browser_utils.py:21 | Only one string is a strip of a given text in that sense, so `StripSpec` pins `Strip` down. |
| Text.StripIdempotent | scrapers/utils/browser_utils.py:21 | Helper about `str.strip`, which the scrapers apply to every text they read (the title here): a stripped text is a fixed point, so stripping it again changes nothing. |
| Text.StripOfTrimmed | scrapers/utils/browser_utils.py:21 | A text with no whitespace at either end is its own strip. |
| Text.Find | scrapers/cinepolis_scraper.py:90 | `find` gives a position where the substring occurs, with no occurrence before it; None exactly when it occurs nowhere. |
| Text.ContainsIff | scrapers/cineplanet_scraper.py:61 | `sub in s` holds exactly when `sub` occurs at some position of `s`. |
| Text.SplitPiecesLackSeparator | scrapers/utils/browser_utils.py:26 | No piece of `split(sep)` contains the separator. |
| Text.JoinSplit | scrapers/utils/browser_utils.py:26 | Joining the pieces of a split with the same separator gives the text back. |
| Text.SplitJoin | scrapers/utils/browser_utils.py:26 | Splitting a join of pieces that lack the separator's first character gives the pieces back. |
| Text.RemoveSuffix | scrapers/cinepolis_scraper.py:74 | `removesuffix` returns a prefix of the text. Adding the suffix back gives the text when it ended with the suffix; otherwise the text is unchanged. |
| PyDict.Put | scrapers/cineplanet_scraper.py:247 | `d[k] = v`: a key already present keeps its place and a new key goes last. Lookup of `k` gives `v`, every other lookup is unchanged, and keys stay distinct. |
| PyDict.Get | scrapers/cineplanet_scraper.py:243-247 | Lookup fails exactly when the key is not among the keys; otherwise it finds an entry of the dict. |
| PyDict.PutLastWrite | scrapers/cineplanet_scraper.py:243-247 | One more assignment keeps the invariant: the dict holds exactly the keys written, each with the last value written to it. |
| PyDict.PutKeyOrder | scrapers/cineplanet_scraper.py:243-247 | One more assignment keeps the keys in the order of their first write: a new key goes to the end, an existing one keeps its place. |
| PyDict.FirstOccurrencesSpec | scrapers/cineplanet_scraper.py:243-247 | The key order of a dict built by assignments holds each written key exactly once and nothing else. |
| PyDict.FirstOccurrencesOrder | scrapers/cineplanet_scraper.py:243-247 | In that key order, a key comes before another only when it was written first: some write of it precedes every write of the other. |
| PyDict.HoldsLastWritesValues | scrapers/cineplanet_scraper.py:243-248 | Every entry of such a dict is some write: a key written with that value. |
| Movie.Put | scrapers/utils/browser_utils.py:29 | `movie_data[key] = v`: that key holds `v` and every other key is as it was. |
| BrowserUtils.AssignZipped | scrapers/utils/browser_utils.py:28-29 | `zip(keys, values)` assignment: the first min(#keys, #values) keys get the value at their own position, and every other key keeps its value. |
| BrowserUtils.PositionalAssignment | scrapers/utils/browser_utils.py:24-29 | With the three fixed keys, piece 0 is the genre. Piece 1, when there is one, is the running time and piece 2 the age restriction. A key without a piece is unchanged, extra pieces are ignored, and the other keys are untouched. |
| BrowserUtils.ExtractGeneralInformation | scrapers/utils/browser_utils.py:12-33 | Succeeds exactly when title, extra info and image are all found. Otherwise it fails at the first one missing, in query order. On success it writes the trimmed title. It writes the pieces of the once-trimmed extra-info line, not trimmed again, positionally. It writes the image's `src` as is, None included. |
| BrowserUtils.ThreePieceCard | scrapers/utils/browser_utils.py:26-29 | An extra-info line made of three separator-free pieces joined by ", " gives exactly those pieces as genre, running time and age restriction. |
| BrowserUtils.TrimmedTitleKept | scrapers/utils/browser_utils.py:21 | A title without surrounding whitespace is stored unchanged. |
| BrowserUtils.MatrixCardScenario | tests/utils/test_browser_utils.py:63-112 | The test's card gives genre "Acción", running time "1h 45min", age restriction "+14." and image URL "https://www.imagen.com". |
| BrowserUtils.MatrixTitleScenario | tests/utils/test_browser_utils.py:108 | The test's card gives the title "Matrix". |
| CineplanetTraversal.Attempted | scrapers/cineplanet_scraper.py:32-47 | The waits the trip goes through are a prefix of its stages. They end at the wait that timed out, or are all of them when none did. |
| CineplanetTraversal.ClickExtractThenGoBack | scrapers/cineplanet_scraper.py:23-52 | The URL is "Error" exactly when a wait timed out; otherwise it is the landed URL, reached after the seat-map wait. The trip starts with the link click, makes exactly one purchase click, and always ends with go back and the wait for the showtimes. |
| CineplanetTraversal.ParseShowtimes | scrapers/cineplanet_scraper.py:54-77 | A disabled item gives [] and no browser action at all. A bookable item gives [trimmed link text, captured URL] and one purchase click, on that item. |
| CineplanetTraversal.VisitItem | scrapers/cineplanet_scraper.py:102-119 | One iteration yields the item's reference entry when it is bookable and nothing otherwise, and clicks it exactly when it is bookable. It first clicks the cinema accordion exactly when that accordion is closed, so the item's link is clicked with the accordion open. |
| CineplanetTraversal.TripOpenBeforeClicks | scrapers/cineplanet_scraper.py:23-52 | A purchase trip that starts inside an open accordion clicks its link there, and going back leaves no accordion clicked open. |
| CineplanetTraversal.ReplayAppend | scrapers/cineplanet_scraper.py:102-107 | Replaying two traces of browser actions one after the other: the accordions left open compose, and no link is clicked in a closed accordion in the whole trace exactly when none is in either part. |
| CineplanetTraversal.SessionLoop | scrapers/cineplanet_scraper.py:102-119 | After n iterations, the entries are the reference entries of the bookable items among the first n, in order. The purchase clicks are on exactly those items, in order, each made while the cinema's accordion is open. |
| CineplanetTraversal.SessionStep | scrapers/cineplanet_scraper.py:113-119 | One more iteration keeps that invariant: a bookable item adds its entry and its click, any other item adds nothing. |
| CineplanetTraversal.BuildShowtimeEntry | scrapers/cineplanet_scraper.py:79-125 | The group equals the loop-free reference: its three trimmed labels and one entry per bookable item, in page order. Its purchase clicks are in page order and land on exactly the group's bookable items, never inside a closed accordion. |
| CineplanetTraversal.GroupComplete | scrapers/cineplanet_scraper.py:102-119 | The completed session loop gives the reference showtimes. Its clicks are ordered and land on exactly the bookable items. |
| CineplanetTraversal.GroupShowtimes | scrapers/cineplanet_scraper.py:102-119 | A list matching the bookable items position by position is the reference showtimes list. |
| CineplanetTraversal.GroupClicksOrdered | scrapers/cineplanet_scraper.py:102-119 | The clicks of a group come in page order. |
| CineplanetTraversal.GroupClicksExact | scrapers/cineplanet_scraper.py:58-62 | A position is clicked exactly when it is a bookable item of the group. |
| CineplanetTraversal.ContainerLoop | scrapers/cineplanet_scraper.py:140-144 | After n iterations: the reference groups of the first n containers, in order, and ordered clicks on exactly their bookable items, never inside a closed accordion. |
| CineplanetTraversal.GroupStep | scrapers/cineplanet_scraper.py:140-144 | One more container keeps that invariant. |
| CineplanetTraversal.ParseShowtimesForCinema | scrapers/cineplanet_scraper.py:127-145 | Gives the cinema's trimmed name and one reference group per container, in order. Clicks are ordered and land on exactly the cinema's bookable items, never inside a closed accordion. |
| CineplanetTraversal.CinemaLoop | scrapers/cineplanet_scraper.py:243-247 | After n cinemas, the dict is what writing each cinema's groups under its name, in page order, leaves, with its keys in the order those names first appear. Clicks are ordered and land on exactly those cinemas' bookable items, never inside a closed accordion. |
| CineplanetTraversal.CinemaKeyStep | scrapers/cineplanet_scraper.py:243-247 | Writing one more cinema's groups under its name keeps the dict's keys in the order the names first appear. |
| CineplanetTraversal.CinemaStep | scrapers/cineplanet_scraper.py:243-247 | One more cinema keeps that invariant. |
| CineplanetTraversal.ScrapeShowtimesData | scrapers/cineplanet_scraper.py:238-248 | The dict has one key per distinct cinema name, in the order the names first appear on the page, holding the groups of the last cinema with that name. `save_excel` emits rows in this key order. A purchase click happens on every bookable item of the page and no other, in page order. Starting from the page as loaded, no link is clicked while its cinema's accordion is closed. |
| CineplanetTraversal.DisabledMiddleScenario | scrapers/cineplanet_scraper.py:102-119 | Three sessions with the middle one disabled give two entries: the first session's, then the third's. |
| CineplanetTraversal.DisabledMiddleClicksScenario | scrapers/cineplanet_scraper.py:58-62 | The same group gets purchase clicks on the first and third sessions only, in that order. |
| CineplanetTraversal.GroupClicksInOrder | scrapers/cineplanet_scraper.py:102-119 | A group's purchase clicks are its bookable positions, in ascending order. |
| CineplanetOutput.RowsForAppend | scrapers/cineplanet_scraper.py:176-202 | Running one row loop after another: the first error wins, otherwise the rows concatenate. |
| CineplanetOutput.Unpack | scrapers/cineplanet_scraper.py:183-202 | `hora, url = hora_url` gives the showtime's row when the list has two items. Otherwise it gives the ValueError with the list's length. |
| CineplanetOutput.ShowtimeLoop | scrapers/cineplanet_scraper.py:182-202 | The loop over a group's showtimes fails at its first non-pair; otherwise it gives one row per showtime, in order. |
| CineplanetOutput.GroupLoop | scrapers/cineplanet_scraper.py:177-202 | The same over all of a cinema's groups, group by group. |
| CineplanetOutput.CinemaRowLoop | scrapers/cineplanet_scraper.py:176-202 | The same over the dict's items, cinema by cinema. |
| CineplanetOutput.SaveExcelRows | scrapers/cineplanet_scraper.py:172-202 | A record without a title raises KeyError before any row. Otherwise the rows are one per showtime across all cinemas and groups, in nested order, and the call fails with the length of the first showtime that is not a pair. A titled record without showtimes gives no rows. |
| CineplanetOutput.ShowingOrigin | scrapers/cineplanet_scraper.py:176-182 | Every showtime the loops visit comes from some cinema, group and index of the dict. |
| CineplanetOutput.RowsCarryMovieFields | scrapers/cineplanet_scraper.py:173-201 | Saving succeeds only for a titled record. Every row repeats its title, and its genre, duration, age restriction, city and day with "" for a missing key. Its Cine is a key of the showtimes dict. |
| CineplanetOutput.SaveExcelSucceedsIffPairs | scrapers/cineplanet_scraper.py:173-183 | `save_excel` raises exactly when the record has no title or some showtime is not a two-item list. |
| CineplanetOutput.ExpectedGroupsArePairs | scrapers/cineplanet_scraper.py:75-76 | The traversal's reference groups hold only [time, url] pairs. |
| CineplanetOutput.TraversalYieldsPairs | scrapers/cineplanet_scraper.py:65-76 | The dict the traversal builds holds only pairs, so the unpacking in `save_excel` never fails on it. |
| CineplanetOutput.AssignChips | scrapers/cineplanet_scraper.py:313-323 | Chip 0's trimmed text is the city and chip 1's the cinema. With three or more chips the last one is the day. Each is left unset when there are not enough chips, and no other key changes. |
| CineplanetOutput.JoinAll | scrapers/cineplanet_scraper.py:161-163 | Joining components onto a path appends the non-empty ones in order, since `Path / ""` is the same path. |
| CineplanetOutput.CreateFolder | scrapers/cineplanet_scraper.py:157-165 | The folder is "data" followed by the non-empty slugs of city (with "-"), "cineplanet", cinema and day (with "_"), in that order. |
| CineplanetOutput.CreateFolderFull | scrapers/cineplanet_scraper.py:157-163 | With every slug non-empty the path is exactly data/city/cineplanet/cinema/day. |
| CineplanetOutput.ProcessMovie | scrapers/cineplanet_scraper.py:299-337 | One movie succeeds exactly when its card is complete; otherwise it fails at the first missing element. Its title is the trimmed card title. Genre, running time and age restriction are the pieces of the trimmed extra-info line, with a key left unset when there is no piece for it. The image URL is the image's `src`. City, cinema and day come from chips 0, 1 and the last of three or more. Its showtimes are the traversal's dict. |
| CineplanetOutput.ScrapedMovieSaves | scrapers/cineplanet_scraper.py:172-202 | A titled record holding the traversal's dict saves without error, one row per showtime. Rows carry the record's title, city and day, and a Cine that names a cinema of the page. |
| CineplanetOutput.ProcessedMovieSaves | scrapers/cineplanet_scraper.py:299-340 | End to end, a movie whose card is complete saves without error, one row per showtime. Every row carries the card's title and the chips' city and day. Its Cine is the name of a cinema of the page. |
| CineplanetOutput.FourRowsScenario | scrapers/cineplanet_scraper.py:172-202 | For a titled record, one cinema with two groups of two showtimes gives four rows: the first group's two, then the second's. |
| Cinepolis.FiltersUpTo | scrapers/cinepolis_scraper.py:67-76 | After n options, the list holds the shown text of each offered option among them, in order. |
| Cinepolis.ExtractFilters | scrapers/cinepolis_scraper.py:59-77 | Fails with the select's timeout exactly when the select never appears. Otherwise it lists every option without the placeholder, in order, with ", Perú" cut for cities and verbatim for other types. |
| Cinepolis.FiltersOmitPlaceholder | scrapers/cinepolis_scraper.py:72-75 | No listed filter contains the placeholder, even after the suffix is cut. |
| Cinepolis.FiltersAfterPlaceholder | scrapers/cinepolis_scraper.py:68-77 | A select of one placeholder followed by choices lists exactly the choices, for a type other than "ciudad". |
| Cinepolis.PyIndex | scrapers/cinepolis_scraper.py:90 | Python indexing is defined exactly for -len <= i < len. It gives element i for i >= 0, and element len + i for negative i. |
| Cinepolis.FirstMatch | scrapers/cinepolis_scraper.py:86-91 | Gives the first option whose trimmed text contains the needle, or None when none does. |
| Cinepolis.ExtractChosenFilter | scrapers/cinepolis_scraper.py:79-91 | With no options it gives None. Otherwise it raises IndexError exactly when `filters[chosen - 1]` is out of range. Else it gives the first trimmed option text containing that filter, or None when no option does. |
| Cinepolis.ChosenListedFilterFound | scrapers/cinepolis_scraper.py:96-101 | An answer within the printed list always finds an option when the options carry no surrounding whitespace. |
| Cinepolis.EarlierSupersetWins | scrapers/cinepolis_scraper.py:86-91 | Matching is by substring, so an earlier option that contains the chosen text wins over the chosen option. |
| Cinepolis.PaddedOptionNotFound | scrapers/cinepolis_scraper.py:67-91 | An only option with leading whitespace is listed as is but compared trimmed, so choosing it finds nothing. |
| Cinepolis.SelectFilter | scrapers/cinepolis_scraper.py:93-103 | A select that never appears is that select's timeout, and a select without options picks nothing. Otherwise the answer raises IndexError exactly when it is outside the listed filters, counting negative answers from the end. Else the result is the first trimmed option text that contains the listed filter chosen, or nothing when no option contains it. |
| Cinepolis.ConsistentUnique | scrapers/cinepolis_scraper.py:105-119 | Two runs of the stages that got equally far selected the same labels, since each stage sees the labels before it. |
| Cinepolis.ReadyStagePicks | scrapers/cinepolis_scraper.py:114-118 | A reachable stage selects from the page its earlier labels left. When every reachable stage is ready, it picks an option. |
| Cinepolis.ApplyFiltersCinepolis | scrapers/cinepolis_scraper.py:105-119 | On success there are three labels, for ciudad, cine and día in that order, each chosen on the page the earlier ones left. A failure is the error of the first stage that fails. When every stage is ready, all three labels are options. |
| Cinepolis.BlockShowtimes | scrapers/cinepolis_scraper.py:29-39 | One showtime per time anchor, in order: its untrimmed text and its href. |
| Cinepolis.ChildFromEnd | scrapers/cinepolis_scraper.py:23-28 | Gives the child that many places from the end of the last block that has that many children, or None when no block has. |
| Cinepolis.SharedData | scrapers/cinepolis_scraper.py:16-42 | The shared dict holds the last block's showtimes. Its language comes from the last block with a child, and its format from the last block with two. |
| Cinepolis.ScrapeCinemaBlocks | scrapers/cinepolis_scraper.py:16-42 | Always a list of exactly one dict. It holds the last block's showtimes, the language of the last block with a child and the format of the last block with two. It is empty when there are no blocks. |
| Cinepolis.SharedDictLosesEarlierBlock | scrapers/cinepolis_scraper.py:19-41 | A later block with no times erases an earlier block's showtimes. Without children it inherits the earlier block's language. |
| Cinepolis.PerCinemaData | scrapers/cinepolis_scraper.py:19-41 | Corrected builder: one dict per block, each written from that block alone. |
| Cinepolis.PerCinemaKeepsEveryBlock | scrapers/cinepolis_scraper.py:21-41 | Per block, every showtime is kept. Language and format are present exactly when that block has the children for them. |
| Cinepolis.SharedIsLastPerCinema | scrapers/cinepolis_scraper.py:40 | The shared dict's showtimes are the last block's entry of the per-block list. |
| Uvk.FilterCinemas | scrapers/uvk_scraper.py:26-39 | Keeps the cinemas that have a title whose trimmed text is not excluded, in page order. A cinema is in the result exactly when it is in the input and listed. |
| Uvk.ListedElements | scrapers/uvk_scraper.py:31-39 | An order-preserving selection holds exactly the listed cinemas of the input. |
| Uvk.FilterPreservesOrder | scrapers/uvk_scraper.py:31-39 | Two cinemas of the result appear in the input in the same order. |
| Uvk.ExcludedMiddleDropped | scrapers/uvk_scraper.py:29-38 | Of three cinemas, the middle one titled "UVK ILO" after trimming is dropped and the other two remain, in order. |
| Uvk.UntitledDropped | scrapers/uvk_scraper.py:34-35 | A cinema without a title element is never kept. |
| Uvk.ExtractInfoFromDetailsPage | scrapers/uvk_scraper.py:14-24 | As written, the genre is the trimmed first tag, the last one the reversed loop visits, and is unchanged without tags. The languages are always []. |
| Uvk.DetailsIntended | scrapers/uvk_scraper.py:14-24 | Corrected loop: the first tag visited, the last on the page, is the genre. Every later one is a language, in visiting order, and nothing else changes. |
| Uvk.DetailsIntendedKeepsEveryTag | scrapers/uvk_scraper.py:17-23 | In the corrected reading every tag shows up as the genre or as one of the languages. |
| Uvk.DetailsTwoTagsDisagree | scrapers/uvk_scraper.py:17-24 | Two tags with different texts: the code keeps no language and takes the other tag as genre, unlike the corrected reading. |

## Left out

- Browser launch, page loading, `accept_cookies` and `enter_movie_details_page`. They are Playwright I/O. The model starts from the rendered page.
- `load_all_movies` and `message_if_takes_time`. The first is a click loop that ends on live element visibility, the second asyncio timing.
- JSON and Excel writing, `mkdir`, and the file name from the title. These are file I/O. The model stops at the row list and the path components.
- `slugify` is external. It is a parameter of `CreateFolder`.
- `print_list_of_items`, `ask_user_for_input`, `apply_filters` and `load_page`. Their code is not part of this model. The operator's answer is the `choose` parameter of the Cinepolis filters.
- `scrapers/strategy_executor.py` and `scrapers/base_scraper.py`. The first is a try/except wrapper, the second an abstract stub.
- The Cinepolis `extract_general_information_cinepolis`, `prepare_scrapping`, movie loop and `scrape`. These are I/O and drivers around the modelled functions.
- The UVK `scrape` driver and `extract_showtimes`, which is an empty TODO.
- `page.select_option`. Its effect on later selects is the `Page` parameter, which maps the labels selected so far to the options a select shows. When nothing matched, the Python passes `label=None`; the model passes None on too.
- Timeout lengths: the 4000 ms select wait, the 5000 ms selector waits, and Playwright's default for `wait_for_url`. A wait is modelled only by whether it timed out.
- Going back from a purchase page is assumed to restore the detail page exactly as first loaded. The only state tracked is which accordions were clicked open.
- A failing `go_back` or return wait inside the `finally` block of `_click_extract_then_go_back` is not modelled. That raise would escape the traversal.
- Locator uniqueness is not modelled: each selector is taken to find the element the loop expects.
- CineplanetOutput.ProcessMovie: takes `self.extract_general_information(...)` at scrapers/cineplanet_scraper.py:304 to be the `extract_general_information` of scrapers/utils/browser_utils.py:12-33. The scraper base class in scrapers/base_scraper.py:1-9 does not define that method, and wherever it is defined is not part of this model. The reading follows the method of the same signature and behaviour that tests/test_base_scraper.py:121-167 exercises.
- Writes to `movie_data` made before an exception are not modelled. A failing step returns its error and no partial record.
- Cinepolis.SharedData: the key insertion order of the shared dict is not modelled. Each key is a field.

## Findings

| source | as written | input that shows it | evidently intended | confidence | as-written member | corrected member |
|---|---|---|---|---|---|---|
| scrapers/cinepolis_scraper.py:19-41 | `data = {}` is created once before the block loop and appended once after it. Every cinema block writes into the same dict. | Two blocks: the first with one time and one `.col3` child, the second with no times and no children. The result holds showtimes `[]` and the first block's language. | One dict per cinema block, created and appended inside the loop. | not executed | Cinepolis.SharedDictLosesEarlierBlock | Cinepolis.PerCinemaKeepsEveryBlock |
| scrapers/uvk_scraper.py:17-23 | `genre_added = False` sits inside the loop, so the `languages.append` branch never runs. | Two `.language-tag` elements, "Español" then "Acción". The result has genre "Español", the first tag, and languages `[]`. The corrected loop gives genre "Acción" and languages `["Español"]`. | The flag set once before the loop. The first tag visited, the last on the page, is the genre, and the rest are languages. | not executed | Uvk.DetailsTwoTagsDisagree | Uvk.DetailsIntendedKeepsEveryTag |

`Cinepolis.ScrapeCinemaBlocks` and `Uvk.ExtractInfoFromDetailsPage` model
the code as written. `Cinepolis.PerCinemaData` and `Uvk.DetailsIntended` are
the corrected definitions.
