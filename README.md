# Environmental news aggregator: the EWG scraping pipeline in Dafny

This project models the logic of `app.py`, the Streamlit page that gathers
recent press releases of the Environmental Working Group (EWG) and keeps a
list of favourites. The modelled parts are:

- **The scraper** (`scrape_ewg`). The fetched listing page is given as a
  status code plus its `wrapper` blocks. Each block is reduced to the text of
  its `<time>` element, its anchors (optional `href`, text) in document order
  and its optional `<img>`. For each block the scraper works out:
  - the image address, resolved against `https://www.ewg.org`;
  - the title and link of the first news-release anchor, or their sentinels;
  - the `", "`-joined topic labels, or their sentinel;
  - the release date.

  It appends a record when the date parses and lies inside the recency
  window. A 403 answer yields no records.
- **Dates.** `datetime.strptime(..., "%B %d, %Y")` with its calendar check,
  `strftime("%b %d, %Y")`, and `datetime` comparison (through the day
  ordinal and calendar order).
- **The recency window.** A date is kept when it is at or after the start
  of the script run in which Search is pressed, minus two weeks. Streamlit
  re-runs `app.py` on every interaction, so that start is read afresh each time.
  The boundary keeps that start's time of day.
- **The Search handler.** It resets the feed and adds the scrape when the EWG
  checkbox is on. It then sorts the feed by date, latest first, stably.
- **The favourites.** The saved test is `any` over links. The star button
  removes every saved entry with that link or appends the article.

Modules follow the program's layers:
- `Text`: `strip`, substring tests, `join`.
- `Dates`: the calendar, parsing and formatting.
- `Ewg`: the scraper.
- `Feed`: the stable descending sort.
- `Favourites`: the saved list.
- `App`: the session state with its Search and toggle operations.
- `Wrappers`: the `Option` type.

The loop of `scrape_ewg` is an imperative method, `Ewg.ScrapeEwg`. Its loop
body is the method `Ewg.ExtractBlock`. The method is proved against the
specification function `Ewg.Scraped`, which is built from the per-block
function `Ewg.BlockRecord`.

The session state is the class `App.SessionState`. Its fields `allArticles`
and `savedArticles` are reassigned by `Search` and `ToggleSaved`, and those
methods are proved against `App.SearchFeed` and `Favourites.Toggled`.

`list.sort(key=..., reverse=True)` is a library call. It is modelled by what
Python guarantees about it: a stable sort in descending key order. Concretely
it is an insertion sort, `Feed.SortByDateDesc`. `Feed.IsTheStableSort`
proves that any stable descending order of the same records is this one.

The page heading (app.py:84) presents the window as running from
`DATE_RANGE_START` to `DATE_RANGE_END`. The filter at app.py:70 has no upper
bound, however, so future-dated releases are kept. The model follows the
filter.

## Model

| member | source | states |
|---|---|---|
| Text.Strip | app.py:57 | The result is a slice of the input that neither starts nor ends with whitespace (Python's `isspace` set), and everything cut off on either side is whitespace |
| Text.Contains | app.py:61 | `sub in s` holds exactly when `sub` occurs at some index of `s` |
| Text.JoinSnoc | app.py:63 | Joining one more label adds the separator and that label at the end |
| Text.JoinLength | app.py:63 | The joined topic text is as long as the labels plus one separator between each neighbouring pair |
| Dates.DaysInMonth | app.py:67 | Every month has 28 to 31 days, and February has 29 exactly in leap years |
| Dates.OrdinalOrder | app.py:70 | Comparing day ordinals is comparing calendar dates: a smaller ordinal is an earlier date, and equal ordinals are the same date |
| Dates.OrdinalMonotone | app.py:70 | A date earlier in calendar order has a smaller day ordinal |
| Dates.MonthTables | app.py:67-71 | There are twelve distinct full month names and twelve distinct abbreviations, none containing a space; each abbreviation is the first three letters of its full name |
| Dates.ParseLongDate | app.py:67 | Every date the parser returns is a calendar date (year 1 to 9999, day within its month) |
| Dates.ParseLongDateExact | app.py:67 | The parser returns `d` exactly when `d` is a calendar date and the text is its full month name, a space, its day (padded or not), `", "` and its four-digit year |
| Dates.LeapDayParse | app.py:67 | `February 29, YYYY` is accepted exactly when YYYY is a leap year |
| Dates.Decimal | app.py:71 | The year's digits: nonempty, all digits, with the value of the number, and one digit exactly for numbers below ten; a positive number has no leading zero |
| Dates.DecimalFour | app.py:71 | A year from 1000 to 9999 is displayed as exactly its four digits, so the display reads `Mon DD, YYYY` |
| Dates.MakeDate | app.py:67 | The calendar check `strptime` performs: a date exactly when year, month and day form a calendar date, and then that date |
| Dates.FormatShortRoundTrip | app.py:71 | The display string reads back as the date it was made from |
| Ewg.WindowKeepsRecent | app.py:70 | A date less than fourteen days before the date of the script run is kept, and so is every later date |
| Ewg.WindowBoundaryDay | app.py:9-10 | The date exactly fourteen days back is kept exactly when the script run started at midnight |
| Ewg.WindowDropsOlder | app.py:70 | A date more than fourteen days back is dropped |
| Ewg.WindowUpwardClosed | app.py:70 | A date later in the calendar than a kept date is kept |
| Ewg.FirstNewsRelease | app.py:54 | The found anchor matches `/news-release/` and none before it does; when nothing is found, no anchor matches |
| Ewg.TitleAndLink | app.py:54-58 | With no news-release anchor the title and link are the sentinels; otherwise they are the stripped text and the site address followed by the href of the first such anchor |
| Ewg.TopicLabelsEmpty | app.py:60-62 | There is at most one label per anchor, and the list is empty exactly when no anchor's href (empty if absent) contains `/areas-focus/` |
| Ewg.TopicLabelsAppend | app.py:60-62 | Labels follow document order: the labels of two runs of anchors are the two label lists concatenated |
| Ewg.TopicTextCases | app.py:63 | The topic is `Topic not found` when no anchor is a topic link, and otherwise the labels joined by `", "` |
| Ewg.ImageUrl | app.py:55-56 | No image gives no address; a `src` starting with `/` gets the site prefix; any other `src` is kept verbatim |
| Ewg.BlockRecordContract | app.py:52-80 | A block yields a record exactly when it has a time whose stripped text parses to a date inside the window. The record holds that date, its display form (which reads back as the same date), the fixed source name, and the block's title, link, topic and image |
| Ewg.EmittedAppend | app.py:52-80 | Blocks are handled independently and in order: the records of two runs of blocks are the records of each, concatenated |
| Ewg.EmittedLength | app.py:52-80 | Each block yields at most one record |
| Ewg.EmittedFromBlocks | app.py:52-80 | Every emitted record is the record of some block |
| Ewg.EmittedInWindow | app.py:70-78 | Every emitted record has a calendar date inside the window, a display string that reads back as that date, and the EWG source name |
| Ewg.DroppedBlock | app.py:65-69 | A block without a time, or whose time does not parse, contributes nothing and does not affect the blocks after it |
| Ewg.SentinelsStillEmitted | app.py:54-80 | A block with a valid recent date but no news-release anchor still yields a record, with the title and link sentinels |
| Ewg.ScrapedFacts | app.py:42-81 | The scrape yields no more records than blocks, each dated in the window and credited to EWG |
| Ewg.ExtractBlock | app.py:53-80 | One loop iteration yields the block's record, and yields one only when the block has a time and its date is in the window |
| Ewg.ScrapeEwg | app.py:42-81 | The loop returns the records of the blocks in order. A 403 status gives none, there are at most as many records as blocks, and every record is recent and credited to EWG |
| Feed.InsertByDate | app.py:102 | Inserting into a latest-first list keeps it latest first and adds exactly the one record |
| Feed.SortByDateDesc | app.py:102 | The feed order is latest first and a permutation of its input |
| Feed.InsertKeepsDateOrder | app.py:102 | Among records of one date, the inserted record comes first and the others keep their order |
| Feed.SortKeepsDateOrder | app.py:102 | Stability: for every date, the records with that date keep their input order |
| Feed.StableSortUnique | app.py:102 | Two latest-first sequences with the same records of each date, in the same order per date, are equal |
| Feed.IsTheStableSort | app.py:102 | Any latest-first, stable reordering of the input is exactly `SortByDateDesc` of it |
| Favourites.IsSaved | app.py:110 | An article counts as saved exactly when some saved entry has an equal link |
| Favourites.WithoutLinkRemoves | app.py:134 | After filtering, no saved entry has the link |
| Favourites.WithoutLinkCounts | app.py:134 | Filtering keeps every entry with another link as often as it occurs, and none with the link |
| Favourites.WithoutLinkShorter | app.py:134 | Filtering never lengthens the list, and shortens it exactly when some entry has the link |
| Favourites.WithoutLinkAppend | app.py:134 | Filtering keeps the order of the remaining entries: it distributes over concatenation |
| Favourites.WithoutAbsentLink | app.py:134 | Filtering by a link no entry has changes nothing |
| Favourites.ToggleCases | app.py:132-136 | Toggling an unsaved article appends it at the end. Toggling a saved one removes every entry with its link, shortens the list, and keeps every other entry |
| Favourites.ToggleFlips | app.py:132-136 | The star button flips the saved state of the article's link |
| Favourites.ToggleKeepsOtherLinks | app.py:132-136 | Toggling one article leaves the saved state of every other link unchanged |
| Favourites.ToggleTwiceRestores | app.py:132-136 | Toggling an unsaved article twice restores the original list |
| App.SearchFeedFacts | app.py:98-102 | With the checkbox off, or a 403 answer, the feed is empty. Otherwise it holds exactly the scraped records, latest first, with records of one date in scrape order, all in the window and credited to EWG |
| Text.Join | app.py:63 | `", ".join`: a single label is itself; see JoinSnoc and JoinLength for longer lists |
| Dates.Ordinal | app.py:70 | The day number behind `datetime` comparison; see OrdinalOrder and OrdinalMonotone |
| Dates.FormatShort | app.py:71 | The `"%b %d, %Y"` display; see FormatShortRoundTrip |
| Ewg.WindowStart | app.py:9-10 | `DATE_RANGE_START`; see WindowKeepsRecent, WindowBoundaryDay and WindowDropsOlder |
| Ewg.InWindow | app.py:70 | The comparison `article_date >= DATE_RANGE_START`; see WindowKeepsRecent, WindowBoundaryDay, WindowDropsOlder and WindowUpwardClosed |
| Ewg.Title | app.py:57 | The title field; see TitleAndLink |
| Ewg.Link | app.py:58 | The link field; see TitleAndLink |
| Ewg.TopicLabels | app.py:61-62 | The topic-label comprehension; see TopicLabelsEmpty and TopicLabelsAppend |
| Ewg.TopicText | app.py:63 | The topic field; see TopicTextCases |
| Text.StartsWith | app.py:56 | `.startswith("/")`; see ImageUrl |
| Ewg.IsNewsRelease | app.py:54 | The `href=re.compile("/news-release/")` filter: an href is present and contains the path; see FirstNewsRelease and TitleAndLink |
| Ewg.HrefOrEmpty | app.py:61 | `link.get("href", "")`; see TopicLabelsEmpty |
| Ewg.IsTopicLink | app.py:61 | The `/areas-focus/` test on that href; see TopicLabelsEmpty and TopicTextCases |
| Ewg.BlockDate | app.py:65-67 | A missing `<time>` gives no date; otherwise its stripped text is parsed; see BlockRecordContract and DroppedBlock |
| Ewg.BlockRecord | app.py:53-80 | One block's record, if any; see BlockRecordContract |
| Ewg.Scraped | app.py:42-81 | The scrape's result; see ScrapeEwg, ScrapedFacts, EmittedAppend and DroppedBlock |
| Favourites.WithoutLink | app.py:134 | The filter comprehension; see WithoutLinkRemoves, WithoutLinkCounts, WithoutLinkShorter and WithoutLinkAppend |
| Favourites.Toggled | app.py:132-136 | The saved list after a star press; see ToggleCases, ToggleFlips, ToggleKeepsOtherLinks and ToggleTwiceRestores |
| App.SearchFeed | app.py:98-102 | The feed after a Search press; see SearchFeedFacts |
| App.SessionState.constructor | app.py:34-39 | A session starts with an empty feed and no saved articles |
| App.SessionState.Search | app.py:98-102 | Search sets the feed to the sorted scrape (empty when the checkbox is off) and leaves the saved list alone |
| App.SessionState.ToggleSaved | app.py:132-136 | The star button replaces the saved list by its toggled form, so the link's saved state flips; the feed is untouched |

## Left out

- Network I/O (`requests.get` with its URL and headers): the response is an input made of a status code plus the blocks. There is no timeout or exception handling in the code to model.
- HTML parsing (BeautifulSoup `find`/`find_all`): each block arrives with its first `<time>` text, its anchors in document order and its first `<img>` already looked up. The news-release anchor is the first anchor whose href contains `/news-release/`; the regular expression has no metacharacters, so it is a substring test.
- The wall clock (`datetime.now()`): the start of the script run in which Search is pressed is the parameter `now` of each Search, a calendar date plus a time of day in microseconds.
- Ewg.Image: an `<img>` without a `src` makes the code raise `KeyError`; the model's image always has a `src`, so that crash is not represented.
- Dates.ParseLongDate: `strptime` also accepts month names in any letter case, runs of whitespace where the format has a space, locale-dependent month names, and non-ASCII decimal digits in the day and the year (its `\d` is not restricted to ASCII and `int()` converts such digits); the model reads English month names case-sensitively, with exactly one space and `", "`, a day of one or two ASCII digits and a year of exactly four ASCII digits, the four digits being what `%Y` demands.
- Dates.FormatShort: the year is written without leading zeros, as the Linux C library does for `%Y`; years below 1000 never reach the display in practice.
- The sort algorithm itself (Timsort): the model gives the order Python guarantees, a stable descending sort, not the in-place steps.
- Streamlit rendering: page set-up, CSS, headings, checkboxes, card HTML, the golden-ratio card sizes (floating point), the saved-count button and the navigation between the main and saved views.
- Session persistence across reruns: each Streamlit rerun is modelled as a method call on one `App.SessionState` object.
