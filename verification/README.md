# Todo page state machine, in Dafny

A model of the client-side logic of a single-page todo list (`script.js`).
The page keeps an ordered store of todo records, fetched from a remote
todo service and extended by local additions. It shows them filtered by
a case-insensitive search text and an optional date range, ten to a page,
with "previous"/"next" controls. Records are deleted after a confirmation,
and only ids of the service's own range (150 and below) are also deleted
remotely.

Modules:

- `JsStrings` (`js_strings.dfy`): the string built-ins the page uses. These
  are `toLowerCase`, `includes`, `trim` and the string comparison operators.
  The comparison is proved to be a strict total order.
- `JsArrays` (`js_arrays.dfy`): `filter`, `find` and `slice`, including
  `slice`'s handling of negative and out-of-range arguments.
- `Todos` (`todos.dfy`): the service's entry and the store's record.
- `IsoDates` (`iso_dates.dfy`): for "YYYY-MM-DD" strings, string order is
  calendar order. This is why the page's string comparisons work as date
  filters.
- `FilterEngine` (`filter_engine.dfy`): `renderTodos` as pure functions.
  These are the three filter stages, the page window, the page count used by
  "next", and the choice between rows and the "No tasks found." placeholder.
- `TodoApp` (`todo_app.dfy`): class `App`, holding the store, the page number
  and the filter inputs. Its methods are the page's handlers: load, add,
  delete, previous, next and the three filter inputs.

Each handler is one atomic step. Its outside inputs are parameters:

- the outcome of each network call;
- the confirmation answer;
- today's date;
- the random local id.

An empty search text or date field means "not set", as in the source.

The "next" handler (script.js:162-167) bounds the page by the page count of
the whole, unfiltered store, so under a filter it can reach a page that
shows nothing. The model keeps this and proves what it allows
(`FilterEngine.NextBoundAdmitsEmptyFilteredPage`,
`FilterEngine.ElevenRecordsOneMatch`). The add handler never checks that
its random id is unused, so the model does not require unique ids.
`TodoApp.AddKeepsIdsUnique` and `TodoApp.RemovalKeepsIdsUnique` state when
uniqueness is kept.

## Model

| member | source | states |
|---|---|---|
| `JsStrings.LowerChar` | script.js:42 | the result is never an upper-case ASCII letter; A-Z map to a-z, everything else is kept |
| `JsStrings.ToLower` | script.js:42-47 | lowering keeps the length and lowers each character in place |
| `JsStrings.ToLowerIdempotent` | script.js:42-47 | a property of the `toLowerCase` used there, not a step of the page: lowering an already lowered string changes nothing |
| `JsStrings.Includes` | script.js:47 | true exactly when the needle occurs somewhere in the text |
| `JsStrings.TrimStart` | script.js:89 | drops only leading whitespace, all of it, and keeps the rest as a suffix |
| `JsStrings.TrimEnd` | script.js:89 | drops only trailing whitespace, all of it, and keeps the rest as a prefix |
| `JsStrings.TrimBlankIff` | script.js:89-92 | the trimmed text is empty exactly when the input is all whitespace, which is when the add handler stops |
| `JsStrings.Trim` | script.js:89 | the result is the piece of the input left after cutting all whitespace before and after it; it neither starts nor ends with whitespace, so it is the only such piece |
| `JsStrings.TrimStartThenEnd` | script.js:89 | cutting leading and then trailing whitespace leaves the piece that starts where the leading whitespace ends |
| `JsStrings.LessIsLexicographic` | script.js:51-55 | `a < b` exactly when, at the first position where the strings part, `a` has run out or has the smaller character |
| `JsStrings.AtMost` | script.js:51-55 | `a <= b` exactly when the strings are equal or `a < b` |
| `JsStrings.LessIrreflexive` | script.js:51-55 | no string is less than itself |
| `JsStrings.LessTransitive` | script.js:51-55 | string `<` is transitive |
| `JsStrings.LessTrichotomy` | script.js:51-55 | of two distinct strings exactly one is less than the other |
| `JsStrings.AtMostTotalOrder` | script.js:51-55 | string `<=` is reflexive, total, antisymmetric and transitive |
| `JsArrays.Filter` | script.js:46-56 | keeps only elements satisfying the predicate, and every element that does, as an order-preserving subsequence never longer than the input; how often each is kept is `FilterCounts` |
| `JsArrays.FilterCounts` | script.js:46-56 | each value occurs in the result as often as in the input when it satisfies the predicate, and not at all otherwise |
| `JsArrays.FilterKeepsAll` | script.js:46-56 | a predicate true of every element leaves the sequence as it is |
| `JsArrays.FilterSamePredicate` | script.js:46-56 | predicates that agree everywhere give the same filtered sequence |
| `JsArrays.FilterDropsAll` | script.js:46-48 | a predicate false of every element leaves nothing |
| `JsArrays.FilterTwice` | script.js:46-56 | two filters in a row are one filter by the conjunction |
| `JsArrays.FilterPrepend` | script.js:113 | filtering a sequence with a new head keeps the head exactly when it passes |
| `JsArrays.FilterDropsOne` | script.js:145 | rejecting exactly one position shortens the sequence by exactly one |
| `JsArrays.Find` | script.js:127 | None exactly when no element satisfies the predicate; otherwise the first element that does |
| `JsArrays.Slice` | script.js:59 | for non-negative bounds, the elements from `start` up to `end` that exist; empty when `start` is past the end or not before `end` |
| `JsArrays.SliceCountsFromEnd` | script.js:59 | a negative bound counts back from the end of the sequence, and one reaching before its start means the start (as `start`) or an empty result (as `end`) |
| `IsoDates.Number` | script.js:50-56 | a digit string spells a number below ten to the power of its length |
| `IsoDates.LessAppend` | script.js:50-56 | equal-length prefixes decide string order before the rest does |
| `IsoDates.AppendDigitOrder` | script.js:50-56 | a step of `IsoDateOrder`: appending one digit to two numbers keeps their order, the last digit breaking a tie |
| `IsoDates.KeyOrder` | script.js:50-56 | a step of `IsoDateOrder`: the combined key orders dates by year, then month, then day |
| `IsoDates.DigitOrderIsNumericOrder` | script.js:50-56 | on digit strings of one length, string order and equality are numeric order and equality |
| `IsoDates.IsoDateOrder` | script.js:50-56 | on "YYYY-MM-DD" strings, `<` and equality are calendar order and equality |
| `IsoDates.IsoDateAtMost` | script.js:50-56 | on "YYYY-MM-DD" strings, `<=` is "on or before" in the calendar |
| `FilterEngine.MatchesSearchIffOccurs` | script.js:47 | a record passes the search stage exactly when the lowered search text occurs somewhere in its lowered text |
| `FilterEngine.OnOrAfter` | script.js:51 | a record passes the lower bound exactly when its date equals `from` or comes after it as a string; for ISO dates, exactly when it is on or after `from` in the calendar |
| `FilterEngine.OnOrBefore` | script.js:55 | a record passes the upper bound exactly when its date equals `to` or comes before it as a string; for ISO dates, exactly when it is on or before `to` in the calendar |
| `FilterEngine.GuardedStage` | script.js:46-56 | a stage applied only when its input is set is a filter by "unset, or passes" |
| `FilterEngine.FilteredIsConjunction` | script.js:41-56 | the three stages together are one filter by the AND of search, lower and upper bound |
| `FilterEngine.FilteredKeepsVisibleInOrder` | script.js:41-56 | the filtered sequence is an order-preserving subsequence of the store holding exactly its visible records, each as many times as the store holds it |
| `FilterEngine.ComputePage` | script.js:40-59 | at most ten records; from page 1 on, exactly the filtered records at positions `(page-1)*10` to `page*10` that exist, empty past the end |
| `FilterEngine.PageMatchesSearch` | script.js:42-48 | with a search text set, every shown record is in the store and its lowered text contains the lowered search text |
| `FilterEngine.PageWithinDates` | script.js:50-56 | every shown record is in the store, on or after `from` when set and on or before `to` when set, in string order |
| `FilterEngine.PageRecordIsVisible` | script.js:40-59 | every shown record is a store record passing every filter that is set |
| `FilterEngine.PageWithinCalendarRange` | script.js:50-56 | with ISO dates, every shown record falls on or between the chosen dates in the calendar |
| `FilterEngine.NonEmptyPageOrdersBounds` | script.js:50-56 | with both bounds set, a page that shows anything has `from <= to` |
| `FilterEngine.PageCount` | script.js:163 | the ceiling of `n / 10`: the pages hold all `n` records and the last page is not empty |
| `FilterEngine.UnfilteredPagesUpToCountAreNonEmpty` | script.js:162-167 | without filters, every page from 1 to the page count shows something, starting at record `(page-1)*10` |
| `FilterEngine.NextBoundAdmitsEmptyFilteredPage` | script.js:162-167 | when the filtered records end by the current page, the page "next" admits is empty |
| `FilterEngine.ElevenRecordsOneMatch` | script.js:162-167 | eleven records, one matching the search: two pages by the unfiltered count, page 1 shows the match, page 2 shows nothing |
| `FilterEngine.TwelveRecordsPaging` | script.js:58-59 | twelve records, no filters: page 1 is the first ten, there are two pages, page 2 is the last two |
| `FilterEngine.PrependedRecordLeadsFirstPage` | script.js:113-117 | a visible record put at the head of the store is the first record on page 1 |
| `FilterEngine.Render` | script.js:61-83 | the placeholder exactly when the page is empty; otherwise one row per record, in order, with its id, text and date |
| `TodoApp.Stamp` | script.js:26-29 | one record per fetched entry, in the service's order, with its fields kept and the date set to today |
| `TodoApp.NewRecord` | script.js:112-113 | the added record carries the local id and the trimmed text, is not completed, and is dated the chosen day or else today |
| `TodoApp.FindByIdIffPresent` | script.js:127-128 | the delete handler's lookup by id finds a record exactly when one carries the id, and the record found carries it |
| `TodoApp.LocalRecordsStayLocal` | script.js:136-142 | a record created by the add handler never needs a remote delete |
| `TodoApp.RemovalKeepsOthers` | script.js:145 | removal drops every record with the id and keeps all others in order, each as many times as before; an absent id changes nothing; with unique ids exactly one record goes |
| `TodoApp.RemovalKeepsIdsUnique` | script.js:145 | removing an id keeps ids unique |
| `TodoApp.AddKeepsIdsUnique` | script.js:112-113 | a new head record with an unused id keeps ids unique |
| `TodoApp.App.constructor` | script.js:12-13 | the page starts with an empty store on page 1 and no filters |
| `TodoApp.App.Shown` | script.js:40-59 | at most ten records, each in the store and passing every filter that is set |
| `TodoApp.App.Rendered` | script.js:61-65 | the placeholder exactly when nothing is shown |
| `TodoApp.App.Load` | script.js:17-37 | a successful fetch replaces the store with the dated entries; a failure shows an error and keeps it; the page number and the filters stay |
| `TodoApp.App.Add` | script.js:87-123 | blank text after trimming sends nothing and changes nothing; a failed create shows an error and changes nothing; a successful one puts the new record at the head and returns to page 1; the filters stay |
| `TodoApp.App.Delete` | script.js:126-152 | a remote delete is sent exactly for a present, confirmed id of 150 or below; an absent id, a declined confirmation or a failed remote delete keeps the store; otherwise every record with the id is removed; page and filters stay |
| `TodoApp.App.Prev` | script.js:155-160 | goes back one page exactly when above page 1; nothing else changes |
| `TodoApp.App.Next` | script.js:162-168 | goes on one page exactly when below the unfiltered store's page count; nothing else changes |
| `TodoApp.App.SearchInput` | script.js:171-174 | takes the new search text and returns to page 1 |
| `TodoApp.App.FromDateChange` | script.js:176-179 | takes the new lower date bound and returns to page 1 |
| `TodoApp.App.ToDateChange` | script.js:181-184 | takes the new upper date bound and returns to page 1 |

`TodoApp.App.Valid` (page number at least 1) is kept by every handler.
`TodoApp.BuyMilk` is a client of the handlers' contracts. It adds
"Buy milk" with no date on 2024-01-01, and then shows three things: the
record is dated that day, it is the first record shown on page 1 (by
`Shown`'s definition and `FilterEngine.PrependedRecordLeadsFirstPage`), and
deleting it sends nothing to the service.

## Left out

- The DOM is not modelled. This covers element lookups, `innerHTML`,
  `createElement`, the row markup and `form.reset()` clearing the add form's
  inputs. Rendering is modelled only as the choice between the placeholder
  and one row per record (`FilterEngine.Render`).
- `TodoApp.App.Rendered` treats the list as a function of the state. The
  source redraws it only after a successful load and after each state
  change, so after a failed initial load the page still shows its initial
  markup rather than the empty store's placeholder.
- `fetch`, `res.json()`, HTTP status checks and `async`/`await` are not
  modelled. Each network exchange is a parameter: the fetched list or None,
  and a success flag for create and for delete. The `limit=100` query is the
  service's business, so the model accepts a list of any length.
- The create response is taken to echo the posted body
  (`{ todo, completed: false, userId: 1 }`). The service's own reply is not
  modelled; its id is overwritten by the local id in any case.
- The loading indicator and `showError` are left out. This includes the
  message text and the four-second timeout. Handlers return only whether an
  error was shown.
- `confirm()`, `Math.random()` and `new Date()` are parameters. These are the
  confirmation answer, the local id (required to lie in 1000..100999, the
  range the expression yields) and today's date string.
- Handlers that overlap while awaiting the network are not modelled. Each
  handler is one atomic step, so the races between them are not captured.
- JsStrings.ToLower: lowers only the ASCII letters A-Z. JavaScript's
  `toLowerCase` also lowers non-ASCII letters, and can change the length of
  some strings.
- JsStrings.Less: compares characters by Unicode scalar value, while
  JavaScript compares UTF-16 code units. The two orders agree except between
  characters above U+FFFF and those from U+E000 to U+FFFF, none of which
  occur in dates.
- TodoApp.Stamp: dates every fetched entry with one `today`. The source
  reads the clock once per entry, so entries could differ only if the
  mapping crossed midnight UTC.
- Ids are not assumed unique, because the source never checks them. The add
  handler's random id can collide, and delete then removes every record with
  that id.
