# Time tracker dashboard: a Dafny model

This project models the local logic of the time tracker's dashboard screen
(`src/app/page.tsx`). The screen shows the signed-in user's workdays, one page
at a time. It offers four actions: start and end the day, and start and end a
break. All time keeping happens on a remote server. What the page computes for
itself is modelled here:

- **Duration text** (`Duration`). A millisecond count is shown as
  "{h}h {m}m", truncated to whole minutes. A zero duration shows as "-".
- **Pagination** (`Pagination`). The page count is `ceil(total / limit)`. The
  count shown is at least 1. Previous is disabled on page 1 or below. Next is
  disabled on or past the last page.
- **List query** (`Query`). The page builds its query with
  `URLSearchParams.set`. `from` and `to` are added only when set; `page` and
  `limit` are always added, in that order.
- **Today's status** (`Status`). Today's entry is the first loaded workday
  whose date equals today. From it the page derives "working" and "on break".
  From those two flags it derives the four buttons' `disabled` attributes.
- **Notifications** (`Toasts`). Toasts form an ordered list. Adding puts the
  new toast at the end. A toast's timer removes every entry with its id.
- **Component state** (`Dashboard.DashboardState`). A class holding the page
  number, page size, date filters, loaded workdays, total and toasts. Its
  methods are the handlers that change that state.

Two supporting modules model JavaScript behaviour the page depends on:

- `JsValues`: optional values, truthiness of optional strings, and
  `Math.floor`, `Math.ceil`, `Math.max` and `%` on integers.
- `Decimal`: `String(n)` for integers, with a parser that reads the text back
  (used for the round-trip lemma).

Today's date and toast ids are parameters, so the model is deterministic.

Two details of the page matter for the status card and the pager:

- Today's status comes from the first loaded workday dated today
  (`workdays.find`); later records with the same date are ignored.
- The Next button compares the page with the raw `Math.ceil(total / limit)`,
  not with the count shown (floored to 1). `Pagination.NextDisabledOnLastShownPage`
  proves the two agree for every page of at least 1.

## Model

| member | source | states |
|---|---|---|
| `JsValues.Truthy` | src/app/page.tsx:69-70 | JavaScript truthiness of an optional string (`string` or `undefined`): set and non-empty. Its uses are pinned by `Query.BuildQuery` (`if (from)`, `if (to)`), `Status.IsWorkingToday` (`startTime && !endTime`) and `Status.IsOpen` (`b.start && !b.end`) |
| `JsValues.FloorDiv` | src/app/page.tsx:123 | `Math.floor(a / d)` for a positive divisor is the integer q with q·d ≤ a < q·d + d |
| `JsValues.CeilDiv` | src/app/page.tsx:320 | `Math.ceil(a / d)` for a positive divisor is the integer q with q·d − d < a ≤ q·d |
| `JsValues.TruncRem` | src/app/page.tsx:124 | JavaScript `%` keeps the dividend's sign: for a ≥ 0 it lies in 0..d−1 and equals a minus its whole multiples of d; for a < 0 it lies in −d+1..0 and equals a plus the whole multiples of d in −a |
| `JsValues.Max` | src/app/page.tsx:320 | `Math.max` is at least both arguments and equals one of them |
| `Decimal.IntToString` | src/app/page.tsx:125 | The decimal text of an integer is non-empty, all digits except a leading '-', starts with '-' exactly for negatives, and has no leading zero (a non-negative text starting with '0' is "0", a negative one never has '0' after the sign) |
| `Decimal.NatToStringRoundTrip` | src/app/page.tsx:125 | The digits of String(n) evaluate back to n |
| `Decimal.IntToStringRoundTrip` | src/app/page.tsx:125 | Parsing String(i) gives back i, for every integer |
| `Decimal.IntToStringInjective` | src/app/page.tsx:125 | Two integers have the same decimal text exactly when they are equal |
| `Duration.Hours` | src/app/page.tsx:123 | `Math.floor(ms / 3600000)`: h·3600000 ≤ ms < (h+1)·3600000, for negative durations too |
| `Duration.Minutes` | src/app/page.tsx:124 | `Math.floor((ms % 3600000) / 60000)` with the truncating `%`: m·60000 ≤ ms % 3600000 < (m+1)·60000, for negative durations too; so m is in 0..59 for ms ≥ 0 and in -60..0 for ms < 0 |
| `Duration.FormatDuration` | src/app/page.tsx:121-126 | The text is "-" exactly for a zero duration; otherwise it is "{hours}h {minutes}m" |
| `Duration.TruncatesToWholeMinutes` | src/app/page.tsx:123-125 | For ms > 0: hours ≥ 0, minutes in 0..59, and h·3600000 + m·60000 ≤ ms < h·3600000 + (m+1)·60000, so the value is truncated and never rounded |
| `Duration.FormatDurationDeterminesHoursMinutes` | src/app/page.tsx:123-125 | Two non-zero durations render alike exactly when their hours and minutes agree; only the part below one minute is lost |
| `Duration.ZeroIsPlaceholder` | src/app/page.tsx:122 | formatDuration(0) is "-", never "0h 0m" |
| `Duration.FiftyNineSecondsShowZero` | src/app/page.tsx:121-126 | formatDuration(59000) is "0h 0m" |
| `Duration.OneHourOneMinute` | src/app/page.tsx:121-126 | formatDuration(3661000) is "1h 1m" |
| `Pagination.IsPageSize` | src/app/page.tsx:264-266 | The Per Page select's options 10, 20 and 50; it is `Dashboard.DashboardState.SetLimit`'s precondition and part of `Dashboard.DashboardState.Valid` |
| `Pagination.TotalPages` | src/app/page.tsx:324 | `Math.ceil(total / limit)` is the fewest pages that hold all entries: total ≤ n·limit, and n − 1 pages are too few when n > 0 |
| `Pagination.DisplayedPageCount` | src/app/page.tsx:320 | The count shown is at least 1, holds every entry, and is 1 for an empty list; for a non-empty list it has no empty page |
| `Pagination.NextDisabledOnLastShownPage` | src/app/page.tsx:320-324 | For page ≥ 1, Next is disabled exactly when the page is at or past the count shown, although Next uses the unfloored count |
| `Pagination.PrevDisabled` | src/app/page.tsx:314 | The Previous button's `page <= 1`; its property is carried by `Pagination.PrevKeepsPagePositive` and `Dashboard.DashboardState.PrevPage` |
| `Pagination.NextDisabled` | src/app/page.tsx:324 | The Next button's `page >= Math.ceil(total / limit)`; its meaning is `Pagination.NextDisabledIffPageFull` and `Pagination.NextDisabledOnLastShownPage` |
| `Pagination.NextDisabledIffPageFull` | src/app/page.tsx:324 | For every page, Next is disabled exactly when page·limit ≥ total, both directions |
| `Pagination.NextLeadsToNonEmptyPage` | src/app/page.tsx:323-325 | When Next is enabled, page·limit < total, so the next page holds at least one entry and is within the count shown |
| `Pagination.PrevKeepsPagePositive` | src/app/page.tsx:313-315 | When Previous is enabled, the page after the decrement is still ≥ 1 |
| `Pagination.EmptyListSinglePage` | src/app/page.tsx:313-325 | With total 0 the count shown is 1, and on page 1 both Previous and Next are disabled |
| `Pagination.TwentyFiveEntriesTenPerPage` | src/app/page.tsx:313-325 | 25 entries at 10 per page: 3 pages, Next disabled on page 3 but not on page 2, Previous disabled on page 1 but not on page 2 |
| `Query.SetParam` | src/app/page.tsx:69-72 | After `qs.set(key, value)` a lookup of the key gives the value, and a key not yet present is appended at the end |
| `Query.ReplaceFirstAt` | src/app/page.tsx:69-72 | `set` on a key already present: with i the first position holding it, the pairs before i stay, position i takes the new value, later pairs with the key are dropped and the others keep their order |
| `Query.SetParamKeepsOthers` | src/app/page.tsx:69-72 | `qs.set` on one key leaves the lookup of every other key unchanged |
| `Query.SetParamTwice` | src/app/page.tsx:69-72 | Setting a key twice is the same as setting it once to the second value |
| `Query.KeyName` | src/app/page.tsx:69-72 | The literal parameter names of `qs.set("from", …)`, `"to"`, `"page"` and `"limit"`; their distinctness is `Query.KeyNameInjective` |
| `Query.Named` | src/app/page.tsx:68-72 | The pairs as `URLSearchParams` holds them: pair i is the keyed pair i with its key written as its name, so the order from, to, page, limit carries over; `Query.NamedLookup` relates its lookups to the keyed ones |
| `Query.KeyNameInjective` | src/app/page.tsx:69-72 | The four parameter names "from", "to", "page", "limit" are distinct, so each names one key |
| `Query.NamedLookup` | src/app/page.tsx:69-73 | `get` by name on the pairs with their URL names gives the same value as the lookup by key |
| `Query.BuildQuery` | src/app/page.tsx:68-72 | The query has `from` exactly when from is truthy, with its value; the same for `to`; `page` and `limit` are always present as their decimal text; keys appear in the order from, to, page, limit with no repeats |
| `Status.IsOpen` | src/app/page.tsx:142 | `b.start && !b.end` with truthiness of optional strings; `Status.HasOpenBreak` states what `some` over it computes |
| `Status.TodaysEntry` | src/app/page.tsx:135-138 | `find` returns nothing exactly when no workday is dated today; otherwise it returns the workday at the first position dated today |
| `Status.HasOpenBreak` | src/app/page.tsx:142 | `some` holds exactly when some break has a start and no end |
| `Status.IsWorkingToday` | src/app/page.tsx:141 | `todaysEntry?.startTime && !todaysEntry?.endTime`; characterised by `Status.WorkingTodayIff` |
| `Status.OnBreakToday` | src/app/page.tsx:142 | `todaysEntry?.breaks?.some(...)`; characterised by `Status.OnBreakTodayIff` |
| `Status.WorkingTodayIff` | src/app/page.tsx:140-141 | isWorkingToday holds exactly when the first workday dated today has a start time and no end time |
| `Status.OnBreakTodayIff` | src/app/page.tsx:140-142 | onBreakToday holds exactly when the first workday dated today has a break with a start and no end |
| `Status.LaterDuplicatesIgnored` | src/app/page.tsx:137 | Once some loaded workday is dated today, workdays after it never change today's entry |
| `Status.NoEntryMeansNotStarted` | src/app/page.tsx:136-142 | With no workday dated today, neither flag holds and only Start Day is enabled |
| `Status.ButtonsDisabled` | src/app/page.tsx:190-218 | The four `disabled` expressions from the two flags; stated as enabling rules by `Status.ButtonRules` and per phase by `Status.ButtonsByPhase` |
| `Status.TodaysButtons` | src/app/page.tsx:140-218 | The buttons for the loaded workdays; their relations are `Dashboard.DashboardState.StatusButtons` and `Status.ButtonsByPhase` |
| `Status.PhaseOf` | src/app/page.tsx:140-142 | The day's phase (not started, working, on break, ended) of today's entry; tied to the page's two flags by `Status.PhaseMatchesFlags` |
| `Status.PhaseMatchesFlags` | src/app/page.tsx:140-142 | Working phase exactly when working and not on break; OnBreak exactly when working and on break; NotStarted or Ended exactly when not working |
| `Status.ButtonRules` | src/app/page.tsx:188-222 | Start Day is enabled iff not working; Start Break iff working and not on break; End Break iff on break; End Day iff working |
| `Status.ButtonsByPhase` | src/app/page.tsx:188-222 | The buttons per phase of today's entry. Working: Start Break and End Day. On break: End Break and End Day. Not started or ended: Start Day, plus End Break if a break was left open |
| `Status.OpenBreakOverridesStartBreakOnly` | src/app/page.tsx:196-222 | For a started, unended day, opening a break disables Start Break and enables End Break; End Day stays enabled and Start Day stays disabled |
| `Toasts.RemoveById` | src/app/page.tsx:54 | The filter keeps no entry with the id and never lengthens the list |
| `Toasts.RemoveByIdCounts` | src/app/page.tsx:54 | Every entry with another id survives the filter as often as it occurred; entries with the id occur zero times |
| `Toasts.RemoveByIdKeepsOrder` | src/app/page.tsx:54 | The surviving entries are a subsequence of the old list, in their original order |
| `Toasts.AddThenRemoveRestores` | src/app/page.tsx:50-55 | Adding a toast with a fresh id and then running its timer's removal gives back the earlier list |
| `Toasts.RemoveAbsentId` | src/app/page.tsx:54 | Removing an id that no entry carries leaves the list unchanged |
| `Toasts.RemovalsCommute` | src/app/page.tsx:53-55 | Two toasts' timers give the same list whichever fires first |
| `Toasts.RemoveDistributes` | src/app/page.tsx:54 | Filtering a concatenation filters each part, so entries on either side of a removed one keep their order |
| `Dashboard.DashboardState.constructor` | src/app/page.tsx:37-48 | Initial state: page 1, 10 per page, no date filters, no workdays, total 0, no toasts |
| `Dashboard.DashboardState.Valid` | src/app/page.tsx:40-43 | The state invariant: page ≥ 1, the limit one of the select's options, and no empty date stored. The constructor establishes it and every handler keeps it (their `ensures Valid()`); `ShownPageCount`, `PrevNextDisabled` and `ListQuery` rely on it |
| `Dashboard.DashboardState.ShownPageCount` | src/app/page.tsx:320 | The page count shown for the state is at least 1 and holds all entries; it is 1 for an empty list, and for a non-empty list its last page holds entries, which pins it to max(1, ceil(total / limit)) |
| `Dashboard.DashboardState.PrevNextDisabled` | src/app/page.tsx:313-325 | Previous is disabled exactly on page 1; Next is disabled exactly when page·limit ≥ total, that is when no later page holds entries |
| `Dashboard.DashboardState.StatusButtons` | src/app/page.tsx:188-222 | End Day is enabled iff working; End Break iff on break; exactly one of Start Day and End Day is enabled; Start Break iff End Day is enabled and End Break is not |
| `Dashboard.DashboardState.NextPage` | src/app/page.tsx:323-325 | A click on a disabled Next changes nothing; otherwise the page goes up by one onto a page with entries; only the page changes |
| `Dashboard.DashboardState.PrevPage` | src/app/page.tsx:313-315 | A click on a disabled Previous changes nothing; otherwise the page goes down by one and stays ≥ 1; only the page changes |
| `Dashboard.DashboardState.SetLimit` | src/app/page.tsx:257-262 | Choosing one of the page sizes sets the page to 1 and the limit to the choice; nothing else changes |
| `Dashboard.DashboardState.SetFrom` | src/app/page.tsx:244 | An empty From Date input clears the filter; any other value is stored as it is; nothing else changes |
| `Dashboard.DashboardState.SetTo` | src/app/page.tsx:252 | An empty To Date input clears the filter; any other value is stored as it is; nothing else changes |
| `Dashboard.DashboardState.ListQuery` | src/app/page.tsx:68-72 | For a valid state the query carries exactly the stored date filters, with the page and limit as decimal text, in the fixed order |
| `Dashboard.DashboardState.ApplyPage` | src/app/page.tsx:74-75 | An empty response leaves no workdays and a total of 0; otherwise the response's items and total are stored |
| `Dashboard.DashboardState.AddToast` | src/app/page.tsx:50-52 | The new toast is appended after the earlier ones, which stay in order; nothing else changes |
| `Dashboard.DashboardState.RemoveToast` | src/app/page.tsx:53-55 | The toast list becomes the filter of the old list by id; nothing else changes |

## Left out

- The `api` fetch helper, the bearer token in `localStorage`, the redirect on an unauthorised response, and logout (src/app/page.tsx:18-34, 84-89, 166-174). These are network and browser I/O. The only effect modelled is that an empty response stores no items and a total of 0 (`ApplyPage`).
- The network call in `load`, its `loading` and `error` flags, and the try/catch around it (src/app/page.tsx:64-82). These are I/O plumbing. The model builds the query and stores a response.
- Missing `items` or `total` fields inside a non-empty response. Both are read as present; a missing field would be stored as `[]` or `0`.
- The re-fetch that `useEffect` triggers on a change of page, limit or dates, and the fetch of the user profile (src/app/page.tsx:84-99). These belong to the UI framework and the network.
- `call` and the toast each action response raises (src/app/page.tsx:101-119). The POST is I/O; the toast list itself is modelled.
- `formatTime`, the `toLocale*String` calls, and the one-second clock (src/app/page.tsx:58-62, 128-133). They depend on locale, timezone and timers.
- How today's date is obtained (`new Date().toISOString().split("T")[0]`, src/app/page.tsx:136). Today's date is a parameter.
- The `setTimeout` behind toast removal, and ids made from `Date.now() + Math.random()` (src/app/page.tsx:51, 53). Removal is an explicit operation; ids are natural numbers chosen by the caller.
- JSX rendering, CSS classes and the showFilters toggle. These are presentation only.
- `src/app/login/page.tsx` (login and change password). It only posts forms, writes `localStorage` and calls `alert`.
- Duration.FormatDuration: milliseconds, totals, pages and limits are integers, not JavaScript doubles. A fractional or `NaN` duration is not modelled, nor is a missing (`undefined` or `null`) `totalWorkTime` or `totalBreakTime`, which `!ms` also renders as "-". Floating-point division near 2^53 is not modelled either; for integers of realistic size, floor and ceil of a floating-point quotient are exact.
- Pagination.TotalPages: `total` is a natural number, as the server returns it. A negative total is not modelled.
- Dashboard.DashboardState.SetLimit: its argument is one of the select's options 10, 20 or 50. `Number(e.target.value)` of any other text is not modelled.
- Dashboard.DashboardState.NextPage: a click on a disabled button does nothing, which is the browser's behaviour. The model folds that guard into the method. The handler itself increments unconditionally.
- Dashboard.DashboardState.PrevPage: same as NextPage. The disabled guard is folded into the method.
- Query.BuildQuery: the URL encoding that `URLSearchParams.toString()` applies is not modelled. The query is an ordered list of key/value pairs.
