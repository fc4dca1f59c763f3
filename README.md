# roblox-discord-watcher: a Dafny model of the watcher's state logic

The watcher reads the member list of one Roblox group and keeps the members whose group rank is at least 143. Every poll it asks Roblox where those members are, and works out who has joined or left one target place (583507031). Alerts and a live panel in a Discord channel report the result. This project models the decisions made in `index.js`. The HTTP responses are input values. The Discord messages become returned `Alert` values.

- `Roster` models `refreshGroupMembers`. The upstream pages are a sequence of responses. Pages are read until one fails or has no next cursor. The rows kept are those with a non-empty id and a rank of at least `MIN_RANK` (a missing rank counts as 0). Ids are collected in the order a JavaScript `Set` keeps them. `CollectRoster` is the loop, proved equal to the specification function `Roster`.
- `Presence` holds the spec functions of `pollPresenceOnce`, and lemmas about them: the new in-game set, the per-user alerts (`AlreadyIn`, `Joined`, `Left`), and how `lastPresence` is updated.
- `Names` models the `fetchUsername` memo as the function `FetchName`.
- `Utils` models `chunk` (a method with a loop) and `formatList`.
- `Strings` models JavaScript's `String(n)` for the numeric ids. It proves that the decimal form reads back to the same number, and that `join` keeps every element in place.
- `Watcher.WatcherState` is a class. Its fields are the module-level state of `index.js` (`watchedUserIds`, `lastPresence`, `usernameCache`, `currentlyInGame`, `initialSweepDone`). Its methods `RefreshGroupMembers`, `PollPresenceOnce` and `FetchUsername` update those fields the way the source does. `BeginSweep` is the reset `startWatcher` makes before its first poll. `Valid()` says the roster has no repeats and everyone in game has a presence record. It is an invariant every method keeps. No contract depends on it: the presence lemmas that need each user listed once (`DistinctUsers`) take that as a fact about the response, not about the roster.

Roblox ids (`userId`, `id`, `placeId`) are JSON numbers, so they are modelled as `nat`. For such an id, `String(x)` is `Strings.NatToString` (see "## Left out" for the range where this holds). A status is ok when it is in 200..299, as `Response.ok` is.

The watcher could be expected to behave in some ways that `index.js` does not. The model follows the code:
- There is no retry, no backoff with jitter, and no follow-up refresh when the roster comes back empty. A failed page just ends the refresh, and a failed poll just ends the cycle.
- A refresh whose first page fails replaces the roster with the empty list (index.js:91, 106), rather than keeping the previous one (`Roster.RosterFirstPageFails`).
- A startup sweep can report a leave. `startWatcher` resets `initialSweepDone` (index.js:263, `Watcher.WatcherState.BeginSweep`) but keeps `currentlyInGame`. So a restart sweep reports `Left` for old members who have moved away (`Presence.LeftIff`, `Presence.LeftOnRestartSweep`). The first poll after the process starts reports only `AlreadyIn` (`Presence.FirstPollOnlyAlreadyIn`).
- A user of the old set whom the response does not list leaves the in-game set silently: no `Left` is reported (`Presence.UnlistedDropped`).
- The in-game set is not kept a subset of the watched set. The set holds whoever the response lists at the target place.

## Model

| member | source | states |
|---|---|---|
| `Strings.NatToString` | index.js:100 | `String(n)` of a non-negative integer is a non-empty string of digits, one digit long exactly when n < 10, with a leading '0' only for 0 |
| `Strings.DecimalRoundTrip` | index.js:218-219 | reading back the digits that `String(n)` wrote gives n again |
| `Strings.NatToStringInjective` | index.js:222 | two ids print the same exactly when they are equal, so comparing printed place ids compares the ids |
| `Strings.JoinLength` | index.js:119 | `join(sep)` of a non-empty list is as long as its elements plus one separator between each two |
| `Strings.JoinElementAt` | index.js:119 | every element i of a joined list appears unchanged at its offset (the lengths before it plus i separators) |
| `Strings.JoinSeparatorAt` | index.js:119 | right after element i of a joined list, when another element follows, stands exactly the separator |
| `Utils.Chunk` | index.js:111-115 | with n > 0 (or nothing to split) the batches concatenate back to the input; each is non-empty and at most n long; all but the last are exactly n long |
| `Utils.FormatListTruncated` | index.js:117-121 | a list longer than max prints as the first max names joined by ", " and then ", +k more", where k reads back as the number of names left out |
| `Utils.FormatListShows` | index.js:117-121 | each of the first max names is printed unchanged at its place in the joined list, whether or not the list is truncated |
| `Roster.ReadCount` | index.js:85-105 | the pages whose rows are read are a prefix of the responses. All of them succeeded, all but the last had a next cursor, and the next response (if any) failed or was never asked for |
| `Roster.AddQualifying` | index.js:98-102 | the row loop adds each non-empty id with rank (0 when missing) of at least MIN_RANK once, in first-seen order |
| `Roster.CollectRoster` | index.js:83-105 | the page loop returns exactly `Roster(pages)`: qualifying ids of the read pages, repeats dropped |
| `Roster.DedupElements` | index.js:101 | adding to a Set in order keeps exactly the elements added |
| `Roster.DedupNoDup` | index.js:101 | the Set's iteration order has no repeats |
| `Roster.RosterExact` | index.js:98-106 | after a refresh the roster has no repeats and holds exactly each non-empty id whose row, in a page that was read, has rank (0 when missing) of at least MIN_RANK |
| `Roster.RosterFirstPageFails` | index.js:89-106 | when the first page fails, the roster becomes empty |
| `Roster.RosterStops` | index.js:89-96 | a failed page ends the refresh and the pages before it are kept; a page without a next cursor ends it and its own rows are kept (index.js:103) |
| `Watcher.WatcherState.RefreshGroupMembers` | index.js:82-109 | the roster is replaced wholesale by `Roster(pages)`, the count returned is its length, nothing else changes, `Valid()` is kept |
| `Presence.TargetPlaceDigits` | index.js:222 | the place id 583507031 printed in decimal is the target string "583507031" |
| `Presence.InTargetIff` | index.js:219-222 | a listed user is at the target exactly when its placeId is 583507031 (a missing, null or zero place id never is) |
| `Presence.NextInGameMember` | index.js:215-223 | the new in-game set is exactly the listed users whose stringified place id is the target |
| `Presence.EventsAfterSweep` | index.js:225-239 | after the sweep a listed user gets Joined iff it was not in the old set and is at the target, Left iff it was in and is not, never both, nothing when it stays at the target, and never AlreadyIn |
| `Presence.AlertsAfterSweep` | index.js:217-240 | over a whole response after the sweep: Joined goes to the new in-game users not in the old set, Left to old-set users listed somewhere else, AlreadyIn to no one |
| `Presence.AlertsSymmetricDifference` | index.js:225-226 | with each user listed once, Joined = new set minus old set, and Left = the listed part of the old set minus the new set |
| `Presence.AlertsOnSweep` | index.js:228-230 | on the sweep cycle nobody gets Joined, and a user gets AlreadyIn exactly when it is in the new in-game set |
| `Presence.AlreadyInOnce` | index.js:228-230 | on the sweep cycle, when the response lists each user once, every user in the new in-game set gets AlreadyIn exactly once and everyone else never |
| `Presence.UnlistedDropped` | index.js:245 | an old-set user missing from the response leaves the in-game set and gets no alert |
| `Presence.FirstPollOnlyAlreadyIn` | index.js:51-54 | the first poll after the process starts (empty old set, sweep not done) reports only AlreadyIn |
| `Presence.LeftIff` | index.js:225-239 | whatever the sweep flag, a user gets Left exactly when it is in the old set and some entry lists it away from the target; on a sweep cycle this is the else branch |
| `Presence.LeftOnRestartSweep` | index.js:231-239 | a concrete sweep cycle: the old set {1} and user 1 listed nowhere gives exactly [Left(1)] |
| `Presence.ApplyPresencesKeys` | index.js:242 | after the poll a user has a record exactly when it had one before or is listed; an unlisted user keeps its old record |
| `Presence.ApplyPresencesLatest` | index.js:242 | a listed user's record is the one from its last entry in the response |
| `Presence.NextInGameRecorded` | index.js:223-245 | everyone in the new in-game set has a `lastPresence` entry after the poll |
| `Presence.ThreeCycles` | index.js:217-246 | A at the target and B elsewhere gives "A already in" and {A}. Swapping them gives "A left", "B joined" and {B}. The same again gives no alerts and {B} |
| `Watcher.WatcherState.BeginSweep` | index.js:263 | the sweep flag is cleared, and the roster, records, names and in-game set are kept; `Valid()` is kept |
| `Watcher.WatcherState.PollPresenceOnce` | index.js:191-248 | with nobody watched, a network error, a 429 or a non-ok status, nothing changes and no alerts. Otherwise the outcome is that of `ApplyResponse`; `Valid()` is kept |
| `Watcher.WatcherState.ClassifyPresence` | index.js:218-240 | for one listed user the loop body computes its key, its new record, whether it is at the target, and exactly the alerts `Events` gives against the old set and flag |
| `Watcher.WatcherState.ProcessPresences` | index.js:215-243 | the loop over the listed users gives exactly `Alerts` of the old set and flag, `ApplyPresences` of the old records, and `NextInGame` of the response |
| `Watcher.WatcherState.ApplyResponse` | index.js:214-246 | the alerts are `Alerts` of the old set and flag over the response, `lastPresence` becomes `ApplyPresences` of its old value, the in-game set becomes `NextInGame`, the sweep flag is set, and `Valid()` is kept |
| `Names.ResolvedName` | index.js:74 | a non-empty displayName wins; otherwise a non-empty name; otherwise the id. It is never empty for a non-empty id |
| `Names.FetchName` | index.js:68-80 | a cache hit returns the cached name with the cache unchanged. An ok lookup stores and returns the resolved name. A failure returns the id and stores nothing. Existing entries never change, and only this id can be added |
| `Names.FetchNameStable` | index.js:69 | once an id is cached, every later call returns the stored name, whatever the lookup says |
| `Names.FailureThenSuccess` | index.js:72-79 | a failed lookup leaves the cache as it was, so a later ok lookup still fills it |
| `Watcher.WatcherState.FetchUsername` | index.js:68-80 | the returned name and the new cache are those of `FetchName` on the old cache; `Valid()` is kept |
| `Watcher.WatcherState.constructor` | index.js:48-54 | the state starts empty: no roster, no records, no names, nobody in game, sweep not done |

## Left out

- The Discord side is not modelled: the client, the panel (`ensurePanel`, `updatePanelMessage`), `sendAlert`, slash-command registration and dispatch, and `stopWatcher`. These are calls into an external library. Of `startWatcher` only its state changes are kept: the refresh (`RefreshGroupMembers`), the reset of `initialSweepDone` (`BeginSweep`) and the first poll (`PollPresenceOnce`). Its timers and messages are not modelled. `notifyChannelId` goes with them. The alert text is reduced to an `Alert` carrying the user id, and alerts are returned whether or not alerts are enabled.
- The poll calls `fetchUsername` for each alert's text and, through `updatePanelMessage`, for everyone in game. Those lookups and the cache entries they add are not modelled: in the model `PollPresenceOnce` leaves `usernameCache` alone.
- HTTP requests, URL building and JSON parsing are not modelled. Responses are input values. A body that fails to parse (which makes the source's call throw) is not represented.
- The timers (`pollTimer`, `membersTimer`, `setInterval`) are wall-clock scheduling and are not modelled. Neither is the `sleep` after a 429. The model keeps only the fact that a 429 changes nothing.
- `nowStamp`, the `storage.json` panel record and the token check are not modelled: they are clock, file and environment I/O.
- The concurrency of async code is not modelled. The source awaits inside the poll loop (name lookups, alert sends), so other handlers can run in the middle of a poll. The model runs each poll to the end as one step.
- `Watcher.WatcherState.RefreshGroupMembers`: the pages are given as a finite sequence of responses, and running out of them ends the refresh. The cursor value sent with each request is not modelled, only whether there is one. A listing that never stops returning cursors, which would make the source loop for ever, cannot be expressed.
- `Watcher.WatcherState.PollPresenceOnce`: `currentlyInGame` is a set. The insertion order of the source's `Set` is not modelled. That order decides the order of names on the panel and in the `/list` reply (index.js:370-373).
- `Strings.NatToString`: ids are taken as exact non-negative integers below 2^53. JavaScript prints numbers of 1e21 and up in exponent form (`"1e+21"`), and JSON parsing rounds integers above 2^53. Neither is modelled.
- The ids are numbers in the model. A row or presence whose `userId` or `placeId` is a JSON string or some other value is not represented.
- `Utils.Chunk` requires n > 0 or an empty input, because with n = 0 the source's loop never ends on a non-empty list.
- `Utils.FormatList` has no contract of its own, because its three cases are its body. The lemmas `Utils.FormatListTruncated` and `Utils.FormatListShows` state what its output holds.
