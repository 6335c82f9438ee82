# Bulletin board local store, in Dafny

This project models the browser-side core of a small bulletin board. It has three stores, and all of them
keep their state in the browser's `localStorage`:

- **the post store** (`lib/posts.ts`): a newest-first list of posts kept as one JSON array under
  `bulletin-board-posts`. The operations are list, add, delete one id, and delete all.
- **the admin session gate** (`lib/admin.ts`): a shared password under `admin-password`, with the default
  `admin123` when none is set, and a login flag under `admin-logged-in`.
- **the daily activity recorder** (`lib/analytics.ts`): one record per UTC day under `activity-YYYY-MM-DD`.
  Each record holds the set of authors who posted that day and the set of visitors, who are authors or
  anonymous browser fingerprints. A cleanup sweep deletes old records.

The files:

- `storage.dfy` models `localStorage` as a class, `Storage.LocalStorage`:
  - `keys` is the sequence of keys in the order `key(i)` enumerates them.
  - `items` maps each key to the value its stored string decodes to.
  - `Valid()` says the keys are distinct, match the map, and hold values of the kind their readers expect.
- `posts.dfy`, `admin.dfy` and `analytics.dfy` model the three store modules.
  - An exported function that writes to storage, or may write to it, is a method on that storage.
  - A read-only one is a function that reads it: `AdminPassword`, `IsAdminLoggedIn`, `TodayActivity`,
    `TodayActiveUsers` and `TodayPostingUsers`.
- `calendar.dfy` holds the UTC calendar. It covers the `toISOString` day name, parsing it back with
  `new Date("YYYY-MM-DD")`, and the round trip between the two.
- `strings.dfy` holds decimal digits and `String.prototype.trim`.
- `scenarios.dfy` holds whole sessions built from the store operations.

The clock is an input: every operation that reads the time takes `now`, in milliseconds since the epoch.
The browser traits that feed the fingerprint are an input too.

Where the code behaves in ways a reader may not expect, the model follows the code:

- The cleanup compares each record's UTC midnight against `now - 7 * 24h`, a rolling window. It does not
  compare calendar dates. A record from exactly seven days ago is therefore deleted unless `now` is exactly
  midnight (`Analytics.ExpiryByAge`).
- Deleting one post and deleting all posts return nothing; they do not report a boolean.
- A new post's `isPopular` is copied from the input and not set to `false`.
- The list is not sorted when read. It is newest first only because each post is put in front, so it holds
  only while the clock increases (`Posts.AddPost`, `Posts.PrependKeepsChronological`).
- The day key is the UTC date, not the local date.
- The local store has no `subscribe`.
- The store does not check authorisation: `deleteAllPosts` runs for any caller.
- The cleanup misses records, as described under Findings.

## Model

| member | source | states |
|---|---|---|
| Storage.LocalStorage.SetItem | lib/posts.ts:23 | `setItem` stores the value under the key; a new key goes after the existing keys; validity is kept |
| Storage.LocalStorage.RemoveItem | lib/analytics.ts:124 | `removeItem` removes the key and its value; the later keys move down by one, which is what makes the cleanup skip |
| Storage.EraseAt | lib/analytics.ts:124 | removing the key at index `i` of a distinct key list leaves `keys[..i] + keys[i+1..]` |
| Posts.GetPosts | lib/posts.ts:15-39 | the result is the stored list; outside a browser, or on non-empty text that does not parse, it is `[]` and nothing is written; a missing slot or an empty string is first set to `[]` (a new key is appended) |
| Posts.DefaultPosts | lib/posts.ts:84-86 | the default list is empty |
| Posts.SavePosts | lib/posts.ts:42-46 | in a browser, exactly the post key is rewritten and the next read returns the saved list; outside one nothing changes |
| Posts.AddPost | lib/posts.ts:49-67 | the new post has id and `createdAt` equal to `now`, 0 replies, 1 view and the input's fields; the list becomes `[post] + old list`; today's activity gains the author as user and visitor; no key other than the post key and today's activity key changes, and the key order becomes the old one with the post key and then today's activity key appended where new; a newest-first list stays newest first when `now` is later than every post; form-checked posts stay form-checked |
| Posts.DeletePost | lib/posts.ts:70-74 | the stored list becomes the old list without the posts with that id, the rest in order; only the post key changes, appended to the key order if new; a newest-first list stays so |
| Posts.DeleteAllPosts | lib/posts.ts:77-81 | the next read returns `[]`; only the post key changes |
| Posts.WithoutId | lib/posts.ts:72 | the filtered list contains exactly the posts whose id differs |
| Posts.WithoutIdCounts | lib/posts.ts:72 | each post with another id keeps its number of occurrences; posts with the id occur zero times |
| Posts.WithoutIdConcat | lib/posts.ts:72 | filtering a concatenation is the concatenation of the filtered parts, so relative order is kept |
| Posts.WithoutAbsentId | lib/posts.ts:72 | deleting an id that no post has changes nothing |
| Posts.WithoutIdIdempotent | lib/posts.ts:72 | deleting the same id twice is the same as deleting it once |
| Posts.WithoutIdKeepsChronological | lib/posts.ts:70-74 | deleting keeps a newest-first list newest first |
| Posts.PrependKeepsChronological | lib/posts.ts:52-60 | a post stamped later than every listed post, put in front, keeps the list newest first with ids equal to creation instants |
| Posts.ChronologicalIdsUnique | lib/posts.ts:54-55 | in a newest-first list built this way no two posts share an id |
| Posts.FormCheckSuffices | app/new-post/local-page.tsx:25-38 | the form's trim-and-non-empty check gives content and author that are non-empty and have no surrounding whitespace |
| Strings.TrimIsTrimmed | app/new-post/local-page.tsx:36-37 | `trim()` leaves no whitespace at either end, and trimming again changes nothing |
| Admin.AdminPassword | lib/admin.ts:14-21 | never empty; a stored non-empty password is returned; anything other than the default comes from storage |
| Admin.SetAdminPassword | lib/admin.ts:7-11 | afterwards the password read back is the new one, or the default if it is empty or there is no browser; the login flag is unchanged; the password key is appended to the key order if new |
| Admin.AdminLogin | lib/admin.ts:33-42 | succeeds exactly when the candidate equals the current password and then sets the flag; a success appends the flag key to the key order if new; a wrong password changes nothing; outside a browser the right password throws (None) |
| Admin.AdminLogout | lib/admin.ts:45-49 | afterwards not logged in; only the flag is removed, and the other keys keep their order; logging out twice is logging out once; the password is unchanged |
| Admin.IsAdminLoggedIn | lib/admin.ts:24-30 | never logged in outside a browser; logged in only when the flag key holds the text `true` |
| Admin.DefaultPasswordOnFreshStorage | lib/admin.ts:4 | with no password stored, the current password is `admin123` |
| Analytics.TodayKey | lib/analytics.ts:10-12 | the day name of `now` has ten characters |
| Analytics.TodayKeyNamesToday | lib/analytics.ts:10-12 | today's key has ten characters and parses back to the day of `now` |
| Analytics.TodayActivity | lib/analytics.ts:15-38 | the record is named after today; with no browser, no record, or a record that does not parse, both sets are empty |
| Analytics.SaveActivity | lib/analytics.ts:41-51 | only that day's key is written, appended to the key order if new; reading that day back gives the saved record |
| Analytics.RecordUserActivity | lib/analytics.ts:54-59 | today's record becomes the old one with the author added to users and visitors; no other key changes; today's key is appended to the key order if new |
| Analytics.RecordVisitor | lib/analytics.ts:62-69 | today's record gains the fingerprint as a visitor; users are unchanged; no other key changes; today's key is appended to the key order if new |
| Analytics.WithUserCounts | lib/analytics.ts:56-57 | each set grows by one exactly when the name is new to it; recording the same name again changes nothing |
| Analytics.PostingUsersWithinActive | lib/analytics.ts:72-81 | while today's users are among today's visitors, the posting count is at most the active count, and recording either kind of activity keeps users among visitors |
| Analytics.ToInt32 | lib/analytics.ts:104 | the 32-bit value is in the signed range, congruent to its input modulo 2^32, and equal to the input when already in range |
| Analytics.JsHashStep | lib/analytics.ts:103-104 | one `(h << 5) - h + c` step, cut to 32 bits, is the 32-bit value of `31 * h + c` |
| Analytics.HashIsWrappedPolynomial | lib/analytics.ts:100-105 | the hash equals the polynomial hash in base 31 over all code units, wrapped to 32 bits once |
| Analytics.GenerateFingerprint | lib/analytics.ts:84-108 | "server" outside a browser; otherwise `visitor_` followed by the decimal digits of the absolute hash of the traits |
| Analytics.VisitorIdCollisions | lib/analytics.ts:107 | two hashes give the same visitor id only if they are equal or opposite |
| Analytics.CleanupOldActivity | lib/analytics.ts:111-128 | as written: the key list becomes the `Sweep` of the old one; every remaining key keeps its value; every record that is not expired survives |
| Analytics.Expired | lib/analytics.ts:119-123 | only an activity key whose date parses can be expired |
| Analytics.SweepKeepsHalf | lib/analytics.ts:117-127 | `Sweep`, the keys the as-written loop leaves, is never longer than the keys it started with and keeps at least half of them rounded down, since each removal makes the loop step over the next key |
| Analytics.SweepKeepsLiveKeys | lib/analytics.ts:117-127 | the sweep invents no keys and keeps every key that is not expired |
| Analytics.SweepIsPurgeWithoutAdjacentExpired | lib/analytics.ts:117-127 | when no two expired keys are adjacent, the sweep removes exactly the expired keys |
| Analytics.SweepSkipsNeighbour | lib/analytics.ts:117-127 | the records of two consecutive days more than eight days old: the sweep leaves the second, the corrected filter leaves neither |
| Analytics.CleanupOldActivityFixed | lib/analytics.ts:111-128 | corrected: the key list becomes exactly the old keys that are not expired, in order; expired records are gone and all other keys keep their values |
| Analytics.Purge | lib/analytics.ts:110 | a key is kept exactly when it was present and is not expired |
| Analytics.TodaySurvivesCleanup | lib/analytics.ts:114-123 | today's record is never expired at the same instant |
| Analytics.ExpiryByAge | lib/analytics.ts:114-123 | a record eight or more days old is expired; one six or fewer days old is not; one exactly seven days old is expired exactly when `now` is not midnight |
| Calendar.ParseIsoDateRoundTrip | lib/analytics.ts:119-121 | `new Date` on the `YYYY-MM-DD` name of a day gives that day's midnight |
| Calendar.IsoDateInjective | lib/analytics.ts:10-12 | different days have different keys |
| Calendar.DateOfNamesDay | lib/analytics.ts:11 | the calendar date computed for a day number is that day |
| Scenarios.TwoPostsNewestFirst | lib/posts.ts:49-67 | two posts added in turn to fresh storage are listed with the second first |
| Scenarios.SameInstantDelete | lib/posts.ts:54 | two posts added at the same instant share an id, and deleting that id deletes both |
| Scenarios.SameAuthorTwice | lib/analytics.ts:54-59 | one author posting twice on one day counts once among posting users and once among active users |
| Scenarios.AdminSession | lib/admin.ts:7-49 | on fresh storage the default logs in; after a new password the default fails and the new one succeeds; logout ends the session; delete-all empties the list |

## Left out

- `lib/firebase-posts.ts`, the remote store, is not part of this model. It also holds `subscribe`, which the local store does not have.
- The UI components are left out, except the post form's trim check (`Posts.FormChecked`).
- JSON text is not modelled. A stored string is kept as the value it decodes to, and text that does not parse is one `Unparsable` value.
- A post slot whose JSON parses but is not an array is not modelled.
- In `createdAt`, the JSON reviver's conversion of strings to `Date` objects is left out. `createdAt` is kept as milliseconds.
- Posts.AddPost: the source reads the clock three times: `Date.now()` for the id, `new Date()` for `createdAt`, and `new Date()` in `getTodayKey` when `recordUserActivity` runs. The model reads it once. So `id == createdAt` always holds, and the author is recorded under the day of the post's own instant. In the source, a post made just before UTC midnight can have its author recorded under the next day.
- Analytics.GenerateFingerprint: the browser traits (user agent, language, screen size, time-zone offset, canvas data URL) are a parameter, the code units of their joined string. The canvas drawing is left out.
- Analytics.TodayActivity: the in-memory `Set` objects are modelled as set values. In-place `add` is modelled as building a new set.
- `getTodayActiveUsers` and `getTodayPostingUsers` (`Analytics.TodayActiveUsers`, `Analytics.TodayPostingUsers`) are set sizes with no contract of their own. They are covered by `Analytics.PostingUsersWithinActive` and `Scenarios.SameAuthorTwice`.
- Calendar.ParseIsoDate: only the date-only `YYYY-MM-DD` form of `new Date(s)` is modelled. Other date formats and engine-specific parsing become an Invalid Date, which is never older than the cutoff.
- The clock is limited to years 1970 to 9999. There, `toISOString` gives a four-digit year.
- Storage.LocalStorage.SetItem: a new key is placed after the existing keys. Browsers do not promise an order for `key(i)`; the cleanup's skip shows up under any order in which the next key moves into the freed index.
- Storage quota errors and concurrent tabs are left out.
- Log output (`console.error`) is left out.

## Findings

| source | as written | input that shows it | evidently intended | confidence | as-written member | corrected member |
|---|---|---|---|---|---|---|
| lib/analytics.ts:117-127 | the loop removes key `i` while walking `localStorage` by index, then `i++` passes over the key that moved into index `i` | storage whose keys are the records of two consecutive days, both more than eight days before `now`: the second record survives the cleanup | every activity record older than the cutoff is deleted (the loop should not advance after a removal) | high; not executed | Analytics.SweepSkipsNeighbour | Analytics.CleanupOldActivityFixed |
