# Testoria account store, in Dafny

Testoria is a browser quiz site. Its accounts live entirely in the browser's local storage. This project
models two parts of its client code and proves their properties.

**The account store `UserManager`** (auth-core.js) becomes the class `AuthCore.UserManager`. It holds:

- the registered users (`users`);
- the session copy of the logged-in user (`currentUser`);
- three ghost fields for the storage keys that mirror them: `'testoria_users'`, `'testoria_current_user'`
  and `'isLoggedIn'`.

Registration, name-and-password login, logout, recording a finished test, renaming, and granting or
revoking the admin flag are methods with `modifies this`. Each one states its whole new state. The
invariants below are proved to be preserved by every operation, conditionally in the form
`old(Valid()) ==> Valid()`, because the constructor accepts whatever storage holds. For registration the
condition also requires the new id to be fresh (`IdFresh`), because the source takes ids from the clock
and does not check them:

- `Valid()`: ids are unique, names are unique ignoring case, every history holds at most 50 entries, and the
  session copy is absent or equal to the stored record with its id.
- `Persisted()`: the storage snapshots equal the in-memory state.
- `FlagSynced()`: the `'isLoggedIn'` flag matches the session.

The password transform `hashPassword` is the browser's `btoa`. It is modelled exactly: Base64 (section 4 of
RFC 4648) over the string's code units read as Latin-1 bytes, failing on a code unit above U+00FF as `btoa`
throws. A strict decoder proves the round trip `Decode(Encode(b)) == b`, and from that the injectivity of the
stored encoding. That is what makes "login after registration succeeds exactly with the registered password"
provable.

**The profile page computations** (js/profile-core.js) become functions of the module `ProfileCore`:

- the statistics over a user's results (count, total time, achievements at 1, 5 and 10 tests);
- the `formatTime` text and its read-back;
- the buckets of `formatRelativeTime` over elapsed milliseconds;
- the per-user result filter;
- the "recent five" selection.

The module `Scenario` is a client of the store, proved from the method contracts alone. Its method
`AccountLifeCycle` starts from empty storage and chains three stages (`LoginAgain`, `SixtyTests`,
`RolesThenLogout`), each proved from the state the previous one promises:

- register "Alice";
- log in as "ALICE" with the right password, which succeeds, and with a wrong one, which fails;
- register "alice" again, which fails;
- record sixty finished tests: the counter reaches 60 and the history stops at 50;
- grant and revoke the admin flag;
- log out twice.

The helper modules are:

- `Wrappers`: `Option`, `Result` and `Outcome`.
- `Seqs`: `findIndex`, `filter`, `slice`, `reverse` and their lemmas.
- `Text`: `toLowerCase` and decimal rendering.
- `Base64`.

## Model

| member | source | states |
|---|---|---|
| AuthCore.UserManager.constructor | auth-core.js:5-14 | the user list is the saved list, or empty when the key is absent; the session is the saved session copy; storage is mirrored |
| AuthCore.UserManager.SaveUsers | auth-core.js:134-136 | the users snapshot becomes the in-memory list; nothing else changes |
| AuthCore.UserManager.Register | auth-core.js:22-52 | a name equal ignoring case to a stored one gives `DuplicateName` and changes nothing; an unencodable password gives `InvalidCharacter` and changes nothing; otherwise exactly one record (zeroed stats, empty history and achievements, encoded password, not admin) is appended, it becomes the session, storage and the logged-in flag are written, and with a fresh id the invariants are kept |
| AuthCore.UserManager.LoginByName | auth-core.js:54-87 | success exactly when some user matches by lowered name and encoded password; the session becomes the first match and is stored with the flag set; on failure the error is reported and nothing changes |
| AuthCore.LoginIndex | auth-core.js:55-62 | the first user matching both name (ignoring case) and password encoding; a failure is `InvalidCharacter` exactly when a name matches and the password cannot be encoded, otherwise `InvalidCredentials` |
| AuthCore.LoginAfterRegister | auth-core.js:22-66 | after a user with an unclaimed name is appended, a login with that name in any case resolves to the new user exactly when the password is the registered one |
| AuthCore.LoginUnderOtherName | auth-core.js:42-58 | appending a user does not change how a login under any other name resolves |
| AuthCore.UserManager.Logout | auth-core.js:94-102 | no session, both session keys removed, flag cleared, users untouched; the new state does not depend on the old session, so a second logout changes nothing |
| AuthCore.UserManager.UpdateUserStats | auth-core.js:104-128 | a no-op without a session or when the session id is not stored; otherwise only the session user's record is replaced by the recorded one, the session copy becomes that record and both are stored |
| AuthCore.Recorded | auth-core.js:109-122 | one more completed test, total time grown by the time or 0; the history is the first 50 of the full new entry followed by the old history; id, name, password, creation time, achievements, favourite category and role kept |
| AuthCore.TimeOrZero | auth-core.js:110 | `time \|\| 0`: an absent time counts as 0, a present one as itself; the same rule reads `timeSpent` at js/profile-core.js:97 |
| AuthCore.PushRecent | auth-core.js:112-122 | the new entry first, then the old history cut so that the length is `min(50, old length + 1)` |
| AuthCore.PushRecentIsTake | auth-core.js:112-122 | one recording keeps the first 50 of the new entry followed by the old history |
| AuthCore.RecordAllKeepsNewest | auth-core.js:112-122 | recording entries one after another leaves the first 50 of the entries newest first followed by the old history |
| AuthCore.HistoryCapReached | auth-core.js:120-122 | after 50 or more recordings the history holds exactly the last 50 entries, newest first |
| AuthCore.TestHistory | auth-core.js:89-92 | exactly the results with the given user id |
| AuthCore.IndexOfId | auth-core.js:107 | the first index holding the id, or -1 exactly when no record has it |
| AuthCore.UserManager.UpdateUserName | auth-core.js:146-170 | a no-op without a session; `DuplicateName` and no change when a user with another id has the name ignoring case; otherwise only the session user's name changes and the session copy is the renamed record, stored |
| AuthCore.RenameKeepsValid | auth-core.js:149-163 | a rename to a name no other id holds keeps ids and names unique and the session in sync with the renamed record |
| AuthCore.UpdateKeepsValid | auth-core.js:158-163 | replacing one record by one with the same id, a free name and a bounded history keeps the invariants and the session in sync |
| AuthCore.UserManager.IsAdmin | auth-core.js:172-185 | false when neither the argument nor a session resolves a user; true only when a stored record with that id has the flag; with unique ids, exactly then |
| AuthCore.UserManager.MakeAdmin | auth-core.js:188-209 | true exactly when the id is stored; then only that record gets the flag, it is stored, `IsAdmin` holds for it, and the session copy gets the flag only if it has the id; an unknown id changes nothing |
| AuthCore.UserManager.RemoveAdmin | auth-core.js:212-232 | true exactly when the id is stored; then only that record loses the flag, it is stored, `IsAdmin` fails for it, and the session copy loses the flag only if it has the id; an unknown id changes nothing |
| AuthCore.AdminFlagKeepsValid | auth-core.js:192-201 | setting one record's flag keeps the invariants, and the session copy with the same flag stays in sync |
| AuthCore.UserManager.GetAdmins | auth-core.js:235-238 | exactly the stored users with the flag set |
| AuthCore.Admins | auth-core.js:237 | exactly the users with the flag set |
| AuthCore.AdminsKeepOrder | auth-core.js:237 | the admins of a concatenation are the admins of each part, in order |
| AuthCore.UserManager.IsLoggedIn | auth-core.js:138-140 | true exactly when there is a session, and then equal to the stored flag when that is in sync |
| AuthCore.UserManager.GetCurrentUser | auth-core.js:142-144 | present exactly when logged in, and a stored record when the session is in sync |
| Base64.Btoa | auth-core.js:130-132 | fails exactly when a code unit is above 255; otherwise a text of length `4 * ceil(n / 3)` that decodes back to the Latin-1 bytes |
| Base64.BtoaInjective | auth-core.js:130-132 | two passwords with the same stored encoding are equal |
| Base64.DecodeEncode | auth-core.js:131 | decoding the encoding of any byte sequence gives it back |
| Base64.EncodeInjective | auth-core.js:131 | distinct byte sequences have distinct encodings |
| Text.Lower | auth-core.js:23 | same length, each character mapped to lower case |
| Text.LowerIdempotent | auth-core.js:23 | lowering twice is lowering once, so lowered names compare case-insensitively |
| Text.ParseNatToString | js/profile-core.js:195 | the decimal text of a number reads back as that number |
| ProfileCore.CurrentUserHistory | js/profile-core.js:89-93 | exactly the results of the logged-in user |
| ProfileCore.TestHistoryKeepsOrder | js/profile-core.js:91-92 | filtering by user keeps stored order: the filter of a concatenation is the concatenation of the filters |
| ProfileCore.CalculateStatistics | js/profile-core.js:95-110 | the count is the history length; the total time is the sum of the time spent with missing values as 0 (`TotalTime`), non-negative when no time is negative; the achievement count is the number of labels earned, in 0..3 |
| ProfileCore.TotalTimeConcat | js/profile-core.js:97 | the total time of a concatenation is the sum of the totals |
| ProfileCore.TotalTime | js/profile-core.js:97 | the `reduce` of the time spent, missing values counted as 0; no negative time spent gives no negative total |
| ProfileCore.Achievements | js/profile-core.js:100-103 | as many labels as thresholds among 1, 5, 10 that the count reaches, at most three |
| ProfileCore.AchievementsMonotone | js/profile-core.js:100-108 | achievements for fewer tests are a prefix of those for more |
| ProfileCore.StatisticsAfterOneMore | js/profile-core.js:95-110 | one more result adds one test and its time, and never lowers the achievement count |
| ProfileCore.JsRemainder | js/profile-core.js:194 | JavaScript's truncating `%`: the dividend minus the remainder is a multiple of the divisor, the remainder is strictly within the divisor and has the sign of the dividend (so it is Dafny's `%` for a non-negative dividend) |
| ProfileCore.TimeParts | js/profile-core.js:193-194 | hours and minutes with minutes in 0..59 that bracket the duration to the minute; hours positive exactly from 3600 seconds |
| ProfileCore.ParseHoursAndMinutes | js/profile-core.js:195 | a text "<h>ч <m>м" reads back as its two numbers |
| ProfileCore.ParseMinutesOnly | js/profile-core.js:195 | a text "<m>м" reads back as no hours and its minutes |
| ProfileCore.TimeTextRoundTrip | js/profile-core.js:195 | the text for non-negative hours and minutes reads back as them, and has the hours mark exactly when the hours are positive |
| ProfileCore.FormatTime | js/profile-core.js:192-196 | under an hour the text is the decimal whole minutes then "м"; from an hour on it is the decimal whole hours, "ч ", the decimal minutes left over, then "м"; for any non-negative duration it reads back as its hours and minutes (`TimeParts`) and shows the hours mark exactly for durations of at least an hour |
| ProfileCore.NestedFloors | js/profile-core.js:202-204 | flooring minutes to hours and hours to days equals flooring the milliseconds directly |
| ProfileCore.RelativeBucket | js/profile-core.js:198-211 | exactly one branch fires for each elapsed time, with the shown number in 1..59, 1..23 or 1..6 |
| ProfileCore.FormatRelativeTime | js/profile-core.js:198-211 | the text for each range of elapsed time: "только что" under a minute, then the elapsed time floored directly to whole minutes, hours or days with its unit, and the localised date from a week on |
| ProfileCore.RecentTests | js/profile-core.js:146 | `min(5, n)` results, the first five in reverse order, a permutation of them |

## Left out

- Browser storage and `JSON.parse`/`JSON.stringify` are not modelled. Ghost snapshot fields stand in for the three keys. Records read from storage are assumed to be well-formed users.
- The constructor does not read `'isLoggedIn'`, so the flag can disagree with the loaded session. For that reason the constructor only establishes `Persisted()`, and `FlagSynced()` is kept conditionally.
- The `console.log` calls are not modelled.
- The `window.authHeaderManager.updateHeader()` hooks are treated as a notification with no effect on the store.
- The redirect `setTimeout` and `window.location` calls in `loginByName` are not modelled.
- `Date.now()` ids and `new Date().toISOString()` timestamps are method parameters.
- AuthCore.UserManager.Register: ids are not guaranteed unique by the source, so its invariant preservation is stated under the assumption that the id is fresh.
- Text.Lower: it lower-cases only Latin A-Z and the Cyrillic capitals U+0400..U+042F. Every other character is unchanged, unlike the full Unicode case mapping of `toLowerCase`.
- JavaScript objects are shared by reference: after a login, `currentUser` is the same object as a stored record. The model uses values. While ids are unique, the session copy equals the record with its id, so both give the same states.
- `setCurrentUser` (auth-core.js:15-18) writes a different key, `'currentUser'`, than every other method. Nothing shown calls it, so it is not modelled.
- `getUsers` (auth-core.js:19-21) only returns `users` and is inlined.
- The `result` object of a test is kept as an opaque label string.
- A record without an `isAdmin` field reads as `false`.
- The theme switcher (auth-core.js:264-313), `updateHeaderAuthState` and the storage and page-load listeners (auth-core.js:242-338) are not modelled. Neither are the header and alert scripts (auth-header.js, js/custom-alerts.js). All of them are DOM wiring.
- The DOM methods of `ProfileManager` are not modelled: `init`, event wiring, tabs, `loadProfileData`, `loadHistory`, the `innerHTML` templates and the confirm-then-logout. Only the values those templates show are modelled.
- `ProfileManager.updateUserName` (js/profile-core.js:165-182) is not modelled. It passes the user's id as the first argument of `UserManager.updateUserName`, which takes the new name as its only parameter. `UserManager.updateUserName` is modelled by its own signature.
- ProfileCore.FormatRelativeTime: the elapsed time is taken as an integer number of milliseconds, and the localised date text of the last branch as a string parameter. Date parsing and `toLocaleDateString` are not modelled.
- ProfileCore.TimeParts: JavaScript numbers are floating point and the model uses integers, so fractional seconds, `NaN` and precision loss are not modelled. The same holds for the test time `TestData.time` and the running `Stats.totalTime` in AuthCore (auth-core.js:110, 117), and for `timeSpent` in ProfileCore.TotalTime.
- Writes to the storage keys from another browser tab are not modelled. `Persisted()` assumes that this instance is the only writer.
- AuthCore.UserManager.IsAdmin: the code reads the in-memory list through `getUsers()`, not the storage key, and the model follows the code. While `Persisted()` holds the two are the same.
- `notificationsEnabled`, `setNotificationPreference` and the seeding of default accounts are not modelled. They belong to other versions of the store and do not appear in auth-core.js.
