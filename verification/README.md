# Masjid Finder — a Dafny model of its prayer-schedule, moderation, editor, listing and rating rules

Masjid Finder is a React web application for finding mosques (masjids). It lists
them with their daily prayer schedules, lets visitors rate and add listings,
lets visitors ask for a schedule correction, and gives admins a console that
approves or rejects those correction requests. Most of it is UI and calls to a
hosted document store. This project models the deterministic rules underneath
as pure Dafny functions over immutable data. The clock, the store's
success or failure, the confirmation prompt and the browser's stored lists
become parameters. It proves what those rules promise.

Modules, one per concern:

- `Js` (`js.dfy`): the JavaScript built-ins the components rely on:
  - `split`;
  - `Number` on a time field;
  - `toLowerCase`;
  - `includes`;
  - `trim`;
  - `toString` and `padStart(2, "0")`;
  - `localeCompare`.
  Each comes with the facts the other modules need: split/join, the number
  round trip, and the total order of string comparison.
- `JsArray` (`jsarray.dfy`): `filter`, and `sort` with a comparator. Sort is
  modelled as a stable insertion sort, because ECMAScript requires `sort` to be
  stable. It comes with permutation and ordering lemmas.
- `Records` (`records.dfy`): the masjid document and its schedule (a map from
  prayer key to `"HH:MM"`).
- `PrayerClock` (`prayerclock.dfy`): `getCurrentPrayer`,
  `getCurrentPrayerStatus` and `formatTime12Hour` from the dashboard.
- `Dashboard` (`dashboard.dfy`): the search filter, the four sort keys, and the
  list updates for an added, edited or rated masjid.
- `Moderation` (`moderation.dfy`): the admin console:
  - `handleRequestAction`, including its per-prayer approval diff, the writes
    it makes and the busy-id set;
  - `filteredRequests`, `stats`, `toggleExpand` and `getTimeAgo`.
- `UpdateEditor` (`editor.dfy`): the correction-request editor:
  - the phone pattern;
  - the phone → edit step machine;
  - the change check and change list;
  - the stored request document.
- `AddListing` (`addlisting.dfy`): the add-masjid form: its defaults, the
  facility checkboxes, the time fields and the submission.
- `Rating` (`rating.dfy`): the rating modal: the already-rated flag with its
  prefill, the star picker and the submission, and runs of the mounted
  modal as written and with the repeated-rating fix (see "Findings").

A JavaScript exception is the `Thrown` case of `Js.Result`. For example,
`.split` on a missing prayer time, or reading a key of a missing schedule.
Every operation's error path is modelled; none is excluded by a precondition, except the add form's location test, which cannot fail (see "Left out").
The only preconditions are what the UI itself guarantees:

- the phone step's button exists only in the phone step;
- the submit button exists only in the edit step, and not on the success
  screen;
- star indices run 0..4.

Some of the editor's paths are modelled even though they cannot be reached
from the dashboard:

- The editor reads `masjid.prayerTimes[prayer]` with no optional chaining.
  For a masjid without a schedule, the change check therefore throws
  (`UpdateEditor.NoScheduleThrows`), and the default schedule the editor
  starts from is never usable.
- The dashboard opens the editor only for masjids that have a schedule
  (`src/components/MasjidDashboard.jsx` lines 529 and 858), so that path is
  not reachable from the dashboard. It is modelled as written.
- The admin's approval compares with `currentTimes?.[prayer]`.
  `UpdateEditor.ChangedKeysAgree` shows that the two readings agree whenever
  a schedule exists.

## Model

| member | source | states |
|---|---|---|
| `Js.Split` | src/components/MasjidDashboard.jsx:39 | `split(':')` yields at least one piece, no piece contains the separator, and there are two or more pieces exactly when the separator occurs |
| `Js.NumberOf` | src/components/MasjidDashboard.jsx:39 | `Number(field)` gives a number exactly when the field is all digits, and NaN otherwise |
| `Js.NatToStringRoundTrip` | src/components/MasjidDashboard.jsx:54 | the decimal text of a count reads back as the same count |
| `Js.PadStart2` | src/components/MasjidDashboard.jsx:54 | `padStart(2, '0')` keeps the text as a suffix, adds only zeros, and gives at least two characters |
| `Js.Trim` | src/components/SecurePrayerTimesEditor.jsx:29 | `trim()` is a contiguous window of the input that neither starts nor ends with white space, and everything cut off before and after it is white space |
| `Js.TrimEmptyIffBlank` | src/components/SecurePrayerTimesEditor.jsx:29 | a trimmed text is empty exactly when every character was white space |
| `Js.IncludesIffOccurs` | src/components/MasjidDashboard.jsx:240-241 | `includes` holds exactly when the needle occurs at some offset of the text |
| `Js.ToLowerIdempotent` | src/components/MasjidDashboard.jsx:240-241 | lower-casing twice is lower-casing once |
| `Js.LocaleCompare` | src/components/MasjidDashboard.jsx:257 | `localeCompare` is 0 exactly for equal strings; a negative answer means the first orders first, a positive one the second |
| `Js.LocaleCompareLe` | src/components/MasjidDashboard.jsx:257 | a comparison answers at most 0 exactly when the first string orders at or before the second |
| `JsArray.Filter` | src/components/MasjidDashboard.jsx:239 | `filter` keeps exactly the elements that satisfy the predicate and never lengthens the list |
| `JsArray.FilterConcat` | src/components/AddMasjidModal.jsx:224 | filtering distributes over concatenation, so the kept elements stay in order |
| `JsArray.SortWith` | src/components/MasjidDashboard.jsx:244 | `[...list].sort(cmp)` is a permutation of the list |
| `JsArray.SortWithSorted` | src/components/MasjidDashboard.jsx:244 | with a comparator that is a total preorder on the elements, no later element compares before an earlier one |
| `JsArray.SortWithSortedUnchanged` | src/components/MasjidDashboard.jsx:244 | sorting an already ordered list (in particular under a comparator that always answers 0) leaves it unchanged |
| `PrayerClock.ClockMinutesOfDigits` | src/components/MasjidDashboard.jsx:39-40 | a time `"HH:MM"` of digit fields reads as hours*60+minutes |
| `PrayerClock.ClockTextMinutes` | src/components/MasjidDashboard.jsx:39-40 | the two-digit text of hour h and minute m reads as h*60+m |
| `PrayerClock.ScanCurrent` | src/components/MasjidDashboard.jsx:38-47 | from index i on: the first prayer later than now is current and the one after it, wrapping, is next; if all passed the answer is Fajr then Dhuhr; it throws exactly when a missing time is reached before a later one |
| `PrayerClock.CurrentPrayer` | src/components/MasjidDashboard.jsx:26-48 | the current prayer is the first of Fajr..Isha strictly after now, next is index (k+1) mod 5 so Isha wraps to Fajr, all-passed gives Fajr then Dhuhr, and an exception happens exactly when the scan meets a missing time |
| `PrayerClock.CurrentPrayerInterval` | src/components/MasjidDashboard.jsx:38-44 | for a readable, increasing schedule and now in [time(k-1), time(k)), the current prayer is k and the next k+1 mod 5 |
| `PrayerClock.CurrentPrayerAfterIsha` | src/components/MasjidDashboard.jsx:47 | at or after Isha of an increasing schedule the result is Fajr then Dhuhr |
| `PrayerClock.Classify` | src/components/MasjidDashboard.jsx:292-299 | a prayer is upcoming exactly when 0 < diff <= 30, with timeLeft = diff, and active exactly when -15 <= diff <= 0 |
| `PrayerClock.ScanStatus` | src/components/MasjidDashboard.jsx:289-301 | from index i on, the first prayer that is upcoming or active wins; none gives null; an exception happens exactly when a missing time is reached first; every answer satisfies the status bounds |
| `PrayerClock.CurrentPrayerStatus` | src/components/MasjidDashboard.jsx:277-302 | an upcoming answer has timeLeft in 1..30 and its time is now+timeLeft; an active answer's time lies in [now-15, now]; the first hit in prayer order wins; otherwise null |
| `PrayerClock.Hour12` | src/components/MasjidDashboard.jsx:53 | the printed hour is in 1..12 and agrees with the hour modulo 12 |
| `PrayerClock.FormatTime12` | src/components/MasjidDashboard.jsx:50-55 | `formatTime12Hour` throws exactly when the text has no colon (the minutes are `undefined`) |
| `PrayerClock.FormatTime12Shape` | src/components/MasjidDashboard.jsx:50-55 | on digit fields the output is the 12-hour hour, a colon, the minutes padded to two digits, and the period |
| `PrayerClock.Text12Edges` | src/components/MasjidDashboard.jsx:52-53 | hour 0 prints as 12 AM, hour 12 as 12 PM, and the period is PM exactly from hour 12 on |
| `PrayerClock.Text12RoundTrip` | src/components/MasjidDashboard.jsx:52-54 | the 12-hour text of a time of day reads back as the same minute of the day |
| `PrayerClock.FormatTime12RoundTrip` | src/components/MasjidDashboard.jsx:50-55 | reading the output of `formatTime12Hour` as a 12-hour time gives back the minute that the 24-hour text stands for |
| `Dashboard.Search` | src/components/MasjidDashboard.jsx:239-242 | the search keeps exactly the masjids whose lower-cased name or address contains the lower-cased query |
| `Dashboard.SearchEmptyKeepsAll` | src/components/MasjidDashboard.jsx:239-242 | an empty query keeps every masjid, in order |
| `Dashboard.SearchIgnoresQueryCase` | src/components/MasjidDashboard.jsx:240-241 | searching for the lower-cased query gives the same list as the query |
| `Dashboard.SearchHitHasOccurrence` | src/components/MasjidDashboard.jsx:240-241 | a kept masjid has the query at some offset of its lower-cased name or address |
| `Dashboard.SortMasjids` | src/components/MasjidDashboard.jsx:244-266 | every sort choice yields a permutation of the filtered list |
| `Dashboard.SortByRatingDescending` | src/components/MasjidDashboard.jsx:250-251 | sorting by rating puts higher ratings first, a missing rating counting as 0 |
| `Dashboard.SortByNameAscending` | src/components/MasjidDashboard.jsx:260-261 | sorting by name orders the names by `localeCompare` |
| `Dashboard.PrayerTimeCompare` | src/components/MasjidDashboard.jsx:253-257 | between two scheduled masjids the prayer-time comparator answers at most 0 exactly when the first time (missing or empty read as "00:00") orders first |
| `Dashboard.SortByPrayerTimeAscending` | src/components/MasjidDashboard.jsx:253-258 | when every masjid has a schedule, sorting by prayer time orders the selected prayer's times ascending, a missing time reading as "00:00" |
| `Dashboard.SortByDistanceAscending` | src/components/MasjidDashboard.jsx:246-248 | with a user location, nearer masjids come first |
| `Dashboard.SortWithoutKeyUnchanged` | src/components/MasjidDashboard.jsx:244-266 | distance sorting without a location, or an unknown sort key, leaves the order unchanged |
| `Dashboard.ReplaceById` | src/components/MasjidDashboard.jsx:232 | the edited masjid replaces exactly the entries with its id; the length and every other entry are unchanged |
| `Dashboard.ReplaceByIdKeepsIds` | src/components/MasjidDashboard.jsx:232 | the id list is unchanged, and replacing twice is replacing once |
| `Dashboard.UpdateMasjid` | src/components/MasjidDashboard.jsx:231-237 | the open detail view takes the edited masjid only when it shows the same id; the sync status becomes "synced" |
| `Dashboard.ApplyRating` | src/components/MasjidDashboard.jsx:1047-1058 | only entries with the rated id change: they take the rating and one more review, a missing count reading as 0 |
| `Dashboard.ApplyRatingReviews` | src/components/MasjidDashboard.jsx:1054 | the total review count grows by exactly the number of entries with that id |
| `Dashboard.AddMasjid` | src/components/MasjidDashboard.jsx:226-229 | a new listing is appended after the existing ones and the status becomes "synced" |
| `Moderation.Changed` | src/pages/AdminDashboard.jsx:93-99 | a prayer is in the diff exactly when it is requested and its time differs from the current one, a missing current schedule or time counting as different; its value is the requested time |
| `Moderation.ChangedOverCurrent` | src/pages/AdminDashboard.jsx:92-99 | writing only the changed prayers over the current schedule gives the same schedule as writing every requested time |
| `Moderation.PrayerUpdates` | src/pages/AdminDashboard.jsx:97 | the update has one `prayerTimes.<p>` field per changed prayer with its new time, and no other field |
| `Moderation.ApprovalFields` | src/pages/AdminDashboard.jsx:101-106 | the masjid update holds the changed prayers' `prayerTimes.<p>` paths, `lastUpdated` (now) and `updatedBy` ("admin"), and no other key |
| `Moderation.Find` | src/pages/AdminDashboard.jsx:77 | `find` answers nothing exactly when no request has the id, and otherwise the first request with it |
| `Moderation.MarkProcessed` | src/pages/AdminDashboard.jsx:112 | only requests with the id take the action as status and now as processing time; the length and all others are unchanged |
| `Moderation.HandleRequestAction` | src/pages/AdminDashboard.jsx:72-126 | the id is busy during the action and removed on every path, other busy ids untouched; an unknown id writes nothing and alerts failure; the request is written first; the masjid is written only for an approval with a non-empty diff; success marks the request and alerts "Approved/Rejected request for <name>"; failure leaves the list unchanged; for a found request, something is written exactly when the request save succeeds, the masjid is written exactly when that save and the masjid save succeed on an approval with changes, and the action succeeds exactly when the request save and any needed masjid save succeed |
| `Moderation.HandleRequestActionMarks` | src/pages/AdminDashboard.jsx:112 | after a successful action every request keeps its place and id, and the processed one carries the action as its status |
| `Moderation.AppliedTimes` | src/pages/AdminDashboard.jsx:96 | a masjid update's `prayerTimes.<p>` fields set those prayers' times and leave every other stored time as it was |
| `Moderation.AppliedApproval` | src/pages/AdminDashboard.jsx:92-107 | applying an approval's update to a schedule lays exactly the changed times over it; the metadata fields set no prayer |
| `Moderation.ApprovalAppliesRequest` | src/pages/AdminDashboard.jsx:72-107 | when the request was made against the masjid's stored times and both saves succeed, the masjid ends with the requested times over its own: through the update `handleRequestAction` writes, or with no write when no time differs |
| `Moderation.FilteredRequests` | src/pages/AdminDashboard.jsx:145-155 | the shown requests are a permutation of those whose status passes the chip ("all" passes every status) and which match the search on lower-cased name, raw phone or optional lower-cased reason; an empty search matches all |
| `Moderation.FilteredRequestsNewestFirst` | src/pages/AdminDashboard.jsx:155 | the shown requests are ordered by creation time, newest first |
| `Moderation.FilteredRequestsShowAll` | src/pages/AdminDashboard.jsx:145-155 | with the "all" chip and no search, a newest-first list is shown as it is |
| `Moderation.StatsOf` | src/pages/AdminDashboard.jsx:157-162 | total is the list length, and the pending, approved and rejected counters are the number of requests with exactly that status |
| `Moderation.CountStatus` | src/pages/AdminDashboard.jsx:159-161 | counting the requests that pass a status filter is counting that status among the requests' statuses |
| `Moderation.StatusPartition` | src/pages/AdminDashboard.jsx:159-161 | the three counters plus the requests of any other status add up to the total |
| `Moderation.StatsAddUp` | src/pages/AdminDashboard.jsx:157-162 | pending+approved+rejected is at most the total, with equality exactly when every status is one of the three |
| `Moderation.ToggleExpand` | src/pages/AdminDashboard.jsx:164-170 | the card collapses exactly when it was the open one, and otherwise becomes the open one |
| `Moderation.ToggleExpandTwice` | src/pages/AdminDashboard.jsx:164-170 | toggling the same card twice restores the state exactly when that card or none was open |
| `Moderation.TimeAgo` | src/pages/AdminDashboard.jsx:320-336 | a missing date gives ""; under one elapsed second gives "just now"; otherwise the first unit from year down to second that fits, with count = seconds div unit size and "s" added when the count exceeds 1 |
| `Moderation.FirstFitUnique` | src/pages/AdminDashboard.jsx:331-334 | the chosen unit is unique and its count is at least 1 |
| `UpdateEditor.Open` | src/components/SecurePrayerTimesEditor.jsx:6-18 | the editor opens in the phone step with the masjid's schedule, or the five default times when it has none |
| `UpdateEditor.IsValidPhoneMatches` | src/components/SecurePrayerTimesEditor.jsx:21-23 | the phone check holds exactly when the number is an optional "+" followed by 10 to 15 digits, white space, "-", "(" or ")" |
| `UpdateEditor.SubmitPhone` | src/components/SecurePrayerTimesEditor.jsx:26-64 | the step advances exactly for a non-blank valid number; a blank one gives "Please enter your phone number", an invalid one "Please enter a valid phone number", and nothing else changes |
| `UpdateEditor.BlankPhoneRejected` | src/components/SecurePrayerTimesEditor.jsx:29-37 | ten spaces pass the pattern but are refused as blank, since the blank check runs first |
| `UpdateEditor.EditTime` | src/components/SecurePrayerTimesEditor.jsx:299 | typing changes only that prayer's time, and nothing else in the editor |
| `UpdateEditor.Back` | src/components/SecurePrayerTimesEditor.jsx:350 | the Back button returns to the phone step and changes nothing else: the edits, number, reason, error and success flag are kept |
| `UpdateEditor.ChangedTimes` | src/components/SecurePrayerTimesEditor.jsx:146-150 | the list throws exactly when the masjid has no schedule and edits exist; otherwise it holds exactly the edited prayers that are new or differ |
| `UpdateEditor.HasChanges` | src/components/SecurePrayerTimesEditor.jsx:71-73 | the check throws under the same condition; otherwise it holds exactly when some edited prayer is new or differs |
| `UpdateEditor.HasChangesIffChangedTimes` | src/components/SecurePrayerTimesEditor.jsx:71-78 | the change check holds exactly when the change list is non-empty |
| `UpdateEditor.NoScheduleThrows` | src/components/SecurePrayerTimesEditor.jsx:8-14 | for a masjid without a schedule, the default times, and any edit of them, make the change check throw |
| `UpdateEditor.ChangedKeys` | src/pages/AdminDashboard.jsx:95-96 | a prayer is in the set exactly when it is edited and differs under the admin's comparison |
| `UpdateEditor.ChangedKeysAgree` | src/components/SecurePrayerTimesEditor.jsx:71-73 | with a schedule, the editor's check and list agree with the admin's diff; without one the diff is every edited prayer |
| `UpdateEditor.RequestDoc` | src/components/SecurePrayerTimesEditor.jsx:84-97 | the stored request has the masjid's id, name and schedule, the edited times, the trimmed phone and reason, status "pending" and the creation time |
| `UpdateEditor.FailureMessage` | src/components/SecurePrayerTimesEditor.jsx:133-139 | a failure message mentioning "Maximum 3 requests" shows the daily-limit text, any other the generic failure text |
| `UpdateEditor.SubmitRequest` | src/components/SecurePrayerTimesEditor.jsx:67-143 | throws exactly as the change check does; without changes nothing is stored and the "modify at least one" error shows; a request is stored exactly when there are changes and the store call succeeds; success exactly when both calls succeed; nothing else changes |
| `UpdateEditor.ApprovalOfSubmission` | src/components/SecurePrayerTimesEditor.jsx:84-97 | approving a stored request writes to that masjid the changed prayers with their requested times, and no key besides them and the metadata, and marks the request approved |
| `AddListing.Open` | src/components/AddMasjidModal.jsx:37-53 | the form starts with an empty name, address, phone, website, description and facility list, at the user's location or the fixed fallback (17.385, 78.486), with the six-prayer schedule including Jummah |
| `AddListing.ToggleFacility` | src/components/AddMasjidModal.jsx:222-225 | checking appends the facility; unchecking removes every copy of it and keeps every other facility as often as it was listed; no other field changes |
| `AddListing.UncheckAbsent` | src/components/AddMasjidModal.jsx:224 | unchecking a facility that is not listed leaves the form unchanged |
| `AddListing.UncheckDropsOccurrence` | src/components/AddMasjidModal.jsx:224 | removing the facility from `a + [f] + b` gives the same list as removing it from `a + b`, so the order around it is kept |
| `AddListing.UncheckSingle` | src/components/AddMasjidModal.jsx:224 | unchecking the only copy of a facility leaves exactly the other facilities in their order |
| `AddListing.ClickFacility` | src/components/AddMasjidModal.jsx:221-225 | a click flips whether the facility is listed and leaves every other facility's membership alone |
| `AddListing.ClickFacilityNoDuplicates` | src/components/AddMasjidModal.jsx:221-225 | clicking keeps the facility list free of duplicates |
| `AddListing.ClickListedStaysListed` | src/components/AddMasjidModal.jsx:214-228 | clicking the form's checkboxes keeps the chosen facilities among the eight it lists |
| `AddListing.ClickFacilityTwice` | src/components/AddMasjidModal.jsx:221-225 | clicking an unchecked facility twice restores the list |
| `AddListing.EditPrayerTime` | src/components/AddMasjidModal.jsx:197-201 | typing changes only that prayer's time and no other form field |
| `AddListing.NewMasjid` | src/components/AddMasjidModal.jsx:99-105 | the new record copies the form's name, address, phone, website, description, location, facilities and schedule, and sets rating 0, reviews 0, the anonymous creator id and status "active" |
| `AddListing.Submit` | src/components/AddMasjidModal.jsx:87-116 | an empty name or address is refused with the "required fields" alert; otherwise the record is saved exactly when the store call succeeds, and a failure alerts "Error adding masjid" |
| `AddListing.SavedListing` | src/components/AddMasjidModal.jsx:99-108 | a saved listing is found by searching for its own name and counts as rating 0 |
| `Rating.Retarget` | src/components/RatingModal.jsx:9-19 | the flag holds exactly when the masjid id is in the stored list; a non-zero masjid rating is prefilled when the flag was set before or after the change |
| `Rating.RetargetFromClosed` | src/components/RatingModal.jsx:15-19 | a fresh modal on a rated masjid shows its rating, and on an unrated one shows no stars |
| `Rating.SelectStar` | src/components/RatingModal.jsx:63-69 | clicking star i picks i+1 stars, always in 1..5 |
| `Rating.Submit` | src/components/RatingModal.jsx:23-55 | at 0 stars nothing happens; a declined confirmation closes without sending anything; the rating is sent to the store exactly otherwise; `onRated` with the chosen rating happens exactly when the store accepts it; the id is appended only on a first rating |
| `Rating.SubmitKeepsRatedList` | src/components/RatingModal.jsx:41-46 | while the flag agrees with the stored list, one submission keeps the list free of duplicates and leaves the masjid in it exactly when it was rated now or before; as written a second Rate click on the same object breaks that agreement (see Findings) |
| `Rating.FirstOpen` | src/components/RatingModal.jsx:9-19 | the first Rate click sets the flag from the stored list |
| `Rating.Step` | src/components/RatingModal.jsx:9-55 | as written: a submission leaves the picker as it was, a second Rate click on the held object changes nothing, because the effects depend on the object, a star click picks that star, and pointing at a new object runs both effects |
| `Rating.StaleFlagAppendsTwice` | src/components/RatingModal.jsx:41-46 | as written: a saved first rating, another Rate click on the same object and a second saved submission append the id twice |
| `Rating.RepeatedRateDuplicates` | src/components/MasjidDashboard.jsx:1004-1006 | as written: rating a masjid and then rating it again from the still-open detail view stores its id twice |
| `Rating.StepFixed` | src/components/RatingModal.jsx:41-46 | corrected: a saved first rating also sets the flag; other actions are as written |
| `Rating.RepeatedRateFixed` | src/components/RatingModal.jsx:26-46 | corrected: the same clicks store the id once |
| `Rating.StepFixedSettled` | src/components/RatingModal.jsx:23-55 | corrected: every action keeps the flag in agreement with the list and the list free of duplicates |
| `Rating.RunFixedKeepsRatedList` | src/components/RatingModal.jsx:41-46 | corrected: any sequence of actions from the first Rate click keeps the stored list free of duplicates |
| `Rating.FirstRatingShown` | src/components/RatingModal.jsx:49 | a saved first rating shows on the dashboard as the masjid's rating with one more review |

## Left out

- `haversineDistance` and the "km away" labels use floating-point trigonometry. The distance from the user is a parameter (`Coord -> real`), and the comparator uses only the sign of the difference.
- The clock (`new Date()`, `Date.now()`, `getHours()*60+getMinutes()`) is a parameter: minutes of the day in the prayer functions, milliseconds elsewhere. The two `new Date()` calls in one handler read as one instant.
- Date and Intl formatting, the Hijri calendar, `setInterval`/`setTimeout`, and the success screen's auto-close timer are not modelled.
- The document store, its SDK wrapper and the real-time subscriptions become recorded writes and success flags. The admin notification's `addDoc` is left out, because its failure is caught and ignored.
- The hadith section, the Leaflet map, the Nominatim address search, geolocation and `window.open` are network or browser services.
- The admin login, router wiring, the older prayer-times editor and request modal, the commented-out auth modal, and the leaderboard are not part of this model.
- Anonymous-id generation and localStorage are not modelled. The id and the rated list are inputs, and the rated list is explicit state.
- JSX rendering, CSS classes, `loading` flags and the React effect scheduling are not modelled. The two rating-modal effects are modelled by their settled result whenever the held masjid object changes (`Rating.Retarget`); a Rate click on the object already held runs neither (`Rating.Step`).
- Js.NumberOf: reads only digit strings (empty reads as 0). JavaScript's whitespace-trimmed, signed, decimal, hex and exponent forms read as NaN here. Digit fields are read as exact unbounded naturals, where JavaScript reads them as doubles: fields above 2^53 are rounded, numbers from 10^21 up print in exponent form, and a field of more than 308 digits reads as Infinity. The same holds for `PrayerClock.ClockMinutes`, `PrayerClock.FormatTime12` and `Js.NatToString`. Stored times come from time inputs, so their fields have two digits and are exact in both readings.
- Js.ToLower: maps only ASCII letters. Full Unicode case mapping is not modelled.
- Js.LocaleCompare: is code-point lexicographic order. Locale collation (accents, case tiers) is not modelled.
- JsArray.SortWith: is a stable insertion sort. For a comparator that is not a total preorder, an engine's sort may order differently.
- UpdateEditor.ChangedTimes: returns the changed prayers as a set. Schedules are maps, so the `Object.keys` order of the displayed list is not modelled.
- UpdateEditor.SubmitPhone: the daily-limit branch depends on a count fixed at 0 and is never taken. Its catch branch ("Error validating phone number") has nothing that can throw, so it is left out.
- Moderation.HandleRequestAction: takes `requestedTimes` as always present. Requests are stored with it, so the `Object.entries(undefined)` exception is not modelled.
- AddListing.Submit: omits the `!formData.location` test. The location starts as the user's location or the fallback and is only ever replaced by a coordinate (src/components/AddMasjidModal.jsx lines 43, 79 and 174), so the test never fails.
- Moderation.TimeAgo: takes dates as millisecond integers. `Math.floor` on the non-negative divisor agrees with Dafny's division, but a date that `new Date` cannot read (NaN) is not modelled.
- Rating.Retarget: reads "`masjid.rating` is truthy" as present and non-zero. A NaN rating is not modelled.
- Ratings and review counts are integers. Fractional ratings are not modelled.
- The requester's browser information (`navigator.userAgent`) in the stored request is not modelled.

## Findings

| source | as written | input that shows it | evidently intended | confidence | as-written member | corrected member |
|---|---|---|---|---|---|---|
| src/components/RatingModal.jsx:41-46 | after a first rating the id is appended to the stored list but `alreadyRated` stays false. The dashboard keeps the modal mounted, and a second Rate click passes the same `selectedMasjid` object (src/components/MasjidDashboard.jsx:1004-1006), so the flag effect does not run again | rate a masjid 3 stars and save; click Rate again on the open detail view and save again: no "update your rating?" prompt, and the stored list becomes `[id, id]` | the flag is set once the first rating is saved, so a later submission prompts and never appends the id again | not executed; medium | `Rating.RepeatedRateDuplicates` | `Rating.RunFixedKeepsRatedList` |
