# ChronoVault capsule bookkeeping in Dafny

ChronoVault is a browser widget for time capsules. The user seals a dated
message, and it stays locked until its unlock time. This project models the
part of `script.js` that can be stated as logic rather than browser plumbing:

- saving the capsule form: validate, then edit the record named by the hidden
  id or seal a new capsule (`handleFormSubmit`);
- the clicks on a listed capsule: edit, read, and delete by id
  (`handleListClick`);
- the capsule list: stable sort by unlock time, the lock classification
  `now >= unlockTime`, and the actions each card offers (`renderCapsules`);
- the one-second countdown tick: the re-render gate, the split of the
  remaining milliseconds into days, hours, minutes and seconds, and the
  two-digit padding (`updateCountdowns`);
- the weather-code table and the weather readout (`getWeatherDescription`,
  `displayWeather`).

The stored collection is an immutable `seq<Capsule>` in storage order. Every
operation is a pure function. `Date.now()` is a parameter `now: int` in whole
milliseconds, and the geolocation result is a `location: string` parameter.
JavaScript's `trim`, `String(n)`, `parseInt(s, 10)` and `padStart(2, '0')` are
written out in the `Text` module.

Modules, one per file:

| file | module | models |
|---|---|---|
| `wrappers.dfy` | `Wrappers` | `Option` |
| `text.dfy` | `Text` | trim, decimal text, `parseInt`, `padStart` |
| `capsules.dfy` | `Capsules` | the record, `findIndex`, the content edit, `push`, the id filter, id invariants |
| `submit.dfy` | `FormSubmit` | `handleFormSubmit` and the consistency invariant of the collection |
| `sorting.dfy` | `Sorting` | the stable sort by unlock time |
| `listing.dfy` | `Listing` | `renderCapsules` rows and `handleListClick` |
| `countdown.dfy` | `Countdown` | `updateCountdowns` |
| `weather.dfy` | `Weather` | `getWeatherDescription` and the readout |
| `views.dfy` | `Views` | screens and notifications |
| `edit_form.dfy` | `EditForm` | prefilling the edit form and saving it again (see Findings) |

Three behaviours of the code worth knowing:

- **Edit with an unknown id.** An edit whose id is not stored still saves the
  collection unchanged and still reports "Capsule updated successfully!"
  (`FormSubmit.Submit`).
- **Delete removes every match.** Delete removes every record with the id, not
  only the first. The length drops by exactly one only while ids are
  unique (`Capsules.RemoveUniqueId`).
- **Unlocked cards re-render on every tick.** Every card carries
  `data-unlock-time`, including unlocked ones. So while any unlocked capsule
  is listed, every tick re-renders the list, not only the tick that crosses
  an unlock time (`Countdown.UnlockedCardRerendersEveryTick`).

## Model

| member | source | states |
|---|---|---|
| FormSubmit.Submit | script.js:201-232 | An error notice appears exactly when the trimmed title or message is empty, or the unlock time is missing or not after `now`. A rejection leaves the collection unchanged and stays on the form. An edit keeps the length, and an unknown id leaves the collection unchanged while still reporting the update. A create appends one record carrying `cap_<now>`, `sealedTime == now`, the submitted unlock time and the location, and keeps every earlier record. |
| FormSubmit.NewCapsule | script.js:219-226 | An accepted form yields a well-formed capsule: its title and message are the submitted texts with only surrounding white space removed, its id is the one derived from its sealing time, which is `now`, and it carries the submitted unlock time and the location. |
| FormSubmit.EditKeepsIdentity | script.js:214-216 | An accepted edit of a stored id changes only the title, message and unlock time of the first record with that id. Its id, sealing time and location stay, and every other record stays. |
| FormSubmit.SubmitKeepsConsistent | script.js:201-232 | Any submit keeps the collection consistent at every later moment: ids unique and derived from sealing times, every capsule sealed in the past, and titles and messages trimmed and non-empty with unlock after seal. |
| FormSubmit.DeleteKeepsConsistent | script.js:247 | Deleting by id keeps the collection consistent. |
| Capsules.FirstIndexOf | script.js:215 | Gives None exactly when no record has the id. Otherwise it gives the first position holding the id. |
| Capsules.UpdateContent | script.js:215-216 | Keeps the length. Without a record carrying the id, nothing changes. Otherwise only the first such record changes: the new title, message and unlock time, with its id, sealing time and location kept. |
| Capsules.Append | script.js:227 | One more record, at the end, after the unchanged old records. |
| Capsules.RemoveId | script.js:247 | A record survives exactly when it was stored and its id differs. The survivors keep their relative order. The length drops by the number of records with the id. |
| Capsules.RemoveUniqueId | script.js:247 | With unique ids, deleting a stored id removes exactly one record, and deleting an absent id changes nothing. |
| Capsules.RemoveUndoesAppend | script.js:247 | Deleting the id of a freshly appended record with a new id gives the old collection back. |
| Capsules.IdForInjective | script.js:220 | Different sealing milliseconds give different ids. |
| Capsules.AppendFreshKeepsUniqueIds | script.js:219-227 | Sealing later than every stored capsule keeps ids unique and derived from sealing times. |
| Capsules.SameMillisecondSameId | script.js:220 | Two capsules sealed in the same millisecond get the same id, so id uniqueness rests on distinct sealing times. |
| Capsules.UpdateKeepsIds | script.js:216 | An edit keeps ids unique and derived from sealing times. |
| Capsules.RemoveKeepsIds | script.js:247 | Deleting keeps ids unique and derived from sealing times. |
| Sorting.Insert | script.js:177 | Inserting into a sorted list gives a sorted list with one more element, holding the same records plus the new one. |
| Sorting.InsertStable | script.js:177 | An inserted record goes in front of the records with its unlock time, and their order stays. |
| Sorting.SortByUnlock | script.js:177 | Same length. Non-decreasing unlock times. The same records. Records with equal unlock times keep their storage order, as a stable `Array.prototype.sort` does. |
| Sorting.SortIsTheStableSort | script.js:177 | Any sorted, stable rearrangement of the collection is exactly the one `SortByUnlock` gives. |
| Listing.RowFor | script.js:178-192 | A card is unlocked exactly when `now >= unlockTime`. Unlocked cards offer Read and the ready note. Sealed cards offer Edit and the countdown. Every card ends with Delete. The `data-unlock-time` text parses back to the unlock time. |
| Listing.Render | script.js:173-196 | The empty-vault prompt shows exactly when nothing is stored. There is one card per record, in non-decreasing unlock order. The cards show the same records in stable order, and each follows the card rules. |
| Listing.RenderOrder | script.js:177 | The cards come out in exactly the stable sort's order. |
| Listing.UnlockedRowsFirst | script.js:177-178 | Any card before an unlocked card is unlocked, so the unlocked cards form a prefix of the list. |
| Listing.Click | script.js:234-258 | Nothing happens for a click beside the buttons, for an id that is not stored, or for a refused delete confirmation. Edit opens the first record with the id. A confirmed delete stores the collection without that id, in order, and shows "Capsule deleted.". Read shows that record's title, message and sealing time, and its location or "Unknown". |
| Listing.ReadFromRow | script.js:251-256 | Read is only offered on unlocked cards. With unique ids, clicking it opens the reader on exactly that card's capsule: its title, message and sealing time, and its location or "Unknown" when none was recorded. |
| Listing.DeleteFromRow | script.js:245-250 | With unique ids, confirming Delete on a card removes one record, and no later rendering shows its id. |
| Countdown.Decompose | script.js:269-273 | For a positive distance, hours < 24, minutes < 60 and seconds < 60, and the parts account for the distance up to less than one second. |
| Countdown.DecomposeUnique | script.js:269-273 | Any in-range parts that account for the distance to within one second are the ones computed, so the split is unique. |
| Countdown.DecomposeMilliseconds | script.js:269-273 | Splitting the milliseconds that in-range parts stand for, plus under a second, gives those parts back. |
| Countdown.Field | script.js:274-277 | A part below 100 is shown as exactly two characters. A larger one is shown as its plain decimal text. |
| Countdown.DigitsReadBack | script.js:274-277 | Each of the four fields parses back to its part. |
| Countdown.Tick | script.js:265-277 | Cards are visited in list order, each ticked by the card rules. The visit stops right after the first card that lacks the countdown fields, where the code throws; while no card lacks them, every card is visited. |
| Countdown.StopAfterFailure | script.js:265-277 | The ticks that happen are a prefix of the planned ones. Only the last of them can be a failure, it is one when the prefix is short, and no tick after the first failure happens. |
| Countdown.TickUsesTheUnlockGate | script.js:265-273 | On a card whose attribute holds its unlock time, a tick asks for a re-render exactly when the list's `now >= unlockTime` gate calls the capsule unlocked. Otherwise it counts down the split of the remaining time when the card has the countdown fields, and fails exactly when it has none. It never counts down NaN. |
| Countdown.RenderedCardsAllTick | script.js:265-268 | With the clock not set back since rendering, every rendered card is ticked. |
| Countdown.ClockSetBackStopsTick | script.js:189-274 | A card rendered unlocked has no countdown fields (line 189), and line 274 needs them. If a later tick's `now` is before its unlock time, the tick stops at that card. |
| Countdown.UnlockedCardRerendersEveryTick | script.js:265-268 | A card rendered unlocked is ticked and asks for a re-render at every later tick. |
| Countdown.RenderedCardsNeverShowNaN | script.js:266 | A rendered card's attribute always parses, so no tick that happens counts down NaN. |
| Countdown.NinetyThousandSixtyOneSeconds | script.js:269-277 | 90 061 000 ms splits into 1 day, 1 hour, 1 minute and 1 second and reads "01d 01h 01m 01s". |
| Weather.Describe | script.js:105-118 | A code gets the fallback exactly when it is not one of 0, 1, 2, 3, 45, 48, 51, 61 and 95. This holds for the whole entry, for its icon alone and for its description alone. |
| Weather.DescriptionsNameTheirCode | script.js:105-117 | Reading the table backwards from a listed code's description gives that code, and the fallback's description names no code. |
| Weather.ShowReading | script.js:119-131 | A failed lookup shows "Weather N/A" with the warning icon, exactly when it failed. Otherwise the readout shows the code's icon and a temperature text ending in "°C" whose digits parse back to the temperature. |
| Text.Trim | script.js:204-205 | The trimmed text is empty exactly when the input is all white space. Otherwise it neither starts nor ends with white space. |
| Text.TrimRemovesOnlySpace | script.js:204-205 | The input is the trimmed text with white space added on both sides. |
| Text.TrimIdempotent | script.js:204-205 | Trimming twice is trimming once. |
| Text.ParseIntOfDecimal | script.js:266 | `parseInt(String(n), 10)` gives back `n` for every integer. |
| Text.PadStart2 | script.js:274-277 | The result has length max(2, length of the input), ends with the input, and is padded with '0' in front. |
| EditForm.AsWrittenReadsBackShifted | script.js:157 | The prefilled unlock field, read back as local time, is off by the zone offset. |
| EditForm.AsWrittenCounterexample | script.js:157 | One hour east of UTC, a capsule unlocking at 02:00 UTC reads back as 01:00 UTC. |
| EditForm.AsWrittenEditMovesUnlock | script.js:157 | Saving the edit form unchanged moves the capsule's unlock time by the zone offset, so the collection changes whenever the offset is not zero. |
| EditForm.PrefillLocal | script.js:148-157 | Prefilling with the local reading, as line 148 does for the form's minimum, reads back as the unlock time cut to the minute. |
| EditForm.UnchangedEditKeepsStore | script.js:145-157 | With the local prefill, saving the edit form unchanged gives the collection back exactly. |

## Left out

- Storage: `localStorage` and JSON (lines 137-138) are not modelled. The
  collection is passed in and returned. The code throws on malformed content
  rather than substituting an empty list, so no "malformed gives empty" claim
  is made.
- DOM work is not modelled: view switching, `innerHTML` templates, menus, and
  the toast timer. Only the screen reached and the notification text and kind
  are kept.
- Geolocation and `fetch` are asynchronous foreign calls. The location is an
  opaque string parameter of `Submit`. The weather response is a `Reading`
  that already holds `Math.round` of the temperature.
- Clocks: the two `Date.now()` calls in one submit (lines 220 and 224) and
  the one in the validation (line 208) are taken to read the same
  millisecond `now`. In `updateCountdowns`, `now` is taken once per tick
  rather than once per card.
- FormSubmit.Submit: a submit is modelled as one atomic step. The code reads
  the collection (line 213), then waits up to 5 s for `getGeolocation`
  (line 225), then saves its copy (line 230). A delete made during that wait
  comes back with the save, and of two overlapping submits only the last
  one's new capsule is kept.
- Listing.Render: one `now` classifies every card, while the code calls
  `Date.now()` once per card (line 178). If the clock passes an unlock time
  during a render, a sealed card can precede an unlocked one, so
  `Listing.UnlockedRowsFirst` holds only for the single-`now` model.
- Integer width: timestamps are unbounded integers. JavaScript numbers hold
  them exactly below 2^53, which every valid `Date` respects.
- Dates and time zones are not modelled: `toLocaleString`, the clock readout
  and the datetime-local minimum. The exception is `EditForm`, which uses one
  fixed offset in minutes; daylight-saving changes are not modelled.
- Timers and the particle canvas are not modelled. `setInterval`,
  `requestAnimationFrame`, the `Particle` class, mouse tracking and floating
  point have no stateable logic here.
- Weather.ShowReading: a non-integral weather code is modelled as `None` and
  falls back, as the table lookup would. The temperature text is modelled for
  integers only.
- Countdown.TickUsesTheUnlockGate: stated only for cards whose
  `data-unlock-time` parses back to the card's unlock time. Every card the
  list builds meets this (`Listing.RowFor`), so only cards not built by the
  program are excluded. `Text.ParseInt` reads leading white space, a sign
  and the leading digits as `parseInt(s, 10)` does.

## Findings

| source | as written | input that shows it | evidently intended | confidence | as-written member | corrected member |
|---|---|---|---|---|---|---|
| script.js:157 | The edit form prefills the datetime-local unlock field with the UTC reading (`toISOString().slice(0, 16)`). On submit, line 206 parses that field as local time. | Time zone UTC+1 (offset -60), a capsule unlocking at 02:00 UTC: the field shows 02:00, which is read back as 01:00 UTC. Saving the form unchanged moves the unlock time one hour earlier. | Prefill the local reading, as line 148 does for the field's minimum, so that an unchanged edit keeps the unlock time. | medium, not executed | EditForm.AsWrittenEditMovesUnlock | EditForm.UnchangedEditKeepsStore |
