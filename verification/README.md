# Open Decks kiosk: scheduling and fair draw

A Dafny model of the Open Decks kiosk's scheduling and fair-draw engine. The
kiosk takes DJ sign-ups for one night and draws them into two two-hour playing
windows, each made of four 30-minute slots. The model proves the engine's
rules:
- one slot per artist per night, kept by draws and automatic draws that
  read the current state, by manual replacements, and by a reroll with its
  intended candidates (the reroll as written and the auto-draw poll as
  registered can both break it, see "## Findings");
- male and duo artists take at most half a window's slots, unless the other
  sign-ups run out;
- no two sign-ups share a name up to case and spacing;
- a device-wide one-minute cooldown between sign-ups;
- automatic draws at 22:45 and 00:45, for a poll that reads the current
  state (the poll as registered can miss sign-ups and seat an artist twice,
  see "## Findings").

There are two versions of the component, and both are modelled:

- `src/index.tsx` is the live kiosk. Its modules are:
  - `Clock`: `tonightBase`, `tonightWindows`, `canSubmit`, and the
    auto-draw condition.
  - `Slots`: `generateSlots`.
  - `Text`: trimming and `normalizeName`.
  - `FisherYates`: `shuffle`.
  - `Night`: the session state, `isMaleish`, `isMaleishName`, and
    `assignedNamesIn`.
  - `Pick`: `pickWithGenderCap`.
  - `Draw`: `availablePoolForWindow`, `runDraw`, `redrawWindow`,
    `rerollSlot`, and `manualReplace`.
  - `AutoDraw`: the five-second auto-draw poll.
  - `Csv`: the CSV quoting.
  - `Registry`: `addSignup`, `clearAll`, and the rows `exportCSV` writes.
  - `Session`: the rules that hold from one action to the next, and the
    proof that every action reading the current state keeps them.
- `src/App.tsx` is the older variant, modelled in `Legacy`. Its helpers at
  `src/App.tsx:24-90` are the same as the live kiosk's, so `Legacy` reuses
  them. Its actions differ:
  - sign-ups have no gender;
  - the draw is an uncapped shuffle of every sign-up name;
  - `redrawWindow` (`src/App.tsx:224-243`) computes the same state as
    `runDraw`;
  - the reroll avoids only exact names already in the same window;
  - a manual replacement is checked against the same window only;
  - staff can remove a sign-up.

  Its `clearAll` (`src/App.tsx:274-279`) is `Registry.ClearAll` on its own
  sign-up record. `SelfTests` states the checks of its `devSelfTests` as
  lemmas over every night and every instant.

How the model represents the kiosk:

- **Time.** Instants are whole seconds of local wall-clock time, counted
  from midnight of civil day 0.
- **Randomness.** Every random choice is an input. A shuffle takes one index
  per step, and a single pick takes a number used modulo the candidate
  count.
- **Identifiers.** Fresh identifiers are inputs too.
- **Outcomes.** An action either returns the new state as `Ok`, or returns
  `Rejected` with the reason for the message the kiosk shows, leaving the
  state unchanged.

## Model

| member | source | states |
|---|---|---|
| Clock.NightBase | src/index.tsx:27 | The instant lies in the night of the returned day: 05:00 that day up to 05:00 the next, so readings before 05:00 belong to the previous day. |
| Clock.NightBaseUnique | src/index.tsx:27 | An instant belongs to exactly one night. |
| Clock.Windows | src/index.tsx:28-34 | Window 1 ends where window 2 starts. Each window lasts two hours. Each draw is 15 minutes before its window, and the order is draw 1, window 1, draw 2, window 2. |
| Clock.WindowsInMinutes | src/index.tsx:28-34 | From the base midnight: draw 1 at 22:45, window 1 from 23:00 to 01:00, draw 2 at 00:45, window 2 from 01:00 to 03:00. |
| Clock.ScheduleWithinNight | src/index.tsx:27-34 | Every instant from draw 1 to the end of window 2 belongs to the same night, so the 05:00 cutover never splits a schedule. |
| Clock.CanSubmitMonotone | src/index.tsx:43 | Once a sign-up is allowed, it stays allowed at every later instant. |
| Clock.CanSubmitThreshold | src/index.tsx:43 | After a sign-up, the first allowed instant is exactly one cooldown later. |
| Clock.AutoDrawsExclusive | src/index.tsx:80-84 | No poll finds both draws due, because the two grace minutes never overlap. |
| Slots.GenerateSlots | src/index.tsx:38-42 | The cursor loop computes the slot sequence `SlotsFrom` defines, with the loop invariants proving it. |
| Slots.SlotsFromShape | src/index.tsx:38-42 | The slots are contiguous from the interval start, each one step long, and none ends after the interval end. There are at most as many as the cap allows, and the loop stops only at the cap or when the next slot would not fit. |
| Slots.SlotsFromUniqueIds | src/index.tsx:38-42 | Slots built from fresh ids, none repeated, share no id. |
| Slots.TwoHourWindowHoldsFour | src/index.tsx:38-42 | A two-hour window gives exactly four 30-minute slots. The first starts when the window opens and the last ends when it closes. |
| Slots.FirstWindowOpensAtEleven | src/index.tsx:28-42 | The first window of a night has four slots, the first running from 23:00 to 23:30. |
| Text.TrimShape | src/index.tsx:116 | Trimming removes whitespace, and only whitespace, from both ends. The result neither starts nor ends with whitespace. |
| Text.TrimBlank | src/index.tsx:116-117 | A name trims to nothing exactly when every character is whitespace. |
| Text.TrimFixed | src/index.tsx:116 | A string with no outer whitespace trims to itself. |
| Text.CollapseShape | src/index.tsx:37 | After collapsing, the only whitespace is single spaces. The result is empty exactly when the input is. The first character is kept, as a space if it was whitespace, and a last character that is not whitespace is kept last. |
| Text.CollapseKeepsUnspaced | src/index.tsx:37 | Collapsing keeps every character that is not whitespace, in order: only runs of whitespace change. |
| Text.CollapseFixed | src/index.tsx:37 | A string whose whitespace is already single spaces is unchanged. |
| Text.LowerChars | src/index.tsx:37 | Lower-casing maps each character on its own and keeps the length. |
| Text.NormalizeIsNormal | src/index.tsx:37 | A normalized name has no capitals and no whitespace other than single inner spaces. It is empty exactly when the trimmed name is. |
| Text.NormalizeFixesNormal | src/index.tsx:37 | Every string in normal form is its own normalization, so the normal forms are exactly the values `normalizeName` can return. |
| Text.NormalizeIdempotent | src/index.tsx:37 | Normalizing twice is normalizing once. |
| Text.NormalizeTrim | src/index.tsx:120 | Normalizing the trimmed name gives the same result as normalizing the raw name. |
| FisherYates.Shuffle | src/index.tsx:36 | The shuffle is a permutation of its input for every legal sequence of random choices. |
| FisherYates.ShuffleLoop | src/index.tsx:36 | The in-place swap loop, from the last position down to 1, computes `Shuffle`. |
| FisherYates.PermutationKeepsDistinct | src/index.tsx:36 | Shuffling a sequence with no repeats gives one with no repeats. |
| Seqs.FilterMembers | src/index.tsx:89 | Filtering keeps exactly the elements that satisfy the condition. |
| Seqs.FilterCount | src/index.tsx:98-99 | Filtering keeps every copy of a selected element and drops every copy of the others. |
| Night.FindByName | src/index.tsx:66 | The lookup finds the first sign-up whose name normalizes to the key: no earlier sign-up's name does. It finds none exactly when no sign-up's name does. |
| Night.MaleishNameOfSignup | src/index.tsx:65-68 | When sign-up names are unique, looking up a sign-up's own name gives its own gender class. |
| Night.MaleCountAfterReplace | src/index.tsx:160-164 | After a name is written into a slot, the window's male-ish count is the other slots' count plus the new name's. |
| Night.ReplaceKeepsSlotIds | src/index.tsx:164 | Writing a participant leaves every slot id in place, so unique slot ids stay unique. |
| Night.MaleCountSplit | src/index.tsx:160 | `currentMaleExcl` is at most the window's count, and equals it when the slot is absent. |
| Pick.Partition | src/index.tsx:98-99 | The male-ish and other groups split the pool: their multisets add up to the pool's. |
| Pick.PickCounts | src/index.tsx:100-107 | Each group's count fits the group. Together they take `min(count, pool)`. The male-ish count is `min(M, max(floor(count/2), count - O))`. |
| Pick.PickWithGenderCap | src/index.tsx:97-111 | The pick holds `min(count, pool size)` entries, all drawn from the pool without repeats, of which exactly `min(M, max(floor(count/2), count - O))` are male-ish (M male-ish and O other entries in the pool). |
| Pick.PickGroups | src/index.tsx:108-110 | Taking `k` shuffled male-ish and `j` shuffled other entries and shuffling the union yields `k + j` entries from the pool, exactly `k` of them male-ish. |
| Pick.PickRespectsCap | src/index.tsx:96-111 | When the other entries can fill the rest, male-ish entries take at most half the pick. |
| Pick.PickTakesAllWhenShort | src/index.tsx:97-111 | With no more entries than the count, the pick is a permutation of the whole pool. |
| Pick.PickDistinct | src/index.tsx:97-111 | A pick from distinct entries has no repeats. |
| Draw.Pool | src/index.tsx:87-89 | The pool is exactly the sign-ups whose normalized name holds no slot of the other window, taken from the sign-ups without duplication. |
| Draw.Assign | src/index.tsx:137 | The i-th pick goes into the i-th slot, with that slot's id and times. |
| Draw.InSlotOrderUniqueIds | src/index.tsx:137 | A window laid out in the order of slots that share no id holds no slot id twice. |
| Draw.RunDraw | src/index.tsx:131-153 | `runDraw` and `redrawWindow` reject with `EmptyPool` exactly when the pool is empty. |
| Draw.RunDrawShape | src/index.tsx:131-142 | After a successful draw the window holds `min(pool, slots)` assignments in slot order. Each is a sign-up free of the other window. Only the window and the draw time change. |
| Draw.DrawKeepsNightUnique | src/index.tsx:131-142 | With unique sign-up names and a repeat-free other window, the night keeps one slot per artist after a draw. |
| Draw.DrawMaleCount | src/index.tsx:131-142 | The drawn window has exactly `min(M, max(floor(n/2), n - O))` male-ish artists, with `n` filled slots. |
| Draw.DrawRespectsCap | src/index.tsx:131-142 | When the pool has enough other sign-ups, male-ish artists take at most half the drawn window. |
| Draw.ReplaceKeepsCap | src/index.tsx:175-178 | Writing a name under the cap check never raises the window's male-ish count above both its earlier value and the cap. |
| Draw.ReplaceKeepsDistinct | src/index.tsx:172 | A name held by no other slot of the window leaves the window free of repeats. |
| Draw.ReplaceKeepsDisjoint | src/index.tsx:173 | A name absent from the other window keeps the two windows disjoint. |
| Draw.RerollCandidates | src/index.tsx:159-161 | The candidates are exactly the pool members allowed by the cap on the other slots. |
| Draw.RerollSlot | src/index.tsx:155-166 | Rejects for an empty window or no candidates, with the matching reason. Otherwise some candidate takes over the slot and nothing else changes. |
| Draw.RerollKeepsCap | src/index.tsx:155-166 | A reroll keeps the window's size, and its male-ish count stays within the larger of the earlier count and the cap. |
| Draw.RerollKeepsWindowsDisjoint | src/index.tsx:155-166 | A reroll never seats an artist of the other window. |
| Draw.RerollCanRepeatArtist | src/index.tsx:161 | A night that keeps one slot per artist has a reroll that seats the same artist twice in one window. |
| Draw.RerollCandidatesIntended | src/index.tsx:88-90 | The corrected candidates are exactly the sign-ups seated in neither window that the cap allows. |
| Draw.RerollSlotIntended | src/index.tsx:155-166 | The corrected reroll rejects with `EmptyWindow` exactly for an empty window and with `NoCandidates` exactly when no corrected candidate remains. Otherwise a corrected candidate takes over the slot and nothing else changes. |
| Draw.RerollIntendedKeepsNightUnique | src/index.tsx:155-166 | The corrected reroll keeps one slot per artist per night. |
| Draw.RerollIntendedKeepsCap | src/index.tsx:155-166 | The corrected reroll keeps the window's size, and its male-ish count stays within the larger of the earlier count and the cap. |
| Draw.ManualReplace | src/index.tsx:168-181 | Rejects with `BlankName` exactly for a blank name. Rejects with `DuplicateName` exactly when the name plays elsewhere tonight, and with `CapReached` exactly for a male-ish name at the cap. Otherwise it writes the trimmed name into the slot. |
| Draw.ManualReplaceKeepsNightUnique | src/index.tsx:168-181 | A manual replacement keeps one slot per artist per night. |
| Draw.ManualReplaceKeepsCap | src/index.tsx:168-181 | A manual replacement keeps the window's male-ish count within the larger of the earlier count and the cap. |
| AutoDraw.AutoTick | src/index.tsx:80-84 | A poll of the current state never changes the sign-ups. It changes window 1 only while window 1 is empty and draw 1's grace minute runs, and window 2 likewise. Outside both grace minutes it changes nothing. |
| AutoDraw.FiresFirstDraw | src/index.tsx:80-82 | In the first grace minute, with window 1 empty and someone available, the poll is exactly window 1's draw. |
| AutoDraw.FiresSecondDraw | src/index.tsx:80-84 | In the second grace minute, with window 2 empty and someone available, the poll is exactly window 2's draw. |
| AutoDraw.DrawsOnce | src/index.tsx:80-84 | Once a due poll fills a window, every later poll keeps that window. |
| AutoDraw.StaleTick | src/index.tsx:80-84 | The poll as registered draws from the state it captured, which has the current windows' lengths because a change of length registers it again. It never changes the sign-ups, and it changes a window only while that window is empty and its grace minute runs. |
| AutoDraw.StaleDraw | src/index.tsx:131-142 | A draw from a captured state changes only its window and the draw time of the current state, and changes nothing when the captured pool is empty. |
| AutoDraw.StalePollMissesSignups | src/index.tsx:80-84 | A poll registered before anyone signed up leaves the night unchanged in draw 1's grace minute, while a poll of the current state fills window 1. |
| AutoDraw.StalePollRepeatsArtist | src/index.tsx:80-89 | After `e` replaces `a` in window 1, the registered poll still holds the window 1 with `a`. In draw 2's grace minute it seats `e` in window 2, so a night with one slot per artist ends with `e` in both windows. |
| AutoDraw.StaleDrawSeats | src/index.tsx:89 | A draw from a captured state fills the window from the captured sign-ups, avoiding only the captured other window, and keeps the current other window. |
| AutoDraw.StaleTickFresh | src/index.tsx:80-84 | A poll that captured the current state is `AutoTick`. |
| Csv.EscapeShape | src/index.tsx:129 | Escaping doubles every double quote and changes nothing else: one extra character per quote, and text without quotes as it is. |
| Csv.UnescapeEscape | src/index.tsx:129 | A quoted cell's body reads back as the cell, stopping at its closing quote, whatever quotes it contains. |
| Csv.ParseRow | src/index.tsx:129 | A row's text reads back as its cells. |
| Csv.ParseEncode | src/index.tsx:129 | The text of a table of non-empty rows reads back as the table. |
| Csv.EncodeInjective | src/index.tsx:129 | Two tables with the same text are the same table. |
| Registry.AddSignup | src/index.tsx:114-125 | Rejects only for a blank name, a missing gender, the cooldown, or a duplicate. On success it appends the trimmed name with the chosen gender. |
| Registry.Joined | src/index.tsx:121-122 | The entry is appended last and the cooldown restarts at its creation time. Nothing else changes. |
| Registry.AddSignupOutcome | src/index.tsx:114-125 | Each rejection happens exactly when its check is the first to fail, and acceptance exactly when none fails. |
| Registry.AddSignupKeepsNamesDistinct | src/index.tsx:120-122 | Accepting a sign-up keeps the normalized names pairwise distinct. |
| Registry.ThrottledAfterJoin | src/index.tsx:119-122 | With the cooldown on, nothing is accepted within a minute of an accepted sign-up. |
| Registry.OpenAfterCooldown | src/index.tsx:119-122 | A minute after an accepted sign-up, the cooldown no longer rejects. |
| Registry.RespellingRejected | src/index.tsx:120 | A later respelling that differs only in case or spacing is rejected as a duplicate. |
| Registry.ClearAll | src/index.tsx:127 | The cleared night has no sign-ups, no assignments and no timestamps. |
| Registry.ClearAllFresh | src/index.tsx:127 | The cleared night breaks no rule and accepts the next sign-up at once. |
| Registry.GenderLabelRoundTrip | src/index.tsx:21 | Every stored gender label reads back as its gender. |
| Registry.ExportRows | src/index.tsx:129 | The table has one row per sign-up after the header, and no row is empty. |
| Registry.ExportRowsDescribe | src/index.tsx:129 | Row i+1 gives sign-up i's name, a label that reads back as its gender, and its rendered time. |
| Registry.ExportRoundTrip | src/index.tsx:129 | Reading the exported text back gives the header, then every sign-up in order with its exact name, gender and rendered time. |
| Legacy.AddSignup | src/App.tsx:246-272 | Rejects only for a blank name, the cooldown, or a duplicate. Otherwise it appends the trimmed name and restarts the cooldown. |
| Legacy.AddSignupOutcome | src/App.tsx:246-262 | Each rejection happens exactly when its check is the first to fail, and acceptance exactly when none fails. |
| Legacy.AddSignupKeepsNamesDistinct | src/App.tsx:257-269 | Accepting a sign-up keeps the normalized names pairwise distinct. |
| Legacy.RunDraw | src/App.tsx:294-322 | The uncapped draw rejects with `EmptyPool` exactly when there are no sign-ups. |
| Legacy.RunDrawShape | src/App.tsx:294-318 | The window gets `min(signups, slots)` names in slot order, drawn without repeats from the sign-up names. Only the draw time changes besides the window. |
| Legacy.RunDrawDistinct | src/App.tsx:294-309 | With unique sign-up names, a drawn window repeats no artist. |
| Legacy.Remaining | src/App.tsx:182-190 | The remaining names are exactly the sign-up names held by no slot of the window, compared exactly. |
| Legacy.Reroll | src/App.tsx:192-205 | Rejects exactly when no name remains. Otherwise a remaining name takes over the slot. |
| Legacy.RerollKeepsExactDistinct | src/App.tsx:192-205 | A reroll keeps the window free of exact repeats. |
| Legacy.ManualReplace | src/App.tsx:207-222 | Rejects with `BlankName` exactly for a blank name, and with `DuplicateName` exactly when another slot of the same window holds the name. Otherwise it writes the trimmed name. |
| Legacy.ManualReplaceKeepsDistinct | src/App.tsx:207-222 | A manual replacement keeps the window free of normalized repeats. |
| Legacy.ManualReplaceAllowsOtherWindow | src/App.tsx:210-213 | An artist playing in the other window can be typed into this one, which breaks one slot per artist per night. |
| Legacy.RemoveSignup | src/App.tsx:324-329 | Removing a sign-up leaves the assignments and timestamps alone. |
| Legacy.RemoveSignupMembers | src/App.tsx:324-329 | Exactly the entries with that id go, and every other entry keeps all its copies. |
| Legacy.RemoveSignupKeepsOrder | src/App.tsx:327 | The survivors keep their relative order. |
| Legacy.RemoveSignupIdempotent | src/App.tsx:324-329 | Removing an absent id changes nothing, so removing twice is removing once. |
| Legacy.AutoTick | src/App.tsx:168-179 | A poll of the current state never changes the sign-ups. It changes window 1 only while window 1 is empty and draw 1's grace minute runs, and window 2 likewise. Outside both grace minutes it changes nothing. |
| Legacy.FiresFirstDraw | src/App.tsx:168-173 | In the first grace minute, with window 1 empty and someone signed up, the poll is exactly window 1's uncapped draw. |
| Legacy.FiresSecondDraw | src/App.tsx:168-176 | In the second grace minute, with window 2 empty and someone signed up, the poll is exactly window 2's uncapped draw. |
| Legacy.ExportRoundTrip | src/App.tsx:281-284 | The older export's text reads back as exactly its rows. |
| Session.ClearAllConsistent | src/index.tsx:127 | The cleared night keeps the rules: unique sign-up names, one slot per artist per night, unique slot ids. |
| Session.JoinKeepsConsistent | src/index.tsx:114-125 | A sign-up, accepted or rejected, keeps the rules. |
| Session.DrawKeepsConsistent | src/index.tsx:131-142 | A draw over slots that share no id keeps the rules. |
| Session.RerollKeepsConsistent | src/index.tsx:155-166 | A reroll with the intended candidates, accepted or rejected, keeps the rules. |
| Session.ReplaceKeepsConsistent | src/index.tsx:168-181 | A manual replacement, accepted or rejected, keeps the rules. |
| Session.AutoTickKeepsConsistent | src/index.tsx:80-84 | A poll of the current state, drawing or not, keeps the rules when the slots share no id. |
| Session.DrawWithinCap | src/index.tsx:131-142 | A draw whose pool has enough other sign-ups leaves male-ish artists at most half the window. |
| Session.RerollKeepsWithinCap | src/index.tsx:155-166 | A window within its cap stays within it through a reroll, as written or with the intended candidates. |
| Session.ReplaceKeepsWithinCap | src/index.tsx:168-181 | A window within its cap stays within it through a manual replacement. |
| SelfTests.FourSlotsFirstAtEleven | src/App.tsx:97-101 | On any night, window 1 gives four slots, the first from 23:00 to 23:30. |
| SelfTests.SpacedCapitalsMatch | src/App.tsx:103-104 | `"  DJ  NAME "` and `"dj name"` normalize alike. |
| SelfTests.NightBaseEarlyAndNoon | src/App.tsx:106-109 | 03:00 belongs to the previous night and noon to the same day, on every day. |
| SelfTests.CooldownChecks | src/App.tsx:111-115 | A first sign-up is allowed, one 45 s later is blocked, and one 60 s later is allowed. |
| SelfTests.ShuffleDrawsFromNames | src/App.tsx:117-119 | The first name of a shuffle is one of the shuffled names. |

## Left out

- Daylight-saving time, time zones and Luxon date arithmetic are not modelled. Instants are wall-clock seconds, so the 30-minute steps and hour offsets are exact. The date-and-time rendering in the export is a parameter `fmt`, as is the ISO text of timestamps.
- React state handling is not modelled in general. This covers `useState`, `useMemo`, `setState` updaters, the one-second tick and the status message (`pulse`). Each user action is a function from the current state to the new one, which holds because every action runs from the render the user clicked in.
- The auto-draw poll is the exception. Its effect (`src/index.tsx:80-84`) depends only on the draw times, which are fixed for the page's life (`base` is memoised once at `src/index.tsx:71`), and on the two windows' lengths. Its callback therefore runs the `runDraw` of the render that last registered it. It misses every sign-up made since, and every change to a window that keeps its length: a manual replacement or a reroll in one window is not seen when the other window is drawn. `AutoDraw.StaleTick` models the poll as registered, and the "## Findings" rows give the consequences. `AutoDraw.AutoTick` is the poll that reads the current state, and the automatic-draw properties are proved about it.
- Legacy.AutoTick: reads the current state. `src/App.tsx:168-179` registers its poll with the same dependencies, so it misses later sign-ups in the same way, and only the live kiosk's version is modelled as registered.
- The two `if`s of the auto-draw poll are modelled as `if` ... `else if`. `Clock.AutoDrawsExclusive` shows this loses nothing, because no poll finds both draws due. The five-second polling is a sequence of `AutoTick` calls at any instants.
- The admin PIN, the `confirm` dialog of `clearAll` (modelled as confirmed), the form's field resets, the Blob download and the export's file name are not modelled.
- Only ASCII whitespace and ASCII upper case are modelled. JavaScript's `trim`, `\s` and `toLowerCase` also cover other Unicode characters.
- `Math.random` and `uuid` are not modelled: random indices and fresh identifiers are inputs. A single pick takes a number used modulo the candidate count.
- `assignedNamesGlobal` and `remainingNames` of the live kiosk (`src/index.tsx:88-90`) drive no action. Their only use is the count "Unassigned names available" in the admin reroll panel (`src/index.tsx:382`). In the model they appear in the corrected reroll, `Draw.RerollCandidatesIntended`.
- The live `rerollSlot` returns silently on an empty window. The model returns `Rejected(EmptyWindow)` with the state unchanged.
- `countdownTo`, `fmt` for display, and the UI components are not modelled.
- Draw.RerollKeepsCap: states that the male-ish count stays within the larger of its earlier value and the cap, not within the cap. A draw that backfilled male-ish artists can leave a window above the cap, and a reroll cannot repair it.
- Draw.ManualReplaceKeepsCap: same bound as `Draw.RerollKeepsCap`, for the same reason.
- Draw.RerollIntendedKeepsCap: same bound as `Draw.RerollKeepsCap`, for the same reason. `Session.RerollKeepsWithinCap` gives the cap itself for a window that was within it.
- Draw.DrawRespectsCap: proves the cap only when the pool has enough other sign-ups. Otherwise the kiosk deliberately backfills with male-ish artists, and `Draw.DrawMaleCount` gives the exact count.
- The export orders rows by stored (arrival) order, not by sign-up time. The two agree only while the clock never runs backwards between sign-ups, and the model follows the code.
- `generateSlots` with a cap of zero or less still yields one slot, because the slot is pushed before the cap is checked. `Slots.SlotBudget` models this as written.

## Findings

| source | as written | input that shows it | evidently intended | confidence | as-written member | corrected member |
|---|---|---|---|---|---|---|
| src/index.tsx:161 | `rerollSlot` draws candidates from `availablePoolForWindow`, which excludes only the artists of the other window | Two sign-ups, neither male nor duo, with different names, in slots 1 and 2 of window 1. Rerolling slot 2 with the first candidate seats the first artist in both slots. | candidates are the sign-ups seated in neither window (`remainingNames`, line 90, whose count the reroll panel shows at line 382), so one slot per artist per night holds | high; not executed | Draw.RerollCanRepeatArtist | Draw.RerollIntendedKeepsNightUnique |
| src/index.tsx:80-84 | the poll's effect lists only the draw times and the window lengths as dependencies, so its callback keeps the `runDraw`, and the sign-ups, of the render that last registered it | The page is opened before anyone signs up and no window has been drawn. Sign-ups follow. Every poll in draw 1's grace minute computes an empty pool and only shows "No sign-ups available for this window." | the poll draws from the sign-ups present at draw time, as the comment "Auto draws when open at the minute" says | high; not executed | AutoDraw.StalePollMissesSignups | AutoDraw.FiresFirstDraw |
| src/index.tsx:80-89 | the same callback also keeps the windows of that render, and a manual replacement or a reroll does not change a window's length, so it does not register the poll again | Window 1 holds `a`, then a manual replacement puts `e` in its place. In draw 2's grace minute the poll's pool for window 2 leaves out only `a`, so `e` is seated in both windows. | the poll draws from the current windows, so one slot per artist per night holds after the automatic draw as after every other draw | high; not executed | AutoDraw.StalePollRepeatsArtist | Session.AutoTickKeepsConsistent |

The first row's intent comes from the source itself: the comment "Helpers for global uniqueness (one slot per artist across night)" at `src/index.tsx:86`, `remainingNames` at line 90, and its count in the reroll panel at line 382. `Draw.RerollSlot` keeps the code's behaviour and `Draw.RerollSlotIntended` the intended one. For the second and third rows, `AutoDraw.StaleTickFresh` shows that a poll holding the current state is `AutoTick`, the poll the rest of the model uses. The third row's intent is the same comment at line 86, and `manualReplace` refusing an artist who "already has a slot tonight" at lines 172-174.
