# Classmates hub: a Dafny model of its client-side logic

The project models the logic of a class-reunion web app's pages, as pure functions over immutable data. It covers:

- **Sum Fruit** (`SumGame`): a 17 × 10 grid of apples valued 1..9. A drag box removes the apples it covers when their values add up to exactly ten, the score grows by the number removed, and a 120-second countdown ends the round.
- **Classmates roster** (`Classmates`): search and the BFF switch, bookmarking BFFs, sending stickers, unlocking badges, and joining the roster through the profile form.
- **Memory Reel** (`MemoryReel`): adding, editing and deleting memories.
- **Stat Lab** (`StatLab`): the per-drink, per-MBTI-group, per-zodiac-sign and per-birth-month counts, and the chart height.
- **Database mapping** (`SupabaseData`): `mapProfileToClassmate` and the badge and sticker lookup tables behind it.
- **`route()` helper** (`Route`): route-name lookup and `:param` substitution.

Shared pieces:

- `Wrappers` provides `Option`.
- `Seqs` provides `Array.prototype.filter` as `Filter`, with its order-preservation and multiplicity properties.
- `Text` covers the JavaScript string operations the pages use: `trim`, `toLowerCase`, `includes`, `startsWith`, `replace` with a string pattern, and decimal rendering of `Date.now()`.
- `Records` covers lookup in a `Record<string, string>` literal.

Every event handler is a transition from one state value to the next. Anything the source gets from its environment becomes a parameter:

- `Math.random()` results, as `Draw`s in [0, 1);
- `Date.now()`;
- object URLs;
- the random tilt of a memory;
- today's date;
- the month of a birthday.

The one-second interval is the explicit `SumGame.Tick` transition.

## Model

| member | source | states |
|---|---|---|
| SumGame.AppleValue | resources/js/Pages/SumGame.tsx:310 | every draw gives a value in 1..9, and value v is produced exactly by draws in [(v-1)/9, v/9) |
| SumGame.Board | resources/js/Pages/SumGame.tsx:307-313 | the starting board has rows × cols apples in row-major order; every cell holds exactly one apple; none is removed; the i-th apple's value comes from the i-th draw |
| SumGame.InitGrid | resources/js/Pages/SumGame.tsx:307-313 | the nested set-up loops build exactly the board `Board` describes |
| SumGame.Normalize | resources/js/Pages/SumGame.tsx:84-89 | the drag box has non-negative width and height, and its corners are the two drag points on each axis |
| SumGame.NormalizeSymmetric | resources/js/Pages/SumGame.tsx:84-89 | dragging from q to p gives the same box as dragging from p to q |
| SumGame.AxisOverlap | resources/js/Pages/SumGame.tsx:97-100 | on one axis, the two strict comparisons hold exactly when the box's closed span meets the cell's open span |
| SumGame.OverlapsMeaning | resources/js/Pages/SumGame.tsx:94-101 | an apple is overlapped exactly when the box, edges included, meets the interior of its cell on both axes |
| SumGame.Selected | resources/js/Pages/SumGame.tsx:91-103 | the selection is an order-preserving subsequence of the apples and holds exactly the live apples the box overlaps |
| SumGame.FindCell | resources/js/Pages/SumGame.tsx:155 | `findIndex` returns the first index at or after `from` whose apple is in the cell, or -1 when no such apple exists |
| SumGame.MarkRemoved | resources/js/Pages/SumGame.tsx:155-156 | marking never moves, revalues or restores an apple, and never changes the board's length |
| SumGame.RemoveAll | resources/js/Pages/SumGame.tsx:154-157 | removing a whole selection never moves, revalues or restores an apple |
| SumGame.MarkRemovedEffect | resources/js/Pages/SumGame.tsx:155-156 | on a board without shared cells, exactly the apple in the given cell becomes removed |
| SumGame.RemoveAllEffect | resources/js/Pages/SumGame.tsx:154-157 | on a board without shared cells, exactly the apples whose cells the selection lists become removed; every other apple stays as it was |
| SumGame.SelectionCells | resources/js/Pages/SumGame.tsx:91-103 | a cell is listed by the selection exactly when its apple is live and overlapped |
| SumGame.StartDrag | resources/js/Pages/SumGame.tsx:117-128 | a press starts a drag at the pointer only while the round runs, and is ignored otherwise |
| SumGame.MoveDrag | resources/js/Pages/SumGame.tsx:130-137 | while dragging, only the current corner moves, to the pointer; otherwise the move is ignored |
| SumGame.EndDragAsWritten | resources/js/Pages/SumGame.tsx:139-161 | the release handler as written: the drag ends; the clock, phase and cell size stay; the score never falls; no apple is restored |
| SumGame.EndDrag | resources/js/Pages/SumGame.tsx:139-161 | the release handler with the running-round guard: as above, and a release when the round is not running changes neither apples nor score |
| SumGame.DegenerateDragIsIgnored | resources/js/Pages/SumGame.tsx:145 | under both release handlers, a box under 2 px in both directions changes neither apples nor score |
| SumGame.MissIsIgnored | resources/js/Pages/SumGame.tsx:147-160 | under both release handlers, a selection that does not add up to ten changes neither apples nor score |
| SumGame.EmptySelectionMisses | resources/js/Pages/SumGame.tsx:148-150 | under both release handlers, an empty selection changes neither apples nor score |
| SumGame.MatchRemovesSelection | resources/js/Pages/SumGame.tsx:139-157 | for any release of a non-degenerate box, running or not, a match raises the score by exactly the number selected and removes exactly the overlapped live apples; every other apple is unchanged; while the round runs, the guarded handler and the one as written agree |
| SumGame.BoxedPairSelected | resources/js/Pages/SumGame.tsx:84-103 | a box from the origin to (59, 29) over 30 px cells selects both apples of a pair 4, 6 in the top-left corner, and they add up to ten |
| SumGame.ScoresAfterTimeUp | resources/js/Pages/SumGame.tsx:139-161 | counterexample: an ended round still scores 2 on release under the handler as written, and scores nothing under the guarded one |
| SumGame.Start | resources/js/Pages/SumGame.tsx:286-313 | start marks the round started and keeps score and clock; a fresh round gets the full board; pressing start again empties the board |
| SumGame.Tick | resources/js/Pages/SumGame.tsx:317-326 | while running, a second takes the clock down by one, and from 1 or less to 0, which ends the round; the clock never goes negative; otherwise nothing changes |
| SumGame.Reset | resources/js/Pages/SumGame.tsx:330-336 | reset returns to the start screen with score 0 and a 120-second clock |
| SumGame.InitialValid | resources/js/Pages/SumGame.tsx:9-28 | the freshly mounted page satisfies the round invariant |
| SumGame.StepMonotone | resources/js/Pages/SumGame.tsx:117-336 | with the handlers as written, every event keeps the round invariant (distinct cells, values 1..9, clock within 0..120, consistent phase, full clock on the start screen); only reset lowers the score or raises the clock; only start changes the board |
| SumGame.RunMonotone | resources/js/Pages/SumGame.tsx:117-336 | with the handlers as written, the invariant holds over any run; without reset the score never falls and the clock never rises; without start as well, no removed apple comes back |
| SumGame.StepFixedValid | resources/js/Pages/SumGame.tsx:117-336 | with the guarded release, every event also keeps the start screen's score at 0, and score and clock move as under the handlers as written |
| SumGame.RunFixedValid | resources/js/Pages/SumGame.tsx:117-336 | with the guarded release, the start screen never shows points over any run, and without reset the score never falls |
| SumGame.ScoresAfterReset | resources/js/Pages/SumGame.tsx:139-161 | counterexample: reset with two boxed apples 4 and 6 and then release shows 2 points on the start screen with the handlers as written, and 0 with the guarded release |
| SumGame.ClockRunsOut | resources/js/Pages/SumGame.tsx:317-326 | a running round ends with the clock at 0 after as many seconds as it had left, with score and board untouched; presses are then ignored |
| SumGame.EndedStaysEnded | resources/js/Pages/SumGame.tsx:320-322 | seconds after the end change nothing |
| SumGame.ResetThenStart | resources/js/Pages/SumGame.tsx:286-336 | reset followed by start gives a running round with score 0, a full clock and a complete board of live apples |
| Classmates.FilteredClassmates | resources/js/Pages/Classmates.tsx:116-121 | the filtered list is an order-preserving subsequence of exactly the entries that pass the search and the BFF switch; with the switch on every id is a BFF; every kept name or nickname contains the query, ignoring case |
| Classmates.EmptySearchShowsAll | resources/js/Pages/Classmates.tsx:116-121 | with the switch off and an empty query, the whole roster is shown in order |
| Classmates.ToggleBff | resources/js/Pages/Classmates.tsx:130-140 | exactly the toggled id flips membership |
| Classmates.ToggleTwice | resources/js/Pages/Classmates.tsx:130-140 | toggling twice restores the bookmarks |
| Classmates.SendSticker | resources/js/Pages/Classmates.tsx:143-161 | with no open card nothing changes; otherwise that player's entries and the open card each receive one copy signed "You", and every other entry, the BFF list, the form and the photo preview are unchanged |
| Classmates.UnlockBadge | resources/js/Pages/Classmates.tsx:164-188 | with no open card, or a badge already held, nothing changes; otherwise that player gets one unlocked copy, and no one else, nor the BFF list, the form or the photo preview, changes |
| Classmates.WithNewBadgeUnique | resources/js/Pages/Classmates.tsx:168-179 | appending a badge not yet held keeps a player's badge ids distinct |
| Classmates.UnlockKeepsBadgesUnique | resources/js/Pages/Classmates.tsx:164-188 | unlocking keeps the open card in step with the roster and keeps every player's badge ids distinct |
| Classmates.SendKeepsInSync | resources/js/Pages/Classmates.tsx:143-161 | sending keeps the open card in step with the roster |
| Classmates.SelectInSync | resources/js/Pages/Classmates.tsx:315 | opening a card from a roster with distinct ids puts the page in step |
| Classmates.SubmitProfile | resources/js/Pages/Classmates.tsx:203-226 | a blank trimmed name or nickname leaves the page alone; otherwise one player is appended, the old roster is kept as a prefix, and the form and preview are cleared |
| Classmates.SubmittedPlayer | resources/js/Pages/Classmates.tsx:209-220 | the new player has trimmed non-blank names, a handle only when non-blank, no badges or stickers, and player number = old roster length + 1 |
| MemoryReel.AddMemory | resources/js/Pages/MemoryReel.tsx:114-142 | an incomplete form changes nothing; otherwise exactly one memory is put in front of the unchanged list and the form is cleared |
| MemoryReel.AddedMemory | resources/js/Pages/MemoryReel.tsx:119-130 | the added memory is marked new, is a video exactly when the MIME type starts with "video", and carries the form's caption and date |
| MemoryReel.EditMemory | resources/js/Pages/MemoryReel.tsx:174-188 | without a target or with a blank caption nothing changes; otherwise the length is kept and the edit form is cleared |
| MemoryReel.EditChangesOnlyTarget | resources/js/Pages/MemoryReel.tsx:176-181 | an edit changes only caption and date, and only of entries with the target id; length, order and all other fields are kept |
| MemoryReel.DeleteMemory | resources/js/Pages/MemoryReel.tsx:191-196 | a confirmed delete keeps, in order and as many times as each occurs, exactly the memories with another id, and drops every one with that id; an unconfirmed one keeps all |
| MemoryReel.DeleteAbsentIsIdentity | resources/js/Pages/MemoryReel.tsx:193 | deleting an id no memory has leaves the list as it is |
| MemoryReel.DeleteIdempotent | resources/js/Pages/MemoryReel.tsx:193 | deleting the same id twice is deleting it once |
| StatLab.CountIn | resources/js/Pages/StatLab.tsx:55-78 | a filter count never exceeds the number of classmates |
| StatLab.GroupStats | resources/js/Pages/StatLab.tsx:53-80 | one bar per table row, in table order, each counting at most all classmates |
| StatLab.HitsOfDisjoint | resources/js/Pages/StatLab.tsx:43-64 | over disjoint groups a value lies in at most one group, and in exactly one when it lies in any |
| StatLab.DisjointCountsBound | resources/js/Pages/StatLab.tsx:53-80 | over disjoint groups the counts add up to at most the number of classmates, and to exactly that number when every classmate lies in some group |
| StatLab.GroupStatsTotal | resources/js/Pages/StatLab.tsx:53-80 | the bars' total is the sum of the per-group counts |
| StatLab.DisjointStatsBound | resources/js/Pages/StatLab.tsx:53-80 | the bars of disjoint groups total at most the number of classmates, and exactly that number when all are covered |
| StatLab.DistinctSingletonsDisjoint | resources/js/Pages/StatLab.tsx:53-70 | matching by `===` against distinct names gives disjoint groups |
| StatLab.CalculateStats | resources/js/Pages/StatLab.tsx:51-83 | 8 drink, 4 MBTI, 12 zodiac and 12 month bars, each labelled in table order and counting the classmates whose field is in that row |
| StatLab.DrinksDistinct | resources/js/Pages/StatLab.tsx:17-26 | the drink names are distinct |
| StatLab.ZodiacDistinct | resources/js/Pages/StatLab.tsx:28-41 | the zodiac names are distinct |
| StatLab.MbtiGroupsDisjoint | resources/js/Pages/StatLab.tsx:43-48 | the MBTI groups share no type |
| StatLab.MbtiSixteenTypes | resources/js/Pages/StatLab.tsx:43-48 | the groups hold four types each, sixteen in all |
| StatLab.StatsTotalsBound | resources/js/Pages/StatLab.tsx:51-83 | no chart counts more classmates than there are; the MBTI chart counts all of them when every type is one of the sixteen |
| StatLab.MaxBirthCount | resources/js/Pages/StatLab.tsx:93 | the chart height is at least 1, at least every month's count, and is either 1 or some month's count |
| Records.Keys | resources/js/lib/supabase-data.ts:94-103 | the keys are exactly the first components of the entries |
| Records.Lookup | resources/js/lib/supabase-data.ts:104 | a lookup is undefined exactly when no entry has the key, and otherwise returns a value stored under that key |
| Records.LookupEntry | resources/js/lib/supabase-data.ts:94-104 | with unique keys, looking up an entry's key gives that entry's value |
| SupabaseData.OrElse | resources/js/lib/supabase-data.ts:67-71 | JavaScript's logical or on a nullable string keeps a non-empty string and falls back on null or "" |
| SupabaseData.Truthy | resources/js/lib/supabase-data.ts:73-86 | or-ing a nullable string with `undefined` gives a present value exactly when it is a non-empty string |
| SupabaseData.LookupOr | resources/js/lib/supabase-data.ts:104 | a table lookup with a fallback gives the listed value when it is non-empty, and the fallback when the key is not listed |
| SupabaseData.BadgeName | resources/js/lib/supabase-data.ts:93-105 | a listed badge id gets its listed name; an unknown id is named by itself |
| SupabaseData.BadgeIcon | resources/js/lib/supabase-data.ts:107-119 | a listed badge id gets its listed icon; an unknown id gets the trophy |
| SupabaseData.BadgeColor | resources/js/lib/supabase-data.ts:121-133 | a listed badge id gets its listed colour; an unknown id gets #888888 |
| SupabaseData.StickerEmoji | resources/js/lib/supabase-data.ts:136-152 | a listed sticker id gets its listed emoji; an unknown id gets ❓ |
| SupabaseData.StickerName | resources/js/lib/supabase-data.ts:154-170 | a listed sticker id gets its listed name; an unknown id gets "Sticker" |
| SupabaseData.MapBadge | resources/js/lib/supabase-data.ts:75-81 | a stored badge keeps its badge id as id, takes name, icon and colour from the badge lookups, and is unlocked |
| SupabaseData.MapSticker | resources/js/lib/supabase-data.ts:82-87 | a stored sticker keeps its row id, takes emoji and name from the sticker lookups, and has sender "User" exactly when `sender_id` is a non-empty string, none otherwise |
| SupabaseData.MapProfileToClassmate | resources/js/lib/supabase-data.ts:62-90 | id, names and player number are copied; photo and birthday are the column's value, or "" when it is null or empty; zodiac, MBTI and drink default to Aries, INTJ and Water; the handle is kept only when non-empty; the i-th badge and sticker are the mapping of the i-th row, badges unlocked, and a sticker's sender is set exactly when `sender_id` is truthy |
| SupabaseData.BadgeTablesUnique | resources/js/lib/supabase-data.ts:94-131 | each badge table has distinct keys |
| SupabaseData.StickerTablesUnique | resources/js/lib/supabase-data.ts:137-168 | each sticker table has distinct keys |
| SupabaseData.BadgeTablesFollowCatalogue | resources/js/lib/supabase-data.ts:94-131 | entry by entry, the badge tables list the roster catalogue's ids, names, icons and colours |
| SupabaseData.StickerTablesFollowOptions | resources/js/lib/supabase-data.ts:137-168 | entry by entry, the sticker tables list the roster's sticker options |
| SupabaseData.MapBadgeMatchesCatalogue | resources/js/lib/supabase-data.ts:75-133 | a stored badge with a catalogue id maps to that catalogue badge, unlocked |
| SupabaseData.MapStickerMatchesOptions | resources/js/lib/supabase-data.ts:82-170 | a stored sticker with id '1'..'12' maps to that option's emoji and name |
| SupabaseData.UnknownBadge | resources/js/lib/supabase-data.ts:104-132 | an unknown badge id is named by itself, with the trophy icon and #888888 |
| SupabaseData.UnknownSticker | resources/js/lib/supabase-data.ts:151-169 | an unknown sticker id shows ❓ and is named "Sticker" |
| Route.PathOf | resources/js/lib/route.ts:4-17 | a name in the table gets its own path; any other name gets "/" |
| Route.KnownNames | resources/js/lib/route.ts:4-17 | every table entry's name looks up its own path |
| Route.RouteTo | resources/js/lib/route.ts:16-25 | without parameters, or with none given, the route is the looked-up path |
| Route.Substitute | resources/js/lib/route.ts:20-24 | with no parameters the path is returned as it is; a single parameter is exactly one `replace` of its `:key` placeholder |
| Route.SubstituteAppend | resources/js/lib/route.ts:21-23 | parameters apply in entry order: substituting a + b is substituting a, then b |
| Route.SubstituteOne | resources/js/lib/route.ts:22 | a parameter replaces the first occurrence of `:key`, and only that occurrence, by its value as `replace` expands `$` tokens for that match |
| Route.SubstitutePlain | resources/js/lib/route.ts:22 | a value with no `$` token is put in place of the first `:key` as it is |
| Route.MatchTokenKeepsPlaceholder | resources/js/lib/route.ts:22 | a value is not inserted literally: the value `$&` puts the matched `:key` back, so the path is unchanged |
| Route.AbsentPlaceholderIsNoOp | resources/js/lib/route.ts:22 | a parameter whose `:key` does not occur leaves the path unchanged |
| Route.NoColonNoChange | resources/js/lib/route.ts:20-24 | a path without ':' is unchanged by any parameters |
| Route.PathsHaveNoColon | resources/js/lib/route.ts:4-17 | no table path, and not the fallback, contains ':' |
| Route.ParamsNeverChangeRoute | resources/js/lib/route.ts:16-25 | for every name and parameters, route(name, params) == route(name) |
| Text.Trim | resources/js/Pages/Classmates.tsx:204-207 | `trim()` is empty exactly for all-white-space input; otherwise it has no white space at either end and is a slice with only white space cut off |
| Text.IndexOf | resources/js/lib/route.ts:22 | `indexOf` returns the first occurrence at or after `from`, or none |
| Text.Contains | resources/js/Pages/Classmates.tsx:118 | `includes` holds exactly when the pattern occurs |
| Text.Expand | resources/js/lib/route.ts:22 | a replacement template with no `$` token expands to itself |
| Text.ExpandTokens | resources/js/lib/route.ts:22 | the template is expanded left to right: `$$` gives `$`, `$&` the match, `` $` `` the text before it, `$'` the text after it, and every other character, a lone `$` included, itself |
| Text.ReplaceFirst | resources/js/lib/route.ts:22 | `replace` leaves a string without the pattern unchanged |
| Text.IndexOfFirst | resources/js/lib/route.ts:22 | `indexOf` from the start finds exactly the first occurrence |
| Text.ReplaceFirstAt | resources/js/lib/route.ts:22 | at the first occurrence, `replace` keeps the text before and after the match and puts the template, expanded for that match, in between |
| Text.ReplaceFirstPlain | resources/js/lib/route.ts:22 | a template with no `$` token is put in place of the first occurrence as it is |
| Text.DecimalRoundTrip | resources/js/Pages/Classmates.tsx:210 | the decimal rendering of a clock value reads back as that value |
| Seqs.Filter | resources/js/Pages/SumGame.tsx:92 | `filter` keeps exactly the elements satisfying the predicate, as an order-preserving subsequence |
| Seqs.FilterMultiplicity | resources/js/Pages/MemoryReel.tsx:193 | `filter` keeps each satisfying element as many times as it occurs, and no other |
| Seqs.FilterKeepsAll | resources/js/Pages/MemoryReel.tsx:193 | filtering with a predicate every element satisfies changes nothing |
| Seqs.FilterAppend | resources/js/Pages/SumGame.tsx:92 | filtering distributes over concatenation |

## Left out

- Canvas drawing, the apple scale animation, `resizeCanvas` and `requestAnimationFrame` are left out. The cell size is part of the round's state and is never recomputed.
- Event-listener wiring is left out. One consequence is not modelled: toggling light mode re-runs the listener effect, and its cleanup clears the countdown interval mid-round, so the clock stops.
- The green and red feedback box and its timestamp are presentation only.
- `resetGame` and `spawnAppleAt` inside the first effect are never called. The live start path is `handleStartGame` plus the start effect.
- `Math.random()`, `Date.now()`, `URL.createObjectURL`, `FileReader`, `localStorage`, `confirm`, audio and scroll tracking are I/O. Their results are parameters.
- StatLab.CalculateStats: percentages are left out (floating-point division, which divides by zero on an empty roster). `new Date(birthday).getMonth()` is the parameter `monthOf`.
- SupabaseData.MapProfileToClassmate: every asynchronous Supabase query, upload and auth call in the same file is left out as network I/O.
- Records.Lookup: inherited `Object.prototype` keys (such as `constructor`) are not modelled; only the literal's own entries are looked up.
- Route.RouteTo: parameter values are strings; the `String(value)` conversion is left out. `Object.entries` order is the order of the given sequence.
- Text.ToLower: only ASCII A–Z is lower-cased. Unicode case mapping is not modelled.
- SumGame.Overlaps: pointer coordinates, the drag box and the overlap test use JavaScript doubles in the source; the model uses exact reals, so rounding at cell edges is not modelled.
- The toasts, framer-motion animations and the auth pages are left out. So are the background music widget, routing, layout and Laravel controller.
- SupabaseData.MapSticker follows the code, not the type comment: `from` is "User" exactly when `sender_id` is a non-empty string. An empty string counts as absent, because JavaScript treats it as false.
- Text.IndexOf: JavaScript strings are sequences of UTF-16 code units, while Dafny strings here are sequences of Unicode scalar values. Positions that `indexOf` and `replace` compute therefore differ for astral characters such as the sticker emoji; the strings they produce are the same.

## Findings

| source | as written | input that shows it | evidently intended | confidence | as-written member | corrected member |
|---|---|---|---|---|---|---|
| resources/js/Pages/SumGame.tsx:139-161 | the release handler checks only that a drag is in progress, not that the round is still running, so a drag held across the end of the countdown (or a reset) still clears apples and adds to the score | apples 4 at (0,0) and 6 at (0,1), cell size 30, score 5, clock 0, round over, drag from (0,0) to (59,29): releasing raises the final score to 7; the same drag held across a reset shows 2 points on the start screen | input stops when the round ends, as the press handler's guard (lines 118-119) does: a release after the end only ends the drag | not executed | SumGame.EndDragAsWritten, SumGame.ScoresAfterTimeUp, SumGame.ScoresAfterReset | SumGame.EndDrag, SumGame.StepFixedValid, SumGame.RunFixedValid |
