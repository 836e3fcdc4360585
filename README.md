# Lotomania number generator — verified model

A model of the logic inside the single React component of the Lotomania bet
generator (`src/App.tsx`):

- **The bet sampler** (`gerarApostaLotomania`): a rejection-sampling loop that
  draws integers from 0 to 99, pushes a draw only when it is not held yet and
  stops at 50 numbers; the numbers are then sorted ascending in place. The
  random source is an oracle, a finite sequence of draws each in [0, 99]; the
  loop's measure is the number of draws left, so a run can also end early,
  when the oracle runs out. The spec function `Sampler.Gathered` says what the
  loop holds after a prefix of the draws; `Sampler.Collect` is the loop proved
  against it; `Sampler.SortAscending` is the in-place sort on an array;
  `Sampler.GenerateNumbers` chains the two.
- **The history append** and **the counter seeding**: the new history is the
  old one with the bet at the end, it is written to storage, and the counter of
  the new index is set to 0 (`AppState.Appended`).
- **The hit tracker** (`marcarNumero`): a click on the cell of number `n` of
  bet `i` flips its "marked" state (the `bg-green-500` class) and moves the
  counter of bet `i` by −1 or +1 (`AppState.Toggled`). The marked cells are a
  set of (bet index, number) pairs. The `acertos` dictionary is a
  `map<int, Option<int>>`: `None` stands for `undefined` and for `NaN`, which is
  what `undefined - 1` and `undefined + 1` give, so a bet read from storage
  (whose counter was never seeded) keeps a counter that is not a number and
  shows 0 in its heading (`acertos[index] || 0`).

`AppState.App` is the component as a class: fields for the latest bet
(`aposta`), the history (`historicoApostas`), the counters (`acertos`), the
marked cells and the stored snapshot, and one method per handler. Each method's
postcondition ties the new state to `Appended` or `Toggled`; the invariant
`Valid()` says that marks exist only on rendered cells, that a numeric counter
equals the number of marks of its bet, that every bet generated in the session
is 50 strictly ascending numbers in [0, 99] with a numeric counter unless the
storage write of that run threw, that every bet read from storage has none, and
that the stored snapshot is a prefix of the history (equal to it after every
successful write). `Generate` takes a flag saying whether the write to storage
succeeds: `localStorage.setItem` throws when storage is full or disabled, and
then the bet is still shown and appended (`AppState.Pushed`) but the handler
stops before the counter is seeded, so that bet's heading shows 0 just like a
bet read from storage.

A bet is a bare number array, with no game type, date or filter. The heading
count is a separate counter (`acertos`) that a bet read from storage never
gets, so it shows 0 whatever is marked. A stored item that is not valid JSON
makes `JSON.parse` throw in the start-up effect.

Files: `wrappers.dfy` (the `Option` datatype), `sampler.dfy` (module
`Sampler`), `app.dfy` (module `AppState`).

## Model

| member | source | states |
|---|---|---|
| Sampler.Gathered | src/App.tsx:20-26 | The numbers held after consuming a sequence of draws: never more than 50, no duplicates, each one of the draws. |
| Sampler.Collect | src/App.tsx:20-26 | The sampling loop returns exactly `Gathered(draws)`: at most 50 numbers, no duplicates, each in [0, 99], and if fewer than 50, every draw of the oracle is among them. |
| Sampler.GatheredDrawable | src/App.tsx:22 | Every held number is in [0, 99] when every draw is. |
| Sampler.GatheredStable | src/App.tsx:21 | Once 50 numbers are held, further draws change nothing: the loop adds values only while fewer than 50 are held. |
| Sampler.GatheredKeepsAll | src/App.tsx:23-24 | A run that holds fewer than 50 numbers has kept every value it drew. |
| Sampler.GatheredOfDistinct | src/App.tsx:23-24 | Up to 50 distinct draws are all kept, in the order drawn. |
| Sampler.CompletesIff | src/App.tsx:21 | A run ends with exactly 50 numbers if and only if the draws contain at least 50 distinct values. |
| Sampler.ElementsCount | src/App.tsx:23-24 | A sequence has at most as many distinct values as its length, and exactly as many when it has no duplicates. |
| Sampler.NoDuplicatesPermuted | src/App.tsx:27 | A permutation of a duplicate-free sequence is duplicate-free, so sorting keeps the bet free of repeats. |
| Sampler.SortAscending | src/App.tsx:27 | The in-place sort leaves the array ascending and a permutation of its old contents. |
| Sampler.GenerateNumbers | src/App.tsx:19-27 | The generated bet is strictly ascending, each number in [0, 99], a permutation of what the loop collected, at most 50 long, and exactly 50 long if and only if the draws held 50 distinct values. |
| Sampler.FirstFiftyInAnyOrder | src/App.tsx:21-27 | Draws that are 0 to 49 in any order yield, once sorted, exactly [0, 1, ..., 49]. |
| AppState.HasCell | src/App.tsx:41-42 | Definition: `getElementById` finds the cell `numero-<i>-<n>` when `i` is an index of the history and `n` is a number of bet `i` (the cells rendered at src/App.tsx:98-101). |
| AppState.Lookup | src/App.tsx:48-51 | Definition: reading `acertos[i]`, with `undefined` for a key never written. |
| AppState.Shown | src/App.tsx:95 | Definition: the heading's `acertos[index]` with a fallback of 0, the counter when it is a number and 0 for `undefined` or `NaN`. |
| AppState.Moved | src/App.tsx:48-51 | Definition: `counter ± 1`, where `undefined` and `NaN` give `NaN`. |
| AppState.Appended | src/App.tsx:31-36 | Generating appends the bet at the end (length + 1, earlier entries unchanged), seeds the counter of index length − 1 to 0, leaves every other counter and every mark unchanged. |
| AppState.Pushed | src/App.tsx:28-33 | When the storage write throws, the bet is still appended at the end (earlier entries unchanged) and no counter or mark changes. |
| AppState.Toggled | src/App.tsx:40-55 | A click flips the mark of exactly the clicked pair when its cell exists and leaves every other pair and every other counter unchanged; the clicked bet's counter moves −1 if it was marked and +1 if not; with no cell, nothing changes. |
| AppState.MarksAfterFlip | src/App.tsx:43-51 | Marking or unmarking (i, n) adds or removes n among the marks of bet i and changes no other bet's marks. |
| AppState.AppendedKeepsCounts | src/App.tsx:36 | Generating a bet keeps every numeric counter equal to the number of marks of its bet (the new bet starts at 0 with no marks). |
| AppState.PushedKeepsCounts | src/App.tsx:32-36 | An append whose seeding was skipped keeps every numeric counter equal to its bet's marks, and the new bet's counter reads `undefined`. |
| AppState.ToggledKeepsKinds | src/App.tsx:48-51 | A click never turns a numeric counter into `NaN` or an `undefined` one into a number; a numeric counter of the clicked bet moves by exactly −1 or +1. |
| AppState.ToggledKeepsCounts | src/App.tsx:43-54 | A click keeps every numeric counter equal to the number of marks of its bet. |
| AppState.ToggleTwice | src/App.tsx:43-54 | Clicking the same cell twice restores the marks and the history, and restores the counters unless bet i had no key in `acertos`, in which case that key is left `NaN`. |
| AppState.MarksWithinBet | src/App.tsx:98-103 | The marks of a bet are numbers of that bet, so a counter never exceeds the bet's length. |
| AppState.ClickThreeUndoOne | src/App.tsx:40-56 | From a counter of 0 and no marks, clicking three distinct numbers and then one of them again leaves the other two marked and the counter at 2. |
| AppState.ClickScenario | src/App.tsx:31-56 | After three bets are generated from an empty history, three numbers of bet 1 clicked and one of them clicked again, the heading of bet 1 shows 2, equal to its number of marks. |
| AppState.App.constructor | src/App.tsx:6-16 | Start-up: the history is the stored one, no counters, no marks, no latest bet. |
| AppState.App.Generate | src/App.tsx:19-37 | Succeeds exactly when the draws hold 50 distinct values; then the latest bet is a valid bet and, when the storage write succeeds, the state is `Appended` of the old one and the stored snapshot equals the new history; when the write throws, the state is `Pushed` of the old one, the stored snapshot is unchanged and the new index is recorded as unseeded; otherwise nothing changes. The invariant is kept. |
| AppState.App.Toggle | src/App.tsx:40-56 | The new state is `Toggled` of the old one; the latest bet and the stored snapshot are unchanged; the invariant is kept. |
| AppState.App.HitCount | src/App.tsx:95 | The heading's count is the number of marked cells (at most 50) for a bet generated in the session whose counter was seeded, and 0 for a bet read from storage or one whose seeding was skipped, whatever is marked. |

## Left out

- Rendering, styling and the `text-white` class (src/App.tsx:58-114): presentation only; only the "has `bg-green-500`" meaning of a cell is modelled, as the marked set.
- `localStorage` and JSON (src/App.tsx:11-16, 33): platform I/O. The stored history is an arbitrary input of the constructor (an absent or empty item is the empty history) and the written snapshot is the field `saved`; whether the write succeeds is a parameter of `Generate`. A stored snapshot that is not a JSON array of number arrays is not modelled: invalid JSON makes `JSON.parse` throw in the start-up effect, and valid JSON of another shape (`null`, an object, `[1, 2]`) makes the render's `.map` throw (src/App.tsx:89, 98).
- `Math.random`: replaced by an oracle of draws in [0, 99]; nothing is said about uniformity.
- AppState.App.Generate: when the oracle runs out before 50 distinct values, the model reports failure and changes nothing; the real loop would keep drawing.
- React hook semantics: asynchronous `setState` batching, stale closures and the `useEffect` lifecycle; each handler is one atomic transition, and the history is loaded before any click.
- Sampler.SortAscending: `Array.prototype.sort` with a numeric comparator is modelled by an insertion sort; only its result (ascending, a permutation) is claimed to match the engine's.
- Duplicate numbers inside a bet read from storage render several cells with one id; `getElementById` reaches the first, and the model keeps one mark per (bet index, number) pair, matching that.
