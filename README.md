# Milestone checklist — a Dafny model

The Milestone page renders a grid of 1000 numbered checkboxes. Its one React
component keeps a single piece of state, `checkedState`, a JavaScript array of
booleans. Clicking cell `i` runs `toggleCheckbox(i)`, which copies the array
and flips entry `i`. The "Reset Progress" button replaces the array with `[]`.
The header shows how many entries are truthy and the percentage of 1000 that
this makes. The array is read from local storage when the component mounts
and written back after every change.

This project models that state holder:

- `checklist.dfy`, module `Checklist`: the state as a value. `Slot` is one
  array entry: a boolean, or `Absent` for a hole, `undefined` or `null`, which
  are all falsy. It also defines `Flip` (the toggle, with JavaScript's growth
  of an array assigned past its end), `Count` (`filter(Boolean).length`),
  `Percentage`, the initial state, and sessions of clicks. The lemmas about
  them are here too.
- `page.dfy`, module `MilestonePage`: class `Milestone`. It holds the current
  array in an `array<Slot>` field and a ghost `stored` field for what the
  storage key holds. `Toggle` and `Reset` replace the array with a fresh one,
  as the source does, and update `stored` the way the effect does.
  `CompletedCount` and `CompletionPercentage` read the current array.

Two behaviours of the code are worth stating up front:

- `JSON.parse` at app/page.tsx:12 has no `try`, so a malformed stored value
  throws; the model adds no fallback.
- Toggling an index twice restores only each entry's truthiness: an absent
  entry comes back as `false`, and an index past the end leaves the array
  longer (`Checklist.FlipTwice`).

## Model

| member | source | states |
|---|---|---|
| `Checklist.Pad` | app/page.tsx:28 | assigning at index `n-1` of a shorter array makes its length `n`, keeps every old entry and leaves the new gap entries absent |
| `Checklist.Count` | app/page.tsx:33 | the completed count is never more than the array's length |
| `Checklist.Percentage` | app/page.tsx:34 | the percentage of a count against 1000 equals count/10, is never negative, and is at most 100 when the count is at most 1000 |
| `Checklist.InitialState` | app/page.tsx:10-15 | outside a browser, or with no stored value, the initial state is the empty array; in a browser with a stored array, the initial state is that array |
| `Checklist.Flip` | app/page.tsx:25-31 | a toggle grows the array just enough to cover the index (length unchanged for an index in range, index+1 otherwise), sets that entry to the negation of its old truthiness (absent becomes `true`) and gives every other index its old value, or absent for a new gap |
| `Checklist.FlipTwice` | app/page.tsx:28 | toggling an index twice restores the truthiness of every index; an absent entry comes back as `false`; a boolean entry in range brings back exactly the old array |
| `Checklist.CountIsTruthyIndices` | app/page.tsx:33 | the count equals the number of indices holding a truthy entry |
| `Checklist.CountUpdate` | app/page.tsx:33 | replacing one entry changes the count by the new entry's truthiness minus the old one's |
| `Checklist.CountPad` | app/page.tsx:28-33 | the gap entries a growing assignment leaves are not counted |
| `Checklist.FlipCount` | app/page.tsx:25-33 | a toggle raises the count by exactly 1 when the entry was falsy and lowers it by exactly 1 when it was truthy |
| `Checklist.GridCountMatchesCells` | app/page.tsx:58-68 | while the array is at most 1000 long, the count shown equals the number of grid cells rendered as checked |
| `Checklist.Step` | app/page.tsx:61-92 | a click on a cell (line 61) moves the count by exactly one, up when the entry was falsy and down when truthy, leaves the truthiness of every other index alone, and keeps a state of at most 1000 entries at most 1000 long for a grid index; a reset (line 92) yields the empty array with count 0, whatever the state before |
| `Checklist.GridRunStaysBounded` | app/page.tsx:58-61 | starting from at most 1000 entries, any sequence of grid clicks (indices 0..999) and resets keeps the length and the count at most 1000 and the percentage within [0, 100] |
| `Checklist.ClickFirstChecksThem` | app/page.tsx:58-61 | from the empty state, clicking cells 0..n-1 in turn gives exactly n `true` entries and count n; for n = 100 the percentage is 10 |
| `MilestonePage.Milestone.constructor` | app/page.tsx:10-23 | the state starts as the initial state from storage; in a browser the storage key then holds it, and outside one nothing is stored |
| `MilestonePage.Milestone.Toggle` | app/page.tsx:19-31 | the state becomes a fresh array equal to the toggle of the old one; the old array is not mutated; in a browser storage holds the new state, outside one nothing is stored; a grid index keeps a state of at most 1000 entries at most 1000 long |
| `MilestonePage.Milestone.Reset` | app/page.tsx:92 | the state becomes a fresh empty array, in a browser storage holds `[]`, and the completed count is 0 |
| `MilestonePage.Milestone.CompletedCount` | app/page.tsx:33 | the count is at most the array length, and with at most 1000 entries it is the number of checked grid cells |
| `MilestonePage.Milestone.CompletionPercentage` | app/page.tsx:34 | the percentage is the count divided by 10, and lies in [0, 100] while the array has at most 1000 entries |
| `MilestonePage.ClickTwice` | app/page.tsx:25-33 | clicking the same cell twice keeps storage in step, restores the truthiness of every index and the completed count |

## Left out

- Rendering: the JSX, CSS classes and framer-motion animations (app/page.tsx:36-99) are presentation. Only which cells show a tick is modelled (`CheckedCells`).
- Local storage and JSON: the model does not read or write storage. The ghost field `stored` stands for the key's content after each write. JSON text, `JSON.stringify` and `JSON.parse` are not modelled. The constructor receives the already-parsed array. A malformed stored value, which makes `JSON.parse` throw, is outside the model.
- Stored arrays whose entries are not booleans or `null` (numbers, strings, objects that a hand-edited key could hold) are not modelled. `Slot` has only booleans and absent entries.
- A stored value that is valid JSON but not an array (`null`, `5`, `{}`) parses without error and then makes `checkedState.filter` throw at app/page.tsx:33. The constructor only receives arrays, so this failure is not modelled. The grid never writes such a value.
- JavaScript treats indices of 2^32-1 and above as plain properties: the length stays the same and `filter` skips them. `Flip` grows the array to `index + 1` for every natural number, so it does not capture this. The grid only issues indices 0 to 999.
- Floating point: `completionPercentage` is computed on reals. IEEE rounding of `count / 1000 * 100` and the `Math.round` in the header (app/page.tsx:43) are not modelled.
- `hoveredIndex` (app/page.tsx:17) is declared but never set or read.
- React scheduling: the `useState` initialiser and the effect's timing are framework behaviour. The model applies the updater at once and runs the effect straight after each change.
- Indices: `Toggle` takes a natural number. Negative or fractional indices, which JavaScript would store as plain properties, are never issued by the grid and are not modelled.
