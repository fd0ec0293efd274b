# Filippine puzzle engine in Dafny

A model of the engine behind the browser "Filippine" word puzzle. The puzzle is
a list of clued answer words laid out in a staggered grid. One letter of each
word, at its `solutionIndex`, spells the hidden solution, and some letter
positions are shared between neighbouring words ("intersections", tagged with a
group letter A, B, …). The model covers:

- the intersection index built from the puzzle's intersection records, keyed by
  `(word, position)` cells;
- the per-word answer strings (`wordInputs`): padding, writing and clearing a
  cell, and propagating a typed or cleared letter to the connected cells;
- validation: `checkSingle`, `checkIntersections`, and the Check button's
  verdict;
- the page session (answers, active word, cursor) and its handlers: the
  document key listener, the on-screen keyboard, the Clear button, and loading
  from storage;
- the layout arithmetic: ghost cells, the solution row, and the storage key;
- the concrete puzzle instance "Valkparkiet".

Modules, one file each:

| file | module | what it holds |
|---|---|---|
| `wrappers.dfy` | `Wrappers` | `Option` |
| `jstext.dfy` | `JsText` | JavaScript string primitives used by the engine: the ECMAScript whitespace set, `trim`, ASCII `toUpperCase`/`toLowerCase` |
| `puzzle.dfy` | `Puzzle` | words, intersection records, cells, well-formedness of a puzzle |
| `cellkey.dfy` | `CellKey` | the `"w-p"` string keys of the map and their parse |
| `intersection_index.dfy` | `IntersectionIndex` | `buildIntersectionMap` as a function and as a loop, group number and colour |
| `answer_state.dfy` | `AnswerState` | answer strings, edits, `handleCellIntersection`, `propagateLetter` |
| `validator.dfy` | `Validator` | `checkSingle`, `checkIntersections`, the Check button |
| `session.dfy` | `Session` | the page state as a value and each handler as a function over it |
| `game.dfy` | `Engine` | class `Game`: the same handlers as methods updating `wordInputs`, `activeWordIndex` and `currentCellPosition` in place |
| `layout.dfy` | `Layout` | ghost cells, the solution row, `STORAGE_KEY` |
| `instance.dfy` | `Instance` | the Valkparkiet puzzle and facts about it |

Design points the proofs bring out:

- The index lists only the direct partners of a cell: the other ends of the
  records that touch it. It is not closed under transitivity. A cell shared by
  two records of one group therefore lists both partners, but those partners do
  not list each other. Propagation reaches direct partners only.
- Correctness uses the trimmed, upper-cased value. Intersections instead
  compare the raw character at the record's position, upper-cased, and a
  space counts as a letter there: a space opposite a letter is a conflict, and
  two spaces agree. In the Valkparkiet instance, the intersection records
  disagree with the answers for every group but B, so no set of answers that
  fits the grid can win (`VictoryUnreachable`). Stored answers indented by five
  spaces do win (`VictoryFromStorage`): `checkSingle` trims them to the right
  answers, and every intersection position (all below 5) then holds a space at
  both ends.
- The cursor stays inside the active word as long as every answer string is no
  longer than its word (`Fits`). Strings loaded from storage need not fit, and
  then the cursor can leave the word (`CursorLeavesWord`).
- `propagateLetter` is never called on the page. It is modelled anyway, and
  its guarantee needs an extra condition: no cell is reached from two different
  positions.

`Game` methods are each proved to move the page to the state that the
matching `Session` function gives. The properties are proved about those
functions.

## Model

| member | source | states |
|---|---|---|
| IntersectionIndex.BuildIntersectionMap | script.js:578-611 | the loop over the records builds exactly the index `IndexOf` describes |
| IntersectionIndex.IndexConnected | script.js:581-610 | a cell has an entry iff some record touches it; its `connected` list is the other ends of those records, in record order |
| IntersectionIndex.IndexSymmetric | script.js:591-610 | if `a` lists `b` then `b` has an entry listing `a`, and the multiplicities agree |
| IntersectionIndex.OppositesSymmetric | script.js:591-610 | `b` occurs among `a`'s partners exactly as often as `a` among `b`'s |
| IntersectionIndex.IndexGroupFromFirst | script.js:591-607 | an entry's group and colour are those of the first record that touches the cell |
| IntersectionIndex.IndexCellsAreEndpoints | script.js:588-610 | every connected cell shares a record with the entry's cell |
| IntersectionIndex.IndexWithinPuzzle | script.js:588-589 | for a well-formed puzzle, every key and every connected cell is a real cell of the grid |
| IntersectionIndex.GroupNumber | script.js:583 | defined iff the group name is non-empty; A..Z give 1..26 |
| IntersectionIndex.ColorIndex | script.js:584-585 | always below the palette size 10; none for an empty group; for a first code unit `u`: `(u - 65) mod 10` from 'A' on, and below 'A' index 0 when `65 - u` is a multiple of 10 and none (an `undefined` colour) otherwise |
| IntersectionIndex.JsRem | script.js:585 | JavaScript `%`: `a == b * TruncDiv(a, b) + r` with the quotient rounded toward zero; in `[0, b)` for a non-negative dividend and in `(-b, 0]` for a negative one |
| CellKey.KeyRoundTrip | script.js:1023 | splitting `"w-p"` on `-` and reading both numbers gives the cell back |
| CellKey.KeyInjective | script.js:588-589 | two cells have the same key iff they are equal |
| AnswerState.PadEnd | script.js:624-626 | `padEnd`: length is the larger of the two, old characters kept, spaces after them |
| AnswerState.SetAt | script.js:624-629 | the character at `p` is the letter; every other position is kept or padded with a space |
| AnswerState.ClearAt | script.js:901-906 | the length is kept; position `p` becomes a space when the string reaches it; nothing else changes |
| AnswerState.PropagateFrame | script.js:1015-1137 | propagation changes only the connected cells other than the source |
| AnswerState.PropagateNonBlank | script.js:1020-1083 | after a non-blank letter, every connected cell other than the source holds that letter |
| AnswerState.PropagateBlank | script.js:1084-1136 | after a blank, no string changes length and every connected cell within its string is a space |
| AnswerState.PropagateSettledIsIdentity | script.js:1037-1038 | if every target already holds what would be written, nothing changes |
| AnswerState.EditEffect | script.js:620-633 | after `handleCellInput` the cell holds the letter; a non-blank letter also reaches every connected cell; a blank letter (Escape) clears every other connected cell its string reaches; only those cells change |
| AnswerState.EditIdempotent | script.js:620-633 | entering the same letter twice in the same cell is the same as entering it once |
| AnswerState.EraseEffect | script.js:900-912 | deleting keeps every string's length, blanks the cell and its reachable partners, and changes nothing else |
| AnswerState.EditKeepsFits | script.js:620-633 | editing or erasing a real cell, with an index inside the grid, keeps every string within its word's length |
| AnswerState.PropagateLetterFrame | script.js:1140-1176 | `propagateLetter` changes only cells reached from positions that have an entry and a non-blank letter |
| AnswerState.PropagateLetterHolds | script.js:1140-1176 | when no cell is reached from two positions, every reached cell ends up holding the letter of the position that reached it |
| Engine.Game.constructor | script.js:434-436 | the index is `IndexOf` of the records, every answer is empty, no word is active, the cursor is 0 |
| Engine.Game.HandleCellIntersection | script.js:1015-1137 | the loop leaves the answers equal to `Intersect` of the old answers |
| Engine.Game.HandleCellInput | script.js:620-633 | new state is `Session.Input` of the old |
| Engine.Game.FocusGridCell | script.js:989-1012 | new state is `Session.Focus` of the old |
| Engine.Game.HandleDelete | script.js:868-923 | new state is `Session.Delete` of the old |
| Engine.Game.HandleBackspace | script.js:926-986 | new state is `Session.Backspace` of the old |
| Engine.Game.FindFirstEmptyCell | script.js:1293-1301 | the scan returns `FirstEmpty` of the active string |
| Engine.Game.SelectWord | script.js:1273-1286 | new state is `Session.SelectWord` of the old |
| Engine.Game.TypeLetter | script.js:145-156 | new state is `Session.TypeLetter` of the old |
| Engine.Game.KeyDown | script.js:96-156 | new state is `Session.KeyDown` of the old |
| Engine.Game.VirtualKey | script.js:1598-1640 | new state is `Session.Virtual` of the old |
| Engine.Game.ClearButton | script.js:1538-1576 | every answer is `""`, no word is active, the cursor is 0 |
| Engine.Game.LoadFromStorage | script.js:445-451 | the stored array replaces the answers only when it has one entry per word |
| Engine.Game.PropagateLetter | script.js:1140-1176 | the nested loops leave the answers equal to `AnswerState.PropagateLetter` of the upper-cased value |
| Validator.CheckSingle | script.js:1348-1402 | correct iff the trimmed, upper-cased value equals the answer; filled iff the value is not all whitespace; the solution letter is shown iff correct and filled, and it is the answer's letter at `solutionIndex` |
| Validator.CorrectWithinAnswer | script.js:1350-1352 | for a value no longer than its word, correct iff its upper-cased form is the answer |
| Validator.CheckIntersections | script.js:1405-1460 | the grouping and scanning loops return exactly `ConflictsOf` |
| Validator.ConflictsExact | script.js:1436-1456 | the conflicts are, as a multiset, the disagreeing records (present letters that differ) of the groups whose letters are not all equal |
| Validator.ConflictsIffDisagree | script.js:1420-1457 | some conflict is reported iff some record's two present letters differ |
| Validator.ConflictGroups | script.js:1513 | a group appears among the conflict groups iff one of its records disagrees |
| Validator.Dedup | script.js:1513 | `new Set`: the same elements with no repeats |
| Validator.CheckButton | script.js:1490-1532 | the loop counts and branches to exactly `OutcomeOf` |
| Validator.ConflictToast | script.js:1511-1517 | the conflict message is shown iff some record disagrees, and it names exactly the disagreeing groups |
| Validator.TallyToast | script.js:1518-1532 | without conflicts: victory iff every word is correct, "none" iff no word is, otherwise the count of correct words |
| Validator.CountCorrectIsCard | script.js:1491-1498 | the Check button's tally is the number of words whose value is correct |
| Validator.CountTrueBounds | script.js:1491-1497 | the count is at most the number of words; it equals it iff all are true and is 0 iff none are |
| Session.FirstEmpty | script.js:1293-1301 | the first space of the string, or 0 when there is none |
| Session.SelectWord | script.js:1273-1286 | answers kept, the word becomes active, a cursor inside the word is kept |
| Session.SelectWordCursor | script.js:1278-1286 | with a fitting string, the cursor ends inside the word; an out-of-range cursor falls back to the first space |
| Session.KeyDown | script.js:96-156 | keeps one answer per word and the active word among the words; nothing changes while an editable cell has focus or no word is active |
| Session.Virtual | script.js:1598-1640 | keeps one answer per word and the active word among the words |
| Session.LoadKeepsSession | script.js:445-451 | a load that replaces the answers keeps the session invariant iff the stored answers fit their words; any other load keeps it outright |
| Session.KeyDownKeepsSession | script.js:108-156 | every key keeps the answers fitting and the cursor inside the active word |
| Session.StepKeepsSession | script.js:96-156 | every event keeps that invariant, when loaded answers fit |
| Session.RunKeepsSession | script.js:96-156 | any sequence of such events keeps it |
| Session.InitialOk | script.js:434-437 | the start state satisfies it |
| Session.ArrowKeys | script.js:114-122 | left and right move the cursor by one within the word, stop at its ends and leave the answers alone; right then left returns to the same state |
| Session.TypedLetter | script.js:145-156 | a typed letter is written upper-cased at the cursor, and the cursor advances unless on the last cell |
| Session.BackspaceKey | script.js:982-985 | backspace blanks the cell (when the string reaches it) and moves back one cell unless at the first |
| Session.ArrowUpDown | script.js:123-136 | up and down select the neighbouring word, if any, and keep the answers |
| Layout.MaxSolutionIndex | script.js:175 | an upper bound of every `solutionIndex`, reached by some word |
| Layout.SolutionColumn | script.js:175-191 | ghost counts are non-negative, every row's solution letter lands in one column, and some row has no ghosts |
| Layout.SolutionRowShape | script.js:158-172 | one letter slot per word, in word order, and one spacer per `breakAfter` word |
| Layout.DashRuns | script.js:440-442 | the result has no whitespace and is no longer than the input |
| Layout.StorageKey | script.js:440-442 | the key starts with `filippine-puzzle-` and has no whitespace |
| Layout.DashRunsJoin | script.js:440-442 | a run of whitespace between two words becomes exactly one dash |
| Instance.WordsOk | puzzle.js:5-47 | eight words, each with a solution letter inside an upper-case answer |
| Instance.InstanceWellFormed | puzzle.js:51-72 | seven records, each between two different words at positions inside them |
| Instance.GroupIds | puzzle.js:53-71 | the groups are A..G, all distinct, numbered 1..7 with colours 0..6 |
| Instance.SolutionRowOfInstance | puzzle.js:30 | the row is eight letter slots with one spacer after STRIPREEKS |
| Instance.GhostsOfInstance | puzzle.js:19 | the solution column is 5, set by PASCALE, which has no ghosts |
| Instance.SharedLetters | puzzle.js:52-71 | the two answers agree at a record's cells only for group B |
| Instance.NeroPandaClash | puzzle.js:53 | fitting answers with NERO and PANDA both correct always conflict in group A |
| Instance.NoVictoryWithinGrid | script.js:1524-1531 | no fitting answers reach the victory message |
| Instance.VictoryUnreachable | script.js:1524-1531 | no sequence of grid events from the start reaches it |
| Instance.VictoryFromStorage | script.js:445-451 | stored answers indented by five spaces load, do not fit, and reach it |
| Instance.CursorLeavesWord | script.js:1278-1300 | after loading a string longer than DDT, six events leave the cursor outside DDT, and a typed letter lands outside the grid |

## Left out

- Rendering (`updateVisualRow`, the grid, the clue list, the solution cells, colour hex strings): the model keeps the group's colour index only.
- The contentEditable cell handlers and their focus/mousedown listeners (script.js:256-389 and 687-865). The model takes their text input only as the events `Key`, `OnScreen`, `Click` and `ClearButton`. Two known defects lie in this left-out code. The Escape branch of `handleGridCellKeydown` reads a `cell` that is not declared there (script.js:798), so it throws a ReferenceError before writing anything. `handleGridCellInput` writes the whole filtered `text` instead of one letter (script.js:742); this stays latent, because its reachable caller (script.js:858) first cuts the cell down to one letter.
- Session.Load: a stored array is modelled as a list of strings. The page takes any parsed array of the right length (script.js:450-451), so entries such as `null` or numbers are kept. `updateVisualRow` throws on the first such entry at `text.toUpperCase()` (script.js:1308, called at script.js:455), before `checkSingle` runs on it; the `catch` at script.js:460 swallows the error, and the later rows are neither drawn nor checked. The model cannot represent such entries.
- Strings are sequences of Unicode scalar values, while JavaScript indexes UTF-16 code units. For an answer containing a character outside the Basic Multilingual Plane (reachable only through stored answers), `.length`, `[pos]`, `padEnd` and the positions `findFirstEmptyCell` returns differ between the page and the model.
- `localStorage` and `JSON.parse`: reading is a parameter `Option<Inputs>`, where `None` stands for nothing stored or a parse error. `saveToStorage` and `clearStorage` write only and are not modelled.
- Timers, the victory modal and video, clue popups, `isTouchDevice`, window sizes, and mobile sizing.
- Case mapping is ASCII only. `toUpperCase` of other letters is not modelled.
- The on-screen keyboard's letter is one character. index.html is not part of this model.
- The DOM classes that `checkSingle` sets are not modelled. Its result is returned as a value.
- FirstEmpty: the `!wordValue[i]` test is left out, because inside the string's bounds it is always false.
- The index is keyed by `Cell` values rather than `"w-p"` strings. `CellKey.KeyRoundTrip` and `CellKey.KeyInjective` show that the two keyings agree.
- `console.log` calls.
