# Jigsaw quiz: a verified model of the puzzle state machine

The widget shows a 2x2 grid of tiles over a hidden picture. Each tile hides behind a
trivia question. Clicking a hidden tile opens its question in a modal. The right option
first shows "Correct!". The modal later reports the answer, which reveals that tile's
quadrant and closes the modal. A wrong option only shakes the modal. Once every tile is
revealed, the puzzle becomes complete. "Play Again" starts a new puzzle on a picture
drawn from a fixed catalog.

The model has three modules:

- `Tiles` (`tiles.dfy`) holds the value side. It has the `Tile` and `Question` records and
  the four fixed tiles a puzzle starts from (`InitialTiles`). It also has the map that
  reveals the active tile (`Reveal`), the completion test (`IsSolved`) and the lookup of
  the active tile's question (`ActiveQuestion`).
- `Puzzle` (`puzzle.dfy`) holds the component as one class, `JigsawPuzzle`. Its fields
  are the component's state (`currentImage`, `tiles`, `activeTileId`, `isModalVisible`,
  `isComplete`) and the quiz modal's two flags (`isCorrect`, `isShaking`). Every event
  handler is a method with a `modifies` clause. Every delayed callback is its own step
  method, which the caller fires when the timer would (`Submit`, `ClearShake`,
  `SettleHidden`, `CheckCompletion`). The invariant `Valid()` says:
  - the tiles keep a fresh puzzle's layout over the current picture;
  - an active id names one of the tiles;
  - `isComplete` is only true for a solved puzzle.
- `Scenarios` (`scenarios.dfy`) has walkthroughs built only from the operations'
  contracts:
  - solving all four tiles;
  - a wrong answer;
  - dismissing a question and opening it again;
  - a submit that fires after another tile was opened;
  - Play Again after completion.

The random picture pick is a parameter: `StartNewPuzzle(i)` takes the index
`i < |PuzzleImages|`.

The model follows the code as written, which:

- never clears `activeTileId`. The id keeps naming the last opened tile after that tile
  is revealed, after the modal closes, and across a new puzzle.
- leaves `activeTileId` and the modal's visibility as they were when a new puzzle starts.
- changes state on a wrong answer: it sets the modal's `isShaking`.
- clears only the modal's `isCorrect` and `isShaking` flags in the 300 ms step after the
  modal hides. It does not clear the active tile.
- reveals, on a delayed submit, the tile that was active when the right option was
  clicked. The submit callback keeps the handler of that moment. `OptionClick` returns
  that id and `Submit` takes it, so a submit that fires after another tile was opened
  still reveals the answered tile (`Scenarios.LateSubmit`).

## Model

| member | source | states |
|---|---|---|
| `Tiles.InitialTiles` | src/components/JigsawPuzzle.jsx:252-297 | exactly four tiles with ids 1..4 in order, all hidden, all showing the given picture; their positions are the four quadrants, pairwise distinct; each question has four distinct options and its answer is one of them; none is revealed (revealed count 0) |
| `Tiles.InitialTilesDifferOnlyInImage` | src/components/JigsawPuzzle.jsx:252-297 | the tiles of two fresh puzzles differ only in their picture: positions and questions are fixed content |
| `Tiles.SameLayoutHasUniqueIds` | src/components/JigsawPuzzle.jsx:254-289 | tiles laid out like a fresh puzzle have ids 1..4 by position, so no two share an id |
| `Tiles.IsSolved` | src/components/JigsawPuzzle.jsx:318 | the completion test holds exactly when the list is non-empty and its revealed count equals its length |
| `Tiles.CountZeroIffNoneRevealed` | src/components/JigsawPuzzle.jsx:252-297 | the revealed count is zero exactly when no tile is revealed |
| `Tiles.CountFullIffAllRevealed` | src/components/JigsawPuzzle.jsx:318 | the revealed count equals the tile count exactly when every tile is revealed |
| `Tiles.SolvedIffFourRevealed` | src/components/JigsawPuzzle.jsx:318 | on a puzzle's layout, the completion test holds exactly when all four tiles are revealed |
| `Tiles.RevealIfActive` | src/components/JigsawPuzzle.jsx:335 | the map callback changes at most the reveal flag; the flag afterwards is the old flag or whether the tile's id is the active id |
| `Tiles.Reveal` | src/components/JigsawPuzzle.jsx:333-337 | a correct answer keeps the tile count and every tile's id, position, picture and question; a tile is revealed afterwards exactly when it was revealed before or its id is the active id; no revealed tile is hidden |
| `Tiles.CountMonotone` | src/components/JigsawPuzzle.jsx:333-337 | a step that hides no revealed tile never lowers the number of revealed tiles |
| `Tiles.RevealChangesOnlyActive` | src/components/JigsawPuzzle.jsx:333-337 | with unique ids, a correct answer changes exactly the active tile (its flag becomes true) and leaves every other tile as it was |
| `Tiles.RevealCountsOne` | src/components/JigsawPuzzle.jsx:333-337 | a correct answer on a hidden active tile reveals exactly one more tile |
| `Tiles.RevealOnLayout` | src/components/JigsawPuzzle.jsx:333-337 | on a puzzle's layout, a correct answer keeps the layout, changes exactly the tile with the answered id, and reveals one more tile when that tile was hidden |
| `Tiles.ActiveQuestion` | src/components/JigsawPuzzle.jsx:341-343 | there is no question exactly when no tile carries the active id; otherwise the question is that of the first tile carrying it |
| `Tiles.ActiveQuestionOfTile` | src/components/JigsawPuzzle.jsx:341-343 | with unique ids, the lookup for a tile's id yields that tile's question |
| `Tiles.ActiveQuestionOnLayout` | src/components/JigsawPuzzle.jsx:341-343 | on a puzzle's layout, a question is found exactly when the active id is one of 1..4, and it is the question of the tile with that id |
| `Puzzle.JigsawPuzzle.constructor` | src/components/JigsawPuzzle.jsx:299-303 | the state before the first puzzle: the first catalog picture, no tiles, nothing active, modal hidden, not complete, both modal flags false |
| `Puzzle.JigsawPuzzle.StartNewPuzzle` | src/components/JigsawPuzzle.jsx:305-311 | the picture becomes catalog entry `i`, the tiles become the fresh tiles over it (none revealed), and completion is reset; the active tile, the modal's visibility and the modal's flags are left unchanged |
| `Puzzle.JigsawPuzzle.HandleTileClick` | src/components/JigsawPuzzle.jsx:323-326 | the given tile id becomes active and the modal becomes visible; nothing else changes |
| `Puzzle.JigsawPuzzle.ClickTile` | src/components/JigsawPuzzle.jsx:149 | clicking a revealed tile leaves the whole state unchanged; clicking a hidden tile makes its id active and shows the modal |
| `Puzzle.JigsawPuzzle.HandleCloseModal` | src/components/JigsawPuzzle.jsx:328-330 | only the modal's visibility changes, to false; on an already-closed modal nothing changes (idempotent) |
| `Puzzle.JigsawPuzzle.HandleCorrectAnswer` | src/components/JigsawPuzzle.jsx:332-339 | the tiles become `Reveal` of the old tiles and the answered id (the active id of the render whose handler runs); with that tile present, exactly that tile changes; the revealed count never drops and rises by one when the answered tile was hidden; the modal closes; everything else is unchanged |
| `Puzzle.JigsawPuzzle.CheckCompletion` | src/components/JigsawPuzzle.jsx:317-321 | completion becomes true when the tiles are non-empty and all revealed; otherwise it keeps its old value; nothing else changes |
| `Puzzle.JigsawPuzzle.CurrentQuestion` | src/components/JigsawPuzzle.jsx:341-343 | in a valid state there is a question exactly when some tile id is active, and it is the question of the tile with that id |
| `Puzzle.JigsawPuzzle.OptionClick` | src/components/JigsawPuzzle.jsx:183-195 | once the answer has been found correct, nothing changes; an option equal to the question's answer sets only `isCorrect`; any other option sets only `isShaking`, leaving the tiles, the active tile, the modal's visibility and completion untouched; the submit is scheduled, carrying the current active id, exactly on the right option |
| `Puzzle.JigsawPuzzle.Submit` | src/components/JigsawPuzzle.jsx:188-190 | the delayed report of a correct answer reveals the tile answered (the id captured when it was scheduled), closes the modal and changes nothing else |
| `Puzzle.JigsawPuzzle.ClearShake` | src/components/JigsawPuzzle.jsx:193 | the delayed end of a shake clears `isShaking` and nothing else |
| `Puzzle.JigsawPuzzle.SettleHidden` | src/components/JigsawPuzzle.jsx:174-181 | the delayed reset after the modal hides clears both modal flags and nothing else |
| `Scenarios.SolveTile` | src/components/JigsawPuzzle.jsx:413-419 | opening a hidden tile and picking its answer, then firing the submit, settle and completion steps, reveals exactly that tile (one more revealed), leaves the modal closed with both flags clear, and marks completion exactly when the puzzle is solved |
| `Scenarios.PlayThrough` | src/components/JigsawPuzzle.jsx:317-321 | answering all four tiles in turn completes the puzzle, with all four revealed, the fourth tile still active and the modal hidden |
| `Scenarios.WrongAnswer` | src/components/JigsawPuzzle.jsx:191-194 | a wrong option on the first tile leaves it hidden and active, keeps the modal open, and only starts the shake |
| `Scenarios.DismissAndReopen` | src/components/JigsawPuzzle.jsx:328-330 | a dismissed question leaves its tile hidden and the tile can be opened again |
| `Scenarios.LateSubmit` | src/components/JigsawPuzzle.jsx:174-190 | when the settle step of an earlier close clears "Correct!" and another tile is opened before the submit fires, the submit still reveals the answered tile and the newly opened tile stays hidden and active |
| `Scenarios.PlayAgain` | src/components/JigsawPuzzle.jsx:409-411 | Play Again after completion gives a fresh, unsolved puzzle on the chosen picture, while the last answered tile stays active and the modal stays hidden |

## Left out

- Rendering is not modelled, because it holds no logic. This covers the JSX markup, the `Tile` and `CompletionScreen` views, the SVG icons and the CSS keyframes.
- The delays (1500 ms, 500 ms, 300 ms, 800 ms) are not modelled as real time. Each delayed callback is a step method the caller fires. The model does not record which timers are pending, so it does not capture a stale callback that fires after a new puzzle has started.
- Puzzle.JigsawPuzzle.SettleHidden: can be called at any time. The component only schedules it when the modal becomes hidden.
- Puzzle.JigsawPuzzle.Submit: can be called at any time and with any id. The component only fires it 1500 ms after a right option, with the id `OptionClick` returned.
- Puzzle.JigsawPuzzle.ClearShake: can be called at any time. The component only fires it 500 ms after a wrong option.
- Puzzle.JigsawPuzzle.OptionClick: can be called while the modal is hidden, and with no active question, where it is a no-op. The component renders no options in either case, so such a click cannot happen.
- Puzzle.JigsawPuzzle.ClickTile and Puzzle.JigsawPuzzle.HandleCloseModal: can be called in any state. In the component the modal overlay or the completion screen covers the grid, so no tile can be clicked then, and there is no close button while "Correct!" shows.
- `Math.random` and `Math.floor` are not modelled: they are floating point. The picture index is a caller-supplied argument.
- React's hook mechanics are not modelled. This covers state setters, effect dependency arrays and re-render scheduling. The mount effect is the constructor followed by `StartNewPuzzle`.
- The URL strings and question texts are kept as plain constants. The contracts only state structural facts about them.
