/**
 Walkthroughs of the component as a user drives it, each built only from the
 operations' contracts: solving the puzzle tile by tile, a wrong answer, and a
 question dismissed and reopened.
 */
module Scenarios {
  import opened Tiles
  import opened Puzzle

  /**
   Open hidden tile `k`, pick its right option, then fire the delayed steps in
   the order their timers run: the submit, the modal's settle, the completion check.
   */
  method SolveTile(p: JigsawPuzzle, k: nat)
    requires p.Valid() && k < |p.tiles| && !p.tiles[k].isRevealed && !p.isCorrect
    modifies p
    ensures p.Valid()
    ensures p.tiles == old(p.tiles[k := p.tiles[k].(isRevealed := true)])
    ensures |p.tiles| == old(|p.tiles|) && p.tiles[k].isRevealed
    ensures forall j :: 0 <= j < |p.tiles| && j != k ==> p.tiles[j].isRevealed == old(p.tiles[j].isRevealed)
    ensures RevealedCount(p.tiles) == RevealedCount(old(p.tiles)) + 1
    ensures p.isComplete == (old(p.isComplete) || IsSolved(p.tiles))
    ensures p.currentImage == old(p.currentImage) && p.activeTileId == Some(old(p.tiles[k].id))
    ensures !p.isModalVisible && !p.isCorrect && !p.isShaking
  {
    p.ClickTile(k);
    var question := p.CurrentQuestion();
    var submitFor := p.OptionClick(question.value.answer);
    assert p.isCorrect;
    p.Submit(submitFor);
    assert p.tiles == Reveal(old(p.tiles), Some(old(p.tiles[k].id)));
    SameLayoutHasUniqueIds(old(p.tiles), old(p.currentImage));
    RevealChangesOnlyActive(old(p.tiles), k);
    RevealCountsOne(old(p.tiles), k);
    p.SettleHidden();
    p.CheckCompletion();
  }

  /** A whole session on picture `i`: answering the four tiles in turn completes the puzzle. */
  method PlayThrough(i: nat) returns (p: JigsawPuzzle)
    requires i < |PuzzleImages|
    ensures p.Valid() && p.isComplete && p.currentImage == PuzzleImages[i]
    ensures RevealedCount(p.tiles) == 4
    ensures p.activeTileId == Some(4) && !p.isModalVisible
    ensures fresh(p)
  {
    p := new JigsawPuzzle();
    p.StartNewPuzzle(i);
    SolveTile(p, 0);
    assert !p.tiles[1].isRevealed && !p.tiles[2].isRevealed && !p.tiles[3].isRevealed;
    SolveTile(p, 1);
    assert !p.tiles[2].isRevealed && !p.tiles[3].isRevealed;
    SolveTile(p, 2);
    assert !p.tiles[3].isRevealed && !p.isComplete;
    SolveTile(p, 3);
    SolvedIffFourRevealed(p.tiles, p.currentImage);
  }

  /** A wrong option on the first tile: it stays hidden and active, and only the shake starts. */
  method WrongAnswer(i: nat) returns (p: JigsawPuzzle)
    requires i < |PuzzleImages|
    ensures p.Valid() && p.tiles == InitialTiles(PuzzleImages[i])
    ensures p.activeTileId == Some(1) && p.isModalVisible && p.isShaking && !p.isCorrect && !p.isComplete
  {
    p := new JigsawPuzzle();
    p.StartNewPuzzle(i);
    p.ClickTile(0);
    var submitFor := p.OptionClick("London");
  }

  /** The second tile is opened, dismissed unanswered, and can be opened again. */
  method DismissAndReopen(i: nat) returns (p: JigsawPuzzle)
    requires i < |PuzzleImages|
    ensures p.Valid() && p.tiles == InitialTiles(PuzzleImages[i])
    ensures p.activeTileId == Some(2) && p.isModalVisible && !p.isComplete
  {
    p := new JigsawPuzzle();
    p.StartNewPuzzle(i);
    p.ClickTile(1);
    p.HandleCloseModal();
    assert !p.isModalVisible && p.activeTileId == Some(2) && !p.tiles[1].isRevealed;
    p.ClickTile(1);
  }

  /**
   Play Again from the completion screen: a fresh unsolved puzzle on picture
   `j`, while the last answered tile stays active and the modal stays hidden.
   */
  method PlayAgain(i: nat, j: nat) returns (p: JigsawPuzzle)
    requires i < |PuzzleImages| && j < |PuzzleImages|
    ensures p.Valid() && p.currentImage == PuzzleImages[j] && p.tiles == InitialTiles(PuzzleImages[j])
    ensures !p.isComplete && RevealedCount(p.tiles) == 0
    ensures p.activeTileId == Some(4) && !p.isModalVisible
  {
    p := PlayThrough(i);
    p.StartNewPuzzle(j);
  }

  /**
   A submit that fires late reveals the tile that was answered. Tile 1 is
   opened and closed; tile 2 is opened and answered at once, so the settle
   step left over from closing tile 1 clears the "Correct!" view and the
   modal can be closed again; tile 3 is opened before the submit fires. The
   submit still reveals tile 2, and tile 3 stays hidden and active.
   */
  method LateSubmit(i: nat) returns (p: JigsawPuzzle)
    requires i < |PuzzleImages|
    ensures p.Valid() && |p.tiles| == 4
    ensures p.tiles[1].isRevealed && !p.tiles[0].isRevealed && !p.tiles[2].isRevealed && !p.tiles[3].isRevealed
    ensures p.activeTileId == Some(3)
  {
    p := new JigsawPuzzle();
    p.StartNewPuzzle(i);
    p.ClickTile(0);
    p.HandleCloseModal();
    p.ClickTile(1);
    var submitFor := p.OptionClick("Mars");
    assert submitFor == Some(2);
    p.SettleHidden();
    p.HandleCloseModal();
    p.ClickTile(2);
    p.Submit(submitFor);
  }
}
