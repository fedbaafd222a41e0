/**
 The jigsaw quiz component as one object: the puzzle's own state (picture,
 tiles, active tile, modal visibility, completion) together with the two
 flags the quiz modal keeps (`isCorrect`, `isShaking`). Every event handler
 and every delayed callback is a method; a delayed callback is a step of its
 own that the caller fires when its timer would.
 */
module Puzzle {
  import opened Tiles

  /** The picture catalog a new puzzle draws from. */
  const PuzzleImages: seq<string> := [
    "https://images.unsplash.com/photo-1480714378408-67cf0d136b95?q=80&w=2070&auto=format&fit=crop",
    "https://images.unsplash.com/photo-1506748686214-e9df14d4d9d0?q=80&w=1920&auto=format&fit=crop",
    "https://images.unsplash.com/photo-1559234994-a8a56c7d686b?q=80&w=1920&auto=format&fit=crop",
    "https://images.unsplash.com/photo-1447752875215-b2761acb3c5d?q=80&w=2070&auto=format&fit=crop",
    "https://images.unsplash.com/photo-1470770841072-f978cf4d019e?q=80&w=2070&auto=format&fit=crop",
    "https://images.unsplash.com/photo-1433086966358-54859d0ed716?q=80&w=1974&auto=format&fit=crop"
  ]

  class JigsawPuzzle {
    var currentImage: string
    var tiles: seq<Tile>
    var activeTileId: Option<int>
    var isModalVisible: bool
    var isComplete: bool
    // the quiz modal's own state
    var isCorrect: bool
    var isShaking: bool

    /**
     The component's invariant: before the first puzzle there are no tiles and
     nothing is active; afterwards the tiles are the fresh layout over the
     current picture with some flags set, an active id names one of them, and
     completion is only ever claimed for a solved puzzle.
     */
    ghost predicate Valid()
      reads this
    {
      currentImage in PuzzleImages &&
      (tiles == [] ==> activeTileId == None && !isComplete) &&
      (tiles != [] ==> SameLayout(tiles, currentImage)) &&
      (activeTileId.Some? ==> tiles != [] && 1 <= activeTileId.value <= 4) &&
      (isComplete ==> IsSolved(tiles))
    }

    /** The state right after mounting, before the first puzzle is started. */
    constructor ()
      ensures Valid()
      ensures currentImage == PuzzleImages[0] && tiles == [] && activeTileId == None
      ensures !isModalVisible && !isComplete && !isCorrect && !isShaking
    {
      currentImage := PuzzleImages[0];
      tiles := [];
      activeTileId := None;
      isModalVisible := false;
      isComplete := false;
      isCorrect := false;
      isShaking := false;
    }

    /** Start over on picture `i` of the catalog (the caller makes the random pick). */
    method StartNewPuzzle(i: nat)
      requires Valid() && i < |PuzzleImages|
      modifies this
      ensures Valid()
      ensures currentImage == PuzzleImages[i] && tiles == InitialTiles(PuzzleImages[i]) && !isComplete
      ensures RevealedCount(tiles) == 0
      ensures activeTileId == old(activeTileId) && isModalVisible == old(isModalVisible)
      ensures isCorrect == old(isCorrect) && isShaking == old(isShaking)
    {
      var newImage := PuzzleImages[i];
      currentImage := newImage;
      tiles := InitialTiles(newImage);
      isComplete := false;
    }

    /** The handler a tile calls with its own id: open the question of that tile. */
    method HandleTileClick(id: int)
      requires Valid()
      requires exists k :: 0 <= k < |tiles| && tiles[k].id == id
      modifies this
      ensures Valid()
      ensures activeTileId == Some(id) && isModalVisible
      ensures currentImage == old(currentImage) && tiles == old(tiles) && isComplete == old(isComplete)
      ensures isCorrect == old(isCorrect) && isShaking == old(isShaking)
    {
      SameLayoutHasUniqueIds(tiles, currentImage);
      activeTileId := Some(id);
      isModalVisible := true;
    }

    /** A click on tile `k`: a revealed tile ignores it, a hidden one opens its question. */
    method ClickTile(k: nat)
      requires Valid() && k < |tiles|
      modifies this
      ensures Valid()
      ensures old(tiles[k].isRevealed) ==> unchanged(this)
      ensures !old(tiles[k].isRevealed) ==> activeTileId == Some(old(tiles[k].id)) && isModalVisible
      ensures currentImage == old(currentImage) && tiles == old(tiles) && isComplete == old(isComplete)
      ensures isCorrect == old(isCorrect) && isShaking == old(isShaking)
    {
      if !tiles[k].isRevealed {
        HandleTileClick(tiles[k].id);
      }
    }

    /** Hide the question; the active tile stays as it is. Closing twice is closing once. */
    method HandleCloseModal()
      requires Valid()
      modifies this
      ensures Valid()
      ensures !isModalVisible
      ensures !old(isModalVisible) ==> unchanged(this)
      ensures currentImage == old(currentImage) && tiles == old(tiles) && activeTileId == old(activeTileId)
      ensures isComplete == old(isComplete) && isCorrect == old(isCorrect) && isShaking == old(isShaking)
    {
      isModalVisible := false;
    }

    /**
     Reveal the tile whose id is `answered`, rebuilding the tile list one tile
     at a time, then hide the question. The handler reads the active id of the
     render that created it, so `answered` is the id that was active when the
     modal's submit was scheduled, which need not be the active id now.
     */
    method HandleCorrectAnswer(answered: Option<int>)
      requires Valid()
      modifies this
      ensures Valid()
      ensures tiles == Reveal(old(tiles), answered) && !isModalVisible
      ensures NoneHidden(old(tiles), tiles) && RevealedCount(old(tiles)) <= RevealedCount(tiles)
      ensures forall k :: 0 <= k < |tiles| && Some(old(tiles[k].id)) == answered ==>
                tiles == old(tiles[k := tiles[k].(isRevealed := true)])
      ensures forall k :: 0 <= k < |tiles| && Some(old(tiles[k].id)) == answered && !old(tiles[k].isRevealed) ==>
                RevealedCount(tiles) == RevealedCount(old(tiles)) + 1
      ensures currentImage == old(currentImage) && activeTileId == old(activeTileId)
      ensures isComplete == old(isComplete) && isCorrect == old(isCorrect) && isShaking == old(isShaking)
    {
      var next: seq<Tile> := [];
      var i := 0;
      while i < |tiles|
        invariant 0 <= i <= |tiles|
        invariant |next| == i
        invariant forall j :: 0 <= j < i ==> next[j] == RevealIfActive(tiles[j], answered)
      {
        var tile := tiles[i];
        next := next + [if Some(tile.id) == answered then tile.(isRevealed := true) else tile];
        i := i + 1;
      }
      assert next == Reveal(tiles, answered);
      if tiles != [] {
        RevealOnLayout(tiles, currentImage, answered);
      }
      CountMonotone(tiles, next);
      tiles := next;
      HandleCloseModal();
    }

    /**
     The completion check that runs whenever the tiles change (its 800 ms delay
     is not modelled): a solved puzzle becomes complete, otherwise nothing changes.
     */
    method CheckCompletion()
      requires Valid()
      modifies this
      ensures Valid()
      ensures isComplete == (old(isComplete) || IsSolved(tiles))
      ensures currentImage == old(currentImage) && tiles == old(tiles) && activeTileId == old(activeTileId)
      ensures isModalVisible == old(isModalVisible) && isCorrect == old(isCorrect) && isShaking == old(isShaking)
    {
      if IsSolved(tiles) {
        isComplete := true;
      }
    }

    /** The question the modal shows: that of the tile whose id is active, if any. */
    function CurrentQuestion(): (q: Option<Question>)
      reads this
      requires Valid()
      ensures q.Some? <==> activeTileId.Some?
      ensures forall k :: 0 <= k < |tiles| && activeTileId == Some(tiles[k].id) ==> q == Some(tiles[k].question)
    {
      if tiles == [] then ActiveQuestion(tiles, activeTileId)
      else
        ActiveQuestionOnLayout(tiles, currentImage, activeTileId);
        ActiveQuestion(tiles, activeTileId)
    }

    /**
     The modal's option handler. Once the answer was found correct, further
     clicks are ignored; the right option marks the answer correct and
     schedules Submit, which keeps the id active at this moment and is
     returned as `submitFor`; any other option starts the shake (and the
     caller schedules ClearShake). Without an active question no modal is
     mounted and nothing happens.
     */
    method OptionClick(option: string) returns (submitFor: Option<int>)
      requires Valid()
      modifies this
      ensures Valid()
      ensures old(isCorrect) || old(CurrentQuestion()).None? ==> unchanged(this) && submitFor == None
      ensures !old(isCorrect) && old(CurrentQuestion()).Some? ==>
                if option == old(CurrentQuestion()).value.answer then
                  isCorrect && isShaking == old(isShaking) && submitFor == old(activeTileId)
                else
                  isShaking && isCorrect == old(isCorrect) && submitFor == None
      ensures currentImage == old(currentImage) && tiles == old(tiles) && activeTileId == old(activeTileId)
      ensures isModalVisible == old(isModalVisible) && isComplete == old(isComplete)
    {
      submitFor := None;
      if isCorrect {
        return;
      }
      var question := CurrentQuestion();
      if question.None? {
        return;
      }
      if option == question.value.answer {
        isCorrect := true;
        submitFor := activeTileId;
      } else {
        isShaking := true;
      }
    }

    /**
     The callback fired 1500 ms after a correct answer: the modal reports it,
     revealing the tile `answered` that was active when the answer was given.
     */
    method Submit(answered: Option<int>)
      requires Valid()
      modifies this
      ensures Valid()
      ensures tiles == Reveal(old(tiles), answered) && !isModalVisible
      ensures currentImage == old(currentImage) && activeTileId == old(activeTileId)
      ensures isComplete == old(isComplete) && isCorrect == old(isCorrect) && isShaking == old(isShaking)
    {
      HandleCorrectAnswer(answered);
    }

    /** The callback fired 500 ms after a wrong answer: the shake stops. */
    method ClearShake()
      requires Valid()
      modifies this
      ensures Valid()
      ensures !isShaking
      ensures currentImage == old(currentImage) && tiles == old(tiles) && activeTileId == old(activeTileId)
      ensures isModalVisible == old(isModalVisible) && isComplete == old(isComplete) && isCorrect == old(isCorrect)
    {
      isShaking := false;
    }

    /** The callback fired 300 ms after the modal is hidden: both modal flags are cleared. */
    method SettleHidden()
      requires Valid()
      modifies this
      ensures Valid()
      ensures !isCorrect && !isShaking
      ensures currentImage == old(currentImage) && tiles == old(tiles) && activeTileId == old(activeTileId)
      ensures isModalVisible == old(isModalVisible) && isComplete == old(isComplete)
    {
      isCorrect := false;
      isShaking := false;
    }
  }
}
