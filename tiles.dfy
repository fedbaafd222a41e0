/**
 The value side of the jigsaw quiz: tiles and their questions, the four fixed
 tiles a puzzle starts from, the reveal step applied to the tile list, the
 completion predicate and the lookup of the active tile's question.
 */
module Tiles {

  datatype Option<T> = None | Some(value: T)

  /** A trivia question; `answer` is compared to a chosen option by exact equality. */
  datatype Question = Question(text: string, options: seq<string>, answer: string)

  /** One quadrant of the hidden picture, gated behind one question. */
  datatype Tile = Tile(id: int, isRevealed: bool, position: string, imageUrl: string, question: Question)

  /** The background positions of the four quadrants, in tile order. */
  const Quadrants: seq<string> := ["0% 0%", "100% 0%", "0% 100%", "100% 100%"]

  /** The four tiles of a fresh puzzle over `imageUrl`. */
  function InitialTiles(imageUrl: string): (r: seq<Tile>)
    ensures |r| == 4
    ensures forall i :: 0 <= i < |r| ==> r[i].id == i + 1 && !r[i].isRevealed && r[i].imageUrl == imageUrl
    ensures forall i :: 0 <= i < |r| ==> r[i].position == Quadrants[i]
    ensures forall i, j :: 0 <= i < j < |r| ==> r[i].position != r[j].position
    ensures forall i :: 0 <= i < |r| ==> |r[i].question.options| == 4 && r[i].question.answer in r[i].question.options
    ensures forall i :: 0 <= i < |r| ==>
              forall a, b :: 0 <= a < b < 4 ==> r[i].question.options[a] != r[i].question.options[b]
    ensures RevealedCount(r) == 0
  {
    var tiles := [
      Tile(1, false, "0% 0%", imageUrl,
           Question("What is the capital of France?",
                    ["London", "Berlin", "Paris", "Madrid"], "Paris")),
      Tile(2, false, "100% 0%", imageUrl,
           Question("Which planet is the Red Planet?",
                    ["Jupiter", "Mars", "Venus", "Saturn"], "Mars")),
      Tile(3, false, "0% 100%", imageUrl,
           Question("What is the largest ocean?",
                    ["Atlantic", "Indian", "Arctic", "Pacific"], "Pacific")),
      Tile(4, false, "100% 100%", imageUrl,
           Question("Who wrote 'Romeo and Juliet'?",
                    ["Dickens", "Shakespeare", "Twain", "Austen"], "Shakespeare"))
    ];
    CountZeroIffNoneRevealed(tiles);
    tiles
  }

  /** The questions do not depend on the picture: two fresh puzzles differ only in `imageUrl`. */
  lemma InitialTilesDifferOnlyInImage(a: string, b: string)
    ensures forall i :: 0 <= i < 4 ==> InitialTiles(a)[i] == InitialTiles(b)[i].(imageUrl := a)
  {
  }

  /** `ts` has the layout of a fresh puzzle over `img`; only the reveal flags may differ. */
  ghost predicate SameLayout(ts: seq<Tile>, img: string)
  {
    |ts| == 4 &&
    forall i :: 0 <= i < 4 ==> ts[i] == InitialTiles(img)[i].(isRevealed := ts[i].isRevealed)
  }

  ghost predicate UniqueIds(ts: seq<Tile>)
  {
    forall i, j :: 0 <= i < j < |ts| ==> ts[i].id != ts[j].id
  }

  lemma SameLayoutHasUniqueIds(ts: seq<Tile>, img: string)
    requires SameLayout(ts, img)
    ensures UniqueIds(ts)
    ensures forall i :: 0 <= i < |ts| ==> ts[i].id == i + 1
  {
  }

  /** The completion test: a non-empty tile list whose every tile is revealed. */
  predicate IsSolved(ts: seq<Tile>)
    ensures IsSolved(ts) <==> 0 < |ts| == RevealedCount(ts)
  {
    CountFullIffAllRevealed(ts);
    |ts| > 0 && forall i :: 0 <= i < |ts| ==> ts[i].isRevealed
  }

  /** The number of revealed tiles. */
  function RevealedCount(ts: seq<Tile>): (n: nat)
    ensures n <= |ts|
  {
    if ts == [] then 0
    else (if ts[0].isRevealed then 1 else 0) + RevealedCount(ts[1..])
  }

  lemma {:induction false} CountFullIffAllRevealed(ts: seq<Tile>)
    ensures RevealedCount(ts) == |ts| <==> forall i :: 0 <= i < |ts| ==> ts[i].isRevealed
  {
    if ts != [] {
      CountFullIffAllRevealed(ts[1..]);
      if forall i :: 0 <= i < |ts| ==> ts[i].isRevealed {
        assert forall i :: 0 <= i < |ts[1..]| ==> ts[1..][i].isRevealed by {
          forall i | 0 <= i < |ts[1..]| ensures ts[1..][i].isRevealed {
            assert ts[1..][i] == ts[i + 1];
          }
        }
      } else {
        var k :| 0 <= k < |ts| && !ts[k].isRevealed;
        if k > 0 {
          assert ts[1..][k - 1] == ts[k];
        }
      }
    }
  }

  lemma {:induction false} CountZeroIffNoneRevealed(ts: seq<Tile>)
    ensures RevealedCount(ts) == 0 <==> forall i :: 0 <= i < |ts| ==> !ts[i].isRevealed
  {
    if ts != [] {
      CountZeroIffNoneRevealed(ts[1..]);
      assert forall i :: 1 <= i < |ts| ==> ts[i] == ts[1..][i - 1];
    }
  }

  /** On a puzzle's layout, completion holds exactly when all four tiles are revealed. */
  lemma SolvedIffFourRevealed(ts: seq<Tile>, img: string)
    requires SameLayout(ts, img)
    ensures IsSolved(ts) <==> RevealedCount(ts) == 4
  {
  }

  /** `after` keeps every tile of `before` in place and hides no revealed tile. */
  ghost predicate NoneHidden(before: seq<Tile>, after: seq<Tile>)
  {
    |before| == |after| &&
    forall i :: 0 <= i < |before| ==> before[i].isRevealed ==> after[i].isRevealed
  }

  lemma {:induction false} CountMonotone(before: seq<Tile>, after: seq<Tile>)
    requires NoneHidden(before, after)
    ensures RevealedCount(before) <= RevealedCount(after)
  {
    if before != [] {
      assert NoneHidden(before[1..], after[1..]) by {
        forall i | 0 <= i < |before| - 1 ensures before[1..][i].isRevealed ==> after[1..][i].isRevealed {
          assert before[1..][i] == before[i + 1] && after[1..][i] == after[i + 1];
        }
      }
      CountMonotone(before[1..], after[1..]);
    }
  }

  /** The mapping step applied to one tile when the active question is answered correctly. */
  function RevealIfActive(t: Tile, active: Option<int>): (r: Tile)
    ensures r == t.(isRevealed := r.isRevealed)
    ensures r.isRevealed == (t.isRevealed || active == Some(t.id))
  {
    if Some(t.id) == active then t.(isRevealed := true) else t
  }

  /** The tile list after a correct answer: the tile whose id is `active` is revealed. */
  function Reveal(ts: seq<Tile>, active: Option<int>): (r: seq<Tile>)
    ensures |r| == |ts|
    ensures forall i :: 0 <= i < |ts| ==> r[i] == ts[i].(isRevealed := r[i].isRevealed)
    ensures forall i :: 0 <= i < |ts| ==> r[i].isRevealed == (ts[i].isRevealed || active == Some(ts[i].id))
    ensures NoneHidden(ts, r)
  {
    seq(|ts|, i requires 0 <= i < |ts| => RevealIfActive(ts[i], active))
  }

  /** With unique ids, a correct answer changes exactly the active tile. */
  lemma RevealChangesOnlyActive(ts: seq<Tile>, k: nat)
    requires UniqueIds(ts) && k < |ts|
    ensures Reveal(ts, Some(ts[k].id)) == ts[k := ts[k].(isRevealed := true)]
  {
  }

  /** Revealing one hidden tile in place raises the count by one. */
  lemma {:induction false} CountAfterRevealAt(ts: seq<Tile>, k: nat)
    requires k < |ts| && !ts[k].isRevealed
    ensures RevealedCount(ts[k := ts[k].(isRevealed := true)]) == RevealedCount(ts) + 1
  {
    var us := ts[k := ts[k].(isRevealed := true)];
    if k == 0 {
      assert us[1..] == ts[1..];
    } else {
      assert us[1..] == ts[1..][k - 1 := ts[k].(isRevealed := true)];
      CountAfterRevealAt(ts[1..], k - 1);
    }
  }

  /** A correct answer on an active hidden tile reveals exactly one more tile. */
  lemma RevealCountsOne(ts: seq<Tile>, k: nat)
    requires UniqueIds(ts) && k < |ts| && !ts[k].isRevealed
    ensures RevealedCount(Reveal(ts, Some(ts[k].id))) == RevealedCount(ts) + 1
  {
    RevealChangesOnlyActive(ts, k);
    CountAfterRevealAt(ts, k);
  }

  /** The question of the first tile whose id is `active`, if any. */
  function ActiveQuestion(ts: seq<Tile>, active: Option<int>): (q: Option<Question>)
    ensures q.None? <==> forall i :: 0 <= i < |ts| ==> Some(ts[i].id) != active
    ensures q.Some? ==> exists i :: 0 <= i < |ts| && Some(ts[i].id) == active && q.value == ts[i].question &&
                               forall j :: 0 <= j < i ==> Some(ts[j].id) != active
  {
    if ts == [] then None
    else if Some(ts[0].id) == active then Some(ts[0].question)
    else
      var q := ActiveQuestion(ts[1..], active);
      assert forall i :: 1 <= i < |ts| ==> ts[i] == ts[1..][i - 1];
      q
  }

  /** With unique ids, the lookup finds the question of the tile carrying the active id. */
  lemma ActiveQuestionOfTile(ts: seq<Tile>, k: nat)
    requires UniqueIds(ts) && k < |ts|
    ensures ActiveQuestion(ts, Some(ts[k].id)) == Some(ts[k].question)
  {
  }

  /**
   On a puzzle's layout, a correct answer keeps the layout, changes exactly the
   tile carrying the answered id, and reveals one more tile if that one was hidden.
   */
  lemma RevealOnLayout(ts: seq<Tile>, img: string, answered: Option<int>)
    requires SameLayout(ts, img)
    ensures SameLayout(Reveal(ts, answered), img)
    ensures forall k :: 0 <= k < |ts| && Some(ts[k].id) == answered ==>
              Reveal(ts, answered) == ts[k := ts[k].(isRevealed := true)]
    ensures forall k :: 0 <= k < |ts| && Some(ts[k].id) == answered && !ts[k].isRevealed ==>
              RevealedCount(Reveal(ts, answered)) == RevealedCount(ts) + 1
  {
    SameLayoutHasUniqueIds(ts, img);
    forall k | 0 <= k < |ts| && Some(ts[k].id) == answered
      ensures Reveal(ts, answered) == ts[k := ts[k].(isRevealed := true)]
    {
      RevealChangesOnlyActive(ts, k);
    }
    forall k | 0 <= k < |ts| && Some(ts[k].id) == answered && !ts[k].isRevealed
      ensures RevealedCount(Reveal(ts, answered)) == RevealedCount(ts) + 1
    {
      RevealCountsOne(ts, k);
    }
  }

  /** On a puzzle's layout, an active id finds a question exactly when it is one of the ids 1 to 4. */
  lemma ActiveQuestionOnLayout(ts: seq<Tile>, img: string, active: Option<int>)
    requires SameLayout(ts, img)
    ensures ActiveQuestion(ts, active).Some? <==> active.Some? && 1 <= active.value <= 4
    ensures forall k :: 0 <= k < |ts| && active == Some(ts[k].id) ==> ActiveQuestion(ts, active) == Some(ts[k].question)
  {
    SameLayoutHasUniqueIds(ts, img);
    forall k | 0 <= k < |ts| && active == Some(ts[k].id)
      ensures ActiveQuestion(ts, active) == Some(ts[k].question)
    {
      ActiveQuestionOfTile(ts, k);
    }
    if active.Some? && 1 <= active.value <= 4 {
      assert ts[active.value - 1].id == active.value;
    }
  }
}
