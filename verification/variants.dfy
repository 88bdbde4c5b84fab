/**
 * How the two versions of the game relate: forgetting the hint state of the
 * later version, both start rounds, guess letters and give up in exactly
 * the same way. They differ only in what a losing guess announces, and in
 * the hint path the earlier version does not have.
 */
module Variants {
  import H = HintedGame
  import C = ClassicGame
  import opened Words
  import opened Masks

  /** The later version's window without the hint counter, `DifficultyType` and hint button. */
  function Erase(g: H.Game): C.Game {
    C.Game(C.Round(g.round.word, g.round.mask, g.round.errors), g.letters, g.panel)
  }

  /** Both versions start the same round from the same word pool, tier and pick. */
  lemma NewGameAgrees(g: H.Game, words: seq<string>, d: Difficulty, pick: nat)
    ensures C.NewGame(Erase(g), words, d, pick) == Erase(H.NewGame(g, words, d, pick))
  {
  }

  /**
   * A guess changes the state of both versions alike. The reports agree on
   * the hit and on the loss; the earlier version also reports a win on a
   * losing guess exactly when the mask passes the win test, which the later
   * version never runs after a loss.
   */
  lemma CheckLetterAgrees(g: H.Game, c: char)
    requires c in g.letters && Shaped(g.round.word, g.round.mask)
    ensures C.CheckLetter(Erase(g), c).game == Erase(H.CheckLetter(g, c).game)
    ensures C.CheckLetter(Erase(g), c).report.correct == H.CheckLetter(g, c).correct
    ensures C.CheckLetter(Erase(g), c).report.lost <==> H.CheckLetter(g, c).verdict == H.Lost
    ensures C.CheckLetter(Erase(g), c).report.won <==>
              || H.CheckLetter(g, c).verdict == H.Won
              || (H.CheckLetter(g, c).verdict == H.Lost && WinCheck(g.round.word, g.round.mask))
  {
    var h := H.CheckLetter(g, c);
    var k := C.CheckLetter(Erase(g), c);
    assert k.game.round.mask == h.game.round.mask;
    if !h.correct {
      assert h.game.round.mask == g.round.mask;
    }
  }

  /** Giving up is the same in both versions. */
  lemma GiveUpAgrees(g: H.Game)
    requires Shaped(g.round.word, g.round.mask)
    ensures C.GiveUp(Erase(g)) == Erase(H.GiveUp(g))
  {
  }
}
