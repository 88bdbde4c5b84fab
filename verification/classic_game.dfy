/**
 * The round engine of the earlier version without hints
 * (HangmanGame/src/HangmanGame.java). A round holds the word, its display
 * mask and the error count; the mask changes only by starting a round,
 * guessing a letter and giving up. Unlike the later version, a guess that
 * loses does not return early: the win test still runs after it.
 */
module ClassicGame {
  import opened Options
  import opened Words
  import opened Masks
  import opened Figure

  /** `MAX_ERRORS`: the wrong guess that brings the count here loses the round. */
  const MaxErrors: int := 7

  datatype Round = Round(word: string, mask: seq<char>, errors: int)

  datatype Game = Game(
    round: Round,
    letters: set<char>,     // letters whose button is still enabled
    panel: Panel)

  /** Which of the outcome messages `checkLetter` appended; loss and win are decided independently. */
  datatype Report = Report(correct: bool, lost: bool, won: bool)

  datatype Guess = Guess(game: Game, report: Report)

  /**
   * The state every window with a round keeps: the letter layout of the
   * mask, a tier-length word, at most `MAX_ERRORS` errors with every letter
   * disabled on reaching it, and the panel showing the count. A mask that
   * passes the win test while letters are still enabled can only be the
   * fresh mask of a word made of placeholders, before any error.
   */
  predicate Inv(g: Game) {
    && Consistent(g.round.word, g.round.mask)
    && TierLength(|g.round.word|)
    && 0 <= g.round.errors <= MaxErrors
    && (g.round.errors == MaxErrors ==> g.letters == {})
    && g.letters <= Alphabet
    && g.panel.errors == g.round.errors
    && (WinCheck(g.round.word, g.round.mask) && g.letters != {} ==> g.round.errors == 0)
  }

  /**
   * The part of `newGame` after the filter: draw a word of tier `d` and set
   * up its round, with every letter hidden, no error, every letter enabled
   * and the panel reset. `None` when no word fits, where `newGame` returns
   * early.
   */
  function StartRound(panel: Panel, words: seq<string>, d: Difficulty, pick: nat): (r: Option<Game>)
    ensures r.None? <==> forall w | w in words :: !d.IsWordLengthValid(|w|)
    ensures r.Some? ==>
              && r.value.round.word in words
              && d.IsWordLengthValid(|r.value.round.word|)
              && |r.value.round.mask| == 2 * |r.value.round.word| - 1
              && (forall k | 0 <= k < |r.value.round.mask| ::
                    r.value.round.mask[k] == if k % 2 == 0 then Hidden else Gap)
              && r.value.round.errors == 0
              && r.value.letters == Alphabet
              && r.value.panel.errors == 0
              && Inv(r.value)
  {
    match ChooseWord(words, d, pick)
    case None => None
    case Some(w) => Some(Game(Round(w, BlankMask(|w|), 0), Alphabet, Reset(panel)))
  }

  /**
   * `newGame`: draw a word of tier `d` and start a round for it; with no
   * word of that tier, return early and change nothing.
   */
  function NewGame(g: Game, words: seq<string>, d: Difficulty, pick: nat): (g': Game)
    ensures (forall w | w in words :: !d.IsWordLengthValid(|w|)) ==> g' == g
    ensures (exists w | w in words :: d.IsWordLengthValid(|w|)) ==>
              && g'.round.word in words
              && d.IsWordLengthValid(|g'.round.word|)
              && |g'.round.mask| == 2 * |g'.round.word| - 1
              && (forall k | 0 <= k < |g'.round.mask| ::
                    g'.round.mask[k] == if k % 2 == 0 then Hidden else Gap)
              && g'.round.errors == 0
              && g'.letters == Alphabet
              && g'.panel.errors == 0
  {
    match StartRound(g.panel, words, d, pick)
    case None => g
    case Some(g') => g'
  }

  /** `selectDifficultyAndStartGame`: the chosen tier, or MEDIUM when the dialog was closed. */
  function NextWord(g: Game, words: seq<string>, choice: int, pick: nat): (g': Game)
    ensures (forall w | w in words :: !RoundDifficulty(choice).IsWordLengthValid(|w|)) ==> g' == g
    ensures (exists w | w in words :: RoundDifficulty(choice).IsWordLengthValid(|w|)) ==>
              && g'.round.word in words
              && RoundDifficulty(choice).IsWordLengthValid(|g'.round.word|)
              && |g'.round.mask| == 2 * |g'.round.word| - 1
              && (forall k | 0 <= k < |g'.round.mask| ::
                    g'.round.mask[k] == if k % 2 == 0 then Hidden else Gap)
              && g'.round.errors == 0
              && g'.letters == Alphabet
              && g'.panel.errors == 0
  {
    NewGame(g, words, RoundDifficulty(choice), pick)
  }

  /**
   * `checkLetter` for an enabled letter button `c`: the same reveal and
   * error rule as the later version, but reaching `MAX_ERRORS` does not
   * stop the method, so the win test runs on every guess. Since a miss
   * leaves the mask as it was, a losing guess is also reported as a win
   * only when the mask already passed the win test before it.
   */
  function CheckLetter(g: Game, c: char): (m: Guess)
    requires c in g.letters
    requires Shaped(g.round.word, g.round.mask)
    ensures m.report.correct <==> c in g.round.word
    ensures |m.game.round.mask| == |g.round.mask|
    ensures forall k | 0 <= k < |m.game.round.mask| ::
              m.game.round.mask[k] ==
                if k % 2 == 0 && g.round.word[k / 2] == c then c else g.round.mask[k]
    ensures m.game.round.errors == g.round.errors + if m.report.correct then 0 else 1
    ensures m.game.round.word == g.round.word
    ensures m.report.correct ==> m.game.panel == g.panel
    ensures !m.report.correct ==> m.game.panel.errors == m.game.round.errors
    ensures m.report.lost <==> !m.report.correct && m.game.round.errors >= MaxErrors
    ensures m.report.won <==> WinCheck(g.round.word, m.game.round.mask)
    ensures m.report.lost && m.report.won ==> WinCheck(g.round.word, g.round.mask)
    ensures m.game.letters == if m.report.lost || m.report.won then {} else g.letters - {c}
  {
    var r := g.round;
    var mask := Reveal(r.word, r.mask, c);
    var correct := c in r.word;
    var errors := if correct then r.errors else r.errors + 1;
    var panel := if correct then g.panel else SetErrors(g.panel, errors);
    var lost := !correct && errors >= MaxErrors;
    var won := WinCheck(r.word, mask);
    var letters := if lost || won then {} else g.letters - {c};
    Guess(Game(r.(mask := mask, errors := errors), letters, panel), Report(correct, lost, won))
  }

  /** `giveUp`: every letter is shown and every letter button disabled; the error count stays. */
  function GiveUp(g: Game): (g': Game)
    requires Shaped(g.round.word, g.round.mask)
    ensures FullyRevealed(g.round.word, g'.round.mask)
    ensures forall k | 0 <= k < |g'.round.mask| && k % 2 == 1 :: g'.round.mask[k] == g.round.mask[k]
    ensures g'.round.word == g.round.word && g'.round.errors == g.round.errors
    ensures g'.letters == {}
    ensures g'.panel == g.panel
  {
    g.(round := g.round.(mask := RevealAll(g.round.word, g.round.mask)), letters := {})
  }

  /**
   * With the invariant, an enabled letter means the round is not lost and
   * not won after an error, so a single guess never reports both a loss
   * and a win.
   */
  lemma NeverLostAndWon(g: Game, c: char)
    requires Inv(g) && c in g.letters
    ensures !(CheckLetter(g, c).report.lost && CheckLetter(g, c).report.won)
  {
  }

  lemma NewGameKeepsInv(g: Game, words: seq<string>, d: Difficulty, pick: nat)
    requires Inv(g)
    ensures Inv(NewGame(g, words, d, pick))
  {
  }

  lemma CheckLetterKeepsInv(g: Game, c: char)
    requires Inv(g) && c in g.letters
    ensures Inv(CheckLetter(g, c).game)
  {
  }

  lemma GiveUpKeepsInv(g: Game)
    requires Inv(g)
    ensures Inv(GiveUp(g))
  {
  }

  /** A user action; a click on a disabled letter button is not delivered. */
  datatype Click =
    | NextClick(choice: int, pick: nat)
    | LetterClick(letter: char)
    | GiveUpClick

  /** One click on a window with a round; within a round the word stays and the errors never decrease. */
  function Step(g: Game, words: seq<string>, click: Click): (g': Game)
    requires Inv(g)
    ensures Inv(g')
    ensures !click.NextClick? ==> g'.round.word == g.round.word
    ensures !click.NextClick? ==> g.round.errors <= g'.round.errors
  {
    match click
    case NextClick(choice, pick) =>
      NewGameKeepsInv(g, words, RoundDifficulty(choice), pick);
      NextWord(g, words, choice, pick)
    case LetterClick(c) =>
      if c in g.letters then CheckLetterKeepsInv(g, c); CheckLetter(g, c).game else g
    case GiveUpClick =>
      GiveUpKeepsInv(g); GiveUp(g)
  }

  /**
   * The window. `Idle` is a window without a round: no word has been drawn
   * yet, so the word and the mask are still `null`; only the letter buttons
   * can change.
   */
  datatype Window =
    | Idle(letters: set<char>)
    | Playing(game: Game)

  /** Every round the window holds keeps the invariant. */
  predicate WindowInv(win: Window) {
    win.Playing? ==> Inv(win.game)
  }

  /**
   * The constructor, and "next word" in a window without a round: a round
   * of the chosen tier (MEDIUM if the dialog was closed) starts when a word
   * fits; otherwise the window stays as it was.
   */
  function StartFromIdle(win: Window, words: seq<string>, choice: int, pick: nat): (win': Window)
    requires win.Idle?
    ensures (forall w | w in words :: !RoundDifficulty(choice).IsWordLengthValid(|w|)) ==> win' == win
    ensures (exists w | w in words :: RoundDifficulty(choice).IsWordLengthValid(|w|)) ==>
              && win'.Playing?
              && Inv(win'.game)
              && win'.game.round.word in words
              && RoundDifficulty(choice).IsWordLengthValid(|win'.game.round.word|)
              && |win'.game.round.mask| == 2 * |win'.game.round.word| - 1
              && (forall k | 0 <= k < |win'.game.round.mask| ::
                    win'.game.round.mask[k] == if k % 2 == 0 then Hidden else Gap)
              && win'.game.round.errors == 0
              && win'.game.letters == Alphabet
              && win'.game.panel.errors == 0
  {
    match StartRound(Panel(0), words, RoundDifficulty(choice), pick)
    case None => win
    case Some(g) => Playing(g)
  }

  /** The window as the constructor leaves it: every letter enabled, a round if a word fits. */
  function Open(words: seq<string>, choice: int, pick: nat): (win: Window)
    ensures win.Idle? <==> forall w | w in words :: !RoundDifficulty(choice).IsWordLengthValid(|w|)
    ensures win.Idle? ==> win == Idle(Alphabet)
    ensures win.Playing? ==>
              && Inv(win.game)
              && win.game.round.word in words
              && RoundDifficulty(choice).IsWordLengthValid(|win.game.round.word|)
              && |win.game.round.mask| == 2 * |win.game.round.word| - 1
              && (forall k | 0 <= k < |win.game.round.mask| ::
                    win.game.round.mask[k] == if k % 2 == 0 then Hidden else Gap)
              && win.game.round.errors == 0
              && win.game.letters == Alphabet
              && win.game.panel.errors == 0
  {
    StartFromIdle(Idle(Alphabet), words, choice, pick)
  }

  /**
   * One click on the window. With a round it is `Step`. Without one, only
   * "next word" can start a round; `checkLetter` disables its button and
   * then fails on the missing word, and `giveUp` fails at once.
   */
  function Handle(win: Window, words: seq<string>, click: Click): (win': Window)
    requires WindowInv(win)
    ensures WindowInv(win')
    ensures win.Playing? ==> win'.Playing?
    ensures win.Playing? && !click.NextClick? ==>
              && win'.game.round.word == win.game.round.word
              && win.game.round.errors <= win'.game.round.errors
    ensures win.Idle? && !click.NextClick? ==> win'.Idle?
  {
    match win
    case Playing(g) => Playing(Step(g, words, click))
    case Idle(letters) =>
      match click
      case NextClick(choice, pick) => StartFromIdle(win, words, choice, pick)
      case LetterClick(c) => if c in letters then Idle(letters - {c}) else win
      case GiveUpClick => win
  }

  /** A sequence of clicks, in order. */
  function Run(win: Window, words: seq<string>, clicks: seq<Click>): (win': Window)
    requires WindowInv(win)
    ensures WindowInv(win')
    ensures win.Playing? ==> win'.Playing?
    decreases |clicks|
  {
    if |clicks| == 0 then win else Run(Handle(win, words, clicks[0]), words, clicks[1..])
  }

  /**
   * For any word pool, in every window reachable from the constructor the
   * errors stay within `MAX_ERRORS` and no enabled guess is reported as
   * both a loss and a win.
   */
  lemma ReachableNeverLostAndWon(words: seq<string>, choice: int, pick: nat, clicks: seq<Click>, c: char)
    ensures var win := Run(Open(words, choice, pick), words, clicks);
            win.Playing? ==>
              && win.game.round.errors <= MaxErrors
              && (c in win.game.letters ==>
                    !(CheckLetter(win.game, c).report.lost && CheckLetter(win.game, c).report.won))
  {
    var win := Run(Open(words, choice, pick), words, clicks);
    if win.Playing? && c in win.game.letters {
      NeverLostAndWon(win.game, c);
    }
  }

  /**
   * A word made of placeholders passes the win test on its fresh mask, so
   * the first guess of its round is reported as a win whatever the letter.
   */
  lemma PlaceholderWordWonAtOnce(pick: nat)
    ensures var win := Open(["_____"], 0, pick);
            && win.Playing?
            && !CheckLetter(win.game, 'Z').report.correct
            && CheckLetter(win.game, 'Z').report.won
  {
    var word := "_____";
    assert Easy.IsWordLengthValid(|word|);
    var win := Open([word], 0, pick);
    assert win.game.round.word == word;
    assert PlaceholderWord(word);
    BlankMaskWonIffPlaceholder(word);
    var m := CheckLetter(win.game, 'Z');
    assert 'Z' !in word;
    assert m.game.round.mask == win.game.round.mask;
  }
}
