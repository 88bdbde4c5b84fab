/**
 * The round engine of the version with hints (the top-level HangmanGame).
 * A round holds the secret word, its display mask, the error count and the
 * number of hints used. The window around it adds the `DifficultyType` that
 * keys the hint budget, the letter buttons still enabled, the hint button
 * and the hangman panel; button enabling is kept only for its logical
 * effect, which is what a player can still do.
 */
module HintedGame {
  import opened Options
  import opened Words
  import opened Masks
  import opened Figure

  /** `MAX_ERRORS`: the wrong guess that brings the count here loses the round. */
  const MaxErrors: int := 7

  datatype Round = Round(word: string, mask: seq<char>, errors: int, hintsUsed: int)

  datatype Game = Game(
    round: Round,
    difficultyType: int,    // 0, 1, 2 as last answered in the dialog; never reset on cancel
    letters: set<char>,     // letters whose button is still enabled
    hintEnabled: bool,      // the hint button is enabled
    panel: Panel)

  /** What `checkLetter` announced after the guess. */
  datatype Verdict = Continue | Lost | Won

  datatype Guess = Guess(game: Game, correct: bool, verdict: Verdict)

  /** The hint budget keyed by `DifficultyType`: 2, 3, 4 for EASY, MEDIUM, HARD, else none. */
  function HintCap(difficultyType: int): (cap: int)
    ensures 0 <= difficultyType <= 2 ==> cap == difficultyType + 2
    ensures !(0 <= difficultyType <= 2) ==> cap == 0
  {
    if difficultyType == 0 then 2
    else if difficultyType == 1 then 3
    else if difficultyType == 2 then 4
    else 0
  }

  /**
   * The state every window with a round keeps: the mask has the letter
   * layout and shows only the word's own letters, the word has a tier
   * length, the error count is at most `MAX_ERRORS` and reaching it disables
   * every letter, and the panel shows the round's error count.
   */
  predicate Inv(g: Game) {
    && Consistent(g.round.word, g.round.mask)
    && TierLength(|g.round.word|)
    && 0 <= g.round.errors <= MaxErrors
    && (g.round.errors == MaxErrors ==> g.letters == {})
    && g.letters <= Alphabet
    && g.panel.errors == g.round.errors
    && g.round.hintsUsed >= 0
  }

  /**
   * The part of `newGame` after the filter: draw a word of tier `d` and set
   * up its round, with every letter hidden, both counters at zero, every
   * button enabled and the panel reset. `None` when no word fits, where
   * `newGame` returns early.
   */
  function StartRound(difficultyType: int, panel: Panel, words: seq<string>, d: Difficulty, pick: nat): (r: Option<Game>)
    ensures r.None? <==> forall w | w in words :: !d.IsWordLengthValid(|w|)
    ensures r.Some? ==>
              && r.value.round.word in words
              && d.IsWordLengthValid(|r.value.round.word|)
              && |r.value.round.mask| == 2 * |r.value.round.word| - 1
              && (forall k | 0 <= k < |r.value.round.mask| ::
                    r.value.round.mask[k] == if k % 2 == 0 then Hidden else Gap)
              && r.value.round.errors == 0
              && r.value.round.hintsUsed == 0
              && r.value.difficultyType == difficultyType
              && r.value.letters == Alphabet
              && r.value.hintEnabled
              && r.value.panel.errors == 0
              && Inv(r.value)
  {
    match ChooseWord(words, d, pick)
    case None => None
    case Some(w) =>
      Some(Game(Round(w, BlankMask(|w|), 0, 0), difficultyType, Alphabet, true, Reset(panel)))
  }

  /**
   * `newGame`: draw a word of tier `d` and start a round for it. When no
   * word fits, the method returns early and nothing at all changes: not the
   * word, the mask, the counters, nor the buttons.
   */
  function NewGame(g: Game, words: seq<string>, d: Difficulty, pick: nat): (g': Game)
    ensures (forall w | w in words :: !d.IsWordLengthValid(|w|)) ==> g' == g
    ensures (exists w | w in words :: d.IsWordLengthValid(|w|)) ==>
              && g'.round.word in words
              && d.IsWordLengthValid(|g'.round.word|)
              && |g'.round.mask| == 2 * |g'.round.word| - 1
              && (forall k | 0 <= k < |g'.round.mask| ::
                    g'.round.mask[k] == if k % 2 == 0 then Hidden else Gap)
              && g'.round.errors == 0
              && g'.round.hintsUsed == 0
              && g'.difficultyType == g.difficultyType
              && g'.letters == Alphabet
              && g'.hintEnabled
              && g'.panel.errors == 0
  {
    match StartRound(g.difficultyType, g.panel, words, d, pick)
    case None => g
    case Some(g') => g'
  }

  /** The `DifficultyType` after the dialog: the answer if it chose a tier, else unchanged. */
  function DialogType(difficultyType: int, choice: int): int {
    if Chosen(choice).Some? then choice else difficultyType
  }

  /**
   * `selectDifficultyAndStartGame`: the dialog's answer updates
   * `DifficultyType` only when a tier was chosen; a closed dialog starts a
   * MEDIUM round under the old `DifficultyType`. The update survives an
   * empty pool, which leaves everything else as it was.
   */
  function NextWord(g: Game, words: seq<string>, choice: int, pick: nat): (g': Game)
    ensures g'.difficultyType == if 0 <= choice <= 2 then choice else g.difficultyType
    ensures (forall w | w in words :: !RoundDifficulty(choice).IsWordLengthValid(|w|)) ==>
              g' == g.(difficultyType := g'.difficultyType)
    ensures (exists w | w in words :: RoundDifficulty(choice).IsWordLengthValid(|w|)) ==>
              && g'.round.word in words
              && RoundDifficulty(choice).IsWordLengthValid(|g'.round.word|)
              && |g'.round.mask| == 2 * |g'.round.word| - 1
              && (forall k | 0 <= k < |g'.round.mask| ::
                    g'.round.mask[k] == if k % 2 == 0 then Hidden else Gap)
              && g'.round.errors == 0
              && g'.round.hintsUsed == 0
              && g'.letters == Alphabet
              && g'.hintEnabled
              && g'.panel.errors == 0
  {
    NewGame(g.(difficultyType := DialogType(g.difficultyType, choice)), words, RoundDifficulty(choice), pick)
  }

  /**
   * `checkLetter` for an enabled letter button `c`. The letter's button is
   * disabled; every cell of a letter equal to `c` (exact match, no case
   * folding) shows `c` and no other cell changes. A miss adds exactly one
   * error and updates the panel; a hit leaves the count alone. A miss that
   * reaches `MAX_ERRORS` loses and returns before the win test, so a loss
   * is never also a win. Either ending disables every letter.
   */
  function CheckLetter(g: Game, c: char): (m: Guess)
    requires c in g.letters
    requires Shaped(g.round.word, g.round.mask)
    ensures m.correct <==> c in g.round.word
    ensures |m.game.round.mask| == |g.round.mask|
    ensures forall k | 0 <= k < |m.game.round.mask| ::
              m.game.round.mask[k] ==
                if k % 2 == 0 && g.round.word[k / 2] == c then c else g.round.mask[k]
    ensures m.game.round.errors == g.round.errors + if m.correct then 0 else 1
    ensures m.game.round.word == g.round.word
    ensures m.game.round.hintsUsed == g.round.hintsUsed
    ensures m.game.difficultyType == g.difficultyType
    ensures m.game.hintEnabled == g.hintEnabled
    ensures m.correct ==> m.game.panel == g.panel
    ensures !m.correct ==> m.game.panel.errors == m.game.round.errors
    ensures m.verdict == Lost <==> !m.correct && m.game.round.errors >= MaxErrors
    ensures m.verdict == Won <==> m.verdict != Lost && WinCheck(g.round.word, m.game.round.mask)
    ensures m.game.letters == if m.verdict == Continue then g.letters - {c} else {}
  {
    var r := g.round;
    var mask := Reveal(r.word, r.mask, c);
    var letters := g.letters - {c};
    if c in r.word then
      var g1 := g.(round := r.(mask := mask), letters := letters);
      if WinCheck(r.word, mask) then Guess(g1.(letters := {}), true, Won)
      else Guess(g1, true, Continue)
    else
      var errors := r.errors + 1;
      var g1 := g.(round := r.(mask := mask, errors := errors), letters := letters,
                   panel := SetErrors(g.panel, errors));
      if errors >= MaxErrors then Guess(g1.(letters := {}), false, Lost)
      else if WinCheck(r.word, mask) then Guess(g1.(letters := {}), false, Won)
      else Guess(g1, false, Continue)
  }

  /**
   * `giveHint` on the enabled hint button. Within the budget of the current
   * `DifficultyType` it reveals the lowest hidden letter and uses one hint;
   * with the budget spent, or nothing hidden, mask and count stay. It never
   * touches the errors or the letter buttons, never runs the win test and
   * is not stopped by a finished round. The button ends up enabled exactly
   * when hints are left.
   */
  function GiveHint(g: Game): (g': Game)
    requires g.hintEnabled
    requires Shaped(g.round.word, g.round.mask)
    ensures g'.round.word == g.round.word
    ensures g'.round.errors == g.round.errors
    ensures g'.letters == g.letters && g'.panel == g.panel
    ensures g'.difficultyType == g.difficultyType
    ensures g'.round.hintsUsed == g.round.hintsUsed + 1 <==>
              g.round.hintsUsed < HintCap(g.difficultyType) && HasHidden(g.round.mask)
    ensures g'.round.hintsUsed != g.round.hintsUsed + 1 ==>
              g'.round.hintsUsed == g.round.hintsUsed && g'.round.mask == g.round.mask
    ensures g'.round.hintsUsed == g.round.hintsUsed + 1 ==>
              exists k :: LowestHidden(g.round.mask, k)
                          && g'.round.mask == g.round.mask[k := g.round.word[k / 2]]
    ensures g'.round.hintsUsed > g.round.hintsUsed ==> g'.round.hintsUsed <= HintCap(g.difficultyType)
    ensures g'.hintEnabled <==> g'.round.hintsUsed < HintCap(g.difficultyType)
  {
    var r := g.round;
    var cap := HintCap(g.difficultyType);
    if r.hintsUsed < cap then
      match FindHidden(r.mask, 0)
      case Some(k) =>
        var used := r.hintsUsed + 1;
        g.(round := r.(mask := r.mask[k := r.word[k / 2]], hintsUsed := used),
           hintEnabled := if used >= cap then false else g.hintEnabled)
      case None => g
    else
      g.(hintEnabled := false)
  }

  /**
   * `giveUp`: every letter is shown and every letter button disabled; the
   * counters, the hint button and the panel stay.
   */
  function GiveUp(g: Game): (g': Game)
    requires Shaped(g.round.word, g.round.mask)
    ensures FullyRevealed(g.round.word, g'.round.mask)
    ensures forall k | 0 <= k < |g'.round.mask| && k % 2 == 1 :: g'.round.mask[k] == g.round.mask[k]
    ensures g'.round.word == g.round.word
    ensures g'.round.errors == g.round.errors && g'.round.hintsUsed == g.round.hintsUsed
    ensures g'.letters == {}
    ensures g'.difficultyType == g.difficultyType && g'.hintEnabled == g.hintEnabled
    ensures g'.panel == g.panel
  {
    g.(round := g.round.(mask := RevealAll(g.round.word, g.round.mask)), letters := {})
  }

  /** Starting a round, or failing to, keeps the invariant. */
  lemma NewGameKeepsInv(g: Game, words: seq<string>, d: Difficulty, pick: nat)
    requires Inv(g)
    ensures Inv(NewGame(g, words, d, pick))
  {
    if exists w | w in words :: d.IsWordLengthValid(|w|) {
      var g' := NewGame(g, words, d, pick);
      assert TierLength(|g'.round.word|) by {
        TiersPartition(|g'.round.word|);
      }
    }
  }

  /**
   * A guess keeps the invariant. In particular an enabled letter means fewer
   * than `MAX_ERRORS` errors, so the count never goes past it.
   */
  lemma CheckLetterKeepsInv(g: Game, c: char)
    requires Inv(g) && c in g.letters
    ensures Inv(CheckLetter(g, c).game)
    ensures CheckLetter(g, c).game.round.errors <= MaxErrors
  {
  }

  lemma GiveHintKeepsInv(g: Game)
    requires Inv(g) && g.hintEnabled
    ensures Inv(GiveHint(g))
  {
    var g' := GiveHint(g);
    if g'.round.hintsUsed == g.round.hintsUsed + 1 {
      var k :| LowestHidden(g.round.mask, k) && g'.round.mask == g.round.mask[k := g.round.word[k / 2]];
    }
  }

  lemma GiveUpKeepsInv(g: Game)
    requires Inv(g)
    ensures Inv(GiveUp(g))
  {
  }

  /** A user action; a click on a disabled button is not delivered. */
  datatype Click =
    | NextClick(choice: int, pick: nat)
    | LetterClick(letter: char)
    | HintClick
    | GiveUpClick

  /**
   * One click on the window. Within a round (any click but "next word") the
   * word stays and the error count never decreases.
   */
  function Step(g: Game, words: seq<string>, click: Click): (g': Game)
    requires Inv(g)
    ensures Inv(g')
    ensures !click.NextClick? ==> g'.round.word == g.round.word
    ensures !click.NextClick? ==> g.round.errors <= g'.round.errors
    ensures !click.NextClick? ==> g.round.hintsUsed <= g'.round.hintsUsed
  {
    match click
    case NextClick(choice, pick) =>
      NewGameKeepsInv(g.(difficultyType := DialogType(g.difficultyType, choice)), words, RoundDifficulty(choice), pick);
      NextWord(g, words, choice, pick)
    case LetterClick(c) =>
      if c in g.letters then CheckLetterKeepsInv(g, c); CheckLetter(g, c).game else g
    case HintClick =>
      if g.hintEnabled then GiveHintKeepsInv(g); GiveHint(g) else g
    case GiveUpClick =>
      GiveUpKeepsInv(g); GiveUp(g)
  }

  /**
   * The window. `Idle` is a window without a round: no word has been drawn
   * yet, so the word and the mask are still `null`. It keeps what the
   * handlers can still change: `DifficultyType`, the letter buttons and the
   * hint button; the panel shows no errors.
   */
  datatype Window =
    | Idle(difficultyType: int, letters: set<char>, hintEnabled: bool)
    | Playing(game: Game)

  /** The window as the constructor builds it, before asking for a difficulty. */
  const Initial: Window := Idle(0, Alphabet, true)

  /** Every round the window holds keeps the invariant. */
  predicate WindowInv(win: Window) {
    win.Playing? ==> Inv(win.game)
  }

  /**
   * "Next word" in a window without a round: the dialog's answer updates
   * `DifficultyType`, and a round starts when a word fits the tier.
   */
  function StartFromIdle(win: Window, words: seq<string>, choice: int, pick: nat): (win': Window)
    requires win.Idle?
    ensures (forall w | w in words :: !RoundDifficulty(choice).IsWordLengthValid(|w|)) ==>
              win' == win.(difficultyType := DialogType(win.difficultyType, choice))
    ensures (exists w | w in words :: RoundDifficulty(choice).IsWordLengthValid(|w|)) ==>
              && win'.Playing?
              && Inv(win'.game)
              && win'.game.round.word in words
              && RoundDifficulty(choice).IsWordLengthValid(|win'.game.round.word|)
              && |win'.game.round.mask| == 2 * |win'.game.round.word| - 1
              && (forall k | 0 <= k < |win'.game.round.mask| ::
                    win'.game.round.mask[k] == if k % 2 == 0 then Hidden else Gap)
              && win'.game.round.errors == 0
              && win'.game.round.hintsUsed == 0
              && win'.game.difficultyType == DialogType(win.difficultyType, choice)
              && win'.game.letters == Alphabet
              && win'.game.hintEnabled
              && win'.game.panel.errors == 0
  {
    var difficultyType := DialogType(win.difficultyType, choice);
    match StartRound(difficultyType, Panel(0), words, RoundDifficulty(choice), pick)
    case None => win.(difficultyType := difficultyType)
    case Some(g) => Playing(g)
  }

  /**
   * The constructor: the dialog's `choice` sets `DifficultyType` (which
   * otherwise stays 0) and picks the tier, MEDIUM when the dialog was
   * closed. Without a fitting word the window has no round.
   */
  function Open(words: seq<string>, choice: int, pick: nat): (win: Window)
    ensures win.Idle? <==> forall w | w in words :: !RoundDifficulty(choice).IsWordLengthValid(|w|)
    ensures win.Idle? ==> win == Idle(if 0 <= choice <= 2 then choice else 0, Alphabet, true)
    ensures win.Playing? ==>
              && Inv(win.game)
              && win.game.round.word in words
              && RoundDifficulty(choice).IsWordLengthValid(|win.game.round.word|)
              && |win.game.round.mask| == 2 * |win.game.round.word| - 1
              && (forall k | 0 <= k < |win.game.round.mask| ::
                    win.game.round.mask[k] == if k % 2 == 0 then Hidden else Gap)
              && win.game.round.errors == 0
              && win.game.round.hintsUsed == 0
              && win.game.difficultyType == (if 0 <= choice <= 2 then choice else 0)
              && win.game.letters == Alphabet
              && win.game.hintEnabled
              && win.game.panel.errors == 0
  {
    StartFromIdle(Initial, words, choice, pick)
  }

  /**
   * One click on the window. With a round it is `Step`. Without one, only
   * "next word" can start a round. `checkLetter` disables its button and
   * then fails on the missing word; `giveUp` fails at once, and so does
   * `giveHint` while the budget allows a hint. With a budget of 0,
   * `giveHint` takes its "no hints left" branch, which disables the hint
   * button and never touches the word; `IdleBudgetNeverZero` shows that
   * this branch is never taken in a window without a round.
   */
  function Handle(win: Window, words: seq<string>, click: Click): (win': Window)
    requires WindowInv(win)
    ensures WindowInv(win')
    ensures win.Playing? ==> win'.Playing?
    ensures win.Playing? && !click.NextClick? ==>
              && win'.game.round.word == win.game.round.word
              && win.game.round.errors <= win'.game.round.errors
    ensures win.Idle? && !click.NextClick? ==>
              win'.Idle? && win'.difficultyType == win.difficultyType
  {
    match win
    case Playing(g) => Playing(Step(g, words, click))
    case Idle(difficultyType, letters, hintEnabled) =>
      match click
      case NextClick(choice, pick) => StartFromIdle(win, words, choice, pick)
      case LetterClick(c) => if c in letters then win.(letters := letters - {c}) else win
      case HintClick =>
        if hintEnabled && HintCap(difficultyType) <= 0 then win.(hintEnabled := false) else win
      case GiveUpClick => win
  }

  /** A sequence of clicks, in order. */
  function Run(win: Window, words: seq<string>, clicks: seq<Click>): (win': Window)
    requires WindowInv(win)
    ensures WindowInv(win')
    ensures win.Playing? ==> win'.Playing?
    decreases |clicks|
  {
    if |clicks| == 0 then win else Run(Handle(win, words, clicks[0]), words, clicks[1..])
  }

  /**
   * Whatever the player does after the window opens, including starting
   * the first round later with "next word", every round the window shows
   * has its error count within 0 to `MAX_ERRORS`, the panel shows that
   * count, and the mask keeps its layout, with blanks at the odd indices
   * and only the word's own letters at the even ones.
   */
  lemma ErrorsNeverExceedMax(words: seq<string>, choice: int, pick: nat, clicks: seq<Click>)
    ensures var win := Run(Open(words, choice, pick), words, clicks);
            win.Playing? ==>
              && 0 <= win.game.round.errors <= MaxErrors
              && win.game.panel.errors == win.game.round.errors
              && Consistent(win.game.round.word, win.game.round.mask)
  {
  }

  /** The `DifficultyType` of a window: the constructor and the dialog only ever set 0, 1 or 2. */
  predicate TypeChosen(win: Window) {
    0 <= (if win.Idle? then win.difficultyType else win.game.difficultyType) <= 2
  }

  /** No click sets `DifficultyType` to anything other than an answer that chose a tier. */
  lemma {:induction false} RunKeepsTypeChosen(win: Window, words: seq<string>, clicks: seq<Click>)
    requires WindowInv(win) && TypeChosen(win)
    ensures TypeChosen(Run(win, words, clicks))
    decreases |clicks|
  {
    if |clicks| > 0 {
      var next := Handle(win, words, clicks[0]);
      assert TypeChosen(next);
      RunKeepsTypeChosen(next, words, clicks[1..]);
    }
  }

  /**
   * In every window without a round that the constructor and later clicks
   * can reach, the hint budget is at least 2, so `giveHint` there always
   * takes the branch that fails on the missing word.
   */
  lemma IdleBudgetNeverZero(words: seq<string>, choice: int, pick: nat, clicks: seq<Click>)
    ensures var win := Run(Open(words, choice, pick), words, clicks);
            win.Idle? ==> HintCap(win.difficultyType) >= 2
  {
    RunKeepsTypeChosen(Open(words, choice, pick), words, clicks);
  }

  /**
   * The first round need not start with the window: a closed dialog asks
   * for a MEDIUM word, and a pool without one leaves the window idle until
   * "next word" chooses a tier that has words.
   */
  lemma FirstRoundCanStartLater(words: seq<string>, pick: nat, later: nat)
    requires exists w | w in words :: Easy.IsWordLengthValid(|w|)
    requires forall w | w in words :: !Medium.IsWordLengthValid(|w|)
    ensures Open(words, -1, pick).Idle?
    ensures Handle(Open(words, -1, pick), words, NextClick(0, later)).Playing?
  {
  }

  /**
   * The hint budget is looked up when a hint is asked for, from a
   * `DifficultyType` the dialog sets even when the new round cannot start.
   * So a round with hints used under a larger budget can end up over the
   * budget of the newly chosen tier.
   */
  lemma EmptyPoolLeavesHintsOverBudget(g: Game, words: seq<string>, pick: nat)
    requires g.difficultyType == 2 && g.round.hintsUsed == 3
    requires forall w | w in words :: !Easy.IsWordLengthValid(|w|)
    ensures NextWord(g, words, 0, pick).round.hintsUsed > HintCap(NextWord(g, words, 0, pick).difficultyType)
  {
  }

  /**
   * A closed dialog starts a MEDIUM round, but its hint budget is the one of
   * the tier last chosen in the dialog.
   */
  lemma CancelledDialogKeepsBudget(g: Game, words: seq<string>, choice: int, pick: nat)
    requires !(0 <= choice <= 2)
    requires exists w | w in words :: Medium.IsWordLengthValid(|w|)
    ensures var g' := NextWord(g, words, choice, pick);
            && 7 <= |g'.round.word| <= 9
            && HintCap(g'.difficultyType) == HintCap(g.difficultyType)
  {
  }

  /**
   * Hints never run the win test: a hint can reveal the last letter while
   * every letter button stays enabled, and the next wrong guess is then
   * announced as a win.
   */
  lemma HintCompletesWithoutWin()
    ensures var g := Game(Round("HOUSE", "H O U S _", 0, 0), 0, Alphabet - {'H', 'O', 'U', 'S'}, true, Panel(0));
            var h := GiveHint(g);
            && FullyRevealed(h.round.word, h.round.mask)
            && 'Z' in h.letters
            && !CheckLetter(h, 'Z').correct
            && CheckLetter(h, 'Z').verdict == Won
  {
    var g := Game(Round("HOUSE", "H O U S _", 0, 0), 0, Alphabet - {'H', 'O', 'U', 'S'}, true, Panel(0));
    assert Shaped(g.round.word, g.round.mask);
    assert LowestHidden(g.round.mask, 8);
    assert HasHidden(g.round.mask);
    assert g.round.hintsUsed < HintCap(g.difficultyType);
    var h := GiveHint(g);
    assert h.round.hintsUsed == 1;
    var k :| LowestHidden(g.round.mask, k) && h.round.mask == g.round.mask[k := g.round.word[k / 2]];
    assert k == 8;
    assert h.round.mask == "H O U S E";
    assert Gap !in "HOUSE";
    WinIffRevealed(h.round.word, h.round.mask);
  }
}
