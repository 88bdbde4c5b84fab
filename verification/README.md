# Hangman round logic, modelled in Dafny

This project models the logic of a Swing hangman game. The game has two
versions of its round engine and a panel that draws the hangman figure.

- **Later version** (`HangmanGame.java`). A round is started from a word pool filtered by
  difficulty tier (EASY 5–6 letters, MEDIUM 7–9, HARD 10 to `Integer.MAX_VALUE`).
  The player guesses letters, may ask for a limited number of hints, or gives up.
- **Earlier version** (`HangmanGame/src/HangmanGame.java`). The same engine without hints.
  A losing guess does not return early, so the win test still runs after it.
- **Panel** (`HangmanGame/src/HangmanPanel.java`). It stores an error count.
  When painted, it draws the gallows and one more figure part per error.

The display mask is modelled as the source builds it: `2n-1` characters for an `n`-letter word.
Letter `i` sits at index `2i`, odd indices hold a blank, and `'_'` marks a hidden letter.
The win test is modelled literally: "the mask with its blanks removed equals the word".
`Masks.WinIffRevealed` shows that this test means "every letter shown" for words without a blank.

The window state (`HintedGame.Game`, `ClassicGame.Game`) also holds:
- the letter buttons still enabled;
- the hint button;
- the `DifficultyType` that selects the hint budget;
- the panel.

Buttons are kept only for their logical effect. A handler runs only for an enabled button.
A letter is disabled once guessed, and every letter is disabled when a round ends.
The window (`Window`) is either `Idle` or `Playing`. `Idle` means no round has started yet:
the constructor found no word for the chosen tier, so `currentWord` is still `null`.
`Playing` holds a round. `Open` is the constructor. `Handle` is one click, and `Run` is a sequence of clicks.
In an idle window, only "next word" can start a round. The letter handler disables its button and then
fails on the missing word. The give-up handler fails at once, and so does the hint handler while hints remain.
With a hint budget of 0 the hint handler would disable its button without failing, but no idle window has a
budget of 0 (`HintedGame.IdleBudgetNeverZero`). The lemmas about `Run` state what holds in every window reachable from the
constructor, for any word pool and any clicks.

Behaviour kept exactly as the code has it:
- letters are matched exactly, with no case folding;
- a hint never runs the win test;
- hints still work after a round has ended;
- the hint budget is keyed by a `DifficultyType` that a cancelled dialog does not update;
- an empty filtered pool changes nothing except `DifficultyType`, which the dialog has already set;
- the panel stores any error count, negative ones included.

Modules:
- `Options`: an optional value.
- `Words`: tiers, the pool filter, the random pick, the dialog's choice and the letter alphabet.
- `Masks`: the mask layout, reveal, hint scan, give-up and the win test.
- `Figure`: the panel.
- `HintedGame`: the later engine.
- `ClassicGame`: the earlier engine.
- `Variants`: how the two engines relate.

## Model

| member | source | states |
|---|---|---|
| `Words.Difficulty.MinLength` | HangmanGame.java:13-15 | every tier starts at 5 letters or more, and EASY is the only tier that starts at exactly 5 |
| `Words.Difficulty.MaxLength` | HangmanGame.java:13-15 | each tier ends one letter before the next starts, and HARD ends at `Integer.MAX_VALUE` |
| `Words.Difficulty.IsWordLengthValid` | HangmanGame.java:26-28 | every length a tier accepts is between 5 and `Integer.MAX_VALUE` |
| `Words.TiersPartition` | HangmanGame.java:12-28 | every length from 5 to `Integer.MAX_VALUE` belongs to exactly one tier, and no other length belongs to any tier |
| `Words.FilterByLength` | HangmanGame.java:250-257 | the filtered pool holds exactly the words of the pool whose length the tier accepts, never more copies than the pool has |
| `Words.ChooseWord` | HangmanGame.java:259-265 | no word exactly when no word of the pool fits the tier; otherwise a word of the pool whose length the tier accepts |
| `Words.ChooseWordAt` | HangmanGame.java:264 | a random number below the filtered pool's size draws the word at that position |
| `Words.EveryFittingWordCanBePicked` | HangmanGame.java:259-265 | every word of the pool that fits the tier is drawn for some value of the random number |
| `Words.Chosen` | HangmanGame.java:112-132 | the dialog chooses a tier exactly for answers 0 to 2, which pick the tiers starting at 5, 7 and 10 letters |
| `Words.RoundDifficulty` | HangmanGame.java:98-134 | answers 0, 1, 2 pick EASY, MEDIUM, HARD; any other answer falls back to MEDIUM |
| `Masks.BlankMask` | HangmanGame.java:266-270 | a fresh mask for `n` letters has `2n-1` cells, with `'_'` at every even index and a blank at every odd one |
| `Masks.RevealFrom` | HangmanGame.java:297-302 | the guess loop from letter `i` on sets cell `2j` to the guess for each later letter `j` equal to it, and leaves every other cell |
| `Masks.Reveal` | HangmanGame.java:297-302 | a guess changes exactly the cells of the letters equal to the guess, to the guess (exact match); a letter not in the word changes nothing |
| `Masks.RevealAllFrom` | HangmanGame.java:336-338 | the give-up loop from letter `i` on shows each later letter in its cell and leaves every other cell |
| `Masks.RevealAll` | HangmanGame.java:334-338 | giving up shows every letter in its cell and keeps the blanks |
| `Masks.FindHidden` | HangmanGame.java:207-208 | the hint scan returns the lowest even index still `'_'`, or nothing exactly when no letter is hidden |
| `Masks.RemoveSpaces` | HangmanGame.java:324 | `replace(" ", "")` leaves no blank, and keeps every other character that occurs |
| `Masks.RemoveSpacesCounts` | HangmanGame.java:324 | removing blanks keeps every other character exactly as often as it occurs |
| `Masks.RemoveSpacesConcat` | HangmanGame.java:324 | removing blanks works piece by piece, so the other characters keep their order |
| `Masks.RemoveSpacesOfLayout` | HangmanGame.java:324 | on a mask whose blanks are exactly the odd cells, removing blanks leaves the letter cells in order |
| `Masks.WinCheck` | HangmanGame.java:324 | a mask passes the win test only for a word without a blank and no longer than the mask |
| `Masks.WinIffRevealed` | HangmanGame.java:324 | for a consistent mask and a word without a blank, the win test holds exactly when every letter is shown |
| `Masks.SpacedWordNeverWins` | HangmanGame.java:324 | a word containing a blank never passes the win test |
| `Masks.RemoveSpacesOfBlank` | HangmanGame/src/HangmanGame.java:211-215 | removing the blanks of a fresh mask for `n` letters leaves exactly `n` placeholders |
| `Masks.BlankMaskWonIffPlaceholder` | HangmanGame/src/HangmanGame.java:211-215 | a fresh mask passes the win test exactly when every letter of the word is `'_'` |
| `Figure.SetErrors` | HangmanGame/src/HangmanPanel.java:12-14 | the panel stores the count as given, without clamping |
| `Figure.Reset` | HangmanGame/src/HangmanPanel.java:16-18 | the count becomes 0, so only the gallows is drawn |
| `Figure.Drawn` | HangmanGame/src/HangmanPanel.java:47-83 | painting draws the four gallows lines, then the first `errors` figure parts (bounded to 0..7) in drawing order |
| `Figure.DrawnByGate` | HangmanGame/src/HangmanPanel.java:56-83 | the gallows is always drawn; head, torso, arms, legs and face exactly when `errors > 0, 1, 2, 3, 4, 5, 6` |
| `Figure.DrawnGrows` | HangmanGame/src/HangmanPanel.java:56-83 | the drawing for `e` is a prefix (so a subset) of the drawing for `e+1`, and one part longer while `0 <= e < 7` |
| `Figure.DrawnNoErrors` | HangmanGame/src/HangmanPanel.java:47-58 | zero or negative counts draw only the gallows |
| `Figure.DrawnComplete` | HangmanGame/src/HangmanPanel.java:74-83 | seven or more errors draw every part, face included |
| `HintedGame.HintCap` | HangmanGame.java:196-202 | the budget is 2, 3, 4 for `DifficultyType` 0, 1, 2 and 0 for any other value |
| `HintedGame.StartRound` | HangmanGame.java:259-282 | with a fitting word: a pool word of the tier, a blank mask, zero errors and hints, every button enabled, the panel reset, the invariant established; nothing exactly when no word fits |
| `HintedGame.NewGame` | HangmanGame.java:247-283 | an empty filtered pool changes nothing; otherwise a pool word of the tier, a blank mask, zero errors and hints, all buttons enabled, the panel reset |
| `HintedGame.NextWord` | HangmanGame.java:98-134 | `DifficultyType` follows a chosen tier and survives a closed dialog; with an empty pool nothing else changes; otherwise a fresh round (pool word, blank mask, counters at 0, buttons enabled) of the chosen tier, or MEDIUM |
| `HintedGame.CheckLetter` | HangmanGame.java:291-332 | reveals exactly the matching letters; one more error exactly on a miss; a loss exactly when a miss reaches 7, and then no win; a win exactly when the win test passes without a loss; the guessed letter is disabled, all letters on either ending |
| `HintedGame.GiveHint` | HangmanGame.java:195-223 | within the budget and with a letter hidden, it reveals the lowest hidden letter and uses exactly one hint, never past the budget; otherwise the mask and count stay; errors and letter buttons are never touched; the button stays enabled exactly while hints remain |
| `HintedGame.GiveUp` | HangmanGame.java:334-342 | every letter is shown, the blanks and all counters stay, every letter button is disabled |
| `HintedGame.NewGameKeepsInv` | HangmanGame.java:247-283 | starting a round, or failing to, keeps the window invariant |
| `HintedGame.CheckLetterKeepsInv` | HangmanGame.java:311-320 | a guess keeps the invariant, so the error count never goes past 7 |
| `HintedGame.GiveHintKeepsInv` | HangmanGame.java:205-216 | a hint writes only the word's own letter into a letter cell, so it keeps the invariant |
| `HintedGame.GiveUpKeepsInv` | HangmanGame.java:334-342 | giving up keeps the invariant |
| `HintedGame.Step` | HangmanGame.java:173-192 | any click keeps the invariant; within a round the word stays and neither errors nor hints decrease |
| `HintedGame.StartFromIdle` | HangmanGame.java:98-134 | in a window without a round, "next word" sets `DifficultyType` from a chosen tier and starts a fresh round of the tier when a word fits; otherwise only `DifficultyType` changes |
| `HintedGame.Open` | HangmanGame.java:63-71 | the constructor's window has a round exactly when a word fits the chosen tier (MEDIUM if the dialog was closed): a fresh round with `DifficultyType` the answer or 0; otherwise no round, every button enabled |
| `HintedGame.Handle` | HangmanGame.java:173-192 | a click keeps the invariant; a round never goes away; without a round only "next word" can start one, and `DifficultyType` stays otherwise |
| `HintedGame.Run` | HangmanGame.java:173-192 | any sequence of clicks keeps the invariant and never loses the round |
| `HintedGame.ErrorsNeverExceedMax` | HangmanGame.java:311-320 | for any pool and any clicks after the constructor, every round shown has its errors between 0 and 7, the panel shows them, and the mask keeps its layout |
| `HintedGame.RunKeepsTypeChosen` | HangmanGame.java:121-132 | no sequence of clicks sets `DifficultyType` to anything but 0, 1 or 2 |
| `HintedGame.IdleBudgetNeverZero` | HangmanGame.java:195-222 | in every reachable window without a round the hint budget is at least 2, so the "no hints left" branch never runs there |
| `HintedGame.FirstRoundCanStartLater` | HangmanGame.java:98-134 | a closed dialog with no MEDIUM word leaves the window without a round, and "next word" choosing EASY then starts one |
| `HintedGame.EmptyPoolLeavesHintsOverBudget` | HangmanGame.java:121-132 | after choosing EASY with no EASY word, a round that used 3 hints under HARD is over its new budget of 2 |
| `HintedGame.CancelledDialogKeepsBudget` | HangmanGame.java:98-107 | a closed dialog starts a MEDIUM round with the hint budget of the last chosen tier |
| `HintedGame.HintCompletesWithoutWin` | HangmanGame.java:195-223 | a hint can reveal the last letter without ending the round, and a following wrong guess is announced as a win |
| `ClassicGame.StartRound` | HangmanGame/src/HangmanGame.java:205-223 | with a fitting word: a pool word of the tier, a blank mask, zero errors, all letters enabled, the panel reset, the invariant established; nothing exactly when no word fits |
| `ClassicGame.NewGame` | HangmanGame/src/HangmanGame.java:193-224 | an empty filtered pool changes nothing; otherwise a pool word of the tier, a blank mask, zero errors, all letters enabled, the panel reset |
| `ClassicGame.NextWord` | HangmanGame/src/HangmanGame.java:90-121 | a fresh round (pool word, blank mask, zero errors, letters enabled, panel reset) of the chosen tier, or MEDIUM; with an empty pool nothing changes |
| `ClassicGame.CheckLetter` | HangmanGame/src/HangmanGame.java:233-271 | reveals exactly the matching letters; one more error exactly on a miss; a loss exactly when a miss reaches 7; a win exactly when the win test passes, loss or not, and on a losing guess only if the mask passed it before |
| `ClassicGame.GiveUp` | HangmanGame/src/HangmanGame.java:276-283 | every letter is shown, the blanks and the error count stay, every letter is disabled |
| `ClassicGame.NeverLostAndWon` | HangmanGame/src/HangmanGame.java:257-267 | under the invariant, no guess reports both a loss and a win |
| `ClassicGame.NewGameKeepsInv` | HangmanGame/src/HangmanGame.java:193-224 | starting a round, or failing to, keeps the invariant, for any pool |
| `ClassicGame.CheckLetterKeepsInv` | HangmanGame/src/HangmanGame.java:233-271 | a guess keeps the invariant, including "a mask that passes the win test with letters enabled has no error" |
| `ClassicGame.GiveUpKeepsInv` | HangmanGame/src/HangmanGame.java:276-283 | giving up keeps the invariant |
| `ClassicGame.Step` | HangmanGame/src/HangmanGame.java:145-171 | any click keeps the invariant; within a round the word stays and errors do not decrease |
| `ClassicGame.StartFromIdle` | HangmanGame/src/HangmanGame.java:90-121 | in a window without a round, "next word" starts a fresh round of the chosen tier (or MEDIUM) when a word fits, and otherwise changes nothing |
| `ClassicGame.Open` | HangmanGame/src/HangmanGame.java:58-66 | the constructor's window has a round exactly when a word fits the chosen tier (MEDIUM if the dialog was closed), and then a fresh one; otherwise no round, every letter enabled |
| `ClassicGame.Handle` | HangmanGame/src/HangmanGame.java:145-171 | a click keeps the invariant; a round never goes away; without a round only "next word" can start one |
| `ClassicGame.Run` | HangmanGame/src/HangmanGame.java:145-171 | any sequence of clicks keeps the invariant and never loses the round |
| `ClassicGame.ReachableNeverLostAndWon` | HangmanGame/src/HangmanGame.java:257-267 | for any pool and any clicks after the constructor, every round shown has at most 7 errors and no enabled guess reports both a loss and a win |
| `ClassicGame.PlaceholderWordWonAtOnce` | HangmanGame/src/HangmanGame.java:257-267 | for a pool holding only `_____`, the first guess is a miss and is reported as a win |
| `Variants.NewGameAgrees` | HangmanGame/src/HangmanGame.java:193-224 | both versions start the same round from the same pool, tier and pick |
| `Variants.CheckLetterAgrees` | HangmanGame/src/HangmanGame.java:233-271 | a guess changes both versions' state alike; the earlier version also reports a win on a losing guess exactly when the mask already passed the win test |
| `Variants.GiveUpAgrees` | HangmanGame/src/HangmanGame.java:276-283 | giving up is the same in both versions |

## Left out

- Swing widgets, layout, menus, fonts and colours. The difficulty dialog becomes the integer answer `choice`.
- Message text, `updateInfoLabel`, and the hint-exhausted message. The logical outcome of a guess is kept as `Verdict` or `Report`.
- Reading `wordlist.txt` in the static initialiser. The word list is a `seq<string>` parameter.
- `java.util.Random`. The value of `nextInt(size)` is a caller-supplied `pick`, used as `pick % size`. Every word of the filtered pool can be picked.
- Pixel geometry, strokes and `Graphics2D` calls in `paintComponent`. Only which parts are drawn, and in what order, is kept. The X eyes and the mouth form one part, `Face`, because they share one threshold.
- `repaint`, `System.exit` and `main`.
- The exception in a window without a round. The letter, hint and give-up handlers throw a `NullPointerException` on the missing word. `Handle` keeps only what changes before that, which is the letter handler's disabled button; give-up and hint change nothing. The message and the thread's failure are not modelled.
- Java's `int` arithmetic in `currentWord.length() * 2 - 1`. It overflows only for words of 2^30 characters or more, which a word list does not hold. Lengths are unbounded integers here.
- Java strings are sequences of UTF-16 code units: `length()` and `charAt` count surrogate halves separately. A Dafny `string` is a sequence of Unicode scalar values. So a word with characters outside the Basic Multilingual Plane has a different length, mask and tier here than in Java. The letter buttons offer only `A` to `Z`, so guesses are not affected.
- Words.FilterByLength: states membership and multiplicity bounds, not that the pool's order is kept. The pick is random, so order does not affect any promise of the source.
