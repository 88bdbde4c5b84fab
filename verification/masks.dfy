/**
 * The display mask of a round (the `guessedWord` character array). For a
 * word of n letters it has 2n-1 cells: letter i is shown at index 2i, the
 * odd indices hold a blank that separates the letters, and `'_'` stands for
 * a letter not yet revealed. Every index below is an index into the mask, so
 * "an even index k" is the cell of letter k/2.
 */
module Masks {
  import opened Options

  /** The placeholder of a hidden letter. */
  const Hidden: char := '_'

  /** The separator at the odd indices. */
  const Gap: char := ' '

  /** The mask has the 2n-1 layout for `word`, with a blank at every odd index. */
  predicate Shaped(word: string, mask: seq<char>) {
    && |word| >= 1
    && |mask| == 2 * |word| - 1
    && forall k | 0 <= k < |mask| && k % 2 == 1 :: mask[k] == Gap
  }

  /** Shaped, and every letter cell is either hidden or shows its own letter. */
  predicate Consistent(word: string, mask: seq<char>) {
    && Shaped(word, mask)
    && forall k | 0 <= k < |mask| && k % 2 == 0 :: mask[k] == Hidden || mask[k] == word[k / 2]
  }

  /** Shaped, and every letter cell shows its own letter. */
  predicate FullyRevealed(word: string, mask: seq<char>) {
    && Shaped(word, mask)
    && forall k | 0 <= k < |mask| && k % 2 == 0 :: mask[k] == word[k / 2]
  }

  /** Some letter cell still holds the placeholder. */
  predicate HasHidden(mask: seq<char>) {
    exists k | 0 <= k < |mask| && k % 2 == 0 :: mask[k] == Hidden
  }

  /** `k` is the lowest letter cell that still holds the placeholder. */
  predicate LowestHidden(mask: seq<char>, k: int) {
    && 0 <= k < |mask| && k % 2 == 0 && mask[k] == Hidden
    && forall j | 0 <= j < k && j % 2 == 0 :: mask[j] != Hidden
  }

  /** The mask `newGame` builds for a word of `n` letters: all letters hidden. */
  function BlankMask(n: nat): (mask: seq<char>)
    requires n >= 1
    ensures |mask| == 2 * n - 1
    ensures forall k | 0 <= k < |mask| :: mask[k] == if k % 2 == 0 then Hidden else Gap
  {
    if n == 1 then [Hidden] else BlankMask(n - 1) + [Gap, Hidden]
  }

  /**
   * The guess loop of `checkLetter` from letter `i` on: every letter cell
   * whose letter equals `c` is set to `c`.
   */
  function RevealFrom(word: string, mask: seq<char>, c: char, i: nat): (r: seq<char>)
    requires i <= |word| && |mask| == 2 * |word| - 1
    ensures |r| == |mask|
    ensures forall k | 0 <= k < |r| ::
              r[k] == if k % 2 == 0 && i <= k / 2 && word[k / 2] == c then c else mask[k]
    decreases |word| - i
  {
    if i == |word| then mask
    else RevealFrom(word, if word[i] == c then mask[2 * i := c] else mask, c, i + 1)
  }

  /**
   * The effect of guessing `c` on the mask: exactly the cells of the letters
   * equal to `c` change, and they change to `c`. Matching is exact, so a
   * lower-case letter is not found by an upper-case guess.
   */
  function Reveal(word: string, mask: seq<char>, c: char): (r: seq<char>)
    requires Shaped(word, mask)
    ensures |r| == |mask|
    ensures forall k | 0 <= k < |r| ::
              r[k] == if k % 2 == 0 && word[k / 2] == c then c else mask[k]
    ensures c !in word ==> r == mask
  {
    RevealFrom(word, mask, c, 0)
  }

  /** The loop of `giveUp` from letter `i` on: every letter cell shows its letter. */
  function RevealAllFrom(word: string, mask: seq<char>, i: nat): (r: seq<char>)
    requires i <= |word| && |mask| == 2 * |word| - 1
    ensures |r| == |mask|
    ensures forall k | 0 <= k < |r| ::
              r[k] == if k % 2 == 0 && i <= k / 2 then word[k / 2] else mask[k]
    decreases |word| - i
  {
    if i == |word| then mask
    else RevealAllFrom(word, mask[2 * i := word[i]], i + 1)
  }

  /** Giving up: every letter is shown and the blanks stay where they were. */
  function RevealAll(word: string, mask: seq<char>): (r: seq<char>)
    requires Shaped(word, mask)
    ensures FullyRevealed(word, r)
    ensures forall k | 0 <= k < |r| && k % 2 == 1 :: r[k] == mask[k]
  {
    RevealAllFrom(word, mask, 0)
  }

  /**
   * The scan of `giveHint`: the letter cells from even index `i` on, in
   * steps of two, until one holds the placeholder.
   */
  function FindHidden(mask: seq<char>, i: nat): (r: Option<nat>)
    requires i % 2 == 0
    ensures r.Some? ==> i <= r.value < |mask| && r.value % 2 == 0 && mask[r.value] == Hidden
    ensures r.Some? ==> forall j | i <= j < r.value && j % 2 == 0 :: mask[j] != Hidden
    ensures r.None? ==> forall j | i <= j < |mask| && j % 2 == 0 :: mask[j] != Hidden
    ensures i == 0 ==> (r.None? <==> !HasHidden(mask))
    ensures i == 0 && r.Some? ==> LowestHidden(mask, r.value)
    decreases |mask| - i
  {
    if i >= |mask| then None
    else if mask[i] == Hidden then Some(i)
    else FindHidden(mask, i + 2)
  }

  /**
   * `String.replace(" ", "")`: the text with every blank removed, the other
   * characters kept in order and in number.
   */
  function RemoveSpaces(s: seq<char>): (r: seq<char>)
    ensures |r| <= |s|
    ensures Gap !in r
    ensures forall c | c != Gap :: c in r <==> c in s
  {
    if |s| == 0 then []
    else (if s[0] == Gap then [] else [s[0]]) + RemoveSpaces(s[1..])
  }

  /** Every non-blank character is kept as often as it occurs. */
  lemma {:induction false} RemoveSpacesCounts(s: seq<char>)
    ensures multiset(RemoveSpaces(s)) == multiset(s)[Gap := 0]
    decreases |s|
  {
    if |s| > 0 {
      assert s == [s[0]] + s[1..];
      RemoveSpacesCounts(s[1..]);
    }
  }

  /** Removing blanks works piece by piece, so the order of the other characters is kept. */
  lemma {:induction false} RemoveSpacesConcat(a: seq<char>, b: seq<char>)
    ensures RemoveSpaces(a + b) == RemoveSpaces(a) + RemoveSpaces(b)
    decreases |a|
  {
    if |a| > 0 {
      assert (a + b)[1..] == a[1..] + b;
      RemoveSpacesConcat(a[1..], b);
    } else {
      assert a + b == b;
    }
  }

  /**
   * The win test of `checkLetter`: the mask without its blanks spells the
   * word, so a word with a blank never passes.
   */
  predicate WinCheck(word: string, mask: seq<char>)
    ensures WinCheck(word, mask) ==> Gap !in word && |word| <= |mask|
  {
    RemoveSpaces(mask) == word
  }

  /** The letter cells of a mask, in order: cell i is the mask's index 2i. */
  function Shown(mask: seq<char>): (r: seq<char>)
    ensures |r| == (|mask| + 1) / 2
    ensures forall i | 0 <= i < |r| :: r[i] == mask[2 * i]
  {
    if |mask| <= 1 then mask else [mask[0]] + Shown(mask[2..])
  }

  /** Removing the blanks of a mask with blanks exactly at the odd indices leaves its letter cells. */
  lemma {:induction false} RemoveSpacesOfLayout(mask: seq<char>)
    requires |mask| % 2 == 1
    requires forall k | 0 <= k < |mask| :: mask[k] == Gap <==> k % 2 == 1
    ensures RemoveSpaces(mask) == Shown(mask)
  {
    if |mask| > 1 {
      var tail := mask[2..];
      forall k | 0 <= k < |tail|
        ensures tail[k] == Gap <==> k % 2 == 1
      {
        assert tail[k] == mask[k + 2];
      }
      RemoveSpacesOfLayout(tail);
      assert mask[1..][1..] == tail;
    }
  }

  /**
   * For a word without blanks the string comparison of the win test is the
   * same as "every letter is revealed". A word that contains a blank is
   * never won (see `SpacedWordNeverWins`).
   */
  lemma WinIffRevealed(word: string, mask: seq<char>)
    requires Consistent(word, mask)
    requires Gap !in word
    ensures WinCheck(word, mask) <==> FullyRevealed(word, mask)
  {
    forall k | 0 <= k < |mask|
      ensures mask[k] == Gap <==> k % 2 == 1
    {
      if k % 2 == 0 {
        assert word[k / 2] in word;
      }
    }
    RemoveSpacesOfLayout(mask);
    var s := Shown(mask);
    if FullyRevealed(word, mask) {
      forall i | 0 <= i < |word|
        ensures s[i] == word[i]
      {
        assert (2 * i) / 2 == i;
      }
      assert s == word;
    }
    if WinCheck(word, mask) {
      forall k | 0 <= k < |mask| && k % 2 == 0
        ensures mask[k] == word[k / 2]
      {
        assert s[k / 2] == mask[2 * (k / 2)];
      }
    }
  }

  /** The win test drops every blank of the mask, so a word with a blank can never pass it. */
  lemma SpacedWordNeverWins(word: string, mask: seq<char>)
    requires Gap in word
    ensures !WinCheck(word, mask)
  {
  }

  /** A word of one or more letters, every one of them the placeholder. */
  predicate PlaceholderWord(word: string) {
    |word| >= 1 && forall i | 0 <= i < |word| :: word[i] == Hidden
  }

  /** Removing the blanks of a fresh mask for `n` letters leaves `n` placeholders. */
  lemma {:induction false} RemoveSpacesOfBlank(n: nat)
    requires n >= 1
    ensures |RemoveSpaces(BlankMask(n))| == n
    ensures forall i | 0 <= i < n :: RemoveSpaces(BlankMask(n))[i] == Hidden
  {
    if n == 1 {
      assert RemoveSpaces([Hidden]) == [Hidden] + RemoveSpaces([]);
    } else {
      RemoveSpacesOfBlank(n - 1);
      RemoveSpacesConcat(BlankMask(n - 1), [Gap, Hidden]);
      assert RemoveSpaces([Gap, Hidden]) == [Hidden] by {
        assert [Gap, Hidden][1..] == [Hidden];
        assert RemoveSpaces([Hidden]) == [Hidden] + RemoveSpaces([]);
      }
    }
  }

  /**
   * A fresh mask passes the win test exactly for a word made of
   * placeholders: the mask without blanks is all `'_'`.
   */
  lemma BlankMaskWonIffPlaceholder(word: string)
    requires |word| >= 1
    ensures WinCheck(word, BlankMask(|word|)) <==> PlaceholderWord(word)
  {
    var r := RemoveSpaces(BlankMask(|word|));
    RemoveSpacesOfBlank(|word|);
    if PlaceholderWord(word) {
      assert r == word;
    }
    if r == word {
      assert forall i | 0 <= i < |word| :: word[i] == r[i];
    }
  }
}
