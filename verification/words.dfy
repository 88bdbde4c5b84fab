/**
 * The word pool and the three difficulty tiers that filter it, the choice
 * made in the difficulty dialog, and the letters offered by the on-screen
 * buttons. Shared by both versions of the game.
 */
module Words {
  import opened Options

  /** Java's `Integer.MAX_VALUE`, the upper end of the HARD tier. */
  const IntMax: int := 0x7fff_ffff

  /** The letters of the button row, `'A'` to `'Z'`; nothing else can be guessed. */
  const Alphabet: set<char> := set c: char | 'A' <= c <= 'Z'

  /** A difficulty tier and its inclusive range of word lengths. */
  datatype Difficulty = Easy | Medium | Hard {

    /** The shortest word of the tier: the tiers start at 5 letters. */
    function MinLength(): (n: int)
      ensures n >= 5
      ensures this == Easy <==> n == 5
    {
      match this
      case Easy => 5
      case Medium => 7
      case Hard => 10
    }

    /**
     * The longest word of the tier: each tier ends one letter before the
     * next begins, and HARD is open up to `Integer.MAX_VALUE`.
     */
    function MaxLength(): (n: int)
      ensures n >= MinLength()
      ensures this == Easy ==> n + 1 == Medium.MinLength()
      ensures this == Medium ==> n + 1 == Hard.MinLength()
      ensures this == Hard ==> n == IntMax
    {
      match this
      case Easy => 6
      case Medium => 9
      case Hard => IntMax
    }

    /** The length lies in the tier's inclusive range; every accepted length is at least 5. */
    predicate IsWordLengthValid(length: int)
      ensures IsWordLengthValid(length) ==> 5 <= length <= IntMax
    {
      length >= MinLength() && length <= MaxLength()
    }
  }

  /** A length some tier accepts. */
  predicate TierLength(n: int) {
    5 <= n <= IntMax
  }

  /**
   * The tiers partition the lengths 5 to `Integer.MAX_VALUE`: every such
   * length belongs to exactly one tier, and no other length to any.
   */
  lemma TiersPartition(n: int)
    ensures TierLength(n) <==> exists d: Difficulty :: d.IsWordLengthValid(n)
    ensures forall d1: Difficulty, d2: Difficulty ::
              d1.IsWordLengthValid(n) && d2.IsWordLengthValid(n) ==> d1 == d2
  {
    if TierLength(n) {
      var d := if n <= 6 then Easy else if n <= 9 then Medium else Hard;
      assert d.IsWordLengthValid(n);
    }
  }

  /** The words of the pool whose length the tier accepts. */
  function FilterByLength(words: seq<string>, d: Difficulty): (pool: seq<string>)
    ensures |pool| <= |words|
    ensures multiset(pool) <= multiset(words)
    ensures forall w :: w in pool <==> w in words && d.IsWordLengthValid(|w|)
  {
    if |words| == 0 then []
    else
      var rest := FilterByLength(words[1..], d);
      assert words == [words[0]] + words[1..];
      if d.IsWordLengthValid(|words[0]|) then [words[0]] + rest else rest
  }

  /**
   * The word `newGame` draws: `pick` stands for the value of
   * `Random.nextInt(pool size)`, so any `pick` selects some word of the
   * filtered pool. `None` when no word of the pool fits the tier.
   */
  function ChooseWord(words: seq<string>, d: Difficulty, pick: nat): (r: Option<string>)
    ensures r.None? <==> forall w | w in words :: !d.IsWordLengthValid(|w|)
    ensures r.Some? ==> r.value in words && d.IsWordLengthValid(|r.value|)
    ensures r.Some? ==> TierLength(|r.value|)
  {
    var pool := FilterByLength(words, d);
    if |pool| == 0 then None
    else
      assert pool[0] in pool;
      Some(pool[pick % |pool|])
  }

  /** A random number below the size of the filtered pool draws the word at that position. */
  lemma ChooseWordAt(words: seq<string>, d: Difficulty, i: nat)
    requires i < |FilterByLength(words, d)|
    ensures ChooseWord(words, d, i) == Some(FilterByLength(words, d)[i])
  {
    var pool := FilterByLength(words, d);
    SmallRemainder(i, |pool|);
    assert ChooseWord(words, d, i) == Some(pool[i % |pool|]);
  }

  /** A number below the pool size is its own remainder. */
  lemma SmallRemainder(i: nat, n: nat)
    requires i < n
    ensures i % n == i
  {
  }

  /**
   * Every word of the pool that fits the tier is drawn for some value of
   * the random number: its position in the filtered pool.
   */
  lemma EveryFittingWordCanBePicked(words: seq<string>, d: Difficulty, w: string)
    requires w in words && d.IsWordLengthValid(|w|)
    ensures exists pick: nat :: ChooseWord(words, d, pick) == Some(w)
  {
    var pool := FilterByLength(words, d);
    assert w in pool;
    var i :| 0 <= i < |pool| && pool[i] == w;
    ChooseWordAt(words, d, i);
  }

  /**
   * The tier picked in the difficulty dialog: the buttons, in the order
   * EASY, MEDIUM, HARD, answer 0, 1, 2; any other answer (the dialog was
   * closed) picks none.
   */
  function Chosen(choice: int): (r: Option<Difficulty>)
    ensures r.Some? <==> 0 <= choice <= 2
    ensures r.Some? ==> r.value.MinLength() == [5, 7, 10][choice]
  {
    if choice == 0 then Some(Easy)
    else if choice == 1 then Some(Medium)
    else if choice == 2 then Some(Hard)
    else None
  }

  /** The tier a new round is started with: the chosen one, or MEDIUM. */
  function RoundDifficulty(choice: int): (d: Difficulty)
    ensures 0 <= choice <= 2 ==> Chosen(choice) == Some(d)
    ensures !(0 <= choice <= 2) ==> d == Medium
  {
    match Chosen(choice)
    case Some(d) => d
    case None => Medium
  }
}
