/**
 * The Distle player: after every wrong guess it is told the top-down list of
 * operations that turns its guess into the secret word, and it keeps only the
 * dictionary words for which the same list comes out.
 */
module Player {
  import opened EditDistance

  datatype Option<T> = None | Some(value: T)

  /** How often `tag` occurs in the operation list `transforms`. */
  function Frequency(transforms: seq<string>, tag: string): (n: nat)
    ensures n <= |transforms|
    ensures n == 0 <==> tag !in transforms
  {
    if transforms == [] then 0
    else (if transforms[0] == tag then 1 else 0) + Frequency(transforms[1..], tag)
  }

  /** Counting a tag in the spelled-out list counts the operation it spells. */
  lemma {:induction false} FrequencyOfTags(ops: seq<EditOp>, op: EditOp)
    ensures Frequency(Tags(ops), Tag(op)) == Count(ops, op)
  {
    if ops != [] {
      FrequencyOfTags(ops[1..], op);
      assert Tags(ops)[1..] == Tags(ops[1..]);
      assert Tags(ops)[0] == Tag(ops[0]);
      TagInjective(ops[0], op);
    }
  }

  /**
   * The length of the secret word as the feedback reveals it: the guess's
   * length, one more for each insertion, one less for each deletion.
   */
  function LengthWord(transforms: seq<string>, guess: string): (n: int)
    ensures |guess| - |transforms| <= n <= |guess| + |transforms|
  {
    |guess| + Frequency(transforms, "I") - Frequency(transforms, "D")
  }

  /** The length read off the feedback for a secret word is that word's length. */
  lemma LengthWordOfSecret(guess: string, secret: string)
    requires Walkable(guess, secret)
    ensures LengthWord(Tags(Transformations(guess, secret)), guess) == |secret|
  {
    var ops := Transformations(guess, secret);
    FrequencyOfTags(ops, I);
    FrequencyOfTags(ops, D);
  }

  /** The dictionary words of length `lengthOfWord`. */
  function FilterByWordLength(dictionary: set<string>, lengthOfWord: int): (filtered: set<string>)
    ensures filtered <= dictionary
    ensures forall w :: w in filtered <==> w in dictionary && |w| == lengthOfWord
  {
    set w | w in dictionary && |w| == lengthOfWord
  }

  /** Every word the player may still walk against `guess`. */
  predicate Playable(dictionary: set<string>, guess: string)
  {
    forall w :: w in dictionary ==> Walkable(guess, w)
  }

  /**
   * The dictionary words that, had they been the secret, would have produced
   * the feedback `transforms` for `guess`.
   */
  function Candidates(dictionary: set<string>, guess: string, transforms: seq<string>): (possible: set<string>)
    requires Playable(dictionary, guess)
    ensures possible <= dictionary
  {
    set w | w in dictionary && Tags(Transformations(guess, w)) == transforms
  }

  /** What the dictionary becomes after the feedback `transforms` for `guess`. */
  function Feedback(dictionary: set<string>, guess: string, transforms: seq<string>): (next: set<string>)
    requires Playable(dictionary, guess)
    ensures next <= dictionary
  {
    var filtered := FilterByWordLength(dictionary, LengthWord(transforms, guess));
    Candidates(filtered, guess, transforms)
  }

  /**
   * The length filter removes no candidate: a word giving the same operation
   * list already has the length that list reveals.
   */
  lemma LengthFilterRedundant(dictionary: set<string>, guess: string, transforms: seq<string>)
    requires Playable(dictionary, guess)
    ensures Feedback(dictionary, guess, transforms) == Candidates(dictionary, guess, transforms)
  {
    forall w | w in Candidates(dictionary, guess, transforms)
      ensures w in Feedback(dictionary, guess, transforms)
    {
      LengthWordOfSecret(guess, w);
    }
  }

  /**
   * A word survives the feedback exactly when it is in the dictionary and
   * would have produced the same operation list.
   */
  lemma FeedbackCharacterised(dictionary: set<string>, guess: string, transforms: seq<string>, w: string)
    requires Playable(dictionary, guess)
    ensures w in Feedback(dictionary, guess, transforms)
        <==> w in dictionary && Tags(Transformations(guess, w)) == transforms
  {
    LengthFilterRedundant(dictionary, guess, transforms);
  }

  /**
   * Comparing the reported tag lists is comparing the operation lists
   * themselves: a word survives feedback spelled from `ops` exactly when its
   * own walk is `ops`.
   */
  lemma FeedbackOnOperations(dictionary: set<string>, guess: string, ops: seq<EditOp>, w: string)
    requires Playable(dictionary, guess)
    ensures w in Feedback(dictionary, guess, Tags(ops))
        <==> w in dictionary && Transformations(guess, w) == ops
  {
    FeedbackCharacterised(dictionary, guess, Tags(ops), w);
    if w in dictionary {
      TagsInjective(Transformations(guess, w), ops);
    }
  }

  /** The secret word is never filtered out by honest feedback about it. */
  lemma FeedbackKeepsSecret(dictionary: set<string>, guess: string, secret: string)
    requires Playable(dictionary, guess) && secret in dictionary
    ensures secret in Feedback(dictionary, guess, Tags(Transformations(guess, secret)))
  {
    FeedbackCharacterised(dictionary, guess, Tags(Transformations(guess, secret)), secret);
  }

  /** Hearing the same feedback twice changes nothing the second time. */
  lemma FeedbackIdempotent(dictionary: set<string>, guess: string, transforms: seq<string>)
    requires Playable(dictionary, guess)
    ensures Feedback(Feedback(dictionary, guess, transforms), guess, transforms)
         == Feedback(dictionary, guess, transforms)
  {
    var once := Feedback(dictionary, guess, transforms);
    LengthFilterRedundant(dictionary, guess, transforms);
    LengthFilterRedundant(once, guess, transforms);
  }

  /** A larger dictionary keeps at least the words a smaller one keeps. */
  lemma FeedbackMonotone(small: set<string>, large: set<string>, guess: string, transforms: seq<string>)
    requires Playable(large, guess) && small <= large
    ensures Feedback(small, guess, transforms) <= Feedback(large, guess, transforms)
  {
    LengthFilterRedundant(small, guess, transforms);
    LengthFilterRedundant(large, guess, transforms);
  }

  /** The player's state across one game. */
  class DistlePlayer {
    var lengthOfWord: int
    var guessNumber: int
    var topGuess: Option<string>
    var dictionary: set<string>

    /** A player before its first game: every field holds its default. */
    constructor ()
      ensures lengthOfWord == 0 && guessNumber == 0
      ensures topGuess == None && dictionary == {}
    {
      lengthOfWord := 0;
      guessNumber := 0;
      topGuess := None;
      dictionary := {};
    }

    /** Starts a game over `dictionary`: the first guess is next. */
    method StartNewGame(dictionary: set<string>, maxGuesses: int)
      modifies this
      ensures this.dictionary == dictionary
      ensures lengthOfWord == 0 && guessNumber == 1 && topGuess == None
    {
      this.dictionary := dictionary;
      lengthOfWord := 0;
      guessNumber := 1;
      topGuess := None;
    }

    /**
     * The first guess of a game is always "heaven"; every later guess is some
     * word still in the dictionary, remembered as the top guess.
     */
    method MakeGuess() returns (guess: string)
      requires guessNumber != 1 ==> dictionary != {}
      modifies this
      ensures guessNumber == old(guessNumber) + 1
      ensures old(guessNumber) == 1 ==> guess == "heaven" && topGuess == old(topGuess)
      ensures old(guessNumber) != 1 ==> guess in dictionary && topGuess == Some(guess)
      ensures dictionary == old(dictionary) && lengthOfWord == old(lengthOfWord)
    {
      if guessNumber == 1 {
        guessNumber := guessNumber + 1;
        return "heaven";
      }
      guessNumber := guessNumber + 1;
      var word :| word in dictionary;
      topGuess := Some(word);
      guess := word;
    }

    /**
     * Takes the feedback for a wrong guess: records the length of the secret
     * word it reveals and keeps only the words consistent with it.
     */
    method GetFeedback(guess: string, editDistance: int, transforms: seq<string>)
      requires Playable(dictionary, guess)
      modifies this
      ensures lengthOfWord == LengthWord(transforms, guess)
      ensures dictionary == Feedback(old(dictionary), guess, transforms)
      ensures guessNumber == old(guessNumber) && topGuess == old(topGuess)
    {
      lengthOfWord := LengthWord(transforms, guess);
      dictionary := FilterByWordLength(dictionary, lengthOfWord);
      dictionary := FindCandidate(dictionary, guess, transforms);
    }

    /**
     * Walks every dictionary word against `guess` and keeps those whose
     * operation list is `transforms`.
     */
    static method FindCandidate(dictionary: set<string>, guess: string, transforms: seq<string>)
      returns (possibleWords: set<string>)
      requires Playable(dictionary, guess)
      ensures possibleWords == Candidates(dictionary, guess, transforms)
    {
      possibleWords := {};
      var rest := dictionary;
      while rest != {}
        invariant rest <= dictionary
        invariant possibleWords == Candidates(dictionary - rest, guess, transforms)
        decreases |rest|
      {
        var word :| word in rest;
        var table := EditDistTable(guess, word);
        CellTableCoherent(guess, word);
        FilledTableHolds(guess, word, table);
        var tList := TransformationList(guess, word, table, CellTable(guess, word));
        if transforms == Tags(tList) {
          possibleWords := possibleWords + {word};
        }
        rest := rest - {word};
      }
      assert dictionary - rest == dictionary;
    }
  }
}
