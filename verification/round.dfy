/**
 * One round of hangman: the per-guess state transition of the game loop, as a
 * specification on values (RoundState, Next, Play) and as the object the loop
 * mutates (class Round), with the invariants the transition keeps.
 */
module RoundEngine {
  import opened Mask
  import opened Guess

  /** MAX_ERRORS: the round is lost once this many errors have been made. */
  const MaxErrors: int := 6

  /** How a guess leaves the round: still running, or ended. */
  datatype Outcome = Continue | Won | Lost

  /** Which branch of the loop body handled the guess. */
  datatype Feedback =
    | WordCorrect         // the full word was guessed
    | WordWrong           // a full-word guess that is not the word
    | LetterRepeated      // the letter had been entered before
    | LetterRepeatedMiss  // the letter had already been a miss (never produced)
    | LetterAbsent        // a new letter that occurs nowhere still hidden
    | LetterFound         // a new letter that uncovered something (no message is printed)

  /** The word, the mask, the guessed and wrong letter sets and the error counter. */
  datatype RoundState = RoundState(
    word: string,
    mask: seq<char>,
    guessed: set<char>,
    wrong: set<char>,
    errors: int)

  /** The result of one guess: the new state, how the round stands, which branch handled it. */
  datatype Turn = Turn(state: RoundState, outcome: Outcome, feedback: Feedback)

  /** The state at the start of a round: everything hidden, nothing guessed, no errors. */
  function Initial(word: string): (s: RoundState)
    ensures |s.mask| == |s.word|
  {
    RoundState(word, MaskWord(word), {}, {}, 0)
  }

  /**
   * What a round's state always satisfies: the mask shows exactly the guessed
   * letters of the word, the wrong letters are exactly the guessed letters
   * absent from the word, and every wrong letter has cost one error.
   */
  ghost predicate Inv(s: RoundState) {
    |s.mask| == |s.word| &&
    s.mask == MaskFor(s.word, s.guessed) &&
    s.wrong == (set c | c in s.guessed && c !in s.word) &&
    |s.wrong| <= s.errors
  }

  /** The state while the loop keeps asking for guesses. */
  predicate Playing(s: RoundState) {
    s.errors < MaxErrors
  }

  /**
   * The body of the game loop for one accepted guess. A guess longer than one
   * character is a full-word guess; otherwise its first character is a letter.
   */
  function Next(s: RoundState, guess: string): (t: Turn)
    requires |guess| > 0 && |s.mask| == |s.word|
    ensures t.state.word == s.word && |t.state.mask| == |s.mask|
  {
    if |guess| > 1 then
      if guess == s.word then Turn(s, Won, WordCorrect)
      else
        var errors := s.errors + 1;
        Turn(s.(errors := errors), if errors >= MaxErrors then Lost else Continue, WordWrong)
    else
      var g := guess[0];
      if g in s.guessed then Turn(s, Continue, LetterRepeated)
      else
        var guessed := s.guessed + {g};
        var mask := Reveal(s.word, s.mask, g);
        if RevealsAny(s.word, s.mask, g) then
          var t := s.(mask := mask, guessed := guessed);
          Turn(t, if IsWordGuessed(t.word, t.mask) then Won else Continue, LetterFound)
        else
          var t :=
            if g in s.wrong then s.(mask := mask, guessed := guessed)
            else s.(mask := mask, guessed := guessed, wrong := s.wrong + {g}, errors := s.errors + 1);
          var outcome :=
            if t.errors >= MaxErrors then Lost
            else if IsWordGuessed(t.word, t.mask) then Won
            else Continue;
          Turn(t, outcome, if g in s.wrong then LetterRepeatedMiss else LetterAbsent)
  }

  lemma InitialInv(word: string)
    ensures Inv(Initial(word)) && Playing(Initial(word))
  {
    MaskForNothing(word);
  }

  /** Every guess keeps the round invariant. */
  lemma NextKeepsInv(s: RoundState, guess: string)
    requires Inv(s) && |guess| > 0
    ensures Inv(Next(s, guess).state)
  {
    if |guess| == 1 && guess[0] !in s.guessed {
      var g := guess[0];
      var t := Next(s, guess).state;
      RevealMaskFor(s.word, s.guessed, g);
      RevealsAnyIffOccurs(s.word, s.guessed, g);
      if g !in s.word {
        assert t.wrong == s.wrong + {g};
        assert t.wrong == (set c | c in t.guessed && c !in t.word);
      } else {
        assert t.wrong == (set c | c in t.guessed && c !in t.word);
      }
    }
  }

  /**
   * Every position of the mask is the placeholder or the word's letter there;
   * for a word without the placeholder character, a position is uncovered
   * exactly when its letter has been guessed.
   */
  lemma MaskShowsGuessed(s: RoundState)
    requires Inv(s)
    ensures forall i :: 0 <= i < |s.word| ==> s.mask[i] == Placeholder || s.mask[i] == s.word[i]
    ensures Placeholder !in s.word ==>
              forall i :: 0 <= i < |s.word| ==> (s.mask[i] != Placeholder <==> s.word[i] in s.guessed)
  {
    if Placeholder !in s.word {
      forall i | 0 <= i < |s.word|
        ensures s.mask[i] != Placeholder <==> s.word[i] in s.guessed
      {
        assert s.word[i] != Placeholder;
      }
    }
  }

  /**
   * A single letter: a repeat changes nothing; a new letter is recorded and
   * uncovered; it costs nothing when it occurs in the word, and otherwise it
   * becomes a wrong letter and costs exactly one error.
   */
  lemma LetterGuess(s: RoundState, guess: string)
    requires Inv(s) && |guess| == 1
    ensures guess[0] in s.guessed ==> Next(s, guess) == Turn(s, Continue, LetterRepeated)
    ensures guess[0] !in s.guessed ==>
              Next(s, guess).state.guessed == s.guessed + {guess[0]} &&
              Next(s, guess).state.mask == MaskFor(s.word, s.guessed + {guess[0]})
    ensures guess[0] !in s.guessed && guess[0] in s.word ==>
              Next(s, guess).feedback == LetterFound &&
              Next(s, guess).state.wrong == s.wrong &&
              Next(s, guess).state.errors == s.errors
    ensures guess[0] !in s.guessed && guess[0] !in s.word ==>
              Next(s, guess).feedback == LetterAbsent &&
              guess[0] !in s.wrong &&
              Next(s, guess).state.wrong == s.wrong + {guess[0]} &&
              Next(s, guess).state.errors == s.errors + 1
  {
    if guess[0] !in s.guessed {
      RevealMaskFor(s.word, s.guessed, guess[0]);
      RevealsAnyIffOccurs(s.word, s.guessed, guess[0]);
    }
  }

  /** The "already missed this letter" message is never produced. */
  lemma RepeatedMissUnreachable(s: RoundState, guess: string)
    requires Inv(s) && |guess| > 0
    ensures Next(s, guess).feedback != LetterRepeatedMiss
  {
    if |guess| == 1 && guess[0] !in s.guessed {
      assert guess[0] !in s.wrong;
    }
  }

  /**
   * A full-word guess touches neither the mask nor the letter sets; the exact
   * word wins, and anything else costs exactly one error.
   */
  lemma WordGuess(s: RoundState, guess: string)
    requires |s.mask| == |s.word| && |guess| > 1
    ensures Next(s, guess).state.mask == s.mask
    ensures Next(s, guess).state.guessed == s.guessed && Next(s, guess).state.wrong == s.wrong
    ensures guess == s.word ==> Next(s, guess) == Turn(s, Won, WordCorrect)
    ensures guess != s.word ==>
              Next(s, guess).feedback == WordWrong && Next(s, guess).state.errors == s.errors + 1
  {
  }

  /** Wrong full-word guesses are not deduplicated: the same wrong word twice costs two errors. */
  lemma WrongWordTwice(s: RoundState, guess: string)
    requires |s.mask| == |s.word| && |guess| > 1 && guess != s.word
    ensures Next(Next(s, guess).state, guess).state.errors == s.errors + 2
  {
    WordGuess(s, guess);
    WordGuess(Next(s, guess).state, guess);
  }

  /**
   * How a guess ends the round while play continues: the loss is decided first
   * and exactly when the errors reach MaxErrors, so they never exceed it; a win
   * is the exact word, or a new letter after which the mask reads as the word.
   */
  lemma OutcomeRule(s: RoundState, guess: string)
    requires Inv(s) && Playing(s) && |guess| > 0
    ensures s.errors <= Next(s, guess).state.errors <= s.errors + 1
    ensures Next(s, guess).state.errors <= MaxErrors
    ensures Next(s, guess).outcome == Lost <==> Next(s, guess).state.errors >= MaxErrors
    ensures Next(s, guess).outcome == Won <==>
              (|guess| > 1 && guess == s.word) ||
              (|guess| == 1 && guess[0] !in s.guessed && Playing(Next(s, guess).state) &&
               IsWordGuessed(s.word, Next(s, guess).state.mask))
    ensures s.guessed <= Next(s, guess).state.guessed && s.wrong <= Next(s, guess).state.wrong
  {
    RepeatedMissUnreachable(s, guess);
  }

  /** Where a sequence of guesses leads: the final state, how it ended, and how many guesses it used. */
  datatype Played = Played(state: RoundState, outcome: Outcome, consumed: nat)

  predicate AllValid(guesses: seq<string>) {
    forall i :: 0 <= i < |guesses| ==> IsValidGuess(guesses[i])
  }

  /** The game loop fed with accepted guesses: it stops at the first guess that ends the round. */
  function Play(s: RoundState, guesses: seq<string>): (r: Played)
    requires |s.mask| == |s.word| && AllValid(guesses)
    ensures r.consumed <= |guesses|
    ensures r.outcome == Continue ==> r.consumed == |guesses|
    ensures r.outcome != Continue ==> r.consumed > 0
    decreases |guesses|
  {
    if guesses == [] then Played(s, Continue, 0)
    else
      var t := Next(s, guesses[0]);
      if t.outcome != Continue then Played(t.state, t.outcome, 1)
      else
        var r := Play(t.state, guesses[1..]);
        r.(consumed := r.consumed + 1)
  }

  /**
   * Play is the game loop's run up to its first ending guess: every shorter
   * prefix of the consumed guesses leaves the round running, and the consumed
   * guesses alone give the same result.
   */
  lemma {:induction false} PlayStopsAtFirstEnd(s: RoundState, guesses: seq<string>)
    requires |s.mask| == |s.word| && AllValid(guesses)
    ensures forall k :: 0 <= k < Play(s, guesses).consumed ==>
              AllValid(guesses[..k]) && Play(s, guesses[..k]).outcome == Continue
    ensures AllValid(guesses[..Play(s, guesses).consumed]) &&
            Play(s, guesses[..Play(s, guesses).consumed]) == Play(s, guesses)
    decreases |guesses|
  {
    var r := Play(s, guesses);
    assert forall k :: 0 <= k <= |guesses| ==> AllValid(guesses[..k]) by {
      forall k | 0 <= k <= |guesses|
        ensures AllValid(guesses[..k])
      {
        assert forall i :: 0 <= i < k ==> guesses[..k][i] == guesses[i];
      }
    }
    if guesses == [] {
      assert guesses[..0] == guesses;
    } else {
      var t := Next(s, guesses[0]);
      if t.outcome != Continue {
        assert guesses[..1] == [guesses[0]];
        assert Play(s, guesses[..0]) == Played(s, Continue, 0);
      } else {
        var rest := guesses[1..];
        assert AllValid(rest) by {
          assert forall i :: 0 <= i < |rest| ==> rest[i] == guesses[i + 1];
        }
        PlayStopsAtFirstEnd(t.state, rest);
        var r' := Play(t.state, rest);
        forall k | 0 <= k < r.consumed
          ensures Play(s, guesses[..k]).outcome == Continue
        {
          if k > 0 {
            var pre := guesses[..k];
            assert pre[0] == guesses[0] && pre[1..] == rest[..k - 1];
          }
        }
        var pre := guesses[..r.consumed];
        assert pre[0] == guesses[0] && pre[1..] == rest[..r'.consumed];
      }
    }
  }

  /**
   * Over a whole round the invariant holds, the errors never exceed MaxErrors,
   * and the round is lost exactly when they reach it.
   */
  lemma {:induction false} PlayBounds(s: RoundState, guesses: seq<string>)
    requires Inv(s) && Playing(s) && AllValid(guesses)
    ensures Inv(Play(s, guesses).state)
    ensures Play(s, guesses).state.word == s.word
    ensures s.errors <= Play(s, guesses).state.errors <= MaxErrors
    ensures Play(s, guesses).outcome == Lost <==> Play(s, guesses).state.errors >= MaxErrors
    decreases |guesses|
  {
    if guesses != [] {
      var t := Next(s, guesses[0]);
      NextKeepsInv(s, guesses[0]);
      OutcomeRule(s, guesses[0]);
      if t.outcome == Continue {
        PlayBounds(t.state, guesses[1..]);
      }
    }
  }

  /** Every guessed letter is one of the letters a valid guess is made of. */
  predicate GuessedAreLetters(s: RoundState) {
    forall c :: c in s.guessed ==> IsGuessChar(c)
  }

  /**
   * Accepted guesses only ever record letters of [А-ЯЁ], so every position of
   * a reachable mask is the placeholder or such a letter.
   */
  lemma {:induction false} PlayGuessesLetters(s: RoundState, guesses: seq<string>)
    requires |s.mask| == |s.word| && AllValid(guesses) && GuessedAreLetters(s)
    ensures GuessedAreLetters(Play(s, guesses).state)
    decreases |guesses|
  {
    if guesses != [] {
      var t := Next(s, guesses[0]);
      assert IsGuessChar(guesses[0][0]);
      assert t.state.guessed <= s.guessed + {guesses[0][0]};
      if t.outcome == Continue {
        var rest := guesses[1..];
        assert AllValid(rest) by {
          assert forall i :: 0 <= i < |rest| ==> rest[i] == guesses[i + 1];
        }
        PlayGuessesLetters(t.state, rest);
      }
    }
  }

  /** Every position of a mask reachable from the start is the placeholder or a letter of [А-ЯЁ]. */
  lemma ReachableMaskLetters(word: string, guesses: seq<string>)
    requires AllValid(guesses)
    ensures forall i :: 0 <= i < |Play(Initial(word), guesses).state.mask| ==>
              Play(Initial(word), guesses).state.mask[i] == Placeholder ||
              IsGuessChar(Play(Initial(word), guesses).state.mask[i])
  {
    InitialInv(word);
    PlayBounds(Initial(word), guesses);
    PlayGuessesLetters(Initial(word), guesses);
  }

  /** The letters a sequence of letter guesses names. */
  function Letters(guesses: seq<string>): (l: set<char>)
    requires forall i :: 0 <= i < |guesses| ==> |guesses[i]| > 0
    ensures forall i :: 0 <= i < |guesses| ==> guesses[i][0] in l
  {
    set i | 0 <= i < |guesses| :: guesses[i][0]
  }

  /**
   * Guessing letters of the word until every letter of it has been named wins
   * the round without a single further error.
   */
  lemma {:induction false} CorrectLettersWin(s: RoundState, guesses: seq<string>)
    requires Inv(s) && Playing(s) && !IsWordGuessed(s.word, s.mask)
    requires |guesses| > 0 && AllValid(guesses)
    requires forall i :: 0 <= i < |guesses| ==> |guesses[i]| == 1 && guesses[i][0] in s.word
    requires forall i :: 0 <= i < |s.word| ==>
               s.word[i] == Placeholder || s.word[i] in s.guessed || s.word[i] in Letters(guesses)
    ensures Play(s, guesses).outcome == Won
    ensures Play(s, guesses).state.errors == s.errors
    decreases |guesses|
  {
    var g := guesses[0];
    var t := Next(s, g);
    LetterGuess(s, g);
    NextKeepsInv(s, g);
    if t.outcome == Continue {
      assert !IsWordGuessed(t.state.word, t.state.mask);
      assert t.state.guessed == s.guessed + {g[0]};
      var rest := guesses[1..];
      forall i | 0 <= i < |s.word|
        ensures s.word[i] == Placeholder || s.word[i] in t.state.guessed || s.word[i] in Letters(rest)
      {
        if s.word[i] in Letters(guesses) && s.word[i] != g[0] {
          var j :| 0 <= j < |guesses| && guesses[j][0] == s.word[i];
          assert rest[j - 1] == guesses[j];
        }
      }
      if rest == [] {
        WordGuessedIffAllLetters(s.word, t.state.guessed);
        assert false;
      }
      assert forall i :: 0 <= i < |rest| ==> rest[i] == guesses[i + 1];
      CorrectLettersWin(t.state, rest);
    }
  }

  /**
   * While the word is not yet shown, MaxErrors - errors distinct new letters
   * that occur nowhere in the word lose the round on the last of them.
   */
  lemma {:induction false} DistinctMissesLose(s: RoundState, guesses: seq<string>)
    requires Inv(s) && Playing(s) && !IsWordGuessed(s.word, s.mask)
    requires AllValid(guesses) && |guesses| == MaxErrors - s.errors
    requires forall i :: 0 <= i < |guesses| ==>
               |guesses[i]| == 1 && guesses[i][0] !in s.word && guesses[i][0] !in s.guessed
    requires forall i, j :: 0 <= i < j < |guesses| ==> guesses[i] != guesses[j]
    ensures Play(s, guesses).outcome == Lost
    ensures Play(s, guesses).consumed == |guesses|
    ensures Play(s, guesses).state.errors == MaxErrors
    decreases |guesses|
  {
    var g := guesses[0];
    var t := Next(s, g);
    LetterGuess(s, g);
    NextKeepsInv(s, g);
    if |guesses| > 1 {
      var rest := guesses[1..];
      forall i | 0 <= i < |rest|
        ensures rest[i][0] !in t.state.guessed
      {
        assert rest[i] == guesses[i + 1] && guesses[0] != guesses[i + 1];
        assert rest[i] == [rest[i][0]] && g == [g[0]];
      }
      assert forall i, j :: 0 <= i < j < |rest| ==> rest[i] == guesses[i + 1] && rest[j] == guesses[j + 1];
      DistinctMissesLose(t.state, rest);
    }
  }

  /**
   * The round's state as the game loop holds it: the mask array is updated in
   * place, the letter sets and the counter are reassigned.
   */
  class Round {
    const word: string
    const masked: array<char>
    var guessedLetters: set<char>
    var wrongLetters: set<char>
    var wrongAttempts: int

    /** The state as a value. */
    function Abstract(): (s: RoundState)
      reads this, masked
    {
      RoundState(word, masked[..], guessedLetters, wrongLetters, wrongAttempts)
    }

    ghost predicate Valid()
      reads this, masked
    {
      Inv(Abstract())
    }

    /** A round starts from the secret word and the mask that maskWord produced for it. */
    constructor (word: string, masked: array<char>)
      requires masked[..] == MaskWord(word)
      ensures this.word == word && this.masked == masked
      ensures Abstract() == Initial(word) && Valid()
    {
      this.word := word;
      this.masked := masked;
      guessedLetters := {};
      wrongLetters := {};
      wrongAttempts := 0;
      new;
      InitialInv(word);
    }

    /** One pass of the game loop for an accepted guess. */
    method Step(guess: string) returns (outcome: Outcome, feedback: Feedback)
      requires Valid() && |guess| > 0
      modifies this, masked
      ensures Valid()
      ensures Turn(Abstract(), outcome, feedback) == Next(old(Abstract()), guess)
      ensures feedback != LetterRepeatedMiss
    {
      ghost var s := Abstract();
      NextKeepsInv(s, guess);
      RepeatedMissUnreachable(s, guess);
      if |guess| > 1 {
        if guess == word {
          outcome, feedback := Won, WordCorrect;
          return;
        }
        feedback := WordWrong;
        wrongAttempts := wrongAttempts + 1;
        outcome := if wrongAttempts >= MaxErrors then Lost else Continue;
        return;
      }
      var g := guess[0];
      if g in guessedLetters {
        outcome, feedback := Continue, LetterRepeated;
        return;
      }
      guessedLetters := guessedLetters + {g};
      var updated := UpdateMasked(word, masked, g);
      outcome, feedback := Continue, LetterFound;
      if !updated {
        if g in wrongLetters {
          assert false;
        } else {
          feedback := LetterAbsent;
          wrongLetters := wrongLetters + {g};
          wrongAttempts := wrongAttempts + 1;
        }
        if wrongAttempts >= MaxErrors {
          outcome := Lost;
          return;
        }
      }
      if word == masked[..] {
        outcome := Won;
      }
    }
  }
}
