/** Whole rounds and replay answers worked through on concrete inputs. */
module Scenarios {
  import opened Mask
  import opened RoundEngine
  import opened Session
  import opened JavaText
  import opened Guess

  /** The states of the КОТ round after each guess that changes something. */
  const Kot0 := RoundState("КОТ", "***", {}, {}, 0)
  const Kot1 := RoundState("КОТ", "К**", {'К'}, {}, 0)
  const Kot2 := RoundState("КОТ", "К**", {'К', 'З'}, {'З'}, 1)
  const Kot3 := RoundState("КОТ", "КО*", {'К', 'З', 'О'}, {'З'}, 1)
  const Kot5 := RoundState("КОТ", "КОТ", {'К', 'З', 'О', 'Т'}, {'З'}, 1)

  lemma KotFound1()
    ensures Next(Kot0, "К") == Turn(Kot1, Continue, LetterFound)
  {
    assert Kot0.word[0] == 'К' && Kot0.mask[0] == Placeholder;
    assert Reveal(Kot0.word, Kot0.mask, 'К') == Kot1.mask;
  }

  lemma KotAbsent2()
    ensures Next(Kot1, "З") == Turn(Kot2, Continue, LetterAbsent)
  {
    assert Reveal(Kot1.word, Kot1.mask, 'З') == Kot1.mask;
    assert forall i :: 0 <= i < |Kot1.word| ==> Kot1.word[i] != 'З';
    assert Kot1.mask[1] != Kot1.word[1];
  }

  lemma KotFound3()
    ensures Next(Kot2, "О") == Turn(Kot3, Continue, LetterFound)
  {
    assert Kot2.word[1] == 'О' && Kot2.mask[1] == Placeholder;
    assert Reveal(Kot2.word, Kot2.mask, 'О') == Kot3.mask;
  }

  lemma KotFound5()
    ensures Next(Kot3, "Т") == Turn(Kot5, Won, LetterFound)
  {
    assert Kot3.word[2] == 'Т' && Kot3.mask[2] == Placeholder;
    assert Reveal(Kot3.word, Kot3.mask, 'Т') == Kot5.mask;
  }

  /**
   * Secret word КОТ; guesses К (found), З (absent, one error), О (found),
   * З again (already entered, no cost), Т (found): the round is won on the
   * fifth guess with a single error.
   */
  lemma KotRound()
    ensures Play(Initial("КОТ"), ["К", "З", "О", "З", "Т"]) == Played(Kot5, Won, 5)
  {
    assert Initial("КОТ") == Kot0;
    KotFound1();
    KotAbsent2();
    KotFound3();
    KotFound5();
    assert Next(Kot3, "З") == Turn(Kot3, Continue, LetterRepeated);
    var last: seq<string> := ["Т"];
    var g4 := ["З"] + last;
    var g3 := ["О"] + g4;
    var g2 := ["З"] + g3;
    var g1 := ["К"] + g2;
    assert last == ["Т"] + [];
    PlayEnds(Kot3, "Т", []);
    PlayContinues(Kot3, "З", last);
    PlayContinues(Kot2, "О", g4);
    PlayContinues(Kot1, "З", g3);
    PlayContinues(Kot0, "К", g2);
    assert g1 == ["К", "З", "О", "З", "Т"];
  }

  /** One guess that ends the round is the last one the loop takes. */
  lemma PlayEnds(s: RoundState, guess: string, rest: seq<string>)
    requires |s.mask| == |s.word| && IsValidGuess(guess) && AllValid(rest)
    requires Next(s, guess).outcome != Continue
    ensures AllValid([guess] + rest)
    ensures Play(s, [guess] + rest) == Played(Next(s, guess).state, Next(s, guess).outcome, 1)
  {
    assert ([guess] + rest)[0] == guess;
  }

  /** After a guess that keeps the round going, the loop goes on with the remaining guesses. */
  lemma PlayContinues(s: RoundState, guess: string, rest: seq<string>)
    requires |s.mask| == |s.word| && IsValidGuess(guess) && AllValid(rest)
    requires Next(s, guess).outcome == Continue
    ensures AllValid([guess] + rest)
    ensures Play(s, [guess] + rest) ==
            var p := Play(Next(s, guess).state, rest);
            p.(consumed := p.consumed + 1)
  {
    assert ([guess] + rest)[0] == guess && ([guess] + rest)[1..] == rest;
    assert forall i :: 0 <= i < |rest| ==> rest[i] == ([guess] + rest)[i + 1];
  }

  /** Secret word ДОМ; six distinct letters that do not occur in it lose the round on the sixth. */
  lemma DomRound()
    ensures Play(Initial("ДОМ"), ["А", "Б", "В", "Г", "Е", "Ж"]).outcome == Lost
    ensures Play(Initial("ДОМ"), ["А", "Б", "В", "Г", "Е", "Ж"]).consumed == 6
  {
    var s := Initial("ДОМ");
    InitialInv("ДОМ");
    assert s.mask != s.word by {
      assert s.mask[0] == Placeholder;
    }
    DistinctMissesLose(s, ["А", "Б", "В", "Г", "Е", "Ж"]);
  }

  /** Upper-case НЕТ with padding stops the session. */
  lemma PaddedNetStops()
    ensures ShouldStop("  НЕТ\t")
  {
    assert "  НЕТ\t" == "  " + "НЕТ" + "\t";
    assert ToLower("НЕТ") == "нет";
    StopWordPadded("  ", "НЕТ", "\t");
  }

  /** Any other answer, such as да, plays another round. */
  lemma DaContinues()
    ensures !ShouldStop("да")
  {
    ShortAnswerContinues("да");
  }

  /**
   * An empty secret word (a blank line in the word list): the first letter
   * guessed is reported as absent and costs an error, and the same guess then
   * wins the round, since the empty mask reads as the empty word.
   */
  lemma EmptyWordFirstLetter(guess: string)
    requires |guess| == 1
    ensures Next(Initial(""), guess) == Turn(RoundState("", "", {guess[0]}, {guess[0]}, 1), Won, LetterAbsent)
  {
    assert Reveal("", [], guess[0]) == [];
  }
}
