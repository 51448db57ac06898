/**
 * The session around the rounds: picking the secret word, playing one round
 * through the Round object, and the replay question that ends the session on
 * a stop word.
 */
module Session {
  import opened Wrappers
  import opened JavaText
  import opened Mask
  import opened RoundEngine

  /**
   * chooseRandomWord: the caller supplies the random index. An empty word list
   * has no word to give (the source fails on the list access).
   */
  function ChooseWord(words: seq<string>, draw: nat): (w: Option<string>)
    requires |words| == 0 || draw < |words|
    ensures w.Some? <==> |words| > 0
    ensures w.Some? ==> w.value == words[draw] && w.value in words
  {
    if |words| == 0 then None else Some(words[draw])
  }

  /** The replay answer, trimmed and lower-cased, ends the session when it is one of these. */
  const StopWords: set<string> := {"нет", "стоп"}

  predicate ShouldStop(answer: string) {
    ToLower(Trim(answer)) in StopWords
  }

  /** A stop word, in any letter case the lower-casing covers, with any padding, ends the session. */
  lemma StopWordPadded(p: string, w: string, q: string)
    requires AllTrimmable(p) && AllTrimmable(q)
    requires ToLower(w) in StopWords
    ensures ShouldStop(p + w + q)
  {
    var lw := ToLower(w);
    assert |lw| == 3 || |lw| == 4;
    assert !IsTrimmable(lw[0]) && !IsTrimmable(lw[|lw| - 1]);
    assert lw[0] == LowerChar(w[0]) && lw[|lw| - 1] == LowerChar(w[|w| - 1]);
    TrimPadded(p, w, q);
  }

  /** Conversely, an answer that stops the session is a stop word with padding around it. */
  lemma StopOnlyPadded(answer: string)
    requires ShouldStop(answer)
    ensures exists p, w, q :: answer == p + w + q && AllTrimmable(p) && AllTrimmable(q) && ToLower(w) in StopWords
  {
    var w := Trim(answer);
    PaddedSplit(answer, w);
    var p, q :| answer == p + w + q && AllTrimmable(p) && AllTrimmable(q);
    assert ToLower(w) in StopWords;
  }

  /** An answer of at most two characters is never a stop word, so another round is played. */
  lemma ShortAnswerContinues(answer: string)
    requires |answer| <= 2
    ensures !ShouldStop(answer)
  {
    var lowered := ToLower(Trim(answer));
    assert |lowered| <= 2;
    assert lowered != "нет" by {
      assert |"нет"| == 3;
    }
    assert lowered != "стоп" by {
      assert |"стоп"| == 4;
    }
  }

  /** None of the first n replay answers is a stop word. */
  predicate NoneStop(answers: seq<string>, n: nat)
    requires n <= |answers|
  {
    forall j :: 0 <= j < n ==> !ShouldStop(answers[j])
  }

  lemma NoneStopStep(answers: seq<string>, k: nat)
    requires k < |answers| && NoneStop(answers, k) && !ShouldStop(answers[k])
    ensures NoneStop(answers, k + 1)
  {
    forall j | 0 <= j < k + 1
      ensures !ShouldStop(answers[j])
    {
      if j < k {
        assert !ShouldStop(answers[j]);
      }
    }
  }

  /** The number of rounds the session plays, or None when the answers run out first. */
  method CountRounds(answers: seq<string>) returns (rounds: Option<nat>)
    ensures rounds.Some? ==> 0 < rounds.value <= |answers| && ShouldStop(answers[rounds.value - 1])
    ensures rounds.Some? ==> NoneStop(answers, rounds.value - 1)
    ensures rounds.None? ==> NoneStop(answers, |answers|)
  {
    var k := 0;
    while k < |answers|
      invariant 0 <= k <= |answers|
      invariant NoneStop(answers, k)
    {
      if ShouldStop(answers[k]) {
        return Some(k + 1);
      }
      NoneStopStep(answers, k);
      k := k + 1;
    }
    return None;
  }

  /**
   * playGame: runs the game loop of one round on the accepted guesses, in
   * order, until the round is won or lost or the guesses run out.
   */
  method PlayGame(word: string, guesses: seq<string>) returns (p: Played)
    requires AllValid(guesses)
    ensures p == Play(Initial(word), guesses)
  {
    var masked := NewMask(word);
    var round := new Round(word, masked);
    var i := 0;
    while i < |guesses|
      invariant 0 <= i <= |guesses|
      invariant round.word == word && round.masked == masked && round.Valid()
      invariant fresh(round) && fresh(masked)
      invariant AllValid(guesses[i..])
      invariant Play(Initial(word), guesses) ==
                var rest := Play(round.Abstract(), guesses[i..]);
                rest.(consumed := rest.consumed + i)
    {
      ghost var before := round.Abstract();
      assert guesses[i..][0] == guesses[i] && guesses[i..][1..] == guesses[i + 1..];
      var outcome, feedback := round.Step(guesses[i]);
      i := i + 1;
      if outcome != Continue {
        return Played(round.Abstract(), outcome, i);
      }
    }
    return Played(round.Abstract(), Continue, i);
  }
}
