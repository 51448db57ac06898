/**
 * The mask of the secret word: one character per letter of the word, either
 * the placeholder '*' or the letter itself once it has been guessed.
 */
module Mask {

  const Placeholder: char := '*'

  /** maskWord: a fresh mask with every position hidden. */
  function MaskWord(word: string): (m: seq<char>)
    ensures |m| == |word|
    ensures forall i :: 0 <= i < |m| ==> m[i] == Placeholder
  {
    seq(|word|, _ => Placeholder)
  }

  /** The array form of maskWord, as the round receives it. */
  method NewMask(word: string) returns (masked: array<char>)
    ensures fresh(masked)
    ensures masked[..] == MaskWord(word)
  {
    masked := new char[|word|](_ => Placeholder);
  }

  /** Whether `guess` would uncover at least one still-hidden position. */
  predicate RevealsAny(word: string, mask: seq<char>, guess: char)
    requires |mask| == |word|
  {
    exists i :: 0 <= i < |word| && word[i] == guess && mask[i] == Placeholder
  }

  /** The mask after a letter guess: each hidden position holding `guess` is uncovered. */
  function Reveal(word: string, mask: seq<char>, guess: char): (r: seq<char>)
    requires |mask| == |word|
    ensures |r| == |mask|
  {
    seq(|mask|, i requires 0 <= i < |mask| =>
      if word[i] == guess && mask[i] == Placeholder then guess else mask[i])
  }

  /**
   * updateMasked: walks the word and uncovers, in place, every hidden position
   * that holds the guessed letter; reports whether anything was uncovered.
   */
  method UpdateMasked(word: string, masked: array<char>, guess: char) returns (found: bool)
    requires masked.Length == |word|
    modifies masked
    ensures forall i :: 0 <= i < |word| && word[i] == guess && old(masked[i]) == Placeholder ==>
              masked[i] == guess
    ensures forall i :: 0 <= i < |word| && !(word[i] == guess && old(masked[i]) == Placeholder) ==>
              masked[i] == old(masked[i])
    ensures masked[..] == Reveal(word, old(masked[..]), guess)
    ensures found <==> RevealsAny(word, old(masked[..]), guess)
  {
    found := false;
    for i := 0 to |word|
      invariant forall j :: 0 <= j < i ==>
        masked[j] == (if word[j] == guess && old(masked[j]) == Placeholder then guess else old(masked[j]))
      invariant forall j :: i <= j < |word| ==> masked[j] == old(masked[j])
      invariant found <==> exists j :: 0 <= j < i && word[j] == guess && old(masked[j]) == Placeholder
    {
      if word[i] == guess && masked[i] == Placeholder {
        masked[i] := guess;
        found := true;
      }
    }
  }

  /** isWordGuessed: the mask, read as a string, is literally the word. */
  predicate IsWordGuessed(word: string, mask: seq<char>) {
    word == mask
  }

  /**
   * The mask that a set of guessed letters determines: position i shows the
   * word's letter exactly when that letter has been guessed.
   */
  function MaskFor(word: string, guessed: set<char>): (m: seq<char>)
    ensures |m| == |word|
    ensures forall i :: 0 <= i < |word| ==> m[i] == word[i] || m[i] == Placeholder
  {
    seq(|word|, i requires 0 <= i < |word| => if word[i] in guessed then word[i] else Placeholder)
  }

  /** No letter guessed yet: the determined mask is maskWord's. */
  lemma MaskForNothing(word: string)
    ensures MaskFor(word, {}) == MaskWord(word)
  {
  }

  /** Uncovering a new letter on the determined mask gives the mask determined by one more guessed letter. */
  lemma RevealMaskFor(word: string, guessed: set<char>, guess: char)
    ensures Reveal(word, MaskFor(word, guessed), guess) == MaskFor(word, guessed + {guess})
  {
    var m := MaskFor(word, guessed);
    var r := Reveal(word, m, guess);
    var n := MaskFor(word, guessed + {guess});
    forall i | 0 <= i < |word|
      ensures r[i] == n[i]
    {
      if word[i] == guess {
        assert m[i] == word[i] || m[i] == Placeholder;
      }
    }
  }

  /**
   * A letter not guessed before uncovers something on the determined mask
   * exactly when it occurs in the word.
   */
  lemma RevealsAnyIffOccurs(word: string, guessed: set<char>, guess: char)
    requires guess !in guessed
    ensures RevealsAny(word, MaskFor(word, guessed), guess) <==> guess in word
  {
    var m := MaskFor(word, guessed);
    if guess in word {
      var i :| 0 <= i < |word| && word[i] == guess;
      assert m[i] == Placeholder;
    }
  }

  /** A guess that uncovers nothing leaves the mask as it was. */
  lemma RevealNothing(word: string, mask: seq<char>, guess: char)
    requires |mask| == |word|
    requires !RevealsAny(word, mask, guess)
    ensures Reveal(word, mask, guess) == mask
  {
    var r := Reveal(word, mask, guess);
    forall i | 0 <= i < |word|
      ensures r[i] == mask[i]
    {
      assert !(word[i] == guess && mask[i] == Placeholder);
    }
  }

  /**
   * The word counts as guessed exactly when every one of its letters other
   * than the placeholder character has been guessed.
   */
  lemma WordGuessedIffAllLetters(word: string, guessed: set<char>)
    ensures IsWordGuessed(word, MaskFor(word, guessed)) <==>
            forall i :: 0 <= i < |word| ==> word[i] == Placeholder || word[i] in guessed
  {
    var m := MaskFor(word, guessed);
    if forall i :: 0 <= i < |word| ==> word[i] == Placeholder || word[i] in guessed {
      forall i | 0 <= i < |word|
        ensures m[i] == word[i]
      {
      }
    } else {
      var i :| 0 <= i < |word| && word[i] != Placeholder && word[i] !in guessed;
      assert m[i] != word[i];
    }
  }
}
