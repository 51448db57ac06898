/**
 * What the game shows between guesses, as strings: the mask with its
 * characters spaced out, the hangman picture for the error count, and the
 * sorted, comma-separated lists of guessed and wrong letters.
 */
module Render {
  import opened Wrappers
  import opened JavaText
  import opened Guess
  import opened Mask
  import opened RoundEngine

  /** printMasked: new String(masked).replace("", " ").trim(). */
  function RenderMask(mask: seq<char>): string {
    Trim(ReplaceEmpty(mask, ' '))
  }

  /**
   * A mask of n >= 1 visible characters renders as 2n - 1 characters: the mask
   * characters at even positions, single spaces between them.
   */
  lemma RenderMaskLayout(mask: seq<char>)
    requires |mask| >= 1
    requires forall i :: 0 <= i < |mask| ==> !IsTrimmable(mask[i])
    ensures |RenderMask(mask)| == 2 * |mask| - 1
    ensures forall i :: 0 <= i < |mask| ==> RenderMask(mask)[2 * i] == mask[i]
    ensures forall i :: 0 <= i < |mask| - 1 ==> RenderMask(mask)[2 * i + 1] == ' '
  {
    var spaced := ReplaceEmpty(mask, ' ');
    var n := |mask|;
    assert spaced[0] == ' ' && spaced[1] == mask[0];
    assert TrimStart(spaced) == spaced[1..];
    var tail := spaced[1..];
    assert tail[|tail| - 1] == spaced[2 * n] == ' ';
    var core := tail[..|tail| - 1];
    assert core[|core| - 1] == spaced[2 * (n - 1) + 1] == mask[n - 1];
    assert TrimEnd(tail) == core;
    assert RenderMask(mask) == core;
    forall i | 0 <= i < n
      ensures core[2 * i] == mask[i]
    {
      assert core[2 * i] == spaced[2 * i + 1];
    }
    forall i | 0 <= i < n - 1
      ensures core[2 * i + 1] == ' '
    {
      assert core[2 * i + 1] == spaced[2 * (i + 1)];
    }
  }

  /**
   * Every mask a round can reach from its start, for a non-empty word, prints
   * with the layout above: no mask character is padding that trim() would drop.
   */
  lemma ReachableMaskRenders(word: string, guesses: seq<string>)
    requires |word| >= 1 && AllValid(guesses)
    ensures var mask := Play(Initial(word), guesses).state.mask;
            |RenderMask(mask)| == 2 * |mask| - 1 &&
            (forall i :: 0 <= i < |mask| ==> RenderMask(mask)[2 * i] == mask[i]) &&
            (forall i :: 0 <= i < |mask| - 1 ==> RenderMask(mask)[2 * i + 1] == ' ')
  {
    var mask := Play(Initial(word), guesses).state.mask;
    InitialInv(word);
    PlayBounds(Initial(word), guesses);
    ReachableMaskLetters(word, guesses);
    forall i | 0 <= i < |mask|
      ensures !IsTrimmable(mask[i])
    {
      if mask[i] != Placeholder {
        GuessCharIsVisible(mask[i]);
      }
    }
    RenderMaskLayout(mask);
  }

  /** An empty mask renders as the empty string. */
  lemma RenderEmptyMask()
    ensures RenderMask([]) == []
  {
    assert ReplaceEmpty([], ' ') == [' '];
  }

  /** HANGMAN_STAGES: the gallows with 0 to 6 body parts (Java text blocks, indentation stripped). */
  const HangmanStages: seq<string> := [
    "  +---+\n      |\n      |\n      |\n     ===\n",
    "  +---+\n  O   |\n      |\n      |\n     ===\n",
    "  +---+\n  O   |\n  |   |\n      |\n     ===\n",
    "  +---+\n  O   |\n /|   |\n      |\n     ===\n",
    "  +---+\n  O   |\n /|\\  |\n      |\n     ===\n",
    "  +---+\n  O   |\n /|\\  |\n /    |\n     ===\n",
    "  +---+\n  O   |\n /|\\  |\n / \\  |\n     ===\n"
  ]

  /**
   * printHangman: nothing is printed for no errors (or a negative count), the
   * stage of that index for 1..6 errors, and the last stage beyond that.
   */
  function RenderHangman(wrongAttempts: int): (r: Option<string>)
    ensures r.None? <==> wrongAttempts <= 0
    ensures 1 <= wrongAttempts <= 6 ==> r == Some(HangmanStages[wrongAttempts])
    ensures wrongAttempts >= 7 ==> r == Some(HangmanStages[6])
  {
    if 0 < wrongAttempts < |HangmanStages| then Some(HangmanStages[wrongAttempts])
    else if wrongAttempts >= |HangmanStages| then Some(HangmanStages[|HangmanStages| - 1])
    else None
  }

  /** The largest character of a non-empty set. */
  ghost function Greatest(s: set<char>): (m: char)
    requires s != {}
    ensures m in s && forall c :: c in s ==> c <= m
    decreases s
  {
    var x :| x in s;
    if s == {x} then
      assert forall c :: c in s ==> c == x;
      x
    else
      var y := Greatest(s - {x});
      assert forall c :: c in s ==> c == x || c in s - {x};
      if y <= x then x else y
  }

  /** The letters of a set in ascending order, each once: stream().sorted(). */
  ghost function SortedLetters(s: set<char>): (r: seq<char>)
    ensures |r| == |s|
    ensures forall c :: c in r <==> c in s
    ensures forall i, j :: 0 <= i < j < |r| ==> r[i] < r[j]
    decreases s
  {
    if s == {} then []
    else
      var m := Greatest(s);
      var rest := SortedLetters(s - {m});
      SortedStep(s, m, rest);
      rest + [m]
  }

  /** Appending the largest element to the sorted rest keeps it sorted. */
  lemma SortedStep(s: set<char>, m: char, rest: seq<char>)
    requires m in s && forall c :: c in s ==> c <= m
    requires |rest| == |s - {m}|
    requires forall c :: c in rest <==> c in s - {m}
    requires forall i, j :: 0 <= i < j < |rest| ==> rest[i] < rest[j]
    ensures |rest + [m]| == |s|
    ensures forall c :: c in rest + [m] <==> c in s
    ensures forall i, j :: 0 <= i < j < |rest + [m]| ==> (rest + [m])[i] < (rest + [m])[j]
  {
    var r := rest + [m];
    forall i | 0 <= i < |rest| ensures rest[i] < m {
      assert rest[i] in s - {m};
    }
    forall i, j | 0 <= i < j < |r| ensures r[i] < r[j] {
      if j < |rest| { assert r[i] == rest[i] && r[j] == rest[j]; }
      else { assert r[i] == rest[i]; }
    }
  }

  /**
   * Collectors.joining(", ") over one-character strings: every character after
   * the first is preceded by the separator.
   */
  function JoinLetters(cs: seq<char>): (r: string)
    ensures |r| == if cs == [] then 0 else 3 * |cs| - 2
    ensures forall i :: 0 <= i < |cs| ==> r[3 * i] == cs[i]
    ensures forall i :: 0 <= i < |cs| - 1 ==> r[3 * i + 1] == ',' && r[3 * i + 2] == ' '
  {
    if |cs| <= 1 then cs
    else
      var front := JoinLetters(cs[..|cs| - 1]);
      var r := front + [',', ' ', cs[|cs| - 1]];
      assert forall i :: 0 <= i < |cs| - 1 ==> cs[..|cs| - 1][i] == cs[i] && r[3 * i] == front[3 * i];
      assert forall i :: 0 <= i < |cs| - 2 ==>
        r[3 * i + 1] == front[3 * i + 1] && r[3 * i + 2] == front[3 * i + 2];
      r
  }

  /** The body of the "guessed letters" and "wrong letters" lines. */
  ghost function LettersLine(s: set<char>): (r: string)
    ensures |r| == if s == {} then 0 else 3 * |s| - 2
  {
    JoinLetters(SortedLetters(s))
  }

  /** The line lists every letter of the set once, in ascending order, at every third position. */
  lemma LettersLineLayout(s: set<char>)
    ensures forall i, j :: 0 <= i < j < |s| ==> LettersLine(s)[3 * i] < LettersLine(s)[3 * j]
    ensures forall c :: c in s <==> exists i :: 0 <= i < |s| && LettersLine(s)[3 * i] == c
  {
    var r := SortedLetters(s);
    var line := LettersLine(s);
    assert line == JoinLetters(r);
    assert forall i :: 0 <= i < |s| ==> line[3 * i] == r[i];
    forall c | c in s
      ensures exists i :: 0 <= i < |s| && line[3 * i] == c
    {
      var i :| 0 <= i < |r| && r[i] == c;
      assert line[3 * i] == c;
    }
    forall c | exists i :: 0 <= i < |s| && line[3 * i] == c
      ensures c in s
    {
      var i :| 0 <= i < |s| && line[3 * i] == c;
      assert r[i] == c;
    }
  }
}
