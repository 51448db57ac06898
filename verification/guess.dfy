/**
 * What the player may type as a guess: a non-empty line made only of the
 * upper-case Russian letters А..Я and Ё. Malformed lines are refused and read
 * again, as many times as it takes.
 */
module Guess {
  import opened Wrappers
  import opened JavaText

  /** The character class [А-ЯЁ]. */
  predicate IsGuessChar(c: char) {
    ('А' <= c <= 'Я') || c == 'Ё'
  }

  /** The loop condition of the reader, negated: non-empty and matching [А-ЯЁ]+. */
  predicate IsValidGuess(line: string) {
    |line| > 0 && forall i :: 0 <= i < |line| ==> IsGuessChar(line[i])
  }

  /** A guess letter can be neither the mask placeholder nor padding that trim() removes. */
  lemma GuessCharIsVisible(c: char)
    requires IsGuessChar(c)
    ensures c != '*' && !IsTrimmable(c)
  {
  }

  /**
   * The text the reader tests for the k-th line it consumes: the first line is
   * taken as typed, every retry is trimmed first.
   */
  function Candidate(lines: seq<string>, k: nat): string
    requires k < |lines|
  {
    if k == 0 then lines[0] else Trim(lines[k])
  }

  /**
   * A retried line is accepted exactly when it is a valid guess surrounded by
   * padding; the first line is accepted only when it is valid as typed.
   */
  lemma RetryAcceptsPadded(lines: seq<string>, k: nat)
    requires 0 < k < |lines|
    ensures IsValidGuess(Candidate(lines, k)) <==>
            exists p, w, q :: lines[k] == p + w + q && AllTrimmable(p) && AllTrimmable(q) && IsValidGuess(w)
  {
    var s := lines[k];
    if IsValidGuess(Candidate(lines, k)) {
      RetryHasPaddedGuess(s);
    }
    if exists p, w, q :: s == p + w + q && AllTrimmable(p) && AllTrimmable(q) && IsValidGuess(w) {
      var p, w, q :| s == p + w + q && AllTrimmable(p) && AllTrimmable(q) && IsValidGuess(w);
      PaddedGuessTrims(p, w, q);
    }
  }

  /** A line that trims to a valid guess is that guess with padding around it. */
  lemma RetryHasPaddedGuess(s: string)
    requires IsValidGuess(Trim(s))
    ensures exists p, w, q :: s == p + w + q && AllTrimmable(p) && AllTrimmable(q) && IsValidGuess(w)
  {
    var c := Trim(s);
    PaddedSplit(s, c);
    var p, q :| s == p + c + q && AllTrimmable(p) && AllTrimmable(q);
    assert IsValidGuess(c);
  }

  /** Padding around a valid guess is trimmed away, leaving the guess. */
  lemma PaddedGuessTrims(p: string, w: string, q: string)
    requires AllTrimmable(p) && AllTrimmable(q) && IsValidGuess(w)
    ensures Trim(p + w + q) == w
  {
    GuessCharIsVisible(w[0]);
    GuessCharIsVisible(w[|w| - 1]);
    TrimPadded(p, w, q);
  }

  /** The first n lines the reader consumes are all refused. */
  predicate AllRefused(lines: seq<string>, n: nat)
    requires n <= |lines|
  {
    forall k :: 0 <= k < n ==> !IsValidGuess(Candidate(lines, k))
  }

  /** An accepted guess and how many input lines were consumed to obtain it. */
  datatype Reading = Reading(guess: string, consumed: nat)

  /**
   * Reads lines until one is a valid guess. The lines are the input the player
   * will type; running out of them (end of input) gives None.
   */
  method ReadGuess(lines: seq<string>) returns (r: Option<Reading>)
    ensures r.Some? ==> 0 < r.value.consumed <= |lines|
    ensures r.Some? ==> r.value.guess == Candidate(lines, r.value.consumed - 1)
    ensures r.Some? ==> IsValidGuess(r.value.guess)
    ensures r.Some? ==> AllRefused(lines, r.value.consumed - 1)
    ensures r.None? ==> AllRefused(lines, |lines|)
  {
    if |lines| == 0 {
      return None;
    }
    var line := lines[0];
    var k := 0;
    while !IsValidGuess(line)
      invariant 0 <= k < |lines|
      invariant line == Candidate(lines, k)
      invariant AllRefused(lines, k)
      decreases |lines| - k
    {
      if k + 1 == |lines| {
        return None;
      }
      k := k + 1;
      line := Trim(lines[k]);
    }
    return Some(Reading(line, k + 1));
  }
}
