# Hangman round engine in Dafny

A model of the console hangman game `org.example.Main`. The player guesses a
secret Russian word. Each guess is either one letter or the whole word. The
mask `*` per letter is uncovered as letters are found. Six errors lose the
round, and a mask that reads as the word wins it.

The model covers the following, module by module:

- `Mask`: the mask as it is set up (`maskWord`) and uncovered in place
  (`updateMasked`, an array method), and the win test `isWordGuessed`.
- `RoundEngine`: the body of the game loop as a value-level transition `Next`.
  - `Play` runs `Next` over a sequence of accepted guesses.
  - `Inv` is the round invariant it keeps.
  - The class `Round` holds the state the loop mutates: the `masked` array,
    the `guessedLetters` and `wrongLetters` sets, and the `wrongAttempts`
    counter. Its `Step` method is proved equal to `Next`.
- `Guess`: the validity rule for a typed guess (`[А-ЯЁ]+`, non-empty) and the
  re-prompting reader `readGuess`, run over a supplied sequence of input lines.
- `Render`: what the game prints, as strings: the spaced-out mask, the
  hangman stage for an error count, and the sorted, comma-joined letter lists.
- `JavaText`: the `String.trim`, `replace("", " ")` and `toLowerCase`
  behaviour these rely on.
- `Session`: choosing the word with a supplied index, the replay stop words
  `нет`/`стоп`, the count of rounds a session plays, and one whole round
  driven through the `Round` object.
- `Scenarios`: worked rounds (КОТ won with one error; ДОМ lost after six
  misses) and replay answers.

The central invariant (`RoundEngine.Inv`) has two parts:

- The mask is exactly the word with every letter not yet guessed replaced by `*`.
- The wrong letters are exactly the guessed letters that do not occur in the word.

From this it follows that the "already missed this letter" branch of the loop
can never run. A letter reaches `wrongLetters` only right after it was added to
`guessedLetters`, and a letter already in `guessedLetters` is turned away
earlier. `Round.Step` keeps that branch and proves it dead with `assert false`.

Two consequences of the code are worth stating plainly:

- A repeated letter is always reported as "already entered"
  (`Main.java:92-95`) and costs nothing, whether or not it was a miss.
- The round is won only when the mask, read as a string, equals the word
  (`Main.java:146`); having no `*` left is not enough on its own.

## Model

| member | source | states |
|---|---|---|
| `JavaText.TrimStart` | src/main/java/org/example/Main.java:140 | the result is a suffix of the input with no leading padding, and everything dropped is padding (code ≤ U+0020) |
| `JavaText.TrimEnd` | src/main/java/org/example/Main.java:140 | the result is a prefix of the input with no trailing padding, and everything dropped is padding |
| `JavaText.Trim` | src/main/java/org/example/Main.java:20 | `trim()` returns the infix of the input between a run of leading and a run of trailing padding, and that infix neither starts nor ends with padding |
| `JavaText.TrimPadded` | src/main/java/org/example/Main.java:150 | trimming padding + word + padding gives back exactly the word when the word does not start or end with padding |
| `JavaText.ReplaceEmpty` | src/main/java/org/example/Main.java:150 | `replace("", sep)` gives 2n+1 characters: sep at every even position, the i-th character at position 2i+1 |
| `JavaText.LowerChar` | src/main/java/org/example/Main.java:20 | padding is unchanged, and A–Z and А–Я move up 32 code points to their lower-case letters |
| `JavaText.ToLower` | src/main/java/org/example/Main.java:20 | same length, each character lower-cased on its own |
| `Guess.GuessCharIsVisible` | src/main/java/org/example/Main.java:138 | a letter of `[А-ЯЁ]` is neither the placeholder `*` nor trimmable padding |
| `Guess.RetryAcceptsPadded` | src/main/java/org/example/Main.java:137-140 | a retried line is accepted iff it is a valid guess with only padding around it |
| `Guess.PaddedGuessTrims` | src/main/java/org/example/Main.java:140 | trimming a valid guess with padding around it gives back exactly the guess |
| `Guess.ReadGuess` | src/main/java/org/example/Main.java:135-143 | the returned guess is the first consumed line that is non-empty and all `[А-ЯЁ]`, every earlier line was refused, and if input ends before a valid line then every line was refused |
| `Mask.MaskWord` | src/main/java/org/example/Main.java:43-45 | the mask has the word's length and is `*` everywhere |
| `Mask.NewMask` | src/main/java/org/example/Main.java:16 | a fresh array holding maskWord's mask |
| `Mask.UpdateMasked` | src/main/java/org/example/Main.java:124-133 | sets `masked[i]` to the guess exactly where `word[i]` is the guess and `masked[i]` was `*`, leaves every other index unchanged, and returns true iff at least one such index existed |
| `Mask.MaskFor` | src/main/java/org/example/Main.java:126-128 | the mask a set of guessed letters determines; each position is the word's letter or `*` |
| `Mask.MaskForNothing` | src/main/java/org/example/Main.java:43-45 | with nothing guessed, the determined mask is maskWord's |
| `Mask.RevealMaskFor` | src/main/java/org/example/Main.java:97-98 | uncovering letter g on the mask of guessed set G gives the mask of G ∪ {g} |
| `Mask.RevealsAnyIffOccurs` | src/main/java/org/example/Main.java:126-132 | a letter not guessed before uncovers something iff it occurs in the word |
| `Mask.RevealNothing` | src/main/java/org/example/Main.java:124-133 | a guess that uncovers nothing leaves the mask unchanged |
| `Mask.WordGuessedIffAllLetters` | src/main/java/org/example/Main.java:145-147 | the mask reads as the word iff every letter of the word other than `*` has been guessed |
| `RoundEngine.Initial` | src/main/java/org/example/Main.java:48-50 | the definition of the start state; its contract gives only the mask's length, and `InitialInv` states what holds of it |
| `RoundEngine.InitialInv` | src/main/java/org/example/Main.java:43-50 | the start state satisfies the round invariant, and play can go on (0 < 6 errors) |
| `RoundEngine.Next` | src/main/java/org/example/Main.java:70-120 | one guess never changes the word or the mask's length; what it does is stated by the lemmas below |
| `RoundEngine.NextKeepsInv` | src/main/java/org/example/Main.java:72-120 | every guess preserves the invariant: the mask is exactly the guessed letters uncovered, `wrongLetters` is exactly the guessed letters absent from the word (so `wrongLetters ⊆ guessedLetters`), and the number of wrong letters is at most `wrongAttempts` |
| `RoundEngine.MaskShowsGuessed` | src/main/java/org/example/Main.java:97-98 | every mask position is `*` or the word's letter; for a word without `*`, position i is uncovered iff `word[i]` was guessed |
| `RoundEngine.LetterGuess` | src/main/java/org/example/Main.java:89-108 | a repeated letter changes nothing (mask, both sets, counter). A new letter is added to the guessed set and uncovered. One that occurs in the word costs nothing and leaves `wrongLetters` alone. One that does not occur is added to `wrongLetters` and costs exactly one error |
| `RoundEngine.RepeatedMissUnreachable` | src/main/java/org/example/Main.java:100-103 | the "already missed this letter" branch never fires |
| `RoundEngine.WordGuess` | src/main/java/org/example/Main.java:73-86 | a full-word guess leaves the mask and both letter sets alone; the exact word wins, and anything else costs exactly one error |
| `RoundEngine.WrongWordTwice` | src/main/java/org/example/Main.java:77-79 | the same wrong word guessed twice costs two errors (no deduplication) |
| `RoundEngine.OutcomeRule` | src/main/java/org/example/Main.java:73-120 | errors grow by at most one and never exceed 6 while play continues. The round is lost iff errors reach 6, decided before the win check. It is won iff the guess is the exact word, or a new letter after which the mask reads as the word with fewer than 6 errors. The letter sets only grow |
| `RoundEngine.Play` | src/main/java/org/example/Main.java:57-121 | at most every guess is consumed; a round still running has consumed all of them, and an ended round at least one |
| `RoundEngine.PlayStopsAtFirstEnd` | src/main/java/org/example/Main.java:57-121 | every prefix shorter than the consumed guesses leaves the round running, and the consumed guesses alone give the same result: the loop stops at the first guess that ends the round |
| `RoundEngine.PlayBounds` | src/main/java/org/example/Main.java:57-121 | over a whole round the invariant holds, errors stay within 0..6, and the round is lost exactly when they reach 6 |
| `RoundEngine.PlayGuessesLetters` | src/main/java/org/example/Main.java:92-97 | accepted guesses only ever record letters of `[А-ЯЁ]` in the guessed set |
| `RoundEngine.ReachableMaskLetters` | src/main/java/org/example/Main.java:43-50 | every position of a mask reachable from the start is `*` or a letter of `[А-ЯЁ]` |
| `RoundEngine.CorrectLettersWin` | src/main/java/org/example/Main.java:89-120 | letters from the word that together cover all of its letters win the round with no further error |
| `RoundEngine.DistinctMissesLose` | src/main/java/org/example/Main.java:97-114 | while the mask does not yet read as the word, 6 − errors distinct new letters absent from the word lose the round on the last of them, with errors exactly 6 |
| `RoundEngine.Round.constructor` | src/main/java/org/example/Main.java:47-50 | the object starts in the initial state with the given mask array, and the invariant holds |
| `RoundEngine.Round.Step` | src/main/java/org/example/Main.java:70-120 | the in-place update of the array, sets and counter is exactly `Next`, it keeps the invariant, and it never reports an already-missed letter |
| `Render.RenderMaskLayout` | src/main/java/org/example/Main.java:149-151 | a mask of n ≥ 1 visible characters renders to 2n−1 characters, mask characters at even positions and single spaces at odd ones |
| `Render.ReachableMaskRenders` | src/main/java/org/example/Main.java:149-151 | every mask reachable from the start of a round on a non-empty word prints as 2n−1 characters with the mask at even positions and spaces between |
| `Render.RenderEmptyMask` | src/main/java/org/example/Main.java:150 | an empty mask renders as the empty string |
| `Render.RenderHangman` | src/main/java/org/example/Main.java:153-159 | nothing for a count ≤ 0, `HANGMAN_STAGES[k]` for 1 ≤ k ≤ 6, the last stage for k ≥ 7 |
| `Render.Greatest` | src/main/java/org/example/Main.java:63 | the largest letter of a non-empty set is in the set and bounds it |
| `Render.SortedLetters` | src/main/java/org/example/Main.java:62-63 | a set's letters in strictly ascending order, each exactly once |
| `Render.JoinLetters` | src/main/java/org/example/Main.java:64 | n letters joined give 3n−2 characters, the i-th letter at position 3i, and `", "` between consecutive letters |
| `Render.LettersLine` | src/main/java/org/example/Main.java:62-67 | for a set of n letters the line has length 3n−2 (empty when n = 0) |
| `Render.LettersLineLayout` | src/main/java/org/example/Main.java:62-67 | the line lists each letter of the set exactly once, ascending, at every third position |
| `Session.ChooseWord` | src/main/java/org/example/Main.java:38-41 | a word exists iff the list is non-empty, and it is the entry at the drawn index |
| `Session.StopWordPadded` | src/main/java/org/example/Main.java:20-21 | any padding around a word that lower-cases to `нет` or `стоп` ends the session |
| `Session.StopOnlyPadded` | src/main/java/org/example/Main.java:20-21 | an answer stops the session only if it is padding around a word that lower-cases to `нет` or `стоп` |
| `Session.ShortAnswerContinues` | src/main/java/org/example/Main.java:20-21 | an answer of at most two characters never stops the session |
| `Session.CountRounds` | src/main/java/org/example/Main.java:14-25 | the session plays rounds up to and including the first stop answer; if answers run out first, none of them was a stop word |
| `Session.PlayGame` | src/main/java/org/example/Main.java:47-121 | driving a `Round` object through the accepted guesses gives exactly `Play` from the initial state |
| `Scenarios.KotRound` | src/main/java/org/example/Main.java:70-120 | КОТ with К, З, О, З, Т is won on the fifth guess with one error; the repeated З costs nothing |
| `Scenarios.DomRound` | src/main/java/org/example/Main.java:97-114 | ДОМ with six distinct absent letters is lost on the sixth |
| `Scenarios.PaddedNetStops` | src/main/java/org/example/Main.java:20-21 | `"  НЕТ\t"` stops the session |
| `Scenarios.DaContinues` | src/main/java/org/example/Main.java:20-21 | `"да"` plays another round |
| `Scenarios.EmptyWordFirstLetter` | src/main/java/org/example/Main.java:97-120 | for an empty secret word, the first letter is reported absent and costs an error, yet the round is won on that same guess |

## Left out

- `loadWords` (reading the word file, one upper-cased word per line) is file I/O. The word list is a given sequence of strings.
- `chooseRandomWord`'s `Math.random()` is floating point and randomness. The caller supplies the index. An empty list gives `None` where the source fails on the list access.
- All console output is left out: the prompts, the messages, the debug print of the secret word, and the `Ошибки k/6` line. The per-guess messages of `Main.java` lines 75-104 are the `Feedback` of `Next` and `Step`. `LetterFound` marks a found letter, after which nothing is printed. The win and loss messages correspond to the `Outcome`. The re-prompt and farewell messages are not modelled. The pictures and letter lists are returned strings.
- `Scanner.nextLine()` and end of input are left out. Guesses and answers are supplied sequences. Running out of them gives `None` or a round still `Continue`, where the source throws.
- `toUpperCase` on guesses is not modelled: guesses are taken as already upper case. Java's regular-expression engine is replaced by the character predicate `Guess.IsGuessChar`.
- `JavaText.LowerChar`: covers only Latin A–Z, Cyrillic А–Я and Ё; every other character's case mapping (other Cyrillic letters, other scripts) and locale rules are not modelled.
- `Mask.UpdateMasked`: requires the mask to be exactly as long as the word, as every caller in the source provides; a longer array, which the source would also accept, is not modelled.
- Strings are sequences of Unicode scalar values, where Java's `String.length()`, `charAt` and `char[]` count UTF-16 code units. For a word with a letter outside the Basic Multilingual Plane, Java's mask (`maskWord`, `updateMasked`, the `*` count) would have one position per surrogate half; the model has one per letter. Likewise `Render.SortedLetters` orders by code point, which agrees with Java's `Character` ordering only outside the surrogate range. Surrogate pairs are not modelled.
- The outer replay loop is modelled only through the stop-word test and the count of rounds (`Session.CountRounds`), not with the rounds it plays in between.
