/**
 * The value-level rules of a Hangman round: the fixed tables, guess validation,
 * the display computed from the guess history, the rendered (spaced) display
 * string, win detection and the wrong-guess count.
 */
module HangmanRules {

  /** The ten words a round can be played with. */
  const WordBank: seq<string> := [
    "ELEPHANT", "TIGER", "CROCODILE", "GIRAFFE", "HIPPOPOTAMUS",
    "KANGAROO", "RHINOCEROS", "PELICAN", "FLAMINGO", "CHIMPANZEE"
  ]

  /** The number of gallows images; a round is lost once this many wrong guesses are made. */
  const StageCount: nat := 8

  /** The character shown for a letter not yet guessed. */
  const Placeholder: char := '_'

  const InvalidGuessMessage: string := "Please enter a valid letter."
  const AlreadyGuessedMessage: string := "You already guessed that letter."

  predicate IsUpperLetter(c: char) {
    'A' <= c <= 'Z'
  }

  predicate IsAsciiLetter(c: char) {
    'A' <= c <= 'Z' || 'a' <= c <= 'z'
  }

  /** Every word of the bank is non-empty and made of the letters A to Z. */
  predicate IsWord(w: string) {
    |w| > 0 && forall i :: 0 <= i < |w| ==> IsUpperLetter(w[i])
  }

  lemma WordBankWellFormed()
    ensures forall w :: w in WordBank ==> IsWord(w)
  {
  }

  /** ASCII upper-casing of one character, standing in for culture-sensitive ToUpper. */
  function UpperChar(c: char): char {
    if 'a' <= c <= 'z' then (c as int - 32) as char else c
  }

  /** Upper-cases every character of s. */
  function ToUpper(s: string): string {
    seq(|s|, i requires 0 <= i < |s| => UpperChar(s[i]))
  }

  /**
   * Upper-casing keeps the length and every character that is not a lower-case
   * letter, and a position holds an upper-case letter afterwards exactly when
   * it held a letter of either case.
   */
  lemma ToUpperLetters(s: string)
    ensures |ToUpper(s)| == |s|
    ensures forall i :: 0 <= i < |s| ==> (IsUpperLetter(ToUpper(s)[i]) <==> IsAsciiLetter(s[i]))
    ensures forall i :: 0 <= i < |s| && !('a' <= s[i] <= 'z') ==> ToUpper(s)[i] == s[i]
  {
  }

  /** A guess is usable when it is exactly one letter. */
  function IsValidGuess(guess: string): bool {
    |guess| != 0 && |guess| == 1 && IsUpperLetter(guess[0])
  }

  /**
   * The emptiness test is subsumed by the length test: the valid guesses are
   * exactly the one-letter strings, and the empty entry is refused.
   */
  lemma ValidGuessIsOneLetter(guess: string)
    ensures IsValidGuess(guess) <==> exists c :: IsUpperLetter(c) && guess == [c]
    ensures !IsValidGuess([])
  {
    if IsValidGuess(guess) {
      assert guess == [guess[0]];
    }
  }

  /** An upper-cased input is a valid guess exactly when the raw input is one letter of either case. */
  lemma ValidGuessIffOneLetter(input: string)
    ensures IsValidGuess(ToUpper(input)) <==> |input| == 1 && IsAsciiLetter(input[0])
    ensures IsValidGuess(ToUpper(input)) ==> ToUpper(input)[0] == UpperChar(input[0])
  {
    if |input| == 1 {
      var c := input[0];
      if 'a' <= c <= 'z' {
        assert 'A' as int <= c as int - 32 <= 'Z' as int;
      }
    }
  }

  /** Each character of s was new when it was appended. */
  predicate NoDuplicates(s: string) {
    s == [] || (NoDuplicates(s[..|s| - 1]) && s[|s| - 1] !in s[..|s| - 1])
  }

  /** Appending a character that is not yet there keeps the characters distinct. */
  lemma NoDuplicatesAppend(s: string, c: char)
    requires NoDuplicates(s) && c !in s
    ensures NoDuplicates(s + [c])
  {
    assert (s + [c])[..|s|] == s;
  }

  /** NoDuplicates means that no character occurs at two positions. */
  lemma {:induction false} NoDuplicatesDistinct(s: string)
    ensures NoDuplicates(s) <==> forall i, j :: 0 <= i < j < |s| ==> s[i] != s[j]
  {
    if s != [] {
      var p := s[..|s| - 1];
      NoDuplicatesDistinct(p);
      if NoDuplicates(s) {
        forall i, j | 0 <= i < j < |s|
          ensures s[i] != s[j]
        {
          if j == |s| - 1 {
            assert s[i] == p[i];
          } else {
            assert s[i] == p[i] && s[j] == p[j];
          }
        }
      }
      if forall i, j :: 0 <= i < j < |s| ==> s[i] != s[j] {
        forall i, j | 0 <= i < j < |p|
          ensures p[i] != p[j]
        {
          assert p[i] == s[i] && p[j] == s[j];
        }
      }
    }
  }

  /** Every character of the word has been guessed. */
  predicate AllGuessed(word: string, guessed: string) {
    forall i :: 0 <= i < |word| ==> word[i] in guessed
  }

  /** The display recomputed from the guess history: a guessed letter shows, any other is a placeholder. */
  function Reveal(word: string, guessed: string): string {
    seq(|word|, i requires 0 <= i < |word| => if word[i] in guessed then word[i] else Placeholder)
  }

  /** The number of guessed letters that do not occur in the word. */
  function CountAbsent(guessed: string, word: string): nat {
    if guessed == [] then 0
    else CountAbsent(guessed[..|guessed| - 1], word) + (if guessed[|guessed| - 1] in word then 0 else 1)
  }

  /** The characters of s joined by single spaces, as string.Join(" ", chars) renders them. */
  function Join(s: string): string {
    if |s| <= 1 then s else [s[0], ' '] + Join(s[1..])
  }

  /** s with every space removed, as s.Replace(" ", "") computes it. */
  function RemoveSpaces(s: string): string {
    if |s| == 0 then []
    else if s[0] == ' ' then RemoveSpaces(s[1..])
    else [s[0]] + RemoveSpaces(s[1..])
  }

  predicate NoSpaces(s: string) {
    forall i :: 0 <= i < |s| ==> s[i] != ' '
  }

  function WinMessage(word: string): string {
    "Congratulations! You survived! The word was: " + word
  }

  function LossMessage(word: string): string {
    "Game Over. You died. The word was: " + word
  }

  function GuessedLettersMessage(guessed: string): string {
    "Guessed letters: " + guessed
  }

  /** The win and loss messages both end with the mystery word. */
  lemma EndMessagesShowWord(word: string)
    ensures var m := WinMessage(word); |word| < |m| && m[|m| - |word|..] == word
    ensures var m := LossMessage(word); |word| < |m| && m[|m| - |word|..] == word
  {
  }

  /** A fresh round shows one placeholder per letter and nothing else. */
  lemma RevealNothingGuessed(word: string)
    ensures Reveal(word, []) == seq(|word|, _ => Placeholder)
  {
  }

  /**
   * The in-place update of a display buffer for the letter g: every position
   * of the word holding g that still shows a placeholder now shows g.
   */
  function RevealStep(display: string, word: string, g: char): string {
    seq(|display|, i requires 0 <= i < |display| =>
      if i < |word| && word[i] == g && display[i] == Placeholder then g else display[i])
  }

  /** Whether the update for g reveals at least one position. */
  predicate Reveals(display: string, word: string, g: char) {
    exists i :: 0 <= i < |word| && i < |display| && word[i] == g && display[i] == Placeholder
  }

  /**
   * Updating the recomputed display in place for a new letter g gives the
   * display recomputed with g added, and reveals something exactly when g
   * occurs in the word.
   */
  lemma RevealStepAgrees(word: string, guessed: string, g: char)
    requires g !in guessed
    ensures RevealStep(Reveal(word, guessed), word, g) == Reveal(word, guessed + [g])
    ensures Reveals(Reveal(word, guessed), word, g) <==> g in word
  {
    var before, after := Reveal(word, guessed), Reveal(word, guessed + [g]);
    forall i | 0 <= i < |word|
      ensures RevealStep(before, word, g)[i] == after[i]
    {
      assert word[i] in guessed + [g] <==> word[i] in guessed || word[i] == g;
    }
    if g in word {
      var i :| 0 <= i < |word| && word[i] == g;
      assert before[i] == Placeholder;
    }
  }

  /** A new letter changes the recomputed display only at the positions holding it. */
  lemma RevealNewLetterOnlyAtItsPositions(word: string, guessed: string, g: char, i: nat)
    requires i < |word| && word[i] != g
    ensures Reveal(word, guessed + [g])[i] == Reveal(word, guessed)[i]
  {
    assert word[i] in guessed + [g] <==> word[i] in guessed;
  }

  /**
   * For a word with neither placeholders nor spaces, removing spaces from the
   * display gives back the word exactly when every letter has been guessed.
   */
  lemma {:induction false} WinIffAllGuessed(word: string, guessed: string)
    requires IsWord(word)
    ensures RemoveSpaces(Reveal(word, guessed)) == word <==> AllGuessed(word, guessed)
  {
    var r := Reveal(word, guessed);
    assert NoSpaces(r);
    RemoveSpacesNoSpaces(r);
    if AllGuessed(word, guessed) {
      assert r == word;
    } else {
      var i :| 0 <= i < |word| && word[i] !in guessed;
      assert r[i] == Placeholder != word[i];
    }
  }

  lemma {:induction false} RemoveSpacesNoSpaces(s: string)
    requires NoSpaces(s)
    ensures RemoveSpaces(s) == s
  {
    if |s| != 0 {
      RemoveSpacesNoSpaces(s[1..]);
    }
  }

  /** A display of n >= 1 characters renders as 2n - 1 characters: the display at even positions, spaces between. */
  lemma {:induction false} JoinShape(s: string)
    ensures |s| >= 1 ==> |Join(s)| == 2 * |s| - 1
    ensures |s| == 0 ==> Join(s) == []
    ensures forall i :: 0 <= i < |s| ==> |Join(s)| > 2 * i && Join(s)[2 * i] == s[i]
    ensures forall i :: 0 <= i < |s| - 1 ==> Join(s)[2 * i + 1] == ' '
  {
    if |s| > 1 {
      JoinShape(s[1..]);
      var j := Join(s);
      assert j == [s[0], ' '] + Join(s[1..]);
      forall i | 0 <= i < |s|
        ensures |j| > 2 * i && j[2 * i] == s[i]
      {
        if i > 0 {
          assert j[2 * i] == Join(s[1..])[2 * (i - 1)];
        }
      }
      forall i | 0 <= i < |s| - 1
        ensures j[2 * i + 1] == ' '
      {
        if i > 0 {
          assert j[2 * i + 1] == Join(s[1..])[2 * (i - 1) + 1];
        }
      }
    }
  }

  /** Each guess adds one to the count when its letter is absent from the word, and nothing otherwise. */
  lemma CountAbsentAppend(guessed: string, g: char, word: string)
    ensures CountAbsent(guessed + [g], word) == CountAbsent(guessed, word) + (if g in word then 0 else 1)
  {
    assert (guessed + [g])[..|guessed|] == guessed;
  }

  /** The wrong-guess count never exceeds the number of guesses. */
  lemma {:induction false} CountAbsentBound(guessed: string, word: string)
    ensures CountAbsent(guessed, word) <= |guessed|
  {
    if guessed != [] {
      CountAbsentBound(guessed[..|guessed| - 1], word);
    }
  }

  /** A guess that completes the word is a correct guess, so it never adds to the wrong-guess count. */
  lemma CompletingGuessIsCorrect(word: string, guessed: string, g: char)
    requires !AllGuessed(word, guessed) && AllGuessed(word, guessed + [g])
    ensures g in word
    ensures CountAbsent(guessed + [g], word) == CountAbsent(guessed, word)
  {
    var i :| 0 <= i < |word| && word[i] !in guessed;
    assert word[i] in guessed + [g];
    CountAbsentAppend(guessed, g, word);
  }

  /**
   * GetDisplayWord: fill a fresh character array with the guessed letters of
   * the word and placeholders, then join the characters with single spaces.
   */
  method GetDisplayWord(wordToGuess: string, guessedLetters: string) returns (r: string)
    ensures r == Join(Reveal(wordToGuess, guessedLetters))
    ensures |wordToGuess| >= 1 ==> |r| == 2 * |wordToGuess| - 1
    ensures forall i :: 0 <= i < |wordToGuess| ==>
      |r| > 2 * i && r[2 * i] == (if wordToGuess[i] in guessedLetters then wordToGuess[i] else Placeholder)
    ensures forall i :: 0 <= i < |wordToGuess| - 1 ==> r[2 * i + 1] == ' '
  {
    var displayWord := new char[|wordToGuess|];
    for i := 0 to |wordToGuess|
      invariant forall k :: 0 <= k < i ==>
        displayWord[k] == (if wordToGuess[k] in guessedLetters then wordToGuess[k] else Placeholder)
    {
      if wordToGuess[i] in guessedLetters {
        displayWord[i] := wordToGuess[i];
      } else {
        displayWord[i] := Placeholder;
      }
    }
    assert displayWord[..] == Reveal(wordToGuess, guessedLetters);
    r := Join(displayWord[..]);
    JoinShape(displayWord[..]);
  }
}
