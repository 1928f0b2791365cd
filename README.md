# Hangman round state machine

This project models the game logic of the Hangman page `HangmanGamePage`
(a .NET MAUI content page) in Dafny and proves properties of it.

A round draws a mystery word from a fixed bank of ten upper-case animal
names. It keeps four mutable fields:

- `mysteryWord`, the word being guessed;
- `displayWord`, a buffer of revealed letters and `_` placeholders;
- `incorrectGuesses`, a counter of wrong guesses;
- `guessedLetters`, the string of letters guessed so far.

A fixed table of eight gallows images bounds the counter.

The player types into an entry and presses Guess. The input is
upper-cased and accepted only if it is a single letter. A repeated letter
only produces a message. A new letter is recorded and revealed in the
buffer; if it does not occur in the word, the counter goes up. After each
new letter the page checks for a win first, then for a loss
(`incorrectGuesses >= 8`), and otherwise redraws the word label, the
gallows image and the guessed-letters message. A win or a loss disables
the entry. The Guess handler then clears the entry's text, so no later
click can reach the game state again.

Two modules:

- `HangmanRules` (`rules.dfy`) holds the parts that are just values:
  - the word bank and the stage count;
  - guess validation;
  - `Reveal`: the display recomputed from the guess history;
  - `RevealStep`: the in-place update of the buffer for one letter;
  - `Join`: the spaced rendering, like `string.Join(" ", chars)`;
  - `RemoveSpaces`: like `Replace(" ", "")`;
  - `CountAbsent`: the wrong-guess count;
  - the messages;
  - `GetDisplayWord`, which fills an array in a loop;
  - the lemmas connecting these definitions.
- `HangmanGame` (`game_page.dfy`) holds the class `HangmanGamePage`:
  - the four round fields;
  - the widget state the page writes, kept as plain fields: `message`,
    `wordLabel`, `stageIndex`, `inputEnabled`, `inputText`;
  - the page's methods, with `modifies` frames.

The class invariant `Valid()` says:

- the word is a non-empty word over `A`–`Z`;
- `guessedLetters` holds only upper-case letters and no letter twice;
- the buffer `displayWord` equals `Reveal(mysteryWord, guessedLetters)`;
- `incorrectGuesses` equals the number of guessed letters absent from the
  word;
- the entry is enabled exactly while the round is in progress: not every
  letter is guessed, and fewer than 8 guesses were wrong.

`Idle()`, the state between two user events, adds two facts:

- the counter is at most 8;
- a disabled entry holds no text.

`GuessApplied(g)` is a two-state predicate that states all of
`HandleGuess`'s effect. `HandleGuess` and `OnGuessClicked` both use it.

Points of the page's behaviour that the model keeps as they are:

- `HandleGuess` has no terminal-state guard. After a win or a loss only the
  disabled, cleared entry stops further guesses. `OnGuessClicked`'s
  contract proves that once the entry is disabled, no game field changes.
- The display is a buffer updated in place by `ProcessGuess`, not a view
  recomputed each time. The invariant proves that the buffer always equals
  the recomputation.
- The round is lost when the counter reaches the length of the image table
  (8). The image index is not clamped. Instead, the redraw runs only while
  the counter is below 8, and `UpdateGameUI`'s precondition checks exactly
  that.
- At round start every letter is hidden: each position shows a placeholder.
- On a win or a loss the page does not redraw, so the word label and the
  gallows image keep what they showed before the final guess. Only the
  message names the word. `GuessApplied` states this (`ScreenUnchanged`).
- `ConcludeGuess` is a method of its own here. In the source it is the last
  lines of `HandleGuess` (95–108). Its statements are unchanged; splitting
  it out keeps each proof small.

## Model

| member | source | states |
|---|---|---|
| `HangmanRules.WordBankWellFormed` | HangmanAssignment/HangmanGamePage.xaml.cs:16-19 | every word of the bank is non-empty and made of the letters A-Z, so none holds a placeholder or a space |
| `HangmanGame.HangmanGamePage.constructor` | HangmanAssignment/HangmanGamePage.xaml.cs:21-25 | a new page starts a round on the bank word at the given index: the invariant holds, the round is in progress, the entry is enabled and empty |
| `HangmanGame.HangmanGamePage.StartNewGame` | HangmanAssignment/HangmanGamePage.xaml.cs:27-32 | after a new round starts, the word is the chosen bank word, the counter is 0, no letter is guessed, every position is a placeholder and the screen shows stage 0 |
| `HangmanGame.HangmanGamePage.SelectRandomWord` | HangmanAssignment/HangmanGamePage.xaml.cs:34-38 | the mystery word is the bank entry at the drawn index, so it is an element of the bank |
| `HangmanGame.HangmanGamePage.ResetGameVariables` | HangmanAssignment/HangmanGamePage.xaml.cs:40-45 | the counter is 0, no letter is guessed, and the buffer is one placeholder per letter, which is the display recomputed from no guesses |
| `HangmanRules.RevealNothingGuessed` | HangmanAssignment/HangmanGamePage.xaml.cs:44 | the display recomputed from an empty guess history is exactly one placeholder per letter |
| `HangmanGame.HangmanGamePage.UpdateGameUI` | HangmanAssignment/HangmanGamePage.xaml.cs:47-57 | it may run only when the counter is a valid index into the 8 images, and it shows the spaced recomputed display, that stage and the guessed letters |
| `HangmanGame.HangmanGamePage.OnGuessClicked` | HangmanAssignment/HangmanGamePage.xaml.cs:59-72 | an invalid input changes nothing but the message, which becomes "Please enter a valid letter."; a valid one is applied as HandleGuess does and the entry is cleared; on a disabled entry no game field changes; the idle invariant is kept, including counter <= 8 |
| `HangmanRules.ToUpperLetters` | HangmanAssignment/HangmanGamePage.xaml.cs:62 | upper-casing the entry's text keeps its length, keeps every character that is not a lower-case letter, and leaves an upper-case letter exactly where the text had a letter |
| `HangmanRules.ValidGuessIsOneLetter` | HangmanAssignment/HangmanGamePage.xaml.cs:74-77 | `IsValidGuess` holds exactly for the strings made of one letter; the emptiness test adds nothing to the length test, and the empty entry is refused |
| `HangmanRules.ValidGuessIffOneLetter` | HangmanAssignment/HangmanGamePage.xaml.cs:62-77 | the upper-cased input is a valid guess exactly when the raw input is one character and that character is a letter of either case; the guess is then its upper-case form |
| `HangmanGame.HangmanGamePage.HandleGuess` | HangmanAssignment/HangmanGamePage.xaml.cs:79-109 | a repeated letter leaves the guesses, the counter, the buffer and the entry unchanged and sets only the "already guessed" message; a new letter is appended, the counter rises by 1 exactly when the letter is absent, only the positions holding the letter are revealed, and the invariant is kept |
| `HangmanRules.NoDuplicatesAppend` | HangmanAssignment/HangmanGamePage.xaml.cs:81-87 | appending a letter that the duplicate check let through keeps the guessed letters free of repeats |
| `HangmanRules.NoDuplicatesDistinct` | HangmanAssignment/HangmanGamePage.xaml.cs:81-87 | the append-only definition of "no repeats" holds exactly when no character occurs at two positions |
| `HangmanRules.CountAbsentAppend` | HangmanAssignment/HangmanGamePage.xaml.cs:88-93 | each new guess adds exactly 1 to the wrong-guess count when its letter is absent from the word, and 0 otherwise |
| `HangmanRules.CountAbsentBound` | HangmanAssignment/HangmanGamePage.xaml.cs:88-93 | a side fact, not needed by the page's proofs: the wrong-guess count never exceeds the number of guesses |
| `HangmanRules.CompletingGuessIsCorrect` | HangmanAssignment/HangmanGamePage.xaml.cs:88-100 | a guess that completes the word occurs in it, so the winning guess never adds to the counter |
| `HangmanGame.HangmanGamePage.ConcludeGuess` | HangmanAssignment/HangmanGamePage.xaml.cs:95-108 | the win is checked before the loss: a completed word shows the win message and disables the entry, otherwise a counter of at least 8 shows the loss message and disables the entry, otherwise the screen is redrawn and the entry stays as it was |
| `HangmanRules.EndMessagesShowWord` | HangmanAssignment/HangmanGamePage.xaml.cs:97-102 | both the win and the loss message end with the mystery word |
| `HangmanGame.HangmanGamePage.ProcessGuess` | HangmanAssignment/HangmanGamePage.xaml.cs:111-127 | the buffer becomes the old buffer with the guess written at every position of the word that holds it and still shows a placeholder, and the result says whether any such position existed |
| `HangmanRules.RevealStepAgrees` | HangmanAssignment/HangmanGamePage.xaml.cs:113-123 | for a new letter, updating the recomputed display in place gives the display recomputed with the letter added, and the update reveals something exactly when the letter occurs in the word |
| `HangmanRules.RevealNewLetterOnlyAtItsPositions` | HangmanAssignment/HangmanGamePage.xaml.cs:118-120 | a new letter leaves every position of the display that does not hold it unchanged |
| `HangmanRules.GetDisplayWord` | HangmanAssignment/HangmanGamePage.xaml.cs:129-147 | the result is the recomputed display joined by spaces: for n >= 1 letters it has 2n-1 characters, position 2i shows letter i if guessed and a placeholder otherwise, and the odd positions are spaces |
| `HangmanRules.JoinShape` | HangmanAssignment/HangmanGamePage.xaml.cs:145-146 | the spaced rendering of n >= 1 characters has 2n-1 characters, the characters at even positions and single spaces between them; an empty display renders as the empty string |
| `HangmanGame.HangmanGamePage.CheckWin` | HangmanAssignment/HangmanGamePage.xaml.cs:149-152 | under the round invariant, the buffer with its spaces removed equals the word exactly when every letter of the word has been guessed |
| `HangmanRules.WinIffAllGuessed` | HangmanAssignment/HangmanGamePage.xaml.cs:151 | for a bank word, removing spaces from the recomputed display gives the word back exactly when all its letters are guessed, in both directions |
| `HangmanRules.RemoveSpacesNoSpaces` | HangmanAssignment/HangmanGamePage.xaml.cs:151 | removing spaces from a string that has none leaves it unchanged |
| `HangmanGame.HangmanGamePage.EndGame` | HangmanAssignment/HangmanGamePage.xaml.cs:154-158 | after the round ends the entry is disabled |
| `HangmanGame.HangmanGamePage.EnterText` | HangmanAssignment/HangmanGamePage.xaml.cs:157 | typing reaches the entry only while it is enabled, so a disabled entry stays empty and the idle invariant is kept |
| `HangmanGame.HangmanGamePage.DisplayMessage` | HangmanAssignment/HangmanGamePage.xaml.cs:160-164 | the message label shows exactly the given text |

## Left out

- The MAUI layer (`InitializeComponent`, `FindByName`, and setting `.Text`,
  `.Source` and `.IsEnabled` on widgets) is modelled as writes to plain
  fields. The image table is reduced to its length, 8; the file names do
  not matter to the logic.
- `System.Random` becomes the index parameter of the constructor,
  `StartNewGame` and `SelectRandomWord`, with the precondition
  `idx < |WordBank|` that `Random.Next(wordBank.Length)` guarantees.
- `ValidGuessIffOneLetter`: does not model culture-sensitive `ToUpper` or
  Unicode `char.IsLetter`, because both are library behaviour outside this
  model. Upper-casing is ASCII (`a`–`z` to `A`–`Z`) and a letter is `A`–`Z`
  after upper-casing. Non-ASCII letters such as `É` are therefore rejected
  here, while the C# page would accept them.
- The entry's text cannot be null in this model: an entry holding null is
  modelled as the empty string. `IsValidGuess` rejects both alike.
- `EnterText` has no counterpart in the page's code. It models the Entry
  widget, which accepts typing only while it is enabled.
- `HandleGuess` requires an upper-case letter, which is what its only
  caller passes under the narrowing above. It is not specified for other
  characters.
