/**
 * The Hangman page as a state machine: the round's fields, the widget state
 * the page writes (message label, word label, gallows image, guess entry) as
 * plain fields, and the page's methods updating them in place.
 */
module HangmanGame {
  import opened HangmanRules

  class HangmanGamePage {
    // Round state.
    var mysteryWord: string
    var displayWord: string
    var incorrectGuesses: int
    var guessedLetters: string

    // Widget state written by the page.
    var message: string       // MessageLabel.Text
    var wordLabel: string     // DisplayWordLabel.Text
    var stageIndex: int       // index into imageStages shown by HangmanImage
    var inputEnabled: bool    // GuessInput.IsEnabled
    var inputText: string     // GuessInput.Text

    /** The round invariants: what the fields mean relative to each other. */
    ghost predicate RoundValid()
      reads this`mysteryWord, this`displayWord, this`incorrectGuesses, this`guessedLetters
    {
      && IsWord(mysteryWord)
      && NoDuplicates(guessedLetters)
      && (forall k :: 0 <= k < |guessedLetters| ==> IsUpperLetter(guessedLetters[k]))
      && displayWord == Reveal(mysteryWord, guessedLetters)
      && incorrectGuesses == CountAbsent(guessedLetters, mysteryWord)
    }

    /** The round is still being played: the word is not complete and the gallows is not full. */
    ghost predicate InProgress()
      reads this`mysteryWord, this`incorrectGuesses, this`guessedLetters
    {
      !AllGuessed(mysteryWord, guessedLetters) && incorrectGuesses < StageCount
    }

    /** The round invariants, and the entry accepts guesses exactly while the round is in progress. */
    ghost predicate Valid()
      reads this`mysteryWord, this`displayWord, this`incorrectGuesses, this`guessedLetters, this`inputEnabled
    {
      RoundValid() && (inputEnabled <==> InProgress())
    }

    /**
     * The state between two user events: additionally the counter never passes
     * the number of stages, and a disabled entry holds no text.
     */
    ghost predicate Idle()
      reads this
    {
      Valid() && incorrectGuesses <= StageCount && (!inputEnabled ==> inputText == [])
    }

    /** The widgets keep what they showed. */
    twostate predicate ScreenUnchanged()
      reads this
    {
      wordLabel == old(wordLabel) && stageIndex == old(stageIndex)
    }

    /** What HandleGuess does with the upper-case letter g. */
    twostate predicate GuessApplied(g: char)
      reads this
    {
      && mysteryWord == old(mysteryWord)
      && if g in old(guessedLetters) then
           && guessedLetters == old(guessedLetters)
           && incorrectGuesses == old(incorrectGuesses)
           && displayWord == old(displayWord)
           && message == AlreadyGuessedMessage
           && inputEnabled == old(inputEnabled)
           && ScreenUnchanged()
         else
           && guessedLetters == old(guessedLetters) + [g]
           && incorrectGuesses == old(incorrectGuesses) + (if g in mysteryWord then 0 else 1)
           && displayWord == RevealStep(old(displayWord), mysteryWord, g)
           && if AllGuessed(mysteryWord, guessedLetters) then
                message == WinMessage(mysteryWord) && !inputEnabled && ScreenUnchanged()
              else if incorrectGuesses >= StageCount then
                message == LossMessage(mysteryWord) && !inputEnabled && ScreenUnchanged()
              else
                && message == GuessedLettersMessage(guessedLetters)
                && wordLabel == Join(displayWord)
                && stageIndex == incorrectGuesses
                && inputEnabled == old(inputEnabled)
    }

    /** The page opens with a new round on the word at index idx of the bank. */
    constructor (idx: nat)
      requires idx < |WordBank|
      ensures Idle() && InProgress()
      ensures mysteryWord == WordBank[idx]
      ensures incorrectGuesses == 0 && guessedLetters == []
      ensures displayWord == seq(|mysteryWord|, _ => Placeholder)
      ensures inputEnabled && inputText == []
      ensures wordLabel == Join(displayWord) && stageIndex == 0
      ensures message == GuessedLettersMessage([])
    {
      inputEnabled := true;
      inputText := [];
      new;
      StartNewGame(idx);
      WordBankWellFormed();
    }

    /** StartNewGame; idx stands for the value drawn from System.Random. */
    method StartNewGame(idx: nat)
      requires idx < |WordBank|
      modifies this
      ensures mysteryWord == WordBank[idx]
      ensures incorrectGuesses == 0 && guessedLetters == []
      ensures displayWord == Reveal(mysteryWord, []) == seq(|mysteryWord|, _ => Placeholder)
      ensures wordLabel == Join(displayWord) && stageIndex == 0
      ensures message == GuessedLettersMessage([])
      ensures inputEnabled == old(inputEnabled) && inputText == old(inputText)
    {
      SelectRandomWord(idx);
      ResetGameVariables();
      UpdateGameUI();
    }

    method SelectRandomWord(idx: nat)
      requires idx < |WordBank|
      modifies this`mysteryWord
      ensures mysteryWord == WordBank[idx] && mysteryWord in WordBank
    {
      mysteryWord := WordBank[idx];
    }

    /** Clears the guess history and hides every letter of the current word. */
    method ResetGameVariables()
      modifies this`incorrectGuesses, this`guessedLetters, this`displayWord
      ensures incorrectGuesses == 0 && guessedLetters == []
      ensures displayWord == Reveal(mysteryWord, []) == seq(|mysteryWord|, _ => Placeholder)
    {
      incorrectGuesses := 0;
      guessedLetters := [];
      displayWord := seq(|mysteryWord|, _ => Placeholder);
      RevealNothingGuessed(mysteryWord);
    }

    /** Redraws the word label, the gallows image and the guessed-letters message. */
    method UpdateGameUI()
      requires 0 <= incorrectGuesses < StageCount
      modifies this`wordLabel, this`stageIndex, this`message
      ensures wordLabel == Join(Reveal(mysteryWord, guessedLetters))
      ensures 0 <= stageIndex < StageCount && stageIndex == incorrectGuesses
      ensures message == GuessedLettersMessage(guessedLetters)
    {
      wordLabel := GetDisplayWord(mysteryWord, guessedLetters);
      stageIndex := incorrectGuesses;
      message := GuessedLettersMessage(guessedLetters);
    }

    /**
     * The Guess button: an invalid input only sets the "valid letter" message;
     * a valid one is applied and the entry is cleared. Once the round has
     * ended, nothing but the message can change any more.
     */
    method OnGuessClicked()
      requires Idle()
      modifies this
      ensures Idle()
      ensures var guess := ToUpper(old(inputText));
        if IsValidGuess(guess) then
          GuessApplied(guess[0]) && inputText == []
        else
          && message == InvalidGuessMessage
          && mysteryWord == old(mysteryWord) && displayWord == old(displayWord)
          && incorrectGuesses == old(incorrectGuesses) && guessedLetters == old(guessedLetters)
          && inputEnabled == old(inputEnabled) && inputText == old(inputText)
          && ScreenUnchanged()
      ensures !old(inputEnabled) ==>
        && mysteryWord == old(mysteryWord) && displayWord == old(displayWord)
        && incorrectGuesses == old(incorrectGuesses) && guessedLetters == old(guessedLetters)
        && inputEnabled == old(inputEnabled) && inputText == old(inputText)
        && ScreenUnchanged()
    {
      var guess := ToUpper(inputText);
      if IsValidGuess(guess) {
        ValidGuessIffOneLetter(inputText);
        HandleGuess(guess[0]);
        inputText := [];
      } else {
        DisplayMessage(InvalidGuessMessage);
      }
    }

    /** Typing into the guess entry, which a disabled entry ignores. */
    method EnterText(text: string)
      requires Idle()
      modifies this`inputText
      ensures Idle()
      ensures inputText == if inputEnabled then text else old(inputText)
    {
      if inputEnabled {
        inputText := text;
      }
    }

    /** Whether the buffer shows the whole word (with any spaces removed). */
    function CheckWin(): (won: bool)
      reads this`mysteryWord, this`displayWord, this`incorrectGuesses, this`guessedLetters
      requires RoundValid()
      ensures won <==> AllGuessed(mysteryWord, guessedLetters)
    {
      WinIffAllGuessed(mysteryWord, guessedLetters);
      RemoveSpaces(displayWord) == mysteryWord
    }

    /**
     * Applies one upper-case letter: a repeated letter only gets the "already
     * guessed" message; a new one is recorded and revealed, a wrong one adds
     * to the counter, and the round is checked for a win before a loss.
     */
    method HandleGuess(guess: char)
      requires Valid() && IsUpperLetter(guess)
      modifies this
      ensures Valid() && GuessApplied(guess)
      ensures inputText == old(inputText)
    {
      if guess in guessedLetters {
        DisplayMessage(AlreadyGuessedMessage);
        return;
      }
      ghost var before := guessedLetters;
      guessedLetters := guessedLetters + [guess];
      var isCorrect := ProcessGuess(guess);
      assert isCorrect <==> guess in mysteryWord by {
        RevealStepAgrees(mysteryWord, before, guess);
      }
      if !isCorrect {
        incorrectGuesses := incorrectGuesses + 1;
      }
      assert RoundValid() by {
        RevealStepAgrees(mysteryWord, before, guess);
        CountAbsentAppend(before, guess, mysteryWord);
        NoDuplicatesAppend(before, guess);
      }
      ConcludeGuess();
    }

    /**
     * The closing step of HandleGuess: a completed word wins, otherwise a full
     * gallows loses, otherwise the screen is redrawn. Both endings disable the
     * entry and name the word.
     */
    method ConcludeGuess()
      requires RoundValid() && (InProgress() ==> inputEnabled)
      modifies this`message, this`inputEnabled, this`wordLabel, this`stageIndex
      ensures Valid()
      ensures if AllGuessed(mysteryWord, guessedLetters) then
                message == WinMessage(mysteryWord) && !inputEnabled && ScreenUnchanged()
              else if incorrectGuesses >= StageCount then
                message == LossMessage(mysteryWord) && !inputEnabled && ScreenUnchanged()
              else
                && message == GuessedLettersMessage(guessedLetters)
                && wordLabel == Join(displayWord)
                && stageIndex == incorrectGuesses
                && inputEnabled == old(inputEnabled)
    {
      if CheckWin() {
        DisplayMessage(WinMessage(mysteryWord));
        EndGame();
      } else if incorrectGuesses >= StageCount {
        DisplayMessage(LossMessage(mysteryWord));
        EndGame();
      } else {
        UpdateGameUI();
      }
    }

    /**
     * Reveals guess at every position of the word holding it that still shows
     * a placeholder, working on a character copy of the buffer; reports
     * whether any position was revealed.
     */
    method ProcessGuess(guess: char) returns (isCorrect: bool)
      requires |mysteryWord| <= |displayWord|
      modifies this`displayWord
      ensures displayWord == RevealStep(old(displayWord), mysteryWord, guess)
      ensures isCorrect == Reveals(old(displayWord), mysteryWord, guess)
    {
      isCorrect := false;
      var shown := displayWord;
      var displayChars := new char[|shown|](i requires 0 <= i < |shown| => shown[i]);
      for i := 0 to |mysteryWord|
        invariant forall k :: 0 <= k < i ==> displayChars[k] == RevealStep(shown, mysteryWord, guess)[k]
        invariant forall k :: i <= k < |shown| ==> displayChars[k] == shown[k]
        invariant isCorrect <==>
          exists k :: 0 <= k < i && mysteryWord[k] == guess && shown[k] == Placeholder
      {
        if mysteryWord[i] == guess && displayChars[i] == Placeholder {
          displayChars[i] := guess;
          isCorrect := true;
        }
      }
      displayWord := displayChars[..];
      assert displayWord == RevealStep(shown, mysteryWord, guess);
    }

    /** Ends the round: the entry stops accepting guesses. */
    method EndGame()
      modifies this`inputEnabled
      ensures !inputEnabled
    {
      inputEnabled := false;
    }

    method DisplayMessage(text: string)
      modifies this`message
      ensures message == text
    {
      message := text;
    }
  }
}
