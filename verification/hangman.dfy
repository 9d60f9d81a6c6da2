/**
  The `HangmanGame` class of the hangman example program: a word to guess,
  the letters guessed so far (a list the game appends to) and the number of
  wrong guesses still allowed (counted down).  Python's `isalpha` and `lower`
  are taken on ASCII letters only.
 */
module Hangman {

  /** `make_guess` returns a message or Python's `None`. */
  datatype Option<T> = None | Some(value: T)

  const InitialAttempts: int := 6
  const Words: seq<string> := ["python", "hangman", "programming", "game", "challenge"]

  const NotASingleLetter: string := "Please enter a single letter."
  const AlreadyGuessed: string := "You've already guessed that letter."
  const GameOverPrefix: string := "Game over! You've run out of attempts. The word was: "
  const IncorrectGuess: string := "Incorrect guess!"
  const WonPrefix: string := "Congratulations! You've won. The word was: "

  /** The placeholder shown for a letter not guessed yet. */
  const Blank: char := '_'

  /** `c.isalpha()`, restricted to ASCII. */
  predicate IsLetter(c: char) {
    'a' <= c <= 'z' || 'A' <= c <= 'Z'
  }

  predicate IsLower(c: char) {
    'a' <= c <= 'z'
  }

  /** `c.lower()`, restricted to ASCII. */
  function ToLower(c: char): (l: char)
    ensures IsLetter(c) ==> IsLower(l)
    ensures IsLower(c) || !IsLetter(c) ==> l == c
    ensures 'A' <= c <= 'Z' ==> l as int - 'a' as int == c as int - 'A' as int
  {
    if 'A' <= c <= 'Z' then (c as int - 'A' as int + 'a' as int) as char else c
  }

  /**
    The letters are exactly the characters whose lower-case form is a
    lower-case letter, and two letters lower-case alike exactly when they are
    the same letter in either case.
   */
  lemma LettersFoldCase(c: char, d: char)
    ensures IsLetter(c) <==> IsLower(ToLower(c))
    ensures IsLetter(c) && IsLetter(d) ==>
              (ToLower(c) == ToLower(d) <==> c == d || c as int - d as int == 'a' as int - 'A' as int
                                                   || d as int - c as int == 'a' as int - 'A' as int)
  {
  }

  /**
    The word as `display_word` shows it: every letter that has been guessed
    is shown, every other position is a blank.
   */
  function Masked(word: string, guessed: seq<char>): (display: string)
    ensures |display| == |word|
    ensures forall i :: 0 <= i < |word| ==>
              display[i] == if word[i] in guessed then word[i] else Blank
  {
    if word == [] then []
    else
      var last := word[|word| - 1];
      Masked(word[..|word| - 1], guessed) + [if last in guessed then last else Blank]
  }

  /** The number of guessed letters that do not occur in the word. */
  function MissCount(word: string, guessed: seq<char>): (n: nat)
    ensures n <= |guessed|
    ensures n == 0 <==> forall i :: 0 <= i < |guessed| ==> guessed[i] in word
  {
    if guessed == [] then 0
    else
      MissCount(word, guessed[..|guessed| - 1])
      + (if guessed[|guessed| - 1] in word then 0 else 1)
  }

  /** No two entries of the list are equal. */
  predicate Distinct(guessed: seq<char>) {
    forall i, j :: 0 <= i < j < |guessed| ==> guessed[i] != guessed[j]
  }

  /**
    The display has no blank left exactly when the word itself has no blank
    and every one of its letters has been guessed.
   */
  lemma {:induction false} SolvedIffAllGuessed(word: string, guessed: seq<char>)
    ensures Blank !in Masked(word, guessed)
        <==> Blank !in word && forall i :: 0 <= i < |word| ==> word[i] in guessed
  {
    var display := Masked(word, guessed);
    if Blank !in display {
      forall i | 0 <= i < |word|
        ensures word[i] != Blank && word[i] in guessed
      {
        assert display[i] != Blank;
      }
    }
    if Blank !in word && forall i :: 0 <= i < |word| ==> word[i] in guessed {
      forall i | 0 <= i < |display|
        ensures display[i] != Blank
      {
        assert word[i] != Blank;
      }
    }
  }

  /** Guessing more letters never hides a letter that was shown. */
  lemma {:induction false} MaskedRevealsMore(word: string, guessed: seq<char>, c: char, i: int)
    requires 0 <= i < |word| && Masked(word, guessed)[i] != Blank
    ensures Masked(word, guessed + [c])[i] == Masked(word, guessed)[i]
  {
    assert word[i] in guessed;
    assert word[i] in guessed + [c];
  }

  class HangmanGame {
    var words: seq<string>
    var wordToGuess: string
    var guessedLetters: seq<char>
    var attempts: int

    /** The guesses recorded by `MakeGuess` are distinct lower-case letters. */
    ghost predicate Valid()
      reads this
    {
      Distinct(guessedLetters)
      && forall i :: 0 <= i < |guessedLetters| ==> IsLower(guessedLetters[i])
    }

    /** Every recorded guess that misses the word has cost one of the six attempts. */
    ghost predicate AttemptsAccounted()
      reads this
    {
      attempts == InitialAttempts - MissCount(wordToGuess, guessedLetters)
    }

    /** A new game: the five words, no word chosen yet, no guesses, six attempts. */
    constructor ()
      ensures words == Words && wordToGuess == "" && guessedLetters == []
      ensures attempts == InitialAttempts
      ensures Valid() && AttemptsAccounted()
    {
      words := Words;
      wordToGuess := "";
      guessedLetters := [];
      attempts := InitialAttempts;
    }

    /**
      `choose_word`: some word of the list becomes the word to guess.  Which one
      is left open (the source draws it at random); on an empty list the source
      raises, and here `ok` is false and nothing changes.
     */
    method ChooseWord() returns (ok: bool)
      modifies this
      ensures ok <==> words != []
      ensures ok ==> wordToGuess in words
      ensures !ok ==> wordToGuess == old(wordToGuess)
      ensures words == old(words) && guessedLetters == old(guessedLetters)
      ensures attempts == old(attempts)
      ensures old(Valid()) ==> Valid()
      ensures guessedLetters == [] && old(AttemptsAccounted()) ==> AttemptsAccounted()
    {
      ok := words != [];
      if ok {
        var i :| 0 <= i < |words|;
        wordToGuess := words[i];
      }
    }

    /**
      `display_word`: the word with each guessed letter shown and a blank at
      every other position.  The game is left as it is.
     */
    method DisplayWord() returns (display: string)
      ensures |display| == |wordToGuess|
      ensures forall i :: 0 <= i < |wordToGuess| ==>
                display[i] == if wordToGuess[i] in guessedLetters then wordToGuess[i] else Blank
      ensures display == Masked(wordToGuess, guessedLetters)
    {
      display := "";
      for k := 0 to |wordToGuess|
        invariant |display| == k
        invariant forall i :: 0 <= i < k ==>
                    display[i] == if wordToGuess[i] in guessedLetters then wordToGuess[i] else Blank
      {
        var letter := wordToGuess[k];
        if letter in guessedLetters {
          display := display + [letter];
        } else {
          display := display + [Blank];
        }
      }
    }

    /**
      `make_guess`: anything but one letter is refused; a letter is taken in
      lower case; a letter guessed before is refused; otherwise it is recorded,
      and a miss costs an attempt (the game is lost when none is left), while a
      hit leaves the attempts alone (the game is won when nothing is hidden).
      The word and the list of words never change.
     */
    method MakeGuess(guess: string) returns (msg: Option<string>)
      modifies this
      ensures words == old(words) && wordToGuess == old(wordToGuess)
      ensures |guess| != 1 || !IsLetter(guess[0]) ==>
                msg == Some(NotASingleLetter)
                && guessedLetters == old(guessedLetters) && attempts == old(attempts)
      ensures |guess| == 1 && IsLetter(guess[0]) && ToLower(guess[0]) in old(guessedLetters) ==>
                msg == Some(AlreadyGuessed)
                && guessedLetters == old(guessedLetters) && attempts == old(attempts)
      ensures |guess| == 1 && IsLetter(guess[0]) && ToLower(guess[0]) !in old(guessedLetters) ==>
                guessedLetters == old(guessedLetters) + [ToLower(guess[0])]
      ensures |guess| == 1 && IsLetter(guess[0]) && ToLower(guess[0]) !in old(guessedLetters)
              && ToLower(guess[0]) !in wordToGuess ==>
                attempts == old(attempts) - 1
                && msg == if attempts == 0 then Some(GameOverPrefix + wordToGuess)
                          else Some(IncorrectGuess)
      ensures |guess| == 1 && IsLetter(guess[0]) && ToLower(guess[0]) !in old(guessedLetters)
              && ToLower(guess[0]) in wordToGuess ==>
                attempts == old(attempts)
                && msg == if Blank in Masked(wordToGuess, guessedLetters) then None
                          else Some(WonPrefix + wordToGuess)
      ensures old(Valid()) ==> Valid()
      ensures old(AttemptsAccounted()) ==> AttemptsAccounted()
    {
      if |guess| != 1 || !IsLetter(guess[0]) {
        return Some(NotASingleLetter);
      }
      var letter := ToLower(guess[0]);
      if letter in guessedLetters {
        return Some(AlreadyGuessed);
      }
      guessedLetters := guessedLetters + [letter];
      assert guessedLetters[..|guessedLetters| - 1] == old(guessedLetters);
      if letter !in wordToGuess {
        attempts := attempts - 1;
        if attempts == 0 {
          return Some(GameOverPrefix + wordToGuess);
        } else {
          return Some(IncorrectGuess);
        }
      }
      var display := DisplayWord();
      if Blank !in display {
        return Some(WonPrefix + wordToGuess);
      }
      return None;
    }
  }

  /** The display of the tests' half-guessed "programming". */
  lemma DisplaySample()
    ensures Masked("programming", ['p', 'r', 'o', 'g']) == "progr_____g"
  {
  }

  // The scenarios of the hangman tests, as clients of the class.

  method ScenarioChooseWord() returns (word: string)
    ensures word in Words
  {
    var game := new HangmanGame();
    var ok := game.ChooseWord();
    assert ok;
    word := game.wordToGuess;
  }

  method ScenarioCorrectGuess() returns (msg: Option<string>, attempts: int)
    ensures msg == None && attempts == InitialAttempts
  {
    var game := new HangmanGame();
    game.wordToGuess := "hangman";
    msg := game.MakeGuess("a");
    assert game.guessedLetters == ['a'];
    assert Masked("hangman", ['a'])[0] == Blank;
    attempts := game.attempts;
  }

  method ScenarioIncorrectGuess() returns (msg: Option<string>, attempts: int)
    ensures msg == Some(IncorrectGuess) && attempts == InitialAttempts - 1
  {
    var game := new HangmanGame();
    game.wordToGuess := "python";
    msg := game.MakeGuess("z");
    attempts := game.attempts;
  }

  method ScenarioAlreadyGuessed() returns (msg: Option<string>, again: Option<string>)
    ensures msg == Some(AlreadyGuessed) && again == Some(AlreadyGuessed)
  {
    var game := new HangmanGame();
    game.wordToGuess := "challenge";
    game.guessedLetters := ['c', 'h', 'a'];
    msg := game.MakeGuess("a");
    // the guess is lower-cased before the check, so the capital letter repeats it too
    again := game.MakeGuess("A");
  }

  method ScenarioGameOver() returns (msg: Option<string>, attempts: int)
    ensures msg == Some(GameOverPrefix + "hangman") && attempts == 0
  {
    var game := new HangmanGame();
    game.wordToGuess := "hangman";
    game.attempts := 1;
    msg := game.MakeGuess("z");
    attempts := game.attempts;
  }

  method ScenarioWin() returns (msg: Option<string>)
    ensures msg == Some(WonPrefix + "python")
  {
    var game := new HangmanGame();
    game.wordToGuess := "python";
    game.guessedLetters := ['p', 'y', 't', 'h', 'o'];
    msg := game.MakeGuess("n");
    assert game.guessedLetters == ['p', 'y', 't', 'h', 'o', 'n'];
    SolvedIffAllGuessed("python", game.guessedLetters);
  }
}
