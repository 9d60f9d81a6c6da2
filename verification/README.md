# recython: the code-block extractor and the hangman game, in Dafny

recython is a developer tool. It sends source files to a language model and
writes the model's answer back to disk. The answer is cut out of a fenced
code block first. This project models two pieces of its logic and proves
properties of them.

- `tidy.dfy`, module `Tidy`: `extract_code_block`. It is a pure function over
  strings: the text, a start marker (default ```` ```cython ````) and an end
  marker (default ```` ``` ````). The result is the stripped text between the
  FIRST start marker and the LAST end marker. When the start marker is
  missing, ```` ```python ```` is tried instead. Every malformed input comes
  back unchanged. Python's `in`, `str.find`, `str.rfind` and `str.strip` are
  modelled as functions. Each has a declarative contract: first occurrence,
  last occurrence, and "whitespace removed from both ends" (`IsStripOf`).
- `hangman.dfy`, module `Hangman`: the `HangmanGame` class of the hangman
  example program. It is a class with mutable fields `words`, `wordToGuess`,
  `guessedLetters` and `attempts`. `DisplayWord` is a loop proved against the
  function `Masked`. `MakeGuess` records the guess at the end of the list and counts
  attempts down. Its contract gives every branch and the message it returns.
  It also says what stays unchanged. Two class invariants are preserved:
  - `Valid`: the recorded guesses are distinct lower-case letters.
  - `AttemptsAccounted`: the attempts left are six minus the number of
    recorded guesses that miss the word.

The comments at `recython/tidy.py:15` and `:23` say the function returns
None. The code returns the text unchanged, and the model follows the code.
The default end marker ```` ``` ```` is a prefix of the default start marker.
So when a text has only an opening fence, the last ```` ``` ```` is the one
inside that fence, and the text passes through (`ExtractLoneOpeningFence`).

## Model

| member | source | states |
|---|---|---|
| `Tidy.Find` | recython/tidy.py:9 | `str.find`: -1 exactly when the marker does not occur; otherwise the index of its first occurrence |
| `Tidy.RFind` | recython/tidy.py:21 | `str.rfind`: -1 exactly when the marker does not occur; otherwise the index of its last occurrence |
| `Tidy.Strip` | recython/tidy.py:26 | `str.strip`: the result is a contiguous piece of the input, only whitespace lies outside it, and neither of its ends is whitespace |
| `Tidy.IsSpaceOnAscii` | recython/tidy.py:26 | the whitespace `strip` removes is, on ASCII, exactly space, tab, line feed, carriage return, vertical tab, form feed and U+001C to U+001F |
| `Tidy.StripIsUnique` | recython/tidy.py:26 | at most one string is a whitespace-stripping of a given string, so `Strip` is the only possible result |
| `Tidy.StripIdempotent` | recython/tidy.py:26 | stripping an already stripped string changes nothing |
| `Tidy.Extract` | recython/tidy.py:4-28 | `extract_code_block`: the result is the text itself, or a piece no longer than the text with no whitespace at either end |
| `Tidy.CodeSpan` | recython/tidy.py:5-23 | the searches of `extract_code_block`: when they find code, it is a non-empty span that lies inside the text |
| `Tidy.ExtractIsPiece` | recython/tidy.py:4-28 | `Extract` never fails; the result is a contiguous substring of the text and no longer than it; a result other than the text has no whitespace at either end |
| `Tidy.ExtractWithoutFence` | recython/tidy.py:5-6 | with no ```` ``` ```` anywhere in the text, the result is the text |
| `Tidy.ExtractWithoutStartMarker` | recython/tidy.py:9-15 | with neither the start marker nor ```` ```python ```` in the text, the result is the text |
| `Tidy.ExtractWithoutEndMarker` | recython/tidy.py:21-23 | with no end marker in the text, the result is the text |
| `Tidy.CodeSpanBetween` | recython/tidy.py:9-23 | once a fence is present, the marker used is the start marker if it occurs and ```` ```python ```` only otherwise. The code starts right after that marker's first occurrence `p` and ends at the end marker's last occurrence `q`; there is no code unless `q` lies strictly after the code's start |
| `Tidy.ExtractSpan` | recython/tidy.py:9-28 | with `p` and `q` as above, the result is the stripped slice between them when `q` lies strictly after the code's start, and the text otherwise |
| `Tidy.ExtractLoneOpeningFence` | recython/tidy.py:21-23 | with a start marker that begins with ```` ``` ```` and a single ```` ``` ```` in the text, the end search finds the opening fence itself and the text passes through |
| `Tidy.ExtractFencedBlock` | recython/tidy.py:9-28 | a reply made of prose, one ```` ```cython ```` block and a tail, with no backtick outside the block, yields the block's body stripped; an empty body is no block and the reply passes through |
| `Tidy.ExtractSampleBlock` | tests/test_tidy.py:6-13 | the indented sample with prose and a ```` ```cython ```` block yields `def hello_world():\n        print("Hello, World!")`, internal indentation kept |
| `Hangman.ToLower` | examples/src_hangman/hangman/__main__.py:30 | an upper-case letter becomes the lower-case letter at the same place in the alphabet; lower-case letters and non-letters are kept |
| `Hangman.LettersFoldCase` | examples/src_hangman/hangman/__main__.py:27-33 | `isalpha` holds exactly for the characters whose lower-case form is a lower-case letter, and two letters lower-case alike exactly when they are the same letter in either case, so a repeated guess is caught whatever its case |
| `Hangman.Masked` | examples/src_hangman/hangman/__main__.py:15-23 | the display has the word's length; position i shows the word's i-th letter when that letter was guessed and `_` otherwise |
| `Hangman.SolvedIffAllGuessed` | examples/src_hangman/hangman/__main__.py:45-46 | the display has no `_` exactly when the word has no `_` and every one of its letters was guessed |
| `Hangman.MaskedRevealsMore` | examples/src_hangman/hangman/__main__.py:15-23 | recording one more guess never hides a letter that was shown |
| `Hangman.MissCount` | examples/src_hangman/hangman/__main__.py:37-38 | the number of recorded guesses missing the word is at most the number of guesses, and 0 exactly when every guess is in the word |
| `Hangman.DisplaySample` | examples/src_hangman/hangman/tests.py:16-19 | "programming" with p, r, o, g guessed displays as `progr_____g` |
| `Hangman.HangmanGame.constructor` | examples/src_hangman/hangman/__main__.py:5-9 | a new game has the five words, an empty word, no guesses and 6 attempts, and satisfies both invariants |
| `Hangman.HangmanGame.ChooseWord` | examples/src_hangman/hangman/__main__.py:11-13 | the word becomes some member of `words`; nothing else changes; both invariants are kept while no guess is recorded |
| `Hangman.HangmanGame.DisplayWord` | examples/src_hangman/hangman/__main__.py:15-23 | changes nothing and returns `Masked(wordToGuess, guessedLetters)`, position by position |
| `Hangman.HangmanGame.MakeGuess` | examples/src_hangman/hangman/__main__.py:25-46 | anything but one letter: "Please enter a single letter.", no change. A letter is lower-cased; if already guessed: "You've already guessed that letter.", no change. Otherwise it is appended. A miss takes exactly one attempt and returns "Game over! ..." plus the word when none is left, "Incorrect guess!" otherwise. A hit keeps the attempts and returns "Congratulations! ..." plus the word when the display has no `_`, None otherwise. The word and `words` never change; `Valid` and `AttemptsAccounted` are preserved |
| `Hangman.ScenarioChooseWord` | examples/src_hangman/hangman/tests.py:11-13 | after `choose_word` on a new game the word is one of the five words |
| `Hangman.ScenarioCorrectGuess` | examples/src_hangman/hangman/tests.py:22-25 | guessing "a" in "hangman" returns no message and costs no attempt |
| `Hangman.ScenarioIncorrectGuess` | examples/src_hangman/hangman/tests.py:28-31 | guessing "z" in "python" returns "Incorrect guess!" and costs one attempt |
| `Hangman.ScenarioAlreadyGuessed` | examples/src_hangman/hangman/tests.py:34-38 | with c, h, a guessed, "a" and then "A" both return "You've already guessed that letter." |
| `Hangman.ScenarioGameOver` | examples/src_hangman/hangman/tests.py:41-45 | a miss with one attempt left returns the game-over message with the word and leaves 0 attempts |
| `Hangman.ScenarioWin` | examples/src_hangman/hangman/tests.py:48-52 | guessing the last missing letter of "python" returns the winning message with the word |

## Left out

- `run` in `recython/tidy.py` only prints a demonstration; its sample is the one of `ExtractSampleBlock`.
- `hangman_ui` is a console loop of `input` and `print`, so it is I/O. The scenario methods at the end of `hangman.dfy` replay the cases of the hangman tests as clients of the class.
- `random.choice` is not modelled as randomness. `ChooseWord` picks an arbitrary member of `words`.
- `Hangman.HangmanGame.ChooseWord`: on an empty `words` list Python raises `IndexError`. The model returns `ok == false` and changes nothing. No code in the program empties the list.
- `Hangman.IsLetter` / `Hangman.ToLower`: Python's Unicode-aware `isalpha` and `lower` are approximated by ASCII letters. Non-ASCII letters are treated as non-letters, so the model never meets a letter such as U+0130 whose lower case is two characters.
- `Hangman.HangmanGame.MakeGuess`: the list is a sequence value that the field is rebound to, not a list object appended to in place, so aliasing of `guessed_letters` (another reference seeing the append, as the tests' direct assignment could set up) is not modelled; nothing in the program relies on it. `guessed_letters` holds one-character strings in Python and is modelled as a sequence of characters. `guess not in word_to_guess` is a substring test on a one-character string, which is character membership.
- `Tidy.Strip`: whitespace is the fixed set of characters for which Python's `str.isspace` holds (U+0009 to U+000D, U+001C to U+001F, space, U+0085, U+00A0, U+1680, U+2000 to U+200A, U+2028, U+2029, U+202F, U+205F, U+3000).
- The rest of the repository is not part of this model: the language-model calls, the scraping helpers, directory walking and file renaming, the orchestration scripts, the benchmark and the build scripts. All of it is I/O, network calls or calls into external libraries.
