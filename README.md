# WordScramble — a Dafny model of the answer checker and round bookkeeping

WordScramble is a one-screen word game. The player is shown a root word and types
answers that must be spelled from the root's letters. An answer is normalised: it
is lowercased and stripped of surrounding whitespace. It is then checked against
five rules, always in the same order: it must have more than three letters, it
must not have been used already, it must be spellable from the root, the spell
checker must accept it, and it must not be the root itself. The first rule that
fails decides the error message. An accepted answer goes to the front of the used
words and earns one point plus one point per letter. "New Game" stores the outgoing
root and score at the front of two history lists, sets a new root, and clears the
round.

The model has three modules:

- `Answer` (`Answer.dfy`) — normalisation of the typed text: ASCII lowercasing,
  then trimming of the whitespace-and-newline set at both ends.
- `WordRules` (`WordRules.dfy`) — the pure rules:
  - `Spellable`, the letter-availability relation, with an independent
    letter-count characterisation;
  - `ScoreOf`, the worth of a list of accepted words;
  - `Check`, the ordered five-rule decision, returning an `Outcome`
    (`TooShort | AlreadyUsed | NotPossible | NotReal | SameAsRoot | Accepted`).
- `WordScramble` (`ContentView.dfy`) — the class `ContentView`. Its fields are the
  view's state (`usedWords`, `rootWord`, `newWord`, `currentScore`, `oldNumberScore`,
  `oldRootWords`). Its methods are the answer submission (`AddNewWord`), the
  letter-crossing loop (`IsPossible`) and the "New Game" action (`NewGame`).
  - `Valid()` is the invariant every method keeps: used words are distinct and
    have at least four letters, `currentScore == ScoreOf(usedWords)`, and the
    two history lists have the same length and hold no negative score.
  - `RoundConsistent()` ties the used words to the current root: none of them is
    the root, and each is spellable from it. `AddNewWord` keeps it and `NewGame`
    establishes it.

The spell checker is the parameter `isReal: string -> bool` of `AddNewWord`. The new
root word is a parameter of `NewGame` and `StartGame`.

The length rule comes first. So a three-letter answer made of letters the root
lacks (root "cat", answer "dog") is rejected as TooShort, not NotPossible, because
the guard at `WordScramble/ContentView.swift` line 94 runs before the letter check
(`WordRules.Examples`).

## Model

| member | source | states |
|---|---|---|
| `WordScramble.ContentView.AddNewWord` | WordScramble/ContentView.swift:89-131 | The outcome is the ordered check applied to the normalised answer field. On acceptance the answer is prepended to `usedWords`, the score grows by exactly 1 + its length and the field is cleared. On any rejection the words, the score and the field are unchanged. It keeps `Valid()`, so there are no duplicates and the score equals the words' worth. It also keeps `RoundConsistent()`, so the root is never a used word. |
| `WordRules.Check` | WordScramble/ContentView.swift:94-121 | Each outcome happens exactly when every earlier rule passed and its own rule fails. The rules are length > 3, not used, spellable, real and not the root. Accepted happens exactly when all five pass. |
| `WordRules.Examples` | WordScramble/ContentView.swift:94-121 | Worked cases. With root "silkworm": "silk" is accepted, "silkworm" is SameAsRoot, and a used "silk" is AlreadyUsed. With root "cat": the three-letter "dog" is TooShort even though none of its letters are available, and "dogs" is NotPossible. |
| `WordRules.AcceptedShape` | WordScramble/ContentView.swift:94-121 | An accepted answer has between 4 and `|root|` letters. It is new and differs from the root. No letter occurs in it more often than in the root. |
| `WordRules.ResubmitIsAlreadyUsed` | WordScramble/ContentView.swift:99-103 | After an answer is accepted, submitting it again is rejected as AlreadyUsed. |
| `WordScramble.ContentView.IsPossible` | WordScramble/ContentView.swift:156-167 | The loop crosses out the first matching letter of a copy of the root for each letter of the word. It returns true exactly when the word's letter multiset is contained in the root's. |
| `WordRules.SpellableByCounts` | WordScramble/ContentView.swift:156-167 | A word is spellable from the root exactly when, for every letter, its count in the word is at most its count in the root. |
| `WordRules.SpellableNoLonger` | WordScramble/ContentView.swift:156-167 | A word spellable from the root is no longer than the root. |
| `WordRules.CountIsMultiplicity` | WordScramble/ContentView.swift:156-167 | Counting a letter position by position gives its multiplicity in the word's letter multiset. |
| `WordRules.FirstIndexOf` | WordScramble/ContentView.swift:160 | `firstIndex(of:)` returns nothing exactly when the letter is absent. Otherwise it returns an index holding the letter with no earlier occurrence. |
| `WordRules.RemoveAt` | WordScramble/ContentView.swift:161 | `remove(at:)` shortens the word by one and removes exactly one copy of the letter at that index. |
| `WordScramble.ContentView.IsOriginal` | WordScramble/ContentView.swift:152-154 | True exactly when no used word equals the word. When it is true, prepending the word keeps a duplicate-free list duplicate-free. |
| `WordRules.NoDuplicatesPrepend` | WordScramble/ContentView.swift:100-125 | Prepending a word gives a duplicate-free list exactly when the list was duplicate-free and did not hold the word. |
| `WordScramble.ContentView.IsStartNotWord` | WordScramble/ContentView.swift:177-183 | True exactly when the word differs from the root. When it is true, prepending the word cannot put the root into a used-word list that lacked it. |
| `WordRules.ScoreOf` | WordScramble/ContentView.swift:126 | A list of accepted words is worth at least one point per word. The worth is zero exactly when the list is empty. |
| `WordRules.ScoreBounds` | WordScramble/ContentView.swift:94-126 | Take words with more than three letters, each spellable from the root. They are worth between 5 and 1 + `|root|` points each. |
| `WordScramble.ContentView.ScoreInRange` | WordScramble/ContentView.swift:15-126 | In a consistent round the score is between 5 and 1 + `|rootWord|` points per used word, and so is never negative. It is 0 exactly when no word has been used. |
| `WordScramble.ContentView.NewGame` | WordScramble/ContentView.swift:71-78 | The outgoing score is prepended to `oldNumberScore` and the outgoing root to `oldRootWords`, so the two lists stay the same length. The new root is set, `usedWords` is empty and the score is 0. The answer field is untouched. |
| `WordScramble.ContentView.StartGame` | WordScramble/ContentView.swift:143 | The chosen word becomes the root. Nothing else changes. |
| `WordScramble.ContentView.constructor` | WordScramble/ContentView.swift:11-17 | Every list and string starts empty and the score starts at 0. This state satisfies both invariants. |
| `WordScramble.ContentView.SetNewWord` | WordScramble/ContentView.swift:30 | The text field writes the typed text into `newWord`. |
| `Answer.Normalise` | WordScramble/ContentView.swift:91 | The normalised answer is no longer than the typed text. It has no upper-case ASCII letter and neither starts nor ends with a whitespace or newline character. Its content is fixed by `Answer.NormaliseContent`. |
| `Answer.NormaliseContent` | WordScramble/ContentView.swift:91 | The normalised answer is the lowercased form of the typed text with its leading and trailing whitespace runs removed. Inner characters, inner whitespace included, stay in place. It is empty exactly when the typed text is all whitespace. |
| `Answer.TrimmedLowercased` | WordScramble/ContentView.swift:91 | Trimming after lowercasing gives the same text as lowercasing after trimming. |
| `Answer.NormaliseIdempotent` | WordScramble/ContentView.swift:91 | Normalising an already normalised answer changes nothing. |
| `Answer.Trimmed` | WordScramble/ContentView.swift:91 | The trimmed text is the input minus its leading and trailing whitespace runs. It is empty exactly when the input is all whitespace. Otherwise it neither starts nor ends with whitespace. |
| `Answer.TrimmedKeepsTrimmed` | WordScramble/ContentView.swift:91 | Text with no whitespace at either end is left unchanged by trimming. |
| `Answer.Lowercased` | WordScramble/ContentView.swift:91 | Lowercasing keeps the length and maps each character through `ToLower`. |
| `Answer.ToLower` | WordScramble/ContentView.swift:91 | An ASCII capital becomes its lower-case letter. Every other character is kept. |
| `Answer.LeadingCount` | WordScramble/ContentView.swift:91 | Gives the length of the leading run of whitespace. The character after that run is not whitespace. |
| `Answer.TrailingCount` | WordScramble/ContentView.swift:91 | Gives the length of the trailing run of whitespace. The character before that run is not whitespace. |

## Left out

- The SwiftUI layout, list rendering, navigation title and `withAnimation` (lines 26-87 and 124) are presentation only.
- The `showingResults` flag and the alert state set by `wordError` (`errorTitle`, `errorMessage`, `showingError`) are presentation only. The outcome datatype names which message would be shown.
- `isReal` wraps the platform spell checker (`UITextChecker`), which is not part of this model. It is the uninterpreted parameter `isReal`.
- StartGame: the bundle lookup, file read, line split, random choice and `fatalError` of `startGame` are I/O and randomness. The chosen root word is a parameter instead.
- Answer.Lowercased: only ASCII letters are lowercased. Swift's `lowercased()` applies full Unicode case mapping, which can also change the length.
- Characters are Unicode scalar values, not Swift grapheme clusters. So `|answer|` can differ from Swift's `count` for text with combining marks or "\r\n".
- Score overflow: Swift's `currentScore += 1 + answer.count` (line 126) traps when `Int` overflows. The model's score is an unbounded integer, so that trap is not modelled.
- String equality: Swift compares `String` and `Character` values (`contains`, `firstIndex(of:)`, `!=`) by Unicode canonical equivalence. The model compares sequences of scalar values, so two canonically equivalent spellings count as different words here.
- `StartGame` on its own keeps `Valid()` but not `RoundConsistent()`. `onAppear` runs it without clearing the used words, which is harmless only when the list is still empty, as it is at launch.
