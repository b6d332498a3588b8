/**
 * The game state of the single screen and the two actions that change it:
 * submitting an answer and starting a new game. The screen layout, alerts and
 * animation are not modelled; the spell checker is passed in as `isReal`, and the
 * new root word is passed in instead of being drawn from the bundled word list.
 */
module WordScramble {
  import opened Answer
  import opened WordRules

  class ContentView {
    var usedWords: seq<string>
    var rootWord: string
    var newWord: string

    var currentScore: int
    var oldNumberScore: seq<int>
    var oldRootWords: seq<string>

    /**
     * What holds in every state: the accepted words are distinct and have at least
     * four letters, the score is what they are worth, and the two history lists
     * stay parallel (the results view indexes both by the positions of one).
     */
    ghost predicate Valid()
      reads this
    {
      && NoDuplicates(usedWords)
      && (forall i :: 0 <= i < |usedWords| ==> |usedWords[i]| > 3)
      && currentScore == ScoreOf(usedWords)
      && |oldNumberScore| == |oldRootWords|
      && (forall i :: 0 <= i < |oldNumberScore| ==> oldNumberScore[i] >= 0)
    }

    /** The accepted words belong to the current root: none is the root, and each is spelled from it. */
    ghost predicate RoundConsistent()
      reads this
    {
      && rootWord !in usedWords
      && (forall i :: 0 <= i < |usedWords| ==> Spellable(usedWords[i], rootWord))
    }

    constructor ()
      ensures Valid() && RoundConsistent()
      ensures usedWords == [] && rootWord == "" && newWord == ""
      ensures currentScore == 0 && oldNumberScore == [] && oldRootWords == []
    {
      usedWords := [];
      rootWord := "";
      newWord := "";
      currentScore := 0;
      oldNumberScore := [];
      oldRootWords := [];
    }

    /** Text typed into the answer field. */
    method SetNewWord(text: string)
      modifies this`newWord
      ensures newWord == text
    {
      newWord := text;
    }

    /** The root-word part of `startGame`: loading and choosing the word happen outside. */
    method StartGame(newRoot: string)
      requires Valid()
      modifies this`rootWord
      ensures Valid()
      ensures rootWord == newRoot
    {
      rootWord := newRoot;
    }

    /**
     * The score shown during a round is never negative: each accepted word is
     * worth at least 5 points, and at most one point more than the root is long.
     */
    lemma ScoreInRange()
      requires Valid() && RoundConsistent()
      ensures 5 * |usedWords| <= currentScore <= (1 + |rootWord|) * |usedWords|
      ensures currentScore == 0 <==> usedWords == []
    {
      ScoreBounds(usedWords, rootWord);
    }

    /** The word has not been accepted yet in this round. */
    function IsOriginal(word: string): (original: bool)
      reads this
      ensures original <==> forall i :: 0 <= i < |usedWords| ==> usedWords[i] != word
      ensures original && NoDuplicates(usedWords) ==> NoDuplicates([word] + usedWords)
    {
      NoDuplicatesPrepend(word, usedWords);
      word !in usedWords
    }

    /** The word is not the root word itself. */
    function IsStartNotWord(word: string): (notRoot: bool)
      reads this
      ensures notRoot <==> word != rootWord
      ensures notRoot && rootWord !in usedWords ==> rootWord !in [word] + usedWords
    {
      if word != rootWord then true else false
    }

    /**
     * Spells `word` from a scratch copy of the root, crossing out the first
     * matching letter for each letter of `word`, and gives up at the first letter
     * that is no longer available.
     */
    method IsPossible(word: string) returns (possible: bool)
      ensures possible <==> Spellable(word, rootWord)
    {
      var tempWord := rootWord;
      for i := 0 to |word|
        invariant multiset(word[..i]) + multiset(tempWord) == multiset(rootWord)
      {
        var letter := word[i];
        assert word[..i + 1] == word[..i] + [letter];
        match FirstIndexOf(tempWord, letter)
        case Some(pos) =>
          tempWord := RemoveAt(tempWord, pos);
        case None =>
          // one more `letter` is wanted than the root has, and the rest of `word` only adds more
          assert multiset(word[..i + 1])[letter] > multiset(rootWord)[letter];
          assert word == word[..i + 1] + word[i + 1..];
          assert multiset(word)[letter] >= multiset(word[..i + 1])[letter];
          return false;
      }
      assert word[..|word|] == word;
      return true;
    }

    /**
     * Submits the text in the answer field. The normalised answer goes through
     * the rules in order; the first failure is reported and nothing changes. An
     * accepted answer goes to the front of the used words, earns one point plus
     * one per letter, and the answer field is cleared.
     */
    method AddNewWord(isReal: string -> bool) returns (outcome: Outcome)
      requires Valid()
      modifies this`usedWords, this`currentScore, this`newWord
      ensures Valid()
      ensures outcome == Check(rootWord, old(usedWords), Normalise(old(newWord)), isReal)
      ensures outcome == Accepted ==>
                && usedWords == [Normalise(old(newWord))] + old(usedWords)
                && currentScore == old(currentScore) + 1 + |Normalise(old(newWord))|
                && newWord == ""
      ensures outcome != Accepted ==>
                usedWords == old(usedWords) && currentScore == old(currentScore) && newWord == old(newWord)
      ensures old(RoundConsistent()) ==> RoundConsistent()
    {
      var answer := Normalise(newWord);

      if !(|answer| > 3) {
        return TooShort;
      }
      if !IsOriginal(answer) {
        return AlreadyUsed;
      }
      var possible := IsPossible(answer);
      if !possible {
        return NotPossible;
      }
      if !isReal(answer) {
        return NotReal;
      }
      if !IsStartNotWord(answer) {
        return SameAsRoot;
      }

      usedWords := [answer] + usedWords;
      currentScore := currentScore + 1 + |answer|;
      newWord := "";
      outcome := Accepted;
    }

    /**
     * The "New Game" button: the outgoing score and root go to the front of the
     * history lists, a new root is set, and the round's words and score are reset.
     */
    method NewGame(newRoot: string)
      requires Valid()
      modifies this`oldNumberScore, this`oldRootWords, this`rootWord, this`usedWords, this`currentScore
      ensures Valid() && RoundConsistent()
      ensures oldNumberScore == [old(currentScore)] + old(oldNumberScore)
      ensures oldRootWords == [old(rootWord)] + old(oldRootWords)
      ensures rootWord == newRoot && usedWords == [] && currentScore == 0
      ensures newWord == old(newWord)
    {
      oldNumberScore := [currentScore] + oldNumberScore;
      oldRootWords := [rootWord] + oldRootWords;
      StartGame(newRoot);
      usedWords := [];
      currentScore := 0;
    }
  }
}
