/**
 * The rules a normalised answer must pass, independent of where the game keeps
 * its state: the letter-availability relation, the running score, and the
 * ordered five-rule check that decides which message (if any) an answer earns.
 */
module WordRules {

  datatype Option<T> = None | Some(value: T)

  /** What submitting one answer leads to; every value but Accepted is a rejection. */
  datatype Outcome = TooShort | AlreadyUsed | NotPossible | NotReal | SameAsRoot | Accepted

  /** `word` can be spelled from the letters of `root`, each letter used at most as often as it occurs there. */
  predicate Spellable(word: string, root: string)
  {
    multiset(word) <= multiset(root)
  }

  /** How often `c` occurs in `s`, counted letter by letter. */
  function Count(s: string, c: char): (n: nat)
    ensures n <= |s|
    ensures n == 0 <==> c !in s
  {
    if s == [] then 0 else (if s[0] == c then 1 else 0) + Count(s[1..], c)
  }

  lemma {:induction false} CountIsMultiplicity(s: string, c: char)
    ensures Count(s, c) == multiset(s)[c]
  {
    if s != [] {
      assert s == [s[0]] + s[1..];
      CountIsMultiplicity(s[1..], c);
    }
  }

  /** Spellability is the letter-by-letter comparison of occurrence counts. */
  lemma SpellableByCounts(word: string, root: string)
    ensures Spellable(word, root) <==> forall c :: Count(word, c) <= Count(root, c)
  {
    forall c ensures Count(word, c) == multiset(word)[c] && Count(root, c) == multiset(root)[c] {
      CountIsMultiplicity(word, c);
      CountIsMultiplicity(root, c);
    }
    if Spellable(word, root) {
      forall c ensures Count(word, c) <= Count(root, c) {
        assert multiset(word)[c] <= multiset(root)[c];
      }
    } else {
      var c :| multiset(word)[c] > multiset(root)[c];
      assert Count(word, c) > Count(root, c);
    }
  }

  /** A spellable word is never longer than the root it is spelled from. */
  lemma SpellableNoLonger(word: string, root: string)
    requires Spellable(word, root)
    ensures |word| <= |root|
  {
    var rest := multiset(root) - multiset(word);
    assert multiset(root) == multiset(word) + rest;
    assert |multiset(root)| == |multiset(word)| + |rest|;
  }

  /** `String.firstIndex(of:)`: the position of the first occurrence of `c`, if any. */
  function FirstIndexOf(s: string, c: char): (r: Option<nat>)
    ensures r.None? <==> c !in s
    ensures r.Some? ==> r.value < |s| && s[r.value] == c && c !in s[..r.value]
  {
    if s == [] then None
    else if s[0] == c then Some(0)
    else
      match FirstIndexOf(s[1..], c)
      case None => None
      case Some(k) =>
        assert s[..k + 1] == [s[0]] + s[1..][..k];
        Some(k + 1)
  }

  /** `String.remove(at:)`: `s` without the character at `pos`. */
  function RemoveAt(s: string, pos: nat): (r: string)
    requires pos < |s|
    ensures |r| == |s| - 1
    ensures multiset(r) + multiset{s[pos]} == multiset(s)
  {
    assert s == s[..pos] + [s[pos]] + s[pos + 1..];
    s[..pos] + s[pos + 1..]
  }

  predicate NoDuplicates(ws: seq<string>)
  {
    forall i, j :: 0 <= i < j < |ws| ==> ws[i] != ws[j]
  }

  /** A word put in front of a list gives a duplicate-free list exactly when the list was duplicate-free and lacked the word. */
  lemma NoDuplicatesPrepend(w: string, ws: seq<string>)
    ensures NoDuplicates([w] + ws) <==> NoDuplicates(ws) && w !in ws
  {
    var s := [w] + ws;
    if !NoDuplicates(ws) {
      var i, j :| 0 <= i < j < |ws| && ws[i] == ws[j];
      assert s[i + 1] == s[j + 1];
    } else if w in ws {
      var k :| 0 <= k < |ws| && ws[k] == w;
      assert s[0] == s[k + 1];
    } else {
      forall i, j | 0 <= i < j < |s| ensures s[i] != s[j] {
        if i > 0 {
          assert s[i] == ws[i - 1] && s[j] == ws[j - 1];
        } else {
          assert s[j] == ws[j - 1];
        }
      }
    }
  }

  /** The score a round's accepted words are worth: one point plus one per letter, for each word. */
  function ScoreOf(ws: seq<string>): (total: int)
    ensures total >= |ws|
    ensures total == 0 <==> ws == []
  {
    if ws == [] then 0 else 1 + |ws[0]| + ScoreOf(ws[1..])
  }

  /**
   * Every accepted word has at least four letters and fits in the root, so a
   * round's score lies between 5 and 1 + |root| points per word.
   */
  lemma {:induction false} ScoreBounds(ws: seq<string>, root: string)
    requires forall i :: 0 <= i < |ws| ==> |ws[i]| > 3 && Spellable(ws[i], root)
    ensures 5 * |ws| <= ScoreOf(ws) <= (1 + |root|) * |ws|
  {
    if ws != [] {
      SpellableNoLonger(ws[0], root);
      ScoreBounds(ws[1..], root);
    }
  }

  /**
   * The ordered check applied to a normalised `answer`. The rules run in a fixed
   * order and the first one that fails decides the outcome: length, originality,
   * letter availability, the dictionary oracle `isReal`, and difference from the root.
   */
  function Check(root: string, used: seq<string>, answer: string, isReal: string -> bool): (r: Outcome)
    ensures r == TooShort <==> |answer| <= 3
    ensures r == AlreadyUsed <==> |answer| > 3 && answer in used
    ensures r == NotPossible <==> |answer| > 3 && answer !in used && !Spellable(answer, root)
    ensures r == NotReal <==>
              |answer| > 3 && answer !in used && Spellable(answer, root) && !isReal(answer)
    ensures r == SameAsRoot <==>
              |answer| > 3 && answer !in used && Spellable(answer, root) && isReal(answer) && answer == root
    ensures r == Accepted <==>
              |answer| > 3 && answer !in used && Spellable(answer, root) && isReal(answer) && answer != root
  {
    if |answer| <= 3 then TooShort
    else if answer in used then AlreadyUsed
    else if !Spellable(answer, root) then NotPossible
    else if !isReal(answer) then NotReal
    else if answer == root then SameAsRoot
    else Accepted
  }

  /** What an accepted answer looks like: at least four letters, no longer than the root, new, and not the root. */
  lemma AcceptedShape(root: string, used: seq<string>, answer: string, isReal: string -> bool)
    requires Check(root, used, answer, isReal) == Accepted
    ensures 4 <= |answer| <= |root|
    ensures answer !in used && answer != root
    ensures forall c :: Count(answer, c) <= Count(root, c)
  {
    SpellableNoLonger(answer, root);
    SpellableByCounts(answer, root);
  }

  /** Once accepted, the same answer submitted again is reported as already used. */
  lemma ResubmitIsAlreadyUsed(root: string, used: seq<string>, answer: string, isReal: string -> bool)
    requires Check(root, used, answer, isReal) == Accepted
    ensures Check(root, [answer] + used, answer, isReal) == AlreadyUsed
  {
  }

  /** Worked cases: the first failing rule wins, and a sub-anagram of the root is accepted. */
  lemma Examples(isReal: string -> bool)
    requires isReal("silk") && isReal("silkworm")
    ensures Check("silkworm", [], "silk", isReal) == Accepted
    ensures Check("silkworm", [], "silkworm", isReal) == SameAsRoot
    ensures Check("silkworm", ["silk"], "silk", isReal) == AlreadyUsed
    ensures Check("cat", [], "dog", isReal) == TooShort
    ensures Check("cat", [], "dogs", isReal) == NotPossible
  {
  }
}
