/**
 * Normalisation of the text typed into the answer field:
 * `newWord.lowercased().trimmingCharacters(in: .whitespacesAndNewlines)`.
 *
 * Lowercasing is modelled for ASCII letters only. Trimming removes, from both ends,
 * the characters of the whitespace-and-newline set: the Unicode space separators,
 * U+0009 to U+000D and U+0085. A `char` here is one Unicode scalar value.
 */
module Answer {

  /** Membership in the whitespace-and-newline character set. */
  predicate IsTrimmable(c: char)
  {
    || ('\t' <= c <= '\r')
    || c == ' '
    || c == '\U{85}'
    || c == '\U{A0}'
    || c == '\U{1680}'
    || ('\U{2000}' <= c <= '\U{200A}')
    || c == '\U{2028}'
    || c == '\U{2029}'
    || c == '\U{202F}'
    || c == '\U{205F}'
    || c == '\U{3000}'
  }

  predicate IsUpper(c: char)
  {
    'A' <= c <= 'Z'
  }

  /** ASCII lowercasing of one character. */
  function ToLower(c: char): (l: char)
    ensures !IsUpper(l)
    ensures IsUpper(c) ==> l as int == c as int + 32
    ensures !IsUpper(c) ==> l == c
  {
    if IsUpper(c) then (c as int + 32) as char else c
  }

  /** `lowercased()`: every character lowercased, nothing added or removed. */
  function Lowercased(s: string): (r: string)
    ensures |r| == |s|
    ensures forall i :: 0 <= i < |s| ==> r[i] == ToLower(s[i])
  {
    seq(|s|, i requires 0 <= i < |s| => ToLower(s[i]))
  }

  /** Number of trimmable characters at the front of `s`. */
  function LeadingCount(s: string): (k: nat)
    ensures k <= |s|
    ensures forall i :: 0 <= i < k ==> IsTrimmable(s[i])
    ensures k < |s| ==> !IsTrimmable(s[k])
  {
    if s != [] && IsTrimmable(s[0]) then 1 + LeadingCount(s[1..]) else 0
  }

  /** Number of trimmable characters at the back of `s`. */
  function TrailingCount(s: string): (k: nat)
    ensures k <= |s|
    ensures forall i :: |s| - k <= i < |s| ==> IsTrimmable(s[i])
    ensures k < |s| ==> !IsTrimmable(s[|s| - 1 - k])
  {
    if s != [] && IsTrimmable(s[|s| - 1]) then 1 + TrailingCount(s[..|s| - 1]) else 0
  }

  /**
   * `trimmingCharacters(in:)`: the longest slice of `s` that neither starts nor ends
   * with a trimmable character; empty when every character is trimmable.
   */
  function Trimmed(s: string): (r: string)
    ensures |r| <= |s|
    ensures r != [] ==> !IsTrimmable(r[0]) && !IsTrimmable(r[|r| - 1])
    ensures r == [] <==> forall i :: 0 <= i < |s| ==> IsTrimmable(s[i])
    ensures r != [] ==> r == s[LeadingCount(s)..|s| - TrailingCount(s)]
  {
    var lead := LeadingCount(s);
    if lead == |s| then []
    else
      var trail := TrailingCount(s);
      // s[lead] is kept, so it cannot lie in the trailing run
      assert !IsTrimmable(s[lead]);
      s[lead..|s| - trail]
  }

  /** Lowercasing never turns a trimmable character into a kept one, or the reverse. */
  lemma ToLowerKeepsTrimmable(c: char)
    ensures IsTrimmable(ToLower(c)) == IsTrimmable(c)
  {
  }

  lemma {:induction false} LeadingCountLowercased(s: string)
    ensures LeadingCount(Lowercased(s)) == LeadingCount(s)
  {
    if s != [] {
      assert Lowercased(s)[1..] == Lowercased(s[1..]);
      ToLowerKeepsTrimmable(s[0]);
      LeadingCountLowercased(s[1..]);
    }
  }

  lemma {:induction false} TrailingCountLowercased(s: string)
    ensures TrailingCount(Lowercased(s)) == TrailingCount(s)
  {
    if s != [] {
      assert Lowercased(s)[..|s| - 1] == Lowercased(s[..|s| - 1]);
      ToLowerKeepsTrimmable(s[|s| - 1]);
      TrailingCountLowercased(s[..|s| - 1]);
    }
  }

  /** Lowercasing a slice is slicing the lowercased text. */
  lemma LowercasedSlice(s: string, i: nat, j: nat)
    requires i <= j <= |s|
    ensures Lowercased(s)[i..j] == Lowercased(s[i..j])
  {
  }

  /** Trimming the lowercased text is lowercasing the trimmed text. */
  lemma TrimmedLowercased(s: string)
    ensures Trimmed(Lowercased(s)) == Lowercased(Trimmed(s))
  {
    LeadingCountLowercased(s);
    TrailingCountLowercased(s);
    var lead, trail := LeadingCount(s), TrailingCount(s);
    if lead < |s| {
      assert !IsTrimmable(s[lead]);
      LowercasedSlice(s, lead, |s| - trail);
    }
  }

  /** The answer as the game checks it. */
  function Normalise(raw: string): (answer: string)
    ensures |answer| <= |raw|
    ensures forall i :: 0 <= i < |answer| ==> !IsUpper(answer[i])
    ensures answer != [] ==> !IsTrimmable(answer[0]) && !IsTrimmable(answer[|answer| - 1])
  {
    Trimmed(Lowercased(raw))
  }

  /**
   * Lowercasing and trimming commute, so the answer is the typed text with its
   * leading and trailing whitespace runs cut off, its inner characters (inner
   * whitespace included) kept in place, and each of them lowercased.
   */
  lemma NormaliseContent(raw: string)
    ensures Normalise(raw) == Lowercased(Trimmed(raw))
    ensures Normalise(raw) == [] <==> forall i :: 0 <= i < |raw| ==> IsTrimmable(raw[i])
  {
    TrimmedLowercased(raw);
  }

  /** A string that neither starts nor ends with a trimmable character is left alone. */
  lemma TrimmedKeepsTrimmed(s: string)
    requires s != [] ==> !IsTrimmable(s[0]) && !IsTrimmable(s[|s| - 1])
    ensures Trimmed(s) == s
  {
  }

  /** Normalising twice is normalising once. */
  lemma NormaliseIdempotent(raw: string)
    ensures Normalise(Normalise(raw)) == Normalise(raw)
  {
  }
}
