/**
 * `TextAnalysisPlugin.analyze_text`: four statistics of a text, computed from
 * the text and from its words as `str.split()` returns them.
 */
module TextAnalysisPlugin {
  import opened StrSplit

  /** The record `analyze_text` serialises. `averageWordLength` is the exact
      quotient; the source rounds it to two decimals before serialising. */
  datatype Analysis = Analysis(
    characterCount: nat,
    wordCount: nat,
    sentenceCount: nat,
    averageWordLength: real)

  /** Python's `s.count(c)` for a one-character `c`. */
  function Count(s: string, c: char): nat {
    if s == [] then 0
    else (if s[0] == c then 1 else 0) + Count(s[1..], c)
  }

  predicate IsSentenceEnd(c: char) {
    c == '.' || c == '!' || c == '?'
  }

  /** Mean word length, or 0 when there are no words (no division happens). */
  function AverageWordLength(words: seq<string>): real {
    if words == [] then 0.0 else TotalLength(words) as real / |words| as real
  }

  function Analyze(text: string): Analysis {
    var words := Split(text);
    Analysis(
      |text|,
      |words|,
      Count(text, '.') + Count(text, '!') + Count(text, '?'),
      AverageWordLength(words))
  }

  // ---------------------------------------------------------------------
  // Properties
  // ---------------------------------------------------------------------

  /** Counting one character agrees with the character's multiplicity. */
  lemma {:induction false} CountIsMultiplicity(s: string, c: char)
    ensures Count(s, c) == multiset(s)[c]
    decreases |s|
  {
    if s != [] {
      CountIsMultiplicity(s[1..], c);
      assert s == [s[0]] + s[1..];
      assert multiset(s) == multiset{s[0]} + multiset(s[1..]);
    }
  }

  /** The three counts together never exceed the text's length. */
  lemma {:induction false} TerminatorCountBound(s: string)
    ensures Count(s, '.') + Count(s, '!') + Count(s, '?') <= |s|
    decreases |s|
  {
    if s != [] {
      TerminatorCountBound(s[1..]);
    }
  }

  /** `character_count` is the text's length; `sentence_count` is the number of
      `.`, `!` and `?` characters in it, so at most `character_count`. */
  lemma CharacterAndSentenceCounts(text: string)
    ensures Analyze(text).characterCount == |text|
    ensures Analyze(text).sentenceCount
         == multiset(text)['.'] + multiset(text)['!'] + multiset(text)['?']
    ensures Analyze(text).sentenceCount <= Analyze(text).characterCount
  {
    CountIsMultiplicity(text, '.');
    CountIsMultiplicity(text, '!');
    CountIsMultiplicity(text, '?');
    TerminatorCountBound(text);
  }

  /** `word_count` is the number of maximal whitespace-free runs of the text,
      and is at most `(character_count + 1) / 2`. */
  lemma WordCountIsRunCount(text: string)
    ensures Analyze(text).wordCount == Runs(text, true)
    ensures 2 * Analyze(text).wordCount <= Analyze(text).characterCount + 1
  {
    SplitCountsRuns(text);
    RunsBound(text, true);
  }

  /** Empty or all-whitespace text has no words and average 0; any other text
      has at least one word. */
  lemma BlankTextHasNoWords(text: string)
    ensures Analyze(text).wordCount == 0 <==> AllSpace(text)
    ensures AllSpace(text) ==> Analyze(text).averageWordLength == 0.0
  {
    SplitEmptyIffBlank(text);
  }

  /** The total length of the words never exceeds `character_count`. */
  lemma {:induction false} WordLengthsWithinText(text: string)
    ensures TotalLength(Split(text)) == |RemoveSpaces(text)|
    ensures TotalLength(Split(text)) <= Analyze(text).characterCount
  {
    ConcatSplit(text);
  }

  /** Every word has at least one character. */
  lemma {:induction false} TotalLengthAtLeastCount(words: seq<string>)
    requires forall k :: 0 <= k < |words| ==> IsWord(words[k])
    ensures |words| <= TotalLength(words)
    decreases |words|
  {
    if words != [] {
      TotalLengthAtLeastCount(words[1..]);
    }
  }

  /** The mean of word lengths times the number of words is the total, and
      the mean lies between 1 and the total. */
  lemma AverageOfWords(words: seq<string>)
    requires words != []
    requires forall k :: 0 <= k < |words| ==> IsWord(words[k])
    ensures AverageWordLength(words) * |words| as real == TotalLength(words) as real
    ensures 1.0 <= AverageWordLength(words) <= TotalLength(words) as real
  {
    TotalLengthAtLeastCount(words);
    QuotientBounds(TotalLength(words) as real, |words| as real);
  }

  /** A quotient of a total by a count between 1 and that total. */
  lemma QuotientBounds(total: real, n: real)
    requires 1.0 <= n <= total
    ensures (total / n) * n == total
    ensures 1.0 <= total / n <= total
  {
  }

  /** When there are words, `average_word_length` (before rounding) is the
      total word length divided by `word_count`, and lies between 1 and
      `character_count`. */
  lemma AverageWhenWordsExist(text: string)
    requires !AllSpace(text)
    ensures Analyze(text).wordCount > 0
    ensures Analyze(text).averageWordLength
         == TotalLength(Split(text)) as real / Analyze(text).wordCount as real
    ensures 1.0 <= Analyze(text).averageWordLength <= Analyze(text).characterCount as real
  {
    var words := Split(text);
    SplitEmptyIffBlank(text);
    ConcatSplit(text);
    AverageOfWords(words);
  }

  /** In terms of the text alone: when there are words, `average_word_length`
      (before rounding) is the number of non-whitespace characters per
      maximal whitespace-free run. */
  lemma AverageIsCharactersPerRun(text: string)
    requires !AllSpace(text)
    ensures Runs(text, true) > 0
    ensures Analyze(text).averageWordLength
         == |RemoveSpaces(text)| as real / Runs(text, true) as real
  {
    AverageWhenWordsExist(text);
    WordLengthsWithinText(text);
    WordCountIsRunCount(text);
  }

  /** `analyze_text("")`: all four statistics are 0. */
  lemma EmptyTextAnalysis()
    ensures Analyze("") == Analysis(0, 0, 0, 0.0)
  {
  }

  /** `analyze_text("Hi there. Go!")`: 13 characters, the words "Hi",
      "there." and "Go!", two terminators, and average 11/3 (3.67 rounded). */
  lemma ExampleAnalysis()
    ensures Analyze("Hi there. Go!") == Analysis(13, 3, 2, 11.0 / 3.0)
  {
    ExampleSplit();
    ExampleCounts();
    assert TotalLength(["Hi", "there.", "Go!"]) == 11;
  }

  lemma ExampleCounts()
    ensures Count("Hi there. Go!", '.') == 1
    ensures Count("Hi there. Go!", '!') == 1
    ensures Count("Hi there. Go!", '?') == 0
  {
  }

  lemma ExampleSplit()
    ensures Split("Hi there. Go!") == ["Hi", "there.", "Go!"]
  {
    SplitThreeWords("Hi", " ", "there.", " ", "Go!");
    assert "Hi" + (" " + ("there." + (" " + "Go!"))) == "Hi there. Go!";
  }

  /** Three words with whitespace between them split into those three. */
  lemma SplitThreeWords(w1: string, sp1: string, w2: string, sp2: string, w3: string)
    requires IsWord(w1) && IsWord(w2) && IsWord(w3)
    requires AllSpace(sp1) && sp1 != [] && AllSpace(sp2) && sp2 != []
    ensures Split(w1 + (sp1 + (w2 + (sp2 + w3)))) == [w1, w2, w3]
  {
    assert w3 + [] == w3;
    SplitTakesWord(w3, []);
    SplitSkipsSpace(sp2, w3);
    assert (sp2 + w3)[0] == sp2[0];
    SplitTakesWord(w2, sp2 + w3);
    SplitSkipsSpace(sp1, w2 + (sp2 + w3));
    assert (sp1 + (w2 + (sp2 + w3)))[0] == sp1[0];
    SplitTakesWord(w1, sp1 + (w2 + (sp2 + w3)));
  }
}
