/**
 * Python's argument-less `str.split()`: the string is cut at runs of
 * whitespace, and leading or trailing whitespace yields no empty words.
 * `analyze_text` counts and measures the words this produces.
 */
module StrSplit {

  /** The characters for which Python's `str.isspace()` holds, which is the
      set `str.split()` without arguments separates on. */
  predicate IsSpace(c: char) {
    || ('\t' <= c <= '\r')
    || ('\U{1C}' <= c <= ' ')
    || c == '\U{85}'
    || c == '\U{A0}'
    || c == '\U{1680}'
    || ('\U{2000}' <= c <= '\U{200A}')
    || c == '\U{2028}'
    || c == '\U{2029}'
    || c == '\U{202F}'
    || c == '\U{205F}'
    || c == '\U{3000}'
  }

  predicate NoSpace(s: string) {
    forall i :: 0 <= i < |s| ==> !IsSpace(s[i])
  }

  predicate AllSpace(s: string) {
    forall i :: 0 <= i < |s| ==> IsSpace(s[i])
  }

  /** A word as `str.split()` returns it: non-empty, no whitespace inside. */
  predicate IsWord(w: string) {
    w != [] && NoSpace(w)
  }

  /** Length of the longest whitespace-free prefix of `s`. */
  function WordLength(s: string): (n: nat)
    ensures n <= |s|
    ensures NoSpace(s[..n])
    ensures n < |s| ==> IsSpace(s[n])
  {
    if s == [] || IsSpace(s[0]) then 0 else 1 + WordLength(s[1..])
  }

  /** The words of `s`, in order. */
  function Split(s: string): (words: seq<string>)
    ensures forall k :: 0 <= k < |words| ==> IsWord(words[k])
    decreases |s|
  {
    if s == [] then []
    else if IsSpace(s[0]) then Split(s[1..])
    else
      var n := WordLength(s);
      [s[..n]] + Split(s[n..])
  }

  // ---------------------------------------------------------------------
  // Reference description: words separated by whitespace gaps.
  // ---------------------------------------------------------------------

  /** `gaps[0] + words[0] + gaps[1] + ... + words[|words|-1] + gaps[|words|]`. */
  function Weave(gaps: seq<string>, words: seq<string>): string
    requires |gaps| == |words| + 1
  {
    if words == [] then gaps[0]
    else gaps[0] + words[0] + Weave(gaps[1..], words[1..])
  }

  /** `words` and `gaps` describe a whitespace-separated text: every gap is
      whitespace only, the gaps between two words are not empty, and every
      word is a word. */
  predicate Separated(gaps: seq<string>, words: seq<string>) {
    && |gaps| == |words| + 1
    && (forall k :: 0 <= k < |gaps| ==> AllSpace(gaps[k]))
    && (forall k :: 0 < k < |words| ==> gaps[k] != [])
    && (forall k :: 0 <= k < |words| ==> IsWord(words[k]))
  }

  /** The whitespace around and between the words of `Split(s)`. */
  function Gaps(s: string): (gaps: seq<string>)
    ensures Separated(gaps, Split(s))
    ensures s != [] && IsSpace(s[0]) ==> gaps[0] != []
    decreases |s|
  {
    if s == [] then [[]]
    else if IsSpace(s[0]) then
      var g := Gaps(s[1..]);
      [[s[0]] + g[0]] + g[1..]
    else
      var n := WordLength(s);
      [[]] + Gaps(s[n..])
  }

  /** Putting text in front of the first gap puts it in front of the whole. */
  lemma WeaveExtendsFirstGap(p: string, gaps: seq<string>, words: seq<string>)
    requires |gaps| == |words| + 1
    ensures Weave([p + gaps[0]] + gaps[1..], words) == p + Weave(gaps, words)
  {
  }

  /** A word behind an empty first gap comes first. */
  lemma WeaveLeadingWord(w: string, gaps: seq<string>, words: seq<string>)
    requires |gaps| == |words| + 1
    ensures Weave([[]] + gaps, [w] + words) == w + Weave(gaps, words)
  {
  }

  /** Splitting loses nothing but the boundaries: the words and the gaps
      put back together give the original text. */
  lemma {:induction false} SplitReassembles(s: string)
    ensures Weave(Gaps(s), Split(s)) == s
    decreases |s|
  {
    if s == [] {
    } else if IsSpace(s[0]) {
      SplitReassembles(s[1..]);
      WeaveExtendsFirstGap([s[0]], Gaps(s[1..]), Split(s[1..]));
      assert s == [s[0]] + s[1..];
    } else {
      var n := WordLength(s);
      SplitReassembles(s[n..]);
      WeaveLeadingWord(s[..n], Gaps(s[n..]), Split(s[n..]));
      assert s == s[..n] + s[n..];
    }
  }

  /** Whitespace in front of a text adds no words. */
  lemma {:induction false} SplitSkipsSpace(sp: string, t: string)
    requires AllSpace(sp)
    ensures Split(sp + t) == Split(t)
    decreases |sp|
  {
    if sp != [] {
      assert (sp + t)[0] == sp[0] && (sp + t)[1..] == sp[1..] + t;
      assert AllSpace(sp[1..]) by {
        forall i | 0 <= i < |sp| - 1 ensures IsSpace(sp[1..][i]) {
          assert sp[1..][i] == sp[i + 1];
        }
      }
      SplitSkipsSpace(sp[1..], t);
      assert Split(sp + t) == Split((sp + t)[1..]);
    } else {
      assert sp + t == t;
    }
  }

  /** A word followed by nothing or by whitespace is split off whole. */
  lemma SplitTakesWord(w: string, rest: string)
    requires IsWord(w)
    requires rest == [] || IsSpace(rest[0])
    ensures Split(w + rest) == [w] + Split(rest)
  {
    var s := w + rest;
    WordLengthOf(w, rest);
    assert s[..|w|] == w && s[|w|..] == rest;
  }

  lemma {:induction false} WordLengthOf(w: string, rest: string)
    requires NoSpace(w)
    requires rest == [] || IsSpace(rest[0])
    ensures WordLength(w + rest) == |w|
    decreases |w|
  {
    if w != [] {
      assert (w + rest)[1..] == w[1..] + rest;
      WordLengthOf(w[1..], rest);
    }
  }

  /** The gap decomposition is unique: whenever a text is written as words
      separated by whitespace, those words are exactly what `Split` returns. */
  lemma {:induction false} SplitOfWeave(gaps: seq<string>, words: seq<string>)
    requires Separated(gaps, words)
    ensures Split(Weave(gaps, words)) == words
    decreases |words|
  {
    if words == [] {
      assert gaps[0] + [] == gaps[0];
      SplitSkipsSpace(gaps[0], []);
    } else {
      var rest := Weave(gaps[1..], words[1..]);
      assert Separated(gaps[1..], words[1..]);
      SplitOfWeave(gaps[1..], words[1..]);
      assert rest == [] || IsSpace(rest[0]) by {
        if |words| > 1 {
          assert gaps[1] != [] && AllSpace(gaps[1]);
          assert rest == gaps[1] + (words[1] + Weave(gaps[2..], words[2..]));
        } else {
          assert rest == gaps[1];
        }
      }
      SplitTakesWord(words[0], rest);
      assert gaps[0] + words[0] + rest == gaps[0] + (words[0] + rest);
      SplitSkipsSpace(gaps[0], words[0] + rest);
    }
  }

  /** `Split(s)` is exactly the sequence of words that, with whitespace-only
      gaps (non-empty between two words), makes up `s`. */
  lemma SplitCharacterization(s: string, words: seq<string>)
    ensures Split(s) == words <==>
      exists gaps :: Separated(gaps, words) && Weave(gaps, words) == s
  {
    if Split(s) == words {
      SplitReassembles(s);
      assert Separated(Gaps(s), words) && Weave(Gaps(s), words) == s;
    }
    if exists gaps :: Separated(gaps, words) && Weave(gaps, words) == s {
      var gaps :| Separated(gaps, words) && Weave(gaps, words) == s;
      SplitOfWeave(gaps, words);
    }
  }

  // ---------------------------------------------------------------------
  // Word content and word count
  // ---------------------------------------------------------------------

  /** The words joined with nothing between them. */
  function Concat(words: seq<string>): string {
    if words == [] then [] else words[0] + Concat(words[1..])
  }

  /** Sum of the word lengths. */
  function TotalLength(words: seq<string>): nat {
    if words == [] then 0 else |words[0]| + TotalLength(words[1..])
  }

  /** `s` with every whitespace character deleted. */
  function RemoveSpaces(s: string): (r: string)
    ensures |r| <= |s|
    ensures NoSpace(r)
  {
    if s == [] then []
    else if IsSpace(s[0]) then RemoveSpaces(s[1..])
    else [s[0]] + RemoveSpaces(s[1..])
  }

  lemma {:induction false} RemoveSpacesAppend(a: string, b: string)
    ensures RemoveSpaces(a + b) == RemoveSpaces(a) + RemoveSpaces(b)
    decreases |a|
  {
    if a != [] {
      assert (a + b)[0] == a[0] && (a + b)[1..] == a[1..] + b;
      RemoveSpacesAppend(a[1..], b);
      if !IsSpace(a[0]) {
        assert RemoveSpaces(a + b) == [a[0]] + (RemoveSpaces(a[1..]) + RemoveSpaces(b));
      }
    } else {
      assert a + b == b;
    }
  }

  lemma {:induction false} RemoveSpacesOfNoSpace(s: string)
    requires NoSpace(s)
    ensures RemoveSpaces(s) == s
    decreases |s|
  {
    if s != [] {
      RemoveSpacesOfNoSpace(s[1..]);
    }
  }

  lemma {:induction false} LengthOfConcat(words: seq<string>)
    ensures |Concat(words)| == TotalLength(words)
    decreases |words|
  {
    if words != [] {
      LengthOfConcat(words[1..]);
    }
  }

  /** Joining the words in order gives the text with its whitespace removed,
      so the words together are never longer than the text. */
  lemma {:induction false} ConcatSplit(s: string)
    ensures Concat(Split(s)) == RemoveSpaces(s)
    ensures TotalLength(Split(s)) == |RemoveSpaces(s)| <= |s|
    decreases |s|
  {
    LengthOfConcat(Split(s));
    if s == [] {
    } else if IsSpace(s[0]) {
      ConcatSplit(s[1..]);
    } else {
      var n := WordLength(s);
      ConcatSplit(s[n..]);
      assert s == s[..n] + s[n..];
      RemoveSpacesAppend(s[..n], s[n..]);
      RemoveSpacesOfNoSpace(s[..n]);
      assert Split(s)[1..] == Split(s[n..]);
    }
  }

  /** Number of maximal whitespace-free runs of `s`: the positions holding a
      non-whitespace character whose predecessor is whitespace or, when
      `afterSpace`, absent. */
  function Runs(s: string, afterSpace: bool): nat {
    if s == [] then 0
    else
      (if afterSpace && !IsSpace(s[0]) then 1 else 0) + Runs(s[1..], IsSpace(s[0]))
  }

  lemma {:induction false} RunsOfWord(s: string, afterSpace: bool)
    requires s != [] && !IsSpace(s[0])
    ensures Runs(s, afterSpace) == (if afterSpace then 1 else 0) + Runs(s[WordLength(s)..], false)
    decreases |s|
  {
    var t := s[1..];
    if t == [] || IsSpace(t[0]) {
      assert WordLength(t) == 0;
    } else {
      RunsOfWord(t, false);
    }
  }

  /** The number of words is the number of maximal whitespace-free runs. */
  lemma {:induction false} SplitCountsRuns(s: string)
    ensures |Split(s)| == Runs(s, true)
    decreases |s|
  {
    if s == [] {
    } else if IsSpace(s[0]) {
      SplitCountsRuns(s[1..]);
    } else {
      var n := WordLength(s);
      RunsOfWord(s, true);
      SplitCountsRuns(s[n..]);
    }
  }

  /** Two runs need a whitespace character between them, so a text of `m`
      characters has at most `(m + 1) / 2` runs. */
  lemma {:induction false} RunsBound(s: string, afterSpace: bool)
    ensures 2 * Runs(s, afterSpace) <= |s| + (if afterSpace then 1 else 0)
    decreases |s|
  {
    if s != [] {
      RunsBound(s[1..], IsSpace(s[0]));
    }
  }

  /** A text has no words exactly when it is whitespace only (the empty
      text included). */
  lemma {:induction false} SplitEmptyIffBlank(s: string)
    ensures Split(s) == [] <==> AllSpace(s)
    decreases |s|
  {
    if s != [] {
      SplitEmptyIffBlank(s[1..]);
      if IsSpace(s[0]) && AllSpace(s[1..]) {
        assert AllSpace(s) by {
          forall i | 0 < i < |s| ensures IsSpace(s[i]) {
            assert s[i] == s[1..][i - 1];
          }
        }
      }
      if AllSpace(s) {
        assert AllSpace(s[1..]) by {
          forall i | 0 <= i < |s| - 1 ensures IsSpace(s[1..][i]) {
            assert s[1..][i] == s[i + 1];
          }
        }
      }
    }
  }
}
