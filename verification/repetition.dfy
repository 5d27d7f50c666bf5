/** `GrammarCorrector::remove_repetitions` (lserver/src/lang/grammar.rs):
    a clean-up pass over the rewrite model's output that drops a trailing
    phrase the model repeated, e.g. "the cat sat on the mat the mat." becomes
    "the cat sat on the mat.".

    The pass works on the `split_whitespace` word list: the last word loses
    its sentence punctuation for comparison, phrase lengths are tried from
    half the word count down to two, and the first trailing phrase found
    earlier in the text (without overlapping it) is cut, together with any
    conjunctions it leaves dangling, and a period is put back. */
module Repetition {
  import opened Outcomes
  import opened Text

  /** Texts with fewer words than this are returned untouched. */
  const MinWords := 4

  /** The shortest phrase the search looks for. */
  const MinPhrase := 2

  /** Words popped from the end after a phrase is cut. */
  predicate IsConjunction(w: string)
  {
    w == "and" || w == "or" || w == "but"
  }

  function Last(ws: seq<string>): string
    requires |ws| > 0
  {
    ws[|ws| - 1]
  }

  /** The last `k` words of `words` also occur at `start`, and that earlier
      copy ends no later than where the trailing copy begins. */
  predicate RepeatsAt(words: seq<string>, k: nat, start: nat)
  {
    start + 2 * k <= |words| && words[start..start + k] == words[|words| - k..]
  }

  /** The inner search: the first start position at or after `from` where
      the trailing `k` words occur earlier. */
  function FindStart(words: seq<string>, k: nat, from: nat): (r: Option<nat>)
    ensures r.Some? ==> from <= r.value && RepeatsAt(words, k, r.value)
    ensures r.Some? ==> forall s: nat :: from <= s < r.value ==> !RepeatsAt(words, k, s)
    ensures r.None? ==> forall s: nat :: from <= s ==> !RepeatsAt(words, k, s)
    decreases |words| - from
  {
    if from + 2 * k > |words| then None
    else if words[from..from + k] == words[|words| - k..] then Some(from)
    else FindStart(words, k, from + 1)
  }

  /** The outer search: phrase lengths `k`, `k - 1`, ..., 2, longest first.
      The answer `(len, start)` is the longest repeated trailing phrase of
      at most `k` words and the first place it occurs earlier. */
  function FindRepeat(words: seq<string>, k: nat): (r: Option<(nat, nat)>)
    ensures r.Some? ==> MinPhrase <= r.value.0 <= k && RepeatsAt(words, r.value.0, r.value.1)
    ensures r.Some? ==> forall s: nat :: s < r.value.1 ==> !RepeatsAt(words, r.value.0, s)
    ensures r.Some? ==> forall j: nat, s: nat :: r.value.0 < j <= k ==> !RepeatsAt(words, j, s)
    ensures r.None? ==> forall j: nat, s: nat :: MinPhrase <= j <= k ==> !RepeatsAt(words, j, s)
    decreases k
  {
    if k < MinPhrase then None
    else if |words| >= 2 * k then
      match FindStart(words, k, 0)
      case Some(s) => Some((k, s))
      case None => FindRepeat(words, k - 1)
    else FindRepeat(words, k - 1)
  }

  /** The word list as compared: trailing sentence punctuation stripped
      from the last word, every other word as it was. */
  function Cleaned(words: seq<string>): (c: seq<string>)
    requires |words| > 0
    ensures |c| == |words|
    ensures forall i :: 0 <= i < |words| - 1 ==> c[i] == words[i]
    ensures Last(c) == TrimEndPunct(Last(words))
  {
    if EndsWithSentencePunct(Last(words)) then words[..|words| - 1] + [TrimEndPunct(Last(words))]
    else words
  }

  /** A word given a final period unless it already ends a sentence. */
  function EnsurePeriod(w: string): (r: string)
    ensures EndsWithSentencePunct(w) ==> r == w
    ensures !EndsWithSentencePunct(w) ==> r == w + "."
    ensures EndsWithSentencePunct(r)
    ensures TrimEndPunct(r) == TrimEndPunct(w)
  {
    if EndsWithSentencePunct(w) then w
    else
      TrimEndPunctAppend(w, '.');
      w + "."
  }

  /** The punctuation step: only the last word, if there is one, changes. */
  function PunctuateLast(ws: seq<string>): (r: seq<string>)
    ensures |r| == |ws|
    ensures forall i :: 0 <= i < |ws| - 1 ==> r[i] == ws[i]
    ensures |ws| > 0 ==> Last(r) == EnsurePeriod(Last(ws))
  {
    if |ws| == 0 then ws else ws[..|ws| - 1] + [EnsurePeriod(Last(ws))]
  }

  /** Popping trailing conjunctions leaves the longest prefix that does not
      end in one; everything popped was a conjunction. */
  function PopConjunctions(ws: seq<string>): (r: seq<string>)
    ensures |r| <= |ws| && r == ws[..|r|]
    ensures r == [] || !IsConjunction(Last(r))
    ensures forall i :: |r| <= i < |ws| ==> IsConjunction(ws[i])
  {
    if |ws| > 0 && IsConjunction(Last(ws)) then PopConjunctions(ws[..|ws| - 1]) else ws
  }

  /** What the pass does once the search is over. With a phrase length
      `cut`, the last `cut` words go, then any trailing conjunctions, and the
      last word is made to end a sentence; with none, the last word gets a
      single period back only if it had sentence punctuation. */
  function Finish(words: seq<string>, cut: Option<nat>): seq<string>
    requires |words| > 0
    requires cut.Some? ==> MinPhrase <= cut.value < |words|
  {
    match cut
    case Some(k) => PunctuateLast(PopConjunctions(Cleaned(words)[..|words| - k]))
    case None =>
      if EndsWithSentencePunct(Last(words)) then PunctuateLast(Cleaned(words)) else Cleaned(words)
  }

  /** The word-list part of `remove_repetitions`, for four or more words. */
  function TrimWords(words: seq<string>): seq<string>
    requires |words| >= MinWords
  {
    var found := FindRepeat(Cleaned(words), |words| / 2);
    Finish(words, if found.Some? then Some(found.value.0) else None)
  }

  /** `r` is what the pass promises relative to `words`: no longer, a
      prefix except for the last kept word's trailing sentence punctuation,
      and still a list of whitespace-free words. */
  ghost predicate KeptPrefixOf(words: seq<string>, r: seq<string>)
  {
    && |r| <= |words|
    && (forall i :: 0 <= i < |r| - 1 ==> r[i] == words[i])
    && (|r| > 0 ==> TrimEndPunct(Last(r)) == TrimEndPunct(words[|r| - 1]))
    && (AllWords(words) ==> AllWords(r))
  }

  /** Whatever the search finds, the trimmed list never grows, is a prefix
      of the input, and only the last kept word's trailing sentence
      punctuation can differ; it stays a list of whitespace-free words. */
  lemma {:induction false} TrimWordsShape(words: seq<string>)
    requires |words| >= MinWords
    ensures KeptPrefixOf(words, TrimWords(words))
  {
    var found := FindRepeat(Cleaned(words), |words| / 2);
    FinishShape(words, if found.Some? then Some(found.value.0) else None);
  }

  lemma FinishShape(words: seq<string>, cut: Option<nat>)
    requires |words| > 0
    requires cut.Some? ==> MinPhrase <= cut.value < |words|
    ensures KeptPrefixOf(words, Finish(words, cut))
  {
    match cut
    case Some(k) =>
      var p := words[..|words| - k];
      CleanedPrefix(words, |words| - k);
      var kept := PopConjunctions(p);
      assert kept == p[..|kept|] == words[..|kept|];
      PunctuatedPrefix(words, kept);
    case None =>
      if EndsWithSentencePunct(Last(words)) {
        PunctuatedCleaned(words);
      } else {
        assert Cleaned(words) == words;
      }
  }

  /** Punctuating a proper prefix of the words keeps the shape `TrimWords`
      promises. */
  lemma PunctuatedPrefix(words: seq<string>, p: seq<string>)
    requires |p| < |words| && p == words[..|p|]
    ensures KeptPrefixOf(words, PunctuateLast(p))
  {
    var r := PunctuateLast(p);
    if |p| > 0 && AllWords(words) {
      var w := Last(p);
      assert w == words[|p| - 1] && IsWord(w);
      assert IsWord(EnsurePeriod(w));
      assert forall i :: 0 <= i < |r| ==> r[i] == (if i < |r| - 1 then words[i] else EnsurePeriod(w));
    }
  }

  /** Punctuating the cleaned words keeps the shape `TrimWords` promises. */
  lemma PunctuatedCleaned(words: seq<string>)
    requires |words| > 0
    ensures KeptPrefixOf(words, PunctuateLast(Cleaned(words)))
  {
    var c := Cleaned(words);
    var r := PunctuateLast(c);
    var w := TrimEndPunct(Last(words));
    TrimEndPunctIdempotent(Last(words));
    assert Last(r) == EnsurePeriod(w);
    if AllWords(words) {
      assert IsWord(Last(words));
      assert NoWhitespace(w);
      assert IsWord(EnsurePeriod(w));
      assert forall i :: 0 <= i < |r| ==> r[i] == (if i < |r| - 1 then words[i] else EnsurePeriod(w));
    }
  }

  /** `remove_repetitions` on the text itself. Under four words the text
      comes back byte for byte; otherwise the words of the result are exactly
      the trimmed word list, re-joined with single spaces. */
  function RemoveRepetitions(text: string): (r: string)
    ensures |SplitWhitespace(text)| < MinWords ==> r == text
    ensures |SplitWhitespace(text)| >= MinWords ==>
              SplitWhitespace(r) == TrimWords(SplitWhitespace(text))
    ensures |SplitWhitespace(text)| >= MinWords ==> r == Join(TrimWords(SplitWhitespace(text)))
    ensures |SplitWhitespace(r)| <= |SplitWhitespace(text)|
  {
    var words := SplitWhitespace(text);
    if |words| < MinWords then text
    else
      var kept := TrimWords(words);
      TrimWordsShape(words);
      SplitJoin(kept);
      Join(kept)
  }

  /** When the longest repeated trailing phrase has `k` words: exactly those
      `k` words go, then every conjunction left at the end, and the last
      remaining word is made to end a sentence. */
  lemma {:induction false} RepeatedPhraseRemoved(words: seq<string>, k: nat, s: nat)
    requires |words| >= MinWords
    requires MinPhrase <= k && RepeatsAt(Cleaned(words), k, s)
    requires forall j: nat, t: nat :: k < j ==> !RepeatsAt(Cleaned(words), j, t)
    ensures var r := TrimWords(words);
      && |r| <= |words| - k
      && (forall i :: 0 <= i < |r| - 1 ==> r[i] == words[i])
      && (|r| > 0 ==> Last(r) == EnsurePeriod(words[|r| - 1]) && !IsConjunction(words[|r| - 1]))
      && (forall i :: |r| <= i < |words| - k ==> IsConjunction(words[i]))
  {
    LongestRepeatFound(Cleaned(words), k, s);
    assert TrimWords(words) == Finish(words, Some(k));
    CutShape(words, k);
  }

  lemma {:induction false} CutShape(words: seq<string>, k: nat)
    requires MinPhrase <= k < |words|
    ensures var r := Finish(words, Some(k));
      && |r| <= |words| - k
      && (forall i :: 0 <= i < |r| - 1 ==> r[i] == words[i])
      && (|r| > 0 ==> Last(r) == EnsurePeriod(words[|r| - 1]) && !IsConjunction(words[|r| - 1]))
      && (forall i :: |r| <= i < |words| - k ==> IsConjunction(words[i]))
  {
    var m := |words| - k;
    FinishCut(words, k);
    var q := PunctuateLast(PopConjunctions(words[..m]));
    assert Finish(words, Some(k)) == q;
    PoppedPrefixShape(words, m);
  }

  /** The cut, stated on the original words. */
  lemma FinishCut(words: seq<string>, k: nat)
    requires MinPhrase <= k < |words|
    ensures Finish(words, Some(k)) == PunctuateLast(PopConjunctions(words[..|words| - k]))
  {
    CleanedPrefix(words, |words| - k);
  }

  lemma PoppedPrefixShape(words: seq<string>, m: nat)
    requires m <= |words|
    ensures var r := PunctuateLast(PopConjunctions(words[..m]));
      && |r| <= m
      && (forall i :: 0 <= i < |r| - 1 ==> r[i] == words[i])
      && (|r| > 0 ==> Last(r) == EnsurePeriod(words[|r| - 1]) && !IsConjunction(words[|r| - 1]))
      && (forall i :: |r| <= i < m ==> IsConjunction(words[i]))
  {
    var p := words[..m];
    var kept := PopConjunctions(p);
    assert kept == p[..|kept|];
    if |kept| > 0 {
      assert Last(kept) == words[|kept| - 1];
    }
  }

  lemma CleanedPrefix(words: seq<string>, m: nat)
    requires m < |words|
    ensures Cleaned(words)[..m] == words[..m]
  {
    var c := Cleaned(words);
    assert forall i :: 0 <= i < m ==> c[..m][i] == words[..m][i];
  }

  /** The search settles on the longest repeated trailing phrase. */
  lemma LongestRepeatFound(c: seq<string>, k: nat, s: nat)
    requires MinPhrase <= k && RepeatsAt(c, k, s)
    requires forall j: nat, t: nat :: k < j ==> !RepeatsAt(c, j, t)
    ensures FindRepeat(c, |c| / 2).Some? && FindRepeat(c, |c| / 2).value.0 == k
  {
    var found := FindRepeat(c, |c| / 2);
    if found.None? {
      assert false;
    }
  }

  /** Without any repeated trailing phrase all words stay; a last word that
      ended in `.`, `!` or `?` (any number of them) now ends in exactly one
      `.`, and every other word is untouched. */
  lemma NoRepeatKeepsAllWords(words: seq<string>)
    requires |words| >= MinWords
    requires forall j: nat, t: nat :: MinPhrase <= j ==> !RepeatsAt(Cleaned(words), j, t)
    ensures var r := TrimWords(words);
      && |r| == |words|
      && r[..|r| - 1] == words[..|words| - 1]
      && Last(r) == (if EndsWithSentencePunct(Last(words)) then TrimEndPunct(Last(words)) + "."
                     else Last(words))
  {
    var found := FindRepeat(Cleaned(words), |words| / 2);
    if found.Some? {
      assert false;
    }
    assert TrimWords(words) == Finish(words, None);
  }

  /** A repeated two-word phrase at the end is cut, and the last word kept
      is given a period. */
  lemma CutExample()
    ensures TrimWords(["the", "cat", "sat", "on", "the", "mat", "the", "mat."])
            == ["the", "cat", "sat", "on", "the", "mat."]
  {
    var w := ["the", "cat", "sat", "on", "the", "mat", "the", "mat."];
    assert "mat."[..3] == "mat";
    assert TrimEndPunct("mat.") == "mat";
    var c := Cleaned(w);
    assert c == ["the", "cat", "sat", "on", "the", "mat", "the", "mat"];
    assert RepeatsAt(c, 2, 4);
    forall j: nat, t: nat | 2 < j ensures !RepeatsAt(c, j, t) {
      if RepeatsAt(c, j, t) {
        assert false;
      }
    }
    RepeatedPhraseRemoved(w, 2, 4);
    var r := TrimWords(w);
    assert !IsConjunction(w[5]);
    assert |r| == 6;
    assert EnsurePeriod("mat") == "mat.";
    assert r == ["the", "cat", "sat", "on", "the", "mat."];
  }

  /** With nothing repeated, a question mark on the last word comes back as
      a period. */
  lemma QuestionExample()
    ensures TrimWords(["how", "are", "you", "today?"]) == ["how", "are", "you", "today."]
  {
    var w := ["how", "are", "you", "today?"];
    assert "today?"[..5] == "today";
    assert TrimEndPunct("today?") == "today";
    var c := Cleaned(w);
    assert c == ["how", "are", "you", "today"];
    forall j: nat, t: nat | MinPhrase <= j ensures !RepeatsAt(c, j, t) {
      if RepeatsAt(c, j, t) {
        assert false;
      }
    }
    NoRepeatKeepsAllWords(w);
    var r := TrimWords(w);
    assert w[..3] == ["how", "are", "you"];
    assert Last(r) == "today.";
    assert r == r[..3] + [Last(r)];
    assert r == ["how", "are", "you", "today."];
  }
}
