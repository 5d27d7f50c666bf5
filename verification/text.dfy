/** The parts of Rust's `str` API that the core relies on, over `string`
    (a sequence of Unicode scalar values, as a Rust `char`):
    `split_whitespace`, `join(" ")`, `trim`, `starts_with`, `ends_with`,
    `trim_end_matches` on sentence punctuation, `len` (a UTF-8 byte count)
    and `to_lowercase` on ASCII text. */
module Text {

  /** `char::is_whitespace`: the Unicode White_Space property. */
  predicate IsWhitespace(c: char)
  {
    var n := c as int;
    || (0x09 <= n <= 0x0D) || n == 0x20 || n == 0x85 || n == 0xA0
    || n == 0x1680 || (0x2000 <= n <= 0x200A) || n == 0x2028 || n == 0x2029
    || n == 0x202F || n == 0x205F || n == 0x3000
  }

  predicate NoWhitespace(w: string)
  {
    forall i :: 0 <= i < |w| ==> !IsWhitespace(w[i])
  }

  /** What `split_whitespace` yields: a non-empty run of non-whitespace. */
  predicate IsWord(w: string)
  {
    |w| > 0 && NoWhitespace(w)
  }

  predicate AllWords(ws: seq<string>)
  {
    forall i :: 0 <= i < |ws| ==> IsWord(ws[i])
  }

  /** `trim_start`: drops the leading whitespace and nothing else. */
  function TrimStart(s: string): (r: string)
    ensures |r| <= |s|
    ensures r == [] || !IsWhitespace(r[0])
    ensures forall i :: 0 <= i < |s| - |r| ==> IsWhitespace(s[i])
  {
    if |s| > 0 && IsWhitespace(s[0]) then TrimStart(s[1..]) else s
  }

  /** What `trim_start` keeps is a suffix of the text. */
  lemma {:induction false} TrimStartSuffix(s: string)
    ensures TrimStart(s) == s[|s| - |TrimStart(s)|..]
    decreases |s|
  {
    if |s| > 0 && IsWhitespace(s[0]) {
      TrimStartSuffix(s[1..]);
      assert s[1..][|s| - 1 - |TrimStart(s)|..] == s[|s| - |TrimStart(s)|..];
    }
  }

  /** `trim_end`: drops the trailing whitespace and nothing else. */
  function TrimEnd(s: string): (r: string)
    ensures |r| <= |s| && r == s[..|r|]
    ensures r == [] || !IsWhitespace(r[|r| - 1])
    ensures forall i :: |r| <= i < |s| ==> IsWhitespace(s[i])
  {
    if |s| > 0 && IsWhitespace(s[|s| - 1]) then TrimEnd(s[..|s| - 1]) else s
  }

  /** `trim`: both ends. */
  function Trim(s: string): string
  {
    TrimEnd(TrimStart(s))
  }

  /** Trimming twice is trimming once. */
  lemma TrimIdempotent(s: string)
    ensures Trim(Trim(s)) == Trim(s)
  {
    var t := Trim(s);
    if t != [] {
      assert t[0] == TrimStart(s)[0];
      assert TrimStart(t) == t;
    }
  }

  /** Length of the longest whitespace-free prefix of `s`. */
  function WordPrefixLen(s: string): (n: nat)
    ensures n <= |s|
    ensures forall i :: 0 <= i < n ==> !IsWhitespace(s[i])
    ensures n < |s| ==> IsWhitespace(s[n])
  {
    if |s| == 0 || IsWhitespace(s[0]) then 0 else 1 + WordPrefixLen(s[1..])
  }

  /** `split_whitespace`: the maximal whitespace-free runs, in order. */
  function SplitWhitespace(s: string): (ws: seq<string>)
    ensures AllWords(ws)
    decreases |s|
  {
    var t := TrimStart(s);
    if t == [] then []
    else
      var n := WordPrefixLen(t);
      [t[..n]] + SplitWhitespace(t[n..])
  }

  /** `join(" ")`: the words separated by exactly one space. */
  function Join(ws: seq<string>): string
  {
    if |ws| == 0 then ""
    else if |ws| == 1 then ws[0]
    else ws[0] + " " + Join(ws[1..])
  }

  lemma WordPrefixOfWord(w: string, rest: string)
    requires IsWord(w)
    requires rest == [] || IsWhitespace(rest[0])
    ensures WordPrefixLen(w + rest) == |w|
  {
    var s := w + rest;
    assert forall i :: 0 <= i < |w| ==> s[i] == w[i];
    if rest != [] {
      assert s[|w|] == rest[0];
    }
  }

  /** A word followed by nothing or by whitespace splits off as one word. */
  lemma SplitLeadingWord(w: string, rest: string)
    requires IsWord(w)
    requires rest == [] || IsWhitespace(rest[0])
    ensures SplitWhitespace(w + rest) == [w] + SplitWhitespace(rest)
  {
    var s := w + rest;
    assert s[0] == w[0];
    assert TrimStart(s) == s;
    WordPrefixOfWord(w, rest);
    assert s[..|w|] == w && s[|w|..] == rest;
  }

  lemma SplitAfterSpace(rest: string)
    ensures SplitWhitespace(" " + rest) == SplitWhitespace(rest)
  {
    assert (" " + rest)[1..] == rest;
  }

  /** Re-splitting joined words gives back exactly those words. */
  lemma {:induction false} SplitJoin(ws: seq<string>)
    requires AllWords(ws)
    ensures SplitWhitespace(Join(ws)) == ws
    decreases |ws|
  {
    if |ws| == 0 {
    } else if |ws| == 1 {
      assert IsWord(ws[0]);
      SplitLeadingWord(ws[0], []);
      assert ws[0] + [] == ws[0];
    } else {
      var w := ws[0];
      assert IsWord(w);
      var tail := Join(ws[1..]);
      assert Join(ws) == w + " " + tail;
      assert w + " " + tail == w + (" " + tail);
      SplitLeadingWord(w, " " + tail);
      SplitAfterSpace(tail);
      SplitJoin(ws[1..]);
      assert ws == [w] + ws[1..];
    }
  }

  predicate StartsWith(s: string, prefix: string)
  {
    |prefix| <= |s| && s[..|prefix|] == prefix
  }

  /** The characters `remove_repetitions` treats as sentence-final. */
  predicate IsSentencePunct(c: char)
  {
    c == '.' || c == '!' || c == '?'
  }

  /** `w.ends_with('.') || w.ends_with('!') || w.ends_with('?')`. */
  predicate EndsWithSentencePunct(w: string)
  {
    |w| > 0 && IsSentencePunct(w[|w| - 1])
  }

  /** `trim_end_matches(['.', '!', '?'])`: every trailing sentence
      punctuation character removed, nothing else. */
  function TrimEndPunct(w: string): (r: string)
    ensures |r| <= |w| && r == w[..|r|]
    ensures !EndsWithSentencePunct(r)
    ensures forall i :: |r| <= i < |w| ==> IsSentencePunct(w[i])
  {
    if EndsWithSentencePunct(w) then TrimEndPunct(w[..|w| - 1]) else w
  }

  /** Appending one more punctuation character does not change what is left
      once trailing punctuation is stripped. */
  lemma TrimEndPunctAppend(w: string, c: char)
    requires IsSentencePunct(c)
    ensures TrimEndPunct(w + [c]) == TrimEndPunct(w)
  {
    assert (w + [c])[..|w|] == w;
  }

  lemma TrimEndPunctIdempotent(w: string)
    ensures TrimEndPunct(TrimEndPunct(w)) == TrimEndPunct(w)
  {
  }

  /** Number of bytes `c` takes in UTF-8. */
  function Utf8Width(c: char): (n: nat)
    ensures 1 <= n <= 4
  {
    var v := c as int;
    if v < 0x80 then 1 else if v < 0x800 then 2 else if v < 0x10000 then 3 else 4
  }

  /** `str::len`: the UTF-8 byte length, not the character count. */
  function Utf8Len(s: string): (n: nat)
    ensures |s| <= n <= 4 * |s|
  {
    if |s| == 0 then 0 else Utf8Len(s[..|s| - 1]) + Utf8Width(s[|s| - 1])
  }

  predicate IsAsciiUpper(c: char)
  {
    'A' <= c <= 'Z'
  }

  function LowerChar(c: char): char
  {
    if IsAsciiUpper(c) then (c as int + 32) as char else c
  }

  /** `to_lowercase`, exact on ASCII text. */
  function Lowercase(s: string): (r: string)
    ensures |r| == |s|
    ensures forall i :: 0 <= i < |s| ==> r[i] == LowerChar(s[i]) && !IsAsciiUpper(r[i])
  {
    if |s| == 0 then "" else Lowercase(s[..|s| - 1]) + [LowerChar(s[|s| - 1])]
  }
}
