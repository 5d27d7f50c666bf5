/** lserver/src/lang/lint.rs: turning the rule-based linter's lints into
    the flat suggestion records sent to the editor. The linter itself, and
    its `LintKind` enumeration, are outside this model: a lint carries the
    `Debug` name of its kind as a string. */
module Lints {
  import opened Outcomes
  import opened Text

  /** Prefix marking an insertion among the replacement strings. */
  const InsertAfterTag := "INSERT_AFTER: "

  /** A range of the linted text, `start` inclusive, `end` exclusive. */
  datatype Span = Span(start: nat, end: nat)

  /** What a lint proposes at its span. */
  datatype Suggestion = ReplaceWith(chars: string) | Remove | InsertAfter(chars: string)

  datatype Lint = Lint(span: Span, kindName: string, message: string, suggestions: seq<Suggestion>)

  /** `JSONSuggestion`. */
  datatype JsonSuggestion = JsonSuggestion(
    kind: string,
    message: string,
    offset: nat,
    length: nat,
    replacements: seq<string>)

  /** The `filter_map` closure of `from_lint`: removals have no string. */
  function Render(s: Suggestion): (r: Option<string>)
    ensures r.None? <==> s.Remove?
    ensures s.ReplaceWith? ==> r == Some(s.chars)
    ensures s.InsertAfter? ==> r.Some? && StartsWith(r.value, InsertAfterTag)
    ensures s.InsertAfter? ==> r.Some? && r.value[|InsertAfterTag|..] == s.chars
  {
    match s
    case ReplaceWith(chars) => Some(chars)
    case Remove => None
    case InsertAfter(chars) => Some(InsertAfterTag + chars)
  }

  /** Within one variant, distinct suggestions render differently. */
  lemma RenderInjectiveWithinKind(a: Suggestion, b: Suggestion)
    requires a.ReplaceWith? == b.ReplaceWith? && a.InsertAfter? == b.InsertAfter?
    requires Render(a) == Render(b)
    ensures a == b
  {
    if a.InsertAfter? {
      assert Render(a).value[|InsertAfterTag|..] == a.chars;
      assert Render(b).value[|InsertAfterTag|..] == b.chars;
    }
  }

  /** Across variants the rendering is ambiguous: a replacement whose text
      happens to start with the tag reads like an insertion. */
  lemma RenderAmbiguousAcrossKinds(chars: string)
    ensures ReplaceWith(InsertAfterTag + chars) != InsertAfter(chars)
    ensures Render(ReplaceWith(InsertAfterTag + chars)) == Render(InsertAfter(chars))
  {
  }

  /** The `replacements` list: the rendered suggestions in order, removals
      skipped. */
  function Replacements(ss: seq<Suggestion>): (r: seq<string>)
    ensures |r| <= |ss|
    ensures |r| == |ss| <==> forall i :: 0 <= i < |ss| ==> !ss[i].Remove?
  {
    if |ss| == 0 then []
    else
      var rest := Replacements(ss[1..]);
      assert forall i :: 1 <= i < |ss| ==> ss[i] == ss[1..][i - 1];
      match Render(ss[0])
      case None => rest
      case Some(x) => [x] + rest
  }

  /** Filtering distributes over concatenation. */
  lemma {:induction false} ReplacementsAppend(a: seq<Suggestion>, b: seq<Suggestion>)
    ensures Replacements(a + b) == Replacements(a) + Replacements(b)
    decreases |a|
  {
    if |a| == 0 {
      assert a + b == b;
    } else {
      assert (a + b)[1..] == a[1..] + b;
      ReplacementsAppend(a[1..], b);
    }
  }

  /** A string is a replacement exactly when some suggestion renders to it. */
  lemma {:induction false} ReplacementsMembership(ss: seq<Suggestion>, x: string)
    ensures x in Replacements(ss) <==> exists i :: 0 <= i < |ss| && Render(ss[i]) == Some(x)
    decreases |ss|
  {
    if |ss| > 0 {
      ReplacementsMembership(ss[1..], x);
      if x in Replacements(ss) && Render(ss[0]) != Some(x) {
        var i :| 0 <= i < |ss[1..]| && Render(ss[1..][i]) == Some(x);
        assert Render(ss[i + 1]) == Some(x);
      }
      if exists i :: 0 <= i < |ss| && Render(ss[i]) == Some(x) {
        var i :| 0 <= i < |ss| && Render(ss[i]) == Some(x);
        if i > 0 {
          assert Render(ss[1..][i - 1]) == Some(x);
        }
      }
    }
  }

  /** `from_lint` subtracts the start from the clamped end as `usize`: the
      start must not lie beyond it. */
  predicate WellPlaced(text: string, span: Span)
  {
    span.start <= Min(span.end, Utf8Len(text))
  }

  /** `JSONSuggestion::from_lint`: the range is the lint's span with its end
      clamped to the text's byte length; the kind is the lower-cased kind
      name, the message is copied. */
  function FromLint(text: string, lint: Lint): (j: JsonSuggestion)
    requires WellPlaced(text, lint.span)
    ensures j.offset == lint.span.start
    ensures j.offset + j.length == Min(lint.span.end, Utf8Len(text))
    ensures j.offset + j.length <= Utf8Len(text)
    ensures lint.span.end <= Utf8Len(text) ==> Span(j.offset, j.offset + j.length) == lint.span
    ensures lint.span.end > Utf8Len(text) ==> j.offset + j.length == Utf8Len(text)
    ensures j.message == lint.message
    ensures |j.kind| == |lint.kindName|
    ensures forall i :: 0 <= i < |j.kind| ==> j.kind[i] == LowerChar(lint.kindName[i])
    ensures forall i :: 0 <= i < |j.kind| ==> !IsAsciiUpper(j.kind[i])
    ensures Lowercase(j.kind) == j.kind
    ensures j.replacements == Replacements(lint.suggestions)
    ensures forall x :: x in j.replacements <==> exists i :: 0 <= i < |lint.suggestions| && Render(lint.suggestions[i]) == Some(x)
  {
    var start := lint.span.start;
    var end := Min(lint.span.end, Utf8Len(text));
    var replacements := Replacements(lint.suggestions);
    forall x
      ensures x in replacements <==> exists i :: 0 <= i < |lint.suggestions| && Render(lint.suggestions[i]) == Some(x)
    {
      ReplacementsMembership(lint.suggestions, x);
    }
    LowercaseIdempotent(lint.kindName);
    JsonSuggestion(Lowercase(lint.kindName), lint.message, start, end - start, replacements)
  }

  /** Lower-casing a lower-cased name changes nothing. */
  lemma {:induction false} LowercaseIdempotent(s: string)
    ensures Lowercase(Lowercase(s)) == Lowercase(s)
  {
    var l := Lowercase(s);
    var ll := Lowercase(l);
    assert forall i :: 0 <= i < |l| ==> ll[i] == LowerChar(l[i]) == l[i];
  }

  /** `many_from_lints`: one suggestion per lint, in order, each inside the
      text. */
  function ManyFromLints(text: string, lints: seq<Lint>): (r: seq<JsonSuggestion>)
    requires forall i :: 0 <= i < |lints| ==> WellPlaced(text, lints[i].span)
    ensures |r| == |lints|
    ensures forall i :: 0 <= i < |r| ==> r[i] == FromLint(text, lints[i])
    ensures forall i :: 0 <= i < |r| ==>
              && r[i].offset == lints[i].span.start
              && r[i].offset + r[i].length <= Utf8Len(text)
              && r[i].message == lints[i].message
              && r[i].replacements == Replacements(lints[i].suggestions)
  {
    if |lints| == 0 then []
    else [FromLint(text, lints[0])] + ManyFromLints(text, lints[1..])
  }
}
