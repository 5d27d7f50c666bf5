/** Greedy next-token selection over one step's logits, in the two
    tie-breaks the revisions use. Scores are reals: only comparisons are
    involved, and NaN or infinite logits are not modelled. */
module ArgMax {
  import opened Outcomes

  /** `i` holds a largest score. */
  ghost predicate IsMaxAt(s: seq<real>, i: nat)
  {
    i < |s| && forall j :: 0 <= j < |s| ==> s[j] <= s[i]
  }

  /** `i` is the first index holding the largest score. */
  ghost predicate IsFirstMax(s: seq<real>, i: nat)
  {
    IsMaxAt(s, i) && forall j :: 0 <= j < i ==> s[j] < s[i]
  }

  /** `i` is the last index holding the largest score. */
  ghost predicate IsLastMax(s: seq<real>, i: nat)
  {
    IsMaxAt(s, i) && forall j :: i < j < |s| ==> s[j] < s[i]
  }

  /** The largest score is held by exactly one index. */
  ghost predicate MaxAttainedOnce(s: seq<real>)
  {
    forall i: nat, j: nat :: IsMaxAt(s, i) && IsMaxAt(s, j) ==> i == j
  }

  /** One step of the strict-`>` scan of `get_next_token_from_logits_slice`:
      the running best is replaced only by a strictly larger score; `best`
      is `None` while the running maximum is still negative infinity. */
  function FirstMaxFrom(s: seq<real>, i: nat, best: Option<nat>): (r: nat)
    requires i <= |s|
    requires best.None? ==> i == 0
    requires best.Some? ==> IsFirstMax(s[..i], best.value)
    ensures |s| == 0 ==> r == 0
    ensures |s| > 0 ==> IsFirstMax(s, r)
    decreases |s| - i
  {
    if i == |s| then
      if best.None? then 0
      else
        assert s[..i] == s;
        best.value
    else if best.None? || s[i] > s[best.value] then
      FirstMaxFrom(s, i + 1, Some(i))
    else
      FirstMaxFrom(s, i + 1, best)
  }

  /** `get_next_token_from_logits_slice` (t5_native_old.rs): the first index
      of the largest score; 0 for an empty slice. */
  function FirstArgMax(s: seq<real>): (r: nat)
    ensures |s| == 0 ==> r == 0
    ensures |s| > 0 ==> IsFirstMax(s, r)
  {
    FirstMaxFrom(s, 0, None)
  }

  /** One step of `Iterator::max_by` with `partial_cmp`: a later element
      replaces the running best unless it is strictly smaller. */
  function LastMaxFrom(s: seq<real>, i: nat, best: nat): (r: nat)
    requires best < i <= |s|
    requires IsLastMax(s[..i], best)
    ensures IsLastMax(s, r)
    decreases |s| - i
  {
    if i == |s| then
      assert s[..i] == s;
      best
    else if s[best] <= s[i] then
      LastMaxFrom(s, i + 1, i)
    else
      LastMaxFrom(s, i + 1, best)
  }

  /** `iter().enumerate().max_by(..)` (grammar.rs): the last index of the
      largest score, or nothing for an empty slice (where grammar.rs's
      `unwrap` panics). */
  function LastArgMax(s: seq<real>): (r: Option<nat>)
    ensures r.None? <==> |s| == 0
    ensures r.Some? ==> IsLastMax(s, r.value)
  {
    if |s| == 0 then None else Some(LastMaxFrom(s, 1, 0))
  }

  /** The first-maximum and last-maximum selections pick the same token
      exactly when the largest score is attained once. */
  lemma TieBreaksAgreeIffUniqueMax(s: seq<real>)
    requires |s| > 0
    ensures FirstArgMax(s) == LastArgMax(s).value <==> MaxAttainedOnce(s)
  {
    var f := FirstArgMax(s);
    var l := LastArgMax(s).value;
    if f == l {
      forall i: nat, j: nat | IsMaxAt(s, i) && IsMaxAt(s, j)
        ensures i == j
      {
        MaxPositionIsSelected(s, f, i);
        MaxPositionIsSelected(s, f, j);
      }
    } else {
      assert IsMaxAt(s, f) && IsMaxAt(s, l);
    }
  }

  /** With a single selected maximum position, every maximum position is it. */
  lemma MaxPositionIsSelected(s: seq<real>, m: nat, i: nat)
    requires IsFirstMax(s, m) && IsLastMax(s, m)
    requires IsMaxAt(s, i)
    ensures i == m
  {
    assert s[i] == s[m];
  }

  /** The first maximum never comes after the last one. */
  lemma FirstMaxNotAfterLast(s: seq<real>)
    requires |s| > 0
    ensures FirstArgMax(s) <= LastArgMax(s).value
  {
  }
}
