/** The pieces the three `correct_grammar` revisions share: T5's special
    tokens, the input cap, the "grammar: " prefix, the collaborators a loaded
    corrector calls, and the bounded greedy decode loop itself.

    The tokenizer, the encoder session and the decoder session are external;
    a loaded corrector is modelled as the four functions it calls, so every
    statement below holds whatever those functions return. */
module Generation {
  import opened Outcomes
  import opened Text

  /** T5's decoder start (pad) token: the seed of every generated sequence. */
  const StartToken := 0

  /** T5's end-of-sequence token: ends the loop and is never kept. */
  const EosToken := 1

  /** Longest tokenized input the correctors accept or keep. */
  const MaxInputTokens := 256

  /** Task prefix the T5 grammar models read, and may echo back. */
  const TaskPrefix := "grammar: "

  /** One decoder step as the loop sees it.
      `RunFailed`: `decoder_session.run` returned an error.
      `OutputError`: any other failure the loop body propagates with `?`
      (poisoned lock, tensor construction, logits extraction, wrong rank).
      `Next(x)`: the step's output, scores or an already chosen token. */
  datatype Step<+T> = RunFailed | OutputError | Next(value: T)

  /** Why the decode loop stopped. */
  datatype Halt = AtEos | BudgetSpent | RunBroke | Aborted

  /** The errors the correction entry points return. */
  datatype Error = TokenizationFailed | InputTooLong | EncoderFailed | DecoderFailed | DecodeFailed

  /** The collaborators of a loaded corrector: the tokenizer's `encode`
      and `decode`, the encoder session (input ids to hidden states `Ctx`)
      and one decoder step (hidden states and the tokens so far to a step
      outcome carrying `T`). */
  datatype Model<!Ctx, T> = Model(
    encode: string -> Option<seq<int>>,
    decode: seq<int> -> Option<string>,
    encoder: seq<int> -> Option<Ctx>,
    decoder: (Ctx, seq<int>) -> Step<T>)

  /** `tokens` is a sequence the loop can have built from `next`: the seed
      first, then, at every position, the non-EOS token `next` chose for
      the prefix before it. */
  ghost predicate FollowsOracle(next: seq<int> -> Step<int>, tokens: seq<int>)
  {
    && |tokens| >= 1
    && tokens[0] == StartToken
    && forall i :: 1 <= i < |tokens| ==> next(tokens[..i]) == Next(tokens[i]) && tokens[i] != EosToken
  }

  /** The `for step in 0..max_length` loop of `run_decoder_generation`
      (and of `correct_grammar` in grammar.rs). It seeds with the start
      token, asks `next` for a token at most `budget` times, stops without
      appending on EOS, and on a failed decoder run either stops and keeps
      the prefix (`breakOnRunFailure`, the t5 revisions) or aborts
      (grammar.rs). Any other step failure aborts. */
  method Generate(next: seq<int> -> Step<int>, budget: nat, breakOnRunFailure: bool)
    returns (tokens: seq<int>, halt: Halt)
    ensures FollowsOracle(next, tokens)
    ensures |tokens| <= budget + 1
    ensures halt == BudgetSpent <==> |tokens| == budget + 1
    ensures halt == AtEos ==> next(tokens) == Next(EosToken)
    ensures halt == RunBroke ==> breakOnRunFailure && next(tokens) == RunFailed
    ensures halt == Aborted ==>
              next(tokens) == OutputError || (!breakOnRunFailure && next(tokens) == RunFailed)
  {
    tokens := [StartToken];
    var step := 0;
    while step < budget
      invariant step <= budget
      invariant |tokens| == step + 1
      invariant FollowsOracle(next, tokens)
      decreases budget - step
    {
      match next(tokens)
      case RunFailed =>
        halt := if breakOnRunFailure then RunBroke else Aborted;
        return;
      case OutputError =>
        halt := Aborted;
        return;
      case Next(t) =>
        if t == EosToken {
          halt := AtEos;
          return;
        }
        assert forall i :: 1 <= i <= |tokens| ==> (tokens + [t])[..i] == tokens[..i];
        tokens := tokens + [t];
        step := step + 1;
    }
    halt := BudgetSpent;
  }

  /** Input ids cut to the cap, as `input_ids.truncate(256)` does. */
  function TruncateIds(ids: seq<int>): (r: seq<int>)
    ensures |r| == Min(|ids|, MaxInputTokens)
    ensures r == ids[..|r|]
  {
    if |ids| > MaxInputTokens then ids[..MaxInputTokens] else ids
  }

  /** The tail of `run_decoder_generation` in the t5 revisions: with only
      the seed there is nothing to decode and the text is empty; otherwise
      everything after the seed is detokenized and trimmed, and a detokenize
      failure also gives the empty text. */
  function DetokenizeAfterSeed(decode: seq<int> -> Option<string>, tokens: seq<int>): (r: string)
    ensures |tokens| <= 1 ==> r == ""
    ensures |tokens| > 1 && decode(tokens[1..]).None? ==> r == ""
    ensures |tokens| > 1 && decode(tokens[1..]).Some? ==> r == Trim(decode(tokens[1..]).value)
    ensures Trim(r) == r
  {
    if |tokens| <= 1 then ""
    else match decode(tokens[1..])
      case None => ""
      case Some(text) =>
        TrimIdempotent(text);
        Trim(text)
  }

  /** The `changed` flag of the t5 revisions: the output differs from the
      input once both are trimmed, and is not empty. */
  predicate ChangedNonEmpty(output: string, input: string)
  {
    Trim(output) != Trim(input) && output != ""
  }
}
