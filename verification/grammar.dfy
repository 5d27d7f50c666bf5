/** `GrammarCorrector::correct_grammar` and the `Corrector` fallback of
    lserver/src/lang/grammar.rs: reject over-long input, greedy decoding
    with the last-maximum arg-max for at most 80 steps, any decoder failure
    an error, then the echoed "grammar: " prefix and repeated phrases removed. */
module Grammar {
  import opened Outcomes
  import opened Text
  import opened ArgMax
  import opened Generation
  import Repetition

  /** `for _ in 0..80`. */
  const DecodeSteps := 80

  /** One greedy step: the last index of the largest score. An empty score
      vector makes grammar.rs's `unwrap` panic, which aborts like an error. */
  function LastMaxStep(step: Step<seq<real>>): (r: Step<int>)
    ensures step.RunFailed? <==> r.RunFailed?
    ensures step.Next? && |step.value| > 0 ==>
              r.Next? && 0 <= r.value && IsLastMax(step.value, r.value)
    ensures (step.Next? && |step.value| == 0) || step.OutputError? ==> r == OutputError
  {
    match step
    case RunFailed => RunFailed
    case OutputError => OutputError
    case Next(scores) =>
      match LastArgMax(scores)
      case None => OutputError
      case Some(i) => Next(i)
  }

  /** The next-token function the loop runs on, for fixed encoder output. */
  function GreedyOracle<Ctx>(m: Model<Ctx, seq<real>>, ctx: Ctx): seq<int> -> Step<int>
  {
    prefix => LastMaxStep(m.decoder(ctx, prefix))
  }

  /** `raw_result[9..]` when the text starts with "grammar: ". */
  function StripTaskPrefix(raw: string): (r: string)
    ensures StartsWith(raw, TaskPrefix) ==> TaskPrefix + r == raw
    ensures !StartsWith(raw, TaskPrefix) ==> r == raw
  {
    if StartsWith(raw, TaskPrefix) then
      assert raw == raw[..|TaskPrefix|] + raw[|TaskPrefix|..];
      raw[|TaskPrefix|..]
    else raw
  }

  /** An echoed prefix is removed exactly once. */
  lemma StripEchoedPrefix(s: string)
    ensures StripTaskPrefix(TaskPrefix + s) == s
  {
    assert (TaskPrefix + s)[..|TaskPrefix|] == TaskPrefix;
  }

  /** The text-level post-processing of a decoded result. */
  function Postprocess(raw: string): string
  {
    Repetition.RemoveRepetitions(StripTaskPrefix(raw))
  }

  /** What `GrammarCorrector::correct_grammar` delivers for `text`, stage
      by stage. Each error comes from its stage: tokenization, more than 256
      ids (refused before the encoder runs), the encoder; once the encoder
      has run only a failed decoder step or a detokenize failure is left as
      an error. `changed` compares trimmed texts. */
  ghost predicate StageOutcome<Ctx>(m: Model<Ctx, seq<real>>, text: string, r: Result<(string, bool), Error>)
  {
    && (m.encode(text).None? ==> r == Err(TokenizationFailed))
    && (m.encode(text).Some? && |m.encode(text).value| > MaxInputTokens ==> r == Err(InputTooLong))
    && ((m.encode(text).Some? && |m.encode(text).value| <= MaxInputTokens
         && m.encoder(m.encode(text).value).None?) ==> r == Err(EncoderFailed))
    && (r.Ok? ==> (r.value.1 <==> Trim(r.value.0) != Trim(text)))
    && ((m.encode(text).Some? && |m.encode(text).value| <= MaxInputTokens
         && m.encoder(m.encode(text).value).Some?) ==>
          r.Ok? || r == Err(DecoderFailed) || r == Err(DecodeFailed))
  }

  /** How the result of `correct_grammar` follows from `tokens`, the
      generated sequence (seed included) it was decoded from. A loop that
      met EOS or spent its budget ends in `Ok` or a detokenize failure, so
      a failed decoder step is always an error here. */
  ghost predicate LoopOutcome<Ctx>(m: Model<Ctx, seq<real>>, text: string, tokens: seq<int>,
                                   r: Result<(string, bool), Error>)
  {
    && (r == Err(DecodeFailed) ==> |tokens| >= 1 && m.decode(tokens[1..]).None?)
    && (r.Ok? || r == Err(DecoderFailed) || r == Err(DecodeFailed) ==>
          && m.encode(text).Some? && |m.encode(text).value| <= MaxInputTokens
          && m.encoder(m.encode(text).value).Some?
          && var next := GreedyOracle(m, m.encoder(m.encode(text).value).value);
          && FollowsOracle(next, tokens)
          && |tokens| <= DecodeSteps + 1
          && (r == Err(DecoderFailed) <==> |tokens| <= DecodeSteps && !next(tokens).Next?)
          && (r != Err(DecoderFailed) ==> |tokens| == DecodeSteps + 1 || next(tokens) == Next(EosToken))
          && (r.Ok? ==> m.decode(tokens[1..]).Some?
                          && r.value.0 == Postprocess(m.decode(tokens[1..]).value)))
  }

  /** `GrammarCorrector::correct_grammar`. */
  method CorrectGrammar<Ctx>(m: Model<Ctx, seq<real>>, text: string)
    returns (r: Result<(string, bool), Error>, ghost tokens: seq<int>)
    ensures StageOutcome(m, text, r)
    ensures LoopOutcome(m, text, tokens, r)
  {
    tokens := [];
    var ids;
    match m.encode(text) {
      case None =>
        r := Err(TokenizationFailed);
        return;
      case Some(encoded) =>
        ids := encoded;
    }
    if |ids| > MaxInputTokens {
      r := Err(InputTooLong);
      return;
    }
    var ctx;
    match m.encoder(ids) {
      case None =>
        r := Err(EncoderFailed);
        return;
      case Some(hidden) =>
        ctx := hidden;
    }
    var generated, halt := Generate(GreedyOracle(m, ctx), DecodeSteps, false);
    tokens := generated;
    if halt == Aborted {
      r := Err(DecoderFailed);
      return;
    }
    match m.decode(generated[1..]) {
      case None =>
        r := Err(DecodeFailed);
      case Some(raw) =>
        var result := Postprocess(raw);
        r := Ok((result, Trim(result) != Trim(text)));
    }
  }

  /** `Corrector`: a loaded model, or the fallback when loading failed. */
  datatype Corrector<!Ctx> = Loaded(model: Model<Ctx, seq<real>>) | Failed

  /** `Corrector::correct_grammar`: a failed corrector hands the text back
      unchanged with `changed = false`; a loaded one returns what its
      `correct_grammar` returns, from the tokens it generated. */
  method Correct<Ctx>(c: Corrector<Ctx>, text: string)
    returns (r: Result<(string, bool), Error>, ghost tokens: seq<int>)
    ensures c.Failed? ==> r == Ok((text, false))
    ensures c.Loaded? ==> StageOutcome(c.model, text, r)
    ensures c.Loaded? ==> LoopOutcome(c.model, text, tokens, r)
  {
    match c {
      case Failed =>
        r := Ok((text, false));
        tokens := [];
      case Loaded(m) =>
        r, tokens := CorrectGrammar(m, text);
    }
  }
}
