/** `T5GrammarCorrector::correct_grammar` and `T5Corrector` of
    lserver/src/lang/t5_native.rs: "grammar: " is prepended, input ids
    beyond the cap are dropped, the decode loop runs at most 80 steps and a
    failed decoder run ends it early without an error. The next token is
    picked by a repetition-penalised top-k sampling rule over floating-point
    probabilities; that rule is left abstract, so here a decoder step yields
    the chosen token directly. */
module T5Native {
  import opened Outcomes
  import opened Text
  import opened Generation

  /** `max_length = 80`. */
  const DecodeSteps := 80

  /** The next-token function the loop runs on, for fixed encoder output. */
  function StepOracle<Ctx>(m: Model<Ctx, int>, ctx: Ctx): seq<int> -> Step<int>
  {
    prefix => m.decoder(ctx, prefix)
  }

  /** What `run_decoder_generation` and the rest of `correct_grammar`
      deliver once the encoder has run: `tokens` (seed included) is what
      the loop built from `next` within `budget` steps, and it stopped only
      at the budget, at EOS, at a failed decoder run, or at another step
      failure. That last case is the only error; otherwise the result is
      the trimmed decoding of the tokens after the seed, with `changed`
      meaning "non-empty and different once trimmed". */
  ghost predicate GenerationOutcome(next: seq<int> -> Step<int>, decode: seq<int> -> Option<string>,
                                    text: string, budget: nat, tokens: seq<int>,
                                    r: Result<(string, bool), Error>)
  {
    && FollowsOracle(next, tokens)
    && |tokens| <= budget + 1
    && (r == Err(DecoderFailed) <==> |tokens| <= budget && next(tokens) == OutputError)
    && (r != Err(DecoderFailed) ==>
          var output := DetokenizeAfterSeed(decode, tokens);
          r == Ok((output, ChangedNonEmpty(output, text))))
    && (r.Ok? ==> |tokens| == budget + 1 || next(tokens) == Next(EosToken) || next(tokens) == RunFailed)
  }

  /** What the t5 `correct_grammar` delivers for `text`, stage by stage.
      Over-long input is truncated, never refused, and a detokenize failure
      gives the empty text, not an error; a failed tokenization or encoder
      run is reported as such, after the encoder only a failed decoder step
      is an error, and `changed` means "non-empty and different once
      trimmed". */
  ghost predicate StageOutcome<Ctx>(m: Model<Ctx, int>, text: string, r: Result<(string, bool), Error>)
  {
    && r != Err(InputTooLong) && r != Err(DecodeFailed)
    && (m.encode(TaskPrefix + text).None? ==> r == Err(TokenizationFailed))
    && ((m.encode(TaskPrefix + text).Some?
         && m.encoder(TruncateIds(m.encode(TaskPrefix + text).value)).None?) ==> r == Err(EncoderFailed))
    && ((m.encode(TaskPrefix + text).Some?
         && m.encoder(TruncateIds(m.encode(TaskPrefix + text).value)).Some?) ==>
          r.Ok? || r == Err(DecoderFailed))
    && (r.Ok? ==> (r.value.1 <==> ChangedNonEmpty(r.value.0, text)))
  }

  /** Once the encoder has run, the loop outcome for `budget` steps decides
      the result, from the generated `tokens`. */
  ghost predicate LoopOutcome<Ctx>(m: Model<Ctx, int>, text: string, budget: nat, tokens: seq<int>,
                                   r: Result<(string, bool), Error>)
  {
    (m.encode(TaskPrefix + text).Some?
     && m.encoder(TruncateIds(m.encode(TaskPrefix + text).value)).Some?) ==>
      GenerationOutcome(StepOracle(m, m.encoder(TruncateIds(m.encode(TaskPrefix + text).value)).value),
                        m.decode, text, budget, tokens, r)
  }

  /** The body of `correct_grammar` shared by both t5 revisions, for a
      step budget. */
  method CorrectWithBudget<Ctx>(m: Model<Ctx, int>, text: string, budget: nat)
    returns (r: Result<(string, bool), Error>, ghost tokens: seq<int>)
    ensures StageOutcome(m, text, r)
    ensures LoopOutcome(m, text, budget, tokens, r)
  {
    tokens := [];
    var ids;
    match m.encode(TaskPrefix + text) {
      case None =>
        r := Err(TokenizationFailed);
        return;
      case Some(encoded) =>
        ids := TruncateIds(encoded);
    }
    var ctx;
    match m.encoder(ids) {
      case None =>
        r := Err(EncoderFailed);
        return;
      case Some(hidden) =>
        ctx := hidden;
    }
    var generated, halt := Generate(StepOracle(m, ctx), budget, true);
    tokens := generated;
    if halt == Aborted {
      r := Err(DecoderFailed);
      return;
    }
    var output := DetokenizeAfterSeed(m.decode, generated);
    r := Ok((output, Trim(output) != Trim(text) && output != ""));
  }

  /** `T5GrammarCorrector::correct_grammar` of this revision: the shared
      body with a budget of 80 steps. A failed decoder run before the budget
      is spent still gives a result, and with no token after the seed that
      result is the empty text. */
  method CorrectGrammar<Ctx>(m: Model<Ctx, int>, text: string)
    returns (r: Result<(string, bool), Error>, ghost tokens: seq<int>)
    ensures StageOutcome(m, text, r)
    ensures LoopOutcome(m, text, DecodeSteps, tokens, r)
    ensures r.Ok? && |tokens| == 1 ==> r.value.0 == ""
    ensures (m.encode(TaskPrefix + text).Some?
             && m.encoder(TruncateIds(m.encode(TaskPrefix + text).value)).Some?) ==>
              var next := StepOracle(m, m.encoder(TruncateIds(m.encode(TaskPrefix + text).value)).value);
              |tokens| <= DecodeSteps && next(tokens) == RunFailed ==> r.Ok?
  {
    r, tokens := CorrectWithBudget(m, text, DecodeSteps);
  }

  /** `T5Corrector`: a loaded model, or the fallback when loading failed. */
  datatype T5Corrector<!Ctx> = Loaded(model: Model<Ctx, int>) | Failed

  /** `T5Corrector::correct_grammar`: a failed corrector hands the text
      back unchanged with `changed = false`; a loaded one returns what its
      `correct_grammar` returns, from the tokens it generated. */
  method Correct<Ctx>(c: T5Corrector<Ctx>, text: string)
    returns (r: Result<(string, bool), Error>, ghost tokens: seq<int>)
    ensures c.Failed? ==> r == Ok((text, false))
    ensures c.Loaded? ==> StageOutcome(c.model, text, r)
    ensures c.Loaded? ==> LoopOutcome(c.model, text, DecodeSteps, tokens, r)
  {
    match c {
      case Failed =>
        r := Ok((text, false));
        tokens := [];
      case Loaded(m) =>
        r, tokens := CorrectGrammar(m, text);
    }
  }
}
