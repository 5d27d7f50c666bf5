/** The earlier revision, lserver/src/lang/t5_native_old.rs: the same
    `correct_grammar` as t5_native.rs, but the decode loop runs at most 40
    steps and picks the next token greedily, as the first index of the
    largest logit. */
module T5NativeOld {
  import opened Outcomes
  import opened ArgMax
  import opened Generation
  import T5Native

  /** `max_length = 40`. */
  const DecodeSteps := 40

  /** `get_next_token_from_logits_slice` applied to one decoder step. */
  function FirstMaxStep(step: Step<seq<real>>): (r: Step<int>)
    ensures step.RunFailed? <==> r.RunFailed?
    ensures step.OutputError? <==> r.OutputError?
    ensures step.Next? && |step.value| > 0 ==> r.Next? && 0 <= r.value && IsFirstMax(step.value, r.value)
    ensures step.Next? && |step.value| == 0 ==> r == Next(0)
  {
    match step
    case RunFailed => RunFailed
    case OutputError => OutputError
    case Next(scores) => Next(FirstArgMax(scores))
  }

  /** The collaborators with greedy selection folded into the decoder step. */
  function Greedy<Ctx>(m: Model<Ctx, seq<real>>): (g: Model<Ctx, int>)
    ensures g.encode == m.encode && g.decode == m.decode && g.encoder == m.encoder
  {
    Model(m.encode, m.decode, m.encoder, (ctx, prefix) => FirstMaxStep(m.decoder(ctx, prefix)))
  }

  /** `T5GrammarCorrector::correct_grammar` of this revision: the shared
      body with greedy first-maximum selection and a budget of 40 steps.
      Every token after the seed is the first maximum of the logits the
      decoder gave for the tokens before it, and none is EOS. */
  method CorrectGrammar<Ctx>(m: Model<Ctx, seq<real>>, text: string)
    returns (r: Result<(string, bool), Error>, ghost tokens: seq<int>)
    ensures T5Native.StageOutcome(Greedy(m), text, r)
    ensures T5Native.LoopOutcome(Greedy(m), text, DecodeSteps, tokens, r)
    ensures r.Ok? && |tokens| == 1 ==> r.value.0 == ""
    ensures (m.encode(TaskPrefix + text).Some?
             && m.encoder(TruncateIds(m.encode(TaskPrefix + text).value)).Some?) ==>
              var ctx := m.encoder(TruncateIds(m.encode(TaskPrefix + text).value)).value;
              && (forall i :: 1 <= i < |tokens| ==>
                    && tokens[i] != EosToken
                    && m.decoder(ctx, tokens[..i]).Next?
                    && (|m.decoder(ctx, tokens[..i]).value| > 0 ==>
                          0 <= tokens[i] && IsFirstMax(m.decoder(ctx, tokens[..i]).value, tokens[i])))
              && (|tokens| <= DecodeSteps && m.decoder(ctx, tokens).RunFailed? ==> r.Ok?)
  {
    r, tokens := T5Native.CorrectWithBudget(Greedy(m), text, DecodeSteps);
  }

  /** `T5Corrector` of this revision. */
  datatype T5Corrector<!Ctx> = Loaded(model: Model<Ctx, seq<real>>) | Failed

  /** `T5Corrector::correct_grammar`: a failed corrector hands the text
      back unchanged with `changed = false`; a loaded one returns what the
      greedy pipeline on its model returns, from the tokens it generated. */
  method Correct<Ctx>(c: T5Corrector<Ctx>, text: string)
    returns (r: Result<(string, bool), Error>, ghost tokens: seq<int>)
    ensures c.Failed? ==> r == Ok((text, false))
    ensures c.Loaded? ==> T5Native.StageOutcome(Greedy(c.model), text, r)
    ensures c.Loaded? ==> T5Native.LoopOutcome(Greedy(c.model), text, DecodeSteps, tokens, r)
  {
    match c {
      case Failed =>
        r := Ok((text, false));
        tokens := [];
      case Loaded(m) =>
        r, tokens := CorrectGrammar(m, text);
    }
  }
}
