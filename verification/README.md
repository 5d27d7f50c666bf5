# Grammar-correction core of quillguard's language server

This project models the part of `lserver` that turns a user's text into
corrections:

- the three revisions of the T5 rewrite pipeline. The `grammar.rs` version
  rejects over-long input, decodes greedily with the last-maximum tie-break
  and treats every decoder failure as an error. The current `t5_native.rs`
  version prepends "grammar: ", truncates the input to 256 tokens,
  samples, and stops quietly when a decoder run fails. The older
  `t5_native_old.rs` version does the same with a first-maximum greedy pick
  and a 40-step budget;
- the bounded decode loop they share, with T5's start token 0 and
  end-of-sequence token 1;
- the post-processing in `grammar.rs`: the echoed `"grammar: "` prefix is
  stripped, then `remove_repetitions` drops a trailing phrase the model
  repeated;
- the `changed` flag, which has two forms;
- the `Failed` corrector fallback;
- the conversion of rule-based lints into the flat suggestion records sent
  to the editor.

The tokenizer, the encoder session and the decoder session are opaque.
A loaded corrector is modelled as the four functions it calls: `encode`,
`decode`, the encoder run, and one decoder step. Every contract holds
whatever those functions return.

Modules, one per file:

- `Outcomes`: `Option`, `Result`.
- `Text`: the Rust string operations used (`split_whitespace`, `join(" ")`,
  `trim`, `trim_end_matches`, `str::len` in UTF-8 bytes, `to_lowercase`).
- `Repetition`: `remove_repetitions`.
- `ArgMax`: the two greedy tie-breaks.
- `Generation`: the shared constants, the collaborators and the decode loop.
- `Grammar`, `T5Native`, `T5NativeOld`: the three `correct_grammar`
  revisions and their corrector enums.
- `Lints`: `lint.rs`.

## Model

| member | source | states |
|---|---|---|
| Text.SplitJoin | lserver/src/lang/grammar.rs:140 | `Join` models `join(" ")`, and this is its partner: re-splitting a single-space join of whitespace-free, non-empty words gives back exactly those words. |
| Text.SplitWhitespace | lserver/src/lang/grammar.rs:99 | Every piece `split_whitespace` yields is non-empty and holds no Unicode white space. |
| Text.TrimIdempotent | lserver/src/lang/t5_native.rs:331 | `Trim` is `TrimEnd` after `TrimStart` (`str::trim`). Trimming an already trimmed text changes nothing. |
| Text.TrimStartSuffix | lserver/src/lang/t5_native.rs:331 | What `trim_start` keeps is a suffix of the text; only leading white space is dropped. |
| Text.TrimEndPunct | lserver/src/lang/grammar.rs:106 | `trim_end_matches(['.', '!', '?'])` leaves a prefix of the word that does not end in `.`, `!` or `?`, and everything removed was one of them. |
| Text.TrimEndPunctAppend | lserver/src/lang/grammar.rs:136 | Pushing a `.` onto a word does not change what remains after trailing punctuation is stripped. |
| Text.Utf8Len | lserver/src/lang/lint.rs:26 | `text.len()` counts UTF-8 bytes: between one and four per character. |
| Text.Lowercase | lserver/src/lang/lint.rs:42 | Lower-casing keeps the length, maps each character on its own, and leaves no ASCII capital. |
| Repetition.FindStart | lserver/src/lang/grammar.rs:117-120 | The inner search returns the first start position whose phrase equals the trailing phrase without overlapping it, or reports that none exists. |
| Repetition.FindRepeat | lserver/src/lang/grammar.rs:111-121 | The outer search returns the longest repeated trailing phrase of 2 up to `len/2` words and the first place it occurs earlier, or reports that no such phrase exists. |
| Repetition.Cleaned | lserver/src/lang/grammar.rs:102-108 | Only the last word changes, and it loses exactly its trailing sentence punctuation. |
| Repetition.EnsurePeriod | lserver/src/lang/grammar.rs:135-137 | A word already ending in `.`, `!` or `?` is left alone; any other word gets exactly one `.` appended. |
| Repetition.PopConjunctions | lserver/src/lang/grammar.rs:125-131 | Popping stops at the longest prefix whose last word is not "and", "or" or "but". Every popped word was one of them. |
| Repetition.TrimWordsShape | lserver/src/lang/grammar.rs:98-156 | `TrimWords` is the word-list part of the pass (grammar.rs:102-155). Its result is never longer than the input. It is a prefix of the input except for the last kept word's trailing punctuation, and it is still whitespace-free words. |
| Repetition.RemoveRepetitions | lserver/src/lang/grammar.rs:98-156 | Under four words the text is returned byte for byte. Otherwise the result is the trimmed word list joined with single spaces, so its words are exactly that list and the pass never adds words. |
| Repetition.LongestRepeatFound | lserver/src/lang/grammar.rs:110-121 | When `k` is the longest repeated trailing phrase length, the search settles on `k`. |
| Repetition.RepeatedPhraseRemoved | lserver/src/lang/grammar.rs:110-140 | When the longest repeated trailing phrase has `k` words, at least those `k` words go. The words popped after them are all conjunctions. The last kept word is not a conjunction and ends a sentence. All earlier words are unchanged. |
| Repetition.NoRepeatKeepsAllWords | lserver/src/lang/grammar.rs:146-155 | With no repeated phrase, every word is kept. A last word that ended in any run of `.`, `!`, `?` now ends in exactly one `.`, and a last word without punctuation is unchanged. |
| Repetition.CutExample | lserver/src/lang/grammar.rs:110-140 | "the cat sat on the mat the mat." trims to "the cat sat on the mat." |
| Repetition.QuestionExample | lserver/src/lang/grammar.rs:146-153 | "how are you today?" comes back as "how are you today.": the question mark is replaced by a period. |
| ArgMax.FirstArgMax | lserver/src/lang/t5_native_old.rs:344-353 | The strict-`>` scan returns the first index of the largest score, and 0 for an empty slice. |
| ArgMax.LastArgMax | lserver/src/lang/grammar.rs:71-73 | `max_by` with `partial_cmp` returns the last index of the largest score. It returns nothing exactly when the slice is empty. |
| ArgMax.TieBreaksAgreeIffUniqueMax | lserver/src/lang/grammar.rs:71-73 | The grammar.rs pick and the t5_native_old.rs pick select the same token if and only if the largest score is attained once. |
| ArgMax.FirstMaxNotAfterLast | lserver/src/lang/t5_native_old.rs:349 | The first-maximum pick never lies after the last-maximum pick. |
| Generation.Generate | lserver/src/lang/t5_native.rs:238-315 | Every generated token is the step function's choice for the prefix before it, and none is EOS. There are at most `budget` steps. The loop stops at the budget exactly when it was spent. EOS, a failed run (break or abort, per revision) and any other failure each end the loop at the current prefix. |
| Generation.TruncateIds | lserver/src/lang/t5_native.rs:103-109 | The ids kept are a prefix of the input, of length `min(len, 256)`. |
| Generation.DetokenizeAfterSeed | lserver/src/lang/t5_native.rs:318-340 | With no token after the seed, or when detokenizing fails, the text is empty. Otherwise it is the trimmed decoding of the tokens after the seed, and it is its own trim. |
| Grammar.LastMaxStep | lserver/src/lang/grammar.rs:65-73 | A step's token is the last maximum of its logits. A failed run stays a failed run. Empty logits (an `unwrap` panic) or an output error abort. |
| Grammar.StripTaskPrefix | lserver/src/lang/grammar.rs:85-89 | A text starting with "grammar: " loses exactly that prefix; any other text is unchanged. |
| Grammar.StripEchoedPrefix | lserver/src/lang/grammar.rs:85-89 | Stripping undoes prefixing: an echoed "grammar: " prefix is removed once. |
| Grammar.CorrectGrammar | lserver/src/lang/grammar.rs:36-96 | Each error is returned at its stage: tokenization, more than 256 ids, the encoder. Once the encoder has run, the result is `Ok`, a failed decoder step (exactly when the loop stopped on a non-token step) or a detokenize failure (exactly when decoding the tokens after the seed fails). Unless a decoder step failed, the greedy last-maximum run stopped on EOS or after spending its 80 steps. The `Ok` value has as its text `Postprocess` (strip "grammar: ", then `remove_repetitions`) of that decoding. `changed` means the trimmed texts differ. |
| Grammar.Correct | lserver/src/lang/grammar.rs:179-184 | A `Failed` corrector returns the text unchanged with `changed = false`. A loaded one returns exactly the outcome of `correct_grammar` on its model, together with the tokens that run generated. |
| T5Native.CorrectWithBudget | lserver/src/lang/t5_native.rs:86-126 | The ids of `"grammar: " + text` are capped at 256, so over-long input is truncated, never refused, and a failed detokenize is not an error. After the encoder runs, the loop stops only at the budget, at EOS, at a failed decoder run or at another step failure. That last case is the only error. Otherwise the result is the trimmed decoding of the generated tokens, and `changed` means non-empty and different once trimmed. |
| T5Native.CorrectGrammar | lserver/src/lang/t5_native.rs:238-340 | The same outcome with a budget of 80 steps. A decoder run that fails ends generation without an error. An empty generation decodes to "". |
| T5Native.Correct | lserver/src/lang/t5_native.rs:432-437 | A `Failed` corrector returns the text unchanged with `changed = false`. A loaded one returns exactly the outcome of `correct_grammar` with an 80-step budget, together with the tokens it generated. |
| T5NativeOld.FirstMaxStep | lserver/src/lang/t5_native_old.rs:344-368 | A step's token is the first maximum of its logits, or 0 when the logits are empty. Failed runs and output errors are passed on. |
| T5NativeOld.CorrectGrammar | lserver/src/lang/t5_native_old.rs:86-123 | The same outcome with a budget of 40 steps and greedy selection. Every generated token is the first maximum of the logits for the tokens before it, and none is EOS. A failed decoder run ends generation without an error. The text is the trimmed decoding, and `changed` means non-empty and different. |
| T5NativeOld.Correct | lserver/src/lang/t5_native_old.rs:405-410 | A `Failed` corrector returns the text unchanged with `changed = false`. A loaded one returns exactly the outcome of `correct_grammar` with greedy first-maximum selection and a 40-step budget, together with the tokens it generated. |
| Lints.Render | lserver/src/lang/lint.rs:31-38 | A replacement renders to its own text, and a removal to nothing (and only a removal). An insertion renders to "INSERT_AFTER: " followed by its text. |
| Lints.RenderInjectiveWithinKind | lserver/src/lang/lint.rs:31-38 | Two suggestions of the same variant with the same rendering are equal. |
| Lints.RenderAmbiguousAcrossKinds | lserver/src/lang/lint.rs:32-37 | A replacement whose text starts with "INSERT_AFTER: " renders exactly like an insertion. |
| Lints.Replacements | lserver/src/lang/lint.rs:28-39 | There are never more replacements than suggestions, and as many exactly when no suggestion is a removal. |
| Lints.ReplacementsAppend | lserver/src/lang/lint.rs:28-39 | The replacement list of concatenated suggestion lists is the concatenation of their replacement lists. |
| Lints.ReplacementsMembership | lserver/src/lang/lint.rs:28-39 | A string is a replacement if and only if some suggestion renders to it. |
| Lints.LowercaseIdempotent | lserver/src/lang/lint.rs:42 | Lower-casing the lower-cased kind name changes nothing. |
| Lints.FromLint | lserver/src/lang/lint.rs:24-48 | `offset` is the span start. `offset + length` is the span end clamped to the text's byte length, so the range is the span itself when the span fits. The message is copied. The kind is the kind name lower-cased character by character. The replacements are the rendered suggestions. |
| Lints.ManyFromLints | lserver/src/lang/lint.rs:50-52 | There is one record per lint, in order, each equal to `from_lint` of its lint: it starts at its lint's span, lies inside the text, and carries its message and replacements. |

## Left out

- Tokenizer, encoder and decoder sessions: they are function parameters.
  Tensor shapes, the attention masks and the position of the last step's
  logits in the flat output are inside the decoder step. Only the step's
  outcome is modelled: a failed run, any other error, or the next scores or
  token.
- The sampling selector of `t5_native.rs`: `get_next_token_from_logits_slice_with_penalty`
  applies a repetition penalty, temperature, softmax and top-k before
  choosing. It works on `f32` and is abstract here: the decoder step returns
  the chosen token.
- Floating point: logits are reals, so NaN and infinities are not modelled.
  In particular grammar.rs's `partial_cmp(..).unwrap()` panic on NaN is not
  modelled.
- Grammar.LastMaxStep: the panics on empty logits (`unwrap`) and on an
  out-of-range logits slice are modelled as an aborting step error, not as
  a process panic.
- Lints.FromLint: requires the span start not to exceed the clamped end.
  `end - start` is a `usize` subtraction that panics in debug builds and
  wraps in release builds; the wrap is not modelled.
- Lints: the rule-based linter, language detection and `JSONSuggestion::new`
  are outside the model. The `LintKind` enumeration is external too: a lint
  carries its kind's `Debug` name as a string. The units of the linter's
  span are taken as given.
- Text.Lowercase: `to_lowercase` is exact only for ASCII letters. Kind
  names are ASCII identifiers.
- Model loading (`new`), the `RwLock`s, logging and the per-token debug
  decoding in the loops: these are I/O or have no effect on results.
- `main.rs`, `state.rs` and `convert_gramformer.py`: the HTTP layer,
  linter configuration and model export are not part of this model.
