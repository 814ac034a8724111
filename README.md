# Generation endpoint of the inference server, modelled in Dafny

The inference server (`ia-server/app.py`) loads a quantised Llama model and
serves it over HTTP. This project models the decision logic inside it:

* the `POST /generate` handler (`generate`): guard clauses on the decoded
  request body, checked in a fixed order (no or falsy body, empty prompt,
  prompt over 2000 characters, temperature outside [0, 1]); the exceptions
  its `except Exception` turns into a 500; and the mapping of the
  generator's `success` flag to status 200 or 500;
* the pure parts of `generate_code`: the "model not loaded" guard, the
  substitution of configured defaults for falsy `max_tokens` and
  `temperature`, the extraction of the reply as the text after the last
  `assistant<|end_header_id|>` header, stripped, and the count of generated
  tokens.

Modules, one per concern:

* `Text` (`text.dfy`): Python's `str.strip()` (over the exact set of
  characters `str.isspace()` accepts), `in` on strings, `str.find` and
  `str.split` with a non-empty separator, written as scans over indices
  that give the same results as CPython, with their reference
  characterisations.
* `Json` (`json.dfy`): the value `request.get_json()` returns, with Python
  truthiness, `dict.get` and the numeric reading of `0 <= x <= 1` (a `bool`
  compares as 0 or 1; a string, list, dict or `None` raises `TypeError`).
* `Generation` (`generation.dfy`): `generate_code`.
* `Endpoint` (`endpoint.dfy`): `generate`.

The tokenizer together with `MODEL.generate` is a function parameter
(`LanguageModel`): given the prompt and the effective `max_tokens` and
`temperature`, it returns the input and output token counts and the
decoded text, or the message of the exception it raised. `MODEL_LOADED`
is a parameter, and `MAX_TOKENS` and `TEMPERATURE` form a `Config`
(`DefaultConfig` holds 512 and 0.7, the values used when the environment
sets neither).

`generate` validates only the body, the prompt and the temperature. It
passes `max_tokens` on unchecked. A body that `get_json()` cannot read
raises inside the `try` and therefore gives 500, not a client error.

## Model

| member | source | states |
|---|---|---|
| `Endpoint.Validate` | ia-server/app.py:242-260 | The guards in source order, each case assuming the earlier ones passed: get_json raising gives 500; a falsy body (null, false, 0, "", [], {}) gives 400 "Nenhum JSON recebido"; a truthy non-dict gives 500; a prompt that is not a string gives 500; a missing or all-whitespace prompt gives 400 "Prompt vazio"; a stripped prompt over 2000 characters gives 400; a temperature that is not a number gives 500; one outside [0, 1] gives 400. It accepts exactly the well-formed bodies, and then passes on the stripped prompt, non-empty and at most 2000 characters long. |
| `Endpoint.Generate` | ia-server/app.py:238-275 | The status is always 200, 400 or 500. It is 200 exactly when the body is well formed and the generator succeeded. It is 400 exactly for the guard errors. A rejected body gets the guard's response and never a generator result. A well-formed body gets `generate_code` of the stripped prompt and the requested or default parameters. With the model not loaded, a well-formed body gets 500 with the not-loaded result. |
| `Endpoint.RejectedRequestIgnoresModel` | ia-server/app.py:242-263 | For a body the guards reject, the response is the same whatever the model and whether it is loaded: the generator is not called. |
| `Endpoint.PromptLengthLimit` | ia-server/app.py:256-257 | With an in-range configured temperature, a body holding only a non-empty prompt with no surrounding whitespace is accepted exactly when the prompt has at most 2000 characters, so 2000 passes and 2001 fails. |
| `Endpoint.TemperatureInterval` | ia-server/app.py:259-260 | For a prompt that passes the other guards, a float temperature is accepted exactly when 0 <= t <= 1, so both endpoints are accepted. |
| `Endpoint.ZeroTemperatureFallsBackToDefault` | ia-server/app.py:154 | An accepted temperature of exactly 0 reaches the model as the configured default. Any other accepted temperature reaches it unchanged. |
| `Endpoint.DefaultPromptLengthLimit` | ia-server/app.py:256-257 | With the defaults of lines 37-38 (512 tokens, temperature 0.7), a trimmed, non-empty prompt sent alone is accepted exactly when it has at most 2000 characters. |
| `Endpoint.PromptField` | ia-server/app.py:247 | The prompt as sent when the key is present, the empty string when it is absent. |
| `Endpoint.MaxTokensField` | ia-server/app.py:252 | `max_tokens` as sent when the key is present, `MAX_TOKENS` when it is absent. |
| `Endpoint.TemperatureField` | ia-server/app.py:253 | The temperature as sent when the key is present, `TEMPERATURE` when it is absent. |
| `Generation.GenerateCode` | ia-server/app.py:144-220 | Not loaded: `success` false, error "Modelo não carregado", empty code. Loaded: success exactly when the model produced output. On success the code is the extracted reply and `tokens_generated` is the output length minus the input length. When the model raised, the code is empty and the error is the exception's message. |
| `Generation.EffectiveParameters` | ia-server/app.py:153-154 | A truthy `max_tokens` is used as sent; a falsy one (0, null, …) is replaced by `MAX_TOKENS`. A numeric temperature equal to 0 is replaced by `TEMPERATURE`, any other numeric temperature is kept, and null is replaced. |
| `Generation.ExtractReply` | ia-server/app.py:193-196 | Without the header the decoded text is returned unchanged. With it, the reply has no whitespace at either end and contains no header. |
| `Generation.ReplyFollowsLastMarker` | ia-server/app.py:193-194 | If `k` is the last index at which the header occurs, the reply is the text after that occurrence, stripped. |
| `Generation.LastPieceFollowsLastMarker` | ia-server/app.py:194 | `split(header)[-1]` starts right after the last occurrence of the header. |
| `Generation.MarkerOccurrencesDisjoint` | ia-server/app.py:194 | Two occurrences of the header never overlap, so the left-to-right split and "after the last occurrence" agree. |
| `Text.IsWhitespace` | ia-server/app.py:247 | The characters `strip()` removes here and at line 194 are exactly the code points CPython's `str.isspace()` accepts: U+0009 to U+000D, U+001C to U+001F, U+0020, U+0085, U+00A0, U+1680, U+2000 to U+200A, U+2028, U+2029, U+202F, U+205F and U+3000, listed one by one. |
| `Text.SkipWhitespace` | ia-server/app.py:247 | The left scan of `strip()` stops at the first character from its start that is not whitespace, or at the end; everything it passed is whitespace. |
| `Text.SkipWhitespaceBack` | ia-server/app.py:247 | The right scan of `strip()` stops just after the last character that is not whitespace, never below the left scan's stop; everything it passed is whitespace. |
| `Text.SkipWhitespaceAt` | ia-server/app.py:247 | The left scan's stop is the only index with those two properties. |
| `Text.SkipWhitespaceBackAt` | ia-server/app.py:247 | The right scan's stop is the only index with those two properties. |
| `Text.Strip` | ia-server/app.py:247 | The result has no whitespace at either end and sits inside the input with only whitespace around it. |
| `Text.StripRemovesPadding` | ia-server/app.py:247 | For any text with no whitespace at its ends, surrounded by any whitespace, `strip()` returns exactly that text. |
| `Text.StripEmptyIffAllWhitespace` | ia-server/app.py:247-250 | `strip()` gives the empty string exactly when the input is all whitespace, empty input included. |
| `Text.StripIdempotent` | ia-server/app.py:247 | Stripping twice is stripping once. |
| `Text.StripKeepsAbsence` | ia-server/app.py:194 | Stripping a text that does not contain the separator gives a text that does not contain it either. |
| `Text.FindFirst` | ia-server/app.py:193-194 | The search from a start index finds an occurrence with none between the start and it, and finds nothing exactly when there is no occurrence from the start on. |
| `Text.ContainsIffOccurs` | ia-server/app.py:193 | `sep in s` holds exactly when the separator occurs at some index. |
| `Text.SliceKeepsAbsence` | ia-server/app.py:194 | A slice of a text without the separator is without it too. |
| `Text.Find` | ia-server/app.py:193 | An index found lies at or after the start, with the separator fitting in the text before the end. |
| `Text.Contains` | ia-server/app.py:193 | The empty string is in every text, and a separator longer than the text is never in it. |
| `Text.SplitFrom` | ia-server/app.py:194 | `split` of the text from a start index yields at least one piece. |
| `Text.Split` | ia-server/app.py:194 | `split` yields at least one piece. |
| `Text.SplitSinglePiece` | ia-server/app.py:193-194 | `split` yields exactly one piece, the whole text, when the separator is not in the text, and more than one when it is. |
| `Text.SplitJoinRoundTrip` | ia-server/app.py:194 | Joining the pieces of `split` with the separator gives back the input. |
| `Text.SplitPiecesAvoidSeparator` | ia-server/app.py:194 | No piece of `split` contains the separator. |
| `Text.LastCutBounds` | ia-server/app.py:194 | The last piece runs from its cut to the end of the text, the separator occurs nowhere from the cut on, and a cut after the start comes right after an occurrence. |
| `Text.SplitLastPiece` | ia-server/app.py:194 | `split(sep)[-1]` is the text after the occurrence where the left-to-right split cuts last, or the whole text when the separator does not occur. That is the last occurrence only for a separator that cannot overlap itself, which `Generation.MarkerOccurrencesDisjoint` proves for the header. |
| `Json.NumericValue` | ia-server/app.py:259 | Only bools, ints and floats can be compared with 0 and 1. A bool compares as 0 or 1, an int or a float as itself. For those, the value is truthy exactly when its number is not 0. |
| `Json.Truthy` | ia-server/app.py:244 | As in `if not data` and in the `or` of lines 153-154, a value is falsy exactly when it is `None`, `False`, 0, 0.0, the empty string, the empty list or the empty dict. |
| `Json.Get` | ia-server/app.py:247-253 | `dict.get` gives the stored value when the key is present, `null` included, and the default only when the key is absent. |

## Left out

- Model loading, LoRA adapters, the CUDA check, tokenisation and `MODEL.generate` (ia-server/app.py:45-126, 167-190): foreign ML-library calls, replaced by the `LanguageModel` function parameter.
- The Llama prompt template (ia-server/app.py:159-165): fixed formatting text around the prompt. It is part of what the `LanguageModel` parameter receives, and no behaviour depends on its contents.
- GPU memory figures, `/health`, `/stats`, `/clear-cache` and psutil readings (ia-server/app.py:56-68, 226-236, 277-301): hardware and OS queries.
- Inference timing and `round(...)` of milliseconds (ia-server/app.py:173, 186, 207): wall-clock time and floating point. The result records carry no `inference_time_ms` and no `gpu_memory`. The `model_loaded` key (ia-server/app.py:208, 219) is fixed by the constructor: it is true for `Generated` and `GenerationFailed` and absent for `NotLoaded`.
- Flask routing, `jsonify`, CORS, logging and the environment parsing of the configuration (ia-server/app.py:19-39): I/O plumbing. The configuration is the `Config` parameter.
- The second definition of `generate_code` and the code after `app.run` (ia-server/app.py:329-532): it is never reached while the server runs.
- The text of Python exception messages in the 500 replies: the model names the failing step (`Crash`) instead of the message.
- Endpoint.Validate: the JSON constants `NaN`, `Infinity` and `-Infinity` have no counterpart, because `real` has none. Python's `json` accepts all three. As a temperature each fails the range guard and gives 400, as a large real does, so the outcome is the same. As `max_tokens` they reach the model, and `Json` cannot express them. Lone surrogate code points in a prompt have no counterpart either, because Dafny's `char` excludes them.
- Generation.GenerateCode: an exception raised after the model call (for example by `get_gpu_memory`) is not modelled. Only the model call itself can fail.
