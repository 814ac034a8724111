/**
 * `generate_code` of the inference server: the "model not loaded" guard,
 * the substitution of defaults for falsy parameters, the extraction of the
 * reply from the decoded output and the count of generated tokens. The
 * tokenizer and `MODEL.generate` are a function given as a parameter.
 */
module Generation {

  import opened Text
  import opened Json

  /** `MAX_TOKENS` and `TEMPERATURE`, read from the environment at start-up. */
  datatype Config = Config(maxTokens: int, temperature: real)

  /** The values used when the environment sets neither. */
  const DefaultConfig := Config(512, 0.7)

  /** The header that the Llama chat template puts before the model's turn. */
  const Marker := "assistant<|end_header_id|>"

  const NotLoadedError := "Modelo não carregado"

  /**
   * What tokenising the prompt and running the model produce: the number of
   * input tokens, the number of output tokens (the prompt included) and the
   * decoded output; or the message of the exception they raised.
   */
  datatype ModelOutput =
    | Produced(inputLength: nat, outputLength: nat, decoded: string)
    | Raised(message: string)

  /** The tokenizer and the model, given the prompt and the effective `max_new_tokens` and `temperature`. */
  type LanguageModel = (string, Json, Json) -> ModelOutput

  /**
   * The dict `generate_code` returns, timing and GPU memory aside. Its
   * `model_loaded` key is fixed by the constructor: true for `Generated`
   * and `GenerationFailed`, absent for `NotLoaded`.
   */
  datatype GenerationResult =
    | Generated(code: string, tokensGenerated: int)
    | NotLoaded
    | GenerationFailed(error: string)
  {
    /** Its `"success"` entry. */
    predicate Success() {
      Generated?
    }

    /** Its `"code"` entry, empty on both failure paths. */
    function Code(): string {
      if Generated? then code else ""
    }

    /** Its `"error"` entry. */
    function Error(): string
      requires !Generated?
    {
      if NotLoaded? then NotLoadedError else error
    }
  }

  datatype Parameters = Parameters(maxTokens: Json, temperature: Json)

  /** `max_tokens or MAX_TOKENS` and `temperature or TEMPERATURE`. */
  function EffectiveParameters(maxTokens: Json, temperature: Json, cfg: Config): (p: Parameters)
    ensures Truthy(maxTokens) ==> p.maxTokens == maxTokens
    ensures !Truthy(maxTokens) ==> p.maxTokens == JInt(cfg.maxTokens)
    ensures NumericValue(temperature) == Some(0.0) ==> p.temperature == JFloat(cfg.temperature)
    ensures NumericValue(temperature).Some? && NumericValue(temperature) != Some(0.0) ==> p.temperature == temperature
    ensures temperature == JNull ==> p.temperature == JFloat(cfg.temperature)
  {
    Parameters(
      if Truthy(maxTokens) then maxTokens else JInt(cfg.maxTokens),
      if Truthy(temperature) then temperature else JFloat(cfg.temperature))
  }

  /**
   * The reply: when the decoded output holds the assistant header, the text
   * after the piece `split` leaves last, stripped; otherwise the output as it is.
   */
  function ExtractReply(decoded: string): (code: string)
    ensures !Contains(decoded, Marker) ==> code == decoded
    ensures Contains(decoded, Marker) ==> IsTrimmed(code) && !Contains(code, Marker)
  {
    if Contains(decoded, Marker) then
      var parts := Split(decoded, Marker);
      SplitPiecesAvoidSeparator(decoded, Marker);
      StripKeepsAbsence(Last(parts), Marker);
      Strip(Last(parts))
    else
      decoded
  }

  /** `generate_code(prompt, max_tokens, temperature)` with `MODEL_LOADED` as `loaded`. */
  function GenerateCode(prompt: string, maxTokens: Json, temperature: Json, loaded: bool, cfg: Config, model: LanguageModel): (r: GenerationResult)
    ensures !loaded ==> r == NotLoaded && !r.Success() && r.Code() == "" && r.Error() == NotLoadedError
    ensures var p := EffectiveParameters(maxTokens, temperature, cfg);
      var out := model(prompt, p.maxTokens, p.temperature);
      && (r.Success() <==> loaded && out.Produced?)
      && (r.Success() ==> r.code == ExtractReply(out.decoded) && r.tokensGenerated == out.outputLength - out.inputLength)
      && (loaded && out.Raised? ==> r.Code() == "" && r.Error() == out.message)
  {
    if !loaded then
      NotLoaded
    else
      var p := EffectiveParameters(maxTokens, temperature, cfg);
      match model(prompt, p.maxTokens, p.temperature)
      case Produced(inputLength, outputLength, decoded) =>
        Generated(ExtractReply(decoded), outputLength - inputLength)
      case Raised(message) =>
        GenerationFailed(message)
  }

  /** No two occurrences of the header overlap: `>` appears in it only as its last character. */
  lemma MarkerOccurrencesDisjoint(s: string, i: int, j: int)
    requires OccursAt(s, Marker, i) && OccursAt(s, Marker, j)
    requires i < j
    ensures i + |Marker| <= j
  {
    var n := |Marker|;
    OccursAtChars(s, Marker, i);
    OccursAtChars(s, Marker, j);
    assert forall t | 0 <= t < n - 1 :: Marker[t] != '>';
    ghost var c := s[i + n - 1];
  }

  /** The piece `split` leaves last starts right after the last occurrence of the header. */
  lemma LastPieceFollowsLastMarker(decoded: string, k: int)
    requires OccursAt(decoded, Marker, k)
    requires forall j :: k < j ==> !OccursAt(decoded, Marker, j)
    ensures Last(Split(decoded, Marker)) == decoded[k + |Marker|..]
  {
    var c := LastCut(decoded, Marker, 0);
    SplitLastPiece(decoded, Marker);
    assert Contains(decoded, Marker) by {
      FindFirst(decoded, Marker, 0);
    }
    if c - |Marker| < k {
      MarkerOccurrencesDisjoint(decoded, c - |Marker|, k);
      assert false;
    }
  }

  /**
   * The reference meaning of the extraction: when `k` is the last place
   * the header occurs, the reply is the text after it, stripped.
   */
  lemma ReplyFollowsLastMarker(decoded: string, k: int)
    requires OccursAt(decoded, Marker, k)
    requires forall j :: k < j ==> !OccursAt(decoded, Marker, j)
    ensures ExtractReply(decoded) == Strip(decoded[k + |Marker|..])
  {
    FindFirst(decoded, Marker, 0);
    LastPieceFollowsLastMarker(decoded, k);
  }
}
