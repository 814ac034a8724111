/**
 * The `POST /generate` handler of the inference server: guard clauses on
 * the decoded request body, checked in a fixed order, then a call to
 * `generate_code` whose `success` flag picks the status.
 */
module Endpoint {

  import opened Text
  import opened Json
  import opened Generation

  const MaxPromptLength := 2000

  const NoJsonError := "Nenhum JSON recebido"
  const EmptyPromptError := "Prompt vazio"
  const PromptTooLongError := "Prompt muito longo (máx 2000 chars)"
  const TemperatureRangeError := "Temperature deve estar entre 0 e 1"

  /** The Python exceptions that the handler's `except Exception` turns into a 500. */
  datatype Crash =
    | BodyUnreadable(message: string)  // `request.get_json()` raised
    | BodyNotObject                    // `data.get` on a truthy value that is not a dict
    | PromptNotString                  // `.strip()` on a prompt that is not a str
    | TemperatureNotNumber             // `0 <= temperature` on a value that is not a number

  /** The JSON the handler answers with. */
  datatype Reply =
    | ErrorReply(error: string)              // `{"error": ...}`
    | CrashReply(crash: Crash)               // `{"error": str(e), "success": False}`
    | ResultReply(result: GenerationResult)  // the dict `generate_code` returned

  datatype Response = Response(reply: Reply, status: nat)

  /** The outcome of the guard clauses: a response, or the arguments for `generate_code`. */
  datatype Validation =
    | Rejected(response: Response)
    | Accepted(prompt: string, maxTokens: Json, temperature: Json)

  /** `data.get('prompt', '')` */
  function PromptField(fields: map<string, Json>): (r: Json)
    ensures "prompt" in fields ==> r == fields["prompt"]
    ensures "prompt" !in fields ==> r == JStr("")
  {
    Get(fields, "prompt", JStr(""))
  }

  /** `data.get('max_tokens', MAX_TOKENS)` */
  function MaxTokensField(fields: map<string, Json>, cfg: Config): (r: Json)
    ensures "max_tokens" in fields ==> r == fields["max_tokens"]
    ensures "max_tokens" !in fields ==> r == JInt(cfg.maxTokens)
  {
    Get(fields, "max_tokens", JInt(cfg.maxTokens))
  }

  /** `data.get('temperature', TEMPERATURE)` */
  function TemperatureField(fields: map<string, Json>, cfg: Config): (r: Json)
    ensures "temperature" in fields ==> r == fields["temperature"]
    ensures "temperature" !in fields ==> r == JFloat(cfg.temperature)
  {
    Get(fields, "temperature", JFloat(cfg.temperature))
  }

  /** The body decoded to a non-empty dict. */
  predicate IsObjectBody(body: ParsedBody) {
    body.Parsed? && body.value.JObject? && body.value.fields != map[]
  }

  /** The body is a non-empty dict whose prompt, read with default `""`, is a string. */
  predicate HasTextPrompt(body: ParsedBody) {
    IsObjectBody(body) && PromptField(body.value.fields).JStr?
  }

  /** The prompt text of such a body, as sent. */
  function PromptText(body: ParsedBody): string
    requires HasTextPrompt(body)
  {
    PromptField(body.value.fields).s
  }

  /** A temperature in the closed interval [0, 1], compared the Python way. */
  predicate InUnitRange(t: Json) {
    NumericValue(t).Some? && 0.0 <= NumericValue(t).value <= 1.0
  }

  /** Every guard of the handler passes. */
  predicate WellFormed(body: ParsedBody, cfg: Config) {
    && HasTextPrompt(body)
    && !AllWhitespace(PromptText(body))
    && |Strip(PromptText(body))| <= MaxPromptLength
    && InUnitRange(TemperatureField(body.value.fields, cfg))
  }

  /**
   * The guard clauses of `generate`, in source order. Each error case below
   * assumes that every earlier guard passed, so a body that fails several
   * checks gets the error of the earliest.
   */
  function Validate(body: ParsedBody, cfg: Config): (v: Validation)
    ensures body.ParseRaised? ==>
      v == Rejected(Response(CrashReply(BodyUnreadable(body.message)), 500))
    ensures body.Parsed? && !Truthy(body.value) ==>
      v == Rejected(Response(ErrorReply(NoJsonError), 400))
    ensures body.Parsed? && Truthy(body.value) && !body.value.JObject? ==>
      v == Rejected(Response(CrashReply(BodyNotObject), 500))
    ensures IsObjectBody(body) && !HasTextPrompt(body) ==>
      v == Rejected(Response(CrashReply(PromptNotString), 500))
    ensures HasTextPrompt(body) && AllWhitespace(PromptText(body)) ==>
      v == Rejected(Response(ErrorReply(EmptyPromptError), 400))
    ensures HasTextPrompt(body) && !AllWhitespace(PromptText(body)) && |Strip(PromptText(body))| > MaxPromptLength ==>
      v == Rejected(Response(ErrorReply(PromptTooLongError), 400))
    ensures HasTextPrompt(body) && !AllWhitespace(PromptText(body)) && |Strip(PromptText(body))| <= MaxPromptLength ==>
      var t := TemperatureField(body.value.fields, cfg);
      && (NumericValue(t).None? ==> v == Rejected(Response(CrashReply(TemperatureNotNumber), 500)))
      && (NumericValue(t).Some? && !InUnitRange(t) ==> v == Rejected(Response(ErrorReply(TemperatureRangeError), 400)))
    ensures v.Accepted? <==> WellFormed(body, cfg)
    ensures v.Accepted? ==>
      && v.prompt == Strip(PromptText(body))
      && 0 < |v.prompt| <= MaxPromptLength
      && v.maxTokens == MaxTokensField(body.value.fields, cfg)
      && v.temperature == TemperatureField(body.value.fields, cfg)
  {
    match body
    case ParseRaised(message) => Rejected(Response(CrashReply(BodyUnreadable(message)), 500))
    case Parsed(data) =>
      if !Truthy(data) then
        Rejected(Response(ErrorReply(NoJsonError), 400))
      else if !data.JObject? then
        Rejected(Response(CrashReply(BodyNotObject), 500))
      else
        match PromptField(data.fields)
        case JStr(raw) =>
          var prompt := Strip(raw);
          StripEmptyIffAllWhitespace(raw);
          if prompt == [] then
            Rejected(Response(ErrorReply(EmptyPromptError), 400))
          else
            var maxTokens := MaxTokensField(data.fields, cfg);
            var temperature := TemperatureField(data.fields, cfg);
            if |prompt| > MaxPromptLength then
              Rejected(Response(ErrorReply(PromptTooLongError), 400))
            else if NumericValue(temperature).None? then
              Rejected(Response(CrashReply(TemperatureNotNumber), 500))
            else if !(0.0 <= NumericValue(temperature).value <= 1.0) then
              Rejected(Response(ErrorReply(TemperatureRangeError), 400))
            else
              Accepted(prompt, maxTokens, temperature)
        case _ => Rejected(Response(CrashReply(PromptNotString), 500))
  }

  /** The `generate` handler, with `MODEL_LOADED` as `loaded` and the tokenizer and model as `model`. */
  function Generate(body: ParsedBody, loaded: bool, cfg: Config, model: LanguageModel): (resp: Response)
    ensures resp.status == 200 || resp.status == 400 || resp.status == 500
    ensures resp.status == 200 <==> WellFormed(body, cfg) && resp.reply.ResultReply? && resp.reply.result.Success()
    ensures resp.status == 400 <==> resp.reply.ErrorReply?
    ensures !WellFormed(body, cfg) ==> !resp.reply.ResultReply? && resp == Validate(body, cfg).response
    ensures WellFormed(body, cfg) ==>
      resp.reply == ResultReply(GenerateCode(Strip(PromptText(body)), MaxTokensField(body.value.fields, cfg),
                                             TemperatureField(body.value.fields, cfg), loaded, cfg, model))
    ensures WellFormed(body, cfg) && !loaded ==> resp == Response(ResultReply(NotLoaded), 500)
  {
    match Validate(body, cfg)
    case Rejected(response) => response
    case Accepted(prompt, maxTokens, temperature) =>
      var result := GenerateCode(prompt, maxTokens, temperature, loaded, cfg, model);
      Response(ResultReply(result), if result.Success() then 200 else 500)
  }

  /**
   * The generator is not consulted for a request the guards reject: the
   * response is the same whatever the model and whether it is loaded.
   */
  lemma RejectedRequestIgnoresModel(body: ParsedBody, cfg: Config, loaded1: bool, model1: LanguageModel, loaded2: bool, model2: LanguageModel)
    requires !WellFormed(body, cfg)
    ensures Generate(body, loaded1, cfg, model1) == Generate(body, loaded2, cfg, model2)
  {
  }

  /** A body that is a dict holding only a prompt. */
  function PromptBody(prompt: string): ParsedBody {
    Parsed(JObject(map["prompt" := JStr(prompt)]))
  }

  /** A non-empty prompt with no whitespace at its ends is sent as it is. */
  lemma TrimmedPromptIsKept(prompt: string)
    requires IsTrimmed(prompt) && prompt != []
    ensures Strip(prompt) == prompt && !AllWhitespace(prompt)
  {
    assert [] + prompt + [] == prompt;
    StripRemovesPadding([], prompt, []);
    StripEmptyIffAllWhitespace(prompt);
  }

  /**
   * The length limit is inclusive: with the configured temperature in range,
   * a prompt is accepted exactly when it has at most 2000 characters.
   */
  lemma PromptLengthLimit(prompt: string, cfg: Config)
    requires IsTrimmed(prompt) && prompt != []
    requires 0.0 <= cfg.temperature <= 1.0
    ensures Validate(PromptBody(prompt), cfg).Accepted? <==> |prompt| <= MaxPromptLength
  {
    var body := PromptBody(prompt);
    assert HasTextPrompt(body) && PromptText(body) == prompt by {
      assert "prompt" in body.value.fields;
    }
    TrimmedPromptIsKept(prompt);
    assert TemperatureField(body.value.fields, cfg) == JFloat(cfg.temperature) by {
      assert "temperature" !in body.value.fields;
    }
    if |prompt| <= MaxPromptLength {
      assert WellFormed(body, cfg);
    } else {
      assert |Strip(PromptText(body))| > MaxPromptLength;
    }
  }

  /** With the shipped configuration, the same inclusive limit of 2000 characters. */
  lemma DefaultPromptLengthLimit(prompt: string)
    requires IsTrimmed(prompt) && prompt != []
    ensures Validate(PromptBody(prompt), DefaultConfig).Accepted? <==> |prompt| <= MaxPromptLength
  {
    PromptLengthLimit(prompt, DefaultConfig);
  }

  /**
   * Both ends of the temperature interval are accepted, and nothing outside it:
   * for a prompt that passes the other checks, a float temperature is
   * accepted exactly when it lies in [0, 1].
   */
  lemma TemperatureInterval(prompt: string, t: real, cfg: Config)
    requires IsTrimmed(prompt) && 0 < |prompt| <= MaxPromptLength
    ensures var body := Parsed(JObject(map["prompt" := JStr(prompt), "temperature" := JFloat(t)]));
      Validate(body, cfg).Accepted? <==> 0.0 <= t <= 1.0
  {
    var fields := map["prompt" := JStr(prompt), "temperature" := JFloat(t)];
    var body := Parsed(JObject(fields));
    assert HasTextPrompt(body) && PromptText(body) == prompt by {
      assert "prompt" in fields;
    }
    TrimmedPromptIsKept(prompt);
    assert TemperatureField(fields, cfg) == JFloat(t);
    if 0.0 <= t <= 1.0 {
      assert WellFormed(body, cfg);
    } else {
      assert !InUnitRange(TemperatureField(fields, cfg));
    }
  }

  /**
   * A temperature of exactly 0 passes the guards but reaches the model as
   * the configured default; any other accepted temperature reaches it as sent.
   */
  lemma ZeroTemperatureFallsBackToDefault(body: ParsedBody, cfg: Config)
    requires WellFormed(body, cfg)
    ensures var t := TemperatureField(body.value.fields, cfg);
      var effective := EffectiveParameters(Validate(body, cfg).maxTokens, Validate(body, cfg).temperature, cfg).temperature;
      && (NumericValue(t) == Some(0.0) ==> effective == JFloat(cfg.temperature))
      && (NumericValue(t) != Some(0.0) ==> effective == t)
  {
  }
}
