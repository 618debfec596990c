/*
 * Handling one "Generate Summary" request: reject blank input before the
 * model is touched, look up the length preset, call the summarization model
 * with deterministic decoding, format its summary in the chosen tone and
 * derive the statistics; any exception along the way becomes an error
 * message instead of a result.
 */
module Orchestrator {
  import opened StrOps
  import opened ToneFormat
  import opened LengthPresets
  import opened SummaryStats

  /** The arguments of one call of the summarization pipeline. */
  datatype ModelCall = ModelCall(text: string, minLength: nat, maxLength: nat, doSample: bool)

  /** What one call yields: the summary_text of its first result, or the
      message of the exception it raised. */
  datatype ModelReply = Summarized(summaryText: string) | Raised(message: string)

  /** The outcome of a request: a formatted summary with its statistics, the
      blank-input error, or the message of a caught exception. */
  datatype Outcome = Summary(formatted: string, stats: Stats) | EmptyInput | Failure(message: string)

  /** The text the error box shows for an outcome that is not a summary. */
  function ErrorShown(outcome: Outcome): string
    requires !outcome.Summary?
  {
    match outcome
    case EmptyInput => "Please enter some text to summarize."
    case Failure(message) => "Error: " + message
  }

  /** str(KeyError(name)) for a preset name: the name in single quotes. */
  function KeyErrorText(name: string): string {
    "'" + name + "'"
  }

  /** The loaded summarization pipeline: a fixed function from a call to its
      reply (decoding is deterministic), and the calls made on it so far. */
  class Summarizer {
    const model: ModelCall -> ModelReply
    ghost var calls: seq<ModelCall>

    constructor (model: ModelCall -> ModelReply)
      ensures this.model == model && calls == []
    {
      this.model := model;
      calls := [];
    }

    method Invoke(call: ModelCall) returns (reply: ModelReply)
      modifies this
      ensures calls == old(calls) + [call]
      ensures reply == model(call)
    {
      calls := calls + [call];
      reply := model(call);
    }
  }

  /** The calls a request makes on the model: none for blank input or an
      unknown preset, otherwise one, on the whole text, with the preset's
      bounds and sampling off. */
  function CallsFor(text: string, length: string): seq<ModelCall> {
    if Strip(text) == [] then []
    else match Preset(length)
      case None => []
      case Some(p) => [ModelCall(text, p.minLength, p.maxLength, false)]
  }

  /** What a request yields, given what the model answers. */
  function Respond(model: ModelCall -> ModelReply, text: string, tone: string, length: string, pick: IntroIndex): Outcome {
    if Strip(text) == [] then EmptyInput
    else match Preset(length)
      case None => Failure(KeyErrorText(length))
      case Some(p) =>
        match model(ModelCall(text, p.minLength, p.maxLength, false))
        case Raised(message) => Failure(message)
        case Summarized(summary) =>
          var formatted := FormatSummary(summary, tone, pick);
          Summary(formatted, ComputeStats(text, formatted))
  }

  /** One click on "Generate Summary". */
  method Process(summarizer: Summarizer, text: string, tone: string, length: string, pick: IntroIndex)
    returns (outcome: Outcome)
    modifies summarizer
    ensures summarizer.calls == old(summarizer.calls) + CallsFor(text, length)
    ensures outcome == Respond(summarizer.model, text, tone, length, pick)
  {
    if Strip(text) == [] {
      return EmptyInput;
    }
    var params := Preset(length);
    if params.None? {
      return Failure(KeyErrorText(length));
    }
    var result := summarizer.Invoke(ModelCall(text, params.value.minLength, params.value.maxLength, false));
    if result.Raised? {
      return Failure(result.message);
    }
    var formatted := FormatSummary(result.summaryText, tone, pick);
    outcome := Summary(formatted, ComputeStats(text, formatted));
  }

  /** Blank input is rejected with the "Please enter some text" message and
      the model is not called. */
  lemma BlankInputRejected(model: ModelCall -> ModelReply, text: string, tone: string, length: string, pick: IntroIndex)
    requires AllSpace(text)
    ensures Respond(model, text, tone, length, pick) == EmptyInput
    ensures ErrorShown(EmptyInput) == "Please enter some text to summarize."
    ensures CallsFor(text, length) == []
  {
  }

  /** Input with some non-whitespace and a known preset makes exactly one
      model call: on the whole unmodified text, with the table's bounds and
      sampling off. */
  lemma OneCallWithPreset(text: string, length: string)
    requires !AllSpace(text)
    requires length == "Brief" || length == "Medium" || length == "Detailed"
    ensures CallsFor(text, length) == [ModelCall(text, LengthTable[length].minLength, LengthTable[length].maxLength, false)]
  {
  }

  /** A request fails exactly when the input is not blank and either the
      preset is unknown or the model raised; the message shown is then
      "Error: " followed by the exception's text, and there are no statistics. */
  lemma FailureCases(model: ModelCall -> ModelReply, text: string, tone: string, length: string, pick: IntroIndex)
    ensures var out := Respond(model, text, tone, length, pick);
      out.Failure? <==>
        !AllSpace(text) &&
        (Preset(length).None? ||
         model(ModelCall(text, Preset(length).value.minLength, Preset(length).value.maxLength, false)).Raised?)
    ensures var out := Respond(model, text, tone, length, pick);
      out.Failure? && Preset(length).None? ==> ErrorShown(out) == "Error: '" + length + "'"
    ensures var out := Respond(model, text, tone, length, pick);
      out.Failure? && Preset(length).Some? ==>
        ErrorShown(out) == "Error: " + model(ModelCall(text, Preset(length).value.minLength, Preset(length).value.maxLength, false)).message
  {
  }

  /** A successful request shows the model's summary formatted in the chosen
      tone, with the input's length, the formatted summary's length and a
      reduction of at most 100 percent derived from the two. */
  lemma SuccessShape(model: ModelCall -> ModelReply, text: string, tone: string, length: string, pick: IntroIndex)
    ensures var out := Respond(model, text, tone, length, pick);
      out.Summary? ==>
        !AllSpace(text) && Preset(length).Some? &&
        var reply := model(ModelCall(text, Preset(length).value.minLength, Preset(length).value.maxLength, false));
        reply.Summarized? &&
        out.formatted == FormatSummary(reply.summaryText, tone, pick) &&
        out.stats.originalLength == |text| &&
        out.stats.summaryLength == |out.formatted| &&
        out.stats.reduction == Reduction(|text|, |out.formatted|) &&
        out.stats.reduction <= 100
  {
  }

  /** A 500-character input, the Medium preset, the Formal tone and a model
      that answers with 120 characters: 500 and 120 characters, 76 percent. */
  lemma EndToEndExample(model: ModelCall -> ModelReply, text: string, summary: string, pick: IntroIndex)
    requires |text| == 500 && !AllSpace(text) && |summary| == 120
    requires model(ModelCall(text, 50, 130, false)) == Summarized(summary)
    ensures Respond(model, text, "Formal", "Medium", pick) == Summary(summary, Stats(500, 120, 76))
  {
    ReductionExample();
  }
}
