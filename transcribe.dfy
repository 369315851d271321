/**
 * Model choice and request/result shaping for transcription (lib/transcribe.ts).
 */
module Transcribe {
  import opened Wrappers
  import opened TranscriptionService

  /** SUPPORTED_MODELS. */
  const SupportedModels: seq<string> :=
    ["gpt-4o-transcribe", "gpt-4o-mini-transcribe", "gpt-4o-transcribe-diarize", "whisper-1"]

  /** The one model that separates speakers. */
  const DiarizeModel: string := "gpt-4o-transcribe-diarize"

  const DiarizedResponseFormat: string := "diarized_json"
  const AutoChunking: string := "auto"
  const DefaultLanguage: string := "ja"

  /** isValidModel: membership in SUPPORTED_MODELS. */
  predicate IsValidModel(model: string)
    ensures IsValidModel(model) <==>
      model == "gpt-4o-transcribe" || model == "gpt-4o-mini-transcribe" ||
      model == "gpt-4o-transcribe-diarize" || model == "whisper-1"
  {
    model in SupportedModels
  }

  /** TranscriptionModel: the names isValidModel accepts. */
  type TranscriptionModel = m: string | IsValidModel(m) witness "gpt-4o-transcribe"

  /** DEFAULT_MODEL. */
  const DefaultModel: TranscriptionModel := "gpt-4o-transcribe"

  /** The default model is itself a supported model, and it is not the diarize model. */
  lemma DefaultModelIsValid()
    ensures IsValidModel(DefaultModel) && DefaultModel in SupportedModels
    ensures DefaultModel != DiarizeModel
  {
  }

  /**
   * The request object: file, model and language, plus the diarization
   * options exactly when the model is the diarize model.
   */
  function BuildCreateParams(file: Upload, model: string, language: string): (p: CreateParams)
    ensures p.file == file && p.model == model && p.language == language
    ensures p.responseFormat.Some? <==> model == DiarizeModel
    ensures p.chunkingStrategy.Some? <==> model == DiarizeModel
    ensures p.responseFormat.Some? ==>
      p.responseFormat == Some(DiarizedResponseFormat) && p.chunkingStrategy == Some(AutoChunking)
  {
    var isDiarize := model == DiarizeModel;
    CreateParams(file, model, language,
      if isDiarize then Some(DiarizedResponseFormat) else None,
      if isDiarize then Some(AutoChunking) else None)
  }

  /** TranscriptionResult: the transcript, with speaker segments for the diarize model. */
  datatype TranscriptionResult = TranscriptionResult(text: string, segments: Option<seq<Segment>>)

  /**
   * transcribeAudio: omitted arguments take their defaults, the service is
   * asked once, and the result carries its text, plus its segments when the
   * diarize model was used and the reply has them. Returns the request sent
   * along with the result.
   */
  method TranscribeAudio(audio: File, model: Option<TranscriptionModel>, language: Option<string>, service: Service)
    returns (sent: CreateParams, result: TranscriptionResult)
    ensures sent.file == FileUpload(audio)
    ensures sent.model == (if model.Some? then model.value else DefaultModel)
    ensures sent.language == (if language.Some? then language.value else DefaultLanguage)
    ensures IsValidModel(sent.model)
    ensures sent.responseFormat.Some? <==> sent.model == DiarizeModel
    ensures sent.responseFormat.Some? ==>
      sent.responseFormat == Some(DiarizedResponseFormat) && sent.chunkingStrategy == Some(AutoChunking)
    ensures sent.chunkingStrategy.Some? <==> sent.model == DiarizeModel
    ensures result.text == service(sent).text
    ensures result.segments.Some? <==> sent.model == DiarizeModel && service(sent).segments.Some?
    ensures result.segments.Some? ==> result.segments == service(sent).segments
  {
    var chosen: TranscriptionModel := if model.Some? then model.value else DefaultModel;
    var lang := if language.Some? then language.value else DefaultLanguage;
    var isDiarize := chosen == DiarizeModel;
    sent := BuildCreateParams(FileUpload(audio), chosen, lang);
    var transcription := service(sent);
    result := TranscriptionResult(transcription.text, None);
    if isDiarize && transcription.segments.Some? {
      result := result.(segments := transcription.segments);
    }
  }
}
