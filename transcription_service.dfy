/**
 * The boundary to the external transcription service
 * (`openai.audio.transcriptions.create`). The service is a parameter: any
 * function from the request parameters to a transcription record.
 */
module TranscriptionService {
  import opened Wrappers
  import opened Encoding

  /** An uploaded file: its name and its bytes. */
  datatype File = File(name: string, content: seq<byte>)

  /** What a multipart form field holds: a file, or text. */
  datatype Upload = FileUpload(file: File) | TextUpload(text: string)

  /** One speaker turn of a diarized transcript; times in seconds. */
  datatype Segment = Segment(speaker: string, text: string, start: real, end: real)

  /** The service's reply; `segments` is None when the reply has no `segments` key. */
  datatype Transcription = Transcription(text: string, segments: Option<seq<Segment>>)

  /**
   * The request object; `responseFormat` and `chunkingStrategy` are None when
   * the key is absent from the object.
   */
  datatype CreateParams = CreateParams(
    file: Upload,
    model: string,
    language: string,
    responseFormat: Option<string>,
    chunkingStrategy: Option<string>)

  type Service = CreateParams -> Transcription
}
