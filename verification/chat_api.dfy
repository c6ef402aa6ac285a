/**
 The request and reply shapes of the chat-completion client the OCR drivers
 call. Only the fields the drivers set or read are kept.
 */
module ChatApi {
  /** One part of a user message: text, or an image given by URL. */
  datatype ContentPart = TextPart(text: string) | ImageUrlPart(url: string)

  datatype ChatMessage = SystemMessage(text: string) | UserMessage(parts: seq<ContentPart>)

  /** `ChatCompletionNewParams`: the model and the conversation. */
  datatype ChatRequest = ChatRequest(model: string, messages: seq<ChatMessage>)

  /** A completion reply: the message text of each choice, and the usage counts. */
  datatype ChatCompletion = ChatCompletion(choices: seq<string>, promptTokens: int, completionTokens: int)

  /** What a successful `ExtractText` returns: the first choice's text and the usage counts. */
  datatype Extraction = Extraction(text: string, promptTokens: int, completionTokens: int)
}
