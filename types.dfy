/** Data model of the gardening chat application: chat messages, sessions and
    the optional values the handlers pass around. */
module Types {

  /** A value that may be absent (`undefined` / `null` in the application). */
  datatype Option<T> = None | Some(value: T)

  /** Author of a chat message. */
  datatype Role = User | Model

  /** The answer the user gives to "Is this identification correct?". */
  datatype Feedback = Correct | Incorrect

  /** The structured record a model message holds after a successful plant
      identification. `confidence` is whatever number the generator sent
      (nominally a percentage 0-100); the feedback fields are absent until
      the user answers. */
  datatype Identification = Identification(
    plantName: string,
    confidence: real,
    careInstructions: string,
    userFeedback: Option<Feedback>,
    correctedName: Option<string>)

  /** Message content: plain text, an uploaded image with its caption, or an
      identification record. */
  datatype Content =
    | Text(text: string)
    | ImagePrompt(promptText: string, imageUrl: string)
    | PlantIdentification(record: Identification)

  datatype ChatMessage = ChatMessage(role: Role, content: Content)

  /** One conversation thread; `id` is its identity. */
  datatype ChatSession = ChatSession(id: string, title: string, messages: seq<ChatMessage>)

  /** JavaScript truthiness of an optional string: absent and "" are falsy. */
  predicate Truthy(o: Option<string>) {
    o.Some? && o.value != ""
  }
}
