/**
 * The records the chat application keeps: messages, the web sources a
 * model answer cites, and conversations. Optional fields of the original
 * records are `Option`s.
 */
module ChatTypes {
  import opened Wrappers

  datatype Role = User | Model

  /** A source's publication date; each part may be missing. */
  datatype PublishedDate = PublishedDate(year: Option<int>, month: Option<int>, day: Option<int>)

  /** A web source cited by a model answer, identified by its URI. */
  datatype GroundingChunk = GroundingChunk(uri: string, title: Option<string>, publishedDate: Option<PublishedDate>)

  /** One message; `image` is a data URL of an attached or generated picture. */
  datatype Message = Message(
    role: Role,
    content: string,
    image: Option<string>,
    imageMimeType: Option<string>,
    groundingChunks: Option<seq<GroundingChunk>>)

  datatype Conversation = Conversation(id: string, title: string, messages: seq<Message>, pinned: bool)
}
