/**
 * The message entity, its identifier wrappers and the request/input records
 * the HTTP layer turns into repository calls.
 */
module Entities {
  import opened Wrappers
  import opened Uuids

  /** A UTC instant; only its order matters to the model. */
  type Timestamp = int

  /*
   * Four identifier kinds, each a single-field wrapper of a UUID. They are
   * distinct Dafny types, so a ChannelId can never stand where a MessageId is
   * expected although both hold the same kind of value.
   */
  datatype MessageId = MessageId(uuid: Uuid) {
    /** `Display`: the hyphenated form of the wrapped UUID. */
    function ToString(): string { Hyphenated(uuid) }
  }

  datatype ChannelId = ChannelId(uuid: Uuid)

  datatype AuthorId = AuthorId(uuid: Uuid)

  datatype AttachmentId = AttachmentId(uuid: Uuid)

  /**
   * The `From` conversions in both directions are the constructor and the
   * field: wrapping then unwrapping gives back the UUID, and unwrapping then
   * wrapping gives back the identifier.
   */
  lemma IdConversionsRoundTrip(u: Uuid, m: MessageId, c: ChannelId, a: AuthorId, t: AttachmentId)
    ensures MessageId(u).uuid == u && MessageId(m.uuid) == m
    ensures ChannelId(u).uuid == u && ChannelId(c.uuid) == c
    ensures AuthorId(u).uuid == u && AuthorId(a.uuid) == a
    ensures AttachmentId(u).uuid == u && AttachmentId(t.uuid) == t
  {
  }

  datatype Attachment = Attachment(id: AttachmentId, name: string, url: string)

  datatype Message = Message(
    id: MessageId,
    channelId: ChannelId,
    authorId: AuthorId,
    content: string,
    replyTo: Option<MessageId>,
    attachments: seq<Attachment>,
    isPinned: bool,
    createdAt: Timestamp,
    updatedAt: Option<Timestamp>
  )

  datatype InsertMessageInput = InsertMessageInput(
    id: MessageId,
    channelId: ChannelId,
    authorId: AuthorId,
    content: string,
    replyTo: Option<MessageId>,
    attachments: seq<Attachment>
  )

  datatype CreateMessageRequest = CreateMessageRequest(
    channelId: ChannelId,
    content: string,
    replyTo: Option<MessageId>,
    attachments: seq<Attachment>
  )

  datatype UpdateMessageInput = UpdateMessageInput(id: MessageId, content: Option<string>, isPinned: Option<bool>)

  datatype UpdateMessageRequest = UpdateMessageRequest(content: Option<string>, isPinned: Option<bool>)

  /**
   * `CreateMessageRequest::into_input`. The source draws the id from
   * `Uuid::new_v4()`; here it is the parameter `freshId`.
   */
  function CreateInput(request: CreateMessageRequest, authorId: AuthorId, freshId: MessageId): (input: InsertMessageInput)
    ensures input.id == freshId && input.authorId == authorId
    ensures input.channelId == request.channelId && input.content == request.content
    ensures input.replyTo == request.replyTo && input.attachments == request.attachments
  {
    InsertMessageInput(freshId, request.channelId, authorId, request.content, request.replyTo, request.attachments)
  }

  /** The request part of an insert input: what the caller supplied. */
  function RequestPart(input: InsertMessageInput): CreateMessageRequest
  {
    CreateMessageRequest(input.channelId, input.content, input.replyTo, input.attachments)
  }

  /**
   * `into_input` loses nothing of the request, and the generated id depends
   * only on the fresh value, never on the request.
   */
  lemma CreateInputKeepsRequest(r1: CreateMessageRequest, r2: CreateMessageRequest, a: AuthorId, freshId: MessageId)
    ensures RequestPart(CreateInput(r1, a, freshId)) == r1
    ensures CreateInput(r1, a, freshId).id == CreateInput(r2, a, freshId).id
    ensures CreateInput(r1, a, freshId) == CreateInput(r2, a, freshId) <==> r1 == r2
  {
    assert RequestPart(CreateInput(r2, a, freshId)) == r2;
  }

  /** `UpdateMessageRequest::into_input`: the path id plus the two optional fields. */
  function UpdateInput(request: UpdateMessageRequest, id: MessageId): (input: UpdateMessageInput)
    ensures input.id == id
    ensures input.content == request.content && input.isPinned == request.isPinned
  {
    UpdateMessageInput(id, request.content, request.isPinned)
  }

  /**
   * The record both repositories store on insert: every input field copied,
   * not pinned, never updated, created at `now`.
   */
  function NewMessage(input: InsertMessageInput, now: Timestamp): (m: Message)
    ensures m.id == input.id && m.channelId == input.channelId && m.authorId == input.authorId
    ensures m.content == input.content && m.replyTo == input.replyTo && m.attachments == input.attachments
    ensures !m.isPinned && m.updatedAt.None? && m.createdAt == now
  {
    Message(input.id, input.channelId, input.authorId, input.content, input.replyTo, input.attachments,
            false, now, None)
  }

  /** The fields an update never touches are the same in `m` and `m'`. */
  predicate SameIdentity(m: Message, m': Message)
  {
    && m'.id == m.id
    && m'.channelId == m.channelId
    && m'.authorId == m.authorId
    && m'.replyTo == m.replyTo
    && m'.attachments == m.attachments
    && m'.createdAt == m.createdAt
  }

  /**
   * A partial update: content and pin flag change only when present, and the
   * update time is always set.
   */
  function ApplyUpdate(m: Message, input: UpdateMessageInput, now: Timestamp): (m': Message)
    ensures SameIdentity(m, m')
    ensures m'.content == (if input.content.Some? then input.content.value else m.content)
    ensures m'.isPinned == (if input.isPinned.Some? then input.isPinned.value else m.isPinned)
    ensures m'.updatedAt == Some(now)
  {
    var content := if input.content.Some? then input.content.value else m.content;
    var pinned := if input.isPinned.Some? then input.isPinned.value else m.isPinned;
    m.(content := content, isPinned := pinned, updatedAt := Some(now))
  }

  /** Applying the same partial update twice at the same instant is applying it once. */
  lemma ApplyUpdateIdempotent(m: Message, input: UpdateMessageInput, now: Timestamp)
    ensures ApplyUpdate(ApplyUpdate(m, input, now), input, now) == ApplyUpdate(m, input, now)
  {
  }

  /** An update with no fields present only refreshes the update time. */
  lemma EmptyUpdateOnlyTouchesTime(m: Message, id: MessageId, now: Timestamp)
    ensures ApplyUpdate(m, UpdateMessageInput(id, None, None), now) == m.(updatedAt := Some(now))
  {
  }
}
