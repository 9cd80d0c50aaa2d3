/**
 * The HTTP handlers for messages: the order in which they consult the
 * authorization backend, the service and the ownership rule, and what each
 * outcome leaves in the store. The authorization backend is a function
 * parameter; `DummyAuthz` is the one that allows everything.
 */
module Handlers {
  import opened Wrappers
  import opened Uuids
  import opened Entities
  import opened Common
  import opened Text
  import opened MockRepository
  import opened MessageService
  import opened ApiErrors
  import Responses

  datatype Permission = ViewChannels | SendMessages | ManageMessages | ManageChannels

  datatype Resource = Channel(id: Uuid) | User(id: Uuid)

  datatype AuthzError = AuthzError(reason: string)

  /** `Authorization::check`: may `actor` exercise the permission on the resource? */
  type Authz = (Uuid, Permission, Resource) -> Result<bool, AuthzError>

  /** The caller, as the authentication middleware establishes it. */
  datatype UserIdentity = UserIdentity(userId: Uuid)

  /** What a handler leaves in the store and what it answers. */
  datatype Exchange<T> = Exchange(store: Store, response: Result<Responses.Response<T>, ApiError>)

  /** `DummyAuthz`: the permissive backend of local runs. */
  const DummyAuthz: Authz := (actor: Uuid, permission: Permission, resource: Resource) => Ok(true)

  /**
   * One authorization check as the handlers perform it: an allowed check
   * goes on, a denied one is `Forbidden`, a failing backend is
   * `InternalServerError`.
   */
  function Authorize(authz: Authz, actor: Uuid, permission: Permission, resource: Resource): (r: Result<(), ApiError>)
    ensures r.Ok? <==> authz(actor, permission, resource) == Ok(true)
    ensures r.Err? ==> (r.error == InternalServerError <==> authz(actor, permission, resource).Err?)
    ensures r.Err? ==> r.error == InternalServerError || r.error == Forbidden
  {
    match authz(actor, permission, resource)
    case Err(_) => Err(InternalServerError)
    case Ok(allowed) => if allowed then Ok(()) else Err(Forbidden)
  }

  /**
   * `create_message`: check `SendMessages` on the request's channel, then
   * create with the caller as author; 201 with the stored record. A denied
   * check or blank content leaves the store as it was.
   */
  function CreateMessage(s: Store, authz: Authz, user: UserIdentity, request: CreateMessageRequest,
                         freshId: MessageId, now: Timestamp): (r: Exchange<Message>)
    ensures var check := Authorize(authz, user.userId, SendMessages, Channel(request.channelId.uuid));
      check.Err? ==> r == Exchange(s, Err(check.error))
    ensures r.response.Ok? <==>
      Authorize(authz, user.userId, SendMessages, Channel(request.channelId.uuid)).Ok? && !IsBlank(request.content)
    ensures r.response.Err? ==> r.store == s
    ensures Authorize(authz, user.userId, SendMessages, Channel(request.channelId.uuid)).Ok? && IsBlank(request.content) ==>
      r.response == Err(BadRequest("Server name cannot be empty"))
    ensures r.response.Ok? ==>
      var m := r.response.value.data;
      && r.response.value.status == 201
      && r.store == s + [m]
      && m.id == freshId && m.authorId == AuthorId(user.userId)
      && m.channelId == request.channelId && m.content == request.content
      && m.replyTo == request.replyTo && m.attachments == request.attachments
  {
    match Authorize(authz, user.userId, SendMessages, Channel(request.channelId.uuid))
    case Err(e) => Exchange(s, Err(e))
    case Ok(_) =>
      var input := CreateInput(request, AuthorId(user.userId), freshId);
      var step := MessageService.CreateMessage(s, input, now);
      match step.result
      case Ok(m) => Exchange(step.store, Ok(Responses.Created(m)))
      case Err(e) => Exchange(step.store, Err(FromCoreError(e)))
  }

  /**
   * `get_message`: look the message up first, then check `ViewChannels` on
   * the message's own channel. A missing message is `NotFound` whoever asks
   * and whatever the backend says; a found one gets `Forbidden` on a denied
   * check and `InternalServerError` when the backend fails.
   */
  function GetMessage(s: Store, authz: Authz, user: UserIdentity, id: MessageId): (r: Result<Responses.Response<Message>, ApiError>)
    ensures !Contains(s, id) ==> r == Err(NotFound)
    ensures Contains(s, id) ==>
      (r.Ok? <==> authz(user.userId, ViewChannels, Channel(FindById(s, id).value.channelId.uuid)) == Ok(true))
    ensures Contains(s, id) && r.Err? ==>
      r.error == Authorize(authz, user.userId, ViewChannels, Channel(FindById(s, id).value.channelId.uuid)).error
    ensures r.Ok? ==> r.value.status == 200 && r.value.data.id == id && r.value.data in s
  {
    match MessageService.GetMessage(s, id)
    case Err(e) => Err(FromCoreError(e))
    case Ok(m) =>
      match Authorize(authz, user.userId, ViewChannels, Channel(m.channelId.uuid))
      case Err(e) => Err(e)
      case Ok(_) => Ok(Responses.Ok(m))
  }

  /**
   * `list_messages`: check `ViewChannels` on the path's channel, then list;
   * the body echoes the page asked for and the service's total. The service
   * pages the whole store, so the channel only decides the authorization.
   */
  function ListMessages(s: Store, authz: Authz, user: UserIdentity, channel: Uuid, p: GetPaginated)
    : (r: Result<Responses.Response<Responses.PaginatedResponse<Message>>, ApiError>)
    requires p.page >= 1
    ensures r.Ok? <==> authz(user.userId, ViewChannels, Channel(channel)) == Ok(true)
    ensures r.Err? ==> r.error == Authorize(authz, user.userId, ViewChannels, Channel(channel)).error
    ensures r.Ok? ==>
      && r.value.status == 200 && r.value.data.page == p.page && r.value.data.total == |s|
      && r.value.data.data == List(s, p).items
  {
    match Authorize(authz, user.userId, ViewChannels, Channel(channel))
    case Err(e) => Err(e)
    case Ok(_) =>
      match MessageService.ListMessages(s, p)
      case Err(e) => Err(FromCoreError(e))
      case Ok(page) => Ok(Responses.Ok(Responses.PaginatedResponse(page.items, page.total, p.page)))
  }

  /** The caller wrote the record: the one ownership rule of update and delete. */
  predicate IsAuthor(s: Store, id: MessageId, user: UserIdentity)
    requires Contains(s, id)
  {
    FindById(s, id).value.authorId.uuid == user.userId
  }

  /**
   * `update_message`: `NotFound` for a missing message, `Forbidden` for a
   * caller who is not its author, and only then the service update. Only a
   * successful update changes the store.
   */
  function UpdateMessage(s: Store, user: UserIdentity, id: MessageId, request: UpdateMessageRequest, now: Timestamp)
    : (r: Exchange<Message>)
    ensures !Contains(s, id) ==> r == Exchange(s, Err(NotFound))
    ensures Contains(s, id) && !IsAuthor(s, id, user) ==> r == Exchange(s, Err(Forbidden))
    ensures r.response.Ok? <==> Contains(s, id) && IsAuthor(s, id, user)
    ensures r.response.Ok? ==>
      && r.response.value.status == 200
      && r.response.value.data == ApplyUpdate(FindById(s, id).value, UpdateInput(request, id), now)
      && r.store == Update(s, UpdateInput(request, id), now).store
  {
    match MessageService.GetMessage(s, id)
    case Err(e) => Exchange(s, Err(FromCoreError(e)))
    case Ok(existing) =>
      if existing.authorId.uuid != user.userId then Exchange(s, Err(Forbidden))
      else
        var step := MessageService.UpdateMessage(s, UpdateInput(request, id), now);
        match step.result
        case Ok(m) => Exchange(step.store, Ok(Responses.Ok(m)))
        case Err(e) => Exchange(step.store, Err(FromCoreError(e)))
  }

  /**
   * `delete_message`: the same order of checks as update; success is 200
   * with an empty body and the record removed.
   */
  function DeleteMessage(s: Store, user: UserIdentity, id: MessageId): (r: Exchange<()>)
    ensures !Contains(s, id) ==> r == Exchange(s, Err(NotFound))
    ensures Contains(s, id) && !IsAuthor(s, id, user) ==> r == Exchange(s, Err(Forbidden))
    ensures r.response.Ok? <==> Contains(s, id) && IsAuthor(s, id, user)
    ensures r.response.Ok? ==>
      && r.response.value == Responses.Response((), 200)
      && r.store == Delete(s, id).store && |r.store| == |s| - 1
  {
    match MessageService.GetMessage(s, id)
    case Err(e) => Exchange(s, Err(FromCoreError(e)))
    case Ok(existing) =>
      if existing.authorId.uuid != user.userId then Exchange(s, Err(Forbidden))
      else
        var step := MessageService.DeleteMessage(s, id);
        match step.result
        case Ok(_) => Exchange(step.store, Ok(Responses.Deleted(())))
        case Err(e) => Exchange(step.store, Err(FromCoreError(e)))
  }

  /** Whatever the channel in the path, an authorized list returns the same page. */
  lemma ListIgnoresChannel(s: Store, user: UserIdentity, a: Uuid, b: Uuid, p: GetPaginated)
    requires p.page >= 1
    ensures ListMessages(s, DummyAuthz, user, a, p) == ListMessages(s, DummyAuthz, user, b, p)
  {
  }

  /**
   * A message created by an authorized caller under a fresh id is then
   * served to any caller allowed to view its channel, unchanged.
   */
  lemma CreateThenGet(s: Store, authz: Authz, author: UserIdentity, reader: UserIdentity,
                      request: CreateMessageRequest, freshId: MessageId, now: Timestamp)
    requires !Contains(s, freshId) && !IsBlank(request.content)
    requires authz(author.userId, SendMessages, Channel(request.channelId.uuid)) == Ok(true)
    requires authz(reader.userId, ViewChannels, Channel(request.channelId.uuid)) == Ok(true)
    ensures var created := CreateMessage(s, authz, author, request, freshId, now);
      && created.response.Ok?
      && GetMessage(created.store, authz, reader, freshId) == Ok(Responses.Ok(created.response.value.data))
  {
    var input := CreateInput(request, AuthorId(author.userId), freshId);
    InsertThenFind(s, input, now);
  }

  /** With distinct ids, once its author has deleted a message, every caller gets `NotFound`. */
  lemma DeleteThenGet(s: Store, authz: Authz, author: UserIdentity, reader: UserIdentity, id: MessageId)
    requires UniqueIds(s) && Contains(s, id) && IsAuthor(s, id, author)
    ensures var deleted := DeleteMessage(s, author, id);
      && deleted.response.Ok?
      && GetMessage(deleted.store, authz, reader, id) == Err(NotFound)
  {
    DeleteThenFind(s, id);
  }

  /**
   * Only the author can change a stored message: an update or delete by
   * anyone else, like any refused create, leaves the store exactly as it was.
   */
  lemma OnlyAuthorChangesStore(s: Store, user: UserIdentity, id: MessageId, request: UpdateMessageRequest, now: Timestamp)
    requires UniqueIds(s)
    ensures UpdateMessage(s, user, id, request, now).store != s ==> Contains(s, id) && IsAuthor(s, id, user)
    ensures DeleteMessage(s, user, id).store != s ==> Contains(s, id) && IsAuthor(s, id, user)
    ensures UniqueIds(UpdateMessage(s, user, id, request, now).store)
    ensures UniqueIds(DeleteMessage(s, user, id).store)
  {
    UpdateKeepsIdsUnique(s, UpdateInput(request, id), now);
    DeleteKeepsIdsUnique(s, id);
  }
}
