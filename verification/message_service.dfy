/**
 * `MessageService for Service`: blank-content validation on create,
 * existence checks before update and delete, and otherwise a straight call
 * into the repository. The repository is the in-memory store of
 * `MockRepository`, so each operation maps a store to a store and a result.
 */
module MessageService {
  import opened Wrappers
  import opened Entities
  import opened Common
  import opened Text
  import opened MockRepository

  /** `create_message`: refuse content that trims to nothing, otherwise insert. */
  function CreateMessage(s: Store, input: InsertMessageInput, now: Timestamp): (r: Step<Message>)
    ensures IsBlank(input.content) ==> r == Step(s, Err(InvalidMessageName))
    ensures !IsBlank(input.content) ==> r == Insert(s, input, now)
  {
    TrimEmptyIffBlank(input.content);
    if Trim(input.content) == [] then Step(s, Err(InvalidMessageName))
    else Insert(s, input, now)
  }

  /** `get_message`: the stored record, or `MessageNotFound` naming the id. */
  function GetMessage(s: Store, id: MessageId): (r: Result<Message, CoreError>)
    ensures r.Err? <==> !Contains(s, id)
    ensures r.Err? ==> r.error == MessageNotFound(id)
    ensures r.Ok? ==> r.value.id == id && r.value in s
  {
    match FindById(s, id)
    case Some(m) => Ok(m)
    case None => Err(MessageNotFound(id))
  }

  /** `list_messages`: exactly the repository's page and total. */
  function ListMessages(s: Store, p: GetPaginated): (r: Result<Page, CoreError>)
    requires p.page >= 1
    ensures r.Ok? && r.value.total == |s|
    ensures r.value == List(s, p)
  {
    Ok(List(s, p))
  }

  /**
   * `update_message`: `MessageNotFound` before any write when the id is
   * unknown, otherwise the repository update. The content is not checked for
   * blankness here.
   */
  function UpdateMessage(s: Store, input: UpdateMessageInput, now: Timestamp): (r: Step<Message>)
    ensures !Contains(s, input.id) ==> r == Step(s, Err(MessageNotFound(input.id)))
    ensures Contains(s, input.id) ==> r == Update(s, input, now) && r.result.Ok?
  {
    if FindById(s, input.id).None? then Step(s, Err(MessageNotFound(input.id)))
    else Update(s, input, now)
  }

  /** `delete_message`: `MessageNotFound` when the id is unknown, otherwise the repository delete. */
  function DeleteMessage(s: Store, id: MessageId): (r: Step<()>)
    ensures !Contains(s, id) ==> r == Step(s, Err(MessageNotFound(id)))
    ensures Contains(s, id) ==> r == Delete(s, id) && r.result.Ok?
  {
    if FindById(s, id).None? then Step(s, Err(MessageNotFound(id)))
    else Delete(s, id)
  }

  /** Content of spaces, tabs and line breaks only is refused and nothing is stored. */
  lemma BlankContentRejected(s: Store, input: InsertMessageInput, now: Timestamp)
    requires forall i :: 0 <= i < |input.content| ==> input.content[i] in " \t\n\r"
    ensures CreateMessage(s, input, now) == Step(s, Err(InvalidMessageName))
  {
    forall i | 0 <= i < |input.content|
      ensures IsWhitespace(input.content[i])
    {
      assert input.content[i] in " \t\n\r";
    }
    assert IsBlank(input.content);
  }

  /** Create followed by get, under a fresh id, returns the record with the same id and content. */
  lemma CreateThenGet(s: Store, input: InsertMessageInput, now: Timestamp)
    requires !Contains(s, input.id) && !IsBlank(input.content)
    ensures var created := CreateMessage(s, input, now);
      && created.result.Ok?
      && GetMessage(created.store, input.id) == Ok(created.result.value)
      && created.result.value.id == input.id
      && created.result.value.content == input.content
  {
    InsertThenFind(s, input, now);
  }

  /** Updating with a content that is all whitespace is accepted: only create checks content. */
  lemma UpdateAcceptsBlankContent(s: Store, id: MessageId, now: Timestamp)
    requires Contains(s, id)
    ensures UpdateMessage(s, UpdateMessageInput(id, Some("  "), None), now).result.Ok?
    ensures UpdateMessage(s, UpdateMessageInput(id, Some("  "), None), now).result.value.content == "  "
  {
  }

  /** Update followed by get returns the updated record. */
  lemma UpdateThenGet(s: Store, input: UpdateMessageInput, now: Timestamp)
    requires Contains(s, input.id)
    ensures var updated := UpdateMessage(s, input, now);
      GetMessage(updated.store, input.id) == updated.result
  {
    UpdateThenFind(s, input, now);
  }

  /** With distinct ids, delete followed by get is `MessageNotFound`. */
  lemma DeleteThenGet(s: Store, id: MessageId)
    requires UniqueIds(s) && Contains(s, id)
    ensures DeleteMessage(s, id).result.Ok?
    ensures GetMessage(DeleteMessage(s, id).store, id) == Err(MessageNotFound(id))
  {
    DeleteThenFind(s, id);
  }

  /** Deleting the same id twice: the second delete is `MessageNotFound`. */
  lemma DeleteTwice(s: Store, id: MessageId)
    requires UniqueIds(s) && Contains(s, id)
    ensures var once := DeleteMessage(s, id).store;
      DeleteMessage(once, id) == Step(once, Err(MessageNotFound(id)))
  {
    DeleteThenFind(s, id);
  }

  /** Every service write keeps the ids of a store distinct, given a fresh id on create. */
  lemma ServiceKeepsIdsUnique(s: Store, c: InsertMessageInput, u: UpdateMessageInput, d: MessageId, now: Timestamp)
    requires UniqueIds(s) && !Contains(s, c.id)
    ensures UniqueIds(CreateMessage(s, c, now).store)
    ensures UniqueIds(UpdateMessage(s, u, now).store)
    ensures UniqueIds(DeleteMessage(s, d).store)
  {
    InsertKeepsIdsUnique(s, c, now);
    UpdateKeepsIdsUnique(s, u, now);
    DeleteKeepsIdsUnique(s, d);
  }
}
