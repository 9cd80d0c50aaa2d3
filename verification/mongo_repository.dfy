/**
 * `MongoMessageRepository`, the adapter of the hexagonal core, with the
 * `messages` collection abstracted as a sequence of documents in natural
 * (insertion) order. Every driver call becomes a filter, sort, skip or limit
 * over that sequence; the clock is the parameter `now`.
 */
module MongoRepository {
  import opened Wrappers
  import opened Uuids
  import opened Entities
  import opened Common
  import opened Sequences

  /** The largest page the adapter hands back. */
  const MaxPageSize: nat := 50

  /** Text of the driver error an `_id` clash is reported with. */
  const DuplicateKeyText: string := "E11000 duplicate key error collection: messages index: _id_"

  /**
   * The `_id` encoding: the message id's sixteen bytes as generic binary. The
   * insert writes it and every filter is built from it.
   */
  function EncodeId(id: MessageId): (key: seq<Byte>)
    ensures |key| == 16
  {
    AsBytes(id.uuid)
  }

  /** Distinct ids are stored under distinct keys, so a filter on the key selects exactly one id. */
  lemma EncodeIdInjective(a: MessageId, b: MessageId)
    ensures EncodeId(a) == EncodeId(b) <==> a == b
  {
    AsBytesInjective(a.uuid, b.uuid);
  }

  /** A stored document: its `_id` and the message fields. */
  datatype Document = Document(key: seq<Byte>, message: Message)

  type Collection = seq<Document>

  /** What a collection operation leaves behind and what it returns. */
  datatype Outcome<T> = Outcome(collection: Collection, result: Result<T, CoreError>)

  /** A page of messages and the number of documents in the whole collection. */
  datatype Page = Page(items: seq<Message>, total: nat)

  /** Every document is stored under the encoding of its own message id. */
  predicate WellKeyed(c: Collection)
  {
    forall i :: 0 <= i < |c| ==> c[i].key == EncodeId(c[i].message.id)
  }

  /** The unique `_id` index. */
  predicate UniqueKeys(c: Collection)
  {
    forall i, j :: 0 <= i < j < |c| ==> c[i].key != c[j].key
  }

  predicate HasKey(c: Collection, key: seq<Byte>)
  {
    exists i :: 0 <= i < |c| && c[i].key == key
  }

  /** Position of the first document whose `_id` equals `key`: what a `{_id: key}` filter selects. */
  function KeyIndex(c: Collection, key: seq<Byte>): (r: Option<nat>)
    ensures r.None? <==> !HasKey(c, key)
    ensures r.Some? ==> r.value < |c| && c[r.value].key == key
    ensures r.Some? ==> forall j :: 0 <= j < r.value ==> c[j].key != key
  {
    if |c| == 0 then None
    else if c[0].key == key then Some(0)
    else
      match KeyIndex(c[1..], key)
      case None =>
        assert forall i :: 1 <= i < |c| ==> c[i] == c[1..][i - 1];
        None
      case Some(k) =>
        assert forall j :: 1 <= j < k + 1 ==> c[j] == c[1..][j - 1];
        Some(k + 1)
  }

  function Messages(c: Collection): (ms: seq<Message>)
    ensures |ms| == |c| && forall i :: 0 <= i < |c| ==> ms[i] == c[i].message
  {
    seq(|c|, i requires 0 <= i < |c| => c[i].message)
  }

  function CreatedAt(m: Message): int
  {
    m.createdAt
  }

  /** The whole collection under `sort({created_at: -1})`. */
  function NewestFirstMessages(c: Collection): (ms: seq<Message>)
    ensures NewestFirst(ms, CreatedAt) && multiset(ms) == multiset(Messages(c)) && |ms| == |c|
  {
    SortNewestFirst(Messages(c), CreatedAt)
  }

  /** The options of a paged find: newest first, then `skip`, then `limit`. */
  datatype FindOptions = FindOptions(skip: nat, limit: nat)

  /**
   * `pagination_options` as written: the limit is capped at 50, while the skip
   * is `(page - 1) * limit` in wrapping `u32` arithmetic on the requested,
   * uncapped limit.
   */
  function PaginationOptions(p: GetPaginated): (o: FindOptions)
    requires p.page >= 1
    ensures o.limit == Min(p.limit, MaxPageSize) && o.limit <= MaxPageSize
    ensures o.skip == WrappingPageOffset(p)
    ensures PageOffset(p) < U32Modulus ==> o.skip == (p.page - 1) * p.limit
  {
    FindOptions(WrappingPageOffset(p), Min(p.limit, MaxPageSize))
  }

  /** `find(filter {}).with_options(o)`: sort newest first, skip, limit. */
  function FindAll(c: Collection, o: FindOptions): seq<Message>
  {
    Limit(Skip(NewestFirstMessages(c), o.skip), o.limit)
  }

  /** A find is newest first, draws on the collection, and holds at most `limit` messages. */
  lemma FindAllFacts(c: Collection, o: FindOptions)
    ensures var items := FindAll(c, o);
      && NewestFirst(items, CreatedAt)
      && (o.limit > 0 ==> |items| <= o.limit)
      && (forall i :: 0 <= i < |items| ==> items[i] in Messages(c))
      && (o == FindOptions(0, 0) ==> items == NewestFirstMessages(c))
  {
    assert FindAll(c, o) == NewestPage(Messages(c), CreatedAt, o.skip, o.limit);
    var items := FindAll(c, o);
    forall i | 0 <= i < |items|
      ensures items[i] in Messages(c)
    {
      assert items[i] in multiset(Messages(c));
    }
  }

  /** With a positive limit, a find is the run of at most `limit` sorted messages after the first `skip`. */
  lemma FindAllSlice(c: Collection, o: FindOptions)
    ensures o.limit > 0 ==> var lo := Min(o.skip, |c|);
      FindAll(c, o) == NewestFirstMessages(c)[lo..Min(lo + o.limit, |c|)]
  {
    if o.limit > 0 {
      LimitedPageIsSlice(NewestFirstMessages(c), FindAll(c, o), o.skip, o.limit);
    }
  }

  /**
   * `list`: the total counts the whole collection (empty filter) whatever
   * the page. The page is the run of newest-first messages after the first
   * `(page - 1) * limit`, a product taken in wrapping `u32` arithmetic on the
   * requested limit, and it holds at most 50 messages.
   */
  function List(c: Collection, p: GetPaginated): (r: Page)
    requires p.page >= 1
    ensures r.total == |c|
    ensures NewestFirst(r.items, CreatedAt)
    ensures p.limit > 0 ==> |r.items| <= MaxPageSize && |r.items| <= p.limit
    ensures p.limit > 0 ==> var lo := Min(WrappingPageOffset(p), |c|);
      r.items == NewestFirstMessages(c)[lo..Min(lo + Min(p.limit, MaxPageSize), |c|)]
    ensures p.limit == 0 ==> r.items == NewestFirstMessages(c)
    ensures forall i :: 0 <= i < |r.items| ==> r.items[i] in Messages(c)
  {
    var o := PaginationOptions(p);
    FindAllFacts(c, o);
    FindAllSlice(c, o);
    UnlimitedOptions(p);
    Page(FindAll(c, o), |c|)
  }

  /** A limit of 0 skips nothing and asks for no limit, whatever the page. */
  lemma UnlimitedOptions(p: GetPaginated)
    requires p.page >= 1
    ensures p.limit == 0 ==> PaginationOptions(p) == FindOptions(0, 0)
  {
  }

  /** Options with the skip computed from the capped limit, without overflow. */
  function CorrectedPaginationOptions(p: GetPaginated): (o: FindOptions)
    requires p.page >= 1
    ensures o.limit == Min(p.limit, MaxPageSize)
    ensures o.skip == (p.page - 1) * o.limit
  {
    var size := Min(p.limit, MaxPageSize);
    FindOptions((p.page - 1) * size, size)
  }

  /** `list` with the corrected options. */
  function ListCorrected(c: Collection, p: GetPaginated): (r: Page)
    requires p.page >= 1
    ensures r.total == |c|
    ensures p.limit > 0 ==> r.items == Window(NewestFirstMessages(c), p.page, Min(p.limit, MaxPageSize))
  {
    var o := CorrectedPaginationOptions(p);
    assert p.limit > 0 ==> FindAll(c, o) == Take(Skip(NewestFirstMessages(c), o.skip), o.limit);
    Page(FindAll(c, o), |c|)
  }

  /**
   * With the corrected options the pages tile the newest-first collection:
   * pages 1 to `k` are its first `k * size` messages, none skipped and none
   * repeated, for any requested limit, 100 included.
   */
  lemma CorrectedPagesTile(c: Collection, limit: U32, k: nat)
    requires 0 < limit && k < U32Modulus
    ensures forall j :: 1 <= j <= k ==>
      ListCorrected(c, GetPaginated(j, limit)).items == Window(NewestFirstMessages(c), j, Min(limit, MaxPageSize))
    ensures var size, sorted := Min(limit, MaxPageSize), NewestFirstMessages(c);
      && Windows(sorted, size, k) == sorted[..Covered(k, size, |sorted|)]
      && Covered(k, size, |sorted|) == Min(k * size, |sorted|)
  {
    WindowsTile(NewestFirstMessages(c), Min(limit, MaxPageSize), k);
  }

  /** No two messages of the collection were created at the same instant. */
  predicate DistinctTimes(c: Collection)
  {
    DistinctKeys(Messages(c), CreatedAt)
  }

  /**
   * MongoDB leaves the order of equal `created_at` values open, and two page
   * queries may break a tie differently. Without ties nothing is left open:
   * every newest-first arrangement of the collection is the model's, so each
   * query pages the same sequence and the tiling above holds for the server.
   */
  lemma AnyNewestFirstOrderIsModel(c: Collection, order: seq<Message>)
    requires DistinctTimes(c)
    requires NewestFirst(order, CreatedAt) && multiset(order) == multiset(Messages(c))
    ensures order == NewestFirstMessages(c)
  {
    DistinctKeysOfPermutation(order, Messages(c), CreatedAt);
    NewestFirstUnique(order, NewestFirstMessages(c), CreatedAt);
  }

  /**
   * As written, a limit of 100 gives page 1 the 50 newest messages and page 2
   * the 101st to 150th: the 51st to 100th are on no page. The corrected
   * options put them on page 2.
   */
  lemma UncappedSkipLeavesGap(c: Collection)
    requires |c| >= 150
    ensures List(c, GetPaginated(1, 100)).items == NewestFirstMessages(c)[..50]
    ensures List(c, GetPaginated(2, 100)).items == NewestFirstMessages(c)[100..150]
    ensures ListCorrected(c, GetPaginated(2, 100)).items == NewestFirstMessages(c)[50..100]
  {
  }

  /**
   * `insert`: the message with the input's fields, unpinned, never updated
   * and created at `now`, appended under the encoded id. An id already
   * present violates the unique `_id` index and is reported as a database
   * error, leaving the collection as it was.
   */
  function Insert(c: Collection, input: InsertMessageInput, now: Timestamp): (r: Outcome<Message>)
    ensures r.result.Err? <==> HasKey(c, EncodeId(input.id))
    ensures r.result.Err? ==> r.collection == c && r.result.error == DatabaseError(DuplicateKeyText)
    ensures r.result.Ok? ==> r.collection == c + [Document(EncodeId(input.id), r.result.value)]
    ensures r.result.Ok? ==>
      && r.result.value.id == input.id && r.result.value.content == input.content
      && r.result.value.channelId == input.channelId && r.result.value.authorId == input.authorId
      && r.result.value.replyTo == input.replyTo && r.result.value.attachments == input.attachments
      && !r.result.value.isPinned && r.result.value.updatedAt.None? && r.result.value.createdAt == now
  {
    if KeyIndex(c, EncodeId(input.id)).Some? then
      Outcome(c, Err(DatabaseError(DuplicateKeyText)))
    else
      var m := NewMessage(input, now);
      Outcome(c + [Document(EncodeId(input.id), m)], Ok(m))
  }

  /** In a well-keyed collection, the `{_id: EncodeId(id)}` filter matches exactly the messages with `id`. */
  lemma KeySelectsId(c: Collection, id: MessageId)
    ensures WellKeyed(c) ==> forall i :: 0 <= i < |c| ==> (c[i].key == EncodeId(id) <==> c[i].message.id == id)
  {
    forall i | 0 <= i < |c|
    {
      EncodeIdInjective(c[i].message.id, id);
    }
  }

  /** `find_by_id`: the message stored under the encoded id, if any. */
  function FindById(c: Collection, id: MessageId): (r: Option<Message>)
    ensures r.None? <==> !HasKey(c, EncodeId(id))
    ensures WellKeyed(c) ==> (r.None? <==> forall i :: 0 <= i < |c| ==> c[i].message.id != id)
    ensures WellKeyed(c) && r.Some? ==> r.value.id == id
  {
    KeySelectsId(c, id);
    match KeyIndex(c, EncodeId(id))
    case None => None
    case Some(i) => Some(c[i].message)
  }

  /** An inserted message is found again under its id: both sides use the same encoding. */
  lemma InsertThenFind(c: Collection, input: InsertMessageInput, now: Timestamp)
    requires Insert(c, input, now).result.Ok?
    ensures FindById(Insert(c, input, now).collection, input.id) == Some(Insert(c, input, now).result.value)
  {
    var c', key := Insert(c, input, now).collection, EncodeId(input.id);
    assert c'[|c|].key == key;
    var k := KeyIndex(c', key).value;
    assert !(k < |c|) by {
      assert forall j :: 0 <= j < |c| ==> c'[j] == c[j];
    }
  }

  /**
   * `update` (find one and update, returning the document after): set the
   * update time, the content and pin flag only when present; no match is
   * `MessageNotFound` and nothing changes.
   */
  function Update(c: Collection, input: UpdateMessageInput, now: Timestamp): (r: Outcome<Message>)
    ensures r.result.Err? <==> !HasKey(c, EncodeId(input.id))
    ensures r.result.Err? ==> r.result.error == MessageNotFound(input.id) && r.collection == c
    ensures r.result.Ok? ==>
      (exists i :: 0 <= i < |c| && c[i].key == EncodeId(input.id)
        && r.result.value == ApplyUpdate(c[i].message, input, now)
        && r.collection == c[i := Document(c[i].key, r.result.value)])
  {
    match KeyIndex(c, EncodeId(input.id))
    case None => Outcome(c, Err(MessageNotFound(input.id)))
    case Some(i) =>
      var m := ApplyUpdate(c[i].message, input, now);
      Outcome(c[i := Document(c[i].key, m)], Ok(m))
  }

  /** `delete` (delete one): a hard delete; zero documents deleted is `MessageNotFound`. */
  function Delete(c: Collection, id: MessageId): (r: Outcome<()>)
    ensures r.result.Err? <==> !HasKey(c, EncodeId(id))
    ensures r.result.Err? ==> r.result.error == MessageNotFound(id) && r.collection == c
    ensures r.result.Ok? ==>
      (exists i :: 0 <= i < |c| && c[i].key == EncodeId(id) && r.collection == c[..i] + c[i + 1..])
  {
    match KeyIndex(c, EncodeId(id))
    case None => Outcome(c, Err(MessageNotFound(id)))
    case Some(i) => Outcome(c[..i] + c[i + 1..], Ok(()))
  }

  /*
   * The collection invariants, well-keyed documents under a unique `_id`,
   * hold after every write.
   */

  lemma InsertKeepsInvariants(c: Collection, input: InsertMessageInput, now: Timestamp)
    requires WellKeyed(c) && UniqueKeys(c)
    ensures WellKeyed(Insert(c, input, now).collection) && UniqueKeys(Insert(c, input, now).collection)
  {
    var r := Insert(c, input, now);
    if r.result.Ok? {
      var d := r.collection;
      assert forall i :: 0 <= i < |c| ==> d[i] == c[i];
      assert d[|c|] == Document(EncodeId(input.id), r.result.value);
    }
  }

  lemma UpdateKeepsInvariants(c: Collection, input: UpdateMessageInput, now: Timestamp)
    requires WellKeyed(c) && UniqueKeys(c)
    ensures WellKeyed(Update(c, input, now).collection) && UniqueKeys(Update(c, input, now).collection)
  {
    match KeyIndex(c, EncodeId(input.id))
    case None =>
    case Some(i) =>
      ReplaceKeepsInvariants(c, i, ApplyUpdate(c[i].message, input, now));
  }

  /** Replacing the message of one document by one with the same id keeps the keys well formed and distinct. */
  lemma ReplaceKeepsInvariants(c: Collection, i: nat, m: Message)
    requires WellKeyed(c) && UniqueKeys(c) && i < |c| && m.id == c[i].message.id
    ensures var d := c[i := Document(c[i].key, m)];
      WellKeyed(d) && UniqueKeys(d)
  {
    var d := c[i := Document(c[i].key, m)];
    assert forall j :: 0 <= j < |c| ==> d[j].key == c[j].key;
  }

  /** A delete keeps the invariants, and with a unique `_id` the deleted id is no longer found. */
  lemma DeleteKeepsInvariants(c: Collection, id: MessageId)
    requires WellKeyed(c) && UniqueKeys(c)
    ensures WellKeyed(Delete(c, id).collection) && UniqueKeys(Delete(c, id).collection)
    ensures FindById(Delete(c, id).collection, id).None?
  {
    if HasKey(c, EncodeId(id)) {
      var i := KeyIndex(c, EncodeId(id)).value;
      assert Delete(c, id).collection == c[..i] + c[i + 1..];
      RemoveKeepsInvariants(c, i);
    }
  }

  /** Removing one document keeps the keys well formed and distinct, and its key is gone. */
  lemma RemoveKeepsInvariants(c: Collection, i: nat)
    requires WellKeyed(c) && UniqueKeys(c) && i < |c|
    ensures var d := c[..i] + c[i + 1..];
      WellKeyed(d) && UniqueKeys(d) && !HasKey(d, c[i].key)
  {
    var d := c[..i] + c[i + 1..];
    assert forall j :: 0 <= j < i ==> d[j] == c[j];
    assert forall j :: i <= j < |d| ==> d[j] == c[j + 1];
  }
}
