/**
 * `MockMessageRepository`: the in-memory reference store behind the
 * service, a vector of messages in insertion order. Each operation is a pure
 * function from the store before to the store after and the value returned.
 */
module MockRepository {
  import opened Wrappers
  import opened Uuids
  import opened Entities
  import opened Common
  import opened Sequences

  type Store = seq<Message>

  /** What a store operation leaves behind and what it returns. */
  datatype Step<T> = Step(store: Store, result: Result<T, CoreError>)

  /** One page of records and the size of the whole store. */
  datatype Page = Page(items: seq<Message>, total: nat)

  predicate Contains(s: Store, id: MessageId)
  {
    exists i :: 0 <= i < |s| && s[i].id == id
  }

  /** Position `i` holds the first record with `id`. */
  predicate FirstWithId(s: Store, id: MessageId, i: int)
  {
    0 <= i < |s| && s[i].id == id && forall j :: 0 <= j < i ==> s[j].id != id
  }

  predicate UniqueIds(s: Store)
  {
    forall i, j :: 0 <= i < j < |s| ==> s[i].id != s[j].id
  }

  /** `iter().position(|m| m.id == id)`. */
  function IndexOf(s: Store, id: MessageId): (r: Option<nat>)
    ensures r.None? <==> !Contains(s, id)
    ensures r.Some? ==> FirstWithId(s, id, r.value)
  {
    if |s| == 0 then None
    else if s[0].id == id then Some(0)
    else
      match IndexOf(s[1..], id)
      case None =>
        assert forall i :: 1 <= i < |s| ==> s[i] == s[1..][i - 1];
        None
      case Some(k) =>
        assert forall j :: 1 <= j < k + 1 ==> s[j] == s[1..][j - 1];
        Some(k + 1)
  }

  /** `find_by_id`: the first record carrying `id`, if any. */
  function FindById(s: Store, id: MessageId): (r: Option<Message>)
    ensures r.None? <==> !Contains(s, id)
    ensures r.Some? ==> exists i :: FirstWithId(s, id, i) && s[i] == r.value
  {
    match IndexOf(s, id)
    case None => None
    case Some(i) => Some(s[i])
  }

  /** With distinct ids, a record is found by its own id. */
  lemma FindByIdOfUnique(s: Store, i: nat)
    requires UniqueIds(s) && i < |s|
    ensures FindById(s, s[i].id) == Some(s[i])
  {
    var k := IndexOf(s, s[i].id).value;
    assert !(i < k);
    assert !(k < i);
  }

  /**
   * `list` as written: skip `(page - 1) * limit` records, that product taken in
   * `u32` arithmetic, which wraps modulo 2^32 in a release build, and take
   * `limit` of them, in insertion order; the total is the size of the store
   * whatever the page.
   */
  function List(s: Store, p: GetPaginated): (r: Page)
    requires p.page >= 1
    ensures r.total == |s|
    ensures |r.items| == if WrappingPageOffset(p) >= |s| then 0 else Min(p.limit, |s| - WrappingPageOffset(p))
    ensures forall i :: 0 <= i < |r.items| ==> r.items[i] == s[WrappingPageOffset(p) + i]
  {
    Page(Take(Skip(s, WrappingPageOffset(p)), p.limit), |s|)
  }

  /** `list` with the offset of the requested page, `(page - 1) * limit` without wrapping. */
  function ListIntended(s: Store, p: GetPaginated): (r: Page)
    requires p.page >= 1
    ensures r.total == |s|
    ensures |r.items| == if PageOffset(p) >= |s| then 0 else Min(p.limit, |s| - PageOffset(p))
    ensures forall i :: 0 <= i < |r.items| ==> r.items[i] == s[PageOffset(p) + i]
  {
    Page(Take(Skip(s, PageOffset(p)), p.limit), |s|)
  }

  /** Whenever the offset fits in a `u32`, the list as written is the intended one. */
  lemma ListAgreesWithoutOverflow(s: Store, p: GetPaginated)
    requires p.page >= 1 && PageOffset(p) < U32Modulus
    ensures List(s, p) == ListIntended(s, p)
  {
  }

  /** The page at position `k` (from 1), as the intended list returns it. */
  function PageAt(s: Store, limit: U32, k: nat): seq<Message>
    requires 1 <= k < U32Modulus
  {
    ListIntended(s, GetPaginated(k, limit)).items
  }

  /**
   * Consecutive intended pages tile the store: page `j` is the `j`-th run of `limit`
   * records, so pages 1 to `k` together are exactly its first `k * limit`
   * records, each once and in order.
   */
  lemma PagesTileStore(s: Store, limit: U32, k: nat)
    requires k < U32Modulus
    ensures forall j :: 1 <= j <= k ==> PageAt(s, limit, j) == Window(s, j, limit)
    ensures Windows(s, limit, k) == s[..Covered(k, limit, |s|)]
    ensures Covered(k, limit, |s|) == Min(k * limit, |s|)
  {
    WindowsTile(s, limit, k);
  }

  /** Record `i` is found on page `i / limit + 1`, at position `i % limit`. */
  lemma RecordOnItsPage(s: Store, limit: U32, i: nat)
    requires 0 < limit && i < |s| && i / limit + 1 < U32Modulus
    ensures |PageAt(s, limit, i / limit + 1)| > i % limit
    ensures PageAt(s, limit, i / limit + 1)[i % limit] == s[i]
  {
    var p := GetPaginated(i / limit + 1, limit);
    DivMod(i, limit);
    var q, r := i / limit, i % limit;
    assert PageOffset(p) == q * limit;
    assert PageOffset(p) + r == i;
  }

  /** Twenty-five records in pages of ten: 10, 10 and 5 records, total 25 on each. */
  lemma TwentyFiveInPagesOfTen(s: Store)
    requires |s| == 25
    ensures |List(s, GetPaginated(1, 10)).items| == 10
    ensures |List(s, GetPaginated(2, 10)).items| == 10
    ensures |List(s, GetPaginated(3, 10)).items| == 5
    ensures List(s, GetPaginated(1, 10)).total == 25 && List(s, GetPaginated(3, 10)).total == 25
  {
  }

  /** A request that gives no page or limit lists the first twenty records, and the total as always. */
  lemma DefaultPageIsFirstTwenty(s: Store)
    ensures List(s, DefaultPagination).items == s[..Min(20, |s|)]
    ensures List(s, DefaultPagination).total == |s|
  {
  }

  /**
   * Page 2^31 + 1 in pages of two lies beyond any store of at most 2^32
   * records, yet the wrapped offset hands back the first two records again.
   */
  lemma OverflowedPageRepeatsFirstRecords(s: Store)
    requires 2 <= |s| <= U32Modulus
    ensures ListIntended(s, GetPaginated(0x8000_0001, 2)).items == []
    ensures List(s, GetPaginated(0x8000_0001, 2)).items == s[..2]
  {
    OffsetOverflowExample();
  }

  /** `insert`: append the new record at the end and return it. */
  function Insert(s: Store, input: InsertMessageInput, now: Timestamp): (r: Step<Message>)
    ensures r.result.Ok? && r.store == s + [r.result.value]
    ensures r.result.value.id == input.id && r.result.value.content == input.content
    ensures r.result.value.channelId == input.channelId && r.result.value.authorId == input.authorId
    ensures r.result.value.replyTo == input.replyTo && r.result.value.attachments == input.attachments
    ensures !r.result.value.isPinned && r.result.value.updatedAt.None? && r.result.value.createdAt == now
  {
    var m := NewMessage(input, now);
    Step(s + [m], Ok(m))
  }

  /** A record inserted under a fresh id is what `find_by_id` then returns. */
  lemma InsertThenFind(s: Store, input: InsertMessageInput, now: Timestamp)
    requires !Contains(s, input.id)
    ensures FindById(Insert(s, input, now).store, input.id) == Some(Insert(s, input, now).result.value)
  {
    var s' := Insert(s, input, now).store;
    assert FirstWithId(s', input.id, |s|);
    assert IndexOf(s', input.id) == Some(|s|);
  }

  lemma InsertKeepsIdsUnique(s: Store, input: InsertMessageInput, now: Timestamp)
    requires UniqueIds(s) && !Contains(s, input.id)
    ensures UniqueIds(Insert(s, input, now).store)
  {
  }

  /**
   * `update`: the first record with the id gets the partial update applied
   * and is returned; every other record stays as it was. An unknown id is
   * `MessageNotFound` and the store is untouched.
   */
  function Update(s: Store, input: UpdateMessageInput, now: Timestamp): (r: Step<Message>)
    ensures r.result.Err? <==> !Contains(s, input.id)
    ensures r.result.Err? ==> r.result.error == MessageNotFound(input.id) && r.store == s
    ensures r.result.Ok? ==>
      && |r.store| == |s|
      && (exists i :: FirstWithId(s, input.id, i) && r.store[i] == r.result.value == ApplyUpdate(s[i], input, now))
      && (forall j :: 0 <= j < |s| && s[j] != r.store[j] ==> FirstWithId(s, input.id, j))
  {
    match IndexOf(s, input.id)
    case None => Step(s, Err(MessageNotFound(input.id)))
    case Some(i) =>
      var m := ApplyUpdate(s[i], input, now);
      Step(s[i := m], Ok(m))
  }

  /** After an update, `find_by_id` returns the updated record. */
  lemma UpdateThenFind(s: Store, input: UpdateMessageInput, now: Timestamp)
    requires Contains(s, input.id)
    ensures FindById(Update(s, input, now).store, input.id) == Some(Update(s, input, now).result.value)
  {
    var i := IndexOf(s, input.id).value;
    var s' := Update(s, input, now).store;
    assert FirstWithId(s', input.id, i);
    assert IndexOf(s', input.id) == Some(i);
  }

  lemma UpdateKeepsIdsUnique(s: Store, input: UpdateMessageInput, now: Timestamp)
    requires UniqueIds(s)
    ensures UniqueIds(Update(s, input, now).store)
  {
  }

  /**
   * `delete`: remove the first record with the id and keep the others in
   * order. An unknown id is `MessageNotFound` and the store is untouched.
   */
  function Delete(s: Store, id: MessageId): (r: Step<()>)
    ensures r.result.Err? <==> !Contains(s, id)
    ensures r.result.Err? ==> r.result.error == MessageNotFound(id) && r.store == s
    ensures r.result.Ok? ==>
      exists i :: FirstWithId(s, id, i)
        && |r.store| == |s| - 1
        && (forall j :: 0 <= j < i ==> r.store[j] == s[j])
        && (forall j :: i <= j < |r.store| ==> r.store[j] == s[j + 1])
  {
    match IndexOf(s, id)
    case None => Step(s, Err(MessageNotFound(id)))
    case Some(i) => Step(s[..i] + s[i + 1..], Ok(()))
  }

  /** A delete takes away exactly one record carrying the id. */
  lemma DeleteRemovesOneRecord(s: Store, id: MessageId)
    requires Contains(s, id)
    ensures exists m: Message :: m.id == id && multiset(Delete(s, id).store) + multiset{m} == multiset(s)
  {
    var i := IndexOf(s, id).value;
    assert s == s[..i] + [s[i]] + s[i + 1..];
    assert multiset(Delete(s, id).store) + multiset{s[i]} == multiset(s);
  }

  /** With distinct ids, a deleted record is no longer found. */
  lemma DeleteThenFind(s: Store, id: MessageId)
    requires UniqueIds(s) && Contains(s, id)
    ensures FindById(Delete(s, id).store, id).None?
  {
    var i := IndexOf(s, id).value;
    var s' := Delete(s, id).store;
    forall k | 0 <= k < |s'|
      ensures s'[k].id != id
    {
      if k < i {
        assert s'[k] == s[k];
      } else {
        assert s'[k] == s[k + 1];
      }
    }
  }

  lemma DeleteKeepsIdsUnique(s: Store, id: MessageId)
    requires UniqueIds(s)
    ensures UniqueIds(Delete(s, id).store)
  {
    if Contains(s, id) {
      var i := IndexOf(s, id).value;
      var s' := Delete(s, id).store;
      forall a, b | 0 <= a < b < |s'|
        ensures s'[a].id != s'[b].id
      {
        var a', b' := if a < i then a else a + 1, if b < i then b else b + 1;
        assert s'[a] == s[a'] && s'[b] == s[b'];
      }
    }
  }
}
