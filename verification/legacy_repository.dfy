/**
 * `MongoRepo` of the older, ports-and-adapters copy of the service. Messages
 * are soft-deleted through `deleted_at`, listed newest first behind a
 * `before` cursor, and can be pinned. The `messages` collection is a sequence
 * of documents in natural order; a filter on `id` selects the first match.
 */
module LegacyRepository {
  import opened Wrappers
  import opened Uuids
  import opened Common
  import opened Sequences
  import Entities

  type Timestamp = Entities.Timestamp

  datatype Attachment = Attachment(id: Uuid, name: string, url: string)

  /** A mention to notify: `kind` is "role" or "member". */
  datatype NotifyEntry = NotifyEntry(kind: string, id: string)

  datatype Message = Message(
    id: Uuid,
    channelId: string,
    authorId: string,
    content: string,
    replyTo: Option<Uuid>,
    attachments: seq<Attachment>,
    notify: seq<NotifyEntry>,
    pinned: bool,
    createdAt: Timestamp,
    editedAt: Option<Timestamp>,
    deletedAt: Option<Timestamp>
  )

  datatype MessageCreate = MessageCreate(
    channelId: string,
    authorId: string,
    content: string,
    replyTo: Option<Uuid>,
    attachments: seq<Attachment>,
    notify: seq<NotifyEntry>
  )

  datatype MessageUpdate = MessageUpdate(content: Option<string>, notify: Option<seq<NotifyEntry>>)

  datatype RepositoryError = NotFound | Forbidden | NotImplemented | Other(reason: string)

  type Collection = seq<Message>

  /** What a collection operation leaves behind and what it returns. */
  datatype Outcome<T> = Outcome(collection: Collection, result: Result<T, RepositoryError>)

  /** A page of the channel's messages and the cursor for the next one. */
  datatype Listing = Listing(items: seq<Message>, nextBefore: Option<Uuid>)

  /** A page of pinned messages and the number of all pinned messages of the channel. */
  datatype PinListing = PinListing(items: seq<Message>, total: nat)

  /** Page size when the caller gives none. */
  const DefaultLimit: nat := 50

  /** Length of a search snippet, in characters. */
  const SnippetLength: nat := 200

  function CreatedAt(m: Message): int
  {
    m.createdAt
  }

  /** In the channel and not soft-deleted. */
  predicate Live(m: Message, channel: string)
  {
    m.channelId == channel && m.deletedAt.None?
  }

  predicate HasId(c: Collection, id: Uuid)
  {
    exists i :: 0 <= i < |c| && c[i].id == id
  }

  predicate UniqueIds(c: Collection)
  {
    forall i, j :: 0 <= i < j < |c| ==> c[i].id != c[j].id
  }

  /** Position of the first document with `id`, whatever its channel or deletion state. */
  function IdIndex(c: Collection, id: Uuid): (r: Option<nat>)
    ensures r.None? <==> !HasId(c, id)
    ensures r.Some? ==> r.value < |c| && c[r.value].id == id
    ensures r.Some? ==> forall j :: 0 <= j < r.value ==> c[j].id != id
  {
    if |c| == 0 then None
    else if c[0].id == id then Some(0)
    else
      match IdIndex(c[1..], id)
      case None =>
        assert forall i :: 1 <= i < |c| ==> c[i] == c[1..][i - 1];
        None
      case Some(k) =>
        assert forall j :: 1 <= j < k + 1 ==> c[j] == c[1..][j - 1];
        Some(k + 1)
  }

  /** With distinct ids, the document at `i` is the one its id selects. */
  lemma IdIndexOfUnique(c: Collection, i: nat)
    requires UniqueIds(c) && i < |c|
    ensures IdIndex(c, c[i].id) == Some(i)
  {
    var k := IdIndex(c, c[i].id).value;
    assert !(k < i);
    assert !(i < k);
  }

  /** `get`: the first document with the id, in the channel and not deleted; otherwise `NotFound`. */
  function Get(c: Collection, channel: string, id: Uuid): (r: Result<Message, RepositoryError>)
    ensures r.Ok? <==> exists i :: 0 <= i < |c| && c[i].id == id && Live(c[i], channel)
    ensures r.Ok? ==> r.value.id == id && Live(r.value, channel) && r.value in c
    ensures r.Err? ==> r.error == NotFound
  {
    if |c| == 0 then Err(NotFound)
    else if c[0].id == id && Live(c[0], channel) then Ok(c[0])
    else
      var r := Get(c[1..], channel, id);
      assert forall i :: 1 <= i < |c| ==> c[i] == c[1..][i - 1];
      r
  }

  /** The key of the document a `before` id names, if it names one: the bound the cursor sets. */
  function CursorBound(c: Collection, before: Option<Uuid>, key: Message -> int): (t: Option<int>)
    ensures t.Some? <==> before.Some? && HasId(c, before.value)
    ensures t.Some? ==> t.value == key(c[IdIndex(c, before.value).value])
  {
    if before.None? then None
    else
      match IdIndex(c, before.value)
      case None => None
      case Some(i) => Some(key(c[i]))
  }

  /** Passes the list filter: live in the channel and, with a cursor, strictly below it in `key`. */
  predicate Listed(m: Message, channel: string, key: Message -> int, bound: Option<int>)
  {
    Live(m, channel) && (bound.Some? ==> key(m) < bound.value)
  }

  /** The documents passing the list filter, in natural order. */
  function ListCandidates(c: Collection, channel: string, key: Message -> int, bound: Option<int>): (r: seq<Message>)
    ensures forall i :: 0 <= i < |r| ==> Listed(r[i], channel, key, bound) && r[i] in c
    ensures forall i :: 0 <= i < |c| && Listed(c[i], channel, key, bound) ==> c[i] in r
  {
    if |c| == 0 then []
    else
      var rest := ListCandidates(c[1..], channel, key, bound);
      assert forall i :: 1 <= i < |c| ==> c[i] == c[1..][i - 1];
      if Listed(c[0], channel, key, bound) then [c[0]] + rest else rest
  }

  /** The page size a `limit` asks for: 50 when absent, where 0 means no limit. */
  function PageSize(limit: Option<U32>): nat
  {
    if limit.Some? then limit.value else DefaultLimit
  }

  /** The documents passing the list filter, highest `key` first: the sequence a page is cut from. */
  function SortedCandidates(c: Collection, channel: string, key: Message -> int, bound: Option<int>): (r: seq<Message>)
    ensures |r| == |ListCandidates(c, channel, key, bound)|
  {
    SortNewestFirst(ListCandidates(c, channel, key, bound), key)
  }

  /**
   * The filtered documents, highest `key` first, at most `n` of them unless
   * `n` is 0: the first `n` of the sorted candidates, or all of them.
   */
  function ListItems(c: Collection, channel: string, key: Message -> int, bound: Option<int>, n: nat): (items: seq<Message>)
    ensures forall i :: 0 <= i < |items| ==> Listed(items[i], channel, key, bound) && items[i] in c
    ensures NewestFirst(items, key)
    ensures items <= SortedCandidates(c, channel, key, bound)
    ensures n > 0 ==> |items| == Min(n, |SortedCandidates(c, channel, key, bound)|)
    ensures n == 0 ==> items == SortedCandidates(c, channel, key, bound)
  {
    var candidates := ListCandidates(c, channel, key, bound);
    var items := NewestPage(candidates, key, 0, n);
    PageOfCandidates(c, channel, key, bound, candidates, items);
    assert n == 0 ==> |items| == |multiset(items)| == |multiset(candidates)| == |candidates|;
    items
  }

  /** Every element of a page drawn from the candidates passes the filter and is stored. */
  lemma PageOfCandidates(c: Collection, channel: string, key: Message -> int, bound: Option<int>,
                         candidates: seq<Message>, items: seq<Message>)
    requires candidates == ListCandidates(c, channel, key, bound)
    requires forall i :: 0 <= i < |items| ==> items[i] in multiset(candidates)
    ensures forall i :: 0 <= i < |items| ==> Listed(items[i], channel, key, bound) && items[i] in c
  {
    forall i | 0 <= i < |items|
      ensures Listed(items[i], channel, key, bound) && items[i] in c
    {
      var j :| 0 <= j < |candidates| && candidates[j] == items[i];
    }
  }

  /**
   * A keyset listing ordered and bounded by `key`: live messages of the
   * channel below the cursor's key when `before` names a stored document,
   * highest key first, at most `limit` of them (50 by default, no limit for
   * 0). The cursor for the next page is the last item's id exactly when the
   * page is full and not empty.
   */
  function ListBy(c: Collection, channel: string, limit: Option<U32>, before: Option<Uuid>, key: Message -> int): (r: Listing)
    ensures forall i :: 0 <= i < |r.items| ==>
      Listed(r.items[i], channel, key, CursorBound(c, before, key)) && r.items[i] in c
    ensures NewestFirst(r.items, key)
    ensures r.items <= SortedCandidates(c, channel, key, CursorBound(c, before, key))
    ensures PageSize(limit) > 0 ==>
      |r.items| == Min(PageSize(limit), |SortedCandidates(c, channel, key, CursorBound(c, before, key))|)
    ensures PageSize(limit) == 0 ==> r.items == SortedCandidates(c, channel, key, CursorBound(c, before, key))
    ensures r.nextBefore.Some? <==> |r.items| == PageSize(limit) && |r.items| > 0
    ensures r.nextBefore.Some? ==> r.nextBefore.value == r.items[|r.items| - 1].id
  {
    var n := PageSize(limit);
    var items := ListItems(c, channel, key, CursorBound(c, before, key), n);
    var next := if |items| == n && |items| > 0 then Some(items[|items| - 1].id) else None;
    Listing(items, next)
  }

  /**
   * `list`, as written: the cursor bound and the order are both `created_at`
   * alone. Live messages of the channel, strictly older than the cursor
   * message when `before` names a stored document, newest first: the newest
   * `limit` of them, or all of them when fewer remain or the limit is 0.
   */
  function List(c: Collection, channel: string, limit: Option<U32>, before: Option<Uuid>): (r: Listing)
    ensures forall i :: 0 <= i < |r.items| ==>
      Listed(r.items[i], channel, CreatedAt, CursorBound(c, before, CreatedAt)) && r.items[i] in c
    ensures NewestFirst(r.items, CreatedAt)
    ensures r.items <= SortedCandidates(c, channel, CreatedAt, CursorBound(c, before, CreatedAt))
    ensures PageSize(limit) > 0 ==>
      |r.items| == Min(PageSize(limit), |SortedCandidates(c, channel, CreatedAt, CursorBound(c, before, CreatedAt))|)
    ensures PageSize(limit) == 0 ==> r.items == SortedCandidates(c, channel, CreatedAt, CursorBound(c, before, CreatedAt))
    ensures r.nextBefore.Some? <==> |r.items| == PageSize(limit) && |r.items| > 0
    ensures r.nextBefore.Some? ==> r.nextBefore.value == r.items[|r.items| - 1].id
  {
    ListBy(c, channel, limit, before, CreatedAt)
  }

  /**
   * A page that is not full is the end of the listing: it holds every live
   * message of the channel below the cursor.
   */
  lemma ShortPageHoldsAll(c: Collection, channel: string, limit: Option<U32>, before: Option<Uuid>, key: Message -> int)
    requires PageSize(limit) == 0 || |ListBy(c, channel, limit, before, key).items| < PageSize(limit)
    ensures forall i :: 0 <= i < |c| && Listed(c[i], channel, key, CursorBound(c, before, key)) ==>
      c[i] in ListBy(c, channel, limit, before, key).items
  {
    var candidates := ListCandidates(c, channel, key, CursorBound(c, before, key));
    var items := ListBy(c, channel, limit, before, key).items;
    assert items == NewestPage(candidates, key, 0, PageSize(limit));
    forall i | 0 <= i < |c| && Listed(c[i], channel, key, CursorBound(c, before, key))
      ensures c[i] in items
    {
      assert c[i] in multiset(candidates);
      assert c[i] in multiset(items);
    }
  }

  /** A `before` id that names no stored document places no bound on the page. */
  lemma UnknownCursorIgnored(c: Collection, channel: string, limit: Option<U32>, before: Uuid)
    requires !HasId(c, before)
    ensures List(c, channel, limit, Some(before)) == List(c, channel, limit, None)
  {
  }

  /**
   * Following the cursor moves strictly down the key: with distinct ids,
   * every message of the next page is below every message of the page that
   * produced the cursor, so no message is listed twice.
   */
  lemma NextPageIsBelow(c: Collection, channel: string, limit: Option<U32>, before: Option<Uuid>, key: Message -> int)
    requires UniqueIds(c)
    requires ListBy(c, channel, limit, before, key).nextBefore.Some?
    ensures var page := ListBy(c, channel, limit, before, key);
      var next := ListBy(c, channel, limit, page.nextBefore, key);
      forall i, j :: 0 <= i < |next.items| && 0 <= j < |page.items| ==>
        key(next.items[i]) < key(page.items[j])
  {
    var page := ListBy(c, channel, limit, before, key);
    var last := page.items[|page.items| - 1];
    assert last in c;
    var k :| 0 <= k < |c| && c[k] == last;
    IdIndexOfUnique(c, k);
    assert CursorBound(c, page.nextBefore, key) == Some(key(last));
    forall j | 0 <= j < |page.items|
      ensures key(page.items[j]) >= key(last)
    {
      NewestFirstLastIsOldest(page.items, key, j);
    }
  }

  /** `list` as written: following `next_before` moves strictly back in time. */
  lemma NextPageIsOlder(c: Collection, channel: string, limit: Option<U32>, before: Option<Uuid>)
    requires UniqueIds(c)
    requires List(c, channel, limit, before).nextBefore.Some?
    ensures var page := List(c, channel, limit, before);
      var next := List(c, channel, limit, page.nextBefore);
      forall i, j :: 0 <= i < |next.items| && 0 <= j < |page.items| ==>
        next.items[i].createdAt < page.items[j].createdAt
  {
    NextPageIsBelow(c, channel, limit, before, CreatedAt);
  }

  /** A live message of channel "general" created at `t`, for the examples below. */
  function Sample(id: Uuid, t: Timestamp): Message
  {
    Message(id, "general", "author", "hello", None, [], [], false, t, None, None)
  }

  /**
   * `list` as written loses messages that share the cursor's `created_at`:
   * of three messages created at 3, 2 and 2, a first page of two ends on one
   * created at 2, and the next page, bounded by `created_at < 2`, is empty,
   * so the other one is never listed.
   */
  lemma TiedTimestampSkipped()
    ensures var c := [Sample(1, 3), Sample(2, 2), Sample(3, 2)];
      var first := List(c, "general", Some(2), None);
      && first.nextBefore.Some?
      && Sample(3, 2) !in first.items
      && List(c, "general", Some(2), first.nextBefore).items == []
  {
    AsWrittenExampleFirstPage();
    AsWrittenExampleSecondPage();
  }

  /** Without a cursor, all three sample messages pass the filter, whatever the key. */
  lemma ExampleCandidates(key: Message -> int)
    ensures ListCandidates([Sample(1, 3), Sample(2, 2), Sample(3, 2)], "general", key, None)
      == [Sample(1, 3), Sample(2, 2), Sample(3, 2)]
  {
    var c := [Sample(1, 3), Sample(2, 2), Sample(3, 2)];
    assert c[1..] == [Sample(2, 2), Sample(3, 2)];
    assert c[1..][1..] == [Sample(3, 2)];
  }

  /** Sorted by timestamp alone, the tie keeps its stored order. */
  lemma SamplesInTimestampOrder()
    ensures SortNewestFirst([Sample(1, 3), Sample(2, 2), Sample(3, 2)], CreatedAt) == [Sample(1, 3), Sample(2, 2), Sample(3, 2)]
  {
    var a, b, x := Sample(1, 3), Sample(2, 2), Sample(3, 2);
    assert SortNewestFirst([x], CreatedAt) == [x];
    assert InsertNewestFirst(b, [x], CreatedAt) == [b, x];
    assert SortNewestFirst([b, x], CreatedAt) == [b, x] by {
      assert [b, x][1..] == [x];
    }
    assert InsertNewestFirst(a, [b, x], CreatedAt) == [a, b, x];
    assert [a, b, x][1..] == [b, x];
  }

  /**
   * With no cursor and every document passing the filter, a page of `limit`
   * is the first `limit` of the sorted documents, and the cursor it hands
   * out is the id of the last of them.
   */
  lemma FirstPageOfSorted(c: Collection, channel: string, key: Message -> int, limit: U32, sorted: seq<Message>)
    requires ListCandidates(c, channel, key, None) == c
    requires SortNewestFirst(c, key) == sorted && 0 < limit <= |sorted|
    ensures ListBy(c, channel, Some(limit), None, key) == Listing(sorted[..limit], Some(sorted[limit - 1].id))
  {
    assert CursorBound(c, None, key) == None;
    var items := NewestPage(c, key, 0, limit);
    assert |items| == limit;
    assert items == sorted[..limit];
    assert ListItems(c, channel, key, None, limit) == items;
    assert PageSize(Some(limit)) == limit;
    var page := ListBy(c, channel, Some(limit), None, key);
    assert page.items == items;
    assert page.nextBefore == Some(items[limit - 1].id);
  }

  lemma FirstTwoOfThree<T>(a: T, b: T, x: T)
    ensures [a, b, x][..2] == [a, b]
  {
  }

  /** The first page of two as written: the newest message and the first of the tie. */
  lemma AsWrittenExampleFirstPage()
    ensures List([Sample(1, 3), Sample(2, 2), Sample(3, 2)], "general", Some(2), None)
      == Listing([Sample(1, 3), Sample(2, 2)], Some(2))
  {
    var sorted := [Sample(1, 3), Sample(2, 2), Sample(3, 2)];
    ExampleCandidates(CreatedAt);
    SamplesInTimestampOrder();
    FirstPageOfSorted(sorted, "general", CreatedAt, 2, sorted);
    FirstTwoOfThree(Sample(1, 3), Sample(2, 2), Sample(3, 2));
  }

  /** The page after the first tied message as written: empty, since nothing is strictly older than 2. */
  lemma AsWrittenExampleSecondPage()
    ensures List([Sample(1, 3), Sample(2, 2), Sample(3, 2)], "general", Some(2), Some(2)).items == []
  {
    var c := [Sample(1, 3), Sample(2, 2), Sample(3, 2)];
    var b, x := Sample(2, 2), Sample(3, 2);
    assert IdIndex(c, 2) == Some(1);
    assert CursorBound(c, Some(2), CreatedAt) == Some(2);
    assert ListCandidates(c, "general", CreatedAt, Some(2)) == [] by {
      assert c[1..] == [b, x];
      assert c[1..][1..] == [x];
    }
  }


  /**
   * The cursor key that makes keyset paging exact: `created_at` first, the
   * id to break ties. Distinct ids give distinct keys.
   */
  function CursorKey(m: Message): int
  {
    m.createdAt * UuidBound + m.id
  }

  lemma {:induction false} CursorKeyInjective(m1: Message, m2: Message)
    ensures CursorKey(m1) == CursorKey(m2) <==> m1.createdAt == m2.createdAt && m1.id == m2.id
  {
    if m1.createdAt < m2.createdAt {
      CursorKeyBelow(m1.createdAt, m2.createdAt, m1.id, m2.id);
    } else if m2.createdAt < m1.createdAt {
      CursorKeyBelow(m2.createdAt, m1.createdAt, m2.id, m1.id);
    }
  }

  lemma CursorKeyBelow(a: int, b: int, x: Uuid, y: Uuid)
    requires a < b
    ensures a * UuidBound + x < b * UuidBound + y
  {
    var d := b - a - 1;
    assert b * UuidBound == a * UuidBound + UuidBound + d * UuidBound;
  }

  /** A higher cursor key is never an older message. */
  lemma CursorKeyFollowsTime(m1: Message, m2: Message)
    requires CursorKey(m1) >= CursorKey(m2)
    ensures m1.createdAt >= m2.createdAt
  {
    if m1.createdAt < m2.createdAt {
      CursorKeyBelow(m1.createdAt, m2.createdAt, m1.id, m2.id);
    }
  }

  /** `list` with the cursor key (`created_at`, id) in both the order and the bound. */
  function ListCorrected(c: Collection, channel: string, limit: Option<U32>, before: Option<Uuid>): (r: Listing)
    ensures forall i :: 0 <= i < |r.items| ==>
      Listed(r.items[i], channel, CursorKey, CursorBound(c, before, CursorKey)) && r.items[i] in c
    ensures NewestFirst(r.items, CreatedAt)
    ensures PageSize(limit) > 0 ==> |r.items| <= PageSize(limit)
    ensures r.nextBefore.Some? <==> |r.items| == PageSize(limit) && |r.items| > 0
    ensures r.nextBefore.Some? ==> r.nextBefore.value == r.items[|r.items| - 1].id
  {
    var r := ListBy(c, channel, limit, before, CursorKey);
    forall i, j | 0 <= i < j < |r.items|
      ensures r.items[i].createdAt >= r.items[j].createdAt
    {
      CursorKeyFollowsTime(r.items[i], r.items[j]);
    }
    r
  }

  /** A full corrected page is the first `limit` candidates in cursor-key order. */
  lemma FullPageIsSortedPrefix(c: Collection, channel: string, limit: Option<U32>, before: Option<Uuid>)
    requires ListCorrected(c, channel, limit, before).nextBefore.Some?
    ensures var sorted := SortNewestFirst(ListCandidates(c, channel, CursorKey, CursorBound(c, before, CursorKey)), CursorKey);
      && 0 < PageSize(limit) <= |sorted|
      && ListCorrected(c, channel, limit, before).items == sorted[..PageSize(limit)]
      && sorted[PageSize(limit) - 1] in c
  {
    var candidates := ListCandidates(c, channel, CursorKey, CursorBound(c, before, CursorKey));
    var page := ListCorrected(c, channel, limit, before);
    assert page.items == NewestPage(candidates, CursorKey, 0, PageSize(limit));
    assert page.items[|page.items| - 1] in c;
  }

  /** With distinct ids, the next cursor's bound is the key of the page's last item. */
  lemma NextBoundIsLastKey(c: Collection, channel: string, limit: Option<U32>, before: Option<Uuid>, key: Message -> int)
    requires UniqueIds(c)
    requires ListBy(c, channel, limit, before, key).nextBefore.Some?
    ensures var page := ListBy(c, channel, limit, before, key);
      CursorBound(c, page.nextBefore, key) == Some(key(page.items[|page.items| - 1]))
  {
    var page := ListBy(c, channel, limit, before, key);
    var last := page.items[|page.items| - 1];
    assert last in c;
    var k :| 0 <= k < |c| && c[k] == last;
    IdIndexOfUnique(c, k);
  }

  /** One message passing a full corrected page's filter is on the page or below its last item. */
  lemma OnPageOrBelow(c: Collection, channel: string, limit: Option<U32>, before: Option<Uuid>, i: nat)
    requires UniqueIds(c) && i < |c|
    requires ListCorrected(c, channel, limit, before).nextBefore.Some?
    requires Listed(c[i], channel, CursorKey, CursorBound(c, before, CursorKey))
    ensures var page := ListCorrected(c, channel, limit, before);
      c[i] in page.items || CursorKey(c[i]) < CursorKey(page.items[|page.items| - 1])
  {
    var page := ListCorrected(c, channel, limit, before);
    var candidates := ListCandidates(c, channel, CursorKey, CursorBound(c, before, CursorKey));
    var sorted := SortNewestFirst(candidates, CursorKey);
    var n := PageSize(limit);
    FullPageIsSortedPrefix(c, channel, limit, before);
    ListedIsCandidate(c, channel, CursorKey, CursorBound(c, before, CursorKey), i);
    NotOnPageIsBelow(c, candidates, sorted, n, i, page.items);
  }

  lemma ListedIsCandidate(c: Collection, channel: string, key: Message -> int, bound: Option<int>, i: nat)
    requires i < |c| && Listed(c[i], channel, key, bound)
    ensures c[i] in ListCandidates(c, channel, key, bound)
  {
  }

  /**
   * With the corrected cursor no message is lost between pages: with
   * distinct ids, every message that passes a full page's filter is either
   * on that page or passes the next page's filter.
   */
  lemma CorrectedCursorSkipsNothing(c: Collection, channel: string, limit: Option<U32>, before: Option<Uuid>)
    requires UniqueIds(c)
    requires ListCorrected(c, channel, limit, before).nextBefore.Some?
    ensures var page := ListCorrected(c, channel, limit, before);
      forall i :: 0 <= i < |c| && Listed(c[i], channel, CursorKey, CursorBound(c, before, CursorKey)) ==>
        c[i] in page.items || Listed(c[i], channel, CursorKey, CursorBound(c, page.nextBefore, CursorKey))
  {
    NextBoundIsLastKey(c, channel, limit, before, CursorKey);
    forall i | 0 <= i < |c| && Listed(c[i], channel, CursorKey, CursorBound(c, before, CursorKey))
      ensures var page := ListCorrected(c, channel, limit, before);
        c[i] in page.items || CursorKey(c[i]) < CursorKey(page.items[|page.items| - 1])
    {
      OnPageOrBelow(c, channel, limit, before, i);
    }
  }

  /** The step of the proof above for one message. */
  lemma NotOnPageIsBelow(c: Collection, candidates: seq<Message>, sorted: seq<Message>, n: nat, i: nat, items: seq<Message>)
    requires UniqueIds(c) && i < |c|
    requires c[i] in candidates && multiset(sorted) == multiset(candidates)
    requires NewestFirst(sorted, CursorKey) && 0 < n <= |sorted| && sorted[n - 1] in c
    requires items == sorted[..n]
    ensures c[i] in items || CursorKey(c[i]) < CursorKey(items[|items| - 1])
  {
    var k :| 0 <= k < |c| && c[k] == sorted[n - 1];
    assert c[i] in multiset(sorted);
    NewestFirstBeyondPrefix(sorted, CursorKey, n, c[i]);
    CursorKeyInjective(c[i], c[k]);
    if CursorKey(c[i]) == CursorKey(c[k]) {
      assert i == k;
      assert sorted[..n][n - 1] == c[i];
    }
  }


  /** The three messages above in cursor-key order: the tie at 2 goes to the higher id. */
  lemma SamplesInCursorKeyOrder()
    ensures SortNewestFirst([Sample(1, 3), Sample(2, 2), Sample(3, 2)], CursorKey) == [Sample(1, 3), Sample(3, 2), Sample(2, 2)]
  {
    var a, b, x := Sample(1, 3), Sample(2, 2), Sample(3, 2);
    assert CursorKey(a) == 3 * UuidBound + 1;
    assert CursorKey(b) == 2 * UuidBound + 2;
    assert CursorKey(x) == 2 * UuidBound + 3;
    assert SortNewestFirst([x], CursorKey) == [x];
    assert InsertNewestFirst(b, [x], CursorKey) == [x, b] by {
      assert [x][1..] == [];
      assert InsertNewestFirst(b, [], CursorKey) == [b];
    }
    assert SortNewestFirst([b, x], CursorKey) == [x, b] by {
      assert [b, x][1..] == [x];
    }
    assert InsertNewestFirst(a, [x, b], CursorKey) == [a, x, b];
    assert [a, b, x][1..] == [b, x];
  }

  /** The corrected first page of two: the newest message, then the higher id of the tie. */
  lemma CorrectedExampleFirstPage()
    ensures ListCorrected([Sample(1, 3), Sample(2, 2), Sample(3, 2)], "general", Some(2), None)
      == Listing([Sample(1, 3), Sample(3, 2)], Some(3))
  {
    var sorted := [Sample(1, 3), Sample(3, 2), Sample(2, 2)];
    ExampleCandidates(CursorKey);
    SamplesInCursorKeyOrder();
    FirstPageOfSorted([Sample(1, 3), Sample(2, 2), Sample(3, 2)], "general", CursorKey, 2, sorted);
    FirstTwoOfThree(Sample(1, 3), Sample(3, 2), Sample(2, 2));
  }

  /** The corrected second page, after the tied message with id 3: the other message of the tie. */
  lemma CorrectedExampleSecondPage()
    ensures ListCorrected([Sample(1, 3), Sample(2, 2), Sample(3, 2)], "general", Some(2), Some(3)).items
      == [Sample(2, 2)]
  {
    var c := [Sample(1, 3), Sample(2, 2), Sample(3, 2)];
    var b, x := Sample(2, 2), Sample(3, 2);
    assert IdIndex(c, 3) == Some(2);
    var bound := Some(2 * UuidBound + 3);
    assert CursorKey(Sample(1, 3)) == 3 * UuidBound + 1;
    assert CursorKey(b) == 2 * UuidBound + 2;
    assert CursorKey(x) == 2 * UuidBound + 3;
    assert CursorBound(c, Some(3), CursorKey) == bound;
    assert ListCandidates([x], "general", CursorKey, bound) == [] by {
      assert [x][1..] == [];
    }
    assert ListCandidates([b, x], "general", CursorKey, bound) == [b] by {
      assert [b, x][1..] == [x];
    }
    assert ListCandidates(c, "general", CursorKey, bound) == [b] by {
      assert c[1..] == [b, x];
    }
    assert SortNewestFirst([b], CursorKey) == [b];
  }

  /** On the three messages above, the corrected cursor lists every message on one of the two pages. */
  lemma TiedTimestampListedWhenCorrected()
    ensures var c := [Sample(1, 3), Sample(2, 2), Sample(3, 2)];
      var first := ListCorrected(c, "general", Some(2), None);
      var second := ListCorrected(c, "general", Some(2), first.nextBefore);
      && first.nextBefore.Some?
      && forall m :: m in c ==> m in first.items || m in second.items
  {
    CorrectedExampleFirstPage();
    CorrectedExampleSecondPage();
  }

  /**
   * `post`: a new message under the fresh id with the request's fields,
   * unpinned, never edited, not deleted, created at `now`, appended.
   */
  function Post(c: Collection, create: MessageCreate, freshId: Uuid, now: Timestamp): (r: Outcome<()>)
    ensures r.result.Ok? && |r.collection| == |c| + 1 && r.collection[..|c|] == c
    ensures var m := r.collection[|c|];
      && m.id == freshId && m.channelId == create.channelId && m.authorId == create.authorId
      && m.content == create.content && m.replyTo == create.replyTo
      && m.attachments == create.attachments && m.notify == create.notify
      && !m.pinned && m.createdAt == now && m.editedAt.None? && m.deletedAt.None?
  {
    var m := Message(freshId, create.channelId, create.authorId, create.content, create.replyTo,
                     create.attachments, create.notify, false, now, None, None);
    Outcome(c + [m], Ok(()))
  }

  /** A posted message is then found by `get` in its channel under the fresh id. */
  lemma PostThenGet(c: Collection, create: MessageCreate, freshId: Uuid, now: Timestamp)
    ensures Get(Post(c, create, freshId, now).collection, create.channelId, freshId).Ok?
  {
    var c' := Post(c, create, freshId, now).collection;
    assert c'[|c|].id == freshId && Live(c'[|c|], create.channelId);
  }

  /**
   * `update`: on the first document with the id, whatever its channel or
   * deletion state, set `edited_at` and the content and mentions present;
   * return the document after. No match is `NotFound`.
   */
  function Update(c: Collection, id: Uuid, update: MessageUpdate, now: Timestamp): (r: Outcome<Message>)
    ensures r.result.Err? <==> !HasId(c, id)
    ensures r.result.Err? ==> r.result.error == NotFound && r.collection == c
    ensures r.result.Ok? ==>
      (exists i :: 0 <= i < |c| && c[i].id == id && IdIndex(c, id) == Some(i)
        && r.collection == c[i := r.result.value]
        && r.result.value.editedAt == Some(now)
        && r.result.value.content == (if update.content.Some? then update.content.value else c[i].content)
        && r.result.value.notify == (if update.notify.Some? then update.notify.value else c[i].notify)
        && r.result.value == c[i].(editedAt := Some(now), content := r.result.value.content, notify := r.result.value.notify))
  {
    match IdIndex(c, id)
    case None => Outcome(c, Err(NotFound))
    case Some(i) =>
      var old_ := c[i];
      var content := if update.content.Some? then update.content.value else old_.content;
      var notify := if update.notify.Some? then update.notify.value else old_.notify;
      var m := old_.(editedAt := Some(now), content := content, notify := notify);
      Outcome(c[i := m], Ok(m))
  }

  /** A soft-deleted message can still be edited, and it stays deleted. */
  lemma UpdateReachesDeleted(c: Collection, i: nat, update: MessageUpdate, now: Timestamp)
    requires UniqueIds(c) && i < |c| && c[i].deletedAt.Some?
    ensures Update(c, c[i].id, update, now).result.Ok?
    ensures Update(c, c[i].id, update, now).result.value.deletedAt == c[i].deletedAt
  {
    IdIndexOfUnique(c, i);
  }

  /** `delete`: a soft delete, setting `deleted_at` on the first document with the id; no match is `NotFound`. */
  function Delete(c: Collection, id: Uuid, now: Timestamp): (r: Outcome<()>)
    ensures r.result.Err? <==> !HasId(c, id)
    ensures r.result.Err? ==> r.result.error == NotFound && r.collection == c
    ensures r.result.Ok? ==>
      (exists i :: 0 <= i < |c| && c[i].id == id && IdIndex(c, id) == Some(i)
        && r.collection == c[i := c[i].(deletedAt := Some(now))])
  {
    match IdIndex(c, id)
    case None => Outcome(c, Err(NotFound))
    case Some(i) => Outcome(c[i := c[i].(deletedAt := Some(now))], Ok(()))
  }

  /**
   * The document stays in the collection, so deleting twice succeeds both
   * times; with distinct ids, `get` no longer finds it in any channel.
   */
  lemma DeleteIsSoft(c: Collection, id: Uuid, channel: string, t1: Timestamp, t2: Timestamp)
    requires UniqueIds(c) && HasId(c, id)
    ensures var once := Delete(c, id, t1).collection;
      && |once| == |c|
      && Delete(once, id, t2).result.Ok?
      && Get(once, channel, id) == Err(NotFound)
  {
    var i := IdIndex(c, id).value;
    var once := Delete(c, id, t1).collection;
    assert once[i].id == id;
    forall j | 0 <= j < |once| && once[j].id == id
      ensures !Live(once[j], channel)
    {
      assert j == i;
    }
  }

  /** `pin`: set `pinned` on the first document with the id; no match is `NotFound`. */
  function Pin(c: Collection, id: Uuid): (r: Outcome<()>)
    ensures r.result.Err? <==> !HasId(c, id)
    ensures r.result.Err? ==> r.result.error == NotFound && r.collection == c
    ensures r.result.Ok? ==>
      (exists i :: 0 <= i < |c| && c[i].id == id && IdIndex(c, id) == Some(i)
        && r.collection == c[i := c[i].(pinned := true)])
  {
    match IdIndex(c, id)
    case None => Outcome(c, Err(NotFound))
    case Some(i) => Outcome(c[i := c[i].(pinned := true)], Ok(()))
  }

  /** Pinning twice is pinning once. */
  lemma PinIdempotent(c: Collection, id: Uuid)
    ensures Pin(Pin(c, id).collection, id) == Pin(c, id)
  {
    if HasId(c, id) {
      var i := IdIndex(c, id).value;
      var once := Pin(c, id).collection;
      assert once == c[i := c[i].(pinned := true)];
      assert once[i].id == id;
      var k := IdIndex(once, id).value;
      assert !(k < i);
      assert !(i < k);
    }
  }

  /** Pinned, in the channel and not deleted: what `list_pins` counts. */
  predicate PinnedIn(m: Message, channel: string)
  {
    m.pinned && Live(m, channel)
  }

  /** Number of documents that are pinned messages of the channel. */
  function CountPinned(c: Collection, channel: string): nat
  {
    if |c| == 0 then 0 else (if PinnedIn(c[0], channel) then 1 else 0) + CountPinned(c[1..], channel)
  }

  /** The pinned messages of the channel, in natural order. */
  function PinnedCandidates(c: Collection, channel: string): (r: seq<Message>)
    ensures |r| == CountPinned(c, channel)
    ensures forall i :: 0 <= i < |r| ==> PinnedIn(r[i], channel) && r[i] in c
    ensures forall i :: 0 <= i < |c| && PinnedIn(c[i], channel) ==> c[i] in r
  {
    if |c| == 0 then []
    else
      var rest := PinnedCandidates(c[1..], channel);
      assert forall i :: 1 <= i < |c| ==> c[i] == c[1..][i - 1];
      if PinnedIn(c[0], channel) then [c[0]] + rest else rest
  }

  /**
   * `list_pins`: pinned live messages of the channel, newest first, after
   * skipping `offset` (0 by default), at most `limit` (50 by default, no limit
   * for 0); the total counts all of them whatever the limit and offset.
   */
  function ListPins(c: Collection, channel: string, limit: Option<U32>, offset: Option<U32>): (r: PinListing)
    ensures r.total == CountPinned(c, channel)
    ensures forall i :: 0 <= i < |r.items| ==> PinnedIn(r.items[i], channel) && r.items[i] in c
    ensures NewestFirst(r.items, CreatedAt)
    ensures PageSize(limit) > 0 ==> |r.items| <= PageSize(limit)
  {
    var candidates := PinnedCandidates(c, channel);
    var skip := if offset.Some? then offset.value else 0;
    var n := PageSize(limit);
    var items := NewestPage(candidates, CreatedAt, skip, n);
    PinListing(items, |candidates|)
  }

  /** Every pinned live message of the channel, newest first: the sequence `list_pins` pages through. */
  function PinsNewestFirst(c: Collection, channel: string): seq<Message>
  {
    SortNewestFirst(PinnedCandidates(c, channel), CreatedAt)
  }

  /**
   * A page of pins is one contiguous run of the channel's pinned messages in
   * newest-first order: the `limit` of them that follow the first `offset`.
   */
  lemma ListPinsIsSlice(c: Collection, channel: string, limit: U32, offset: U32)
    requires limit > 0
    ensures var pins := PinsNewestFirst(c, channel);
      var lo := Min(offset, |pins|);
      ListPins(c, channel, Some(limit), Some(offset)).items == pins[lo..Min(lo + limit, |pins|)]
  {
    var page := ListPins(c, channel, Some(limit), Some(offset)).items;
    assert page == Limit(Skip(PinsNewestFirst(c, channel), offset), limit) by {
      PinsPage(c, channel, limit, offset);
    }
    LimitedPageIsSlice(PinsNewestFirst(c, channel), page, offset, limit);
  }

  /** `list_pins` with a limit and an offset pages the newest-first pins. */
  lemma PinsPage(c: Collection, channel: string, limit: U32, offset: U32)
    ensures ListPins(c, channel, Some(limit), Some(offset)).items
      == Limit(Skip(PinsNewestFirst(c, channel), offset), limit)
  {
  }

  /** Pinning a live message of the channel that was not pinned adds one to the pin count. */
  lemma {:induction false} PinCountsOnce(c: Collection, channel: string, i: nat)
    requires i < |c| && Live(c[i], channel) && !c[i].pinned
    ensures CountPinned(c[i := c[i].(pinned := true)], channel) == CountPinned(c, channel) + 1
  {
    var c' := c[i := c[i].(pinned := true)];
    if i == 0 {
      assert c'[1..] == c[1..];
    } else {
      assert c'[1..] == c[1..][i - 1 := c[i].(pinned := true)];
      PinCountsOnce(c[1..], channel, i - 1);
    }
  }

  /** The snippet of a search hit: the first 200 characters of the content. */
  function Snippet(content: string): (s: string)
    ensures |s| == Min(|content|, SnippetLength)
    ensures s == content[..|s|]
  {
    Take(content, SnippetLength)
  }
}
