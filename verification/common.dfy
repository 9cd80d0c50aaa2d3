/**
 * The domain error type shared by every layer and the page/limit request of
 * the paginated list.
 */
module Common {
  import opened Uuids
  import opened Entities

  const U32Modulus: nat := 0x1_0000_0000

  /** Rust `u32`. */
  type U32 = x: int | 0 <= x < U32Modulus

  datatype CoreError =
    | ServiceUnavailable(reason: string)
    | MessageNotFound(id: MessageId)
    | FailedToInsertMessage(name: string)
    | InvalidMessageName
    | Unhealthy
    | UnknownError(message: string)
    | DatabaseError(msg: string)
    | SerializationError(msg: string)

  /** The `Display` text of each error. */
  function Describe(e: CoreError): string
  {
    match e
    case ServiceUnavailable(_) => "Service is currently unavailable"
    case MessageNotFound(id) => "Message with id " + id.ToString() + " not found"
    case FailedToInsertMessage(name) => "Failed to insert message with name " + name
    case InvalidMessageName => "Message name cannot be empty"
    case Unhealthy => "Health check failed"
    case UnknownError(message) => "An unknown error occurred: " + message
    case DatabaseError(msg) => "Database error: " + msg
    case SerializationError(msg) => "Serialization error: " + msg
  }

  predicate OccursAt(s: string, t: string, i: int)
  {
    0 <= i <= |s| - |t| && s[i..i + |t|] == t
  }

  predicate ContainsSubstring(s: string, t: string)
  {
    exists i :: 0 <= i <= |s| && OccursAt(s, t, i)
  }

  /**
   * A not-found error says "not found" and names the id it was raised for;
   * two such errors read the same only when they are about the same id.
   */
  lemma NotFoundTextNamesId(a: MessageId, b: MessageId)
    ensures ContainsSubstring(Describe(MessageNotFound(a)), "not found")
    ensures ContainsSubstring(Describe(MessageNotFound(a)), a.ToString())
    ensures Describe(MessageNotFound(a)) == Describe(MessageNotFound(b)) <==> a == b
  {
    var s := Describe(MessageNotFound(a));
    assert |s| == 16 + 36 + 10;
    assert OccursAt(s, "not found", |s| - 9);
    assert OccursAt(s, a.ToString(), 16);
    if s == Describe(MessageNotFound(b)) {
      assert a.ToString() == Describe(MessageNotFound(b))[16..52];
      HyphenatedInjective(a.uuid, b.uuid);
    }
  }

  /** The fixed texts of the validation and health errors. */
  lemma FixedErrorTexts()
    ensures Describe(InvalidMessageName) == "Message name cannot be empty"
    ensures Describe(Unhealthy) == "Health check failed"
    ensures forall r :: Describe(ServiceUnavailable(r)) == "Service is currently unavailable"
  {
  }

  /** Page number (from 1) and page size of a list request. */
  datatype GetPaginated = GetPaginated(page: U32, limit: U32)

  /** `GetPaginated::default()`. */
  const DefaultPagination: GetPaginated := GetPaginated(1, 20)

  /** The number of records before the requested page, `(page - 1) * limit`. */
  function PageOffset(p: GetPaginated): nat
    requires p.page >= 1
  {
    (p.page - 1) * p.limit
  }

  /**
   * The same offset computed as the code writes it, in `u32` arithmetic, which
   * wraps around modulo 2^32 in a release build.
   */
  function WrappingPageOffset(p: GetPaginated): (offset: U32)
    requires p.page >= 1
    ensures PageOffset(p) < U32Modulus ==> offset == PageOffset(p)
  {
    ((p.page - 1) * p.limit) % U32Modulus
  }

  /** A request whose offset exceeds `u32`: the written arithmetic sends it back to the first record. */
  lemma OffsetOverflowExample()
    ensures PageOffset(GetPaginated(0x8000_0001, 2)) == U32Modulus
    ensures WrappingPageOffset(GetPaginated(0x8000_0001, 2)) == 0
  {
  }
}
