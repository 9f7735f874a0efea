/** The object-store primitives `Move` relies on (`get`, `List`,
    `CopyObject`, the multipart copier and `Delete`), replaced by an oracle.
    Each primitive is a function of the request and of the history of
    requests issued before it, so the store may change as `Move` copies and
    deletes, while every run stays deterministic. */
module ObjectStore {

  /** An underlying store error; its text is opaque to `Move`. */
  type Cause = string

  /** Answer to `get`: the object's size, the NotFound signal, or any other
      error. */
  datatype Lookup = Found(size: nat) | NotFound(cause: Cause) | LookupFailed(cause: Cause)

  /** Answer to `List`: the names of the listed entries in listing order,
      entry 0 being the listed prefix itself. */
  datatype Listing = Listed(names: seq<string>) | ListFailed(cause: Cause)

  /** Answer to a copy or a delete. */
  datatype Status = Ok | Failed(cause: Cause)

  /** The copy request: `CopySource` ("bucket/key"), destination `Bucket`
      and destination `Key`. */
  datatype CopyInput = CopyInput(copySource: string, bucket: string, key: string)

  /** One store request, as issued by `Move`. */
  datatype Op =
    | Get(key: string)
    | List(prefix: string)
    | CopyObject(input: CopyInput)
    | MultipartCopy(input: CopyInput, size: nat)
    | Delete(key: string)
  {
    predicate IsCopy() {
      CopyObject? || MultipartCopy?
    }
  }

  /** The requests issued so far, oldest first. */
  type Trace = seq<Op>

  /** The storager: the bucket it serves, the size at which copies switch to
      the multipart copier, and the store's answers. The lookup receives no
      options: its answer is taken not to depend on them. */
  datatype Storager = Storager(
    bucket: string,
    maxCopySize: nat,
    get: (Trace, string) -> Lookup,
    list: (Trace, string) -> Listing,
    copyObject: (Trace, CopyInput) -> Status,
    multipartCopy: (Trace, CopyInput, nat) -> Status,
    delete: (Trace, string) -> Status)

  /** The `CopySource` naming `key` in `bucket`. */
  function CopySource(bucket: string, key: string): string {
    bucket + "/" + key
  }

  /** The store's answer to a copy request issued after history `h`. */
  function CopyReply(st: Storager, h: Trace, op: Op): Status
    requires op.IsCopy()
  {
    match op
    case CopyObject(input) => st.copyObject(h, input)
    case MultipartCopy(input, size) => st.multipartCopy(h, input, size)
  }

  /** The store answers request `op`, issued after history `h`, with an
      error other than NotFound. */
  predicate Fails(st: Storager, h: Trace, op: Op) {
    match op
    case Get(k) => st.get(h, k).LookupFailed?
    case List(k) => st.list(h, k).ListFailed?
    case CopyObject(_) => CopyReply(st, h, op).Failed?
    case MultipartCopy(_, _) => CopyReply(st, h, op).Failed?
    case Delete(k) => st.delete(h, k).Failed?
  }
}
