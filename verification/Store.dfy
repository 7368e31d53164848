/** Record types shared by every component (internal/store/store.go). */
module Store {

  type Byte = b: int | 0 <= b < 256

  type Bytes = seq<Byte>

  datatype Option<+T> = None | Some(value: T)

  datatype Result<+T, +E> = Ok(value: T) | Err(error: E)

  /** An etcd key-value pair with its MVCC metadata. */
  datatype Entry = Entry(
    key: Bytes, value: Bytes, createRevision: int, modRevision: int, version: int, lease: int)

  /** A durable copy of one etcd value, namespaced by cluster. */
  datatype Snapshot = Snapshot(cluster: string, entry: Entry, capturedAt: int)

  datatype StoreError =
    | Conflict
    | Compacted
    | NoPreviousVersion
    | NotSetup
    | Closed
    | InvalidSnapshot
    | RecordTooLarge
    | AppendFailed
    | ReplaceFailed
    | CorruptFile
    | FutureRevision
    | InvalidRetention
    | ConfigNotSaved
    | Cancelled
    | StatementFailed
    | CloseFailed
    | InvalidEvent
    | NegativeRetention
}
