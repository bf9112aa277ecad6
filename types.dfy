/** Value types shared by the session model: the OPC UA scalar types the
    session touches, and the browse continuation point it stores. */
module Types {

  datatype Option<+T> = None | Some(value: T)

  /** An unsigned 8-bit value (Rust `u8`). */
  newtype byte = x: int | 0 <= x < 0x100

  /** An opaque OPC UA byte string; continuation-point ids are of this type. */
  type ByteString = seq<byte>

  /** Largest value of a Rust `u32` (the width of `last_session_id`). */
  const MaxUInt32: nat := 0xFFFF_FFFF

  /** A numeric node id: a namespace index and a numeric identifier. */
  datatype NodeId = NodeId(namespace: nat, identifier: nat)

  /** The null node id (namespace 0, identifier 0). */
  const NullNodeId: NodeId := NodeId(0, 0)

  /** A point in time, in milliseconds; stands for `DateTime<UTC>`. */
  type Instant = int

  /** Where a paused Browse resumes: the position in the node's reference
      list and the per-request maximum of references that caused the pause. */
  datatype BrowseCursor = BrowseCursor(node: NodeId, position: nat, maxReferences: nat)

  /** A paused Browse/BrowseNext cursor, identified by a server-generated id. */
  datatype ContinuationPoint = ContinuationPoint(id: ByteString, cursor: BrowseCursor)
}
