/** Keys, headers, markers and errors shared by every layer of the store. */
module Types {
  import opened Bytes

  type u16 = n: int | 0 <= n < 0x1_0000
  type u32 = n: int | 0 <= n < 0x1_0000_0000
  type i64 = n: int | -0x8000_0000_0000_0000 <= n < 0x8000_0000_0000_0000

  /** A SHA-256 digest. */
  type Digest = d: seq<byte> | |d| == 32 witness seq(32, _ => ZERO)

  type ObjectID = seq<byte>

  datatype Params = Params(dataShards: int, parityShards: int) {
    function ShardCount(): int { dataShards + parityShards }

    predicate Valid() { dataShards >= 1 && parityShards >= 1 && ShardCount() <= 256 }
  }

  datatype ShardKey = ShardKey(objectID: ObjectID, stripeIdx: u32, shardIdx: u32)

  datatype ShardHeader = ShardHeader(
    objectID: ObjectID,
    stripeIdx: u32,
    shardIdx: u32,
    dataShards: u16,
    parityShards: u16,
    stripeLen: i64,
    dataLen: i64,
    checksum: Digest)

  datatype ObjectMeta = ObjectMeta(size: i64, stripes: u32, params: Params)

  datatype Error =
    | ShardNotFound
    | CorruptShard(h: ShardHeader)
    | ObjectNotFound
    | Unrecoverable
    | EmptyObjectID
    | NegativeSize
    | InvalidParams
    | ShortInput
    | KeyHeaderMismatch
    | PayloadLength
    | BadHeader
    | BadFileName
    | ContextDone
    | TooFewShards
    | ShardSize
    | ShortData

  datatype Result<+T> = Ok(value: T) | Err(error: Error)
}
