/** The records the engine stores and returns (models.rs). */
module Models {
  import opened Wrappers

  /** `u32`, the width of `max_keys`. */
  type u32 = x: int | 0 <= x < 0x1_0000_0000

  /** A `chrono::DateTime<Utc>`; the engine only stores and copies it. */
  type Timestamp = int

  /** A bucket descriptor: the persisted `.bucket_meta.json` and the index's value. */
  datatype Bucket = Bucket(
    name: string,
    createdAt: Timestamp,
    region: string,
    objectCount: nat,
    totalSize: nat)

  /** An object descriptor: the persisted `.meta/<flattened key>.json`. */
  datatype ObjectMeta = ObjectMeta(
    key: string,
    bucket: string,
    size: nat,
    contentType: string,
    etag: string,
    lastModified: Timestamp,
    metadata: map<string, string>)

  datatype ListObjectsResponse = ListObjectsResponse(
    bucket: string,
    prefix: string,
    objects: seq<ObjectMeta>,
    commonPrefixes: seq<string>,
    isTruncated: bool,
    maxKeys: u32)

  /** The query string of a listing request; `continuation_token` is accepted and ignored. */
  datatype ListObjectsQuery = ListObjectsQuery(
    prefix: Option<string>,
    delimiter: Option<string>,
    maxKeys: Option<u32>,
    continuationToken: Option<string>)

  /**
    What `human_readable_size` renders: below 1024 the exact text "<n> B";
    otherwise a two-decimal float followed by `unit`, of which the model keeps
    only the unit.
  */
  datatype HumanSize = Plain(text: string) | Scaled(unit: string)

  datatype StorageStats = StorageStats(
    totalBuckets: nat,
    totalObjects: nat,
    totalSize: nat,
    totalSizeHuman: HumanSize)
}
