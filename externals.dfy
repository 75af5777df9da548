/**
  The crates the engine calls but whose insides are not modelled: `sha2`,
  `mime_guess` and `serde_json`. They are passed to the engine as functions, and
  `Lawful` states all the model relies on about them.
*/
module Externals {
  import opened Wrappers
  import opened Text
  import opened Models

  /** A SHA-256 digest: 32 bytes. */
  type Digest = s: seq<byte> | |s| == 32 witness seq(32, _ => 0)

  datatype Env = Env(
    /** `Sha256::digest` */
    sha256: seq<byte> -> Digest,
    /** `mime_guess::from_path(key).first_or_octet_stream()` */
    guessMime: string -> string,
    /** `serde_json::to_string_pretty::<Bucket>` and `from_str::<Bucket>` */
    encodeBucket: Bucket -> seq<byte>,
    decodeBucket: seq<byte> -> Option<Bucket>,
    /** the same for `ObjectMeta`; a decoding failure carries serde's message */
    encodeMeta: ObjectMeta -> seq<byte>,
    decodeMeta: seq<byte> -> Result<ObjectMeta, string>)

  /** serde_json writes UTF-8 and reads back what it wrote. */
  ghost predicate Lawful(env: Env) {
    && (forall b :: IsUtf8(env.encodeBucket(b)) && env.decodeBucket(env.encodeBucket(b)) == Some(b))
    && (forall m :: IsUtf8(env.encodeMeta(m)) && env.decodeMeta(env.encodeMeta(m)) == Ok(m))
  }
}
