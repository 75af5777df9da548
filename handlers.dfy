/**
  The pure pieces of the HTTP handlers (handlers.rs) that decide what reaches
  the engine: the `bucket/key` path parser, the request headers that become
  the content type and the user metadata of an upload, and the defaults of a
  listing query.
*/
module Handlers {
  import opened Wrappers
  import opened Text
  import opened Errors
  import opened Models
  import opened Externals
  import opened Layout
  import opened Engine
  import ObjectFacts

  const PathFormatMessage: string := "Path must be in the format: {bucket}/{key}"

  /** The path with at most one leading '/' removed (`strip_prefix('/').unwrap_or(path)`). */
  function StripSlash(path: string): (r: string)
    ensures path != [] && path[0] == '/' ==> r == path[1..]
    ensures !(path != [] && path[0] == '/') ==> r == path
  {
    if path != [] && path[0] == '/' then path[1..] else path
  }

  /**
    `parse_bucket_key`: one leading '/' dropped, then split at the first '/'
    of what remains into the bucket and the key.
  */
  function ParseBucketKey(path: string): (r: Result<(string, string), AppError>)
    ensures r.Err? <==> '/' !in StripSlash(path)
    ensures r.Err? ==> r.error == InvalidObjectKey(PathFormatMessage)
    ensures r.Ok? ==> '/' !in r.value.0 && r.value.0 + "/" + r.value.1 == StripSlash(path)
  {
    match SplitFirst(StripSlash(path), '/')
    case None => Err(InvalidObjectKey(PathFormatMessage))
    case Some((bucket, key)) => Ok((bucket, key))
  }

  /**
    A bucket without '/' and any key, joined by '/', parse back, with one
    leading '/' or, for a non-empty bucket, without.
  */
  lemma ParseBucketKeyJoin(bucket: string, key: string)
    requires '/' !in bucket
    ensures bucket != "" ==> ParseBucketKey(bucket + "/" + key) == Ok((bucket, key))
    ensures ParseBucketKey("/" + bucket + "/" + key) == Ok((bucket, key))
  {
    SplitFirstJoin(bucket, key, '/');
    var p := bucket + "/" + key;
    if bucket != "" {
      assert p[0] == bucket[0];
      assert StripSlash(p) == p;
    }
    assert StripSlash("/" + p) == p;
    assert "/" + bucket + "/" + key == "/" + p;
  }

  /** Only one leading '/' goes: "//b/k" names the bucket "" and the key "b/k". */
  lemma OnlyOneSlashStripped()
    ensures ParseBucketKey("//b/k") == Ok(("", "b/k"))
  {
    assert StripSlash("//b/k") == "/b/k";
    SplitFirstJoin("", "b/k", '/');
    assert "" + "/" + "b/k" == "/b/k";
  }

  /**
    `"b/"` parses to the empty key, which `put_object` turns down as an invalid
    key once the bucket exists (and as a missing bucket before that).
  */
  lemma EmptyKeyRejected(s: State, env: Env, bucket: string, data: seq<byte>, contentType: Option<string>,
                         metadata: map<string, string>, now: Timestamp)
    requires '/' !in bucket && bucket != ""
    ensures ParseBucketKey(bucket + "/") == Ok((bucket, ""))
    ensures KeySafe("")
    ensures var r := PutObject(s, env, bucket, "", data, contentType, metadata, now).0;
      && (bucket in s.index ==> r == Err(InvalidObjectKey(KeyLengthMessage)))
      && (bucket !in s.index ==> r == Err(BucketNotFound(bucket)))
  {
    ParseBucketKeyJoin(bucket, "");
    assert bucket + "/" + "" == bucket + "/";
    ObjectFacts.PutObjectRefusals(s, env, bucket, "", data, contentType, metadata, now);
  }

  // ---- request headers ----

  /** A request header: its (lower-case) name and the bytes of its value. */
  type Header = (string, seq<byte>)

  const MetaHeaderPrefix: string := "x-amz-meta-"
  const ContentTypeHeader: string := "content-type"

  /** The bytes `HeaderValue::to_str` accepts: visible ASCII and the tab. */
  predicate Visible(b: byte) {
    32 <= b < 127 || b == 9
  }

  /** `HeaderValue::to_str`: the value as text when every byte is visible ASCII. */
  function ValueText(v: seq<byte>): (r: Option<string>)
    ensures r.Some? <==> forall i | 0 <= i < |v| :: Visible(v[i])
    ensures r.Some? ==> |r.value| == |v| && forall i | 0 <= i < |v| :: r.value[i] as int == v[i]
  {
    if v == [] then Some("")
    else if !Visible(v[0]) then None
    else match ValueText(v[1..])
      case None => None
      case Some(rest) => Some([v[0] as char] + rest)
  }

  /** Header `h` supplies user metadata under `k`: its name is the prefix then `k`, and its value is text. */
  predicate Supplies(h: Header, k: string) {
    && StartsWith(h.0, MetaHeaderPrefix)
    && h.0[|MetaHeaderPrefix|..] == k
    && ValueText(h.1).Some?
  }

  /** The metadata name a header carries, when it is one. */
  function MetaName(h: Header): string
    requires StartsWith(h.0, MetaHeaderPrefix)
  {
    h.0[|MetaHeaderPrefix|..]
  }

  /**
    The `x-amz-meta-*` loop of `s3_put_object`, over the headers in the order
    the map yields them: the metadata names are exactly the suffixes of the
    headers that supply one, and each holds the text of the last such header.
  */
  method ExtractMetadata(headers: seq<Header>) returns (metadata: map<string, string>)
    ensures forall i | 0 <= i < |headers| && StartsWith(headers[i].0, MetaHeaderPrefix) && ValueText(headers[i].1).Some? ::
      MetaName(headers[i]) in metadata
    ensures forall k | k in metadata :: exists i | 0 <= i < |headers| ::
      && Supplies(headers[i], k)
      && metadata[k] == ValueText(headers[i].1).value
      && forall j | i < j < |headers| :: !Supplies(headers[j], k)
  {
    metadata := map[];
    for n := 0 to |headers|
      invariant forall i | 0 <= i < n && StartsWith(headers[i].0, MetaHeaderPrefix) && ValueText(headers[i].1).Some? ::
        MetaName(headers[i]) in metadata
      invariant forall k | k in metadata :: exists i | 0 <= i < n ::
        && Supplies(headers[i], k)
        && metadata[k] == ValueText(headers[i].1).value
        && forall j | i < j < n :: !Supplies(headers[j], k)
    {
      var (name, value) := headers[n];
      if StartsWith(name, MetaHeaderPrefix) {
        var metaKey := name[|MetaHeaderPrefix|..];
        var text := ValueText(value);
        if text.Some? {
          metadata := metadata[metaKey := text.value];
          assert Supplies(headers[n], metaKey);
        }
      }
    }
  }

  /**
    `headers.get("content-type")` then `to_str().ok()`: the first header of
    that name decides, and a value that is not text gives no content type.
  */
  function ContentType(headers: seq<Header>): (r: Option<string>)
    ensures r.Some? ==> exists i | 0 <= i < |headers| ::
      headers[i].0 == ContentTypeHeader && ValueText(headers[i].1) == r
      && forall j | 0 <= j < i :: headers[j].0 != ContentTypeHeader
    ensures (forall i | 0 <= i < |headers| :: headers[i].0 != ContentTypeHeader) ==> r.None?
    ensures forall i | 0 <= i < |headers| && headers[i].0 == ContentTypeHeader
                       && (forall j | 0 <= j < i :: headers[j].0 != ContentTypeHeader) ::
      r == ValueText(headers[i].1)
  {
    if headers == [] then None
    else if headers[0].0 == ContentTypeHeader then ValueText(headers[0].1)
    else
      var r := ContentType(headers[1..]);
      assert r.Some? ==> exists i | 0 <= i < |headers| ::
        headers[i].0 == ContentTypeHeader && ValueText(headers[i].1) == r
        && forall j | 0 <= j < i :: headers[j].0 != ContentTypeHeader by {
        if r.Some? {
          var i :| 0 <= i < |headers[1..]| && headers[1..][i].0 == ContentTypeHeader && ValueText(headers[1..][i].1) == r
            && forall j | 0 <= j < i :: headers[1..][j].0 != ContentTypeHeader;
          assert headers[i + 1] == headers[1..][i];
          forall j | 0 <= j < i + 1 ensures headers[j].0 != ContentTypeHeader {
            if j > 0 {
              assert headers[j] == headers[1..][j - 1];
            }
          }
        }
      }
      r
  }

  // ---- listing queries ----

  const DefaultMaxKeys: u32 := 1000

  /**
    What both listing handlers pass to `list_objects`: the prefix or "", the
    delimiter as given, and `max_keys` or 1000; the continuation token is
    ignored.
  */
  function ListArguments(q: ListObjectsQuery): (r: (string, Option<string>, u32))
    ensures r.1 == q.delimiter
    ensures q.prefix.Some? ==> r.0 == q.prefix.value
    ensures q.prefix.None? ==> r.0 == ""
    ensures q.maxKeys.Some? ==> r.2 == q.maxKeys.value
    ensures q.maxKeys.None? ==> r.2 == DefaultMaxKeys
  {
    (q.prefix.GetOr(""), q.delimiter, q.maxKeys.GetOr(DefaultMaxKeys))
  }

  /** The continuation token changes nothing. */
  lemma ListArgumentsIgnoreToken(q: ListObjectsQuery, token: Option<string>)
    ensures ListArguments(q.(continuationToken := token)) == ListArguments(q)
  {
  }
}
