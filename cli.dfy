/**
  The pure helpers of the command-line front end (cli.rs): how `put`, `get`
  and `rm` split their `bucket/key` arguments, the name a download is saved
  under, how long keys are shortened in a listing, where the data directory
  is, the listing arguments, and the one-line error messages.
*/
module Cli {
  import opened Wrappers
  import opened Text
  import opened FileTree
  import opened Errors
  import opened Models
  import Listing

  // ---- file names (`Path::file_name`, Unix separators) ----

  /**
    The last component of a path that is a plain name: trailing '/' and "."
    components are skipped, and a path that ends in ".." or has no component
    left (`""`, `"/"`, `"."`) has none.
  */
  function FileName(path: string): (r: Option<string>)
    ensures r.Some? ==> IsName(r.value)
    decreases |path|
  {
    var last := AfterLast(path, '/');
    if last == "" || last == "." then
      if |last| < |path| then FileName(path[..|path| - |last| - 1]) else None
    else if last == ".." then None
    else Some(last)
  }

  /** The text after the last `c` of `a + [c] + b` is `b` when `b` has no `c`. */
  lemma {:induction false} AfterLastJoin(a: string, b: string, c: char)
    requires c !in b
    ensures AfterLast(a + [c] + b, c) == b
    decreases |b|
  {
    var s := a + [c] + b;
    if b != [] {
      var init := b[..|b| - 1];
      assert s[..|s| - 1] == a + [c] + init;
      AfterLastJoin(a, init, c);
      assert b == init + [b[|b| - 1]];
    }
  }

  /** The text after the last `c` of a string without `c` is all of it. */
  lemma AfterLastNone(s: string, c: char)
    requires c !in s
    ensures AfterLast(s, c) == s
  {
  }

  /** A plain name is its own file name, also below a directory and with a trailing '/'. */
  lemma FileNameOfName(dir: string, name: string)
    requires IsName(name)
    ensures FileName(name) == Some(name)
    ensures FileName(dir + "/" + name) == Some(name)
    ensures FileName(name + "/") == Some(name)
  {
    AfterLastNone(name, '/');
    AfterLastJoin(dir, name, '/');
    AfterLastJoin(name, "", '/');
    assert name + "/" == name + ['/'] + "";
    assert (name + "/")[..|name|] == name;
  }

  /** Paths without a usable last component. */
  lemma NoFileName()
    ensures FileName("") == None && FileName("/") == None && FileName("a/..") == None
  {
    assert AfterLast("/", '/') == "";
    assert "/"[..0] == "";
    AfterLastJoin("a", "..", '/');
    assert "a/.." == "a" + ['/'] + "..";
  }

  // ---- `bucket/key` arguments ----

  const UploadName: string := "upload"

  /**
    The bucket and key `put` stores under: a destination with a '/' is split
    at its first '/'; otherwise the destination is the bucket and the key is
    the source's file name, or "upload" when it has none.
  */
  function PutTarget(source: string, destination: string): (r: (string, string))
    ensures '/' in destination ==> '/' !in r.0 && r.0 + "/" + r.1 == destination
    ensures '/' !in destination ==> r.0 == destination
    ensures '/' !in destination ==> r.1 == FileName(source).GetOr(UploadName)
  {
    match SplitFirst(destination, '/')
    case Some((bucket, key)) => (bucket, key)
    case None => (destination, FileName(source).GetOr(UploadName))
  }

  /** A source file keeps its name as the key when the destination names only the bucket. */
  lemma PutKeepsFileName(dir: string, name: string, bucket: string)
    requires IsName(name) && '/' !in bucket
    ensures PutTarget(dir + "/" + name, bucket) == (bucket, name)
    ensures PutTarget("/", bucket) == (bucket, UploadName)
  {
    FileNameOfName(dir, name);
    NoFileName();
  }

  const GetFormatMessage: string := "Source must be in format: bucket/key"
  const RemoveFormatMessage: string := "Path must be in format: bucket/key"

  /**
    The first-'/' split of `get` (with `GetFormatMessage`) and `rm` (with
    `RemoveFormatMessage`); without a '/' the command stops with that message.
  */
  function AddressOf(arg: string, message: string): (r: Result<(string, string), string>)
    ensures r.Err? <==> '/' !in arg
    ensures r.Err? ==> r.error == message
    ensures r.Ok? ==> '/' !in r.value.0 && r.value.0 + "/" + r.value.1 == arg
  {
    match SplitFirst(arg, '/')
    case Some((bucket, key)) => Ok((bucket, key))
    case None => Err(message)
  }

  /** A bucket without '/' and any key, joined by '/', are split back apart. */
  lemma AddressRoundTrip(bucket: string, key: string, message: string)
    requires '/' !in bucket
    ensures AddressOf(bucket + "/" + key, message) == Ok((bucket, key))
  {
    SplitFirstJoin(bucket, key, '/');
  }

  /**
    Where `get` writes: the `--output` path if given, else the key's text
    after its last '/', which is all of a key without '/'.
  */
  function OutputPath(output: Option<string>, key: string): (r: string)
    ensures output.Some? ==> r == output.value
    ensures output.None? ==> '/' !in r && |r| <= |key| && key[|key| - |r|..] == r
    ensures output.None? && |r| < |key| ==> key[|key| - |r| - 1] == '/'
  {
    output.GetOr(AfterLast(key, '/'))
  }

  /** The download name of `dir/name` is `name`, and a key without '/' is kept whole. */
  lemma OutputPathOfKey(dir: string, name: string)
    requires '/' !in name
    ensures OutputPath(None, dir + "/" + name) == name
    ensures OutputPath(None, name) == name
  {
    AfterLastJoin(dir, name, '/');
    AfterLastNone(name, '/');
  }

  // ---- listing display ----

  /** "…" (U+2026) as its three UTF-8 bytes. */
  const Ellipsis: string := [0xE2 as char, 0x80 as char, 0xA6 as char]

  const KeyWidth: nat := 48

  /**
    How `ls` shows a key: unchanged up to 48 bytes; a longer one as "…"
    and its last 47 bytes.
  */
  function DisplayKey(key: string): (r: string)
    ensures |key| <= KeyWidth ==> r == key
    ensures |key| > KeyWidth ==> |r| == |Ellipsis| + KeyWidth - 1
    ensures |key| > KeyWidth ==> r[..|Ellipsis|] == Ellipsis && r[|Ellipsis|..] == key[|key| - (KeyWidth - 1)..]
  {
    if |key| > KeyWidth then Ellipsis + key[|key| - (KeyWidth - 1)..] else key
  }

  /** A shown key is never longer than 50 bytes, and it ends with the key's last bytes. */
  lemma DisplayKeyBounded(key: string)
    ensures |DisplayKey(key)| <= 50
    ensures var r := DisplayKey(key); var n := if |key| > KeyWidth then KeyWidth - 1 else |key|;
      r[|r| - n..] == key[|key| - n..]
  {
  }

  // ---- configuration ----

  const DefaultDataDir: string := "./freebucket_data"

  /** The data directory: `--data-dir`, else `FREEBUCKET_DATA_DIR`, else "./freebucket_data". */
  function DataDir(flag: Option<string>, envVar: Option<string>): (r: string)
    ensures flag.Some? ==> r == flag.value
    ensures flag.None? && envVar.Some? ==> r == envVar.value
    ensures flag.None? && envVar.None? ==> r == DefaultDataDir
  {
    flag.GetOr(envVar.GetOr(DefaultDataDir))
  }

  const CliMaxKeys: u32 := 1000

  /** What `ls <bucket>` asks `list_objects` for: the prefix or "", no delimiter, 1000 keys. */
  function ListArguments(prefix: Option<string>): (r: (string, Option<string>, u32))
    ensures r.1.None? && r.2 == CliMaxKeys
    ensures r.0 == prefix.GetOr("")
  {
    (prefix.GetOr(""), None, CliMaxKeys)
  }

  /** A listing from the command line never has common prefixes. */
  lemma CliListsNoPrefixes(fs: Fs, bucket: string, prefix: Option<string>, d: Path)
    ensures var (p, delimiter, _) := ListArguments(prefix);
      Listing.PrefixesUnder(fs, bucket, p, delimiter, d) == {}
  {
    Listing.NoDelimiterNoPrefixes(fs, bucket, prefix.GetOr(""), d);
  }

  // ---- error messages ----

  /** The variant of an error, as a number. */
  function Kind(e: AppError): nat {
    match e
    case BucketNotFound(_) => 0
    case BucketAlreadyExists(_) => 1
    case ObjectNotFound(_, _) => 2
    case InvalidBucketName(_) => 3
    case InvalidObjectKey(_) => 4
    case StorageError(_) => 5
    case IoError(_) => 6
  }

  /** `format_error`: one message per variant, with the names or the reason it carries. */
  function FormatError(e: AppError): (r: string)
    ensures e.BucketNotFound? ==> StartsWith(r, "Bucket '") && EndsWith(r, "' not found")
    ensures e.BucketAlreadyExists? ==> StartsWith(r, "Bucket '") && EndsWith(r, "' already exists")
    ensures e.ObjectNotFound? ==> StartsWith(r, "Object '") && EndsWith(r, "' not found")
    ensures e.InvalidBucketName? ==> StartsWith(r, "Invalid bucket name: ")
    ensures e.InvalidObjectKey? ==> StartsWith(r, "Invalid key: ")
    ensures e.StorageError? ==> StartsWith(r, "Storage error: ")
    ensures e.IoError? ==> StartsWith(r, "I/O error: ")
  {
    match e
    case BucketNotFound(name) => "Bucket '" + name + "' not found"
    case BucketAlreadyExists(name) => "Bucket '" + name + "' already exists"
    case ObjectNotFound(bucket, key) => "Object '" + bucket + "/" + key + "' not found"
    case InvalidBucketName(msg) => "Invalid bucket name: " + msg
    case InvalidObjectKey(msg) => "Invalid key: " + msg
    case StorageError(msg) => "Storage error: " + msg
    case IoError(err) => "I/O error: " + IoErrorText(err)
  }

  /** Two errors with the same message are of the same variant. */
  lemma FormatErrorTellsKind(e1: AppError, e2: AppError)
    requires FormatError(e1) == FormatError(e2)
    ensures Kind(e1) == Kind(e2)
  {
    KindOfMessageReads(e1);
    KindOfMessageReads(e2);
  }

  /** Reads the variant back from a message, by its first, second, ninth and last bytes. */
  function KindOfMessage(r: string): nat
    requires |r| >= 9
  {
    if r[0] == 'B' then (if r[|r| - 1] == 'd' then 0 else 1)
    else if r[0] == 'O' then 2
    else if r[0] == 'S' then 5
    else if r[1] == '/' then 6
    else if r[8] == 'b' then 3
    else 4
  }

  /** `KindOfMessage` recovers the variant of every `format_error` message. */
  lemma KindOfMessageReads(e: AppError)
    ensures |FormatError(e)| >= 9 && KindOfMessage(FormatError(e)) == Kind(e)
  {
    var r := FormatError(e);
    LeadChar(r, LeadIn(e), 0);
    LeadChar(r, LeadIn(e), 1);
    if e.InvalidBucketName? || e.InvalidObjectKey? {
      LeadChar(r, LeadIn(e), 8);
    }
  }

  /** The fixed text a `format_error` message of each variant starts with. */
  function LeadIn(e: AppError): (r: string)
    ensures StartsWith(FormatError(e), r) && |r| >= 8
  {
    match e
    case BucketNotFound(_) => "Bucket '"
    case BucketAlreadyExists(_) => "Bucket '"
    case ObjectNotFound(_, _) => "Object '"
    case InvalidBucketName(_) => "Invalid bucket name: "
    case InvalidObjectKey(_) => "Invalid key: "
    case StorageError(_) => "Storage error: "
    case IoError(_) => "I/O error: "
  }

  /** A string that starts with `lead` has `lead`'s byte at each index of `lead`. */
  lemma LeadChar(s: string, lead: string, i: nat)
    requires StartsWith(s, lead) && i < |lead|
    ensures s[i] == lead[i]
  {
    assert s[..|lead|][i] == s[i];
  }

  /** The message names what the error carries, after a fixed lead-in. */
  lemma FormatErrorCarries(e: AppError)
    ensures e.BucketNotFound? || e.BucketAlreadyExists? ==> FormatError(e)[8..8 + |e.name|] == e.name
    ensures e.ObjectNotFound? ==> FormatError(e)[8..8 + |e.bucket| + 1 + |e.key|] == e.bucket + "/" + e.key
    ensures e.InvalidBucketName? ==> FormatError(e)[21..] == e.reason
    ensures e.InvalidObjectKey? ==> FormatError(e)[13..] == e.reason
    ensures e.StorageError? ==> FormatError(e)[15..] == e.message
    ensures e.IoError? ==> FormatError(e)[11..] == IoErrorText(e.error)
  {
  }
}
