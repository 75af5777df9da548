# freebucket storage core, modelled in Dafny

freebucket is a small S3-style object store. Buckets are directories under a
data root. Each bucket directory holds:

- an `objects/` tree, where an object's key is split on '/' into path components;
- a `.meta/` directory with one JSON descriptor per object, where the key's
  '/' becomes `__SLASH__`;
- a `.bucket_meta.json` descriptor for the bucket itself.

A `StorageEngine` keeps an in-memory index of the bucket descriptors. On top
of it sit the HTTP handlers and a command-line front end.

This project models:

- **the engine** (`src/storage.rs`), as a class `Storage.StorageEngine`.
  - Its fields are the index (`buckets`) and the directory tree (`disk`).
  - Each method is proved equal to a pure step function of module `Engine`
    over `State(index, disk)`.
  - The walks are loops proved against specification functions:
    - the start-up scan;
    - `dir_stats`;
    - `walk_objects`;
    - the bucket listing;
    - the statistics;
    - the climb of `cleanup_empty_dirs`.
- **the error table** (`src/error.rs`): the status and code each error is
  answered with.
- **the handlers' pure pieces** (`src/handlers.rs`):
  - the `bucket/key` path parser;
  - the `x-amz-meta-*` header loop and the content type;
  - the listing defaults.
- **the command line's pure pieces** (`src/cli.rs`):
  - the argument splits and the download name;
  - key truncation;
  - the data-directory precedence;
  - `format_error`.

How the model is built:

- **Strings and payloads.** Strings are byte strings: one `char` per UTF-8
  byte, so `|s|` is Rust's `len()`. Object payloads are `seq<byte>`.
- **The file system** is a value `Fs(dirs, files)` over paths relative to the
  data root. The calls the engine makes (`create_dir_all`, `write`,
  `read_to_string`, `read_dir`, `remove_file`, `remove_dir`, `remove_dir_all`)
  are functions on it, with the `io::ErrorKind` each can fail with
  (module `FileTree`).
- **External crates.** JSON (de)serialisation, SHA-256 and the MIME guess
  are collaborator functions in an `Env` record (module `Externals`).
  `Lawful(env)` states the one law the proofs need: serde reads back what it
  wrote, and what it writes is UTF-8.
- **The clock** is a `now: Timestamp` parameter.
- **The invariants.** `Engine.Inv` says that the tree is a real tree and that
  every indexed bucket is a directory holding its descriptor.
  `Engine.Persisted` says that every descriptor on disk reads back as its
  index entry. Every mutating operation keeps both, whether it succeeds or
  fails part-way.

Observations on the source that the model makes explicit:

- **Hidden buckets vanish on restart.** `validate_bucket_name` accepts a
  leading '.', but `scan_buckets` skips dot-directories. So a bucket such as
  `.photos` is lost on restart (`StartFacts.HiddenBucketLostOnRestart`).
- **Two keys can share a descriptor file.** The descriptor file name is not
  injective: `a/b` and `a__SLASH__b` share one (`Layout.MetaPathCollides`).
  A listing can therefore return a descriptor whose key is not the key of the
  file it was read for. `Listing.AnswerLeaves` promises the file's own key
  only when no descriptor file exists.
- **A backslash key is listed under another key.** `walk_objects` turns every
  '\\' of a key into '/', so `a\b` is listed as `a/b`
  (`Listing.BackslashKeyRenamed`).
- **A corrupt bucket descriptor is not repaired.** The scan replaces a bucket
  descriptor that does not parse by a fresh one in memory only; the corrupt
  file stays on disk.

## Model

| member | source | states |
|---|---|---|
| Storage.StorageEngine.constructor | src/storage.rs:26-29 | a new engine has an empty index over the given tree |
| Storage.StorageEngine.Open | src/storage.rs:22-35 | start-up succeeds exactly when no bucket directory fails to load; a failure is the I/O error of one failing directory; on success the index is `ScanIndex`, the tree gains the root and the fresh descriptors, and the invariant holds |
| Storage.StorageEngine.ScanBuckets | src/storage.rs:37-66 | the scan fails exactly when some visible bucket directory cannot be read as text, with that directory's error; otherwise it adds every visible bucket to the index and writes a fresh descriptor where one was missing |
| Storage.StorageEngine.LoadBucketDir | src/storage.rs:47-59 | one directory of the scan: the loaded or fresh descriptor, or the read error, and a fresh descriptor written only when none existed and the write succeeds |
| Engine.LoadBucket | src/storage.rs:47-59 | with no descriptor, a fresh one; it fails only when a descriptor path exists; a descriptor that does not decode gives a fresh one (the failure cases are in `StartFacts.LoadBucketFails`) |
| Engine.FreshBucket | src/storage.rs:68-76 | a new descriptor has the directory's name, the current time, region "local" and zero counters |
| StartFacts.LoadBucketFails | src/storage.rs:48-59 | loading a bucket directory fails exactly when its descriptor is a directory or not UTF-8 |
| StartFacts.LoadBucketErrorIgnoresClock | src/storage.rs:48-59 | whether a bucket directory fails to load, and with which error, does not depend on the clock |
| StartFacts.ScanErrorsEmpty | src/storage.rs:37-66 | the scan has no error exactly when every visible bucket directory loads |
| StartFacts.ScanNameIsDir | src/storage.rs:41-45 | the scan visits only directories directly under the root whose names do not start with '.' |
| StartFacts.StartEstablishesInv | src/storage.rs:22-66 | a successful start-up on any real tree establishes the engine invariant |
| StartFacts.ScanDiskWellFormed | src/storage.rs:53-58 | the tree after the scan's descriptor writes is still a real tree, with the root in it |
| StartFacts.NewDescriptor | src/storage.rs:53-58 | a missing descriptor can be written: its path is free and its parent is a directory |
| StartFacts.StartPersists | src/storage.rs:48-59 | when every existing descriptor parses, after start-up every index entry is what its descriptor on disk reads back as |
| StartFacts.RestartReproduces | src/storage.rs:22-66 | restarting on the tree a running engine left (with no hidden bucket) succeeds, rebuilds the same index and leaves the tree unchanged |
| StartFacts.HiddenBucketLostOnRestart | src/storage.rs:43-45 | a bucket named ".photos" that was created is missing from the index after a restart |
| Storage.StorageEngine.DirStats | src/storage.rs:472-491 | the number of files below a directory and the sum of their lengths |
| Storage.StorageEngine.UpdateBucketStats | src/storage.rs:454-470 | the engine moves to `Engine.UpdateBucketStats` of its old state |
| Engine.UpdateBucketStats | src/storage.rs:454-470 | the recount changes only the counters of the one bucket, and keeps every index entry |
| ObjectFacts.UpdateBucketStatsEffect | src/storage.rs:454-470 | the bucket's counters become the file count and byte count of its `objects` tree; its descriptor is rewritten with them; the counts still hold on the new tree |
| ObjectFacts.UpdateBucketStatsSpec | src/storage.rs:454-470 | the same, and the recount keeps the invariant, and a persisted index stays persisted |
| Storage.StorageEngine.GetStats | src/storage.rs:493-505 | the bucket count is the index size; the object and byte totals are the sums of the buckets' counters; the human size renders the byte total |
| Storage.StorageEngine.ListBuckets | src/storage.rs:142-147 | the result is a permutation of the index's values, ordered by name |
| Storage.StorageEngine.CreateBucket | src/storage.rs:112-140 | the engine moves as `Engine.CreateBucket` says, and keeps the invariant and persistence |
| Storage.StorageEngine.MakeBucket | src/storage.rs:120-139 | the directories and descriptor steps of bucket creation, as `Engine.MakeBucket` says |
| Engine.CreateBucket | src/storage.rs:112-140 | a failure leaves the index alone; a success adds exactly the new bucket |
| Engine.MakeBucket | src/storage.rs:120-139 | a failure leaves the index alone; a success adds exactly the new bucket |
| Engine.RemoveBucketDir | src/storage.rs:174-175 | `remove_dir_all` succeeds exactly when the bucket directory exists; the entry and everything below the directory go, the rest stays; on failure nothing changes (the whole delete is `BucketFacts.DeleteBucketSuccess`) |
| BucketFacts.CreateBucketChecksFirst | src/storage.rs:113-118 | an invalid name is refused with the validator's error, then a known name with `BucketAlreadyExists`, both before the tree is touched |
| BucketFacts.CreateBucketSuccess | src/storage.rs:120-155 | a new bucket has zero counters, the given region and the current time; it is in the index and `get_bucket` returns it; both directories exist; only its descriptor file changes |
| BucketFacts.CreateBucketFresh | src/storage.rs:112-140 | a valid, unknown name with nothing on disk under it is always created |
| BucketFacts.CreateBucketKeepsInv | src/storage.rs:112-140 | creating a bucket keeps the invariant, and persistence, in every outcome |
| BucketFacts.MakeBucketOkKeepsInv | src/storage.rs:120-139 | a successful creation keeps the invariant and persistence |
| BucketFacts.MakeBucketErrKeepsInv | src/storage.rs:120-135 | a creation failing part-way leaves directories that still satisfy the invariant |
| BucketFacts.BucketDirsFacts | src/storage.rs:120-135 | after the two `create_dir_all` calls and the write, the tree is real, gains exactly the descriptor file and only directories inside the bucket |
| Storage.StorageEngine.DeleteBucket | src/storage.rs:157-178 | the engine moves as `Engine.DeleteBucket` says, and keeps the invariant and persistence |
| Engine.DeleteBucket | src/storage.rs:157-178 | a failure leaves the index alone; a success removes exactly that bucket |
| BucketFacts.DeleteBucketRefusals | src/storage.rs:158-172 | an unknown bucket, a non-empty `objects` directory and an `objects` path that is a file are refused in that order, leaving the state as it was |
| BucketFacts.DeleteBucketSuccess | src/storage.rs:174-177 | a deletion removes the index entry and every path below the bucket directory, and nothing else |
| BucketFacts.DeleteBucketEmpty | src/storage.rs:163-177 | a known bucket whose `objects` directory is missing or empty is always deleted |
| BucketFacts.DeleteBucketKeepsInv | src/storage.rs:157-178 | deleting a bucket keeps the invariant and persistence |
| Layout.ValidateBucketName | src/storage.rs:93-110 | accepts exactly the names of 3 to 63 lower-case letters, digits, '-' and '.' that start and end with no '-'; each refusal carries the message of the first check that fails |
| Layout.ValidNameIsName | src/storage.rs:93-110 | an accepted name is one directory entry name |
| Layout.HiddenNameAccepted | src/storage.rs:93-110 | the validator accepts ".photos", a name the scan skips |
| Layout.ObjectPath | src/storage.rs:82-84 | an object path lies below the bucket's `objects` directory, and is that directory itself only for the empty key |
| Layout.FlatKey | src/storage.rs:86-89 | the flattened key has no '/' |
| Layout.KeySegmentsJoin | src/storage.rs:82-84 | rejoining a key's path components with '/' gives the key back |
| Layout.KeySegments | src/storage.rs:82-84 | the empty key has no components; no component holds '/' (rejoining is `Layout.KeySegmentsJoin`) |
| Layout.MetaPath | src/storage.rs:86-89 | a descriptor lies directly in the bucket's `.meta` directory under a '/'-free name ending in ".json" (two keys can share one: `Layout.MetaPathCollides`) |
| Layout.ObjectPathInjective | src/storage.rs:82-84 | different keys have different object paths |
| Layout.RelKeyRoundTrip | src/storage.rs:425-429 | a file below `objects` is the object path of its relative key, and that key is safe |
| Layout.RelKeyInjective | src/storage.rs:425-429 | different files below `objects` have different relative keys |
| Layout.DataAndMetaApart | src/storage.rs:78-89 | a data file, an object descriptor and a bucket descriptor never share a path |
| Layout.MetaPathCollides | src/storage.rs:86-89 | "a/b" and "a__SLASH__b" share one descriptor path |
| Engine.Etag | src/storage.rs:213-216 | the ETag is 66 bytes: a quote, 64 lower-case hex digits, a quote |
| Engine.EtagIffDigest | src/storage.rs:213-216 | two payloads share an ETag exactly when their SHA-256 digests agree |
| Storage.StorageEngine.PutObject | src/storage.rs:182-249 | the engine moves as `Engine.PutObject` says, and keeps the invariant and persistence |
| Storage.StorageEngine.StoreObjectFiles | src/storage.rs:204-248 | the writes and the recount of a put, as `Engine.PutObject` says |
| Engine.StoreObject | src/storage.rs:218-242 | the four writes only add directories and change no file but the data file and the descriptor; on success both hold the given bytes (exact trees in `ObjectFacts.StoreObjectOk` and `ObjectFacts.StoreObjectGrows`) |
| Engine.PutObject | src/storage.rs:182-249 | a failed put leaves the index as it was; no put adds or removes a bucket |
| ObjectFacts.PutObjectRefusals | src/storage.rs:190-202 | an unknown bucket, then an empty or over-1024-byte key, are refused with the source's errors, leaving the state as it was |
| ObjectFacts.PutObjectStages | src/storage.rs:204-248 | past the checks, a put builds the descriptor, runs the four writes, and recounts only when all four succeed |
| ObjectFacts.StoreObjectOk | src/storage.rs:218-242 | when all four writes succeed, the data and the descriptor are stored under their two paths, and the only new directories are the ancestors of the data file and the bucket's `.meta` directory |
| ObjectFacts.StoreObjectGrows | src/storage.rs:218-242 | whichever write fails, the tree has only grown inside the bucket and no bucket descriptor changed |
| ObjectFacts.PutObjectSuccess | src/storage.rs:182-249 | a stored descriptor carries the key, bucket, payload length, ETag, given or guessed content type, metadata and time; the tree changes in the data file, the descriptor and the bucket descriptor, and gains exactly the data file's ancestor directories and `.meta`; the counters are recounted |
| ObjectFacts.PutObjectKeepsInv | src/storage.rs:182-249 | a put keeps the invariant and persistence, whether it succeeds or not |
| ObjectFacts.PutThenGet | src/storage.rs:182-272 | after a successful put, `get_object` of that key returns the descriptor the put returned and the same bytes |
| ObjectFacts.GetStored | src/storage.rs:306-308 | a descriptor file holding an encoded descriptor reads back as that descriptor |
| ObjectFacts.GetObjectMetaCases | src/storage.rs:274-309 | every outcome of `get_object_meta`: not found, a descriptor rebuilt from the data file, "is a directory", invalid UTF-8, "Corrupt metadata: ..." |
| ObjectFacts.GetObjectCases | src/storage.rs:251-272 | `get_object` checks the bucket, then the data file, then reads the descriptor, and returns it with the bytes |
| Engine.GetBucket | src/storage.rs:149-155 | the bucket's descriptor exactly when the name is in the index, else `BucketNotFound` with that name |
| Engine.GetObjectMeta | src/storage.rs:274-309 | `ObjectNotFound` exactly when neither descriptor nor data file exists; without a descriptor, one rebuilt from the data file with no metadata and the current time; with one, what it decodes to (all outcomes in `ObjectFacts.GetObjectMetaCases`) |
| Engine.GetObject | src/storage.rs:251-272 | `BucketNotFound` for an unknown bucket; `ObjectNotFound` exactly when the bucket is known and the data file missing; on success the stored bytes with `get_object_meta`'s descriptor |
| Storage.StorageEngine.DeleteObject | src/storage.rs:311-344 | the engine moves as `Engine.DeleteObject` says, and keeps the invariant and persistence |
| Storage.StorageEngine.RemoveObjectFiles | src/storage.rs:327-343 | the removals, the cleanup and the recount of a delete, as `Engine.DeleteObject` says |
| Engine.DeleteObject | src/storage.rs:311-344 | a failed delete leaves the index as it was; no delete adds or removes a bucket |
| ObjectFacts.DeleteObjectRefusals | src/storage.rs:312-325 | an unknown bucket, a missing object and an object path that is a directory are refused, leaving the state as it was |
| ObjectFacts.DeleteObjectStages | src/storage.rs:327-343 | past the checks, a delete removes the data file, then the descriptor if present, climbs out removing empty directories, and recounts |
| ObjectFacts.DeleteObjectSuccess | src/storage.rs:311-344 | a delete removes exactly the data file and the descriptor and rewrites the bucket descriptor; only empty directories above the object go; the counters are recounted |
| ObjectFacts.DeleteObjectKeepsInv | src/storage.rs:311-344 | a delete keeps the invariant and persistence, whether it succeeds or not |
| ObjectFacts.DeleteThenGet | src/storage.rs:251-344 | after a successful delete, `get_object` of that key reports the object missing |
| Storage.StorageEngine.CleanupEmptyDirs | src/storage.rs:346-364 | the tree becomes `Engine.Cleanup` of the old one; the index is untouched |
| CleanupFacts.CleanupSpec | src/storage.rs:346-364 | the climb keeps every file and the tree's shape; it removes only empty directories strictly between the start and the stop; above the first non-empty directory nothing goes |
| Engine.Cleanup | src/storage.rs:346-364 | the climb keeps every file and only removes directories (what it removes is `CleanupFacts.CleanupSpec`) |
| CleanupFacts.EmptyDirHasNothingBelow | src/storage.rs:349-351 | nothing lies below an empty directory, so removing it loses nothing |
| Storage.StorageEngine.ListObjects | src/storage.rs:366-404 | an unknown bucket gives `BucketNotFound`; a known bucket whose `objects` path is a file gives "not a directory"; otherwise the answer is described by `Listing.Answers` |
| Storage.StorageEngine.WalkObjects | src/storage.rs:406-452 | the walk fails exactly on a file path; otherwise it lists each leaf file's descriptor once, and exactly the common prefixes of the files below |
| Listing.WalkAnswers | src/storage.rs:388-403 | sorting by key, cutting at `max_keys`, and sorting and deduplicating the prefixes: together these give a listing that satisfies `Answers` |
| Listing.AnswerObjects | src/storage.rs:388-394 | a listing has at most `max_keys` objects, in key order, each one the walk found |
| Listing.AnswerLeaves | src/storage.rs:420-448 | every listed descriptor was read for a file below `objects` whose key starts with the prefix and is not folded; with no descriptor file, it has that very key |
| Listing.EveryCandidateAccounted | src/storage.rs:425-448 | every file whose key starts with the prefix is folded into a listed common prefix, or listed, or its descriptor fails to read |
| Listing.NoDelimiterNoPrefixes | src/storage.rs:436-443 | without a delimiter there are no common prefixes |
| Listing.CommonPrefixShape | src/storage.rs:436-441 | a common prefix is the prefix, then text without the delimiter, then the delimiter |
| Listing.EmptyDelimiterFoldsAll | src/storage.rs:436-441 | an empty delimiter folds every key into the prefix itself, so no object is listed |
| Listing.WalkKeyOfObject | src/storage.rs:425-429 | an object stored under a key without '\\' is walked under that key |
| Listing.WalkKey | src/storage.rs:425-429 | a walked key never holds '\\' (which keys come back is `Listing.WalkKeyOfObject` and `Listing.BackslashKeyRenamed`) |
| Listing.Fold | src/storage.rs:436-443 | a key folds exactly when a delimiter is given and occurs after the prefix; the common prefix extends the prefix and is a prefix of the key (its shape in a listing is `Listing.CommonPrefixShape`) |
| Listing.BackslashKeyRenamed | src/storage.rs:425-429 | the key "a\\b" is walked as "a/b" |
| Listing.PutThenListed | src/storage.rs:182-452 | a freshly stored object whose key starts with the prefix and is not folded is listed with the descriptor the put returned |
| Listing.EnumeratesCount | src/storage.rs:393 | any reordering of the walk's descriptors has one per leaf, so `is_truncated` compares the leaf count with `max_keys` |
| Sorting.SortBy | src/storage.rs:145 | the result is a permutation of the input, ordered by the key |
| Sorting.SortDedup | src/storage.rs:390-391 | sorting then deduplicating keeps exactly the same strings, strictly increasing |
| Sorting.Dedup | src/storage.rs:391 | deduplication keeps exactly the same strings and, on sorted input, gives a strictly increasing list |
| SizeFormat.HumanReadableSize | src/storage.rs:508-521 | the loop picks the unit `Rendered` describes: the largest power of 1024 up to PB not above the count |
| SizeFormat.UnitIndex | src/storage.rs:508-521 | the unit chosen is the largest power of 1024, up to PB, not above the count |
| SizeFormat.UnitUnique | src/storage.rs:508-521 | only one unit fits a byte count |
| SizeFormat.RenderedCases | src/storage.rs:508-521 | below 1 KiB the exact count and " B"; from 1 KiB to 1 MiB "KB"; from 1 PiB on "PB" |
| Errors.IntoResponse | src/error.rs:23-72 | each error's status and code, with the code repeated as `error`, in a JSON body |
| Errors.FromIo | src/error.rs:74-78 | every I/O error becomes `IoError` with the same kind |
| Errors.IoErrorText | src/error.rs:56-59 | the text an I/O error is displayed with is never empty |
| Errors.IoErrorTextDistinct | src/error.rs:56-59 | different kinds of I/O error have different texts |
| Errors.CodeDeterminesStatus | src/error.rs:23-72 | two errors with the same code have the same status |
| Errors.StatusClasses | src/error.rs:23-72 | exactly the storage and I/O errors are 5xx; all others are 4xx; the status is always one of 400, 404, 409, 500 |
| Handlers.StripSlash | src/handlers.rs:113 | at most one leading '/' is dropped |
| Handlers.ParseBucketKey | src/handlers.rs:111-120 | a path fails exactly when no '/' is left after the leading one; otherwise the bucket has no '/' and bucket + "/" + key is the path |
| Handlers.ParseBucketKeyJoin | src/handlers.rs:111-120 | a bucket without '/' joined to any key parses back to the pair, with or without a leading '/' (the latter for a non-empty bucket) |
| Handlers.OnlyOneSlashStripped | src/handlers.rs:113 | "//b/k" names the bucket "" and the key "b/k" |
| Handlers.EmptyKeyRejected | src/handlers.rs:111-120 | "b/" parses to the empty key, which `put_object` refuses as invalid once the bucket exists |
| Handlers.ValueText | src/handlers.rs:275 | a header value is text exactly when every byte is visible ASCII or a tab, and then it is those bytes |
| Handlers.ExtractMetadata | src/handlers.rs:270-280 | the metadata names are exactly the suffixes of the `x-amz-meta-` headers with text values; each holds the value of the last such header |
| Handlers.ContentType | src/handlers.rs:264-267 | the first `content-type` header decides, and a value that is not text gives none |
| Handlers.ListArguments | src/handlers.rs:103-105 | the prefix defaults to "", the delimiter is passed through, `max_keys` defaults to 1000 |
| Handlers.ListArgumentsIgnoreToken | src/handlers.rs:227-229 | the continuation token changes nothing in the listing's arguments |
| Cli.FileName | src/cli.rs:202-205 | a file name, when there is one, is a plain entry name |
| Cli.FileNameOfName | src/cli.rs:202-205 | a plain name is its own file name, also below a directory and with a trailing '/' |
| Cli.NoFileName | src/cli.rs:202-205 | "", "/" and "a/.." have no file name |
| Cli.PutTarget | src/cli.rs:198-215 | a destination with '/' splits at its first '/'; otherwise it is the bucket, and the key is the source's file name or "upload" |
| Cli.PutKeepsFileName | src/cli.rs:198-215 | uploading `dir/name` to a bare bucket stores it under `name`; a source with no file name is stored as "upload" |
| Cli.AddressOf | src/cli.rs:250-255 | `get` and `rm` stop with their message exactly when the argument has no '/'; otherwise bucket + "/" + key is the argument |
| Cli.AddressRoundTrip | src/cli.rs:283-288 | a bucket without '/' joined to any key splits back to the pair |
| Cli.OutputPath | src/cli.rs:260-262 | the download is written to `--output` if given, else to the key's last '/'-free tail |
| Cli.OutputPathOfKey | src/cli.rs:260-262 | `dir/name` downloads to `name`, and a key without '/' to itself |
| Cli.DisplayKey | src/cli.rs:175-179 | a key of up to 48 bytes is shown as is; a longer key as "…" and its last 47 bytes |
| Cli.DisplayKeyBounded | src/cli.rs:175-179 | a shown key is at most 50 bytes and ends with the key's last bytes |
| Cli.DataDir | src/cli.rs:98-100 | `--data-dir`, else `FREEBUCKET_DATA_DIR`, else "./freebucket_data" |
| Cli.ListArguments | src/cli.rs:162-163 | `ls` lists with the prefix or "", no delimiter and 1000 keys |
| Cli.CliListsNoPrefixes | src/cli.rs:163 | a listing from the command line never has common prefixes |
| Cli.FormatError | src/cli.rs:329-339 | each variant's message has its own lead-in ("Bucket '", "Object '", "Invalid bucket name: ", "Invalid key: ", "Storage error: ", "I/O error: ") and, for the three name errors, its own ending ("' not found", "' already exists") |
| Cli.FormatErrorTellsKind | src/cli.rs:329-339 | two errors with the same message are of the same kind |
| Cli.KindOfMessageReads | src/cli.rs:329-339 | the variant can be read back from the message's first, second, ninth and last bytes |
| Cli.FormatErrorCarries | src/cli.rs:329-339 | the message carries the names, the reason, or the I/O error's text after a fixed lead-in |

## Left out

- **Locking and concurrency.** The `RwLock` around the index is not modelled.
  Each operation runs alone on the state it is given.
- **Read-only calls.** `get_bucket`, `get_object` and `get_object_meta` only
  read. They are the pure functions `Engine.GetBucket`, `Engine.GetObject`
  and `Engine.GetObjectMeta` on the engine's `Snapshot()`, not methods of the
  class.
- **File-system failures.** An operation fails only in the ways the tree
  shape explains: a file where a directory is needed, a directory where a
  file is needed, a missing path, bytes that are not UTF-8.
  - Permission, disk-full and device errors are not modelled.
  - Neither are the per-entry errors that `.flatten()` drops from `read_dir`.
- **External crates.** `serde_json`, `sha2` with `hex`'s digest, and
  `mime_guess` are functions of `Env`. Only the read-back law of
  serialisation is assumed of them, as `Lawful(env)` in the lemmas that need
  it.
- **One clock value per call.** `Utc::now()` is the parameter `now`. The
  scan uses one `now` for every fresh descriptor it makes.
- SizeFormat.HumanReadableSize: the number printed before "KB" … "PB" is
  an `f64` with two decimals. Only the unit and the exact byte count below
  1 KiB are modelled; the floating-point part is not.
- **File-name length.** A flattened key plus ".json" longer than 255 bytes
  makes the descriptor write fail with `ENAMETOOLONG` after the data file is
  already written. The model puts no limit on a name's length, so that
  half-written put is not modelled.
- **Integer widths.** Counts and sizes are unbounded `nat`s; `u64`
  overflow is not modelled. `max_keys` is a `u32`.
- Storage.StorageEngine.PutObject: requires `KeySafe(key)`. Keys with an
  empty, "." or ".." segment between '/'s are not modelled, because
  `PathBuf::join` would resolve them outside the key's own path. The empty
  key is allowed; `put_object` refuses it itself. The same precondition is on
  `DeleteObject`, `Engine.PutObject` and `Engine.DeleteObject`.
- Engine.GetObjectMeta: has no `KeySafe` precondition, because it must answer
  for every walked key, but for a key with an empty, "." or ".." segment it
  does not follow the operating system's path resolution. The model looks up
  the literal components, so "a//b" or "a/" answers `ObjectNotFound`. The
  source's `objects/a//b` resolves to `objects/a/b` and finds that file, and
  `objects/a/` on a directory gives "Is a directory". The same holds for
  `Listing.LeafMetas`, which applies it to walked keys: such a key can arise
  only from a file name holding '\\', which the walk turns into '/'. Such a
  key is then listed as skipped where the source might find a file.
- Engine.GetObject: the same gap as `Engine.GetObjectMeta`. For a key that is
  not `KeySafe` its "`ObjectNotFound` exactly when the data file is missing"
  is about the literal path, not the resolved one.
- Storage.StorageEngine.ScanBuckets: bucket directory names are taken byte
  for byte. The source's `to_string_lossy` replaces invalid UTF-8 with
  U+FFFD before indexing, so a bucket directory whose name is not UTF-8 is
  indexed under a different name there. The same holds for `Engine.ScanNames`
  and `Engine.ScanIndex`.
- Listing.WalkKey: file names below `objects` are taken byte for byte; the
  source's `to_string_lossy` would replace invalid UTF-8. The source's
  `get_object_meta` then finds no such path and skips the file, where the
  model lists it with a rebuilt descriptor. The same holds for
  `Storage.StorageEngine.WalkObjects` and `Listing.LeafMetas`.
- Storage.StorageEngine.Open: the "Cannot create data dir" error of
  `create_dir_all` on the root is not modelled. The root is the empty path,
  which always exists.
- **A failed start leaves its writes.** When a scan fails, the descriptors
  already written stay on disk. The model returns only the error: the engine
  is discarded.
- **Recounting cannot fail.** `update_bucket_stats` returns `Ok` on every
  path of the source; a failed descriptor write is ignored, and the model
  ignores it the same way.
- **Scan and constructor are split.** Open builds the empty engine, then
  runs `ScanBuckets` on it. The source does the same inside `new`.
- **Order the source leaves open.**
  - `read_dir` returns entries in an unspecified order; the model walks them
    in any order and proves the result independent of it.
  - `sort_by` is stable, so buckets or objects with equal names keep an
    order the model does not fix.
  - The order in which `HeaderMap::iter` yields headers is taken as given
    (the sequence `headers`); header names are assumed lower-case, as the
    `http` crate stores them.
- **The rest of the server and of the command line** are not part of this
  model:
  - the dashboard, `main`, `config`;
  - the axum routing, `multipart` uploads with their loop, and `uuid`
    request ids;
  - the printing and the process exits of `run_cli`.
- Cli.DisplayKey: the source slices `obj.key[len-47..]`, which panics when
  that byte offset falls inside a multi-byte character. The model cuts at
  the byte offset without the panic. The `{:<50}` column padding is not
  modelled.
- Cli.FileName: follows `Path::file_name` with Unix '/' separators.
  `to_string_lossy` is the identity on byte strings here.
