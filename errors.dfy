/** The engine's error kinds and their HTTP rendering (error.rs). */
module Errors {
  import opened FileTree

  datatype AppError =
    | BucketNotFound(name: string)
    | BucketAlreadyExists(name: string)
    | ObjectNotFound(bucket: string, key: string)
    | InvalidBucketName(reason: string)
    | InvalidObjectKey(reason: string)
    | StorageError(message: string)
    | IoError(error: IoErrorKind)

  /** `From<std::io::Error>`: every I/O failure becomes `IoError`. */
  function FromIo(e: IoErrorKind): (r: AppError)
    ensures r.IoError? && r.error == e
  {
    IoError(e)
  }

  /** The `Display` text of an `io::Error` of each kind, as Linux reports it. */
  function IoErrorText(e: IoErrorKind): (r: string)
    ensures |r| > 0
  {
    match e
    case NotFound => "No such file or directory (os error 2)"
    case AlreadyExists => "File exists (os error 17)"
    case NotADirectory => "Not a directory (os error 20)"
    case IsADirectory => "Is a directory (os error 21)"
    case DirectoryNotEmpty => "Directory not empty (os error 39)"
    case InvalidData => "stream did not contain valid UTF-8"
  }

  /** The JSON body `{error, code, message}`. */
  datatype ErrorBody = ErrorBody(error: string, code: string, message: string)

  datatype ErrorResponse = ErrorResponse(status: nat, contentType: string, body: ErrorBody)

  /** `into_response`: status and code per kind, the code repeated as `error`. */
  function IntoResponse(e: AppError): (r: ErrorResponse)
    ensures r.body.error == r.body.code
    ensures r.contentType == "application/json"
    ensures e.BucketNotFound? ==> r.status == 404 && r.body.code == "NoSuchBucket"
    ensures e.BucketAlreadyExists? ==> r.status == 409 && r.body.code == "BucketAlreadyOwnedByYou"
    ensures e.ObjectNotFound? ==> r.status == 404 && r.body.code == "NoSuchKey"
    ensures e.InvalidBucketName? ==> r.status == 400 && r.body.code == "InvalidBucketName"
    ensures e.InvalidObjectKey? ==> r.status == 400 && r.body.code == "InvalidObjectKey"
    ensures e.StorageError? || e.IoError? ==> r.status == 500 && r.body.code == "InternalError"
  {
    var (status, code, message) := match e
      case BucketNotFound(name) =>
        (404, "NoSuchBucket", "The specified bucket '" + name + "' does not exist")
      case BucketAlreadyExists(name) =>
        (409, "BucketAlreadyOwnedByYou", "The bucket '" + name + "' already exists")
      case ObjectNotFound(bucket, key) =>
        (404, "NoSuchKey", "The specified key '" + key + "' does not exist in bucket '" + bucket + "'")
      case InvalidBucketName(reason) =>
        (400, "InvalidBucketName", "Invalid bucket name: " + reason)
      case InvalidObjectKey(reason) =>
        (400, "InvalidObjectKey", "Invalid object key: " + reason)
      case StorageError(msg) =>
        (500, "InternalError", "Storage error: " + msg)
      case IoError(err) =>
        (500, "InternalError", "I/O error: " + IoErrorText(err));
    ErrorResponse(status, "application/json", ErrorBody(code, code, message))
  }

  /** The status is a function of the code: clients can branch on either. */
  lemma CodeDeterminesStatus(e1: AppError, e2: AppError)
    requires IntoResponse(e1).body.code == IntoResponse(e2).body.code
    ensures IntoResponse(e1).status == IntoResponse(e2).status
  {
  }

  /** Client mistakes are 4xx, failures of the engine itself 5xx. */
  lemma StatusClasses(e: AppError)
    ensures 400 <= IntoResponse(e).status < 500 <==> !(e.StorageError? || e.IoError?)
    ensures IntoResponse(e).status in {400, 404, 409, 500}
  {
  }

  /** Different kinds of I/O failure are told apart by their text. */
  lemma IoErrorTextDistinct(e1: IoErrorKind, e2: IoErrorKind)
    requires IoErrorText(e1) == IoErrorText(e2)
    ensures e1 == e2
  {
  }
}
