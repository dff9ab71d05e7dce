/** The daemon's error type and its HTTP rendering (daemon/src/errors.rs).
    Each variant carries the text of the error it wraps; its display text is a
    fixed prefix followed by that text. */
module Errors {
  import opened Wrappers

  datatype DaemonError =
    | Database(detail: string)
    | Config(detail: string)
    | Network(detail: string)
    | PacketCapture(detail: string)
    | Netlink(detail: string)
    | Notification(detail: string)
    | Http(detail: string)
    | Io(detail: string)
    | Serialization(detail: string)
    | NotFound(detail: string)
    | InvalidInput(detail: string)
    | Internal(detail: string)

  /** The prefix the error's display text puts before the wrapped text. */
  function Prefix(e: DaemonError): string {
    match e
    case Database(_) => "Database error: "
    case Config(_) => "Configuration error: "
    case Network(_) => "Network error: "
    case PacketCapture(_) => "Packet capture error: "
    case Netlink(_) => "Netlink error: "
    case Notification(_) => "Notification error: "
    case Http(_) => "HTTP error: "
    case Io(_) => "IO error: "
    case Serialization(_) => "Serialization error: "
    case NotFound(_) => "Not found: "
    case InvalidInput(_) => "Invalid input: "
    case Internal(_) => "Internal error: "
  }

  /** The `Display` text of an error. */
  function Describe(e: DaemonError): (s: string)
    ensures |s| > |e.detail|
    ensures s[|s| - |e.detail|..] == e.detail
  {
    Prefix(e) + e.detail
  }

  datatype ErrorResponse = ErrorResponse(error: string, details: Option<string>)

  datatype HttpResponse = HttpResponse(status: nat, body: ErrorResponse)

  predicate IsClientError(e: DaemonError) {
    e.Config? || e.Serialization? || e.NotFound? || e.InvalidInput?
  }

  /** `IntoResponse for DaemonError`: the status code and JSON body an API
      handler returns when it fails. */
  function IntoResponse(e: DaemonError): (r: HttpResponse)
    ensures r.body.details == None
    ensures r.status in {400, 404, 500, 502}
    ensures r.status == 404 <==> e.NotFound?
    ensures r.status == 502 <==> e.Http?
    ensures 400 <= r.status < 500 <==> IsClientError(e)
    ensures e.NotFound? || e.InvalidInput? ==> r.body.error == e.detail != Describe(e)
    ensures !(e.NotFound? || e.InvalidInput?) ==> r.body.error == Describe(e)
    ensures |r.body.error| >= |e.detail| && r.body.error[|r.body.error| - |e.detail|..] == e.detail
  {
    var (status, message) :=
      match e
      case Database(_) => (500, Describe(e))
      case Config(_) => (400, Describe(e))
      case Network(_) => (500, Describe(e))
      case PacketCapture(_) => (500, Describe(e))
      case Netlink(_) => (500, Describe(e))
      case Notification(_) => (500, Describe(e))
      case Http(_) => (502, Describe(e))
      case Io(_) => (500, Describe(e))
      case Serialization(_) => (400, Describe(e))
      case NotFound(msg) => (404, msg)
      case InvalidInput(msg) => (400, msg)
      case Internal(_) => (500, Describe(e));
    HttpResponse(status, ErrorResponse(message, None))
  }
}
