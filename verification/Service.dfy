/** The services a request is handed to: echo in full, any other one as an arbitrary answer. */
module Service {
  import opened Strings
  import opened IcapRequest
  import opened Response
  import Base64
  import Decimal
  import Extensions

  const CONTINUE_STATUS := 100
  const OK_STATUS := 200
  const NO_MODIFICATION := 204
  const BAD_REQUEST := 400
  const TIMEOUT := 408
  const SERVER_ERROR := 500

  /** The configuration of the echo service. `extension` stands for MIME sniffing; `page` and
      `pageHeader` for the error page and the header of the message that carries it. */
  datatype EchoConfig = EchoConfig(
    bypassExts: seq<string>, processExts: seq<string>, rejectExts: seq<string>,
    maxFileSize: nat, returnOrigIfMaxSizeExc: bool, return400IfFileExtRejected: bool,
    extension: string -> string, page: string, pageHeader: string -> string)

  /** An HTTP message as a service returns it; `header` is its printed header block. */
  datatype Out = Out(isRequest: bool, header: string, contentLength: string, body: string)

  datatype Answer = Answer(status: int, out: Option<Out>)

  /** `Other` is any service that, like the ones of the repository, asks for the whole body
      first and then gives an answer; `leavesBody` and `leavesLength` is what it makes of
      the message it was given. */
  datatype Service =
    | Echo(config: EchoConfig)
    | Other(answer: Answer, leavesBody: string, leavesLength: string)
  {
    ghost predicate Valid() {
      match this
      case Echo(c) => Extensions.Valid(c.bypassExts, c.processExts, c.rejectExts)
      case Other(a, _, _) => a.status != CONTINUE_STATUS
    }
  }

  ghost predicate Holds(m: HttpMessage?, out: Option<Out>)
    reads m
  {
    if m == null then out == None
    else out == Some(Out(m.isRequest, m.Block(), m.contentLength, m.body))
  }

  /** What echo makes of a complete body. */
  function EchoAnswer(c: EchoConfig, mode: Mode, isConnect: bool, header: string -> string, body: string): Answer {
    var file := if mode == REQMOD && Base64.Recognised(body) then Base64.Decode(body) else body;
    var restored := if mode == REQMOD then Base64.PassedThrough(body) else body;
    if isConnect then Answer(OK_STATUS, Some(WithFile(mode, header, file)))
    else
      match Extensions.Verdict(c.extension(file), c.processExts, c.rejectExts, c.bypassExts)
      case Reject =>
        if c.return400IfFileExtRejected then Answer(BAD_REQUEST, None)
        else Answer(OK_STATUS, Some(ErrorPage(c, mode)))
      case Bypass => Answer(NO_MODIFICATION, Some(WithFile(mode, header, restored)))
      case _ =>
        if c.maxFileSize != 0 && c.maxFileSize < |file| then
          if c.returnOrigIfMaxSizeExc then Answer(NO_MODIFICATION, Some(WithFile(mode, header, file)))
          else Answer(OK_STATUS, Some(ErrorPage(c, mode)))
        else Answer(OK_STATUS, Some(WithFile(mode, header, restored)))
  }

  /** `ReturningHttpMessageWithFile`: the message with this body and its length. */
  function WithFile(mode: Mode, header: string -> string, file: string): Out {
    var n := Decimal.Itoa(|file|);
    Out(mode == REQMOD, header(n), n, file)
  }

  /** A response page has a length; of the request that stands for one every header, the
      length included, is deleted. */
  function ErrorPage(c: EchoConfig, mode: Mode): Out {
    var n := if mode == REQMOD then "" else Decimal.Itoa(|c.page|);
    Out(mode == REQMOD, c.pageHeader(n), n, c.page)
  }

  function AnswerOf(s: Service, mode: Mode, isConnect: bool, header: string -> string, body: string): Answer {
    match s
    case Echo(c) => EchoAnswer(c, mode, isConnect, header, body)
    case Other(a, _, _) => a
  }

  /** `ReturningHttpMessageWithFile` (general-functions.go:385-402). */
  method ReturnWithFile(msg: HttpMessage, file: string)
    modifies msg
    ensures msg.body == file && msg.contentLength == Decimal.Itoa(|file|)
  {
    msg.contentLength := Decimal.Itoa(|file|);
    msg.body := file;
  }

  /** The error pages of `CheckTheExtension` and `IfMaxFileSizeExc`. */
  method ErrorMessage(c: EchoConfig, mode: Mode, msg: HttpMessage) returns (out: HttpMessage)
    modifies msg
    ensures fresh(out) && Holds(out, Some(ErrorPage(c, mode)))
  {
    if mode == REQMOD {
      msg.contentLength := "";
      msg.body := "";
      out := new HttpMessage(true, c.pageHeader, "", c.page);
    } else {
      out := new HttpMessage(false, c.pageHeader, Decimal.Itoa(|c.page|), c.page);
    }
  }

  /** echo's `Processing` (service/services/echo/echo.go:29-116) on the message under
      adaptation, neither multipart nor JSON with a Base64 key. */
  method EchoProcessing(c: EchoConfig, partial: bool, mode: Mode, isConnect: bool, msg: HttpMessage)
    returns (status: int, out: HttpMessage?)
    requires Extensions.Valid(c.bypassExts, c.processExts, c.rejectExts)
    requires msg.isRequest == (mode == REQMOD)
    modifies msg
    ensures out == null || out == msg || fresh(out)
    ensures partial ==> status == CONTINUE_STATUS && out == null
                        && msg.body == old(msg.body) && msg.contentLength == old(msg.contentLength)
    ensures !partial ==>
              var a := EchoAnswer(c, mode, isConnect, msg.header, old(msg.body));
              status == a.status && Holds(out, a.out)
  {
    if partial { return CONTINUE_STATUS, null; }
    ghost var body := msg.body;
    var file := msg.ReadBody();
    var content := new Base64.RegularFile(file, false);
    if mode == REQMOD {
      file := content.GetFileFromRequest();
    }
    if isConnect {
      ReturnWithFile(msg, file);
      return OK_STATUS, msg;
    }
    var restored := file;
    if mode == REQMOD {
      restored := content.BodyAfterScanning(file);
      if content.encoded { Base64.EncodeDecode(body); }
    }
    var kind := Extensions.VerdictOf(c.extension(file), c.bypassExts, c.processExts, c.rejectExts);
    if kind == Extensions.Reject {
      if c.return400IfFileExtRejected { return BAD_REQUEST, null; }
      out := ErrorMessage(c, mode, msg);
      return OK_STATUS, out;
    }
    if kind == Extensions.Bypass {
      ReturnWithFile(msg, restored);
      return NO_MODIFICATION, msg;
    }
    if c.maxFileSize != 0 && c.maxFileSize < |file| {
      if c.returnOrigIfMaxSizeExc {
        ReturnWithFile(msg, file);
        return NO_MODIFICATION, msg;
      }
      out := ErrorMessage(c, mode, msg);
      return OK_STATUS, out;
    }
    ReturnWithFile(msg, restored);
    return OK_STATUS, msg;
  }

  /** Handing the message to a service. */
  method Processing(s: Service, partial: bool, mode: Mode, isConnect: bool, msg: HttpMessage)
    returns (status: int, out: HttpMessage?)
    requires s.Valid()
    requires msg.isRequest == (mode == REQMOD)
    modifies msg
    ensures out == null || out == msg || fresh(out)
    ensures partial ==> status == CONTINUE_STATUS && out == null
                        && msg.body == old(msg.body) && msg.contentLength == old(msg.contentLength)
    ensures !partial ==>
              var a := AnswerOf(s, mode, isConnect, msg.header, old(msg.body));
              status == a.status && Holds(out, a.out)
  {
    match s {
      case Echo(c) =>
        status, out := EchoProcessing(c, partial, mode, isConnect, msg);
      case Other(answer, leavesBody, leavesLength) =>
        if partial { return CONTINUE_STATUS, null; }
        msg.body, msg.contentLength := leavesBody, leavesLength;
        out := null;
        if answer.out.Some? {
          var o := answer.out.value;
          out := new HttpMessage(o.isRequest, _ => o.header, o.contentLength, o.body);
        }
        status := answer.status;
    }
  }
}
