/** Responding (icap/response.go): the response writer as a state machine over calls. */
module Response {
  import opened Strings
  import opened Chunked
  import opened IcapRequest
  import Encapsulated
  import Decimal
  import Hex

  /** An HTTP message under adaptation. `header` prints its header block for a value of
      Content-Length ("" when the header is absent); `body` is what is still unread. */
  class HttpMessage {
    const isRequest: bool
    const header: string -> string
    var contentLength: string
    var body: string

    constructor (isRequest: bool, header: string -> string, contentLength: string, body: string)
      ensures this.isRequest == isRequest && this.header == header
      ensures this.contentLength == contentLength && this.body == body
    {
      this.isRequest, this.header, this.contentLength, this.body := isRequest, header, contentLength, body;
    }

    function Block(): string
      reads this
    {
      header(contentLength)
    }

    /** ioutil.ReadAll on the body. */
    method ReadBody() returns (data: string)
      modifies this`body
      ensures data == old(body) && body == ""
    {
      data := body;
      body := "";
    }
  }

  /** What a response encapsulates: no HTTP message, or one with this header block. */
  datatype Part = Nothing | Block(isRequest: bool, header: string)

  function BodyKey(isRequest: bool): Encapsulated.Key {
    if isRequest then Encapsulated.ReqBody else Encapsulated.ResBody
  }

  /** The sections of the Encapsulated header (lines 86-121). */
  function Sections(mode: Mode, part: Part, hasBody: bool): seq<Encapsulated.Section> {
    match part
    case Nothing =>
      [Encapsulated.Section(if hasBody then BodyKey(mode == REQMOD) else Encapsulated.NullBody, 0)]
    case Block(isRequest, header) =>
      [Encapsulated.Section(if isRequest then Encapsulated.ReqHdr else Encapsulated.ResHdr, 0)] +
      [Encapsulated.Section(if hasBody then BodyKey(isRequest) else Encapsulated.NullBody, |header|)]
  }

  function HeaderOf(part: Part): string {
    if part.Block? then part.header else ""
  }

  /** Prints the status line and the ICAP headers, up to and including the blank line, for
      a status code and the sections that the Encapsulated header lists. */
  type HeadPrinter = (int, seq<Encapsulated.Section>) -> string

  /** The ICAP head and the HTTP header of a response. */
  function Opening(head: HeadPrinter, mode: Mode, code: int, part: Part, hasBody: bool): string {
    head(code, Sections(mode, part, hasBody)) + HeaderOf(part)
  }

  /** What that is for each kind of message: the head for the code and for a list that starts with
      the header, if there is one, and ends with the body or null-body behind it; then the header. */
  lemma OpeningExactly(head: HeadPrinter, mode: Mode, code: int, header: string, hasBody: bool)
    ensures Opening(head, mode, code, Nothing, hasBody) ==
            head(code, [Encapsulated.Section(if !hasBody then Encapsulated.NullBody
                                             else if mode == REQMOD then Encapsulated.ReqBody
                                             else Encapsulated.ResBody, 0)])
    ensures Opening(head, mode, code, Block(true, header), hasBody) ==
            head(code, [Encapsulated.Section(Encapsulated.ReqHdr, 0),
                        Encapsulated.Section(if hasBody then Encapsulated.ReqBody else Encapsulated.NullBody,
                                             |header|)])
            + header
    ensures Opening(head, mode, code, Block(false, header), hasBody) ==
            head(code, [Encapsulated.Section(Encapsulated.ResHdr, 0),
                        Encapsulated.Section(if hasBody then Encapsulated.ResBody else Encapsulated.NullBody,
                                             |header|)])
            + header
  {
    Two(Sections(mode, Block(true, header), hasBody));
    Two(Sections(mode, Block(false, header), hasBody));
    var s := head(code, Sections(mode, Nothing, hasBody));
    assert s + "" == s;
  }

  lemma Two(list: seq<Encapsulated.Section>)
    requires |list| == 2
    ensures list == [list[0], list[1]]
  {}

  /** `respWriter`, without `WriteRaw`. */
  class RespWriter {
    const conn: Conn
    const mode: Mode
    const head: HeadPrinter
    var wroteHeader: bool
    var cw: ChunkedWriter?

    constructor (conn: Conn, mode: Mode, head: HeadPrinter)
      ensures Valid() && !wroteHeader
      ensures this.conn == conn && this.mode == mode && this.head == head
    {
      this.conn, this.mode, this.head, wroteHeader, cw := conn, mode, head, false, null;
    }

    ghost predicate Valid()
      reads this
    {
      && (cw != null ==> wroteHeader && cw.conn == conn)
    }

    /** `WriteHeader` (lines 75-158): the first call settles header block and body; a later
        one changes nothing. */
    method WriteHeader(code: int, msg: HttpMessage?, hasBody: bool)
      requires Valid()
      modifies this, conn`outbound, if msg == null then {} else {msg}
      ensures Valid() && wroteHeader
      ensures old(wroteHeader) ==> cw == old(cw) && conn.outbound == old(conn.outbound)
      ensures msg != null ==> msg.contentLength == old(msg.contentLength)
      ensures msg != null ==> msg.body == if !old(wroteHeader) && hasBody then "" else old(msg.body)
      ensures !old(wroteHeader) ==>
                var part := if msg == null then Nothing else Block(msg.isRequest, old(msg.Block()));
                && (cw != null <==> hasBody)
                && conn.outbound == old(conn.outbound) + Opening(head, mode, code, part, hasBody)
                                    + if hasBody && msg != null then Chunk(old(msg.body)) else ""
      ensures !old(wroteHeader) && msg == null ==>
                conn.outbound == old(conn.outbound) +
                                 head(code, [Encapsulated.Section(if !hasBody then Encapsulated.NullBody
                                                                  else if mode == REQMOD then Encapsulated.ReqBody
                                                                  else Encapsulated.ResBody, 0)])
      ensures !old(wroteHeader) && msg != null && msg.isRequest ==>
                var h := old(msg.Block());
                conn.outbound == old(conn.outbound) +
                                 (head(code, [Encapsulated.Section(Encapsulated.ReqHdr, 0),
                                              Encapsulated.Section(if hasBody then Encapsulated.ReqBody
                                                                   else Encapsulated.NullBody, |h|)])
                                  + h) + if hasBody then Chunk(old(msg.body)) else ""
      ensures !old(wroteHeader) && msg != null && !msg.isRequest ==>
                var h := old(msg.Block());
                conn.outbound == old(conn.outbound) +
                                 (head(code, [Encapsulated.Section(Encapsulated.ResHdr, 0),
                                              Encapsulated.Section(if hasBody then Encapsulated.ResBody
                                                                   else Encapsulated.NullBody, |h|)])
                                  + h) + if hasBody then Chunk(old(msg.body)) else ""
      decreases !wroteHeader, 0
    {
      OpeningExactly(head, mode, code, if msg == null then "" else msg.Block(), hasBody);
      if wroteHeader { return; }
      var part := if msg == null then Nothing else Block(msg.isRequest, msg.Block());
      conn.outbound := conn.outbound + Opening(head, mode, code, part, hasBody);
      wroteHeader := true;
      if hasBody {
        cw := new ChunkedWriter(conn);
        if msg != null {
          var data := msg.ReadBody();
          var _, _ := Write(data);
        }
      }
    }

    /** `Write` (lines 58-67): data is accepted when there is a body to write to. */
    method Write(p: string) returns (n: nat, ok: bool)
      requires Valid()
      modifies this, conn`outbound
      ensures Valid() && wroteHeader
      ensures ok <==> cw != null
      ensures old(wroteHeader) ==> cw == old(cw)
      ensures !old(wroteHeader) ==> cw != null
      ensures conn.outbound == old(conn.outbound)
                               + (if old(wroteHeader) then "" else Opening(head, mode, 200, Nothing, true))
                               + (if ok then Chunk(p) else "")
      ensures n == if ok then |p| else 0
      decreases !wroteHeader, 1
    {
      ghost var opening := if wroteHeader then "" else Opening(head, mode, 200, Nothing, true);
      if !wroteHeader {
        WriteHeader(200, null, true);
      }
      assert conn.outbound == old(conn.outbound) + opening;
      if cw == null { return 0, false; }
      n := cw.Write(p);
      ok := true;
    }

    /** `finishRequest` (lines 160-172). */
    method FinishRequest()
      requires Valid()
      modifies this, conn`outbound
      ensures Valid() && wroteHeader && cw == null
      ensures conn.outbound == old(conn.outbound)
                               + (if old(wroteHeader) then "" else Opening(head, mode, 200, Nothing, false))
                               + (if old(cw) != null then LAST_CHUNK + CRLF else "")
    {
      if !wroteHeader {
        WriteHeader(200, null, false);
      }
      if cw != null {
        cw.Close();
        cw := null;
        conn.outbound := conn.outbound + CRLF;
      }
    }
  }

  // ---------------------------------------------------------------------------------
  // Every sequence of calls
  // ---------------------------------------------------------------------------------

  datatype Message = Message(isRequest: bool, header: string, body: string)

  datatype Call = CallHeader(code: int, msg: Option<Message>, hasBody: bool) | CallWrite(data: string)

  function PartOf(msg: Option<Message>): Part {
    match msg case None => Nothing case Some(m) => Block(m.isRequest, m.header)
  }

  /** The call that settles the header block: the first one, where a write stands for a 200
      with a body, and ending without any call for a 200 without. */
  function Settling(calls: seq<Call>): (c: Call)
    ensures c.CallHeader?
  {
    if calls == [] then CallHeader(200, None, false)
    else if calls[0].CallWrite? then CallHeader(200, None, true)
    else calls[0]
  }

  /** The data of the writes among the calls. */
  function Writes(calls: seq<Call>): seq<string> {
    if calls == [] then []
    else (if calls[0].CallWrite? then [calls[0].data] else []) + Writes(calls[1..])
  }

  /** The accepted body data, message body first. */
  function Accepted(calls: seq<Call>): seq<string> {
    var c := Settling(calls);
    if !c.hasBody then []
    else (if c.msg.Some? then [c.msg.value.body] else []) + Writes(calls)
  }

  function OpeningOf(head: HeadPrinter, mode: Mode, c: Call): string
    requires c.CallHeader?
  {
    Opening(head, mode, c.code, PartOf(c.msg), c.hasBody)
  }

  /** The wire after the calls and `finishRequest`. */
  function Wire(head: HeadPrinter, mode: Mode, calls: seq<Call>): string {
    var c := Settling(calls);
    OpeningOf(head, mode, c)
    + if c.hasBody then Chunks(Accepted(calls)) + (LAST_CHUNK + CRLF) else ""
  }

  lemma {:induction false} WritesSnoc(calls: seq<Call>, c: Call)
    ensures Writes(calls + [c]) == Writes(calls) + if c.CallWrite? then [c.data] else []
    decreases |calls|
  {
    if calls == [] {
      assert calls + [c] == [c] && [c][1..] == [];
    } else {
      WritesSnoc(calls[1..], c);
      assert (calls + [c])[1..] == calls[1..] + [c];
    }
  }

  lemma AcceptedSnoc(calls: seq<Call>, c: Call)
    requires calls != []
    ensures Settling(calls + [c]) == Settling(calls)
    ensures Accepted(calls + [c]) == Accepted(calls) + Later(calls, c)
  {
    assert (calls + [c])[0] == calls[0];
    WritesSnoc(calls, c);
  }

  /** What a call after the settling one contributes. */
  function Later(calls: seq<Call>, c: Call): seq<string> {
    if Settling(calls).hasBody && c.CallWrite? then [c.data] else []
  }

  lemma ChunksOne(a: string)
    ensures Chunks([a]) == Chunk(a)
  {
    assert [a][1..] == [];
  }

  lemma {:induction false} ChunksAppend(a: seq<string>, b: seq<string>)
    ensures Chunks(a + b) == Chunks(a) + Chunks(b)
    decreases |a|
  {
    if a == [] {
      assert a + b == b;
    } else {
      ChunksAppend(a[1..], b);
      assert (a + b)[0] == a[0] && (a + b)[1..] == a[1..] + b;
      Associative(Chunk(a[0]), Chunks(a[1..]), Chunks(b));
    }
  }

  method NewMessage(m: Message) returns (msg: HttpMessage)
    ensures fresh(msg)
    ensures msg.isRequest == m.isRequest && msg.Block() == m.header && msg.body == m.body
  {
    var block := m.header;
    msg := new HttpMessage(m.isRequest, _ => block, "", m.body);
  }

  /** The first call. */
  method PerformFirst(w: RespWriter, c: Call)
    requires w.Valid() && !w.wroteHeader && w.cw == null
    modifies w, w.conn`outbound
    ensures w.Valid() && w.wroteHeader
    ensures w.cw != null <==> Settling([c]).hasBody
    ensures w.conn.outbound == old(w.conn.outbound) + OpeningOf(w.head, w.mode, Settling([c])) + Chunks(Accepted([c]))
  {
    assert Writes([c][1..]) == [];
    match c {
      case CallHeader(code, msg, hasBody) =>
        if msg == None {
          w.WriteHeader(code, null, hasBody);
          assert Chunks(Accepted([c])) == "";
        } else {
          var m := NewMessage(msg.value);
          w.WriteHeader(code, m, hasBody);
          ChunksOne(msg.value.body);
        }
      case CallWrite(data) =>
        var _, _ := w.Write(data);
        ChunksOne(data);
    }
  }

  /** A later call. */
  method PerformLater(w: RespWriter, ghost calls: seq<Call>, c: Call)
    requires w.Valid() && w.wroteHeader && calls != []
    requires w.cw != null <==> Settling(calls).hasBody
    modifies w, w.conn`outbound
    ensures w.Valid() && w.wroteHeader && w.cw == old(w.cw)
    ensures w.conn.outbound == old(w.conn.outbound) + Chunks(Later(calls, c))
  {
    match c {
      case CallHeader(code, msg, hasBody) =>
        var m: HttpMessage? := null;
        if msg.Some? { m := NewMessage(msg.value); }
        w.WriteHeader(code, m, hasBody);
      case CallWrite(data) =>
        var _, _ := w.Write(data);
        ChunksOne(data);
    }
  }

  lemma OneMore(start: string, calls: seq<Call>, i: nat)
    requires 0 < i < |calls|
    ensures Settling(calls[..i + 1]) == Settling(calls[..i])
    ensures start + Chunks(Accepted(calls[..i])) + Chunks(Later(calls[..i], calls[i])) ==
            start + Chunks(Accepted(calls[..i + 1]))
  {
    var done, more := Accepted(calls[..i]), Later(calls[..i], calls[i]);
    assert calls[..i + 1] == calls[..i] + [calls[i]];
    AcceptedSnoc(calls[..i], calls[i]);
    ChunksAppend(done, more);
    Associative(start, Chunks(done), Chunks(more));
  }

  /** Executing any calls leaves what was settled and what was accepted. */
  method PerformAll(w: RespWriter, calls: seq<Call>)
    requires w.Valid() && !w.wroteHeader && w.cw == null && calls != []
    modifies w, w.conn`outbound
    ensures w.Valid() && w.wroteHeader
    ensures w.cw != null <==> Settling(calls).hasBody
    ensures w.conn.outbound ==
            old(w.conn.outbound) + OpeningOf(w.head, w.mode, Settling(calls)) + Chunks(Accepted(calls))
  {
    PerformFirst(w, calls[0]);
    ghost var start := old(w.conn.outbound) + OpeningOf(w.head, w.mode, Settling(calls));
    assert calls[..1] == [calls[0]];
    for i := 1 to |calls|
      invariant w.Valid() && w.wroteHeader
      invariant Settling(calls[..i]) == Settling(calls)
      invariant w.cw != null <==> Settling(calls).hasBody
      invariant w.conn.outbound == start + Chunks(Accepted(calls[..i]))
    {
      OneMore(start, calls, i);
      PerformLater(w, calls[..i], calls[i]);
    }
    assert calls[..|calls|] == calls;
  }

  lemma Finished(start: string, opening: string, body: string, end: string)
    ensures start + opening + body + end == start + (opening + (body + end))
    ensures start + opening + "" == start + (opening + "")
  {}

  /** Executing any calls and finishing leaves exactly `Wire` behind. */
  method Respond(w: RespWriter, calls: seq<Call>)
    requires w.Valid() && !w.wroteHeader && w.cw == null
    modifies w, w.conn`outbound
    ensures w.conn.outbound == old(w.conn.outbound) + Wire(w.head, w.mode, calls)
    ensures w.cw == null && w.wroteHeader
  {
    if |calls| > 0 {
      PerformAll(w, calls);
    }
    ghost var before := w.conn.outbound;
    w.FinishRequest();
    assert calls != [] ==>
        w.conn.outbound == before + if Settling(calls).hasBody then LAST_CHUNK + CRLF else "";
    Finished(old(w.conn.outbound), OpeningOf(w.head, w.mode, Settling(calls)), Chunks(Accepted(calls)),
             LAST_CHUNK + CRLF);
  }

  /** The wire by the call that settles it: a header call with its code and its message, a write
      with a 200 and a body, and no call with a 200 without one. */
  lemma WireExactly(head: HeadPrinter, mode: Mode, calls: seq<Call>)
    ensures calls == [] ==> Wire(head, mode, calls) == head(200, [Encapsulated.Section(Encapsulated.NullBody, 0)])
    ensures calls != [] && calls[0].CallWrite? ==>
              Wire(head, mode, calls) ==
              head(200, [Encapsulated.Section(if mode == REQMOD then Encapsulated.ReqBody
                                              else Encapsulated.ResBody, 0)])
              + (Chunks(Writes(calls)) + "0\r\n\r\n")
    ensures calls != [] && calls[0].CallHeader? && calls[0].msg == None && !calls[0].hasBody ==>
              Wire(head, mode, calls) == head(calls[0].code, [Encapsulated.Section(Encapsulated.NullBody, 0)])
    ensures calls != [] && calls[0].CallHeader? && calls[0].msg.Some? && calls[0].msg.value.isRequest ==>
              var c, m := calls[0], calls[0].msg.value;
              Wire(head, mode, calls) ==
              head(c.code, [Encapsulated.Section(Encapsulated.ReqHdr, 0),
                            Encapsulated.Section(if c.hasBody then Encapsulated.ReqBody else Encapsulated.NullBody,
                                                 |m.header|)])
              + m.header + if c.hasBody then Chunks([m.body] + Writes(calls)) + "0\r\n\r\n" else ""
    ensures calls != [] && calls[0].CallHeader? && calls[0].msg.Some? && !calls[0].msg.value.isRequest ==>
              var c, m := calls[0], calls[0].msg.value;
              Wire(head, mode, calls) ==
              head(c.code, [Encapsulated.Section(Encapsulated.ResHdr, 0),
                            Encapsulated.Section(if c.hasBody then Encapsulated.ResBody else Encapsulated.NullBody,
                                                 |m.header|)])
              + m.header + if c.hasBody then Chunks([m.body] + Writes(calls)) + "0\r\n\r\n" else ""
  {
    var c := Settling(calls);
    OpeningExactly(head, mode, c.code, if c.msg.Some? then c.msg.value.header else "", c.hasBody);
    assert LAST_CHUNK + CRLF == "0\r\n\r\n";
    assert [] + Writes(calls) == Writes(calls);
    NothingBehind(OpeningOf(head, mode, c));
  }

  lemma NothingBehind(s: string)
    ensures s + "" == s
  {}

  /** The body on the wire is one chunked body, closed once: it decodes to everything that
      was accepted, and a blank line follows. */
  lemma WireBody(calls: seq<Call>)
    requires forall d | d in Accepted(calls) :: |d| < Hex.TWO64
    ensures Decode(0, Chunks(Accepted(calls)) + LAST_CHUNK + CRLF) == Decoded(Flatten(Accepted(calls)), Eof, CRLF)
  {
    CodecRoundTrip(Accepted(calls), CRLF);
  }

  lemma SectionsRead(mode: Mode, part: Part, hasBody: bool)
    requires part.Block? ==> |part.header| <= Decimal.MAX_INT
    ensures var list := Sections(mode, part, hasBody);
            && Encapsulated.Printable(list) && Encapsulated.Accepted(list)
            && Encapsulated.LayoutOf(list) ==
               Encapsulated.Layout(0, if part.Block? && part.isRequest then |part.header| else 0,
                                   if part.Block? && !part.isRequest then |part.header| else 0, hasBody)
  {
    match part
    case Nothing =>
      Encapsulated.OnlyBody(
        Encapsulated.Section(if hasBody then BodyKey(mode == REQMOD) else Encapsulated.NullBody, 0));
    case Block(isRequest, header) =>
      Encapsulated.HeaderAndBody(
        Encapsulated.Section(if isRequest then Encapsulated.ReqHdr else Encapsulated.ResHdr, 0),
        Encapsulated.Section(if hasBody then BodyKey(isRequest) else Encapsulated.NullBody, |header|));
  }

  lemma BlocksOfOne(isRequest: bool, h: string, hasBody: bool, body: string)
    ensures Encapsulated.Blocks(
              Encapsulated.Layout(0, if isRequest then |h| else 0, if isRequest then 0 else |h|, hasBody), h + body) ==
            Some(if isRequest then Encapsulated.Cut(h, "", body) else Encapsulated.Cut("", h, body))
  {
    var s := h + body;
    assert s[0..0] == "" && s[0..|h|] == h && s[|h|..|h|] == "" && s[|h|..] == body;
  }

  /** The Encapsulated header of a response announces the blocks it has: scanning it and
      cutting what follows the ICAP head gives back the HTTP header and the body. */
  lemma ResponseReadable(mode: Mode, part: Part, hasBody: bool, body: string)
    requires part.Block? ==> |part.header| <= Decimal.MAX_INT
    ensures Encapsulated.Printable(Sections(mode, part, hasBody))
    ensures var l := Encapsulated.LayoutFor(Encapsulated.ParseItems(Encapsulated.Print(Sections(mode, part, hasBody))));
            && l.Some? && l.value.hasBody == hasBody
            && Encapsulated.Blocks(l.value, HeaderOf(part) + body) ==
               Some(if part.Block? && part.isRequest then Encapsulated.Cut(part.header, "", body)
                    else Encapsulated.Cut("", HeaderOf(part), body))
  {
    SectionsRead(mode, part, hasBody);
    Encapsulated.ListRead(Sections(mode, part, hasBody));
    BlocksOfOne(part.Block? && part.isRequest, HeaderOf(part), hasBody, body);
  }
}
