/** What holds of every run, and of a whole exchange from the client's body to the response
    on the wire. */
module Runs {
  import opened Strings
  import opened Chunked
  import opened IcapRequest
  import opened Response
  import opened Service
  import opened Business
  import opened Api
  import Base64
  import Client = IcapClient
  import Decimal
  import Encapsulated
  import Extensions
  import Hex
  import PreviewProtocol

  // ---------------------------------------------------------------------------------
  // Every run
  // ---------------------------------------------------------------------------------

  /** The business logic lets the run go on to the service: no call of it that the run makes is
      refused. It is called for requests only, and again only for a recording that was put off. */
  predicate Passed(p: Plan, partial: bool) {
    !(p.business && p.mode == REQMOD && (Refuses(p.first) || (partial && Records(p.first) && Refuses(p.second))))
  }

  predicate GoesOn(p: Plan, partial: bool) {
    && FirstDecision(p) != Refuse
    && (partial && FirstDecision(p) == Record ==> Decide(p.second) != Refuse)
  }

  lemma PassedGoesOn(p: Plan, partial: bool)
    ensures Passed(p, partial) <==> GoesOn(p, partial)
  {
    DecideExactly(p.first);
    DecideExactly(p.second);
  }

  /** The Allow header has 204 in it. */
  predicate Allows(p: Plan) { p.allow.Some? && Contains(p.allow.value, "204") }

  lemma AllowsExactly(p: Plan)
    ensures Is204Allowed(p.allow) <==> Allows(p)
  {
    if p.allow == Some("204") { assert At("204", 0, "204"); }
  }

  function ServiceAnswer(p: Plan, full: string): Answer {
    AnswerOf(p.service, p.mode, p.isConnect, p.header, full)
  }

  /** The status codes the request path answers. */
  predicate Answered(status: int) {
    status == 200 || status == 204 || status == 400 || status == 408 || status == 500
  }

  /** A run has exactly one response, as its last event, when it is refused or the service's
      status is one that is answered; otherwise it has none, and finishing the request
      writes the default one. */
  lemma OneResponse(p: Plan, partial: bool, full: string)
    ensures var t := Transcript(p, partial, full);
            if !Passed(p, partial) || Answered(ServiceAnswer(p, full).status)
            then t != [] && t[|t| - 1].Responded? && forall i | 0 <= i < |t| - 1 :: !t[i].Responded?
            else forall i | 0 <= i < |t| :: !t[i].Responded?
  {
    PassedGoesOn(p, partial);
  }

  /** The client is told to go on at most once, before anything else, and only when the
      preview did not end with the full-body indicator: exactly when the first call of the
      business logic does not refuse. */
  lemma ContinueRule(p: Plan, partial: bool, full: string)
    ensures var t := Transcript(p, partial, full);
            && (t != [] && t[0] == Continued <==> partial && !(p.business && p.mode == REQMOD && Refuses(p.first)))
            && forall i | 0 < i < |t| :: t[i] != Continued
  {
    DecideExactly(p.first);
  }

  lemma SnapshotsOfFinal(p: Plan, a: Answer, full: string)
    ensures Snapshots(Final(p, a, full)) == []
  {
    var f := Final(p, a, full);
    if f != [] { assert f[1..] == []; }
  }

  lemma SnapshotsCons(e: Event, events: seq<Event>)
    ensures Snapshots([e] + events) == (if e.Launched? then [e.snapshot] else []) + Snapshots(events)
  {
    assert ([e] + events)[1..] == events;
  }

  lemma SnapshotsOfPass(p: Plan, d: Decision, full: string)
    ensures Snapshots(LastPass(p, d, full)) == if d == Record then [full] else []
  {
    SnapshotsOfFinal(p, ServiceAnswer(p, full), full);
    if d == Record {
      SnapshotsCons(Launched(full), Final(p, ServiceAnswer(p, full), full));
    } else if d == Refuse {
      SnapshotsCons(Responded(BAD_REQUEST, Nothing, None), []);
      assert [Responded(BAD_REQUEST, Nothing, None)] + [] == [Responded(BAD_REQUEST, Nothing, None)];
    } else {
      assert [] + Final(p, ServiceAnswer(p, full), full) == Final(p, ServiceAnswer(p, full), full);
    }
  }

  /** At most one recording is launched in a run, and its snapshot is the whole body, never a
      preview: it is launched exactly when every call says so. */
  lemma RecordingSafety(p: Plan, partial: bool, full: string)
    ensures Snapshots(Transcript(p, partial, full)) ==
            if p.business && p.mode == REQMOD && Records(p.first) && (partial ==> Records(p.second)) then [full] else []
  {
    DecideExactly(p.first);
    DecideExactly(p.second);
    var d := FirstDecision(p);
    if !partial {
      SnapshotsOfPass(p, d, full);
    } else if d == Refuse {
      SnapshotsCons(Responded(BAD_REQUEST, Nothing, None), []);
      assert [Responded(BAD_REQUEST, Nothing, None)] + [] == [Responded(BAD_REQUEST, Nothing, None)];
    } else {
      var last := if d == Record then Decide(p.second) else Business.Pass;
      SnapshotsOfPass(p, last, full);
      SnapshotsCons(Continued, LastPass(p, last, full));
    }
  }

  /** A 204 goes out exactly when the run gets to a service that answers so, and the client's Allow
      header has 204 in it. */
  lemma NoContentExactly(p: Plan, partial: bool, full: string)
    ensures (exists e :: e in Transcript(p, partial, full) && e.Responded? && e.code == 204) <==>
              Passed(p, partial) && ServiceAnswer(p, full).status == 204 && Allows(p)
  {
    PassedGoesOn(p, partial);
    AllowsExactly(p);
    var t := Transcript(p, partial, full);
    if Passed(p, partial) && ServiceAnswer(p, full).status == 204 && Allows(p) {
      assert t[|t| - 1] == Responded(204, Nothing, None);
    }
  }

  /** The event of sending a message with this body back. */
  function SentBack(p: Plan, body: string): Event {
    Responded(OK_STATUS, Block(p.mode == REQMOD, p.header(Decimal.Itoa(|body|))),
              if body == "" then None else Some(body))
  }

  lemma WithFileSent(p: Plan, body: string)
    ensures WriteOut(OK_STATUS, Some(WithFile(p.mode, p.header, body))) == SentBack(p, body)
  {
    Decimal.ItoaZero(|body|);
  }

  /** A "no modification" without that permission. */
  lemma NoModificationEvent(p: Plan, partial: bool, full: string)
    requires p.mode == REQMOD && !Is204Allowed(p.allow) && GoesOn(p, partial)
    requires ServiceAnswer(p, full).status == NO_MODIFICATION
    ensures Ends(p, partial, full, SentBack(p, full))
  {
    WithFileSent(p, full);
  }

  /** The run ends with this event. */
  ghost predicate Ends(p: Plan, partial: bool, full: string, e: Event) {
    var t := Transcript(p, partial, full);
    t != [] && t[|t| - 1] == e
  }

  /** What echo scans. */
  function Scanned(mode: Mode, body: string): string {
    if mode == REQMOD && Base64.Recognised(body) then Base64.Decode(body) else body
  }

  /** Echo processes the body: the extension is for processing, the size within the limit. */
  predicate Processes(c: EchoConfig, mode: Mode, body: string) {
    var file := Scanned(mode, body);
    && Extensions.Verdict(c.extension(file), c.processExts, c.rejectExts, c.bypassExts) == Extensions.Process
    && (c.maxFileSize == 0 || |file| <= c.maxFileSize)
  }

  /** What comes back from echo: in RESPMOD the body, in REQMOD its base64-canonical form. */
  function Echoed(mode: Mode, body: string): string {
    if mode == REQMOD then Base64.PassedThrough(body) else body
  }

  lemma EchoProcessed(p: Plan, partial: bool, full: string)
    requires p.service.Echo? && !p.isConnect && Processes(p.service.config, p.mode, full) && GoesOn(p, partial)
    ensures ServiceAnswer(p, full).status == OK_STATUS
    ensures Ends(p, partial, full, SentBack(p, Echoed(p.mode, full)))
  {
    WithFileSent(p, Echoed(p.mode, full));
  }

  /** Echo bypasses the body: the extension is for bypassing. */
  predicate Bypasses(c: EchoConfig, mode: Mode, body: string) {
    Extensions.Verdict(c.extension(Scanned(mode, body)), c.processExts, c.rejectExts, c.bypassExts) == Extensions.Bypass
  }

  lemma EchoBypassed(p: Plan, partial: bool, full: string)
    requires p.service.Echo? && !p.isConnect && GoesOn(p, partial)
    requires Bypasses(p.service.config, p.mode, full)
    ensures ServiceAnswer(p, full).status == NO_MODIFICATION
    ensures !Is204Allowed(p.allow) ==> Ends(p, partial, full, SentBack(p, full))
  {
    WithFileSent(p, full);
  }

  lemma EchoConnected(p: Plan, partial: bool, full: string)
    requires p.service.Echo? && p.isConnect && GoesOn(p, partial)
    ensures ServiceAnswer(p, full).status == OK_STATUS
    ensures Ends(p, partial, full, SentBack(p, Scanned(p.mode, full)))
  {
    WithFileSent(p, Scanned(p.mode, full));
  }

  lemma {:induction false} DecodedShorter(s: string)
    requires Base64.Recognised(s)
    ensures s != "" ==> |Base64.Decode(s)| < |s|
    decreases |s|
  {
    if s != "" && !Base64.IsPaddedQuantum(s) { DecodedShorter(s[4..]); }
  }

  /** Echo answers with an error page: the extension is for rejecting, or the body exceeds the
      size limit. */
  predicate Pages(c: EchoConfig, mode: Mode, body: string) {
    var file := Scanned(mode, body);
    var verdict := Extensions.Verdict(c.extension(file), c.processExts, c.rejectExts, c.bypassExts);
    || (verdict == Extensions.Reject && !c.return400IfFileExtRejected)
    || (verdict == Extensions.Process && c.maxFileSize != 0 && c.maxFileSize < |file| && !c.returnOrigIfMaxSizeExc)
  }

  /** The response with the page of a response, and with that of a request, whose length is
      gone. */
  function PageEvent(c: EchoConfig, mode: Mode): Event {
    if mode == RESPMOD then
      Responded(OK_STATUS, Block(false, c.pageHeader(Decimal.Itoa(|c.page|))),
                if c.page == "" then None else Some(c.page))
    else Responded(OK_STATUS, Block(true, c.pageHeader("")), None)
  }

  lemma EchoPaged(p: Plan, partial: bool, full: string)
    requires p.service.Echo? && !p.isConnect && GoesOn(p, partial) && Pages(p.service.config, p.mode, full)
    ensures ServiceAnswer(p, full).status == OK_STATUS
    ensures Ends(p, partial, full, PageEvent(p.service.config, p.mode))
  {
    Decimal.ItoaZero(|p.service.config.page|);
  }

  // ---------------------------------------------------------------------------------
  // A whole exchange
  // ---------------------------------------------------------------------------------

  /** What `finishRequest` adds. */
  function Ending(head: HeadPrinter, mode: Mode, events: seq<Event>): string {
    if events == [] || !events[|events| - 1].Responded? then Opening(head, mode, OK_STATUS, Nothing, false)
    else if events[|events| - 1].body.Some? then LAST_CHUNK + CRLF
    else ""
  }

  /** Everything a run writes. */
  function FinishedWire(head: HeadPrinter, p: Plan, partial: bool, full: string): string {
    var t := Transcript(p, partial, full);
    EventsWire(head, p.mode, t) + Ending(head, p.mode, t)
  }

  lemma EmptyEnds(a: string, b: string)
    ensures a + b + "" == a + b && a + "" + b == a + b && "" + a == a
  {}

  /** Finishing a run. */
  method Finish(r: ICAPRequest)
    requires r.Valid() && r.sent == ""
    modifies r.w, r.w.conn`outbound
    ensures r.w.conn.outbound == EventsWire(r.w.head, r.w.mode, r.log) + Ending(r.w.head, r.w.mode, r.log)
  {
    ghost var wire := EventsWire(r.w.head, r.w.mode, r.log);
    EmptyEnds(wire, LAST_CHUNK + CRLF);
    EmptyEnds(wire, Opening(r.w.head, r.w.mode, OK_STATUS, Nothing, false));
    EmptyEnds(wire, "");
    r.w.FinishRequest();
  }

  /** Everything that comes out of a run, for any service and any answers of the business
      logic: the bytes on the wire and the recordings. */
  method Serve(req: IcapRequest.Request, p: Plan, head: HeadPrinter, sizes: nat -> nat)
    returns (wire: string, launched: seq<string>, ghost events: seq<Event>)
    requires Parsed(req) && req.conn.outbound == ""
    requires p.mode == req.mode && p.service.Valid()
    requires forall i: nat :: sizes(i) > 0
    modifies req.conn, if req.body.Stream? then {req.body.reader} else {}
    ensures events == Transcript(p, old(IsPartial(req)), old(BodyOf(req)))
    ensures wire == FinishedWire(head, p, old(IsPartial(req)), old(BodyOf(req)))
    ensures launched == Snapshots(events)
  {
    var r := NewRun(req, p, head);
    r.RequestProcessing(sizes);
    events := r.log;
    Finish(r);
    assert r.recorded + Snapshots(events) == Snapshots(events);
    wire, launched := r.w.conn.outbound, r.handler.launched;
  }

  /** Everything a run needs. */
  method NewRun(req: IcapRequest.Request, p: Plan, head: HeadPrinter) returns (r: ICAPRequest)
    requires Parsed(req) && req.conn.outbound == ""
    requires p.mode == req.mode && p.service.Valid()
    ensures fresh(r) && fresh(r.w) && fresh(r.msg) && fresh(r.handler) && r.Ready()
    ensures r.req == req && r.plan == p && r.w.head == head && r.sent == "" && r.recorded == []
  {
    var msg := new HttpMessage(p.mode == REQMOD, p.header, "", "");
    var w := new RespWriter(req.conn, p.mode, head);
    var handler := new BusinessLogicHandler();
    r := new ICAPRequest(w, req, msg, handler, p);
  }

  /** Without a preview, the run works on everything the chunks behind the header blocks mean, and
      without a body on nothing. */
  lemma PlainBody(req: IcapRequest.Request, hasBody: bool, segs: seq<string>)
    requires req.conn.Valid() && Segments(segs) && req.previewHeader == "" && req.BodyFrom(hasBody, segs)
    ensures Parsed(req) && !IsPartial(req)
    ensures BodyOf(req) == if hasBody then Decode(0, Flatten(segs)).data else ""
  {}

  /** The body of a request that was received with a preview. */
  lemma ReceivedBody(req: IcapRequest.Request, lead: string, h: string, body: string, limit: nat, segs: seq<string>)
    requires req.conn.Valid() && |body| < Hex.TWO64
    requires Segments(segs) && Flatten(segs) == PreviewProtocol.FramedPreview(body, limit)
    requires PreviewProtocol.Received(req, req.mode, lead, h, body, limit, segs)
    requires Flatten(req.conn.deferred) == PreviewProtocol.SecondStep(body, limit)
    ensures Parsed(req) && (IsPartial(req) <==> PreviewProtocol.Unfinished(body, limit))
    ensures BodyOf(req) == body <==> PreviewProtocol.Arrives(body, limit, Stranded(segs))
  {
    assert req.previewHeader != "";
    PreviewProtocol.ReceivedLeft(req, lead, h, body, limit, segs);
    PreviewProtocol.ReceivedExactly(body, limit, Flatten(req.conn.inbound), Stranded(segs));
    var p := PreviewProtocol.Preview(body, limit);
    if p != "" {
      var d := Decode(0, PreviewProtocol.FramedPreview(body, limit)).data;
      assert d + "" == d;
    }
  }

  /** The client sends its message with a preview, the server answers it, and the response is
      finished; or the server refuses it and closes the connection. The body the run works on
      is the client's exactly when it arrives. */
  method Exchange(c: Client.Request, limit: nat, cut: string -> seq<string>, sizes: nat -> nat, p: Plan,
                  head: HeadPrinter)
    returns (accepted: bool, wire: string, launched: seq<string>, ghost full: string)
    requires c.Valid() && PreviewProtocol.Sendable(c)
    requires PreviewProtocol.Cuts(cut) && forall i: nat :: sizes(i) > 0
    requires p.mode == c.mode && p.service.Valid()
    modifies c
    ensures c.Valid()
    ensures accepted <==> !PreviewProtocol.Refused(c.Message().body, limit)
    ensures accepted && full == c.Message().body <==>
            PreviewProtocol.Arrives(c.Message().body, limit, Stranded(PreviewProtocol.PreviewSegments(c, limit, cut)))
    ensures var partial := PreviewProtocol.Unfinished(c.Message().body, limit);
            && wire == (if accepted then FinishedWire(head, p, partial, full) else "")
            && launched == (if accepted then Snapshots(Transcript(p, partial, full)) else [])
  {
    var conn, req := PreviewProtocol.Send(c, limit, cut, sizes);
    ghost var body, segs := c.Message().body, PreviewProtocol.PreviewSegments(c, limit, cut);
    if req == None {
      PreviewProtocol.RefusedLooksChunked(body, limit);
      return false, "", [], "";
    }
    ReceivedBody(req.value, c.Leading(), c.Message().head, body, limit, segs);
    accepted, full := true, BodyOf(req.value);
    ghost var events;
    wire, launched, events := Serve(req.value, p, head, sizes);
  }

  // ---------------------------------------------------------------------------------
  // Body fidelity
  // ---------------------------------------------------------------------------------

  /** The body on the wire; an empty one is announced as null-body and takes no bytes. */
  function BodyWire(body: string): string {
    if body == "" then "" else Chunk(body) + (LAST_CHUNK + CRLF)
  }

  /** What goes out in front of the response to a message that had to be continued. */
  function Begin(partial: bool): string { if partial then "ICAP/1.0 100 Continue\r\n\r\n" else "" }

  /** A response without an HTTP message. */
  function BareWire(head: HeadPrinter, code: int): string {
    head(code, [Encapsulated.Section(Encapsulated.NullBody, 0)])
  }

  /** A response with an HTTP message: its header block and its body, if it has one, are announced
      where they are. */
  function MessageWire(head: HeadPrinter, code: int, isRequest: bool, header: string, body: Option<string>): string {
    (if isRequest then
       head(code, [Encapsulated.Section(Encapsulated.ReqHdr, 0),
                   Encapsulated.Section(if body.Some? then Encapsulated.ReqBody else Encapsulated.NullBody, |header|)])
     else
       head(code, [Encapsulated.Section(Encapsulated.ResHdr, 0),
                   Encapsulated.Section(if body.Some? then Encapsulated.ResBody else Encapsulated.NullBody, |header|)]))
    + header
    + if body.Some? then Chunk(body.value) + "0\r\n\r\n" else ""
  }

  /** What a message that is sent back looks like on the wire: a 200 with the message, its length in
      its header, and its body, or null-body for an empty one. */
  function SentBackWire(head: HeadPrinter, p: Plan, partial: bool, body: string): string {
    Begin(partial)
    + MessageWire(head, 200, p.mode == REQMOD, p.header(Decimal.Itoa(|body|)), if body == "" then None else Some(body))
  }

  /** A client decodes that body to exactly what was sent back. */
  lemma BodyDecoded(body: string)
    requires body != "" && |body| < Hex.TWO64
    ensures Decode(0, BodyWire(body)) == Decoded(body, Eof, CRLF)
  {
    DecodeChunk(body, LAST_CHUNK + CRLF);
    DecodeLast(CRLF);
  }

  /** Behind the ICAP head, a message that is sent back is read as its header and its body: a
      body is announced exactly when it is not empty, and decodes to what was sent. */
  lemma SentBackRead(mode: Mode, header: string, body: string)
    requires |header| <= Decimal.MAX_INT && |body| < Hex.TWO64
    ensures var list :=
              if mode == REQMOD then
                [Encapsulated.Section(Encapsulated.ReqHdr, 0),
                 Encapsulated.Section(if body == "" then Encapsulated.NullBody else Encapsulated.ReqBody, |header|)]
              else
                [Encapsulated.Section(Encapsulated.ResHdr, 0),
                 Encapsulated.Section(if body == "" then Encapsulated.NullBody else Encapsulated.ResBody, |header|)];
            && Encapsulated.Printable(list)
            && var l := Encapsulated.LayoutFor(Encapsulated.ParseItems(Encapsulated.Print(list)));
               && l.Some? && (l.value.hasBody <==> body != "")
               && Encapsulated.Blocks(l.value, header + BodyWire(body)) ==
                  Some(if mode == REQMOD then Encapsulated.Cut(header, "", BodyWire(body))
                       else Encapsulated.Cut("", header, BodyWire(body)))
    ensures body != "" ==> Decode(0, BodyWire(body)) == Decoded(body, Eof, CRLF)
  {
    Two(Sections(mode, Block(mode == REQMOD, header), body != ""));
    ResponseReadable(mode, Block(mode == REQMOD, header), body != "", BodyWire(body));
    if body != "" { BodyDecoded(body); }
  }

  lemma TwoEvents(head: HeadPrinter, mode: Mode, a: Event, b: Event)
    ensures EventsWire(head, mode, [a]) == EventWire(head, mode, a)
    ensures EventsWire(head, mode, [a, b]) == EventWire(head, mode, a) + EventWire(head, mode, b)
  {
    assert [a][1..] == [] && [a, b][1..] == [b] && [b][1..] == [];
  }

  /** In front of the response only "100 Continue" goes out. */
  lemma Prelude(head: HeadPrinter, p: Plan, partial: bool, full: string)
    requires GoesOn(p, partial) && Answered(ServiceAnswer(p, full).status)
    ensures var t := Transcript(p, partial, full);
            t != [] && EventsWire(head, p.mode, t[..|t| - 1]) == Begin(partial)
  {
    var t := Transcript(p, partial, full);
    var pre := t[..|t| - 1];
    if pre == [] {
    } else if |pre| == 1 {
      assert pre == [pre[0]];
      TwoEvents(head, p.mode, pre[0], pre[0]);
    } else {
      assert pre == [pre[0], pre[1]];
      TwoEvents(head, p.mode, pre[0], pre[1]);
    }
  }

  /** The bytes of an event and the end of the response. */
  function ResponseWire(head: HeadPrinter, mode: Mode, e: Event): string
    requires e.Responded?
  {
    Opening(head, mode, e.code, e.part, e.body.Some?)
    + if e.body.Some? then Chunk(e.body.value) + (LAST_CHUNK + CRLF) else ""
  }

  /** A run that ends with a response writes that, behind "100 Continue" if it was partial. */
  lemma EndBytes(head: HeadPrinter, p: Plan, partial: bool, full: string, e: Event)
    requires GoesOn(p, partial) && Answered(ServiceAnswer(p, full).status)
    requires e.Responded? && Ends(p, partial, full, e)
    ensures FinishedWire(head, p, partial, full) == Begin(partial) + ResponseWire(head, p.mode, e)
  {
    Prelude(head, p, partial, full);
    LastEvent(head, p.mode, Transcript(p, partial, full), Begin(partial), e);
  }

  lemma LastEvent(head: HeadPrinter, mode: Mode, t: seq<Event>, begin: string, e: Event)
    requires t != [] && t[|t| - 1] == e && e.Responded? && EventsWire(head, mode, t[..|t| - 1]) == begin
    ensures EventsWire(head, mode, t) + Ending(head, mode, t) == begin + ResponseWire(head, mode, e)
  {
    var opening := Opening(head, mode, e.code, e.part, e.body.Some?);
    assert t == t[..|t| - 1] + [e];
    EventsWireSnoc(head, mode, t[..|t| - 1], e);
    Regroup(begin, opening, if e.body.Some? then Chunk(e.body.value) else "", LAST_CHUNK + CRLF);
  }

  /** The bytes of a response, spelled out. */
  lemma ResponseWireIs(head: HeadPrinter, mode: Mode, e: Event)
    requires e.Responded? && (e.part == Nothing ==> e.body == None)
    ensures ResponseWire(head, mode, e) ==
            if e.part == Nothing then BareWire(head, e.code)
            else MessageWire(head, e.code, e.part.isRequest, e.part.header, e.body)
  {
    OpeningExactly(head, mode, e.code, HeaderOf(e.part), e.body.Some?);
    assert LAST_CHUNK + CRLF == "0\r\n\r\n";
    NothingBehind(Opening(head, mode, e.code, e.part, e.body.Some?));
  }

  lemma SentBackBytes(head: HeadPrinter, p: Plan, partial: bool, full: string, body: string)
    requires GoesOn(p, partial) && Answered(ServiceAnswer(p, full).status)
    requires Ends(p, partial, full, SentBack(p, body))
    ensures FinishedWire(head, p, partial, full) == SentBackWire(head, p, partial, body)
  {
    EndBytes(head, p, partial, full, SentBack(p, body));
    ResponseWireIs(head, p.mode, SentBack(p, body));
  }

  /** A run that ends with a response that has no message. */
  lemma BareBytes(head: HeadPrinter, p: Plan, partial: bool, full: string, code: int)
    requires GoesOn(p, partial) && Answered(ServiceAnswer(p, full).status)
    requires Ends(p, partial, full, Responded(code, Nothing, None))
    ensures FinishedWire(head, p, partial, full) == Begin(partial) + BareWire(head, code)
  {
    EndBytes(head, p, partial, full, Responded(code, Nothing, None));
    ResponseWireIs(head, p.mode, Responded(code, Nothing, None));
  }

  /** A service's message on the wire; it has a body when it has a length other than "0". */
  function OutWire(head: HeadPrinter, code: int, out: Option<Out>): string {
    match out
    case None => BareWire(head, code)
    case Some(o) =>
      MessageWire(head, code, o.isRequest, o.header,
                  if o.contentLength != "" && o.contentLength != "0" then Some(o.body) else None)
  }

  lemma OutBytes(head: HeadPrinter, p: Plan, partial: bool, full: string, code: int, out: Option<Out>)
    requires GoesOn(p, partial) && Answered(ServiceAnswer(p, full).status)
    requires Ends(p, partial, full, WriteOut(code, out))
    ensures FinishedWire(head, p, partial, full) == Begin(partial) + OutWire(head, code, out)
  {
    EndBytes(head, p, partial, full, WriteOut(code, out));
    ResponseWireIs(head, p.mode, WriteOut(code, out));
  }

  /** The whole wire of a run that gets to the service, by the service's status: 408, 500 and an
      allowed 204 go out without a message, 200 and 400 with the service's, a 204 that is not
      allowed turns into a 200 with the service's message in RESPMOD, and any other status into an
      empty 200. */
  lemma StatusWire(head: HeadPrinter, p: Plan, partial: bool, full: string)
    requires Passed(p, partial)
    ensures var a, wire := ServiceAnswer(p, full), FinishedWire(head, p, partial, full);
            && (a.status == 204 && Allows(p) ==> wire == Begin(partial) + BareWire(head, 204))
            && (a.status == 408 || a.status == 500 ==> wire == Begin(partial) + BareWire(head, a.status))
            && (a.status == 200 || a.status == 400 ==> wire == Begin(partial) + OutWire(head, a.status, a.out))
            && (a.status == 204 && !Allows(p) && p.mode == RESPMOD ==>
                  wire == Begin(partial) + OutWire(head, 200, a.out))
            && (!Answered(a.status) ==> wire == Begin(partial) + BareWire(head, 200))
  {
    PassedGoesOn(p, partial);
    AllowsExactly(p);
    var a := ServiceAnswer(p, full);
    if a.status == 408 || a.status == 500 {
      BareBytes(head, p, partial, full, a.status);
    } else if a.status == 200 || a.status == 400 {
      OutBytes(head, p, partial, full, a.status, a.out);
    } else if a.status == 204 {
      if Allows(p) {
        BareBytes(head, p, partial, full, 204);
      } else if p.mode == RESPMOD {
        OutBytes(head, p, partial, full, 200, a.out);
      }
    } else {
      UnansweredBytes(head, p, partial, full);
    }
  }

  lemma UnansweredBytes(head: HeadPrinter, p: Plan, partial: bool, full: string)
    requires GoesOn(p, partial) && !Answered(ServiceAnswer(p, full).status)
    ensures FinishedWire(head, p, partial, full) == Begin(partial) + BareWire(head, 200)
  {
    var t := Transcript(p, partial, full);
    OpeningExactly(head, p.mode, 200, "", false);
    if |t| == 1 {
      TwoEvents(head, p.mode, t[0], t[0]);
      assert t == [t[0]];
    } else if |t| == 2 {
      TwoEvents(head, p.mode, t[0], t[1]);
      assert t == [t[0], t[1]];
    }
  }

  /** A refused request gets an empty 400: at once, preview or not, or behind "100 Continue" when
      the recording that was put off is refused. */
  lemma RefusalWire(head: HeadPrinter, p: Plan, partial: bool, full: string)
    requires p.business && p.mode == REQMOD
    ensures Refuses(p.first) ==> FinishedWire(head, p, partial, full) == BareWire(head, 400)
    ensures Records(p.first) && partial && Refuses(p.second) ==>
              FinishedWire(head, p, partial, full) == "ICAP/1.0 100 Continue\r\n\r\n" + BareWire(head, 400)
  {
    DecideExactly(p.first);
    DecideExactly(p.second);
    var e := Responded(400, Nothing, None);
    ResponseWireIs(head, p.mode, e);
    if Refuses(p.first) {
      assert [e][..0] == [];
      LastEvent(head, p.mode, [e], "", e);
      assert "" + BareWire(head, 400) == BareWire(head, 400);
    } else if Records(p.first) && partial && Refuses(p.second) {
      assert Transcript(p, partial, full) == [Continued, e];
      assert [Continued, e][..1] == [Continued];
      TwoEvents(head, p.mode, Continued, e);
      LastEvent(head, p.mode, [Continued, e], Begin(true), e);
    }
  }

  lemma Regroup(pre: string, opening: string, chunk: string, end: string)
    ensures pre + (opening + chunk) + end == pre + (opening + (chunk + end))
    ensures pre + (opening + "") + "" == pre + (opening + "")
  {}

  /** The body on the wire can be read. */
  ghost predicate Readable(body: string) {
    body != "" && |body| < Hex.TWO64 ==> Decode(0, BodyWire(body)) == Decoded(body, Eof, CRLF)
  }

  /** Without permission for a 204, a "no modification" from any service in REQMOD sends the
      original body back whole, preview or not, announced with its length. */
  lemma NoModificationRule(head: HeadPrinter, p: Plan, partial: bool, full: string)
    requires p.mode == REQMOD && !Allows(p) && Passed(p, partial)
    requires ServiceAnswer(p, full).status == 204
    ensures FinishedWire(head, p, partial, full) == SentBackWire(head, p, partial, full) && Readable(full)
  {
    PassedGoesOn(p, partial);
    AllowsExactly(p);
    NoModificationEvent(p, partial, full);
    SentBackBytes(head, p, partial, full, full);
    if full != "" && |full| < Hex.TWO64 { BodyDecoded(full); }
  }

  /** What echo processes comes back as itself in RESPMOD, and in REQMOD in its base64-canonical
      form. */
  lemma EchoFidelity(head: HeadPrinter, p: Plan, partial: bool, full: string)
    requires p.service.Echo? && !p.isConnect && Processes(p.service.config, p.mode, full) && Passed(p, partial)
    ensures var body := Echoed(p.mode, full);
            FinishedWire(head, p, partial, full) == SentBackWire(head, p, partial, body) && Readable(body)
  {
    var body := Echoed(p.mode, full);
    PassedGoesOn(p, partial);
    EchoProcessed(p, partial, full);
    SentBackBytes(head, p, partial, full, body);
    if body != "" && |body| < Hex.TWO64 { BodyDecoded(body); }
  }

  /** A bypassed body: a 204 for a client that allows it, and otherwise the body as it is, in both
      modes. */
  lemma EchoBypass(head: HeadPrinter, p: Plan, partial: bool, full: string)
    requires p.service.Echo? && !p.isConnect && Passed(p, partial)
    requires Bypasses(p.service.config, p.mode, full)
    ensures FinishedWire(head, p, partial, full) ==
            if Allows(p) then Begin(partial) + BareWire(head, 204) else SentBackWire(head, p, partial, full)
    ensures Readable(full)
  {
    PassedGoesOn(p, partial);
    AllowsExactly(p);
    EchoBypassed(p, partial, full);
    if Allows(p) { StatusWire(head, p, partial, full); } else { SentBackBytes(head, p, partial, full, full); }
    if full != "" && |full| < Hex.TWO64 { BodyDecoded(full); }
  }

  /** A rejected extension when pages are turned off: an empty 400. */
  lemma EchoRejected(head: HeadPrinter, p: Plan, partial: bool, full: string)
    requires p.service.Echo? && !p.isConnect && Passed(p, partial)
    requires var c := p.service.config;
             && c.return400IfFileExtRejected
             && Extensions.Verdict(c.extension(Scanned(p.mode, full)), c.processExts, c.rejectExts, c.bypassExts)
                == Extensions.Reject
    ensures FinishedWire(head, p, partial, full) == Begin(partial) + BareWire(head, 400)
  {
    StatusWire(head, p, partial, full);
  }

  /** A body over the size limit when it is to be returned: a 204 for a client that allows it, and
      otherwise the body as it is, in both modes. */
  lemma EchoOversized(head: HeadPrinter, p: Plan, partial: bool, full: string)
    requires p.service.Echo? && !p.isConnect && Passed(p, partial)
    requires var c, file := p.service.config, Scanned(p.mode, full);
             && Extensions.Verdict(c.extension(file), c.processExts, c.rejectExts, c.bypassExts) == Extensions.Process
             && c.maxFileSize != 0 && c.maxFileSize < |file| && c.returnOrigIfMaxSizeExc
    ensures FinishedWire(head, p, partial, full) ==
            if Allows(p) then Begin(partial) + BareWire(head, 204) else SentBackWire(head, p, partial, full)
    ensures Readable(full)
  {
    PassedGoesOn(p, partial);
    AllowsExactly(p);
    if Allows(p) {
      StatusWire(head, p, partial, full);
    } else {
      WithFileSent(p, full);
      SentBackBytes(head, p, partial, full, full);
    }
    if full != "" && |full| < Hex.TWO64 { BodyDecoded(full); }
  }

  /** A CONNECT request comes back as it was scanned: a body that looks like base64 comes back
      decoded, which is itself only when it is empty. */
  lemma EchoConnect(head: HeadPrinter, p: Plan, partial: bool, full: string)
    requires p.service.Echo? && p.isConnect && Passed(p, partial)
    ensures var body := Scanned(p.mode, full);
            && FinishedWire(head, p, partial, full) == SentBackWire(head, p, partial, body) && Readable(body)
            && (body == full <==> p.mode == RESPMOD || full == "" || !Base64.Recognised(full))
  {
    var body := Scanned(p.mode, full);
    PassedGoesOn(p, partial);
    EchoConnected(p, partial, full);
    SentBackBytes(head, p, partial, full, body);
    if body != "" && |body| < Hex.TWO64 { BodyDecoded(body); }
    if Base64.Recognised(full) { DecodedShorter(full); }
  }

  /** An error page goes out with its length and its bytes in RESPMOD; the request that stands
      for one in REQMOD has lost its length, so it goes out with null-body. */
  lemma ErrorPageSent(head: HeadPrinter, p: Plan, partial: bool, full: string)
    requires p.service.Echo? && !p.isConnect && Passed(p, partial) && Pages(p.service.config, p.mode, full)
    ensures var c := p.service.config;
            && FinishedWire(head, p, partial, full) ==
               Begin(partial) +
               (if p.mode == RESPMOD then
                  MessageWire(head, 200, false, c.pageHeader(Decimal.Itoa(|c.page|)),
                              if c.page == "" then None else Some(c.page))
                else MessageWire(head, 200, true, c.pageHeader(""), None))
            && Readable(c.page)
  {
    var c := p.service.config;
    PassedGoesOn(p, partial);
    EchoPaged(p, partial, full);
    EndBytes(head, p, partial, full, PageEvent(c, p.mode));
    ResponseWireIs(head, p.mode, PageEvent(c, p.mode));
    if c.page != "" && |c.page| < Hex.TWO64 { BodyDecoded(c.page); }
  }

  /** Pass-through fidelity, end to end: whenever the body arrives, what the echo service answers
      to a message it processes carries the client's whole body in RESPMOD and its
      base64-canonical form in REQMOD, announced with its length, and the recording, if there
      is one, is the client's whole body. */
  method EchoExchange(c: Client.Request, limit: nat, cut: string -> seq<string>, sizes: nat -> nat, p: Plan,
                      head: HeadPrinter)
    returns (accepted: bool, wire: string, launched: seq<string>)
    requires c.Valid() && PreviewProtocol.Sendable(c)
    requires PreviewProtocol.Cuts(cut) && forall i: nat :: sizes(i) > 0
    requires p.mode == c.mode && p.service.Valid()
    requires p.service.Echo? && !p.isConnect && Processes(p.service.config, p.mode, c.Message().body)
    requires Passed(p, 0 < limit < |c.Message().body|)
    modifies c
    ensures c.Valid()
    ensures PreviewProtocol.Arrives(c.Message().body, limit,
                                    Stranded(PreviewProtocol.PreviewSegments(c, limit, cut))) ==>
              var body, partial := c.Message().body, 0 < limit < |c.Message().body|;
              && accepted && wire == SentBackWire(head, p, partial, Echoed(p.mode, body))
              && launched ==
                 if p.business && p.mode == REQMOD && Records(p.first) && (partial ==> Records(p.second)) then [body]
                 else []
  {
    ghost var full;
    accepted, wire, launched, full := Exchange(c, limit, cut, sizes, p, head);
    ghost var body, partial := c.Message().body, 0 < limit < |c.Message().body|;
    if accepted && full == body {
      PreviewProtocol.ArrivedUnfinished(body, limit, Stranded(PreviewProtocol.PreviewSegments(c, limit, cut)));
      EchoFidelity(head, p, partial, body);
      RecordingSafety(p, partial, body);
    }
  }

  /** What comes back is the very body in RESPMOD, and in REQMOD exactly when the body does
      not look like base64 or is canonical. */
  lemma EchoedExactly(mode: Mode, body: string)
    ensures Echoed(mode, body) == body <==>
            mode == RESPMOD || !Base64.Recognised(body) || Base64.PadBits(body) == 0
  {
    Base64.PassedThroughExactly(body);
  }
}
