/** The run of one REQMOD or RESPMOD request (api/icap-request.go): draining the body, the
    business decision, the service, and the response, in one or two passes. */
module Api {
  import opened Strings
  import opened Chunked
  import opened IcapRequest
  import opened Response
  import opened Service
  import opened Business
  import Decimal

  // ---------------------------------------------------------------------------------
  // What a run is expected to do
  // ---------------------------------------------------------------------------------

  /** What can be seen of a run: the client told to go on, a recording launched, a response
      written (with the body that is written along, if any). */
  datatype Event = Continued | Launched(snapshot: string) | Responded(code: int, part: Part, body: Option<string>)

  /** What decides about a run. `first` and `second` answer the two possible calls of the
      business logic, when there is any. */
  datatype Plan = Plan(
    mode: Mode, service: Service, isConnect: bool, allow: Option<string>, header: string -> string,
    business: bool, first: Lookup, second: Lookup)
  {
    predicate Decides() { business && mode == REQMOD }
  }

  /** is204Allowed (lines 480-497): the Allow header has 204 in it. */
  function Is204Allowed(allow: Option<string>): bool {
    allow.Some? && (allow.value == "204" || Contains(allow.value, "204"))
  }

  /** httpMessageHasBody (lines 25-41). */
  predicate HasBody(contentLength: string) { contentLength != "" && contentLength != "0" }

  function WriteOut(code: int, out: Option<Out>): Event {
    match out
    case None => Responded(code, Nothing, None)
    case Some(o) =>
      Responded(code, Block(o.isRequest, o.header), if HasBody(o.contentLength) then Some(o.body) else None)
  }

  /** The response to the answer for a message whose whole body is `full`. A "no
      modification" without permission for a 204 sends the message back: in REQMOD the
      original body, in RESPMOD what the service returned. Other status codes are not
      answered here. */
  function Final(p: Plan, a: Answer, full: string): seq<Event> {
    if a.status == SERVER_ERROR || a.status == TIMEOUT then [Responded(a.status, Nothing, None)]
    else if a.status == OK_STATUS || a.status == BAD_REQUEST then [WriteOut(a.status, a.out)]
    else if a.status == NO_MODIFICATION then
      if Is204Allowed(p.allow) then [Responded(NO_MODIFICATION, Nothing, None)]
      else if p.mode == REQMOD then [WriteOut(OK_STATUS, Some(WithFile(REQMOD, p.header, full)))]
      else [WriteOut(OK_STATUS, a.out)]
    else []
  }

  /** A pass over a complete body, with this business decision. */
  function LastPass(p: Plan, d: Decision, full: string): seq<Event> {
    if d == Refuse then [Responded(BAD_REQUEST, Nothing, None)]
    else
      (if d == Record then [Launched(full)] else [])
      + Final(p, AnswerOf(p.service, p.mode, p.isConnect, p.header, full), full)
  }

  function FirstDecision(p: Plan): Decision {
    if p.Decides() then Decide(p.first) else Pass
  }

  /** A recording that was put off is decided again. */
  function SecondDecision(p: Plan): Decision {
    if FirstDecision(p) == Record then Decide(p.second) else Pass
  }

  /** All the events of a run; `full` is the body once it is complete. */
  function Transcript(p: Plan, partial: bool, full: string): seq<Event> {
    var d := FirstDecision(p);
    if !partial then LastPass(p, d, full)
    else if d == Refuse then [Responded(BAD_REQUEST, Nothing, None)]
    else [Continued] + LastPass(p, SecondDecision(p), full)
  }

  /** The bytes an event puts on the wire. */
  function EventWire(head: HeadPrinter, mode: Mode, e: Event): string {
    match e
    case Continued => CONTINUE
    case Launched(_) => ""
    case Responded(code, part, body) =>
      Opening(head, mode, code, part, body.Some?) + if body.Some? then Chunk(body.value) else ""
  }

  function EventsWire(head: HeadPrinter, mode: Mode, events: seq<Event>): string {
    if events == [] then "" else EventWire(head, mode, events[0]) + EventsWire(head, mode, events[1..])
  }

  lemma {:induction false} EventsWireSnoc(head: HeadPrinter, mode: Mode, events: seq<Event>, e: Event)
    ensures EventsWire(head, mode, events + [e]) == EventsWire(head, mode, events) + EventWire(head, mode, e)
    decreases |events|
  {
    if events == [] {
      assert events + [e] == [e];
    } else {
      EventsWireSnoc(head, mode, events[1..], e);
      assert (events + [e])[1..] == events[1..] + [e];
      Associative(EventWire(head, mode, events[0]), EventsWire(head, mode, events[1..]), EventWire(head, mode, e));
    }
  }

  function Snapshots(events: seq<Event>): seq<string> {
    if events == [] then []
    else (if events[0].Launched? then [events[0].snapshot] else []) + Snapshots(events[1..])
  }

  lemma {:induction false} SnapshotsSnoc(events: seq<Event>, e: Event)
    ensures Snapshots(events + [e]) == Snapshots(events) + if e.Launched? then [e.snapshot] else []
    decreases |events|
  {
    if events == [] {
      assert events + [e] == [e] && [e][1..] == [];
    } else {
      SnapshotsSnoc(events[1..], e);
      assert (events + [e])[1..] == events[1..] + [e];
    }
  }

  // ---------------------------------------------------------------------------------
  // The request's body
  // ---------------------------------------------------------------------------------

  /** A request as `ReadRequest` hands it over. */
  ghost predicate Parsed(req: IcapRequest.Request)
    reads req, req.conn, if req.body.Stream? then {req.body.reader} else {}
  {
    && req.conn.Valid()
    && (req.body.Stream? ==> req.body.reader.conn == req.conn && req.body.reader.Valid())
    && (IsPartial(req) ==> req.body == Bytes(req.preview))
  }

  /** Lines 175-185: there is a preview, and it did not end with the full-body indicator. */
  predicate IsPartial(req: IcapRequest.Request)
    reads req
  {
    req.previewHeader != "" && req.endIndicator != IEOF && req.endIndicator != ""
  }

  /** What the body reader delivers. */
  ghost function Readable(req: IcapRequest.Request): string
    requires Parsed(req)
    reads req, req.conn, if req.body.Stream? then {req.body.reader} else {}
  {
    match req.body
    case NoBody => ""
    case Bytes(b) => b
    case Stream(r) => r.Outcome().data
  }

  /** The body of the request: what the reader delivers, completed after a preview. */
  ghost function BodyOf(req: IcapRequest.Request): string
    requires Parsed(req)
    reads req, req.conn, if req.body.Stream? then {req.body.reader} else {}
  {
    if IsPartial(req) then req.preview + Decode(0, Flatten(req.conn.inbound) + Flatten(req.conn.deferred)).data
    else Readable(req)
  }

  // ---------------------------------------------------------------------------------
  // The run
  // ---------------------------------------------------------------------------------

  /** `ICAPRequest`. `msg` is the HTTP message under adaptation: the encapsulated request in
      REQMOD, the response in RESPMOD. `orgBody` is the body of `OrgRequest`, which shares
      its header map with the request. */
  class ICAPRequest {
    const w: RespWriter
    const req: IcapRequest.Request
    const msg: HttpMessage
    const handler: BusinessLogicHandler
    const plan: Plan
    var orgBody: string
    var businessLogicApplied: bool
    var pendingRecording: bool
    ghost var log: seq<Event>
    ghost const sent: string
    ghost const recorded: seq<string>

    constructor (w: RespWriter, req: IcapRequest.Request, msg: HttpMessage, handler: BusinessLogicHandler, plan: Plan)
      requires w.Valid() && !w.wroteHeader && w.cw == null && w.conn == req.conn && req.conn.Valid()
      requires w.mode == plan.mode == req.mode && plan.service.Valid()
      requires msg.isRequest == (plan.mode == REQMOD) && msg.header == plan.header
      ensures Valid() && log == [] && !businessLogicApplied && !pendingRecording
      ensures this.w == w && this.req == req && this.msg == msg && this.handler == handler && this.plan == plan
      ensures sent == w.conn.outbound && recorded == handler.launched
    {
      this.w, this.req, this.msg, this.handler, this.plan := w, req, msg, handler, plan;
      orgBody, businessLogicApplied, pendingRecording, log := "", false, false, [];
      sent, recorded := w.conn.outbound, handler.launched;
    }

    /** Everything the run has done is in the log: what it wrote and what it recorded. */
    ghost predicate Valid()
      reads this, w, req, req.conn, handler
    {
      && w.Valid() && w.conn == req.conn && req.conn.Valid()
      && w.mode == plan.mode == req.mode && plan.service.Valid()
      && msg.isRequest == (plan.mode == REQMOD) && msg.header == plan.header
      && w.conn.outbound == sent + EventsWire(w.head, w.mode, log)
      && handler.launched == recorded + Snapshots(log)
      && (w.wroteHeader <==> log != [] && log[|log| - 1].Responded?)
      && (w.cw != null <==> log != [] && log[|log| - 1].Responded? && log[|log| - 1].body.Some?)
    }

    lemma Logged(e: Event)
      ensures sent + EventsWire(w.head, w.mode, log + [e]) ==
              sent + EventsWire(w.head, w.mode, log) + EventWire(w.head, w.mode, e)
      ensures recorded + Snapshots(log + [e]) == recorded + Snapshots(log) + if e.Launched? then [e.snapshot] else []
    {
      EventsWireSnoc(w.head, w.mode, log, e);
      Associative(sent, EventsWire(w.head, w.mode, log), EventWire(w.head, w.mode, e));
      SnapshotsSnoc(log, e);
    }

    /** Writing a response without an HTTP message. */
    method WriteStatus(code: int)
      requires Valid() && !w.wroteHeader
      modifies this`log, w, w.conn`outbound
      ensures Valid() && w.wroteHeader
      ensures log == old(log) + [Responded(code, Nothing, None)]
    {
      w.WriteHeader(code, null, false);
      Logged(Responded(code, Nothing, None));
      log := log + [Responded(code, Nothing, None)];
    }

    /** Writing a response with an HTTP message, its body included when it has a length. */
    method WriteMessage(code: int, m: HttpMessage?, ghost out: Option<Out>)
      requires Valid() && !w.wroteHeader && Holds(m, out)
      modifies this`log, w, w.conn`outbound, if m == null then {} else {m}
      ensures Valid() && w.wroteHeader
      ensures log == old(log) + [WriteOut(code, out)]
    {
      var hasBody := m != null && HasBody(m.contentLength);
      ghost var part := if m == null then Nothing else Block(m.isRequest, m.Block());
      ghost var body := if hasBody then Chunk(m.body) else "";
      ghost var before := w.conn.outbound;
      w.WriteHeader(code, m, hasBody);
      Associative(before, Opening(w.head, w.mode, code, part, hasBody), body);
      Logged(WriteOut(code, out));
      log := log + [WriteOut(code, out)];
    }

    /** The switch on the service's status (lines 319-379), apart from 100. */
    method Reply(status: int, m: HttpMessage?, ghost out: Option<Out>)
      requires Valid() && !w.wroteHeader && Holds(m, out)
      modifies this`log, this`orgBody, w, w.conn`outbound, msg, if m == null then {} else {m}
      ensures Valid()
      ensures log == old(log) + Final(plan, Answer(status, out), old(orgBody))
    {
      if status == SERVER_ERROR || status == TIMEOUT {
        WriteStatus(status);
      } else if status == NO_MODIFICATION {
        if Is204Allowed(plan.allow) {
          WriteStatus(NO_MODIFICATION);
        } else if plan.mode == REQMOD {
          var body := orgBody;
          orgBody := "";
          ReturnWithFile(msg, body);
          WriteMessage(OK_STATUS, msg, Some(WithFile(REQMOD, plan.header, body)));
        } else {
          WriteMessage(OK_STATUS, m, out);
        }
      } else if status == OK_STATUS || status == BAD_REQUEST {
        WriteMessage(status, m, out);
      }
    }

    /** One call of the business logic and its consequences. */
    method Consult(partial: bool, lookup: Lookup) returns (refused: bool)
      requires Valid() && !w.wroteHeader
      modifies this`log, this`pendingRecording, w, w.conn`outbound, handler, msg`body
      ensures Valid() && w.wroteHeader == refused
      ensures refused <==> Decide(lookup) == Refuse
      ensures pendingRecording <==> Decide(lookup) == Record && partial
      ensures msg.body == old(msg.body)
      ensures log == old(log) + if Decide(lookup) == Refuse then [Responded(BAD_REQUEST, Nothing, None)]
                                else if Decide(lookup) == Record && !partial then [Launched(old(msg.body))] else []
    {
      var statusCode;
      statusCode, pendingRecording := handler.ProcessRequest(msg, partial, lookup);
      Logged(Launched(msg.body));
      if Decide(lookup) == Record && !partial { log := log + [Launched(msg.body)]; }
      refused := statusCode == BAD_REQUEST;
      if refused {
        WriteStatus(BAD_REQUEST);
      }
    }

    /** The decision a pass is going to take. */
    ghost function Decision(partial: bool): Decision
      reads this
    {
      if !businessLogicApplied then FirstDecision(plan)
      else if pendingRecording && !partial && plan.Decides() then Decide(plan.second)
      else Business.Pass
    }

    /** The business part of a pass (lines 246-279). */
    method ApplyBusiness(partial: bool) returns (refused: bool)
      requires Valid() && !w.wroteHeader
      modifies this`log, this`businessLogicApplied, this`pendingRecording, w, w.conn`outbound, handler, msg`body
      ensures Valid() && businessLogicApplied
      ensures refused <==> old(Decision(partial)) == Refuse
      ensures w.wroteHeader == refused
      ensures !old(businessLogicApplied) && !old(pendingRecording) ==>
                (pendingRecording <==> old(Decision(partial)) == Record && partial)
      ensures !old(businessLogicApplied) && !old(pendingRecording) && partial ==>
                Decision(false) == SecondDecision(plan)
      ensures msg.body == old(msg.body)
      ensures log == old(log) + if refused then [Responded(BAD_REQUEST, Nothing, None)]
                                else if old(Decision(partial)) == Record && !partial then [Launched(old(msg.body))]
                                else []
    {
      refused := false;
      if !businessLogicApplied {
        businessLogicApplied := true;
        if plan.business && plan.mode == REQMOD {
          refused := Consult(partial, plan.first);
        }
      } else if pendingRecording && !partial && plan.mode == REQMOD {
        if plan.business {
          refused := Consult(false, plan.second);
        }
      }
    }

    /** The body that a pass ends up with. */
    ghost function FullBody(partial: bool): string
      requires req.conn.Valid()
      reads req, req.conn, msg
    {
      if partial then req.preview + Decode(0, Flatten(req.conn.inbound) + Flatten(req.conn.deferred)).data
      else msg.body
    }

    /** Getting the rest of the body (lines 331-340). */
    method Continue(sizes: nat -> nat)
      requires Valid() && !w.wroteHeader
      requires forall i: nat :: sizes(i) > 0
      modifies this`log, this`orgBody, req.conn, msg`body
      ensures Valid() && log == old(log) + [Continued]
      ensures msg.body == old(FullBody(true))
      ensures plan.mode == REQMOD ==> orgBody == msg.body
    {
      var rest := ReadRest(req, sizes);
      Logged(Continued);
      log := log + [Continued];
      if plan.mode == REQMOD {
        msg.body := rest;
        orgBody := rest;
      } else {
        msg.body := rest;
      }
    }

    /** The service's part of a pass and the response to every status but 100. */
    method Serve(partial: bool) returns (status: int)
      requires Valid() && !w.wroteHeader
      modifies this`log, this`orgBody, w, w.conn`outbound, msg
      ensures Valid()
      ensures status == CONTINUE_STATUS <==> partial
      ensures partial ==> log == old(log) && !w.wroteHeader && msg.body == old(msg.body) && orgBody == old(orgBody)
      ensures partial ==> w.conn.outbound == old(w.conn.outbound)
      ensures !partial ==>
                log == old(log) +
                       Final(plan, AnswerOf(plan.service, plan.mode, plan.isConnect, plan.header, old(msg.body)),
                             old(orgBody))
    {
      ghost var answer := AnswerOf(plan.service, plan.mode, plan.isConnect, plan.header, msg.body);
      var out;
      status, out := Processing(plan.service, partial, plan.mode, plan.isConnect, msg);
      if status != CONTINUE_STATUS {
        Reply(status, out, answer.out);
      }
    }

    /** The branch for status 100 (lines 324-344). */
    method StartOver(sizes: nat -> nat)
      requires Valid() && !w.wroteHeader && businessLogicApplied
      requires forall i: nat :: sizes(i) > 0
      modifies this`log, this`orgBody, this`businessLogicApplied, this`pendingRecording, w, msg, handler, req.conn
      ensures Valid()
      ensures log == old(log) + ([Continued] + LastPass(plan, old(Decision(false)), old(FullBody(true))))
      decreases true, 0
    {
      ghost var more := LastPass(plan, Decision(false), FullBody(true));
      Continue(sizes);
      RespAndReqMods(false, sizes);
      Appended(old(log), [Continued], more);
    }

    /** `RespAndReqMods` (lines 223-381). A partial pass tells the client to go on, gets the
        rest and starts over with the whole body. */
    method RespAndReqMods(partial: bool, sizes: nat -> nat)
      requires Valid() && !w.wroteHeader
      requires partial ==> !businessLogicApplied && !pendingRecording
      requires !partial && plan.mode == REQMOD ==> orgBody == msg.body
      requires forall i: nat :: sizes(i) > 0
      modifies this`log, this`orgBody, this`businessLogicApplied, this`pendingRecording, w, msg, handler, req.conn
      ensures Valid()
      ensures partial ==> log == old(log) + Transcript(plan, true, old(FullBody(true)))
      ensures !partial ==> log == old(log) + LastPass(plan, old(Decision(false)), old(msg.body))
      decreases partial, 2
    {
      ghost var start, d, body, full := log, Decision(partial), msg.body, FullBody(partial);
      var refused := ApplyBusiness(partial);
      if refused { return; }
      if partial {
        PartialLog(plan, start, full);
      } else {
        CompleteLog(plan, start, d, body);
      }
      Proceed(partial, sizes);
    }

    /** The response to a complete body. */
    ghost function FinalOf(body: string): seq<Event> {
      Final(plan, AnswerOf(plan.service, plan.mode, plan.isConnect, plan.header, body), body)
    }

    /** The pass behind the business decision. */
    method Proceed(partial: bool, sizes: nat -> nat)
      requires Valid() && !w.wroteHeader && businessLogicApplied
      requires !partial && plan.mode == REQMOD ==> orgBody == msg.body
      requires forall i: nat :: sizes(i) > 0
      modifies this`log, this`orgBody, this`businessLogicApplied, this`pendingRecording, w, msg, handler, req.conn
      ensures Valid()
      ensures partial ==> log == old(log) + ([Continued] + LastPass(plan, old(Decision(false)), old(FullBody(true))))
      ensures !partial ==> log == old(log) + FinalOf(old(msg.body))
      decreases partial, 1
    {
      var status := Serve(partial);
      if status == CONTINUE_STATUS {
        StartOver(sizes);
      }
    }

    /** Nothing has happened yet. */
    ghost predicate Ready()
      reads this, w, req, req.conn, handler, if req.body.Stream? then {req.body.reader} else {}
    {
      && Valid() && log == [] && !businessLogicApplied && !pendingRecording && !w.wroteHeader
      && Parsed(req)
    }

    /** ioutil.ReadAll and io.Copy on the body reader, their errors ignored. */
    method Drain(sizes: nat -> nat) returns (data: string)
      requires Ready()
      requires forall i: nat :: sizes(i) > 0
      modifies if req.body.Stream? then {req.body.reader} else {}, req.conn`inbound
      ensures Valid() && data == old(Readable(req))
      ensures !req.body.Stream? ==> req.conn.inbound == old(req.conn.inbound)
    {
      match req.body {
        case NoBody => data := "";
        case Bytes(b) => data := b;
        case Stream(r) =>
          var ignored;
          data, ignored := ReadAll(r, sizes);
      }
    }

    /** `RequestProcessing` (lines 142-215) for REQMOD and RESPMOD. */
    method RequestProcessing(sizes: nat -> nat)
      requires Ready()
      requires forall i: nat :: sizes(i) > 0
      modifies this`log, this`orgBody, this`businessLogicApplied, this`pendingRecording, w, msg, handler, req.conn,
               if req.body.Stream? then {req.body.reader} else {}
      ensures Valid()
      ensures log == Transcript(plan, old(IsPartial(req)), old(BodyOf(req)))
    {
      var partial := false;
      var fileLen := 0;
      var body := Drain(sizes);
      if plan.mode == RESPMOD {
        fileLen := |body|;
        msg.contentLength := Decimal.Itoa(|body|);
        msg.body := body;
      } else {
        orgBody := body;
        msg.contentLength := Decimal.Itoa(|body|);
        msg.body := body;
      }
      if fileLen == 0 {
        partial := false;
      } else {
        if req.previewHeader != "" && req.endIndicator != IEOF && req.endIndicator != "" {
          partial := true;
        }
      }
      if req.previewHeader != "" && req.endIndicator != IEOF && req.endIndicator != "" {
        partial := true;
      }
      RespAndReqMods(partial, sizes);
    }
  }

  /** What a pass over a preview adds up to. */
  lemma PartialLog(p: Plan, start: seq<Event>, full: string)
    requires FirstDecision(p) != Refuse
    ensures (start + []) + ([Continued] + LastPass(p, SecondDecision(p), full)) == start + Transcript(p, true, full)
  {
    assert start + [] == start;
  }

  /** What a pass over a complete body adds up to. */
  lemma CompleteLog(p: Plan, start: seq<Event>, d: Decision, full: string)
    requires d != Refuse
    ensures (start + if d == Record then [Launched(full)] else [])
            + Final(p, AnswerOf(p.service, p.mode, p.isConnect, p.header, full), full) ==
            start + LastPass(p, d, full)
  {
    Appended(start, if d == Record then [Launched(full)] else [],
             Final(p, AnswerOf(p.service, p.mode, p.isConnect, p.header, full), full));
  }

  lemma Appended(log: seq<Event>, a: seq<Event>, b: seq<Event>)
    ensures (log + a) + b == log + (a + b)
  {}
}
