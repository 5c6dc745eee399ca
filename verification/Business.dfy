/** The business decision on a REQMOD request (business/handler.go:203-344): refuse it, pass
    it, or record a snapshot of its body. */
module Business {
  import opened Strings
  import opened Response
  import opened Service

  datatype Action = RecordAction | RedactAction | OtherAction

  datatype Flow = Egress | OtherFlow

  /** The two switches compare in lower case (lines 301-340). */
  function ActionOf(action: string): Action {
    var a := ToLower(action);
    if a == "record" then RecordAction
    else if a == "redact" || a == "smart" || a == "blind_redact" then RedactAction
    else OtherAction
  }

  function FlowOf(flow: string): Flow {
    var f := ToLower(flow);
    if f == "both" || f == "egress" then Egress else OtherFlow
  }

  /** What identity extraction, tenant validation and URL matching answer for one call;
      they ask a database and a directory, so two calls may be answered differently. */
  datatype Lookup = NoIdentity | InvalidTenant | NoMatch | Match(action: string, flow: string)

  datatype Decision = Refuse | Pass | Record

  function Decide(l: Lookup): Decision {
    match l
    case NoIdentity | InvalidTenant => Refuse
    case NoMatch => Pass
    case Match(action, flow) => if FlowOf(flow) == Egress && ActionOf(action) == RecordAction then Record else Pass
  }

  /** A policy that records: its action is "record" and its flow "egress" or "both", letter for
      letter, in either case. */
  predicate Records(l: Lookup) {
    l.Match? && EqualFold(l.action, "record") && (EqualFold(l.flow, "egress") || EqualFold(l.flow, "both"))
  }

  /** A request without an identity or with an invalid tenant is refused. */
  predicate Refuses(l: Lookup) { l.NoIdentity? || l.InvalidTenant? }

  /** The decision in these terms. */
  lemma DecideExactly(l: Lookup)
    ensures Decide(l) == Record <==> Records(l)
    ensures Decide(l) == Refuse <==> Refuses(l)
  {
    if l.Match? {
      LowerEqual(l.action, "record");
      LowerEqual(l.flow, "egress");
      LowerEqual(l.flow, "both");
    }
  }

  /** `launched` are the body snapshots handed to the recording goroutine, in order. */
  class BusinessLogicHandler {
    var launched: seq<string>

    constructor ()
      ensures launched == []
    {
      launched := [];
    }

    /** `ProcessRequest`: a body that may be only a preview is never recorded; a complete one
        is read, put back, and handed on. */
    method ProcessRequest(httpRequest: HttpMessage, bodyPartial: bool, lookup: Lookup)
      returns (statusCode: int, deferRecording: bool)
      modifies this, httpRequest`body
      ensures statusCode == if lookup.NoIdentity? || lookup.InvalidTenant? then 400 else 204
      ensures httpRequest.body == old(httpRequest.body)
      ensures var records := lookup.Match? && EqualFold(lookup.action, "record")
                             && (EqualFold(lookup.flow, "egress") || EqualFold(lookup.flow, "both"));
              && (deferRecording <==> records && bodyPartial)
              && launched == old(launched) + if records && !bodyPartial then [old(httpRequest.body)] else []
    {
      DecideExactly(lookup);
      if lookup.NoIdentity? { return BAD_REQUEST, false; }
      if lookup.InvalidTenant? { return BAD_REQUEST, false; }
      if lookup.NoMatch? { return NO_MODIFICATION, false; }
      if FlowOf(lookup.flow) != Egress { return NO_MODIFICATION, false; }
      match ActionOf(lookup.action) {
        case RecordAction =>
          if bodyPartial { return NO_MODIFICATION, true; }
          var bodySnapshot := httpRequest.ReadBody();
          httpRequest.body := bodySnapshot;
          launched := launched + [bodySnapshot];
          return NO_MODIFICATION, false;
        case RedactAction =>
          return NO_MODIFICATION, false;
        case OtherAction =>
      }
      return NO_MODIFICATION, false;
    }
  }
}
