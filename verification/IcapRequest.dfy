/** Reading an ICAP request (icap/request.go): header blocks, preview, and the rest of the
    body behind "100 Continue". */
module IcapRequest {
  import opened Strings
  import opened Chunked
  import Encapsulated

  datatype Mode = REQMOD | RESPMOD

  const IEOF := "0; ieof"

  /** The text of a reader's error. */
  function ErrText(e: Err): string {
    match e
    case Eof => "EOF"
    case UnexpectedEof => "unexpected EOF"
    case LineTooLong => "header line too long"
    case BadLength(line) => "invalid chunk length: '" + line + "'"
    case Malformed => "malformed chunked encoding"
  }

  /** The end indicator of a preview that ended with `e`; None when the request is refused. */
  function EndIndicatorOf(e: Err): Option<string> {
    if e == Eof then Some("0")
    else if Contains(ErrText(e), "ieof") then Some(IEOF)
    else None
  }

  lemma IeofAccepted()
    ensures EndIndicatorOf(BadLength(IEOF)) == Some(IEOF)
  {
    var text := "invalid chunk length: '" + IEOF + "'";
    assert text[26..30] == "ieof";
    assert At(text, 26, "ieof");
  }

  /** A clean end is an unfinished preview, a size line with "ieof" in it the full-body indicator,
      and any other error refuses the request. */
  lemma EndIndicatorExactly(e: Err)
    ensures EndIndicatorOf(e) == Some("0") <==> e == Eof
    ensures EndIndicatorOf(e) == Some("0; ieof") <==> e.BadLength? && Contains(e.line, "ieof")
    ensures EndIndicatorOf(e) == None <==> e != Eof && !(e.BadLength? && Contains(e.line, "ieof"))
  {
    match e
    case Eof =>
    case UnexpectedEof => NoIeof("unexpected EOF");
    case LineTooLong => NoIeof("header line too long");
    case Malformed => NoIeof("malformed chunked encoding");
    case BadLength(line) => IeofInLine(line);
  }

  /** A text in which no 'i' is followed by an 'e' does not contain "ieof". */
  lemma NoIeof(s: string)
    requires forall i | 0 <= i < |s| - 1 :: !(s[i] == 'i' && s[i + 1] == 'e')
    ensures !Contains(s, "ieof")
  {
    var at := Index(s, "ieof");
    if at.Some? { IeofAt(s, at.value); }
  }

  lemma IeofAt(s: string, i: nat)
    requires At(s, i, "ieof")
    ensures i + 4 <= |s| && s[i] == 'i' && s[i + 1] == 'e' && s[i + 2] == 'o' && s[i + 3] == 'f'
  {
    var t := s[i..i + 4];
    assert t[0] == s[i] && t[1] == s[i + 1] && t[2] == s[i + 2] && t[3] == s[i + 3];
  }

  lemma IeofInLine(line: string)
    ensures Contains("invalid chunk length: '" + line + "'", "ieof") <==> Contains(line, "ieof")
  {
    var front := "invalid chunk length: '";
    var s := front + line + "'";
    var at := Index(s, "ieof");
    if at.Some? {
      var i := at.value;
      IeofAt(s, i);
      assert i >= |front|;
      assert line[i - |front|..i - |front| + 4] == s[i..i + 4];
      assert At(line, i - |front|, "ieof");
    }
    var within := Index(line, "ieof");
    if within.Some? {
      var i := within.value;
      assert s[|front| + i..|front| + i + 4] == line[i..i + 4];
      assert At(s, |front| + i, "ieof");
    }
  }

  /** Where the body of the encapsulated message is read from. */
  datatype BodyReader = NoBody | Bytes(bytes: string) | Stream(reader: ChunkedReader)

  /** A parsed request. HTTP header blocks stay unparsed. */
  class Request {
    const conn: Conn
    const mode: Mode
    const previewHeader: string
    var preview: string
    var endIndicator: string
    var rawReqHdr: Option<string>
    var rawRespHdr: Option<string>
    var body: BodyReader

    constructor (conn: Conn, mode: Mode, previewHeader: string)
      ensures this.conn == conn && this.mode == mode && this.previewHeader == previewHeader
      ensures preview == "" && endIndicator == "" && rawReqHdr == None && rawRespHdr == None && body == NoBody
    {
      this.conn, this.mode, this.previewHeader := conn, mode, previewHeader;
      preview, endIndicator, rawReqHdr, rawRespHdr, body := "", "", None, None, NoBody;
    }

    /** The body fields say what the segments behind the header blocks mean. */
    ghost predicate BodyFrom(hasBody: bool, segs: seq<string>)
      requires Segments(segs)
      reads this, conn, if body.Stream? then {body.reader} else {}
    {
      if !hasBody then body == NoBody && endIndicator == "" && Flatten(conn.inbound) == Flatten(segs)
      else if previewHeader == "" then
        && body.Stream? && endIndicator == ""
        && body.reader.conn == conn && body.reader.Valid() && body.reader.Outcome() == Decode(0, Flatten(segs))
      else
        var d := Decode(0, Flatten(segs));
        && body == Bytes(d.data) && preview == d.data
        && Some(endIndicator) == EndIndicatorOf(d.end)
        && |Flatten(conn.inbound)| == Stranded(segs) && HasSuffix(d.rest, Flatten(conn.inbound))
    }

    /** Lines 151-173. */
    method LoadBody(hasBody: bool, sizes: nat -> nat) returns (ok: bool)
      requires Segments(conn.inbound)
      requires forall i: nat :: sizes(i) > 0
      requires body == NoBody && endIndicator == ""
      modifies this`preview, this`endIndicator, this`body, conn`inbound
      ensures Segments(conn.inbound)
      ensures ok <==> hasBody && previewHeader != "" ==> EndIndicatorOf(Decode(0, old(Flatten(conn.inbound))).end).Some?
      ensures ok ==> BodyFrom(hasBody, old(conn.inbound))
      ensures body.Stream? ==> fresh(body.reader)
    {
      if !hasBody { return true; }
      if previewHeader == "" {
        var reader := new ChunkedReader(conn);
        body := Stream(reader);
        return true;
      }
      var data, indicator := ReadPreview(conn, sizes);
      if indicator == None { return false; }
      preview, endIndicator, body := data, indicator.value, Bytes(data);
      ok := true;
    }
  }

  /** A header block of the announced length, or none when that is not positive. */
  function HeaderBlock(n: int, block: string): Option<string> {
    if n > 0 then Some(block) else None
  }

  method ReadBlock(conn: Conn, n: int) returns (block: string, ok: bool)
    requires Segments(conn.inbound)
    modifies conn`inbound
    ensures Segments(conn.inbound)
    ensures ok == (Encapsulated.Positive(n) <= old(|Flatten(conn.inbound)|))
    ensures ok ==>
              && block == old(Flatten(conn.inbound))[..Encapsulated.Positive(n)]
              && conn.inbound == Drop(old(conn.inbound), Encapsulated.Positive(n))
  {
    if n <= 0 { return "", true; }
    block, ok := conn.ReadFull(n);
  }

  lemma DropSlice(segs: seq<string>, a: nat, n: nat)
    requires Segments(segs) && a <= |Flatten(segs)|
    ensures Drop(Drop(segs, a), n) == Drop(segs, a + n)
    ensures |Flatten(Drop(segs, a))| == |Flatten(segs)| - a
    ensures a + n <= |Flatten(segs)| ==> Flatten(Drop(segs, a))[..n] == Flatten(segs)[a..a + n]
  {
    DropMore(segs, a, n);
  }

  /** The three blocks in front of the body (lines 127-149). */
  method ReadBlocks(conn: Conn, l: Encapsulated.Layout) returns (request: string, response: string, ok: bool)
    requires Segments(conn.inbound)
    modifies conn`inbound
    ensures Segments(conn.inbound)
    ensures var c := Encapsulated.Blocks(l, old(Flatten(conn.inbound)));
            && (ok <==> c.Some?)
            && (ok ==> request == c.value.request && response == c.value.response)
            && (ok ==> conn.inbound == Drop(old(conn.inbound), Encapsulated.HeaderBytes(l)))
  {
    ghost var segs := conn.inbound;
    ghost var a := Encapsulated.Positive(l.initialOffset);
    ghost var b := a + Encapsulated.Positive(l.reqHdrLen);
    response := "";
    request, ok := ReadBlock(conn, l.initialOffset);
    if !ok { return; }
    DropSlice(segs, a, Encapsulated.Positive(l.reqHdrLen));
    request, ok := ReadBlock(conn, l.reqHdrLen);
    if !ok { return; }
    DropSlice(segs, b, Encapsulated.Positive(l.respHdrLen));
    response, ok := ReadBlock(conn, l.respHdrLen);
  }

  /** The preview (lines 153-169): everything up to the zero chunk is read through a
      private buffer, and what that buffer holds behind it is dropped. */
  method ReadPreview(conn: Conn, sizes: nat -> nat) returns (preview: string, indicator: Option<string>)
    requires Segments(conn.inbound)
    requires forall i: nat :: sizes(i) > 0
    modifies conn`inbound
    ensures Segments(conn.inbound)
    ensures var d := Decode(0, old(Flatten(conn.inbound)));
            && preview == d.data && indicator == EndIndicatorOf(d.end)
            && HasSuffix(d.rest, Flatten(conn.inbound))
    ensures |Flatten(conn.inbound)| == Stranded(old(conn.inbound))
  {
    var r := new ChunkedReader(conn);
    var e;
    preview, e := ReadAll(r, sizes);
    assert r.Remaining() == r.buffered + Flatten(conn.inbound);
    indicator := if e == None then Some("0") else EndIndicatorOf(e.value);
  }

  /** The request fields hold what the layout cut out of the stream. */
  ghost predicate Loaded(r: Request, l: Encapsulated.Layout, c: Encapsulated.Cut, behind: seq<string>)
    requires Segments(behind)
    reads r, r.conn, if r.body.Stream? then {r.body.reader} else {}
  {
    && r.rawReqHdr == HeaderBlock(l.reqHdrLen, c.request)
    && r.rawRespHdr == HeaderBlock(l.respHdrLen, c.response)
    && r.BodyFrom(l.hasBody, behind)
  }

  /** A stream the layout can be read from. */
  ghost predicate Loadable(l: Encapsulated.Layout, previewHeader: string, s: string) {
    match Encapsulated.Blocks(l, s)
    case None => false
    case Some(c) => l.hasBody && previewHeader != "" ==> EndIndicatorOf(Decode(0, c.rest).end).Some?
  }

  /** The reading part of `ReadRequest` (lines 127-173), given the layout. */
  method Load(r: Request, l: Encapsulated.Layout, sizes: nat -> nat) returns (ok: bool)
    requires Segments(r.conn.inbound)
    requires forall i: nat :: sizes(i) > 0
    requires r.body == NoBody && r.endIndicator == ""
    modifies r, r.conn`inbound
    ensures Segments(r.conn.inbound)
    ensures ok == Loadable(l, r.previewHeader, old(Flatten(r.conn.inbound)))
    ensures ok ==>
              Loaded(r, l, Encapsulated.Blocks(l, old(Flatten(r.conn.inbound))).value,
                     Drop(old(r.conn.inbound), Encapsulated.HeaderBytes(l)))
    ensures r.body.Stream? ==> fresh(r.body.reader)
  {
    var request, response;
    request, response, ok := ReadBlocks(r.conn, l);
    if !ok { return; }
    r.rawReqHdr := HeaderBlock(l.reqHdrLen, request);
    r.rawRespHdr := HeaderBlock(l.respHdrLen, response);
    ok := r.LoadBody(l.hasBody, sizes);
  }

  /** `ReadRequest` behind the ICAP head: `encapsulated` and `previewHeader` are the values
      of those two headers, "" when absent. None is a refused request. */
  method ReadRequest(conn: Conn, mode: Mode, encapsulated: string, previewHeader: string, sizes: nat -> nat)
    returns (req: Option<Request>)
    requires Segments(conn.inbound)
    requires forall i: nat :: sizes(i) > 0
    modifies conn`inbound
    ensures Segments(conn.inbound)
    ensures req.Some? ==>
              && fresh(req.value) && req.value.conn == conn
              && req.value.mode == mode && req.value.previewHeader == previewHeader
              && (req.value.body.Stream? ==> fresh(req.value.body.reader))
    ensures encapsulated == "" ==>
              && req.Some? && req.value.rawReqHdr == None && req.value.rawRespHdr == None
              && req.value.BodyFrom(false, old(conn.inbound))
    ensures encapsulated != "" ==>
              var l := Encapsulated.LayoutFor(Encapsulated.ParseItems(encapsulated));
              && (req.Some? <==> l.Some? && Loadable(l.value, previewHeader, old(Flatten(conn.inbound))))
              && (req.Some? ==>
                    Loaded(req.value, l.value, Encapsulated.Blocks(l.value, old(Flatten(conn.inbound))).value,
                           Drop(old(conn.inbound), Encapsulated.HeaderBytes(l.value))))
  {
    var r := new Request(conn, mode, previewHeader);
    if encapsulated == "" { return Some(r); }
    var layout := Encapsulated.Scan(Encapsulated.ParseItems(encapsulated));
    if layout == None { return None; }
    var ok := Load(r, layout.value, sizes);
    req := if ok then Some(r) else None;
  }

  /** The same for a layout that is known beforehand. */
  method ReadKnown(conn: Conn, mode: Mode, encapsulated: string, previewHeader: string, sizes: nat -> nat,
                   ghost l: Encapsulated.Layout, ghost n: nat, ghost c: Encapsulated.Cut, ghost behind: seq<string>)
    returns (req: Option<Request>)
    requires Segments(conn.inbound)
    requires forall i: nat :: sizes(i) > 0
    requires encapsulated != "" && Encapsulated.LayoutFor(Encapsulated.ParseItems(encapsulated)) == Some(l)
    requires Encapsulated.Blocks(l, Flatten(conn.inbound)) == Some(c)
    requires n == Encapsulated.HeaderBytes(l) && behind == Drop(conn.inbound, n)
    modifies conn`inbound
    ensures Segments(conn.inbound)
    ensures req.Some? <==> l.hasBody && previewHeader != "" ==> EndIndicatorOf(Decode(0, c.rest).end).Some?
    ensures req.Some? ==>
              && fresh(req.value) && req.value.conn == conn
              && req.value.mode == mode && req.value.previewHeader == previewHeader
              && Loaded(req.value, l, c, behind)
  {
    req := ReadRequest(conn, mode, encapsulated, previewHeader, sizes);
  }

  // ---------------------------------------------------------------------------------
  // The rest of the body
  // ---------------------------------------------------------------------------------

  /** `continueReader`: the first read tells the peer to go on. */
  class ContinueReader {
    const conn: Conn
    var cr: ChunkedReader?

    constructor (conn: Conn)
      ensures this.conn == conn && cr == null
    {
      this.conn, cr := conn, null;
    }

    ghost predicate Valid()
      reads this, conn, if cr == null then {} else {cr}
    {
      conn.Valid() && (cr != null ==> cr.conn == conn && cr.Valid())
    }

    ghost function Outcome(): Decoded
      requires Valid()
      reads this, conn, if cr == null then {} else {cr}
    {
      if cr == null then Decode(0, Flatten(conn.inbound) + Flatten(conn.deferred)) else cr.Outcome()
    }

    /** `Read` (lines 246-260). */
    method Read(k: nat) returns (data: string, e: Option<Err>)
      requires Valid()
      modifies this, conn, if cr == null then {} else {cr}
      ensures Valid() && cr != null && (old(cr) == null ==> fresh(cr)) && (old(cr) != null ==> cr == old(cr))
      ensures e == cr.err
      ensures old(Outcome()) == Prepend(data, Outcome())
      ensures k > 0 && e == None ==> data != ""
      ensures conn.outbound == old(conn.outbound) + if old(cr) == null then CONTINUE else ""
      ensures conn.deferred == if old(cr) == null then [] else old(conn.deferred)
    {
      if cr == null {
        FlattenAppend(conn.inbound, conn.deferred);
        conn.WriteContinue();
        cr := new ChunkedReader(conn);
      }
      data, e := cr.Read(k);
    }
  }

  /** Draining `GetTheRest()` as `preview` does in api/icap-request.go:568-577: first the
      preview again, then what follows "100 Continue". Errors end the body silently. */
  method ReadRest(req: Request, sizes: nat -> nat) returns (all: string)
    requires req.conn.Valid()
    requires forall i: nat :: sizes(i) > 0
    modifies req.conn
    ensures req.conn.Valid()
    ensures all == req.preview + Decode(0, old(Flatten(req.conn.inbound)) + old(Flatten(req.conn.deferred))).data
    ensures req.conn.outbound == old(req.conn.outbound) + CONTINUE && req.conn.deferred == []
  {
    all := req.preview;
    var c := new ContinueReader(req.conn);
    ghost var d := c.Outcome();
    var i: nat := 0;
    while true
      invariant c.Valid() && fresh(c) && c.conn == req.conn && (c.cr != null ==> fresh(c.cr))
      invariant req.preview + d.data == all + c.Outcome().data
      invariant req.conn.outbound == old(req.conn.outbound) + if c.cr == null then "" else CONTINUE
      invariant c.cr != null ==> req.conn.deferred == []
      decreases c.cr == null, |c.Outcome().data|
    {
      ghost var before := c.Outcome();
      var more, e := c.Read(sizes(i));
      assert before.data == more + c.Outcome().data;
      Associative(all, more, c.Outcome().data);
      all := all + more;
      i := i + 1;
      if e.Some? {
        assert c.Outcome().data == "";
        return;
      }
    }
  }
}
