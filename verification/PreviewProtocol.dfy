/** The preview protocol end to end (section 4.5 of RFC 3507): what the client splits,
    prints and sends in one or two steps against what the server puts together. */
module PreviewProtocol {
  import opened Strings
  import opened Chunked
  import opened IcapRequest
  import ChunkedPreviews
  import Client = IcapClient
  import Encapsulated
  import Decimal
  import Hex

  // ---------------------------------------------------------------------------------
  // The two streams
  // ---------------------------------------------------------------------------------

  lemma DecodeIeof(s: string)
    ensures Decode(0, IEOF + CRLF + s) == Decoded("", BadLength(IEOF), s)
  {
    LineOfText(IEOF, s);
    assert Hex.DigitValue(IEOF[1]) == None;
  }

  /** The preview part comes back as it was split off, and the marker behind it tells
      whether it was the whole body. */
  lemma PreviewDecoded(p: string, ieof: bool)
    requires p != "" && !Client.EndsChunked(p) && |p| < Hex.TWO64
    ensures Decode(0, Client.Framed(p, ieof)) == Decoded(p, if ieof then BadLength(IEOF) else Eof, CRLF)
  {
    DecodeChunk(p, (if ieof then IEOF else "0") + DOUBLE_CRLF);
    MarkerDecoded(ieof);
  }

  lemma MarkerDecoded(ieof: bool)
    ensures Decode(0, (if ieof then IEOF else "0") + DOUBLE_CRLF) ==
            Decoded("", if ieof then BadLength(IEOF) else Eof, CRLF)
  {
    if ieof {
      DecodeIeof(CRLF);
      assert IEOF + DOUBLE_CRLF == IEOF + CRLF + CRLF;
    } else {
      DecodeLast(CRLF);
      assert "0" + DOUBLE_CRLF == LAST_CHUNK + CRLF;
    }
  }

  /** What the preview reader may leave on the connection is the tail of the blank line
      that closes the preview; a leftover byte of it reads as an empty size line, and that
      as the end of the body. */
  lemma StrayLine(left: string, s: string)
    requires HasSuffix(CRLF, left) && left != ""
    ensures Decode(0, left + s) == Decoded("", Eof, s)
  {
    assert left == CRLF || left == "\n" by {
      if |left| == 2 { assert left == CRLF[0..]; } else { assert left == CRLF[1..]; }
    }
    var i := |left| - 1;
    var all := left + s;
    assert all[i..i + 1] == "\n";
    forall j: nat | j < i ensures !At(all, j, "\n") { assert all[j..j + 1] == "\r"; }
    IndexIs(all, "\n", i);
    assert all[..i + 1] == left && all[i + 1..] == s;
    if left == CRLF {
      assert "" + CRLF == CRLF;
      TrimCrlf("");
    } else {
      TrimOne("", '\n');
      assert "" + ['\n'] == left;
    }
    assert Hex.Value("") == 0;
  }

  /** Two bytes more in front of the response header than announced: header and body are cut
      two bytes early, and the body is lost. */
  lemma CutTwoEarly(rh: string, h: string, w: string, hasBody: bool)
    requires Client.IsHead(h)
    ensures var c := Encapsulated.Cut(rh, CRLF + h[..|h| - 2], CRLF + w);
            && Encapsulated.Blocks(Encapsulated.Layout(0, |rh|, |h|, hasBody), (rh + CRLF) + (h + w)) == Some(c)
            && Decode(0, c.rest) == Decoded("", Eof, w)
  {
    var a := HeadEnd(h);
    EarlyParts(rh, a, w);
    TwoBlocks(rh, CRLF + a, CRLF + w, |h|, hasBody);
    StrayLine(CRLF, w);
  }

  lemma HeadEnd(h: string) returns (a: string)
    requires Client.IsHead(h)
    ensures a == h[..|h| - 2] && h == a + CRLF
  {
    a := h[..|h| - 2];
    Client.HeadIndex(h, "");
    assert h[|h| - 2..] == CRLF;
  }

  lemma TwoBlocks(a: string, b: string, rest: string, n: nat, hasBody: bool)
    requires n == |b|
    ensures Encapsulated.Blocks(Encapsulated.Layout(0, |a|, n, hasBody), a + (b + rest)) ==
            Some(Encapsulated.Cut(a, b, rest))
  {
    SlicesOfMessage(a, b, rest);
  }

  lemma EarlyParts(rh: string, a: string, w: string)
    ensures (rh + CRLF) + ((a + CRLF) + w) == rh + ((CRLF + a) + (CRLF + w))
  {}

  /** Decoding never delivers all of its input. */
  lemma DecodeShrinks(s: string)
    ensures s != "" ==> |Decode(0, s).data| < |s|
  {}

  /** The remainder arrives exactly when nothing of that blank line is left and the
      remainder does not look chunked already. */
  lemma Reassembly(left: string, rest: string)
    requires HasSuffix(CRLF, left)
    requires rest != "" && |rest| < Hex.TWO64
    ensures Decode(0, left + Client.RemainderWire(rest)).data == rest <==>
            left == "" && !Client.BodyAlreadyChunked(rest)
  {
    var wire := Client.RemainderWire(rest);
    assert left == "" ==> left + wire == wire;
    if left != "" {
      StrayLine(left, wire);
    } else if Client.BodyAlreadyChunked(rest) {
      DecodeShrinks(rest);
    } else {
      Client.RemainderChunk(rest);
      DecodeChunk(rest, LAST_CHUNK);
      DecodeLast("");
      assert LAST_CHUNK + "" == LAST_CHUNK;
    }
  }

  /** A preview that looks chunked is sent as it is, and never comes back from decoding. */
  lemma ChunkedPreviewLost(p: string, ieof: bool)
    requires Client.EndsChunked(p)
    ensures Decode(0, Client.Framed(p, ieof)).data != p
  {
    ChunkedPreviews.PreviewLost(p, ieof, p);
  }

  lemma ChunkedLooksChunked(x: string, zero: string)
    requires |zero| == 1 && zero[0] != '\n'
    ensures Client.StripCrlf((x + CRLF + zero) + CRLF) == x + CRLF + zero
    ensures HasSuffix(x + CRLF + zero, CRLF + zero)
  {
    var y := x + CRLF + zero;
    assert (y + CRLF)[|y|..] == CRLF && (y + CRLF)[..|y|] == y;
    assert y[|y| - 1] == zero[0];
    assert y == x + (CRLF + zero);
  }

  /** A preview that is itself a complete chunked body is taken apart by the server: only
      what was inside arrives. */
  lemma ChunkedPreviewUnwrapped(inner: string)
    requires inner != "" && |inner| < Hex.TWO64
    ensures var p := Chunk(inner) + LAST_CHUNK;
            Client.EndsChunked(p) && Decode(0, Client.Framed(p, false)) == Decoded(inner, Eof, CRLF) && p != inner
  {
    var p := Chunk(inner) + LAST_CHUNK;
    WrappedEnds(inner);
    assert "" + p == p;
    Client.PadChunked("", inner);
    RawFramedOnce(p);
    WrappedDecode(inner);
    DecodeShrinks(p + CRLF);
  }

  lemma WrappedEnds(inner: string)
    requires inner != ""
    ensures Client.EndsChunked(Chunk(inner) + LAST_CHUNK) && |Chunk(inner) + LAST_CHUNK| > |inner|
  {
    var x := Hex.Format(|inner|) + CRLF + inner;
    ChunkedLooksChunked(x, "0");
    assert Chunk(inner) + LAST_CHUNK == (x + CRLF + "0") + CRLF;
    assert CRLF + "0" == "\r\n0";
  }

  lemma RawFramedOnce(p: string)
    requires p != "" && Client.EndsChunked(p) && !HasSuffix(p, DOUBLE_CRLF)
    ensures Client.Framed(p, false) == p + CRLF
  {}

  lemma WrappedDecode(inner: string)
    requires inner != "" && |inner| < Hex.TWO64
    ensures Decode(0, Chunk(inner) + LAST_CHUNK + CRLF) == Decoded(inner, Eof, CRLF)
  {
    DecodeChunk(inner, LAST_CHUNK + CRLF);
    DecodeLast(CRLF);
    Associative(Chunk(inner), LAST_CHUNK, CRLF);
  }

  // ---------------------------------------------------------------------------------
  // The layout the server sees
  // ---------------------------------------------------------------------------------

  function SectionsOf(c: Client.Request): seq<Encapsulated.Section>
    requires c.Valid()
    reads c
  {
    if c.mode == REQMOD then Client.Reqmod(c.Message().head, c.Sent())
    else Client.Respmod(c.Leading(), c.Message().head, c.Sent())
  }

  /** In RESPMOD the accompanying request is only its header. */
  predicate BareRequest(c: Client.Request) {
    c.mode == RESPMOD && c.httpRequest.Some? ==> c.httpRequest.value.body == ""
  }

  lemma LeadingHead(c: Client.Request)
    requires c.Valid() && BareRequest(c)
    ensures c.Leading() == if c.mode == RESPMOD && c.httpRequest.Some? then c.httpRequest.value.head else ""
    ensures c.Leading() == "" || Client.IsHead(c.Leading())
  {
    if c.mode == RESPMOD && c.httpRequest.Some? {
      var h := c.httpRequest.value.head;
      Client.HeadIndex(h, "");
      assert h + "" == h;
    }
  }

  lemma ReqmodLayout(h: string, p: string)
    ensures Encapsulated.Accepted(Client.Reqmod(h, p))
    ensures Encapsulated.LayoutOf(Client.Reqmod(h, p)) == Encapsulated.Layout(0, |h|, 0, p != "")
  {
    var list := Client.Reqmod(h, p);
    assert list[..1] == [list[0]];
    assert Encapsulated.Announced(list[..1], Encapsulated.ResHdr) == 0;
  }

  lemma RespmodLayout(lead: string, h: string, p: string)
    ensures Encapsulated.Accepted(Client.Respmod(lead, h, p))
    ensures Encapsulated.LayoutOf(Client.Respmod(lead, h, p)) == Encapsulated.Layout(0, |lead|, |h|, p != "")
  {
    var list := Client.Respmod(lead, h, p);
    if lead == "" {
      assert list[..1] == [list[0]];
      assert Encapsulated.Announced(list[..1], Encapsulated.ReqHdr) == 0;
    } else {
      assert list[..2][0] == list[0] && list[..2][1] == list[1];
      assert Encapsulated.Announced(list[..2], Encapsulated.ReqHdr) == |lead|;
    }
  }

  /** The Encapsulated value that is printed announces the blocks that are printed. */
  lemma PrintedLayout(c: Client.Request, value: string)
    requires c.Valid() && BareRequest(c)
    requires |c.Leading()| + |c.Message().head| <= Decimal.MAX_INT
    requires value == TrimSpace(if c.mode == REQMOD then Client.EncapsulatedValue(c.Framing(), "")
                                else Client.EncapsulatedValue(c.Leading(), c.Framing()))
    ensures value != ""
    ensures Encapsulated.LayoutFor(Encapsulated.ParseItems(value)) ==
            Some(if c.mode == REQMOD then Encapsulated.Layout(0, |c.Message().head|, 0, c.Sent() != "")
                 else Encapsulated.Layout(0, |c.Leading()|, |c.Message().head|, c.Sent() != ""))
  {
    var h, p := c.Message().head, c.Sent();
    LeadingHead(c);
    if c.mode == REQMOD {
      Client.ReqmodSections(h, p);
      ReqmodLayout(h, p);
    } else {
      Client.RespmodSections(c.Leading(), h, p);
      RespmodLayout(c.Leading(), h, p);
    }
    Encapsulated.HeaderRead(SectionsOf(c));
  }

  // ---------------------------------------------------------------------------------
  // Sending
  // ---------------------------------------------------------------------------------

  /** A way in which the network cuts what is sent into segments. */
  ghost predicate Cuts(cut: string -> seq<string>) {
    forall s :: Segments(cut(s)) && Flatten(cut(s)) == s
  }

  /** What the client can print, within 64-bit lengths. */
  predicate Sendable(c: Client.Request)
    requires c.Valid()
    reads c
  {
    && BareRequest(c)
    && |c.Message().body| < Hex.TWO64
    && |c.Leading()| + |c.Message().head| <= Decimal.MAX_INT
  }

  function Preview(body: string, limit: nat): string { body[..Min(|body|, limit)] }

  function FramedPreview(body: string, limit: nat): string {
    Client.Framed(Preview(body, limit), 0 < |body| <= limit)
  }

  function EndIndicatorFor(body: string, limit: nat): string {
    if body == "" || limit == 0 then "" else if |body| <= limit then IEOF else "0"
  }

  /** A parsed request with these header blocks, from these segments behind them. */
  ghost predicate Parts(req: IcapRequest.Request, mode: Mode, lead: string, h: string, w: string, p: string,
                        segs: seq<string>)
    requires Segments(segs)
    reads req, req.conn
  {
    && req.mode == mode
    && req.rawReqHdr == (if mode == REQMOD then Some(h) else if lead == "" then None else Some(lead))
    && req.rawRespHdr == (if mode == REQMOD then None else Some(h))
    && if p == "" then req.body == NoBody && req.endIndicator == "" && Flatten(req.conn.inbound) == w
       else
         var d := Decode(0, w);
         && req.body == Bytes(d.data) && req.preview == d.data
         && Some(req.endIndicator) == EndIndicatorOf(d.end)
         && |Flatten(req.conn.inbound)| == Stranded(segs) && HasSuffix(d.rest, Flatten(req.conn.inbound))
  }

  /** The server's view of a request sent with a preview: `lead` and `h` are the header
      blocks, `body` is the client's, `segs` are the segments the framed preview comes in. */
  ghost predicate Received(req: IcapRequest.Request, mode: Mode, lead: string, h: string, body: string, limit: nat,
                           segs: seq<string>)
    requires Segments(segs)
    reads req, req.conn
  {
    && req.previewHeader == Decimal.Itoa(Min(|body|, limit))
    && Parts(req, mode, lead, h, FramedPreview(body, limit), Preview(body, limit), segs)
  }

  /** The server refuses a preview whose chunks are malformed. */
  predicate Refused(body: string, limit: nat) {
    Preview(body, limit) != "" && EndIndicatorOf(Decode(0, FramedPreview(body, limit)).end) == None
  }

  /** The layout of a message with these parts. */
  function LayoutSent(mode: Mode, lead: string, h: string, p: string): Encapsulated.Layout {
    if mode == REQMOD then Encapsulated.Layout(0, |h|, 0, p != "")
    else Encapsulated.Layout(0, |lead|, |h|, p != "")
  }

  lemma SlicesOfMessage(lead: string, h: string, w: string)
    ensures var s := lead + (h + w);
            && s[0..0] == "" && s[0..|lead|] == lead && s[|lead|..|lead| + |h|] == h && s[|lead| + |h|..] == w
            && (lead == "" ==> s[0..|h|] == h && s[|h|..|h|] == "" && s[|h|..] == w)
  {}

  /** What the layout cuts out of the printed bytes. */
  lemma MessageBlocks(mode: Mode, lead: string, h: string, p: string, w: string, s: string)
    requires mode == REQMOD ==> lead == ""
    requires s == lead + (h + w)
    ensures Encapsulated.Blocks(LayoutSent(mode, lead, h, p), s) ==
            Some(CutSent(mode, lead, h, w))
    ensures Encapsulated.HeaderBytes(LayoutSent(mode, lead, h, p)) == |lead| + |h|
  {
    SlicesOfMessage(lead, h, w);
  }

  /** What the first step puts on the wire behind the ICAP head. */
  function FirstStep(lead: string, h: string, body: string, limit: nat): string {
    lead + (h + FramedPreview(body, limit))
  }

  /** What the client sends when it is told to go on. */
  function SecondStep(body: string, limit: nat): string {
    if |body| <= limit then "" else Client.RemainderWire(body[limit..])
  }

  /** The client prints its request with a preview; `rest` is what it would send after
      "100 Continue". */
  method Print(c: Client.Request, limit: nat) returns (value: string, data: string, rest: string)
    requires c.Valid() && Sendable(c)
    modifies c
    ensures c.Valid() && c.previewSet
    ensures c.previewHeader == Decimal.Itoa(Min(|c.Message().body|, limit))
    ensures data == FirstStep(c.Leading(), c.Message().head, c.Message().body, limit)
    ensures rest == SecondStep(c.Message().body, limit)
    ensures value != ""
    ensures Encapsulated.LayoutFor(Encapsulated.ParseItems(value)) ==
            Some(LayoutSent(c.mode, c.Leading(), c.Message().head, Preview(c.Message().body, limit)))
  {
    c.SetPreview(limit);
    value, data := c.DumpRequest();
    value := TrimSpace(value);
    PrintedLayout(c, value);
    rest := "";
    if c.previewBytes < |c.Message().body| {
      var answer := c.OnResponse(100);
      rest := answer.value;
    }
  }

  /** The server reads such a message: header blocks and preview come through whatever the
      segments and the buffer sizes. */
  method Receive(conn: Conn, mode: Mode, value: string, previewHeader: string, sizes: nat -> nat,
                 ghost lead: string, ghost h: string, ghost w: string, ghost p: string,
                 ghost l: Encapsulated.Layout, ghost n: nat, ghost c: Encapsulated.Cut, ghost behind: seq<string>)
    returns (req: Option<IcapRequest.Request>)
    requires mode == REQMOD ==> lead == ""
    requires h != "" && value != "" && previewHeader != ""
    requires Encapsulated.LayoutFor(Encapsulated.ParseItems(value)) == Some(l) && l == LayoutSent(mode, lead, h, p)
    requires Segments(conn.inbound) && Encapsulated.Blocks(l, Flatten(conn.inbound)) == Some(c)
    requires c == CutSent(mode, lead, h, w)
    requires n == Encapsulated.HeaderBytes(l) && behind == Drop(conn.inbound, n) && Flatten(behind) == w
    requires forall i: nat :: sizes(i) > 0
    modifies conn`inbound
    ensures Segments(conn.inbound)
    ensures req.Some? <==> p != "" ==> EndIndicatorOf(Decode(0, w).end).Some?
    ensures req.Some? ==>
              && fresh(req.value) && req.value.conn == conn && req.value.previewHeader == previewHeader
              && Parts(req.value, mode, lead, h, w, p, behind)
  {
    req := ReadKnown(conn, mode, value, previewHeader, sizes, l, n, c, behind);
    if req.Some? { LoadedParts(req.value, lead, h, w, p, behind); }
  }

  lemma MessageOnWire(mode: Mode, lead: string, h: string, p: string, w: string, segs: seq<string>,
                      l: Encapsulated.Layout, n: nat)
    returns (c: Encapsulated.Cut)
    requires mode == REQMOD ==> lead == ""
    requires Flatten(segs) == lead + (h + w) && l == LayoutSent(mode, lead, h, p) && n == |lead| + |h|
    ensures c == CutSent(mode, lead, h, w) && Encapsulated.Blocks(l, Flatten(segs)) == Some(c)
    ensures n == Encapsulated.HeaderBytes(l)
  {
    c := CutSent(mode, lead, h, w);
    MessageBlocks(mode, lead, h, p, w, Flatten(segs));
  }

  /** What the layout cuts out. */
  function CutSent(mode: Mode, lead: string, h: string, w: string): Encapsulated.Cut {
    if mode == REQMOD then Encapsulated.Cut(h, "", w) else Encapsulated.Cut(lead, h, w)
  }

  lemma LoadedParts(req: IcapRequest.Request, lead: string, h: string, w: string, p: string, behind: seq<string>)
    requires req.mode == REQMOD ==> lead == ""
    requires h != "" && req.previewHeader != "" && Segments(behind) && Flatten(behind) == w
    requires Loaded(req, LayoutSent(req.mode, lead, h, p), CutSent(req.mode, lead, h, w), behind)
    ensures Parts(req, req.mode, lead, h, w, p, behind)
  {}

  lemma BehindHeaders(lead: string, h: string, w: string)
    ensures (lead + (h + w))[|lead| + |h|..] == w
  {}

  /** The segments behind the header blocks. */
  ghost function SegmentsBehind(cut: string -> seq<string>, lead: string, h: string, w: string): (segs: seq<string>)
    requires Cuts(cut)
    ensures Segments(segs) && Flatten(segs) == w
  {
    BehindHeaders(lead, h, w);
    Drop(cut(lead + (h + w)), |lead| + |h|)
  }

  lemma SegmentsOf(cut: string -> seq<string>, data: string, lead: string, h: string, w: string, n: nat)
    requires Cuts(cut) && data == lead + (h + w) && n == |lead| + |h|
    ensures SegmentsBehind(cut, lead, h, w) == Drop(cut(data), n)
  {}

  /** The segments in which the framed preview reaches the server. */
  ghost function PreviewSegments(c: Client.Request, limit: nat, cut: string -> seq<string>): (segs: seq<string>)
    requires c.Valid() && Cuts(cut)
    reads c
    ensures Segments(segs) && Flatten(segs) == FramedPreview(c.Message().body, limit)
  {
    SegmentsBehind(cut, c.Leading(), c.Message().head, FramedPreview(c.Message().body, limit))
  }

  /** The client sends its request with a preview, the server reads it or refuses it. */
  method Send(c: Client.Request, limit: nat, cut: string -> seq<string>, sizes: nat -> nat)
    returns (conn: Conn, req: Option<IcapRequest.Request>)
    requires c.Valid() && Sendable(c)
    requires Cuts(cut) && forall i: nat :: sizes(i) > 0
    modifies c
    ensures c.Valid() && c.previewSet
    ensures fresh(conn) && conn.Valid() && conn.outbound == ""
    ensures Flatten(conn.deferred) == SecondStep(c.Message().body, limit)
    ensures req == None <==> Refused(c.Message().body, limit)
    ensures req.Some? ==>
              && fresh(req.value) && req.value.conn == conn
              && Received(req.value, c.mode, c.Leading(), c.Message().head, c.Message().body, limit,
                          PreviewSegments(c, limit, cut))
  {
    var value, data, rest := Print(c, limit);
    ghost var body, head, lead := c.Message().body, c.Message().head, c.Leading();
    ghost var p, w := Preview(body, limit), FramedPreview(body, limit);
    ghost var segs := SegmentsBehind(cut, lead, head, w);
    assert data == lead + (head + w) && segs == PreviewSegments(c, limit, cut);
    assert head != "" && (c.mode == REQMOD ==> lead == "") && c.previewHeader != "";
    conn, req := Transmit(value, data, rest, c.mode, c.previewHeader, cut, sizes, lead, head, w, p,
                          LayoutSent(c.mode, lead, head, p), segs);
    assert req.Some? ==> Parts(req.value, c.mode, lead, head, w, p, segs);
  }

  /** A message goes over a new connection. */
  method Transmit(value: string, data: string, rest: string, mode: Mode, previewHeader: string,
                  cut: string -> seq<string>, sizes: nat -> nat,
                  ghost lead: string, ghost h: string, ghost w: string, ghost p: string, ghost l: Encapsulated.Layout,
                  ghost behind: seq<string>)
    returns (conn: Conn, req: Option<IcapRequest.Request>)
    requires Cuts(cut) && forall i: nat :: sizes(i) > 0
    requires mode == REQMOD ==> lead == ""
    requires h != "" && value != "" && previewHeader != ""
    requires Encapsulated.LayoutFor(Encapsulated.ParseItems(value)) == Some(l) && l == LayoutSent(mode, lead, h, p)
    requires data == lead + (h + w) && behind == SegmentsBehind(cut, lead, h, w)
    ensures fresh(conn) && conn.Valid() && conn.outbound == "" && Flatten(conn.deferred) == rest
    ensures req.Some? <==> p != "" ==> EndIndicatorOf(Decode(0, w).end).Some?
    ensures req.Some? ==>
              && fresh(req.value) && req.value.conn == conn && req.value.previewHeader == previewHeader
              && Parts(req.value, mode, lead, h, w, p, behind)
  {
    conn := new Conn(cut(data), cut(rest));
    ghost var n := |lead| + |h|;
    ghost var c := MessageOnWire(mode, lead, h, p, w, conn.inbound, l, n);
    SegmentsOf(cut, data, lead, h, w, n);
    req := Receive(conn, mode, value, previewHeader, sizes, lead, h, w, p, l, n, c, behind);
  }

  // ---------------------------------------------------------------------------------
  // What arrives
  // ---------------------------------------------------------------------------------

  /** The server takes the preview for a part of the body and asks for the rest. */
  predicate Unfinished(body: string, limit: nat) {
    Preview(body, limit) != "" && EndIndicatorOf(Decode(0, FramedPreview(body, limit)).end) == Some("0")
  }

  /** What the server ends up with when it has read the preview and, if it asks for it, what
      the client sends then; `left` is what stayed on the connection. */
  function Assembled(body: string, limit: nat, left: string): string {
    if Preview(body, limit) == "" then ""
    else
      var d := Decode(0, FramedPreview(body, limit));
      d.data + if Unfinished(body, limit) then Decode(0, left + SecondStep(body, limit)).data else ""
  }

  /** What may stay on the connection. */
  ghost predicate LeftOver(body: string, limit: nat, left: string) {
    if Preview(body, limit) == "" then left == "" else HasSuffix(Decode(0, FramedPreview(body, limit)).rest, left)
  }

  /** The condition under which a body arrives whole, with `left` bytes that stay behind: the
      preview does not look chunked, and it is the whole body, or the limit is positive,
      nothing stays behind, and the remainder does not look chunked either. */
  predicate Arrives(body: string, limit: nat, left: nat) {
    && !Client.EndsChunked(Preview(body, limit))
    && (|body| <= limit || (limit > 0 && left == 0 && !Client.BodyAlreadyChunked(body[limit..])))
  }

  /** A preview that does not look chunked is taken for what it is. */
  lemma PlainPreview(body: string, limit: nat)
    requires |body| < Hex.TWO64 && !Client.EndsChunked(Preview(body, limit)) && Preview(body, limit) != ""
    ensures var d := Decode(0, FramedPreview(body, limit));
            && d.data == Preview(body, limit) && d.rest == CRLF
            && EndIndicatorOf(d.end) == Some(EndIndicatorFor(body, limit))
    ensures !Refused(body, limit) && (Unfinished(body, limit) <==> limit < |body|)
  {
    PreviewDecoded(Preview(body, limit), 0 < |body| <= limit);
    IeofAccepted();
  }

  lemma RefusedLooksChunked(body: string, limit: nat)
    requires |body| < Hex.TWO64 && Refused(body, limit)
    ensures Client.EndsChunked(Preview(body, limit))
  {
    if !Client.EndsChunked(Preview(body, limit)) { PlainPreview(body, limit); }
  }

  /** When the body arrives, the server asks for the rest exactly if there is any. */
  lemma ArrivedUnfinished(body: string, limit: nat, left: nat)
    requires |body| < Hex.TWO64 && Arrives(body, limit, left)
    ensures Unfinished(body, limit) <==> 0 < limit < |body|
  {
    if Preview(body, limit) != "" { PlainPreview(body, limit); }
  }

  /** The two parts make up the body exactly when the second one arrives. */
  lemma Reassembled(body: string, limit: nat, left: string)
    requires |body| > limit && |body| < Hex.TWO64
    requires HasSuffix(CRLF, left)
    ensures body[..limit] + Decode(0, left + Client.RemainderWire(body[limit..])).data == body <==>
            left == "" && !Client.BodyAlreadyChunked(body[limit..])
  {
    Reassembly(left, body[limit..]);
    SameTail(body, limit, Decode(0, left + Client.RemainderWire(body[limit..])).data);
  }

  lemma SameTail(body: string, n: nat, tail: string)
    requires n <= |body|
    ensures body[..n] + tail == body <==> tail == body[n..]
  {
    assert (body[..n] + tail)[n..] == tail;
    assert body[..n] + body[n..] == body;
  }

  /** The body is assembled exactly under that condition. */
  lemma AssembledExactly(body: string, limit: nat, left: string)
    requires |body| < Hex.TWO64 && LeftOver(body, limit, left)
    ensures !Refused(body, limit) && Assembled(body, limit, left) == body <==> Arrives(body, limit, |left|)
  {
    var p := Preview(body, limit);
    if p == "" {
    } else if Client.EndsChunked(p) {
      ChunkedNeverAssembled(body, limit, left);
    } else {
      PlainPreview(body, limit);
      if limit < |body| {
        Reassembled(body, limit, left);
      } else {
        assert body[..|body|] == body && p + "" == p;
      }
    }
  }

  lemma ChunkedNeverAssembled(body: string, limit: nat, left: string)
    requires |body| < Hex.TWO64 && LeftOver(body, limit, left) && Client.EndsChunked(Preview(body, limit))
    ensures Assembled(body, limit, left) != body
  {
    var p, ieof := Preview(body, limit), 0 < |body| <= limit;
    var d := Decode(0, FramedPreview(body, limit)).data;
    ChunkedPreviews.PreviewLost(p, ieof, body);
    assert d + "" == d;
    if |body| <= limit {
      assert body[..|body|] == body;
      ChunkedPreviews.OnePhase(p, ieof, left);
    } else {
      assert p + body[limit..] == body;
      ChunkedPreviews.TwoPhases(p, body[limit..], left);
    }
  }

  /** What was received is what the rest is put together with. */
  lemma ReceivedLeft(req: IcapRequest.Request, lead: string, h: string, body: string, limit: nat, segs: seq<string>)
    requires Segments(segs) && Flatten(segs) == FramedPreview(body, limit)
    requires Received(req, req.mode, lead, h, body, limit, segs)
    ensures LeftOver(body, limit, Flatten(req.conn.inbound)) && !Refused(body, limit)
    ensures Preview(body, limit) != "" ==> |Flatten(req.conn.inbound)| == Stranded(segs)
    ensures req.endIndicator == "0" <==> Unfinished(body, limit)
    ensures |body| < Hex.TWO64 && !Client.EndsChunked(Preview(body, limit)) ==>
              req.endIndicator == EndIndicatorFor(body, limit)
  {
    if Preview(body, limit) == "" {
      assert FramedPreview(body, limit) == "";
    } else if |body| < Hex.TWO64 && !Client.EndsChunked(Preview(body, limit)) {
      PlainPreview(body, limit);
    }
  }

  /** The whole protocol: the client sends, and the server asks for the rest when the preview
      did not end with the full-body indicator. The server ends up with the client's body
      exactly when it arrives, where the segments of the framed preview say what stays
      behind. */
  method Deliver(c: Client.Request, limit: nat, cut: string -> seq<string>, sizes: nat -> nat)
    returns (req: Option<IcapRequest.Request>, body: string)
    requires c.Valid() && Sendable(c)
    requires Cuts(cut) && forall i: nat :: sizes(i) > 0
    modifies c
    ensures c.Valid()
    ensures req == None <==> Refused(c.Message().body, limit)
    ensures req.Some? && body == c.Message().body <==>
            Arrives(c.Message().body, limit, Stranded(PreviewSegments(c, limit, cut)))
    ensures !Client.EndsChunked(Preview(c.Message().body, limit)) ==>
              req.Some? && req.value.endIndicator == EndIndicatorFor(c.Message().body, limit)
    ensures req.Some? ==> req.value.conn.outbound == if req.value.endIndicator == "0" then CONTINUE else ""
  {
    var conn;
    conn, req := Send(c, limit, cut, sizes);
    if req == None {
      RefusedLooksChunked(c.Message().body, limit);
      return req, "";
    }
    ghost var full, segs := c.Message().body, PreviewSegments(c, limit, cut);
    body := Assemble(req.value, sizes, c.Leading(), c.Message().head, full, limit, segs);
  }

  /** The server's part after the preview was read. */
  method Assemble(req: IcapRequest.Request, sizes: nat -> nat, ghost lead: string, ghost h: string, ghost full: string,
                  ghost limit: nat, ghost segs: seq<string>)
    returns (body: string)
    requires req.conn.Valid() && |full| < Hex.TWO64
    requires Segments(segs) && Flatten(segs) == FramedPreview(full, limit)
    requires Received(req, req.mode, lead, h, full, limit, segs)
    requires Flatten(req.conn.deferred) == SecondStep(full, limit)
    requires forall i: nat :: sizes(i) > 0
    modifies req.conn
    ensures body == full <==> Arrives(full, limit, Stranded(segs))
    ensures !Client.EndsChunked(Preview(full, limit)) ==> req.endIndicator == EndIndicatorFor(full, limit)
    ensures req.conn.outbound == old(req.conn.outbound) + if req.endIndicator == "0" then CONTINUE else ""
  {
    ghost var left := Flatten(req.conn.inbound);
    ReceivedLeft(req, lead, h, full, limit, segs);
    ReceivedExactly(full, limit, left, Stranded(segs));
    AssembledFrom(req, lead, h, full, limit, segs);
    if req.endIndicator == "0" {
      body := ReadRest(req, sizes);
    } else {
      body := if req.body.Bytes? then req.preview else "";
    }
    assert body == Assembled(full, limit, left);
  }

  /** What the parts received are put together to. */
  lemma AssembledFrom(req: IcapRequest.Request, lead: string, h: string, full: string, limit: nat, segs: seq<string>)
    requires Segments(segs) && Flatten(segs) == FramedPreview(full, limit)
    requires Received(req, req.mode, lead, h, full, limit, segs)
    requires Flatten(req.conn.deferred) == SecondStep(full, limit)
    ensures Assembled(full, limit, Flatten(req.conn.inbound)) ==
            if req.endIndicator == "0" then
              req.preview + Decode(0, Flatten(req.conn.inbound) + Flatten(req.conn.deferred)).data
            else if req.body.Bytes? then req.preview
            else ""
  {
    ReceivedLeft(req, lead, h, full, limit, segs);
    assert req.preview + "" == req.preview;
  }

  lemma ReceivedExactly(full: string, limit: nat, left: string, stranded: nat)
    requires |full| < Hex.TWO64 && LeftOver(full, limit, left) && !Refused(full, limit)
    requires Preview(full, limit) != "" ==> |left| == stranded
    ensures Assembled(full, limit, left) == full <==> Arrives(full, limit, stranded)
  {
    AssembledExactly(full, limit, left);
    ArrivesAlike(full, limit, |left|, stranded);
  }

  /** What stays behind matters only when there is a preview. */
  lemma ArrivesAlike(body: string, limit: nat, m: nat, n: nat)
    requires Preview(body, limit) != "" ==> m == n
    ensures Arrives(body, limit, m) <==> Arrives(body, limit, n)
  {}
}
