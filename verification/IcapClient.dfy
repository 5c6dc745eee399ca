/** The client side (icap-client): splitting a body into preview and remainder, printing
    the message, and answering "100 Continue". */
module IcapClient {
  import opened Strings
  import opened IcapRequest
  import Chunked
  import Decimal
  import Encapsulated
  import Hex

  /** An HTTP message as httputil dumps it: the header block, and the body. */
  datatype HttpDump = HttpDump(head: string, body: string)

  /** A header block ends with the only blank line in it. */
  predicate IsHead(h: string) {
    |h| >= 4 && Index(h, DOUBLE_CRLF) == Some(|h| - 4)
  }

  // ---------------------------------------------------------------------------------
  // parser.go
  // ---------------------------------------------------------------------------------

  function SplitBodyAndHeader(s: string): Option<(string, string)> {
    match Index(s, DOUBLE_CRLF)
    case None => None
    case Some(i) => if s[i + 4..] == "" then None else Some((s[..i], s[i + 4..]))
  }

  function StripCrlf(s: string): (r: string)
    ensures |r| <= |s|
  {
    if HasSuffix(s, CRLF) then StripCrlf(s[..|s| - 2]) else s
  }

  /** The expression \r\n0(\r\n)+$ matches. */
  predicate EndsChunked(body: string) {
    HasSuffix(body, CRLF) && HasSuffix(StripCrlf(body), "\r\n0")
  }

  predicate BodyAlreadyChunked(s: string) {
    var parts := SplitBodyAndHeader(s);
    parts.Some? && EndsChunked(parts.value.1)
  }

  /** `n` line breaks. */
  function Breaks(n: nat): (s: string)
    ensures |s| == 2 * n
  {
    if n == 0 then "" else Breaks(n - 1) + CRLF
  }

  /** The first `k` bytes end with a zero on a line of its own, and `n` line breaks follow. */
  predicate EndsAt(body: string, k: nat, n: nat) {
    n >= 1 && k <= |body| && HasSuffix(body[..k], "\r\n0") && body[k..] == Breaks(n)
  }

  ghost predicate ChunkedForm(body: string) { exists k, n :: EndsAt(body, k, n) }

  lemma {:induction false} StripBreaks(s: string) returns (n: nat)
    ensures StripCrlf(s) <= s && s == StripCrlf(s) + Breaks(n) && !HasSuffix(StripCrlf(s), CRLF)
    ensures HasSuffix(s, CRLF) ==> n >= 1
    decreases |s|
  {
    if HasSuffix(s, CRLF) {
      n := StripBreaks(s[..|s| - 2]);
      assert s == s[..|s| - 2] + CRLF;
      Associative(StripCrlf(s), Breaks(n), CRLF);
      n := n + 1;
    } else {
      n := 0;
      assert s + "" == s;
    }
  }

  lemma {:induction false} StripOfBreaks(core: string, n: nat)
    requires !HasSuffix(core, CRLF)
    ensures StripCrlf(core + Breaks(n)) == core
  {
    if n == 0 {
      assert core + "" == core;
    } else {
      var s := core + Breaks(n);
      assert s == core + Breaks(n - 1) + CRLF;
      assert s[..|s| - 2] == core + Breaks(n - 1) && s[|s| - 2..] == CRLF;
      StripOfBreaks(core, n - 1);
    }
  }

  /** What the expression matches: a zero line and one or more line breaks at the end. */
  lemma EndsChunkedExactly(body: string)
    ensures EndsChunked(body) <==> ChunkedForm(body)
  {
    if EndsChunked(body) {
      var n := StripBreaks(body);
      var k := |StripCrlf(body)|;
      assert body[..k] == StripCrlf(body) && body[k..] == Breaks(n);
      assert EndsAt(body, k, n);
    }
    if k, n :| EndsAt(body, k, n) {
      EndsAtChunked(body, k, n);
    }
  }

  lemma EndsAtChunked(body: string, k: nat, n: nat)
    requires EndsAt(body, k, n)
    ensures EndsChunked(body)
  {
    var core := body[..k];
    EndByte(core, "\r\n0");
    if HasSuffix(core, CRLF) { EndByte(core, CRLF); }
    assert body == core + Breaks(n);
    StripOfBreaks(core, n);
    assert body == core + Breaks(n - 1) + CRLF;
    assert body[|body| - 2..] == CRLF;
  }

  lemma EndByte(s: string, suffix: string)
    requires suffix != "" && HasSuffix(s, suffix)
    ensures s != "" && s[|s| - 1] == suffix[|suffix| - 1]
  {
    assert s[|s| - |suffix|..][|suffix| - 1] == s[|s| - 1];
  }

  /** A message looks chunked when what is behind its first blank line does. */
  lemma BodyAlreadyChunkedExactly(s: string)
    ensures BodyAlreadyChunked(s) <==>
              Index(s, DOUBLE_CRLF).Some? && ChunkedForm(s[Index(s, DOUBLE_CRLF).value + 4..])
  {
    var i := Index(s, DOUBLE_CRLF);
    if i.Some? {
      EndsChunkedExactly(s[i.value + 4..]);
      assert SplitBodyAndHeader(s) == None ==> s[i.value + 4..] == "";
    }
  }

  function ParsePreviewBodyBytes(s: string, pb: nat): string
    requires SplitBodyAndHeader(s).Some? ==> pb <= |SplitBodyAndHeader(s).value.1|
  {
    match SplitBodyAndHeader(s)
    case None => s
    case Some((header, body)) => header + DOUBLE_CRLF + body[..pb]
  }

  function AddHexaBodyByteNotations(body: string): string {
    Hex.Format(|body|) + CRLF + body + (CRLF + "0" + CRLF)
  }

  /** Chunking the body unless it looks chunked (request.go:88-95 and 122-128). */
  function ChunkBody(s: string): string {
    if BodyAlreadyChunked(s) then s
    else
      match SplitBodyAndHeader(s)
      case None => s
      case Some((header, body)) => header + DOUBLE_CRLF + AddHexaBodyByteNotations(body)
  }

  function TrimSuffix(s: string, suffix: string): string {
    if HasSuffix(s, suffix) then s[..|s| - |suffix|] else s
  }

  function AddFullBodyInPreviewIndicator(s: string): string {
    TrimSuffix(s, DOUBLE_CRLF) + ("; ieof" + DOUBLE_CRLF)
  }

  /** The ends of the first and second blank lines of a message. */
  function FirstBlank(s: string): Option<nat> {
    match Index(s, DOUBLE_CRLF) case None => None case Some(i) => Some(i + 4)
  }

  function SecondBlank(s: string): Option<nat> {
    match FirstBlank(s)
    case None => None
    case Some(i) => match FirstBlank(s[i..]) case None => None case Some(j) => Some(i + j)
  }

  function Item(key: Encapsulated.Key, offset: nat): string
    requires Encapsulated.Known(key)
  {
    Encapsulated.PrintItem(Encapsulated.Section(key, offset))
  }

  /** `setEncapsulatedHeaderValue` for REQMOD and RESPMOD (lines 56-86). */
  function EncapsulatedValue(httpReq: string, httpResp: string): string {
    var first, second := FirstBlank(httpReq), SecondBlank(httpReq);
    var reqPart :=
      if first.None? then ""
      else
        Item(Encapsulated.ReqHdr, 0)
        + (if second.Some? then ", " + Item(Encapsulated.ReqBody, first.value)
           else if httpResp == "" then ", " + Item(Encapsulated.NullBody, first.value)
           else "")
        + (if httpResp != "" then ", " else "");
    var reqEndsAt := if first.None? then 0 else if second.Some? then second.value else first.value;
    var respFirst := FirstBlank(httpResp);
    var respPart :=
      if respFirst.None? then ""
      else
        Item(Encapsulated.ResHdr, reqEndsAt) + ", "
        + Item(if SecondBlank(httpResp).Some? then Encapsulated.ResBody else Encapsulated.NullBody,
               reqEndsAt + respFirst.value);
    " " + reqPart + respPart
  }

  // ---------------------------------------------------------------------------------
  // The request
  // ---------------------------------------------------------------------------------

  /** What `Validate` asks for (the message to be adapted, and no response in REQMOD), with
      header blocks as httputil writes them. */
  predicate Encapsulates(mode: Mode, httpRequest: Option<HttpDump>, httpResponse: Option<HttpDump>) {
    && (if mode == REQMOD then httpRequest.Some? && httpResponse.None? else httpResponse.Some?)
    && (httpRequest.Some? ==> IsHead(httpRequest.value.head))
    && (httpResponse.Some? ==> IsHead(httpResponse.value.head))
  }

  class Request {
    const mode: Mode
    const httpRequest: Option<HttpDump>
    const httpResponse: Option<HttpDump>
    var previewHeader: string
    var previewBytes: nat
    var previewSet: bool
    var bodyFittedInPreview: bool
    var remainingPreviewBytes: string

    constructor (mode: Mode, httpRequest: Option<HttpDump>, httpResponse: Option<HttpDump>)
      requires Encapsulates(mode, httpRequest, httpResponse)
      ensures Valid() && !previewSet && remainingPreviewBytes == ""
      ensures this.mode == mode && this.httpRequest == httpRequest && this.httpResponse == httpResponse
    {
      this.mode, this.httpRequest, this.httpResponse := mode, httpRequest, httpResponse;
      previewHeader, previewBytes, previewSet, bodyFittedInPreview, remainingPreviewBytes := "", 0, false, false, "";
    }

    /** Once a preview is set, the flags and the two parts describe the body. */
    predicate Valid()
      reads this
    {
      && Encapsulates(mode, httpRequest, httpResponse)
      && previewBytes <= |Message().body|
      && (!previewSet ==> !bodyFittedInPreview)
      && (previewSet ==>
            && previewHeader == Decimal.Itoa(previewBytes)
            && (bodyFittedInPreview <==> Message().body != "" && previewBytes == |Message().body|)
            && (previewBytes < |Message().body| ==> remainingPreviewBytes == Message().body[previewBytes..]))
    }

    /** The message that carries the body. */
    function Message(): HttpDump
      requires Encapsulates(mode, httpRequest, httpResponse)
    {
      if mode == REQMOD then httpRequest.value else httpResponse.value
    }

    /** The part of the body that goes out with the message. */
    function Sent(): string
      requires Valid()
      reads this
    {
      if previewSet then Message().body[..previewBytes] else Message().body
    }

    /** `SetPreview` (icap-client/header.go:12-83). */
    method SetPreview(maxBytes: nat)
      requires Valid()
      modifies this
      ensures Valid() && previewSet
      ensures previewBytes == Chunked.Min(|Message().body|, maxBytes)
      ensures bodyFittedInPreview <==> 0 < |Message().body| <= maxBytes
      ensures |Message().body| > maxBytes ==> Sent() + remainingPreviewBytes == Message().body
      ensures |Message().body| <= maxBytes ==> Sent() == Message().body
    {
      var body := Message().body;
      var n := |body|;
      if n > 0 { bodyFittedInPreview := true; }
      if n > maxBytes {
        n := maxBytes;
        bodyFittedInPreview := false;
        remainingPreviewBytes := body[maxBytes..];
      }
      previewHeader := Decimal.Itoa(n);
      previewBytes := n;
      previewSet := true;
    }

    /** The decision in `Do` (client.go:62-65) on a response with this status, and
        `DoRemaining`: what is sent next, if anything. */
    method OnResponse(statusCode: int) returns (data: Option<string>)
      requires Valid()
      ensures data == if statusCode == 100 && previewSet && previewBytes < |Message().body|
                      then Some(RemainderWire(Message().body[previewBytes..]))
                      else if statusCode == 100 && previewSet && Message().body == ""
                      then Some(RemainderWire(remainingPreviewBytes)) else None
    {
      if statusCode == 100 && !bodyFittedInPreview && previewSet {
        var rest := remainingPreviewBytes;
        if !BodyAlreadyChunked(rest) {
          rest := AddHexaBodyByteNotations(rest);
        }
        return Some(rest);
      }
      data := None;
    }

    /** The request in front of a response, forced to end with a blank line. */
    function Leading(): string
    {
      if mode == RESPMOD then LeadOf(httpRequest) else ""
    }

    /** The message that carries the body, without the full-body indicator. */
    function Framing(): string
      requires Valid()
      reads this
    {
      Message().head + Framed(Sent(), false)
    }

    /** The HTTP request block (request.go:72-104). */
    method RequestBlock() returns (httpReq: string)
      requires Valid()
      ensures httpReq == if mode == REQMOD then Framing() else Leading()
    {
      if httpRequest.None? { return ""; }
      var dump := httpRequest.value;
      httpReq := dump.head + dump.body;
      if mode == REQMOD {
        if previewSet {
          PreviewPart(dump.head, dump.body, previewBytes);
          httpReq := ParsePreviewBodyBytes(httpReq, previewBytes);
        }
        assert httpReq == dump.head + Sent();
        httpReq := ChunkBody(httpReq);
        FramedBody(dump.head, Sent());
      }
      ghost var unpadded := httpReq;
      while !HasSuffix(httpReq, DOUBLE_CRLF)
        invariant Padded(httpReq) == Padded(unpadded)
        decreases PadLeft(httpReq)
      {
        PadStep(httpReq);
        httpReq := httpReq + CRLF;
      }
    }

    /** The HTTP response block (request.go:108-134). */
    method ResponseBlock() returns (httpResp: string)
      requires Valid()
      ensures httpResp == if mode == REQMOD then "" else Framing()
    {
      if httpResponse.None? { return ""; }
      var dump := httpResponse.value;
      httpResp := dump.head + dump.body;
      if previewSet {
        PreviewPart(dump.head, dump.body, previewBytes);
        httpResp := ParsePreviewBodyBytes(httpResp, previewBytes);
      }
      assert httpResp == dump.head + Sent();
      httpResp := ChunkBody(httpResp);
      FramedBody(dump.head, Sent());
      if httpResp != "" && !HasSuffix(httpResp, DOUBLE_CRLF) {
        httpResp := httpResp + CRLF;
      }
    }

    /** `DumpRequest` (icap-client/request.go:55-156): the Encapsulated value and the bytes
        behind the ICAP head. */
    method DumpRequest() returns (encapsulated: string, data: string)
      requires Valid()
      ensures encapsulated ==
              if mode == REQMOD then EncapsulatedValue(Framing(), "") else EncapsulatedValue(Leading(), Framing())
      ensures data == Leading() + (Message().head + Framed(Sent(), previewSet && bodyFittedInPreview))
    {
      var httpReq := RequestBlock();
      var httpResp := ResponseBlock();
      encapsulated := EncapsulatedValue(httpReq, httpResp);
      FramedFull(Message().head, Sent());
      if httpResp != "" && previewSet && bodyFittedInPreview {
        httpResp := AddFullBodyInPreviewIndicator(httpResp);
      }
      if mode == REQMOD && previewSet && bodyFittedInPreview {
        httpReq := AddFullBodyInPreviewIndicator(httpReq);
      }
      data := httpReq + httpResp;
    }
  }

  // ---------------------------------------------------------------------------------
  // What the printed bytes are
  // ---------------------------------------------------------------------------------

  /** The chunk framing of the part of the body that is sent, with or without the
      full-body indicator. A part that looks chunked already is sent as it is. */
  function Framed(p: string, ieof: bool): string {
    if p == "" then ""
    else if EndsChunked(p) then RawFramed(p, ieof)
    else Chunked.Chunk(p) + ((if ieof then IEOF else "0") + DOUBLE_CRLF)
  }

  function RawFramed(p: string, ieof: bool): string {
    var q := if HasSuffix(p, DOUBLE_CRLF) then p else p + CRLF;
    if ieof then TrimSuffix(q, DOUBLE_CRLF) + ("; ieof" + DOUBLE_CRLF) else q
  }

  /** What is printed in front of a response. */
  function LeadOf(request: Option<HttpDump>): string {
    if request.Some? then Padded(request.value.head + request.value.body) else ""
  }

  /** What the padding loop adds (request.go:98-102). */
  function Padded(s: string): string {
    if HasSuffix(s, DOUBLE_CRLF) then s
    else if HasSuffix(s, CRLF) then s + CRLF
    else s + CRLF + CRLF
  }

  function PadLeft(s: string): nat {
    if HasSuffix(s, DOUBLE_CRLF) then 0 else if HasSuffix(s, CRLF) then 1 else 2
  }

  lemma HeadIndex(h: string, b: string)
    requires IsHead(h)
    ensures Index(h + b, DOUBLE_CRLF) == Some(|h| - 4)
    ensures h == h[..|h| - 4] + DOUBLE_CRLF
  {
    var i := |h| - 4;
    assert (h + b)[i..i + 4] == h[i..i + 4];
    forall j: nat | j < i ensures !At(h + b, j, DOUBLE_CRLF) {
      assert (h + b)[j..j + 4] == h[j..j + 4];
      assert !At(h, j, DOUBLE_CRLF);
    }
    IndexIs(h + b, DOUBLE_CRLF, i);
  }

  lemma SplitMessage(h: string, b: string)
    requires IsHead(h)
    ensures SplitBodyAndHeader(h + b) == if b == "" then None else Some((h[..|h| - 4], b))
  {
    HeadIndex(h, b);
    assert (h + b)[|h|..] == b;
    assert (h + b)[..|h| - 4] == h[..|h| - 4];
  }

  lemma PreviewPart(h: string, b: string, pb: nat)
    requires IsHead(h) && pb <= |b|
    ensures SplitBodyAndHeader(h + b).Some? ==> pb <= |SplitBodyAndHeader(h + b).value.1|
    ensures ParsePreviewBodyBytes(h + b, pb) == h + b[..pb]
  {
    SplitMessage(h, b);
    HeadIndex(h, b);
  }

  lemma SuffixOfTail(h: string, t: string, suffix: string)
    requires |suffix| <= |t|
    ensures HasSuffix(h + t, suffix) == HasSuffix(t, suffix)
    ensures HasSuffix(t, suffix) ==> TrimSuffix(h + t, suffix) == h + TrimSuffix(t, suffix)
  {
    assert (h + t)[|h + t| - |suffix|..] == t[|t| - |suffix|..];
    if HasSuffix(t, suffix) {
      assert (h + t)[..|h + t| - |suffix|] == h + t[..|t| - |suffix|];
    }
  }

  lemma PadStep(s: string)
    requires !HasSuffix(s, DOUBLE_CRLF)
    ensures Padded(s + CRLF) == Padded(s) && PadLeft(s + CRLF) < PadLeft(s)
  {
    var t := s + CRLF;
    assert HasSuffix(t, CRLF);
    DoubleCrlf(s);
  }

  lemma DoubleCrlf(s: string)
    ensures HasSuffix(s + CRLF, DOUBLE_CRLF) <==> HasSuffix(s, CRLF)
  {
    if |s| >= 2 {
      var t, x := s + CRLF, s[|s| - 2..];
      assert t[|t| - 4..] == x + CRLF && (x + CRLF)[..2] == x;
      assert DOUBLE_CRLF == CRLF + CRLF && DOUBLE_CRLF[..2] == CRLF;
    }
  }

  /** The chunked form ends with one CRLF, so both printers add exactly one more. */
  lemma PadChunked(h: string, p: string)
    requires p != ""
    ensures var s := h + (Chunked.Chunk(p) + Chunked.LAST_CHUNK);
            && !HasSuffix(s, DOUBLE_CRLF) && HasSuffix(s, CRLF)
            && s + CRLF == h + (Chunked.Chunk(p) + ("0" + DOUBLE_CRLF))
  {
    var t := Chunked.Chunk(p) + Chunked.LAST_CHUNK;
    LastChunkEnd(Chunked.Chunk(p));
    SuffixOfTail(h, t, DOUBLE_CRLF);
    SuffixOfTail(h, t, CRLF);
    Associative(h, t, CRLF);
  }

  lemma LastChunkEnd(c: string)
    requires c != ""
    ensures var t := c + Chunked.LAST_CHUNK;
            |t| >= 4 && !HasSuffix(t, DOUBLE_CRLF) && HasSuffix(t, CRLF) && t + CRLF == c + ("0" + DOUBLE_CRLF)
  {
    var t := c + Chunked.LAST_CHUNK;
    assert t[|t| - 4..][1] == '0' && t[|t| - 2..] == CRLF;
    assert Chunked.LAST_CHUNK + CRLF == "0" + DOUBLE_CRLF;
  }

  lemma ChunkMessage(h: string, p: string)
    requires IsHead(h)
    ensures ChunkBody(h + p) ==
            if p == "" then h else if EndsChunked(p) then h + p else h + (Chunked.Chunk(p) + Chunked.LAST_CHUNK)
  {
    SplitMessage(h, p);
    HeadIndex(h, p);
    if p == "" {
      assert h + p == h;
    } else if !EndsChunked(p) {
      assert AddHexaBodyByteNotations(p) == Chunked.Chunk(p) + Chunked.LAST_CHUNK by {
        assert CRLF + "0" + CRLF == CRLF + Chunked.LAST_CHUNK;
      }
    }
  }

  lemma EndsChunkedLong(p: string)
    requires EndsChunked(p)
    ensures |p| >= 4 && HasSuffix(p, CRLF)
  {
    assert |StripCrlf(p[..|p| - 2])| <= |p| - 2;
  }

  /** Both printers produce the framed form. */
  lemma FramedBody(h: string, p: string)
    requires IsHead(h)
    ensures var s := ChunkBody(h + p);
            && Padded(s) == h + Framed(p, false)
            && (if HasSuffix(s, DOUBLE_CRLF) then s else s + CRLF) == h + Framed(p, false)
  {
    ChunkMessage(h, p);
    if p == "" {
      HeadIndex(h, p);
      assert h + "" == h;
    } else if EndsChunked(p) {
      EndsChunkedLong(p);
      SuffixOfTail(h, p, DOUBLE_CRLF);
      SuffixOfTail(h, p, CRLF);
    } else {
      PadChunked(h, p);
    }
  }

  /** Replacing the end `e` of a message by `f`. */
  lemma SwapEnd(h: string, c: string, z: string, e: string, f: string)
    ensures TrimSuffix(h + (c + (z + e)), e) + f == h + (c + (z + f))
  {
    assert h + (c + (z + e)) == (h + (c + z)) + e;
    SuffixOfTail(h + (c + z), e, e);
    assert (h + (c + z)) + f == h + (c + (z + f));
  }

  lemma IeofEnd()
    ensures IEOF + DOUBLE_CRLF == "0" + ("; ieof" + DOUBLE_CRLF)
  {}

  lemma FramedFullChunked(h: string, p: string)
    requires p != "" && !EndsChunked(p)
    ensures AddFullBodyInPreviewIndicator(h + Framed(p, false)) == h + Framed(p, true)
  {
    IeofEnd();
    SwapEnd(h, Chunked.Chunk(p), "0", DOUBLE_CRLF, "; ieof" + DOUBLE_CRLF);
  }

  lemma FramedFullRaw(h: string, p: string)
    requires EndsChunked(p)
    ensures AddFullBodyInPreviewIndicator(h + RawFramed(p, false)) == h + RawFramed(p, true)
  {
    EndsChunkedLong(p);
    if !HasSuffix(p, DOUBLE_CRLF) { PadStep(p); }
    SuffixOfTail(h, RawFramed(p, false), DOUBLE_CRLF);
  }

  /** The full-body indicator replaces the plain end of the preview. */
  lemma FramedFull(h: string, p: string)
    ensures p != "" ==> AddFullBodyInPreviewIndicator(h + Framed(p, false)) == h + Framed(p, true)
  {
    if EndsChunked(p) {
      FramedFullRaw(h, p);
    } else if p != "" {
      FramedFullChunked(h, p);
    }
  }

  /** What goes out for a part of the body that does not look chunked: one chunk and the marker. */
  lemma FramedPlain(p: string, ieof: bool)
    requires p != "" && !ChunkedForm(p)
    ensures Framed(p, ieof) ==
            Hex.Format(|p|) + "\r\n" + p + "\r\n" + (if ieof then "0; ieof\r\n\r\n" else "0\r\n\r\n")
  {
    EndsChunkedExactly(p);
    MarkerText(ieof);
  }

  lemma MarkerText(ieof: bool)
    ensures (if ieof then IEOF else "0") + DOUBLE_CRLF == if ieof then "0; ieof\r\n\r\n" else "0\r\n\r\n"
  {}

  /** And for one that does: itself with two line breaks at least, and for the full body the marker in
      place of the last two. */
  lemma FramedRaw(p: string, k: nat, n: nat, ieof: bool)
    requires EndsAt(p, k, n)
    ensures Framed(p, ieof) ==
            if ieof then p[..k] + Breaks(if n <= 2 then 0 else n - 2) + "; ieof\r\n\r\n"
            else p[..k] + Breaks(if n == 1 then 2 else n)
  {
    EndsAtChunked(p, k, n);
    assert p == p[..k] + Breaks(n);
    RawExactly(p[..k], n, ieof);
  }

  lemma RawExactly(core: string, n: nat, ieof: bool)
    requires n >= 1 && HasSuffix(core, "\r\n0")
    ensures RawFramed(core + Breaks(n), ieof) ==
            if ieof then core + Breaks(if n <= 2 then 0 else n - 2) + "; ieof\r\n\r\n"
            else core + Breaks(if n == 1 then 2 else n)
  {
    var p, m := core + Breaks(n), if n == 1 then 2 else n;
    var q := core + Breaks(m);
    EndByte(core, "\r\n0");
    TwoMore(core, m - 2);
    if n == 1 {
      OneBreak(core);
      assert p + CRLF == q;
    }
    assert "; ieof" + DOUBLE_CRLF == "; ieof\r\n\r\n";
  }

  lemma TwoMore(core: string, n: nat)
    ensures HasSuffix(core + Breaks(n + 2), DOUBLE_CRLF)
    ensures TrimSuffix(core + Breaks(n + 2), DOUBLE_CRLF) == core + Breaks(n)
  {
    var s := core + Breaks(n + 2);
    assert Breaks(n + 2) == Breaks(n) + CRLF + CRLF;
    assert s == core + Breaks(n) + DOUBLE_CRLF;
    assert s[..|s| - 4] == core + Breaks(n) && s[|s| - 4..] == DOUBLE_CRLF;
  }

  lemma OneBreak(core: string)
    requires core != "" && core[|core| - 1] == '0'
    ensures Breaks(1) == CRLF && Breaks(2) == CRLF + CRLF && !HasSuffix(core + Breaks(1), DOUBLE_CRLF)
  {
    assert Breaks(0) + CRLF == CRLF;
    DoubleCrlf(core);
    if HasSuffix(core, CRLF) { EndByte(core, CRLF); }
  }

  /** What is sent for the remainder: itself when it looks chunked, and otherwise one chunk and the
      last one. */
  lemma RemainderExactly(rest: string)
    ensures BodyAlreadyChunked(rest) ==> RemainderWire(rest) == rest
    ensures !BodyAlreadyChunked(rest) ==> RemainderWire(rest) == Hex.Format(|rest|) + "\r\n" + rest + "\r\n0\r\n"
  {
    OneChunk(rest);
  }

  lemma OneChunk(body: string)
    ensures AddHexaBodyByteNotations(body) == Hex.Format(|body|) + "\r\n" + body + "\r\n0\r\n"
  {
    ZeroLine();
  }

  lemma ZeroLine()
    ensures CRLF + "0" + CRLF == "\r\n0\r\n"
  {}

  /** The padding adds as few line breaks as make the request end with a blank line. */
  lemma PaddedExactly(s: string)
    ensures exists t: string ::
              && (t == "" || t == "\r\n" || t == "\r\n\r\n") && Padded(s) == s + t && HasSuffix(s + t, "\r\n\r\n")
              && (t != "" ==> !HasSuffix(s, "\r\n\r\n")) && (t == "\r\n\r\n" ==> !HasSuffix(s + "\r\n", "\r\n\r\n"))
  {
    DoubleCrlf(s);
    if HasSuffix(s, DOUBLE_CRLF) {
      assert Padded(s) == s + "";
    } else if HasSuffix(s, CRLF) {
      assert Padded(s) == s + CRLF;
    } else {
      assert (s + DOUBLE_CRLF)[|s|..] == DOUBLE_CRLF;
      assert Padded(s) == s + DOUBLE_CRLF;
    }
  }

  /** A chunked body with its last chunk and a line break, as a dump has it, looks chunked. */
  lemma ChunkedLooksChunked(writes: seq<string>)
    requires exists w | w in writes :: w != ""
    ensures var b := Chunked.Chunks(writes) + Chunked.LAST_CHUNK + CRLF;
            EndsChunked(b) && HasSuffix(b, DOUBLE_CRLF) && Framed(b, false) == b
  {
    ChunksEnd(writes);
    ZeroLineEnds(Chunked.Chunks(writes));
  }

  lemma ZeroLineEnds(c: string)
    requires HasSuffix(c, CRLF)
    ensures var b := c + Chunked.LAST_CHUNK + CRLF; EndsChunked(b) && HasSuffix(b, DOUBLE_CRLF) && b != ""
  {
    var b, core := c + Chunked.LAST_CHUNK + CRLF, c + "0";
    TwoBreaks();
    assert b == core + DOUBLE_CRLF;
    assert core[|c| - 2..] == c[|c| - 2..] + "0" == "\r\n0";
    assert b[..|core|] == core && b[|core|..] == DOUBLE_CRLF;
    EndsAtChunked(b, |core|, 2);
  }

  lemma TwoBreaks()
    ensures Breaks(2) == DOUBLE_CRLF
  {
    assert Breaks(0) + CRLF == CRLF;
  }

  lemma {:induction false} ChunksEnd(writes: seq<string>)
    ensures Chunked.Chunks(writes) == "" || HasSuffix(Chunked.Chunks(writes), CRLF)
    ensures (exists w | w in writes :: w != "") ==> Chunked.Chunks(writes) != ""
    decreases |writes|
  {
    if writes != [] {
      ChunksEnd(writes[1..]);
      var first, rest := Chunked.Chunk(writes[0]), Chunked.Chunks(writes[1..]);
      if rest != "" {
        assert (first + rest)[|first + rest| - 2..] == rest[|rest| - 2..];
      } else {
        assert first + rest == first;
        if first != "" { assert first[|first| - 2..] == CRLF; }
      }
      if w :| w in writes && w != "" && rest == "" { assert w in [writes[0]] + writes[1..]; }
    }
  }

  /** Such a body is printed as it is. */
  method DumpChunked(c: Request, ghost writes: seq<string>) returns (encapsulated: string, data: string)
    requires c.Valid() && !c.previewSet && exists w | w in writes :: w != ""
    requires c.Message().body == Chunked.Chunks(writes) + Chunked.LAST_CHUNK + CRLF
    ensures data == c.Leading() + (c.Message().head + c.Message().body)
  {
    encapsulated, data := c.DumpRequest();
    ChunkedLooksChunked(writes);
  }

  // ---------------------------------------------------------------------------------
  // What the Encapsulated value is
  // ---------------------------------------------------------------------------------

  lemma SuffixFound(s: string, suffix: string)
    requires HasSuffix(s, suffix)
    ensures Index(s, suffix).Some?
  {
    var i := |s| - |suffix|;
    assert s[i..i + |suffix|] == suffix;
    assert At(s, i, suffix);
  }

  /** A body part shows up as a second blank line. */
  lemma Blanks(h: string, p: string)
    requires IsHead(h)
    ensures FirstBlank(h + Framed(p, false)) == Some(|h|)
    ensures SecondBlank(h + Framed(p, false)).Some? <==> p != ""
  {
    var w := Framed(p, false);
    HeadIndex(h, w);
    assert (h + w)[|h|..] == w;
    if EndsChunked(p) {
      EndsChunkedLong(p);
      if !HasSuffix(p, DOUBLE_CRLF) { PadStep(p); }
      SuffixFound(w, DOUBLE_CRLF);
    } else if p != "" {
      var c := Chunked.Chunk(p);
      assert w == (c + "0") + DOUBLE_CRLF;
      SuffixOfTail(c + "0", DOUBLE_CRLF, DOUBLE_CRLF);
      SuffixFound(w, DOUBLE_CRLF);
    }
  }

  /** REQMOD: the request header, then its body or null-body. */
  function Reqmod(h: string, p: string): seq<Encapsulated.Section> {
    [Encapsulated.Section(Encapsulated.ReqHdr, 0)] +
    [Encapsulated.Section(if p == "" then Encapsulated.NullBody else Encapsulated.ReqBody, |h|)]
  }

  lemma Shape(space: string, first: string, comma: string, second: string)
    ensures space + (first + (comma + second) + "") + "" == space + (first + comma + second)
  {}

  lemma ReqmodValue(m: string, n: nat)
    requires FirstBlank(m) == Some(n)
    ensures EncapsulatedValue(m, "") ==
            " " + (Item(Encapsulated.ReqHdr, 0) + ", "
                   + Item(if SecondBlank(m).Some? then Encapsulated.ReqBody else Encapsulated.NullBody, n))
  {
    var second := Item(if SecondBlank(m).Some? then Encapsulated.ReqBody else Encapsulated.NullBody, n);
    Shape(" ", Item(Encapsulated.ReqHdr, 0), ", ", second);
  }

  lemma ReqmodSections(h: string, p: string)
    requires IsHead(h) && |h| <= Decimal.MAX_INT
    ensures Encapsulated.Printable(Reqmod(h, p))
    ensures EncapsulatedValue(h + Framed(p, false), "") == " " + Encapsulated.Print(Reqmod(h, p))
  {
    var a := Encapsulated.Section(Encapsulated.ReqHdr, 0);
    var b := Encapsulated.Section(if p == "" then Encapsulated.NullBody else Encapsulated.ReqBody, |h|);
    Blanks(h, p);
    ReqmodValue(h + Framed(p, false), |h|);
    Encapsulated.PrintOne(b);
    Encapsulated.PrintMore(a, [b]);
  }

  /** RESPMOD: the header of the accompanying request if there is one, the response
      header, then its body or null-body. */
  function Respmod(lead: string, h: string, p: string): seq<Encapsulated.Section> {
    (if lead == "" then [] else [Encapsulated.Section(Encapsulated.ReqHdr, 0)]) +
    ([Encapsulated.Section(Encapsulated.ResHdr, |lead|)] +
     [Encapsulated.Section(if p == "" then Encapsulated.NullBody else Encapsulated.ResBody, |lead| + |h|)])
  }

  lemma ShapeAlone(space: string, part: string)
    ensures space + "" + part == space + part
  {}

  lemma ShapeLed(space: string, first: string, comma: string, part: string)
    ensures space + (first + "" + comma) + part == space + (first + comma + part)
  {}

  /** The part printed for the response, `at` bytes behind the start. */
  function ResponseItems(at: nat, n: nat, hasBody: bool): string {
    Item(Encapsulated.ResHdr, at) + ", " + Item(if hasBody then Encapsulated.ResBody else Encapsulated.NullBody, at + n)
  }

  lemma RespmodValue(lead: string, m: string, n: nat)
    requires lead == "" || IsHead(lead)
    requires FirstBlank(m) == Some(n)
    ensures EncapsulatedValue(lead, m) ==
            if lead == "" then " " + ResponseItems(0, n, SecondBlank(m).Some?)
            else " " + (Item(Encapsulated.ReqHdr, 0) + ", " + ResponseItems(|lead|, n, SecondBlank(m).Some?))
  {
    assert m != "";
    var part := ResponseItems(|lead|, n, SecondBlank(m).Some?);
    if lead == "" {
      assert FirstBlank(lead) == None;
      ShapeAlone(" ", part);
    } else {
      OneBlank(lead);
      HeadIndex(lead, "");
      assert lead + "" == lead;
      ShapeLed(" ", Item(Encapsulated.ReqHdr, 0), ", ", part);
    }
  }

  lemma RespmodSections(lead: string, h: string, p: string)
    requires IsHead(h) && (lead == "" || IsHead(lead)) && |lead| + |h| <= Decimal.MAX_INT
    ensures Encapsulated.Printable(Respmod(lead, h, p))
    ensures EncapsulatedValue(lead, h + Framed(p, false)) == " " + Encapsulated.Print(Respmod(lead, h, p))
  {
    var a := Encapsulated.Section(Encapsulated.ReqHdr, 0);
    var b := Encapsulated.Section(Encapsulated.ResHdr, |lead|);
    var c := Encapsulated.Section(if p == "" then Encapsulated.NullBody else Encapsulated.ResBody, |lead| + |h|);
    Blanks(h, p);
    RespmodValue(lead, h + Framed(p, false), |h|);
    Encapsulated.PrintOne(c);
    Encapsulated.PrintMore(b, [c]);
    if lead == "" {
      assert Respmod(lead, h, p) == [b] + [c];
    } else {
      Encapsulated.PrintMore(a, [b] + [c]);
    }
  }

  /** A response whose accompanying request has a second blank line, as one with a body
      has, is announced with a req-body in front of the res-hdr. */
  function BodyLed(lead: string, h: string, p: string): seq<Encapsulated.Section>
    requires SecondBlank(lead).Some?
  {
    var end := SecondBlank(lead).value;
    [Encapsulated.Section(Encapsulated.ReqHdr, 0)] +
    ([Encapsulated.Section(Encapsulated.ReqBody, FirstBlank(lead).value)] +
     ([Encapsulated.Section(Encapsulated.ResHdr, end)] +
      [Encapsulated.Section(if p == "" then Encapsulated.NullBody else Encapsulated.ResBody, end + |h|)]))
  }

  lemma ShapeBody(space: string, first: string, comma: string, body: string, part: string)
    ensures space + (first + (comma + body) + comma) + part == space + (first + comma + (body + comma + part))
  {}

  lemma BodyLedValue(lead: string, m: string, n: nat)
    requires SecondBlank(lead).Some? && FirstBlank(m) == Some(n)
    ensures EncapsulatedValue(lead, m) ==
            " " + (Item(Encapsulated.ReqHdr, 0) + ", " +
                   (Item(Encapsulated.ReqBody, FirstBlank(lead).value) + ", " +
                    ResponseItems(SecondBlank(lead).value, n, SecondBlank(m).Some?)))
  {
    assert m != "";
    ShapeBody(" ", Item(Encapsulated.ReqHdr, 0), ", ", Item(Encapsulated.ReqBody, FirstBlank(lead).value),
              ResponseItems(SecondBlank(lead).value, n, SecondBlank(m).Some?));
  }

  lemma BodyLedSections(lead: string, h: string, p: string)
    requires IsHead(h) && SecondBlank(lead).Some? && |lead| + |h| <= Decimal.MAX_INT
    ensures Encapsulated.Printable(BodyLed(lead, h, p))
    ensures EncapsulatedValue(lead, h + Framed(p, false)) == " " + Encapsulated.Print(BodyLed(lead, h, p))
  {
    var n, end := FirstBlank(lead).value, SecondBlank(lead).value;
    var a := Encapsulated.Section(Encapsulated.ReqHdr, 0);
    var r := Encapsulated.Section(Encapsulated.ReqBody, n);
    var b := Encapsulated.Section(Encapsulated.ResHdr, end);
    var c := Encapsulated.Section(if p == "" then Encapsulated.NullBody else Encapsulated.ResBody, end + |h|);
    Blanks(h, p);
    BodyLedValue(lead, h + Framed(p, false), |h|);
    Encapsulated.PrintOne(c);
    Encapsulated.PrintMore(b, [c]);
    Encapsulated.PrintMore(r, [b] + [c]);
    Encapsulated.PrintMore(a, [r] + ([b] + [c]));
  }

  lemma OneBlank(lead: string)
    requires lead == "" || IsHead(lead)
    ensures SecondBlank(lead) == None
  {
    if lead == "" {
      assert FirstBlank(lead) == None;
    } else {
      HeadIndex(lead, "");
      assert lead + "" == lead && lead[|lead|..] == "";
      assert FirstBlank("") == None;
    }
  }

  lemma RespmodAccepted(lead: string, h: string, p: string)
    ensures Encapsulated.Accepted(Respmod(lead, h, p))
    ensures SecondBlank(lead).Some? ==> !Encapsulated.Accepted(BodyLed(lead, h, p))
  {
    if SecondBlank(lead).Some? { assert BodyLed(lead, h, p)[1].key == Encapsulated.ReqBody; }
  }

  lemma LeadRefused(lead: string, h: string, p: string)
    requires IsHead(h) && (lead == "" || IsHead(lead) || SecondBlank(lead).Some?) && |lead| + |h| <= Decimal.MAX_INT
    ensures var value := TrimSpace(EncapsulatedValue(lead, h + Framed(p, false)));
            Encapsulated.LayoutFor(Encapsulated.ParseItems(value)) ==
            if SecondBlank(lead).Some? then None else Some(Encapsulated.LayoutOf(Respmod(lead, h, p)))
  {
    RespmodAccepted(lead, h, p);
    if SecondBlank(lead).Some? {
      BodyLedSections(lead, h, p);
      Encapsulated.HeaderRead(BodyLed(lead, h, p));
    } else {
      RespmodSections(lead, h, p);
      Encapsulated.HeaderRead(Respmod(lead, h, p));
    }
  }

  /** A short end that completes a blank line. */
  lemma ShortEnd(rh: string, b: string)
    requires IsHead(rh) && 0 < |b| < 4 && HasSuffix(rh + b, DOUBLE_CRLF)
    ensures b == CRLF
  {
    HeadIndex(rh, "");
    var e := rh[|rh| - 4..];
    assert e == DOUBLE_CRLF && e[1] == rh[|rh| - 3] == '\n' && e[3] == rh[|rh| - 1] == '\n';
    FirstOfEnd(rh, b);
    assert |b| == 2;
  }

  lemma FirstOfEnd(rh: string, b: string)
    requires |rh| >= 4 && 0 < |b| < 4 && HasSuffix(rh + b, DOUBLE_CRLF)
    ensures rh[|rh| + |b| - 4] == '\r' && (|b| == 2 ==> b == CRLF)
  {
    var s := rh + b;
    var f := s[|s| - 4..];
    assert f == DOUBLE_CRLF && f[0] == rh[|rh| + |b| - 4];
    assert |b| == 2 ==> f[2..] == b;
  }

  lemma OneByte(rh: string, b: string)
    requires IsHead(rh) && |b| == 1
    ensures !HasSuffix(rh + b, CRLF)
  {
    HeadIndex(rh, "");
    assert rh[|rh| - 1] == DOUBLE_CRLF[3];
    assert (rh + b)[|rh + b| - 2..][0] == rh[|rh| - 1];
  }

  /** A request with a body other than CRLF has a second blank line when it is padded. */
  lemma PaddedBlank(rh: string, b: string)
    requires IsHead(rh) && b != "" && b != CRLF
    ensures SecondBlank(Padded(rh + b)).Some?
  {
    var tail :=
      if HasSuffix(rh + b, DOUBLE_CRLF) then b
      else if HasSuffix(rh + b, CRLF) then b + CRLF
      else b + CRLF + CRLF;
    assert Padded(rh + b) == rh + tail;
    if HasSuffix(rh + b, DOUBLE_CRLF) {
      if |b| < 4 { ShortEnd(rh, b); }
      SuffixOfTail(rh, b, DOUBLE_CRLF);
    } else if HasSuffix(rh + b, CRLF) {
      if |b| == 1 { OneByte(rh, b); }
      SuffixOfTail(rh, b, CRLF);
      DoubleCrlf(b);
    } else {
      assert tail[|b|..] == DOUBLE_CRLF;
    }
    HeadIndex(rh, tail);
    assert (rh + tail)[|rh|..] == tail;
    SuffixFound(tail, DOUBLE_CRLF);
  }

  /** One with the body CRLF has none, and its offsets are those of the bare header. */
  lemma CrlfBody(rh: string, m: string)
    requires IsHead(rh)
    ensures Padded(rh + CRLF) == rh + CRLF
    ensures EncapsulatedValue(rh + CRLF, m) == EncapsulatedValue(rh, m)
  {
    HeadIndex(rh, CRLF);
    HeadIndex(rh, "");
    OneBlank(rh);
    assert rh + "" == rh && (rh + CRLF)[|rh|..] == CRLF;
    assert rh[|rh| - 2..] == DOUBLE_CRLF[2..];
    assert (rh + CRLF)[|rh| - 2..] == rh[|rh| - 2..] + CRLF == DOUBLE_CRLF;
    NoBlankInCrlf();
  }

  lemma NoBlankInCrlf()
    ensures FirstBlank(CRLF) == None
  {}

  /** The server refuses what the client prints for a response exactly when the accompanying
      request has a body, except for the body CRLF: then the response is announced two bytes
      early. */
  lemma RespmodRefused(request: Option<HttpDump>, h: string, p: string)
    requires IsHead(h) && (request.Some? ==> IsHead(request.value.head))
    requires |LeadOf(request)| + |h| <= Decimal.MAX_INT
    ensures var lead := LeadOf(request);
            var layout := Encapsulated.LayoutFor(Encapsulated.ParseItems(
                            TrimSpace(EncapsulatedValue(lead, h + Framed(p, false)))));
            && (layout == None <==> request.Some? && request.value.body != "" && request.value.body != CRLF)
            && (request.Some? && request.value.body == CRLF ==>
                  && lead == request.value.head + CRLF
                  && layout == Some(Encapsulated.LayoutOf(Respmod(request.value.head, h, p))))
  {
    if request == None {
      LeadRefused("", h, p);
      OneBlank("");
    } else {
      var rh, b := request.value.head, request.value.body;
      if b == CRLF {
        CrlfBody(rh, h + Framed(p, false));
        LeadRefused(rh, h, p);
        OneBlank(rh);
      } else if b == "" {
        HeadIndex(rh, "");
        assert rh + "" == rh;
        assert Padded(rh) == rh by { assert rh[|rh| - 4..] == DOUBLE_CRLF; }
        LeadRefused(rh, h, p);
        OneBlank(rh);
      } else {
        PaddedBlank(rh, b);
        LeadRefused(LeadOf(request), h, p);
      }
    }
  }

  // ---------------------------------------------------------------------------------
  // The remainder
  // ---------------------------------------------------------------------------------

  /** What `DoRemaining` sends (client.go:73-79). */
  function RemainderWire(rest: string): string {
    if BodyAlreadyChunked(rest) then rest else AddHexaBodyByteNotations(rest)
  }

  lemma RemainderChunk(rest: string)
    requires rest != "" && !BodyAlreadyChunked(rest)
    ensures RemainderWire(rest) == Chunked.Chunk(rest) + Chunked.LAST_CHUNK
  {
    assert CRLF + "0" + CRLF == CRLF + Chunked.LAST_CHUNK;
  }
}
