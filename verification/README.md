# Verification of the ICAP server's protocol core

A Dafny model of an ICAP server and its client library (RFC 3507), with machine-checked
proofs about it. The subject is the way a body travels: the client splits it into a preview
and a remainder and prints both as chunks; the server parses them over a connection that
delivers bytes in arbitrary segments, asks for the rest with "100 Continue", takes the
business decision, hands the message to a service, and prints a response. Around that core
stand the base64 treatment of request bodies, the extension arrays, the endpoint index with
its path matcher, the request multiplexer, and the counters of unmatched domains.

`dafny verify dfyconfig.toml` checks everything.

## How the model is built

| file | models |
|---|---|
| `Strings.dfy`, `Decimal.dfy`, `Hex.dfy` | Go's string functions, decimal and hexadecimal numbers |
| `Chunked.dfy` | `icap/chunked.go` over a segmented connection |
| `Encapsulated.dfy` | the Encapsulated header: scanning, cutting, printing |
| `IcapRequest.dfy` | `icap/request.go` |
| `IcapClient.dfy` | `icap-client`: preview, printing, "100 Continue" |
| `ChunkedPreviews.dfy` | why a preview that looks chunked never arrives |
| `PreviewProtocol.dfy` | client and server together, up to the reassembled body |
| `Leftover.dfy` | which segments of a framed preview leave bytes behind |
| `Response.dfy` | `icap/response.go` |
| `Base64.dfy` | `RegularFile` |
| `Extensions.dfy` | configuration check, scanning order and verdict |
| `Service.dfy` | echo in full, any other service as an arbitrary answer |
| `Business.dfy` | the recording decision |
| `Api.dfy` | the two-pass run of one request |
| `Runs.dfy` | what holds of every run; the exchange from body to response wire |
| `UrlMatcher.dfy` | `business/urlmatcher.go` |
| `Mux.dfy` | `icap/mux.go` |
| `Candidates.dfy` | `business/candidate_logger.go` |

Bytes are characters. A connection (`Chunked.Conn`) is the list of segments its buffered
reader will see, the segments the peer sends once it is told to continue, and the bytes
written so far; the end of the segments is the end of the stream. The chunk reader keeps the
private read-ahead buffer of the source, so the bytes that buffer still holds when the reader
is abandoned are lost to the connection, as they are in the program. How many bytes stay on the
connection instead (`Chunked.Stranded`) is a function of the segments alone; that they decide,
and not the callers' buffer sizes, is proved of every read. A read takes at most 4096 bytes of a
segment, the size of the connection's own buffer; a longer read past that buffer only ever fills
a header block or the data of one chunk, where it is the same as several. Readers, writers, the
parsed request and the running request are classes with the source's fields; each method is
proved against a specification function (`Decode`, `LayoutFor`, `Wire`, `Transcript`,
`BestOf`, `Next`, ...), and the main results are lemmas about those functions.

A run (`Api.ICAPRequest`) keeps a ghost log of what can be seen of it: the client told to go
on, a recording launched, a response written. Its invariant ties the log to the bytes on the
connection and to the recordings; `RequestProcessing` is proved to produce `Transcript`, and
`Runs.dfy` proves the protocol rules about every transcript.

What the model leaves to the environment is a parameter over which every statement is
quantified: the segmentation of the bytes, the callers' buffer sizes, the printer of ICAP
heads, the header printer of an HTTP message, the service's answer, the answers of tenant
validation and policy matching (`Business.Lookup`, one for each call), the regular expression
engine, the set of database writes that fail.

## Where the code does less than its documentation promises

Each of these is a theorem about the model of the code as it is.

- A chunked body cut inside the data of a chunk, or right behind it, ends like a complete one
  (`Chunked.TruncationNoticed` says exactly which cuts are noticed, for every list of chunks).
- The chunk reader stops behind the `0` line. If the CRLF that closes the preview comes in a
  later segment, it stays on the connection and reads as the end of the body: the remainder
  is lost. `PreviewProtocol.Deliver` has the exact condition in terms of the segments,
  `Leftover.ArrivesBySegments` reduces it to the length of the last segment, and
  `Leftover.CutLosesRemainder` has a losing segmentation for every such body.
- With a preview limit of 0, the client announces null-body and the server never asks for the
  body (`PreviewProtocol.Deliver`).
- A preview that looks chunked is sent as it is. It is refused or taken apart, and the body
  never arrives, not even together with the remainder (`PreviewProtocol.ChunkedPreviewLost`,
  `ChunkedPreviews.TwoPhases`). A remainder that looks chunked does not arrive either
  (`PreviewProtocol.Reassembly`).
- For a response whose accompanying request has a body, the client prints an Encapsulated list
  that the server refuses; for the body CRLF it prints one that announces the response two bytes
  early (`IcapClient.RespmodRefused`, `PreviewProtocol.CutTwoEarly`).
- A list with res-hdr in front of req-hdr is accepted and cut in the wrong order
  (`Encapsulated.CutExactly`).
- In REQMOD an error page goes out with null-body, because the request that carries it has
  lost its Content-Length (`Runs.ErrorPageSent`).
- A CONNECT body that looks like base64 comes back decoded (`Runs.EchoConnect`).
- A status outside the switch gets no response from the run and a default 200 from
  `finishRequest` (`Runs.OneResponse`).
- A configured path with a placeholder never reaches the placeholder matcher: its braces make
  it a regular expression (`UrlMatcher.PlaceholderIsRegex`).
- The two `application/` entries in the drop list of the candidate filter drop nothing
  (`Candidates.ApplicationAlwaysPasses`).

## Model

| member | source | states |
|---|---|---|
| `Hex.ParseHexUint` | icap/chunked.go:165-181 | the shift-and-or loop on 64-bit words computes the positional hexadecimal value modulo 2^64, or fails on any other character |
| `Hex.ShiftOr` | icap/chunked.go:167-178 | shifting a 64-bit word left by four and or-ing a digit in is one step of positional evaluation modulo 2^64 |
| `Hex.ParseFormat` | icap/chunked.go:145 | parsing inverts the writer's `%x`, for every length up to reduction modulo 2^64 |
| `Hex.LeadingZero` | icap/chunked.go:165-181 | leading zeros do not change a chunk length |
| `Hex.CaseInsensitive` | icap/chunked.go:165-181 | upper and lower case digits mean the same |
| `Hex.DigitTable` | icap/chunked.go:167-177 | the digits are the sixteen of either case and no other character |
| `Decimal.AtoiRange` | icap/request.go:87-125 | numbers with or without a minus sign are read back, up to the ends of the 64-bit range |
| `Chunked.TrimTrailingWhitespace` | icap/chunked.go:105-114 | the loop removes exactly the spaces, tabs, carriage returns and newlines at the end |
| `Chunked.TrimmedExactly` | icap/chunked.go:105-114 | a space, tab, newline or carriage return at the end goes, and nothing else does |
| `Chunked.ChunkedReader.ReadLine` | icap/chunked.go:88-103 | over any segments, a size line is what ends at the first newline within the buffer, trimmed; too long and unterminated lines give their errors; which refills it takes is settled by the segments |
| `Chunked.ChunkedReader.BeginChunk` | icap/chunked.go:42-56 | starting a chunk does not change what will be delivered; end of body, bad length and line errors are the ones the bytes mean |
| `Chunked.ChunkedReader.Read` | icap/chunked.go:58-82 | what one read delivers followed by what is still to come is what was to come before, for every buffer size and segmentation, and so is what will stay on the connection; a call without an error makes progress |
| `Chunked.ReadAll` | icap/chunked.go:58-82 | draining the reader gives exactly the decoded data, the decoded error, leaves exactly the undecoded rest, and as much of it on the connection as the segments say, whatever the buffer sizes |
| `Chunked.CodecRoundTrip` | icap/chunked.go:138-163 | decoding any list of writes and the last chunk gives the concatenation of the writes and stops right behind the `0` line |
| `Chunked.Transfer` | icap/chunked.go:42-82 | the same over running reader objects: every list of writes, every segmentation, every sequence of buffer sizes |
| `Chunked.WriteAll` | icap/chunked.go:138-163 | writing pieces and closing puts one chunk per non-empty piece and one last chunk on the connection |
| `Chunked.TruncationNoticed` | icap/chunked.go:68-80 | for every list of writes and every cut: a cut body is reported as complete exactly when the cut falls inside or right behind the data of some chunk, and everything in front of the cut was delivered |
| `Chunked.LongLine` | icap/chunked.go:88-103 | a size line without a newline among its first 4095 bytes is an error, 4096 bytes are gone |
| `Chunked.BadLine` | icap/chunked.go:42-56 | a size line with any character that is no digit is a bad length, and what is behind it stays |
| `Chunked.BadEnd` | icap/chunked.go:73-80 | a chunk that two other bytes follow than CRLF is malformed, its data delivered |
| `Encapsulated.Scan` | icap/request.go:87-125 | the loop accepts exactly the lists of known keys with a body key only at the end, and computes the announced header lengths |
| `Encapsulated.BodyKeyLast` | icap/request.go:87-125 | an accepted list has at most one body key, in the last position, and it alone decides about a body |
| `Encapsulated.CutExactly` | icap/request.go:127-149 | for an accepted ordered list without repeats, every stream is cut into exactly the announced blocks if and only if no non-empty res-hdr precedes a non-empty req-hdr |
| `Encapsulated.CutSwapped` | icap/request.go:127-149 | a stream on which the swapped list is cut wrongly |
| `Encapsulated.PrintRoundTrip` | icap-client/parser.go:56-88 | parsing a printed list gives the list back |
| `Encapsulated.KeyNames` | icap/request.go:96-124 | how each section is printed, and which of them announce a body (section 4.4.1 of RFC 3507) |
| `Encapsulated.KeyOfExactly` | icap/request.go:96-124 | a section is known by exactly its name |
| `Encapsulated.ItemExactly` | icap/request.go:88-95 | an item is a name, an equals sign and a number, or it is refused |
| `IcapRequest.ReadBlocks` | icap/request.go:127-149 | the header blocks are the announced slices of the stream, and what is left is the stream behind them, segment by segment |
| `IcapRequest.ReadPreview` | icap/request.go:151-169 | the preview is what the chunks mean, the end indicator says how it ended, and what stays on the connection is the end of the undecoded rest of exactly the length the segments give |
| `IcapRequest.EndIndicatorExactly` | icap/request.go:153-169 | a clean end means more to come, a size line with "ieof" in it the whole body, and any other error refuses the request |
| `IcapRequest.ReadRequest` | icap/request.go:53-226 | a request is read exactly when its list is accepted and the stream is long enough, and then holds the announced blocks and the body the bytes mean |
| `IcapRequest.ContinueReader.Read` | icap/request.go:246-260 | the first read writes "100 Continue" once and releases the remainder; later ones only deliver |
| `IcapRequest.ReadRest` | api/icap-request.go:568-577 | draining gives the preview followed by everything decoded behind "100 Continue" |
| `IcapClient.Request.SetPreview` | icap-client/header.go:12-83 | preview and remainder put together are the body; the fitted flag is set exactly for a non-empty body within the limit |
| `IcapClient.Request.OnResponse` | icap-client/client.go:62-79 | the remainder goes out exactly on a 100 to a preview that did not hold the whole body |
| `IcapClient.Request.DumpRequest` | icap-client/request.go:55-156 | the printed message is the header, the framed preview and the full-body indicator, behind a blank-line padded request in RESPMOD |
| `IcapClient.EndsChunkedExactly` | icap-client/parser.go:127 | the expression matches exactly the texts that end with a zero on its own line and one or more line breaks |
| `IcapClient.BodyAlreadyChunkedExactly` | icap-client/parser.go:120-130 | a message looks chunked exactly when such a text is behind its first blank line |
| `IcapClient.DumpChunked` | icap-client/request.go:108-134 | a complete chunked body with a closing line break is printed as it is |
| `IcapClient.FramedPlain` | icap-client/parser.go:151-156 | any other part of a body is printed as one chunk, `0` or `0; ieof`, and a blank line |
| `IcapClient.FramedRaw` | icap-client/request.go:83-134 | one that looks chunked is printed with two line breaks at its end at least, the full-body indicator in place of the last two |
| `IcapClient.RemainderExactly` | icap-client/client.go:71-79 | the remainder goes out as one chunk and the last one, or as it is when it looks chunked |
| `IcapClient.PaddedExactly` | icap-client/request.go:98-102 | the padding adds the fewest line breaks that make the request end with a blank line |
| `IcapClient.FramedFull` | icap-client/parser.go:100-103 | replacing the end of a framed body by the full-body indicator gives the framing with `0; ieof` |
| `IcapClient.ReqmodSections` | icap-client/parser.go:56-88 | the REQMOD value lists the request header and a body exactly when something is sent |
| `IcapClient.RespmodSections` | icap-client/parser.go:56-88 | the RESPMOD value lists the headers in order at their true offsets |
| `IcapClient.RespmodRefused` | icap-client/parser.go:60-88 | the server refuses the printed RESPMOD value exactly when the accompanying request has a body other than CRLF; for CRLF the response is announced two bytes early |
| `PreviewProtocol.PreviewDecoded` | icap/request.go:151-169 | a framed preview decodes to itself, ending with `0` or `0; ieof` as it was framed |
| `PreviewProtocol.StrayLine` | icap/chunked.go:49-55 | any leftover of the closing CRLF reads as the end of the body and hides everything behind it |
| `PreviewProtocol.Reassembly` | icap/request.go:246-264 | the remainder arrives if and only if nothing of the closing CRLF is left and it does not look chunked |
| `PreviewProtocol.CutTwoEarly` | icap/request.go:127-149 | then header and body are cut two bytes early and the body is lost |
| `PreviewProtocol.ChunkedPreviewLost` | icap-client/parser.go:120-130 | a preview that looks chunked never comes back from decoding, with or without the full-body indicator |
| `PreviewProtocol.ChunkedPreviewUnwrapped` | icap-client/parser.go:120-130 | a complete chunked body sent as preview is unwrapped by the server |
| `ChunkedPreviews.Locate` | icap/chunked.go:42-82 | every decoded byte comes from a chunk behind its size line, with everything around it, and later data is at least four bytes further on |
| `ChunkedPreviews.OnePhase` | icap-client/client.go:62-79 | a body that is a chunk-looking preview never arrives, whatever the server reads on |
| `ChunkedPreviews.TwoPhases` | icap-client/client.go:62-79 | nor does one whose preview looks chunked, whatever of the preview stays on the connection in front of the remainder |
| `Leftover.LeftOfPreview` | icap/chunked.go:27-56 | with less than three bytes in the last segment of a framed preview something of the blank line stays behind; otherwise nothing does, when that segment fits into the buffer |
| `Leftover.ArrivesBySegments` | icap/request.go:246-264 | so an unfinished body arrives only with three bytes or more in that segment, and exactly then when it fits |
| `Leftover.CutLosesRemainder` | icap/request.go:246-264 | the cut in front of the closing CRLF loses the remainder of every such body |
| `PreviewProtocol.PrintedLayout` | icap-client/parser.go:45-89 | scanning the printed Encapsulated value gives the lengths of the printed blocks |
| `PreviewProtocol.Receive` | icap/request.go:87-173 | a printed message is refused exactly when its preview is malformed; otherwise header blocks, preview, indicator and what stays behind are those of its bytes and segments, whatever the buffer sizes |
| `PreviewProtocol.AssembledExactly` | icap/request.go:246-264 | preview and remainder put together are the client's body if and only if the preview does not look chunked and is the whole body, or the limit is positive, nothing stays behind, and the remainder does not look chunked |
| `PreviewProtocol.Deliver` | icap-client/client.go:62-79 | end to end, for every body, limit, segmentation and buffer sizes: the request is accepted and the server ends up with the client's body if and only if that condition holds of the segments the preview comes in; for previews that do not look chunked the indicator is `0; ieof` exactly for a non-empty body within a positive limit, and "100 Continue" is sent exactly for an unfinished preview |
| `Response.RespWriter.WriteHeader` | icap/response.go:75-158 | the first call puts the head for its code on the wire, for a list spelled out by kind of message and body, then the header block and the chunk; a later call adds nothing |
| `Response.OpeningExactly` | icap/response.go:86-148 | head, list and header block for each kind of message |
| `Response.RespWriter.Write` | icap/response.go:58-67 | data is accepted exactly when there is a body; the first write settles a 200 with a body |
| `Response.RespWriter.FinishRequest` | icap/response.go:160-172 | finishing closes an open body once, and writes a default header when there was none |
| `Response.Respond` | icap/response.go:58-172 | for every sequence of calls the wire is one header block and, with a body, one chunk for each accepted piece and one end |
| `Response.WireExactly` | icap/response.go:58-172 | the wire of any calls starts with the head for the code of the settling call, or 200, and the list for its message |
| `Response.WireBody` | icap/response.go:125-172 | the body on the wire decodes to the message body and all accepted writes, followed by one blank line |
| `Response.ResponseReadable` | icap/response.go:86-121 | scanning the printed Encapsulated value and cutting gives back header and body |
| `Base64.RecognisedExactly` | service/services-utilities/ContentTypes/regularFile.go:16-24 | the pattern matches exactly the texts of a length divisible by four with alphabet characters and at most two closing paddings |
| `Base64.AlphabetTable` | service/services-utilities/ContentTypes/regularFile.go:16-33 | the 64 characters in their order (table 1 of RFC 4648) |
| `Base64.QuantumBits` | service/services-utilities/ContentTypes/regularFile.go:16-24 | four characters and three bytes are the same 24 bits, in the same order |
| `Base64.PaddedBits` | service/services-utilities/ContentTypes/regularFile.go:16-24 | padded quanta are the first bits of one or two bytes |
| `Base64.EncodeDecode` | service/services-utilities/ContentTypes/regularFile.go:16-33 | encoding what was decoded gives the canonical form of any recognised text |
| `Base64.DecodeEncode` | service/services-utilities/ContentTypes/regularFile.go:27-33 | every encoder output is recognised, decodes back, and is canonical (section 4 of RFC 4648) |
| `Base64.CanonicalExactly` | service/services-utilities/ContentTypes/regularFile.go:16-33 | a recognised text is canonical exactly when its pad bits are zero (section 3.5 of RFC 4648) |
| `Base64.CanonicalForm` | service/services-utilities/ContentTypes/regularFile.go:16-33 | canonicalisation is idempotent, stays recognised and keeps the decoded bytes |
| `Base64.CanonicalChange` | service/services-utilities/ContentTypes/regularFile.go:16-33 | it changes at most the character in front of the padding |
| `Base64.ScanUnchanged` | service/services-utilities/ContentTypes/regularFile.go:16-33 | decoding for scanning and re-encoding is that canonicalisation, and nothing on other bodies |
| `Base64.PassedThroughExactly` | service/services-utilities/ContentTypes/regularFile.go:16-33 | a body passes unchanged exactly when it is not recognised or has no stray pad bits; passing twice is passing once |
| `Extensions.Validate` | config/config.go:84-155 | the loops accept exactly the triples of distinct entries with asterisks standing alone and one asterisk array |
| `Extensions.InitExtsArr` | service/services-utilities/extension.go:34-60 | with one asterisk array the slots hold each array once, the asterisk array last |
| `Extensions.CheckTheExtension` | service/services-utilities/general-functions/general-functions.go:74-133 | scanning any such order of a valid triple gives the array that lists the extension, else the asterisk array |
| `Extensions.ListedOnce` | config/config.go:84-155 | in a valid triple no extension is in two arrays, so the verdict does not depend on the order |
| `Extensions.VerdictExactly` | service/services-utilities/general-functions/general-functions.go:163-171 | an extension goes to the array that lists it, and one that none lists to the asterisk array |
| `Service.EchoProcessing` | service/services/echo/echo.go:16-117 | 100 and an untouched message for a partial body; otherwise status, message, length and body by verdict, size and method |
| `Business.BusinessLogicHandler.ProcessRequest` | business/handler.go:203-344 | 400 exactly without an identity or for an invalid tenant; a recording of the whole body, deferred for a preview, exactly for a policy with the action "record" and the flow "egress" or "both" in either case; the message keeps its body |
| `Business.DecideExactly` | business/handler.go:301-340 | the decision in the same terms |
| `Api.ICAPRequest.ApplyBusiness` | api/icap-request.go:246-279 | the business logic is asked once, and again only for a deferred recording and a complete body |
| `Api.ICAPRequest.Reply` | api/icap-request.go:319-379 | the response to each status of a service |
| `Api.ICAPRequest.RespAndReqMods` | api/icap-request.go:223-381 | a pass over a preview continues once and passes over the whole body; the recursion ends |
| `Api.ICAPRequest.RequestProcessing` | api/icap-request.go:142-215 | every run is its transcript over the completed body, on the wire and in the recordings |
| `Runs.OneResponse` | api/icap-request.go:319-379 | a run writes exactly one response, last, exactly when it is refused or the status is an answered one |
| `Runs.ContinueRule` | icap/request.go:246-260 | "100 Continue" is sent at most once, first, and exactly for an unfinished preview whose first lookup has an identity and a valid tenant |
| `Runs.RecordingSafety` | business/handler.go:312-336 | at most one recording per run, of the whole body, launched exactly when the policy of each call says "record" for "egress" or "both", letter for letter in either case |
| `Runs.StatusWire` | api/icap-request.go:319-379 | the whole wire by the service's status: 408, 500 and an allowed 204 are a head with null-body; 200 and 400 carry the service's message; a 204 that is not allowed is a 200 with it in RESPMOD; anything else is an empty 200 |
| `Runs.RefusalWire` | api/icap-request.go:246-279 | a refusal is an empty 400, at once or behind "100 Continue" |
| `Runs.NoContentExactly` | api/icap-request.go:349-353 | a 204 goes out exactly when the run gets to a service that answers so and the Allow header has 204 in its value |
| `Runs.NoModificationRule` | api/icap-request.go:349-367 | otherwise, on a REQMOD "no modification" of any service, the finished wire is a 200 with the whole original body and its length, behind one "100 Continue" if there was a preview, and the body decodes to the original |
| `Runs.EchoFidelity` | service/services/echo/echo.go:29-116 | the finished wire of a processed body carries it as itself in RESPMOD and base64-canonical in REQMOD, with its length, and it decodes to that |
| `Runs.EchoBypass` | service/services-utilities/general-functions/general-functions.go:110-129 | the finished wire of a bypassed body is an allowed 204 or carries it unchanged |
| `Runs.EchoRejected` | service/services-utilities/general-functions/general-functions.go:86-91 | a rejected extension without pages is an empty 400 |
| `Runs.EchoOversized` | service/services/echo/echo.go:84-110 | a body over the limit that is to be returned is an allowed 204 or comes back unchanged |
| `Runs.EchoConnect` | service/services/echo/echo.go:29-116 | the finished wire of a CONNECT body carries it as scanned: unchanged exactly in RESPMOD, when empty or when not recognised |
| `Runs.ErrorPageSent` | service/services-utilities/general-functions/general-functions.go:86-109 | the page for a rejected extension or an exceeded size limit is on the finished wire, with its length, in RESPMOD; in REQMOD the wire has null-body |
| `Runs.Serve` | api/icap-request.go:142-381 | wire and recordings of a run, finished, are those of its transcript |
| `Runs.PlainBody` | icap/request.go:170-172 | without a preview the run works on everything the chunks mean, and without a body on nothing |
| `Runs.Exchange` | icap-client/client.go:16-93 | from the client's body to the response wire: a refused preview gets nothing; otherwise wire and recordings are those of the run, and it runs on the client's body exactly when that arrives |
| `Runs.EchoExchange` | service/services/echo/echo.go:29-116 | whenever the body arrives, the response wire carries the client's whole body, in REQMOD in canonical form, behind one "100 Continue" at most, and the body is recorded exactly when each decision says so |
| `Runs.SentBackRead` | icap/response.go:86-172 | a reader of that response finds the header block, a body exactly when it is not empty, and decodes it to what was sent |
| `Runs.EchoedExactly` | service/services-utilities/ContentTypes/regularFile.go:27-33 | the body that comes back is the one sent exactly in RESPMOD, or when not recognised, or when canonical |
| `UrlMatcher.URLMatcher.Refresh` | business/urlmatcher.go:79-148 | grouping is stable: under each base URL the rows that scan, in query order; a failed query leaves the index as it was |
| `UrlMatcher.EntryExactly` | business/urlmatcher.go:119-137 | a row is listed under its protocol and domain in lower case without white space around them, with one path or none |
| `UrlMatcher.EntriesExactly` | business/urlmatcher.go:111-118 | rows that do not scan are skipped and the others keep their order |
| `UrlMatcher.URLMatcher.Candidates` | business/urlmatcher.go:287-308 | the rows of the exact base, else of the other scheme, else all rows of eligible wildcard bases |
| `UrlMatcher.GroupScan` | business/urlmatcher.go:310-320 | scanning a group finds the first matching row of that base in query order |
| `UrlMatcher.URLMatcher.MatchURL` | business/urlmatcher.go:257-346 | a lookup through the index is the linear scan of the rows; a match has what the tenant's record says of the tool, a failing query fails the lookup |
| `UrlMatcher.MethodMatchesExactly` | business/urlmatcher.go:37-47 | a row fits a request when its method is blank or an asterisk, or the request's, in either case and between white space |
| `UrlMatcher.AltBaseExactly` | business/urlmatcher.go:280-285 | the alternate base leads from http to https and back, and from nothing else anywhere |
| `UrlMatcher.FallbackExactly` | business/urlmatcher.go:298-306 | a starred base is eligible when what is left without the star is an end of the request's base under either scheme |
| `UrlMatcher.RequestPathNorm` | business/urlmatcher.go:270-276 | the slashes added to the request path make no difference to matching |
| `UrlMatcher.EveryAnswerFromOneSnapshot` | business/urlmatcher.go:140-142 | however lookups and refreshes interleave, every answer is the linear scan of one whole snapshot, the one current when the lookup copied its rows |
| `UrlMatcher.PathSegmentMatch` | business/urlmatcher.go:170-188 | segment lists of equal length, equal but for placeholders, which stand for one non-empty segment |
| `UrlMatcher.SegmentMatchOfSegments` | business/urlmatcher.go:170-188 | the same for paths written from segments |
| `UrlMatcher.PlaceholderIsRegex` | business/urlmatcher.go:191-217 | a path with a placeholder segment counts as a regular expression |
| `UrlMatcher.PlaceholderExactly` | business/urlmatcher.go:16-19 | a placeholder is something between braces, and white space around them |
| `UrlMatcher.RegexExactly` | business/urlmatcher.go:191-193 | the thirteen characters that make a path a regular expression |
| `UrlMatcher.RegexPathExactly` | business/urlmatcher.go:217-234 | an expression that compiles has to match the whole request path, with or without its last slash |
| `UrlMatcher.PathMatchesScan` | business/urlmatcher.go:200-253 | the loop finds out whether some configured path matches |
| `UrlMatcher.LiteralPaths` | business/urlmatcher.go:236-250 | literal paths match under "record" exactly when equal after trimming slashes, otherwise exactly when equal so or a slash-terminated prefix |
| `UrlMatcher.LiteralPathsBySegments` | business/urlmatcher.go:236-250 | without empty segments: equal segment lists under "record", otherwise a prefix of the segment list |
| `Mux.CleanIdempotent` | icap/mux.go:44-58 | cleaning a clean path changes nothing, for every path |
| `Mux.WalkRules` | icap/mux.go:51 | empty elements and dots vanish, two dots take the element in front of them away or nothing at the root, others stay |
| `Mux.CleanElements` | icap/mux.go:51 | cleaning a path is walking its elements |
| `Mux.CleanSlash` | icap/mux.go:44-58 | a slash at the end stays, and a path without a leading one gets it |
| `Mux.TreeMatches` | icap/mux.go:31-41 | a tree matches exactly what lies under it |
| `Mux.LeafMatches` | icap/mux.go:31-41 | any other pattern matches exactly itself |
| `Mux.BestUnique` | icap/mux.go:62-75 | there is only one longest matching pattern |
| `Mux.ServeMux.Match` | icap/mux.go:62-75 | visiting the map in any order gives its handler |
| `Mux.ServeMux.Handle` | icap/mux.go:98-111 | registering a tree registers the redirect to it; a clean pattern keeps every redirect leading into a registered tree; where nothing matched, the new handler is the match |
| `Mux.ServeMux.ServeICAP` | icap/mux.go:79-95 | redirect to the clean path, else the host-specific match, else the path's match, else not found |
| `Mux.DispatchExactly` | icap/mux.go:79-95 | an unclean path is redirected; otherwise the best match of host and path is before that of the path, before not found |
| `Mux.LocationExactly` | icap/mux.go:158-193 | a redirect leads to the clean form of its path, a relative one behind the directory of the old path, and keeps the query |
| `Mux.CleanSettles` | icap/mux.go:158-193 | on a clean path, a redirect leads into a registered tree, and there a handler is reached |
| `Mux.Settles` | icap/mux.go:79-111 | with clean patterns every request reaches a handler or not-found after at most two redirects |
| `Candidates.ApplicationAlwaysPasses` | business/candidate_logger.go:105-123 | a content type that starts with `application/` is never dropped |
| `Candidates.ContentTypeExactly` | business/candidate_logger.go:105-123 | in either case: application types, JSON, event streams and form data pass, and everything else but pages, images, fonts and style sheets |
| `Candidates.PreFilterExactly` | business/candidate_logger.go:99-137 | a POST or PUT in either case, of such a type, to a domain that is not listed nor under one listed with a dot |
| `Candidates.CandidateLogger.Observe` | business/candidate_logger.go:41-48 | the domain's counter grows by one exactly when the filter accepts; every other counter stays |
| `Candidates.CandidateLogger.Flush` | business/candidate_logger.go:69-95 | written in any order, the table grows by the snapshot except for the failed upserts; the counters are empty |
| `Candidates.Conservation` | business/candidate_logger.go:41-95 | in every interleaving, per domain, accepted observations are in the counters, the snapshot, the table or lost by failed upserts |
| `Candidates.FinalFlushExact` | business/candidate_logger.go:55-95 | after a final flush without later observations the table is short by exactly what failed upserts lost, hence exact without failures |

## Left out

- IcapClient.Request.DumpRequest: the message dumps of `net/http/httputil` are a header block with one blank line at its end and a body; `Validate`, the ICAP head and the request line rewriting are not modelled.
- IcapRequest.ReadRequest: the ICAP head and the HTTP header blocks are not parsed; the values of Encapsulated and Preview are parameters, and a block that `http.ReadRequest` refuses is not modelled.
- PreviewProtocol.Deliver: the request that accompanies a response has no body; `RespmodRefused` and `CutTwoEarly` say what happens to one that has.
- PreviewProtocol.Deliver: pipelined requests on one connection are not modelled, the client stops and waits as section 4.5 of RFC 3507 has it.
- Api.ICAPRequest: `OrgRequest` is a request of its own that shares its header map; the alias after a failing `http.NewRequest` is not modelled.
- Api.ICAPRequest: shadow mode answers while the service still runs, so no sequential contract fits; OPTIONS only prints headers.
- Api.ICAPRequest.Reply: the X-ICAP-Metadata and log headers are not modelled; the printer of ICAP heads is a parameter.
- Response.RespWriter: `WriteRaw` is not modelled; Content-Length is the only HTTP header that is.
- Service.Service: services besides echo only take part with an arbitrary answer after a 100 for every preview; ClamAV, hash lookup and the 206 case are foreign calls and sleeps.
- Service.EchoProcessing: multipart bodies, JSON bodies with a Base64 key, gzip and MIME sniffing are library behaviour; the extension of a file is an arbitrary function of its bytes.
- Business.BusinessLogicHandler: identity, tenant and policy lookups are a parameter for each call; SQS, S3 and LDAP, and what the recording contains besides the body, are not modelled.
- UrlMatcher.URLMatcher.MatchURL: in the wildcard fallback the map order decides between eligible bases, so only eligibility is stated; URL parsing is a parameter.
- UrlMatcher.OnePath: regular expressions are an uninterpreted predicate.
- Mux.Location: redirect URLs are taken to parse and to have no scheme, which holds for those that registering a tree adds.
- Candidates.CandidateLogger: counters are unbounded instead of 64-bit, a failed upsert is taken to have written nothing, and the ticker is any schedule of the one flush loop.
- Candidates.PreFilter: the denylist is a parameter; its built-in entries and the environment variable that extends it are not modelled.
- Strings.TrimSpace: ASCII white space and case only.
- Operations: sockets, TLS, timeouts, the accept loop, panic recovery, block pages, logging and configuration files.
- Other client code: `ReadResponse` and the unused `chunkBodyByBytes`, which omits the CRLF behind chunk data.
