/** Which bytes of a framed preview stay behind on the connection, in terms of the segments
    it comes in. */
module Leftover {
  import opened Strings
  import opened Chunked
  import opened IcapRequest
  import opened PreviewProtocol
  import Client = IcapClient
  import Hex

  /** How many bytes lie behind the segment that brings the `k`-th byte. */
  ghost function Behind(segs: seq<string>, k: nat): nat {
    if k == 0 || segs == [] then |Flatten(segs)|
    else if k <= |segs[0]| then |Flatten(segs[1..])|
    else Behind(segs[1..], k - |segs[0]|)
  }

  /** The same for a reader that has some of the bytes in its buffer already. */
  ghost function Target(b: string, segs: seq<string>, k: nat): nat {
    if k <= |b| then |Flatten(segs)| else Behind(segs, k - |b|)
  }

  /** The bytes of a size line in front of its newline. */
  const LONGEST_LINE := 17

  /** The segment that brings the `k`-th byte fits into a buffer that holds a part of a size
      line. */
  predicate SmallAt(segs: seq<string>, k: nat) {
    if k == 0 || segs == [] then true
    else if k <= |segs[0]| then |segs[0]| + LONGEST_LINE <= MAX_LINE
    else SmallAt(segs[1..], k - |segs[0]|)
  }

  predicate Small(b: string, segs: seq<string>, k: nat) {
    k <= |b| || SmallAt(segs, k - |b|)
  }

  /** A refill never reaches into the next segment, and a segment that fits comes whole. */
  lemma RefillTarget(b: string, segs: seq<string>, held: nat, k: nat)
    requires Segments(segs) && segs != [] && held < MAX_LINE && |b| < k
    ensures var n := Refill(held, segs);
            && Target(b + segs[0][..n], Drop(segs, n), k) >= Target(b, segs, k)
            && (held <= LONGEST_LINE && Small(b, segs, k) ==>
                  && Small(b + segs[0][..n], Drop(segs, n), k)
                  && Target(b + segs[0][..n], Drop(segs, n), k) == Target(b, segs, k))
  {
    var n := Refill(held, segs);
    if n < |segs[0]| {
      var cut := [segs[0][n..]] + segs[1..];
      assert cut[1..] == segs[1..];
      assert Flatten(cut) == segs[0][n..] + Flatten(segs[1..]);
    } else {
      assert Drop(segs, n) == segs[1..] by { assert Drop(segs[1..], 0) == segs[1..]; }
    }
  }

  /** The state (b', segs') of a reader is reached from (b, segs) by refills, none of which
      passes the segment that brings the `k`-th byte before that byte is there. */
  ghost predicate Reached(b: string, segs: seq<string>, b': string, segs': seq<string>, k: nat) {
    && Segments(segs) && Segments(segs')
    && b' + Flatten(segs') == b + Flatten(segs)
    && Target(b', segs', k) >= Target(b, segs, k)
    && (Small(b, segs, k) ==> Small(b', segs', k) && Target(b', segs', k) == Target(b, segs, k))
  }

  lemma ReachedAtOnce(b: string, segs: seq<string>, k: nat)
    requires Segments(segs)
    ensures Reached(b, segs, b, segs, k)
  {}

  lemma ReachedByRefill(b: string, segs: seq<string>, held: nat, k: nat)
    requires Segments(segs) && segs != [] && held <= LONGEST_LINE && |b| < k
    ensures var n := Refill(held, segs);
            Reached(b, segs, b + segs[0][..n], Drop(segs, n), k)
  {
    var n := Refill(held, segs);
    RefillTarget(b, segs, held, k);
    RefillShrinks(held, segs);
    Associative(b, segs[0][..n], Flatten(Drop(segs, n)));
  }

  lemma ReachedTrans(b: string, segs: seq<string>, b1: string, segs1: seq<string>, b2: string, segs2: seq<string>,
                     k: nat)
    requires Reached(b, segs, b1, segs1, k) && Reached(b1, segs1, b2, segs2, k)
    ensures Reached(b, segs, b2, segs2, k)
  {
  }

  /** Refilling until the line is there, up to position `i`. */
  lemma {:induction false} ToLine(b: string, segs: seq<string>, i: nat, k: nat) returns (b': string, segs': seq<string>)
    requires Segments(segs) && i <= LONGEST_LINE && i < k && Index(b + Flatten(segs), "\n") == Some(i)
    ensures Reached(b, segs, b', segs', k) && i < |b'| && Index(b', "\n") == Some(i)
    ensures LeftAtLine(b, segs) == LeftBehindLine(b', i, segs')
    decreases |Flatten(segs)|
  {
    NewlineIn(b, Flatten(segs), i);
    if i < |b| {
      b', segs' := b, segs;
      ReachedAtOnce(b, segs, k);
    } else {
      assert |Flatten(segs)| > 0;
      var n := Refill(|b|, segs);
      RefillShrinks(|b|, segs);
      ReachedByRefill(b, segs, |b|, k);
      b', segs' := ToLine(b + segs[0][..n], Drop(segs, n), i, k);
      ReachedTrans(b, segs, b + segs[0][..n], Drop(segs, n), b', segs', k);
    }
  }

  /** The newline is in the first part when that is long enough. */
  lemma NewlineIn(b: string, rest: string, i: nat)
    requires Index(b + rest, "\n") == Some(i)
    ensures Index(b, "\n") == if i < |b| then Some(i) else None
  {
    if i < |b| {
      assert (b + rest)[i..i + 1] == b[i..i + 1];
      forall j: nat | j < i ensures !At(b, j, "\n") {
        assert (b + rest)[j..j + 1] == b[j..j + 1];
        assert !At(b + rest, j, "\n");
      }
      IndexIs(b, "\n", i);
    } else {
      var r := Index(b, "\n");
      if r.Some? { NewlineInPrefix(b, b + rest, r.value); }
    }
  }

  /** Refilling until a chunk and its CRLF are there. */
  lemma {:induction false} ToChunkEnd(n: nat, b: string, segs: seq<string>, k: nat)
    returns (b': string, segs': seq<string>)
    requires Segments(segs) && n + 2 <= k && n + 2 <= |b + Flatten(segs)|
    ensures Reached(b, segs, b', segs', k) && n + 2 <= |b'|
    ensures LeftInChunk(n, b, segs) == LeftInChunk(n, b', segs')
    decreases |Flatten(segs)|
  {
    if n + 2 <= |b| {
      b', segs' := b, segs;
      ReachedAtOnce(b, segs, k);
    } else {
      assert |Flatten(segs)| > 0;
      var m := Refill(0, segs);
      RefillShrinks(0, segs);
      ReachedByRefill(b, segs, 0, k);
      b', segs' := ToChunkEnd(n, b + segs[0][..m], Drop(segs, m), k);
      ReachedTrans(b, segs, b + segs[0][..m], Drop(segs, m), b', segs', k);
    }
  }

  /** Bytes in the buffer are done with. */
  lemma Consumed(b: string, segs: seq<string>, full: string, segs': seq<string>, n: nat, k: nat)
    requires Reached(b, segs, full, segs', n + k) && n <= |full|
    ensures Passed(b, segs, full[n..], segs', n, k)
    ensures full[n..] + Flatten(segs') == (b + Flatten(segs))[n..]
  {
    assert (full + Flatten(segs'))[n..] == full[n..] + Flatten(segs');
  }

  // ---------------------------------------------------------------------------------
  // A framed preview
  // ---------------------------------------------------------------------------------

  /** A size line in front of everything else. */
  lemma LineFirst(line: string, rest: string)
    requires '\n' !in line
    ensures Index(line + CRLF + rest, "\n") == Some(|line| + 1)
    ensures (line + CRLF + rest)[|line| + 2..] == rest
  {
    var s := line + CRLF + rest;
    AtFirstByte(s, "\n");
    assert forall j | 0 <= j <= |line| :: s[j] != '\n';
    assert s[|line| + 1..|line| + 2] == "\n";
    IndexIs(s, "\n", |line| + 1);
  }

  /** The text of a line that is in the buffer. */
  lemma LineText(b: string, rest: string, line: string, tail: string)
    requires b + rest == line + CRLF + tail && |line| + 2 <= |b|
    requires line == "" || !IsAsciiSpace(line[|line| - 1])
    ensures Trimmed(b[..|line| + 2]) == line
  {
    assert b[..|line| + 2] == (b + rest)[..|line| + 2] == line + CRLF;
    TrimCrlf(line);
  }

  /** The reader has come from (b, segs) to (b', segs'), `n` bytes further on. */
  ghost predicate Passed(b: string, segs: seq<string>, b': string, segs': seq<string>, n: nat, k: nat) {
    && Target(b', segs', k) >= Target(b, segs, n + k)
    && (Small(b, segs, n + k) ==> Small(b', segs', k) && Target(b', segs', k) == Target(b, segs, n + k))
  }

  /** One size line of the stream, `tail` behind it. */
  lemma AcrossLine(b: string, segs: seq<string>, line: string, tail: string, k: nat)
    returns (b': string, segs': seq<string>)
    requires Segments(segs) && b + Flatten(segs) == line + CRLF + tail
    requires '\n' !in line && |line| < LONGEST_LINE && (line == "" || !IsAsciiSpace(line[|line| - 1]))
    ensures Segments(segs') && b' + Flatten(segs') == tail
    ensures LeftAtLine(b, segs) == LeftBehindSize(line, b', segs')
    ensures Passed(b, segs, b', segs', |line| + 2, k)
  {
    LineFirst(line, tail);
    var full;
    full, segs' := ToLine(b, segs, |line| + 1, |line| + 2 + k);
    LineText(full, Flatten(segs'), line, tail);
    Consumed(b, segs, full, segs', |line| + 2, k);
    b' := full[|line| + 2..];
  }

  /** One chunk of the stream and its CRLF. */
  lemma AcrossChunk(b: string, segs: seq<string>, data: string, tail: string, k: nat)
    returns (b': string, segs': seq<string>)
    requires Segments(segs) && b + Flatten(segs) == data + CRLF + tail
    ensures Segments(segs') && b' + Flatten(segs') == tail
    ensures LeftInChunk(|data|, b, segs) == LeftAtLine(b', segs')
    ensures Passed(b, segs, b', segs', |data| + 2, k)
  {
    var full;
    var n := |data|;
    full, segs' := ToChunkEnd(n, b, segs, n + 2 + k);
    PairBehind(full, Flatten(segs'), data, tail);
    Consumed(b, segs, full, segs', n + 2, k);
    b' := full[n + 2..];
  }

  lemma PairBehind(b: string, rest: string, data: string, tail: string)
    requires b + rest == data + CRLF + tail && |data| + 2 <= |b|
    ensures b[|data|..|data| + 2] == CRLF && (data + CRLF + tail)[|data| + 2..] == tail
  {
    assert b[|data|..|data| + 2] == (b + rest)[|data|..|data| + 2];
  }

  /** A preview with the marker behind it, as bytes. */
  function Message(p: string, marker: string): string {
    Hex.Format(|p|) + CRLF + (p + CRLF + (marker + CRLF + CRLF))
  }

  /** A line that ends the body. */
  predicate Ends(marker: string) {
    && '\n' !in marker && 0 < |marker| < LONGEST_LINE && !IsAsciiSpace(marker[|marker| - 1])
    && (Hex.Parse(marker) == None || Hex.Parse(marker) == Some(0))
  }

  /** `left` stays behind: what lies behind the segment with the `k`-th byte, or more of the
      closing CRLF. */
  ghost predicate Leaves(left: nat, b: string, segs: seq<string>, k: nat) {
    && Target(b, segs, k) <= left <= 2
    && (Small(b, segs, k) ==> left == Target(b, segs, k))
  }

  lemma LeavesBack(left: nat, b: string, segs: seq<string>, b': string, segs': seq<string>, n: nat, k: nat)
    requires Leaves(left, b', segs', k) && Passed(b, segs, b', segs', n, k)
    ensures Leaves(left, b, segs, n + k)
  {
  }

  lemma SizeRead(size: string, n: nat, b: string, segs: seq<string>)
    requires Segments(segs) && n > 0 && Hex.Parse(size) == Some(n)
    ensures LeftBehindSize(size, b, segs) == LeftInChunk(n, b, segs)
  {}

  lemma MarkerRead(marker: string, b: string, segs: seq<string>)
    requires Segments(segs) && Ends(marker) && b + Flatten(segs) == CRLF
    ensures LeftBehindSize(marker, b, segs) == |Flatten(segs)| <= 2
  {
    assert |b + Flatten(segs)| == 2;
  }

  /** From the marker on. */
  lemma LeftOfMarker(b: string, segs: seq<string>, marker: string, end: string, k: nat)
    requires Segments(segs) && b + Flatten(segs) == end && end == marker + CRLF + CRLF && Ends(marker)
    requires k == |marker| + 2
    ensures Leaves(LeftAtLine(b, segs), b, segs, k)
  {
    var b', segs' := AcrossLine(b, segs, marker, CRLF, 0);
    MarkerRead(marker, b', segs');
    LeavesBack(|Flatten(segs')|, b, segs, b', segs', |marker| + 2, 0);
  }

  /** From the data on. */
  lemma LeftOfData(b: string, segs: seq<string>, p: string, marker: string, end: string, k: nat)
    requires Segments(segs) && b + Flatten(segs) == p + CRLF + end
    requires end == marker + CRLF + CRLF && Ends(marker) && k == |marker| + 2
    ensures Leaves(LeftInChunk(|p|, b, segs), b, segs, |p| + 2 + k)
  {
    var b', segs' := AcrossChunk(b, segs, p, end, k);
    LeftOfMarker(b', segs', marker, end, k);
    LeavesBack(LeftAtLine(b', segs'), b, segs, b', segs', |p| + 2, k);
  }

  /** What stays behind of it is what lies behind the segment that brings the newline of the
      marker, or more. */
  lemma LeftOfMessage(segs: seq<string>, p: string, marker: string)
    requires Segments(segs) && Flatten(segs) == Message(p, marker)
    requires 0 < |p| < Hex.TWO64 && Ends(marker)
    ensures var k := |Message(p, marker)| - 2;
            && Behind(segs, k) <= Stranded(segs) <= 2
            && (SmallAt(segs, k) ==> Stranded(segs) == Behind(segs, k))
  {
    var size, tail := Hex.Format(|p|), marker + CRLF + CRLF;
    HexIsText(|p|);
    Hex.ParseFormat(|p|);
    assert "" + Flatten(segs) == size + CRLF + (p + CRLF + tail);
    LeftOfSized(segs, size, p, marker, tail, p + CRLF + tail, |marker| + 2);
    assert |Message(p, marker)| - 2 == |size| + 2 + (|p| + 2 + (|marker| + 2));
  }

  /** The size line and what is behind it. */
  lemma AcrossSize(segs: seq<string>, size: string, n: nat, tail: string, k: nat)
    returns (b: string, segs': seq<string>)
    requires Segments(segs) && "" + Flatten(segs) == size + CRLF + tail
    requires '\n' !in size && 0 < |size| < LONGEST_LINE && !IsAsciiSpace(size[|size| - 1])
    requires n > 0 && Hex.Parse(size) == Some(n)
    ensures Segments(segs') && b + Flatten(segs') == tail
    ensures Stranded(segs) == LeftInChunk(n, b, segs')
    ensures Passed("", segs, b, segs', |size| + 2, k)
  {
    b, segs' := AcrossLine("", segs, size, tail, k);
    SizeRead(size, n, b, segs');
  }

  lemma LeftOfSized(segs: seq<string>, size: string, p: string, marker: string, end: string, tail: string, k: nat)
    requires Segments(segs) && "" + Flatten(segs) == size + CRLF + tail
    requires tail == p + CRLF + end && end == marker + CRLF + CRLF
    requires '\n' !in size && 0 < |size| < LONGEST_LINE && !IsAsciiSpace(size[|size| - 1])
    requires p != "" && Hex.Parse(size) == Some(|p|) && Ends(marker) && k == |marker| + 2
    ensures Leaves(Stranded(segs), "", segs, |size| + 2 + (|p| + 2 + k))
  {
    var b, segs' := AcrossSize(segs, size, |p|, tail, |p| + 2 + k);
    LeftOfData(b, segs', p, marker, end, k);
    LeavesBack(Stranded(segs), "", segs, b, segs', |size| + 2, |p| + 2 + k);
  }

  /** Nothing lies behind the segment with the `k`-th byte exactly when that is the last one. */
  lemma {:induction false} BehindNothing(segs: seq<string>, k: nat)
    requires Segments(segs) && segs != [] && 0 < k <= |Flatten(segs)|
    ensures Behind(segs, k) == 0 <==> k + |segs[|segs| - 1]| > |Flatten(segs)|
  {
    if |segs| == 1 {
      assert segs[1..] == [];
      assert Flatten(segs) == segs[0] + "";
    } else {
      assert segs[1..][|segs| - 2] == segs[|segs| - 1];
      if k <= |segs[0]| {
        LastWithin(segs[1..]);
      } else {
        BehindNothing(segs[1..], k - |segs[0]|);
      }
    }
  }

  lemma {:induction false} LastSmall(segs: seq<string>, k: nat)
    requires Segments(segs) && segs != [] && 0 < k <= |Flatten(segs)|
    ensures k + |segs[|segs| - 1]| > |Flatten(segs)| && |segs[|segs| - 1]| + LONGEST_LINE <= MAX_LINE ==>
              SmallAt(segs, k)
  {
    if |segs| > 1 {
      assert segs[1..][|segs| - 2] == segs[|segs| - 1];
      if k > |segs[0]| { LastSmall(segs[1..], k - |segs[0]|); } else { LastWithin(segs[1..]); }
    } else {
      assert segs[1..] == [];
    }
  }

  lemma {:induction false} LastWithin(segs: seq<string>)
    requires Segments(segs) && segs != []
    ensures 0 < |segs[|segs| - 1]| <= |Flatten(segs)|
  {
    if |segs| > 1 {
      assert segs[1..][|segs| - 2] == segs[|segs| - 1];
      LastWithin(segs[1..]);
    }
  }

  lemma FramedMessage(p: string, ieof: bool)
    requires p != "" && !Client.EndsChunked(p)
    ensures Client.Framed(p, ieof) == Message(p, if ieof then IEOF else "0")
  {
    var marker := if ieof then IEOF else "0";
    Regroup(Hex.Format(|p|) + CRLF, p, CRLF, marker);
    assert marker + DOUBLE_CRLF == marker + CRLF + CRLF;
  }

  lemma Regroup(a: string, b: string, c: string, d: string)
    ensures a + b + c + (d + DOUBLE_CRLF) == a + (b + c + (d + DOUBLE_CRLF))
  {}

  lemma MarkerEnds(ieof: bool)
    ensures Ends(if ieof then IEOF else "0")
  {
    assert Hex.DigitValue(IEOF[1]) == None;
    assert Hex.Value("0") == 0 by { assert "0"[..0] == ""; }
  }

  /** When the last segment of a framed preview has less than three bytes, a part of the blank
      line stays behind; otherwise nothing does, when that segment fits into the buffer. */
  lemma LeftOfPreview(segs: seq<string>, p: string, ieof: bool)
    requires Segments(segs) && Flatten(segs) == Client.Framed(p, ieof)
    requires 0 < |p| < Hex.TWO64 && !Client.EndsChunked(p)
    ensures segs != []
    ensures Stranded(segs) == 0 ==> |segs[|segs| - 1]| >= 3
    ensures |segs[|segs| - 1]| + LONGEST_LINE <= MAX_LINE ==> (Stranded(segs) == 0 <==> |segs[|segs| - 1]| >= 3)
  {
    LeftOfFramed(segs, p, ieof);
    LastThree(segs, Stranded(segs));
    LastSmall(segs, |Flatten(segs)| - 2);
  }

  lemma LeftOfFramed(segs: seq<string>, p: string, ieof: bool)
    requires Segments(segs) && Flatten(segs) == Client.Framed(p, ieof)
    requires 0 < |p| < Hex.TWO64 && !Client.EndsChunked(p)
    ensures |Flatten(segs)| > 2
    ensures var behind := Behind(segs, |Flatten(segs)| - 2);
            && behind <= Stranded(segs) <= 2
            && (SmallAt(segs, |Flatten(segs)| - 2) ==> Stranded(segs) == behind)
  {
    var marker := if ieof then IEOF else "0";
    FramedMessage(p, ieof);
    MarkerEnds(ieof);
    LeftOfMessage(segs, p, marker);
    assert |Flatten(segs)| == |Message(p, marker)|;
  }

  lemma LastThree(segs: seq<string>, left: nat)
    requires Segments(segs) && |Flatten(segs)| > 2 && Behind(segs, |Flatten(segs)| - 2) <= left
    ensures segs != []
    ensures left == 0 ==> |segs[|segs| - 1]| >= 3
    ensures left == Behind(segs, |Flatten(segs)| - 2) ==> (left == 0 <==> |segs[|segs| - 1]| >= 3)
  {
    BehindNothing(segs, |Flatten(segs)| - 2);
  }

  /** The cut in front of the closing CRLF leaves that CRLF behind, for every preview. */
  lemma CutLeavesCrlf(p: string, ieof: bool)
    requires 0 < |p| < Hex.TWO64 && !Client.EndsChunked(p)
    ensures var w := Client.Framed(p, ieof);
            && |w| > 2 && Flatten([w[..|w| - 2], CRLF]) == w
            && Stranded([w[..|w| - 2], CRLF]) == 2
  {
    var w, marker := Client.Framed(p, ieof), if ieof then IEOF else "0";
    FramedMessage(p, ieof);
    MarkerEnds(ieof);
    var front := Hex.Format(|p|) + CRLF + (p + CRLF + (marker + CRLF));
    FrontOf(Hex.Format(|p|) + CRLF, p + CRLF, marker + CRLF);
    assert w == front + CRLF && w[..|w| - 2] == front;
    var segs := [front, CRLF];
    TwoSegments(front, CRLF);
    LeftOfFramed(segs, p, ieof);
  }

  lemma FrontOf(a: string, b: string, c: string)
    ensures a + (b + (c + CRLF)) == a + (b + c) + CRLF
  {}

  lemma TwoSegments(a: string, b: string)
    requires a != ""
    ensures Flatten([a, b]) == a + b && Behind([a, b], |a|) == |b|
  {
    OneSegment(b);
    assert [a, b][1..] == [b];
  }

  lemma OneSegment(b: string)
    ensures Flatten([b]) == b
  {
    assert [b][1..] == [];
    assert b + "" == b;
  }

  // ---------------------------------------------------------------------------------
  // What arrives
  // ---------------------------------------------------------------------------------

  /** A body that does not fit into its preview, with parts that do not look chunked: it arrives
      only if the last segment of the framed preview has three bytes or more, and then it does
      when that segment fits into the buffer. */
  lemma ArrivesBySegments(body: string, limit: nat, segs: seq<string>)
    requires Segments(segs) && Flatten(segs) == FramedPreview(body, limit)
    requires 0 < limit < |body| < Hex.TWO64
    requires !Client.EndsChunked(body[..limit]) && !Client.BodyAlreadyChunked(body[limit..])
    ensures segs != []
    ensures Arrives(body, limit, Stranded(segs)) ==> |segs[|segs| - 1]| >= 3
    ensures |segs[|segs| - 1]| + LONGEST_LINE <= MAX_LINE ==>
              (Arrives(body, limit, Stranded(segs)) <==> |segs[|segs| - 1]| >= 3)
  {
    LeftOfPreview(segs, body[..limit], false);
  }

  /** Every such body has a segmentation that loses its remainder. */
  lemma CutLosesRemainder(body: string, limit: nat)
    requires 0 < limit < |body| < Hex.TWO64 && !Client.EndsChunked(body[..limit])
    ensures var w := FramedPreview(body, limit);
            && |w| > 2 && Flatten([w[..|w| - 2], CRLF]) == w
            && !Arrives(body, limit, Stranded([w[..|w| - 2], CRLF]))
  {
    CutLeavesCrlf(body[..limit], false);
  }
}
