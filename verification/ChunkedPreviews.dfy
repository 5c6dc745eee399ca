/** A preview that looks chunked already is sent as it is. It never arrives: whatever the
    server makes of it, even together with the remainder, is not the client's body. */
module ChunkedPreviews {
  import opened Strings
  import opened Chunked
  import opened IcapRequest
  import Client = IcapClient
  import Hex

  // ---------------------------------------------------------------------------------
  // Where decoded bytes come from
  // ---------------------------------------------------------------------------------

  /** A chunk of `size` bytes with its size line at `head` and its data at `start`; decoding
      brings each of these bytes forward by `gap`. */
  datatype Source = Source(head: nat, start: nat, size: nat, gap: nat)

  /** The size line of a chunk. */
  ghost predicate SizeLine(s: string, head: nat, start: nat, size: nat) {
    && head + 2 <= start <= |s| && s[start - 1] == '\n'
    && (forall t | head <= t < start - 1 :: s[t] != '\n')
    && Hex.Parse(Trimmed(s[head..start])) == Some(size)
  }

  predicate Copies(s: string, data: string, gap: int, t: int) {
    0 <= t < |s| && 0 <= t - gap < |data| && data[t - gap] == s[t]
  }

  ghost predicate Slice(s: string, data: string, gap: int, start: nat, end: nat) {
    forall t | start <= t < |s| && t < end :: Copies(s, data, gap, t)
  }

  /** The `i`-th byte of `data`, decoded from `s`, is one of the chunk `o`. Data of later chunks
      is behind at least four more bytes. */
  ghost predicate Found(s: string, data: string, i: nat, o: Source) {
    && i < |data| && 2 <= o.gap && i + o.gap < |s|
    && SizeLine(s, o.head, o.start, o.size)
    && o.start <= i + o.gap < o.start + o.size && o.gap <= o.start
    && Slice(s, data, o.gap, o.start, o.start + o.size)
    && |data| + o.gap <= |s|
    && (|data| + o.gap <= o.start + o.size || |data| + o.gap + 4 <= |s|)
  }

  lemma FirstLine(s: string) returns (c: nat, m: nat)
    requires Decode(0, s).data != ""
    ensures c <= |s| && SizeLine(s, 0, c, m) && m > 0
    ensures Decode(0, s) == Decode(m, s[c..])
  {
    var line := LineOf(s);
    var lf := Index(s, "\n").value;
    c := lf + 1;
    m := Hex.Parse(line.text).value;
    FirstNewline(s, lf);
    assert s[0..lf + 1] == s[..lf + 1];
    if s[0] == '\n' { EmptyLine(s); }
  }

  lemma FirstNewline(s: string, lf: nat)
    requires Index(s, "\n") == Some(lf)
    ensures lf < |s| && s[lf] == '\n' && forall t | 0 <= t < lf :: s[t] != '\n'
  {
    AtFirstByte(s, "\n");
    forall t | 0 <= t < lf ensures s[t] != '\n' {
      if s[t] == '\n' { assert s[t..t + 1] == "\n"; assert At(s, t, "\n"); }
    }
  }

  lemma EmptyLine(s: string)
    requires s != "" && s[0] == '\n'
    ensures Decode(0, s).data == ""
  {
    assert s[0..1] == "\n";
    IndexIs(s, "\n", 0);
    Blank(s[..1]);
    assert Hex.Value("") == 0;
  }

  lemma Blank(s: string)
    requires forall i | 0 <= i < |s| :: IsAsciiSpace(s[i])
    ensures Trimmed(s) == ""
  {}

  lemma ChunkData(m: nat, t: string)
    requires m > 0
    ensures Decode(m, t).data ==
            if |t| < m then t
            else t[..m] + if |t| >= m + 2 && t[m..m + 2] == CRLF then Decode(0, t[m + 2..]).data else ""
  {
    if |t| >= m {
      var u := t[m..];
      if |u| >= 2 {
        assert u[..2] == t[m..m + 2] && u[2..] == t[m + 2..];
      }
    }
  }

  /** Every decoded byte has a source. */
  lemma {:induction false} Locate(s: string, data: string, i: nat) returns (o: Source)
    requires data == Decode(0, s).data && i < |data|
    ensures Found(s, data, i, o)
    decreases |s|
  {
    var f := FirstChunk(s);
    if f.more == "" {
      o := LocateOnly(s, data, f, i);
    } else {
      var k := if i < f.size then 0 else i - f.size;
      var o' := Locate(f.behind, f.more, k);
      o := LocateBoth(s, data, f, i, k, o');
    }
  }

  lemma LocateOnly(s: string, data: string, f: First, i: nat) returns (o: Source)
    requires StartsWith(s, data, f) && f.more == "" && i < |data|
    ensures Found(s, data, i, o)
  {
    assert data == f.data;
    o := Source(0, f.start, f.size, f.start);
    OnlyChunk(s, f.start, f.size, f.data, i);
  }

  lemma LocateBoth(s: string, data: string, f: First, i: nat, k: nat, o': Source) returns (o: Source)
    requires StartsWith(s, data, f) && f.more != ""
    requires k == (if i < f.size then 0 else i - f.size) && Found(f.behind, f.more, k, o')
    ensures Found(s, data, i, o)
  {
    if i < f.size {
      o := Source(0, f.start, f.size, f.start);
      FirstOfMany(s, f.start, f.size, f.data, f.more, i);
    } else {
      var off := f.start + f.size + 2;
      o := Moved(o', off, |f.data|);
      Shifted(s, off, f.behind, f.data, f.more, k, o');
    }
  }

  /** The first chunk: its data starts at `start`; what is decoded from `behind` it is `more`. */
  datatype First = First(start: nat, size: nat, data: string, behind: string, more: string)

  ghost predicate StartsWith(s: string, data: string, f: First) {
    && SizeLine(s, 0, f.start, f.size)
    && |f.data| <= f.size && f.start + |f.data| <= |s| && f.data == s[f.start..f.start + |f.data|]
    && (|f.data| < f.size ==> f.start + |f.data| == |s|)
    && data == f.data + f.more
    && (f.more != "" ==>
          |f.data| == f.size && f.start + f.size + 2 <= |s| && f.behind == s[f.start + f.size + 2..])
  }

  lemma FirstChunk(s: string) returns (f: First)
    requires Decode(0, s).data != ""
    ensures StartsWith(s, Decode(0, s).data, f)
    ensures f.more != "" ==> |f.behind| < |s| && f.more == Decode(0, f.behind).data
  {
    var c, m := FirstLine(s);
    var first, more, v := ChunkParts(s, c, m, c + m + 2);
    f := First(c, m, first, v, more);
  }

  lemma ChunkParts(s: string, c: nat, m: nat, off: nat) returns (first: string, more: string, v: string)
    requires m > 0 && c <= |s| && off == c + m + 2
    ensures |first| <= m && c + |first| <= |s| && first == s[c..c + |first|]
    ensures more != "" ==> |first| == m && off <= |s| && v == s[off..] && more == Decode(0, v).data
    ensures |first| < m ==> c + |first| == |s|
    ensures Decode(m, s[c..]).data == first + more
  {
    var t := s[c..];
    ChunkData(m, t);
    v := if off <= |s| then s[off..] else "";
    if |t| < m {
      first, more := t, "";
    } else {
      first := t[..m];
      more := if |t| >= m + 2 && t[m..m + 2] == CRLF then Decode(0, t[m + 2..]).data else "";
      if |t| >= m + 2 { assert t[m + 2..] == v; }
    }
  }

  lemma OnlyChunk(s: string, c: nat, m: nat, first: string, i: nat)
    requires 2 <= c && c + |first| <= |s| && first == s[c..c + |first|] && |first| <= m && SizeLine(s, 0, c, m)
    requires |first| < m ==> c + |first| == |s|
    requires i < |first|
    ensures Found(s, first, i, Source(0, c, m, c))
  {}

  lemma FirstOfMany(s: string, c: nat, m: nat, first: string, more: string, i: nat)
    requires 2 <= c && c + m + 2 <= |s| && SizeLine(s, 0, c, m) && i < m
    requires first == s[c..c + m] && |more| + 2 <= |s| - (c + m + 2)
    ensures Found(s, first + more, i, Source(0, c, m, c))
  {}

  /** The same chunk when more is in front of it. */
  function Moved(o: Source, off: nat, first: nat): Source
    requires first <= off
  {
    Source(o.head + off, o.start + off, o.size, o.gap + off - first)
  }

  lemma Shifted(s: string, off: nat, v: string, first: string, more: string, i: nat, o: Source)
    requires off <= |s| && v == s[off..] && |first| <= off && Found(v, more, i, o)
    ensures Found(s, first + more, |first| + i, Moved(o, off, |first|))
  {
    ShiftedLine(s, off, v, o.head, o.start, o.size);
    ShiftedSlice(s, off, v, first, more, o.gap, o.gap + off - |first|, o.start, o.start + o.size);
  }

  lemma ShiftedSlice(s: string, off: nat, v: string, first: string, more: string, gap: nat, gap': nat,
                     start: nat, end: nat)
    requires off <= |s| && v == s[off..] && gap' == gap + off - |first|
    requires Slice(v, more, gap, start, end)
    ensures Slice(s, first + more, gap', start + off, end + off)
  {
    var data := first + more;
    forall t | start + off <= t < |s| && t < end + off ensures Copies(s, data, gap', t) {
      var u := t - off;
      assert Copies(v, more, gap, u);
      assert data[|first| + (u - gap)] == more[u - gap];
    }
  }

  lemma ShiftedLine(s: string, off: nat, v: string, head: nat, start: nat, size: nat)
    requires off <= |s| && v == s[off..] && SizeLine(v, head, start, size)
    ensures SizeLine(s, head + off, start + off, size)
  {
    assert v[head..start] == s[head + off..start + off];
    forall t | head + off <= t < start + off - 1 ensures s[t] != '\n' { assert v[t - off] != '\n'; }
  }

  // ---------------------------------------------------------------------------------
  // The two messages together
  // ---------------------------------------------------------------------------------

  /** A preview `core` + `pad`, sent as `core` + `sent`, and a remainder `r`, sent as a chunk
      with the size line `hex`. */
  datatype Case = Case(core: string, pad: nat, sent: nat, hex: string, r: string)
  {
    /** Where the parts end on the wire. */
    function A(): nat { |core| }
    function B(): nat { |core| + sent }
    function C(): nat { B() + |hex| }
    function R(): nat { C() + 2 }
    function E(): nat { R() + |r| }

    predicate Valid() {
      && |core| >= 3 && core[|core| - 3..] == "\r\n0"
      && pad >= 2 && pad % 2 == 0 && sent == (if pad == 2 then 4 else pad)
      && 0 < |r| < Hex.TWO64 && hex == Hex.Format(|r|)
    }
  }

  /** CRLF after CRLF from `from` on. */
  predicate Crlfs(s: string, from: nat, to: nat) {
    && to <= |s|
    && forall k | from <= k < to :: s[k] == if (k - from) % 2 == 0 then '\r' else '\n'
  }

  /** A zero at the start of a line is the last of the first `n` bytes. */
  predicate EndsWithZero(s: string, n: nat) {
    2 <= n <= |s| && s[n - 1] == '0' && s[n - 2] == '\n'
  }

  /** The bytes on the wire, and the body. */
  ghost predicate Laid(c: Case, wire: string, body: string) {
    && |wire| == c.E() + 5 && |body| == c.A() + c.pad + |c.r|
    && wire[..c.A()] == c.core == body[..c.A()]
    && EndsWithZero(wire, c.A()) && EndsWithZero(body, c.A())
    && Crlfs(wire, c.A(), c.B()) && Crlfs(body, c.A(), c.A() + c.pad)
    && wire[c.B()..c.C()] == c.hex
    && wire[c.C()] == '\r' && wire[c.C() + 1] == '\n'
    && wire[c.R()..c.E()] == c.r == body[c.A() + c.pad..]
    && wire[c.E()..] == "\r\n0\r\n"
  }

  /** The last byte of `core` as a decoded byte. */
  ghost predicate Clue(c: Case, wire: string, body: string, o: Source) {
    c.Valid() && Laid(c, wire, body) && Found(wire, body, c.A() - 1, o) && o.gap >= 3
  }

  /** Where that byte is on the wire. */
  function Spot(c: Case, o: Source): nat
    requires c.Valid()
  {
    c.A() - 1 + o.gap
  }

  lemma CoreEnd(c: Case, s: string)
    requires c.Valid() && c.core <= s
    ensures EndsWithZero(s, c.A())
  {
    assert c.core[|c.core| - 3..][2] == c.core[|c.core| - 1] && c.core[|c.core| - 3..][1] == c.core[|c.core| - 2];
  }

  /** It is a zero behind a newline. */
  lemma SpotIs(c: Case, wire: string, body: string, o: Source)
    requires Clue(c, wire, body, o)
    ensures var j := Spot(c, o); wire[j] == '0' && wire[j - 1] == '\n'
  {
    ZeroBehindNewline(wire, body, o, c.A() - 1);
  }

  lemma ZeroBehindNewline(wire: string, body: string, o: Source, i: nat)
    requires Found(wire, body, i, o) && i > 0 && body[i] == '0' && body[i - 1] == '\n'
    ensures wire[i + o.gap] == '0' && wire[i + o.gap - 1] == '\n'
  {
    SlicePair(wire, body, o, i);
  }

  lemma SlicePair(wire: string, body: string, o: Source, i: nat)
    requires Found(wire, body, i, o) && i > 0
    ensures wire[i + o.gap] == body[i]
    ensures wire[i + o.gap - 1] == if i + o.gap > o.start then body[i - 1] else '\n'
  {
    assert Copies(wire, body, o.gap, i + o.gap);
    if i + o.gap > o.start { assert Copies(wire, body, o.gap, i + o.gap - 1); }
  }

  lemma {:induction false} LeadingDigit(n: nat)
    requires n > 0
    ensures Hex.Format(n)[0] != '0'
  {
    if n >= 16 {
      LeadingDigit(n / 16);
      assert Hex.Format(n)[0] == Hex.Format(n / 16)[0];
    } else {
      assert Hex.DigitValue(Hex.DigitChar(n)) == Some(n);
    }
  }

  /** Between core and remainder there is no such place. */
  lemma NoZeroBetween(c: Case, wire: string, body: string, j: nat)
    requires c.Valid() && Laid(c, wire, body) && c.A() < j < c.R()
    ensures !(wire[j] == '0' && wire[j - 1] == '\n')
  {
    LeadingDigit(|c.r|);
    HexIsText(|c.r|);
    if c.B() <= j < c.C() {
      assert wire[c.B()..c.C()][j - c.B()] == wire[j];
      if j > c.B() { assert wire[c.B()..c.C()][j - 1 - c.B()] == wire[j - 1]; }
    }
  }

  /** So it is in the remainder. */
  lemma SpotInRemainder(c: Case, wire: string, body: string, o: Source)
    requires Clue(c, wire, body, o)
    ensures Spot(c, o) >= c.R()
  {
    SpotIs(c, wire, body, o);
    if Spot(c, o) < c.R() { NoZeroBetween(c, wire, body, Spot(c, o)); }
  }

  /** There is hardly anything left in front of it, and everything behind it is one slice. */
  lemma SpotClose(c: Case, wire: string, body: string, o: Source)
    requires Clue(c, wire, body, o)
    ensures c.R() <= Spot(c, o) <= c.R() + 4 - c.pad
    ensures |body| + o.gap <= o.start + o.size
    ensures o.size > |c.r|
  {
    SpotInRemainder(c, wire, body, o);
  }

  /** Two bytes into the remainder, it has a carriage return in front of these. */
  lemma SpotBehindReturn(c: Case, wire: string, body: string, o: Source)
    requires Clue(c, wire, body, o) && Spot(c, o) == c.R() + 2
    ensures wire[c.R()] == '\r'
  {
    var j, r := c.R() + 2, c.r;
    SpotIs(c, wire, body, o);
    SpotClose(c, wire, body, o);
    InRemainder(c, wire, body, j);
    assert r == r[..3] + r[3..] && r[..3] == [r[0], '\n', '0'];
    ShiftedRemainder(c, wire, body, o);
    Rotated(r[..3], r[3..]);
  }

  lemma InRemainder(c: Case, wire: string, body: string, j: nat)
    requires c.Valid() && Laid(c, wire, body) && j == c.R() + 2 && wire[j] == '0' && wire[j - 1] == '\n'
    ensures |c.r| > 2 && c.r[2] == '0' && c.r[1] == '\n' && c.r[0] == wire[c.R()]
  {
    assert wire[c.E()..][0] == wire[c.E()] && wire[c.E()..][1] == wire[c.E() + 1];
    var part := wire[c.R()..c.E()];
    assert part[0] == wire[c.R()];
    if |c.r| > 2 { assert part[2] == wire[j] && part[1] == wire[j - 1]; }
  }

  /** All of the wire behind the spot is the end of the body. */
  lemma ShiftedRemainder(c: Case, wire: string, body: string, o: Source)
    requires Clue(c, wire, body, o) && Spot(c, o) == c.R() + 2 && c.pad == 2 && |c.r| > 2
    requires |body| + o.gap <= o.start + o.size
    ensures CRLF + c.r == c.r[3..] + "\r\n0\r\n"
  {
    assert |body| + o.gap == |wire|;
    BodyTail(c, wire, body);
    WireTail(c, wire, body);
    TailCopied(wire, body, o, c.A() - 1);
  }

  lemma BodyTail(c: Case, wire: string, body: string)
    requires c.Valid() && Laid(c, wire, body) && c.pad == 2
    ensures body[c.A()..] == CRLF + c.r
  {
    var tail := body[c.A()..];
    assert tail[0] == '\r' && tail[1] == '\n' && tail[2..] == body[c.A() + 2..];
    assert tail == tail[..2] + tail[2..];
  }

  lemma WireTail(c: Case, wire: string, body: string)
    requires c.Valid() && Laid(c, wire, body) && |c.r| > 2
    ensures wire[c.R() + 3..] == c.r[3..] + "\r\n0\r\n"
  {
    var j := c.R() + 3;
    JoinSlices(wire, j, c.E(), |wire|);
    SplitSlice(wire, c.R(), j, c.E());
    assert wire[j..|wire|] == wire[j..] && wire[c.E()..|wire|] == wire[c.E()..];
  }

  /** When all of the wire behind a byte is taken, it is the end of the data. */
  lemma TailCopied(wire: string, body: string, o: Source, i: nat)
    requires Found(wire, body, i, o) && |body| + o.gap == |wire| <= o.start + o.size
    ensures i + 1 + o.gap <= |wire| && body[i + 1..] == wire[i + 1 + o.gap..]
  {
    var tail, rest := body[i + 1..], wire[i + 1 + o.gap..];
    forall k | 0 <= k < |tail| ensures tail[k] == rest[k] { assert Copies(wire, body, o.gap, i + 1 + o.gap + k); }
  }

  lemma Rotated(a: string, b: string)
    requires |a| == 3 && a[1] == '\n' && a[2] == '0'
    requires CRLF + (a + b) == b + "\r\n0\r\n"
    ensures a[0] == '\r'
  {
    var left, right := CRLF + (a + b), b + "\r\n0\r\n";
    assert multiset(left) == multiset(CRLF) + (multiset(a) + multiset(b));
    assert multiset(right) == multiset(b) + multiset("\r\n0\r\n");
    assert multiset(left)['\r'] == multiset(right)['\r'];
    assert multiset("\r\n0\r\n")['\r'] == 2 && multiset(CRLF)['\r'] == 1;
    assert a == [a[0], '\n', '0'];
  }

  // Size lines -----------------------------------------------------------------------

  lemma BlankSize(s: string)
    requires forall i | 0 <= i < |s| :: IsAsciiSpace(s[i])
    ensures Hex.Parse(Trimmed(s)) == Some(0)
  {
    Blank(s);
    assert Hex.Value("") == 0;
  }

  lemma ZeroSize()
    ensures Hex.Parse(Trimmed("0" + CRLF)) == Some(0)
  {
    TrimCrlf("0");
    assert "0"[..0] == "" && Hex.Value("0") == 0;
  }

  lemma {:induction false} TailValue(s: string, k: nat)
    requires Hex.AllHex(s) && k <= |s|
    ensures Hex.AllHex(s[k..]) && Hex.Value(s[k..]) <= Hex.Value(s)
  {
    if k < |s| {
      assert s[k..][..|s| - k - 1] == s[..|s| - 1][k..];
      TailValue(s[..|s| - 1], k);
    }
  }

  /** A part of the remainder's size line. */
  lemma TailSize(n: nat, k: nat)
    requires 0 < n < Hex.TWO64 && k < |Hex.Format(n)|
    ensures Hex.Parse(Trimmed(Hex.Format(n)[k..] + CRLF)).Some?
    ensures Hex.Parse(Trimmed(Hex.Format(n)[k..] + CRLF)).value <= n
  {
    var s := Hex.Format(n);
    HexIsText(n);
    TrimCrlf(s[k..]);
    TailValue(s, k);
    Hex.ValueFormat(n);
  }

  /** A line that ends behind the core and not behind the spot. */
  ghost predicate LineBehind(c: Case, wire: string, o: Source, head: nat, end: nat)
    requires c.Valid()
  {
    && c.A() < end <= Spot(c, o) <= |wire| && head < end && wire[end - 1] == '\n'
    && forall t | head <= t < end - 1 :: wire[t] != '\n'
  }

  /** Its size is at most that of the remainder. */
  lemma LineSize(c: Case, wire: string, body: string, o: Source, head: nat, end: nat)
    requires Clue(c, wire, body, o) && LineBehind(c, wire, o, head, end)
    ensures var size := Hex.Parse(Trimmed(wire[head..end])); size.Some? ==> size.value <= |c.r|
  {
    SpotClose(c, wire, body, o);
    if end <= c.B() {
      LineInPad(c, wire, body, head, end);
    } else if end <= c.R() {
      LineOfRemainder(c, wire, body, head, end);
    } else {
      LineInRemainder(c, wire, body, o, head, end);
    }
  }

  lemma LineInPad(c: Case, wire: string, body: string, head: nat, end: nat)
    requires c.Valid() && Laid(c, wire, body) && c.A() < end <= c.B() && head < end && wire[end - 1] == '\n'
    requires forall t | head <= t < end - 1 :: wire[t] != '\n'
    ensures Hex.Parse(Trimmed(wire[head..end])) == Some(0)
  {
    if end == c.A() + 2 {
      assert wire[c.A() - 2] == '\n';
      if head == c.A() - 1 {
        assert wire[head..end] == "0" + CRLF;
        ZeroSize();
      } else {
        BlankSize(wire[head..end]);
      }
    } else {
      assert end % 2 == c.A() % 2 && end - 3 > c.A();
      assert wire[end - 3] == '\n' && wire[end - 2] == '\r';
      BlankSize(wire[head..end]);
    }
  }

  lemma LineOfRemainder(c: Case, wire: string, body: string, head: nat, end: nat)
    requires c.Valid() && Laid(c, wire, body) && c.B() < end <= c.R() && head < end && wire[end - 1] == '\n'
    requires forall t | head <= t < end - 1 :: wire[t] != '\n'
    ensures var size := Hex.Parse(Trimmed(wire[head..end])); size.Some? && size.value <= |c.r|
  {
    SizeLineAlone(c, wire, body, head, end);
    if head < c.C() {
      SizeLineTail(c, wire, body, head);
      TailSize(|c.r|, head - c.B());
    } else {
      BlankSize(wire[head..end]);
    }
  }

  lemma SizeLineAlone(c: Case, wire: string, body: string, head: nat, end: nat)
    requires c.Valid() && Laid(c, wire, body) && c.B() < end <= c.R() && head < end && wire[end - 1] == '\n'
    requires forall t | head <= t < end - 1 :: wire[t] != '\n'
    ensures end == c.R() && head >= c.B()
  {
    HexIsText(|c.r|);
    var part := wire[c.B()..c.C()];
    forall t | c.B() <= t < c.C() ensures wire[t] != '\n' { assert part[t - c.B()] == wire[t]; }
    assert c.B() - 1 >= c.A() && wire[c.B() - 1] == '\n';
  }

  lemma SizeLineTail(c: Case, wire: string, body: string, head: nat)
    requires c.Valid() && Laid(c, wire, body) && c.B() <= head < c.C()
    ensures wire[head..c.R()] == c.hex[head - c.B()..] + CRLF
  {
    LineTail(wire, c.B(), head, c.C(), c.hex);
  }

  lemma LineTail(s: string, from: nat, head: nat, to: nat, part: string)
    requires from <= head <= to && to + 2 <= |s| && s[to] == '\r' && s[to + 1] == '\n' && part == s[from..to]
    ensures s[head..to + 2] == part[head - from..] + CRLF
  {
    SplitSlice(s, from, head, to);
    JoinSlices(s, head, to, to + 2);
    assert s[to..to + 2] == [s[to], s[to + 1]];
  }

  lemma JoinSlices(s: string, from: nat, mid: nat, to: nat)
    requires from <= mid <= to <= |s|
    ensures s[from..to] == s[from..mid] + s[mid..to]
  {}

  lemma SplitSlice(s: string, from: nat, mid: nat, to: nat)
    requires from <= mid <= to <= |s|
    ensures s[from..to][mid - from..] == s[mid..to]
  {}

  lemma LineInRemainder(c: Case, wire: string, body: string, o: Source, head: nat, end: nat)
    requires Clue(c, wire, body, o) && LineBehind(c, wire, o, head, end) && c.R() < end <= c.R() + 2
    requires Spot(c, o) <= c.R() + 2
    ensures Hex.Parse(Trimmed(wire[head..end])) == Some(0)
  {
    if end == c.R() + 2 { SpotBehindReturn(c, wire, body, o); }
    BlankSize(wire[head..end]);
  }

  // Repetition -----------------------------------------------------------------------

  predicate Echo(s: string, gap: nat, t: nat) { t + gap < |s| && s[t] == s[t + gap] }

  /** Between `from` and `z` everything repeats at this distance. */
  ghost predicate Echoes(s: string, gap: nat, from: nat, z: nat) {
    forall t | from <= t <= z :: Echo(s, gap, t)
  }

  lemma EchoSlice(s: string, gap: nat, z: nat, from: nat, to: nat)
    requires from < to <= z && z + gap < |s| && Echoes(s, gap, from, z)
    ensures s[from + gap..to + gap] == s[from..to]
  {
    forall k | 0 <= k < to - from ensures s[from + gap..to + gap][k] == s[from..to][k] {
      assert Echo(s, gap, from + k);
    }
  }

  /** What repeats at this distance repeats until it has passed `z`. */
  lemma {:induction false} Carry(s: string, gap: nat, z: nat, from: nat, to: nat) returns (from': nat, to': nat)
    requires gap > 0 && from < to <= z && z + gap < |s|
    requires Echoes(s, gap, from, z)
    ensures z < to' <= z + gap && from' < to' && to' - from' == to - from
    ensures s[from'..to'] == s[from..to]
    decreases z - to
  {
    EchoSlice(s, gap, z, from, to);
    if to + gap <= z {
      from', to' := Carry(s, gap, z, from + gap, to + gap);
    } else {
      from', to' := from + gap, to + gap;
    }
  }

  /** Around the chunk with the spot, the wire repeats itself. */
  lemma Repeats(c: Case, wire: string, body: string, o: Source, t: nat)
    requires Clue(c, wire, body, o) && o.start <= t + o.gap && t < c.A()
    ensures t + o.gap < |wire| && wire[t] == wire[t + o.gap]
  {
    assert Copies(wire, body, o.gap, t + o.gap);
    assert wire[..c.A()][t] == body[..c.A()][t];
  }

  lemma RepeatsFrom(c: Case, wire: string, body: string, o: Source, from: nat)
    requires Clue(c, wire, body, o) && o.start <= from + o.gap
    ensures Echoes(wire, o.gap, from, c.A() - 1)
  {
    forall t | from <= t <= c.A() - 1 ensures Echo(wire, o.gap, t) { Repeats(c, wire, body, o, t); }
  }

  /** The size line of that chunk is not longer than what repeats. */
  lemma HeadNear(c: Case, wire: string, body: string, o: Source)
    requires Clue(c, wire, body, o) && o.start < c.A()
    ensures o.head + o.gap >= o.start
  {
    SpotInRemainder(c, wire, body, o);
    if o.head + o.gap < o.start {
      var from, z := o.start - o.gap, c.A() - 1;
      RepeatsFrom(c, wire, body, o, from);
      var head, end := CarriedLine(wire, o.gap, z, from, o.start);
      TwoLines(c, wire, body, head, end);
    }
  }

  /** So it turns up again behind the core. */
  lemma HeadRepeated(c: Case, wire: string, body: string, o: Source)
    requires Clue(c, wire, body, o) && o.start < c.A()
    ensures o.size <= |c.r|
  {
    HeadNear(c, wire, body, o);
    var z := c.A() - 1;
    RepeatsFrom(c, wire, body, o, o.head);
    var head, end := CarriedLine(wire, o.gap, z, o.head, o.start);
    LineSize(c, wire, body, o, head, end);
  }

  /** There is no such byte: its chunk would be too small for what is taken from it. */
  lemma NoSource(c: Case, wire: string, body: string, o: Source)
    requires c.Valid() && Laid(c, wire, body) && Found(wire, body, c.A() - 1, o)
    ensures o.gap < 3
  {
    if o.gap >= 3 {
      SpotClose(c, wire, body, o);
        if o.start < c.A() {
        HeadRepeated(c, wire, body, o);
      } else {
        LineSize(c, wire, body, o, o.head, o.start);
      }
    }
  }

  lemma CarriedLine(s: string, gap: nat, z: nat, from: nat, to: nat) returns (from': nat, to': nat)
    requires gap > 0 && from < to <= z && z + gap < |s| && Echoes(s, gap, from, z)
    requires s[to - 1] == '\n' && forall t | from <= t < to - 1 :: s[t] != '\n'
    ensures z < to' <= z + gap && from' < to' && to' - from' == to - from
    ensures s[from'..to'] == s[from..to]
    ensures s[to' - 1] == '\n' && forall t | from' <= t < to' - 1 :: s[t] != '\n'
  {
    from', to' := Carry(s, gap, z, from, to);
    SameLine(s, from, to, from', to');
  }

  lemma SameLine(s: string, head: nat, end: nat, head': nat, end': nat)
    requires head < end <= |s| && head' < end' <= |s| && s[head..end] == s[head'..end']
    requires s[end - 1] == '\n' && forall t | head <= t < end - 1 :: s[t] != '\n'
    ensures s[end' - 1] == '\n' && forall t | head' <= t < end' - 1 :: s[t] != '\n'
  {
    assert end - head == end' - head';
    assert s[head..end][end - head - 1] == s[head'..end'][end - head - 1];
    forall t | head' <= t < end' - 1 ensures s[t] != '\n' {
      assert s[head'..end'][t - head'] == s[head..end][t - head'];
    }
  }

  /** A stretch of eight bytes or more that ends behind the core has a newline inside. */
  lemma TwoLines(c: Case, wire: string, body: string, head: nat, end: nat)
    requires c.Valid() && Laid(c, wire, body) && c.A() <= end <= |wire|
    requires head + 8 <= end && head < c.A() && wire[end - 1] == '\n'
    ensures exists t :: head <= t < end - 1 && wire[t] == '\n'
  {
    assert wire[c.A() + 1] == '\n' && wire[c.A()] == '\r';
  }

  // ---------------------------------------------------------------------------------
  // The preview on the wire
  // ---------------------------------------------------------------------------------

  lemma {:induction false} StripParts(s: string)
    ensures var core := Client.StripCrlf(s);
            core <= s && (|s| - |core|) % 2 == 0 && Crlfs(s, |core|, |s|)
    decreases |s|
  {
    if HasSuffix(s, CRLF) {
      StripParts(s[..|s| - 2]);
      CrlfsSnoc(s, |Client.StripCrlf(s[..|s| - 2])|);
    }
  }

  lemma CrlfsSnoc(s: string, from: nat)
    requires HasSuffix(s, CRLF) && from <= |s| - 2 && (|s| - from) % 2 == 0 && Crlfs(s[..|s| - 2], from, |s| - 2)
    ensures Crlfs(s, from, |s|)
  {
    var n := |s| - 2;
    assert s[n..][0] == s[n] && s[n..][1] == s[n + 1];
    forall k | from <= k < |s| ensures s[k] == if (k - from) % 2 == 0 then '\r' else '\n' {
      if k < n { assert s[..n][k] == s[k]; }
    }
  }

  /** A preview that looks chunked is a core that ends with a zero line, and CRLFs. */
  lemma CoreOf(p: string) returns (core: string, pad: nat)
    requires Client.EndsChunked(p)
    ensures core <= p && |p| == |core| + pad && pad >= 2 && pad % 2 == 0 && Crlfs(p, |core|, |p|)
    ensures |core| >= 3 && core[|core| - 3..] == "\r\n0"
  {
    StripParts(p);
    core := Client.StripCrlf(p);
    pad := |p| - |core|;
    StripParts(p[..|p| - 2]);
    assert core == Client.StripCrlf(p[..|p| - 2]);
  }

  /** How it is sent. */
  lemma RawParts(p: string, core: string, pad: nat)
    requires core <= p && |p| == |core| + pad && pad >= 2 && pad % 2 == 0 && Crlfs(p, |core|, |p|)
    requires |core| >= 3 && core[|core| - 3..] == "\r\n0"
    ensures var w := Client.RawFramed(p, false);
            && core <= w && |w| == |core| + (if pad == 2 then 4 else pad) && Crlfs(w, |core|, |w|)
            && HasSuffix(w, DOUBLE_CRLF)
  {
    assert core[|core| - 3..][2] == core[|core| - 1] == p[|core| - 1];
    if pad == 2 {
      assert p[|p| - 4..][1] == p[|p| - 3] == '0';
      assert !HasSuffix(p, DOUBLE_CRLF);
      assert (p + CRLF)[|p| - 2..] == DOUBLE_CRLF;
    } else {
      assert p[|p| - 4..] == DOUBLE_CRLF;
    }
  }

  /** Behind the core no zero is sent. */
  lemma NoZeroBehind(p: string, core: string, pad: nat, ieof: bool)
    requires p != "" && Client.EndsChunked(p)
    requires core <= p && |p| == |core| + pad && pad >= 2 && pad % 2 == 0 && Crlfs(p, |core|, |p|)
    requires |core| >= 3 && core[|core| - 3..] == "\r\n0"
    ensures var w := Client.Framed(p, ieof);
            core <= w && forall i | |core| <= i < |w| :: w[i] != '0'
  {
    RawParts(p, core, pad);
    var q := Client.RawFramed(p, false);
    if ieof {
      var end := "; ieof" + DOUBLE_CRLF;
      assert '0' !in end;
      var w := q[..|q| - 4] + end;
      assert Client.Framed(p, true) == w;
      forall i | |core| <= i < |w| ensures w[i] != '0' {
        if i >= |q| - 4 { assert w[i] == end[i - (|q| - 4)]; }
      }
    }
  }

  /** The zero at the end of the core does not come from the preview as it is sent. */
  lemma CoreLost(p: string, core: string, pad: nat, ieof: bool, data: string)
    requires p != "" && Client.EndsChunked(p)
    requires core <= p && |p| == |core| + pad && pad >= 2 && pad % 2 == 0 && Crlfs(p, |core|, |p|)
    requires |core| >= 3 && core[|core| - 3..] == "\r\n0"
    requires data == Decode(0, Client.Framed(p, ieof)).data
    ensures |core| <= |data| ==> data[|core| - 1] != '0'
  {
    if |core| <= |data| {
      NoZeroBehind(p, core, pad, ieof);
      var w, z := Client.Framed(p, ieof), |core| - 1;
      var o := Locate(w, data, z);
      NotFromBehind(w, data, z, o);
    }
  }

  /** Decoding leaves an end of its input. */
  lemma {:induction false} DecodeLeaves(n: nat, s: string)
    ensures HasSuffix(s, Decode(n, s).rest)
    decreases |s|, n == 0
  {
    if n == 0 {
      var m, v := LineStep(s);
      if m > 0 {
        DecodeLeaves(m, v);
        EndOfEnd(s, v, Decode(m, v).rest);
      }
    } else {
      var more, v := ChunkStep(n, s);
      if more {
        DecodeLeaves(0, v);
        EndOfEnd(s, v, Decode(0, v).rest);
      }
    }
  }

  lemma LineStep(s: string) returns (m: nat, v: string)
    ensures HasSuffix(s, v)
    ensures m == 0 ==> Decode(0, s).rest == v
    ensures m > 0 ==> |v| < |s| && Decode(0, s).rest == Decode(m, v).rest
  {
    var line := LineOf(s);
    v := line.rest;
    m := if line.Line? && Hex.Parse(line.text).Some? then Hex.Parse(line.text).value else 0;
  }

  lemma ChunkStep(n: nat, s: string) returns (more: bool, v: string)
    requires n > 0
    ensures HasSuffix(s, v)
    ensures !more ==> Decode(n, s).rest == v
    ensures more ==> |v| < |s| && Decode(n, s).rest == Decode(0, v).rest
  {
    if |s| < n + 2 {
      more, v := false, "";
      assert s[|s|..] == "";
    } else {
      v := s[n + 2..];
      assert s[n..][2..] == v;
      more := s[n..][..2] == CRLF;
    }
  }

  lemma EndOfEnd(a: string, b: string, c: string)
    requires HasSuffix(a, b) && HasSuffix(b, c)
    ensures HasSuffix(a, c)
  {
    assert b[|b| - |c|..] == a[|a| - |b|..][|b| - |c|..] == a[|a| - |c|..];
  }

  /** It delivers less than what it takes. */
  lemma {:induction false} DecodeTakes(n: nat, s: string)
    ensures |Decode(n, s).data| + |Decode(n, s).rest| <= |s|
    ensures n == 0 && s != "" ==> |Decode(n, s).data| + |Decode(n, s).rest| < |s|
    decreases |s|, n == 0
  {
    if n == 0 {
      var line := LineOf(s);
      if line.Line? {
        var m := Hex.Parse(line.text);
        if m.Some? && m.value > 0 { DecodeTakes(m.value, line.rest); }
      }
    } else if |s| >= n + 2 {
      AfterTakes(n, s);
      DecodeTakes(0, s[n + 2..]);
    }
  }

  lemma AfterTakes(n: nat, s: string)
    requires 0 < n && n + 2 <= |s|
    ensures var d, e := Decode(n, s), Decode(0, s[n + 2..]);
            (|d.data| == n && |d.rest| == |s| - n - 2) || (|d.data| == n + |e.data| && d.rest == e.rest)
  {
    assert s[n..][2..] == s[n + 2..];
  }

  // ---------------------------------------------------------------------------------
  // It never arrives
  // ---------------------------------------------------------------------------------

  /** The wire of preview and remainder. */
  lemma LaidOut(c: Case, p: string)
    requires c.Valid() && c.core <= p && |p| == |c.core| + c.pad && Crlfs(p, |c.core|, |p|)
    ensures Laid(c, Client.RawFramed(p, false) + (Chunk(c.r) + LAST_CHUNK), p + c.r)
  {
    RawParts(p, c.core, c.pad);
    ChunkForm(c.r);
    LaidOutParts(c, p, Client.RawFramed(p, false), Chunk(c.r) + LAST_CHUNK);
  }

  lemma ChunkForm(r: string)
    requires r != ""
    ensures Chunk(r) + LAST_CHUNK == Hex.Format(|r|) + CRLF + r + CRLF + LAST_CHUNK
  {}

  lemma LaidOutParts(c: Case, p: string, w: string, second: string)
    requires c.Valid() && c.core <= w && |w| == c.B() && Crlfs(w, |c.core|, |w|)
    requires second == c.hex + CRLF + c.r + CRLF + LAST_CHUNK
    requires c.core <= p && |p| == |c.core| + c.pad && Crlfs(p, |c.core|, |p|)
    ensures Laid(c, w + second, p + c.r)
  {
    WireParts(c, w, second);
    BodyParts(c, p);
    CoreEnd(c, w + second);
    CoreEnd(c, p + c.r);
  }

  lemma WireParts(c: Case, w: string, second: string)
    requires c.Valid() && c.core <= w && |w| == c.B() && Crlfs(w, |c.core|, |w|)
    requires second == c.hex + CRLF + c.r + CRLF + LAST_CHUNK
    ensures var wire := w + second;
            && |wire| == c.E() + 5 && wire[..c.A()] == c.core && Crlfs(wire, c.A(), c.B())
            && wire[c.B()..c.C()] == c.hex && wire[c.C()] == '\r' && wire[c.C() + 1] == '\n'
            && wire[c.R()..c.E()] == c.r && wire[c.E()..] == "\r\n0\r\n"
  {
    var n := |c.hex|;
    ChunkSlices(c.hex, c.r);
    LaterSlice(w, second, 0, n);
    LaterSlice(w, second, n + 2, n + 2 + |c.r|);
    LaterSlice(w, second, n + 2 + |c.r|, |second|);
    assert second[0..n] == second[..n];
    assert (w + second)[c.E()..c.E() + 5] == (w + second)[c.E()..];
  }

  lemma LaterSlice(a: string, b: string, from: nat, to: nat)
    requires from <= to <= |b|
    ensures (a + b)[|a| + from..|a| + to] == b[from..to]
  {}

  lemma ChunkSlices(hex: string, r: string)
    ensures var s, n := hex + CRLF + r + CRLF + LAST_CHUNK, |hex|;
            && s[..n] == hex && s[n] == '\r' && s[n + 1] == '\n'
            && s[n + 2..n + 2 + |r|] == r && s[n + 2 + |r|..|s|] == "\r\n0\r\n"
  {
    var s, n := hex + CRLF + r + CRLF + LAST_CHUNK, |hex|;
    assert s == hex + (CRLF + (r + "\r\n0\r\n"));
  }

  lemma BodyParts(c: Case, p: string)
    requires c.core <= p && |p| == |c.core| + c.pad && Crlfs(p, |c.core|, |p|)
    ensures var body := p + c.r;
            && |body| == c.A() + c.pad + |c.r| && body[..c.A()] == c.core
            && Crlfs(body, c.A(), c.A() + c.pad) && body[c.A() + c.pad..] == c.r
  {}

  lemma EndWith(w: string, left: string, second: string)
    requires HasSuffix(w, left)
    ensures (w + second)[|w| - |left|..] == left + second
  {}

  /** A byte of the second stream, as one of both together. */
  lemma SecondStream(w: string, left: string, second: string, first: string, data: string, i: nat) returns (o: Source)
    requires w != "" && HasSuffix(Decode(0, w).rest, left) && first == Decode(0, w).data
    requires data == Decode(0, left + second).data && i < |data|
    ensures Found(w + second, first + data, |first| + i, o) && o.gap >= 3
  {
    DecodeLeaves(0, w);
    DecodeTakes(0, w);
    EndOfEnd(w, Decode(0, w).rest, left);
    var off := |w| - |left|;
    EndWith(w, left, second);
    var o' := Locate(left + second, data, i);
    Shifted(w + second, off, left + second, first, data, i, o');
    o := Moved(o', off, |first|);
  }

  lemma NotFromBehind(w: string, data: string, z: nat, o: Source)
    requires Found(w, data, z, o) && forall i | z < i < |w| :: w[i] != '0'
    ensures data[z] != '0'
  {
    assert Copies(w, data, o.gap, z + o.gap);
  }

  /** What is decoded from it is no body that starts with it. */
  lemma PreviewLost(p: string, ieof: bool, body: string)
    requires Client.EndsChunked(p) && p <= body
    ensures Decode(0, Client.Framed(p, ieof)).data != body
  {
    var core, pad := CoreOf(p);
    assert p[|core| - 1] == core[|core| - 3..][2] == '0' && body[|core| - 1] == p[|core| - 1];
    CoreLost(p, core, pad, ieof, Decode(0, Client.Framed(p, ieof)).data);
  }

  /** The preview alone is not what was sent, nor together with what is left of it. */
  lemma OnePhase(p: string, ieof: bool, left: string)
    requires Client.EndsChunked(p) && p != ""
    requires HasSuffix(Decode(0, Client.Framed(p, ieof)).rest, left)
    ensures var d := Decode(0, Client.Framed(p, ieof)).data;
            d != p && d + Decode(0, left + "").data != p
  {
    var core, pad := CoreOf(p);
    var w := Client.Framed(p, ieof);
    var d, z := Decode(0, w).data, |core| - 1;
    assert p[z] == core[|core| - 3..][2] == '0';
    CoreLost(p, core, pad, ieof, d);
    var e := Decode(0, left + "").data;
    if d + e == p && |d| <= z {
      NoZeroBehind(p, core, pad, ieof);
      var o := SecondStream(w, left, "", d, e, z - |d|);
      assert w + "" == w;
      NotFromBehind(w, p, z, o);
    }
  }

  /** Together with the remainder it is not what was sent either. */
  lemma TwoPhases(p: string, r: string, left: string)
    requires Client.EndsChunked(p) && p != "" && 0 < |r| < Hex.TWO64
    requires HasSuffix(Decode(0, Client.Framed(p, false)).rest, left)
    ensures Decode(0, Client.Framed(p, false)).data + Decode(0, left + Client.RemainderWire(r)).data != p + r
  {
    var core, pad := CoreOf(p);
    var w, second := Client.Framed(p, false), Client.RemainderWire(r);
    var d, e, z := Decode(0, w).data, Decode(0, left + second).data, |core| - 1;
    assert p[z] == core[|core| - 3..][2] == '0' && (p + r)[z] == p[z];
    CoreLost(p, core, pad, false, d);
    if d + e == p + r && |d| <= z {
      var o := SecondStream(w, left, second, d, e, z - |d|);
      GapSmall(p, core, pad, r, o);
    }
  }

  lemma GapSmall(p: string, core: string, pad: nat, r: string, o: Source)
    requires core <= p && |p| == |core| + pad && pad >= 2 && pad % 2 == 0 && Crlfs(p, |core|, |p|)
    requires |core| >= 3 && core[|core| - 3..] == "\r\n0" && 0 < |r| < Hex.TWO64
    requires Found(Client.RawFramed(p, false) + Client.RemainderWire(r), p + r, |core| - 1, o)
    ensures o.gap < 3
  {
    RawParts(p, core, pad);
    if !Client.BodyAlreadyChunked(r) {
      var c := Case(core, pad, if pad == 2 then 4 else pad, Hex.Format(|r|), r);
      GapOfChunk(c, p, o);
    } else {
      GapOfRaw(Client.RawFramed(p, false), p, r, |core| - 1, o);
    }
  }

  lemma GapOfRaw(w: string, p: string, r: string, i: nat, o: Source)
    requires |w| <= |p| + 2 && Found(w + r, p + r, i, o)
    ensures o.gap < 3
  {}

  lemma GapOfChunk(c: Case, p: string, o: Source)
    requires c.Valid() && c.core <= p && |p| == |c.core| + c.pad && Crlfs(p, |c.core|, |p|)
    requires !Client.BodyAlreadyChunked(c.r)
    requires Found(Client.RawFramed(p, false) + Client.RemainderWire(c.r), p + c.r, |c.core| - 1, o)
    ensures o.gap < 3
  {
    Client.RemainderChunk(c.r);
    LaidOut(c, p);
    NoSource(c, Client.RawFramed(p, false) + Client.RemainderWire(c.r), p + c.r, o);
  }
}
