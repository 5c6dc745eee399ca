/** The chunked transfer coding of icap/chunked.go over a connection that delivers its
    bytes in arbitrary segments. */
module Chunked {
  import opened Strings
  import Hex

  /** Both the size of a bufio.Reader's buffer and the bound on a chunk-size line. */
  const MAX_LINE: nat := 4096

  const CONTINUE := "ICAP/1.0 100 Continue\r\n\r\n"

  datatype Err = Eof | UnexpectedEof | LineTooLong | BadLength(line: string) | Malformed

  // ---------------------------------------------------------------------------------
  // What a chunked stream means
  // ---------------------------------------------------------------------------------

  /** `isASCIISpace` (lines 112-114). */
  predicate IsAsciiSpace(c: char) { c == ' ' || c == '\t' || c == '\n' || c == '\r' }

  /** Without the white space at the end. */
  function Trimmed(s: string): (r: string)
    ensures r == "" || !IsAsciiSpace(r[|r| - 1])
    ensures |r| <= |s| && r == s[..|r|]
    ensures forall i | |r| <= i < |s| :: IsAsciiSpace(s[i])
  {
    if s != "" && IsAsciiSpace(s[|s| - 1]) then Trimmed(s[..|s| - 1]) else s
  }

  /** The white space that goes is the space, the tab, the newline and the carriage return. */
  lemma TrimmedExactly(s: string, c: char)
    ensures Trimmed(s + [c]) == if c in " \t\n\r" then Trimmed(s) else s + [c]
  {
    assert (s + [c])[..|s|] == s;
    assert c in " \t\n\r" <==> c == ' ' || c == '\t' || c == '\n' || c == '\r';
  }

  /** `trimTrailingWhitespace` (lines 105-110). */
  method TrimTrailingWhitespace(b: string) returns (r: string)
    ensures r == Trimmed(b)
  {
    r := b;
    while |r| > 0 && IsAsciiSpace(r[|r| - 1])
      invariant Trimmed(r) == Trimmed(b)
    {
      r := r[..|r| - 1];
    }
  }

  datatype LineRead = Line(text: string, rest: string) | NoLine(error: Err, rest: string)

  /** `readLine` (lines 88-103): a line counts when its '\n' is among the first 4095 bytes. */
  function LineOf(s: string): (r: LineRead)
    ensures r.Line? ==> |r.rest| < |s|
  {
    match Index(s, "\n")
    case Some(i) =>
      if i + 1 < MAX_LINE then Line(Trimmed(s[..i + 1]), s[i + 1..])
      else NoLine(LineTooLong, s[MAX_LINE..])
    case None =>
      if |s| < MAX_LINE then NoLine(UnexpectedEof, "") else NoLine(LineTooLong, s[MAX_LINE..])
  }

  /** The bytes a reader delivers, the error it ends with, and what it leaves unread. */
  datatype Decoded = Decoded(data: string, end: Err, rest: string)

  function Prepend(data: string, d: Decoded): Decoded {
    d.(data := data + d.data)
  }

  /** Decoding from a point with `n` bytes of the current chunk still to come. */
  function Decode(n: nat, s: string): (d: Decoded)
    ensures |d.data| <= |s|
    decreases |s|
  {
    if n == 0 then
      match LineOf(s)
      case NoLine(e, rest) => Decoded("", e, rest)
      case Line(text, rest) =>
        match Hex.Parse(text)
        case None => Decoded("", BadLength(text), rest)
        case Some(0) => Decoded("", Eof, rest)
        case Some(m) => Decode(m, rest)
    else if |s| < n then Decoded(s, Eof, "")
    else Prepend(s[..n], AfterChunk(s[n..]))
  }

  /** What follows the last byte of a chunk: CRLF and more chunks. */
  function AfterChunk(s: string): (d: Decoded)
    ensures |d.data| <= |s|
    decreases |s|
  {
    if |s| == 0 then Decoded("", Eof, "")
    else if |s| == 1 then Decoded("", UnexpectedEof, "")
    else if s[..2] != CRLF then Decoded("", Malformed, s[2..])
    else Decode(0, s[2..])
  }

  // ---------------------------------------------------------------------------------
  // The connection
  // ---------------------------------------------------------------------------------

  predicate Segments(segs: seq<string>) { forall i | 0 <= i < |segs| :: segs[i] != "" }

  function Min(a: nat, b: nat): nat { if a <= b then a else b }

  /** What is left of the segments behind the first `k` bytes. */
  function Drop(segs: seq<string>, k: nat): (r: seq<string>)
    ensures Segments(segs) ==> Segments(r)
    ensures k <= |Flatten(segs)| ==> Flatten(r) == Flatten(segs)[k..]
  {
    if k == 0 || segs == [] then segs
    else if k < |segs[0]| then [segs[0][k..]] + segs[1..]
    else Drop(segs[1..], k - |segs[0]|)
  }

  lemma {:induction false} DropMore(segs: seq<string>, a: nat, b: nat)
    requires Segments(segs)
    ensures Drop(Drop(segs, a), b) == Drop(segs, a + b)
    decreases |segs|
  {
    if a == 0 || b == 0 || segs == [] {
    } else if a < |segs[0]| {
      var first := [segs[0][a..]] + segs[1..];
      assert first[0] == segs[0][a..] && first[1..] == segs[1..];
      if a + b < |segs[0]| { assert segs[0][a..][b..] == segs[0][a + b..]; }
    } else {
      DropMore(segs[1..], a - |segs[0]|, b);
    }
  }

  /** One ICAP connection, seen from the server. A segment is what arrives together; one
      read makes at most MAX_LINE bytes of it available, the size of the connection's own
      buffer. (A longer read past that buffer only ever goes into a header block or into
      the data of one chunk, where it is the same as several.) `deferred` is what the peer
      sends once it has been told to continue. */
  class Conn {
    var inbound: seq<string>
    var deferred: seq<string>
    var outbound: string

    constructor (inbound: seq<string>, deferred: seq<string>)
      ensures this.inbound == inbound && this.deferred == deferred && outbound == ""
    {
      this.inbound, this.deferred, outbound := inbound, deferred, "";
    }

    ghost predicate Valid()
      reads this
    {
      Segments(inbound) && Segments(deferred)
    }

    /** One read of at most `k` bytes; nothing to read means the peer has closed. */
    method Take(k: nat) returns (data: string)
      requires Segments(inbound) && k > 0
      modifies `inbound
      ensures Segments(inbound)
      ensures old(inbound) == [] ==> data == "" && inbound == []
      ensures old(inbound) != [] ==>
                && data == old(inbound[0])[..Min(Min(k, MAX_LINE), old(|inbound[0]|))]
                && inbound == Drop(old(inbound), |data|)
                && 0 < |data| <= k
      ensures old(Flatten(inbound)) == data + Flatten(inbound)
    {
      if inbound == [] { return ""; }
      data := inbound[0][..Min(Min(k, MAX_LINE), |inbound[0]|)];
      ghost var before := inbound;
      inbound := Drop(inbound, |data|);
      assert before[0] == data + before[0][|data|..];
      assert Flatten(before) == data + Flatten(before)[|data|..];
    }

    /** io.ReadFull on the connection. */
    method ReadFull(k: nat) returns (data: string, ok: bool)
      requires Segments(inbound)
      modifies `inbound
      ensures Segments(inbound)
      ensures ok == (k <= old(|Flatten(inbound)|))
      ensures ok ==> data == old(Flatten(inbound))[..k] && inbound == Drop(old(inbound), k)
    {
      data := "";
      while |data| < k
        invariant Segments(inbound) && |data| <= k
        invariant old(Flatten(inbound)) == data + Flatten(inbound)
        invariant inbound == Drop(old(inbound), |data|)
        decreases k - |data|
      {
        ghost var read := |data|;
        var more := Take(k - |data|);
        if more == "" { return data, false; }
        DropMore(old(inbound), read, |more|);
        Associative(data, more, Flatten(inbound));
        data := data + more;
      }
      ok := true;
    }

    /** Sending "100 Continue" is what makes the waiting peer send the rest. */
    method WriteContinue()
      modifies this
      ensures outbound == old(outbound) + CONTINUE
      ensures inbound == old(inbound) + old(deferred) && deferred == []
    {
      outbound := outbound + CONTINUE;
      inbound := inbound + deferred;
      deferred := [];
    }
  }

  // ---------------------------------------------------------------------------------
  // What stays on the connection
  // ---------------------------------------------------------------------------------

  /** How many bytes a refill brings to a buffer that holds `held` bytes. */
  function Refill(held: nat, segs: seq<string>): nat
    requires held <= MAX_LINE && segs != []
  {
    Min(MAX_LINE - held, |segs[0]|)
  }

  lemma RefillShrinks(held: nat, segs: seq<string>)
    requires Segments(segs) && segs != [] && held < MAX_LINE
    ensures var k := Refill(held, segs);
            && 0 < k <= |Flatten(segs)|
            && Segments(Drop(segs, k))
            && |Flatten(Drop(segs, k))| == |Flatten(segs)| - k
            && segs[0][..k] + Flatten(Drop(segs, k)) == Flatten(segs)
  {
    PrefixOf(segs[0], Flatten(segs[1..]), Refill(held, segs));
  }

  lemma PrefixOf(a: string, b: string, k: nat)
    requires k <= |a|
    ensures (a + b)[..k] == a[..k] && a[..k] + (a + b)[k..] == a + b
  {}

  /** How many bytes stay behind on the connection when a reader in front of a size line,
      with `b` in its buffer, has come to its end. */
  ghost function LeftAtLine(b: string, segs: seq<string>): nat
    requires Segments(segs)
    decreases |b| + |Flatten(segs)|, |Flatten(segs)|, 2
  {
    match Index(b, "\n")
    case Some(i) => LeftBehindLine(b, i, segs)
    case None =>
      if |b| >= MAX_LINE || segs == [] then |Flatten(segs)|
      else
        RefillShrinks(|b|, segs);
        LeftAtLine(b + segs[0][..Refill(|b|, segs)], Drop(segs, Refill(|b|, segs)))
  }

  /** The size line is in the buffer, up to position `i`. */
  ghost function LeftBehindLine(b: string, i: nat, segs: seq<string>): nat
    requires Segments(segs) && i < |b|
    decreases |b| + |Flatten(segs)|, 0, 1
  {
    if i + 1 < MAX_LINE then LeftBehindSize(Trimmed(b[..i + 1]), b[i + 1..], segs) else |Flatten(segs)|
  }

  /** Behind a size line that was read. */
  ghost function LeftBehindSize(line: string, b: string, segs: seq<string>): nat
    requires Segments(segs)
    decreases |b| + |Flatten(segs)|, |Flatten(segs)|, 1
  {
    match Hex.Parse(line)
    case None => |Flatten(segs)|
    case Some(m) => if m == 0 then |Flatten(segs)| else LeftInChunk(m, b, segs)
  }

  /** The same inside a chunk, with `n` bytes and the CRLF still to come. */
  ghost function LeftInChunk(n: nat, b: string, segs: seq<string>): nat
    requires Segments(segs)
    decreases |b| + |Flatten(segs)|, |Flatten(segs)|, 0
  {
    if |b| >= n + 2 then
      if b[n..n + 2] == CRLF then LeftAtLine(b[n + 2..], segs) else |Flatten(segs)|
    else if segs == [] then 0
    else
      RefillShrinks(0, segs);
      LeftInChunk(n, b + segs[0][..Refill(0, segs)], Drop(segs, Refill(0, segs)))
  }

  /** How many bytes a reader leaves behind that starts on this connection. */
  ghost function Stranded(segs: seq<string>): nat
    requires Segments(segs)
  {
    LeftAtLine("", segs)
  }

  /** Where the bytes of one read come from: the buffer, or one refill when that is empty. */
  ghost predicate Supplied(k: nat, b: string, segs: seq<string>, b': string, segs': seq<string>) {
    if k == 0 || b != "" || segs == [] then b' == b && segs' == segs
    else b' == segs[0][..Refill(0, segs)] && segs' == Drop(segs, Refill(0, segs))
  }

  /** Bytes that are asked for come from the same refills sooner or later. */
  lemma LeftSupplied(n: nat, x: string, k: nat, b: string, segs: seq<string>, b': string, segs': seq<string>)
    requires Segments(segs) && Segments(segs') && |x| < n + 2 && Supplied(k, b, segs, b', segs')
    ensures LeftInChunk(n, x + b', segs') == LeftInChunk(n, x + b, segs)
  {
    if b == "" { assert x + b == x; }
  }

  /** Data that was delivered makes no difference. */
  lemma {:induction false} LeftShift(n: nat, data: string, b: string, segs: seq<string>)
    requires Segments(segs) && |data| <= n
    ensures LeftInChunk(n, data + b, segs) == LeftInChunk(n - |data|, b, segs)
    decreases |Flatten(segs)|
  {
    var m := n - |data|;
    if |b| >= m + 2 {
      assert (data + b)[n..n + 2] == b[m..m + 2];
      assert (data + b)[n + 2..] == b[m + 2..];
    } else if segs != [] {
      var k := Refill(0, segs);
      RefillShrinks(0, segs);
      Associative(data, b, segs[0][..k]);
      LeftShift(n, data, b + segs[0][..k], Drop(segs, k));
    }
  }

  // ---------------------------------------------------------------------------------
  // The reader
  // ---------------------------------------------------------------------------------

  /** `chunkedReader` together with the private bufio.Reader it wraps around the
      connection. Whatever that private buffer still holds when the reader is abandoned
      is lost to the connection. */
  class ChunkedReader {
    const conn: Conn
    var buffered: string
    var n: nat
    var err: Option<Err>

    constructor (conn: Conn)
      requires Segments(conn.inbound)
      ensures Valid() && this.conn == conn && err == None && buffered == "" && n == 0
      ensures Remaining() == Flatten(conn.inbound)
      ensures Outcome() == Decode(0, Flatten(conn.inbound))
    {
      this.conn := conn;
      buffered, n, err := "", 0, None;
    }

    ghost predicate Valid()
      reads this, conn
    {
      Segments(conn.inbound) && |buffered| <= MAX_LINE && n < Hex.TWO64
    }

    /** The unread bytes. */
    ghost function Remaining(): string
      reads this, conn
    {
      buffered + Flatten(conn.inbound)
    }

    /** Everything the reader is still going to deliver. */
    ghost function Outcome(): Decoded
      reads this, conn
    {
      if err.Some? then Decoded("", err.value, Remaining()) else Decode(n, Remaining())
    }

    /** How many bytes are going to stay behind on the connection. */
    ghost function Left(): nat
      requires Valid()
      reads this, conn
    {
      if err.Some? then |Flatten(conn.inbound)|
      else if n == 0 then LeftAtLine(buffered, conn.inbound)
      else LeftInChunk(n, buffered, conn.inbound)
    }

    /** bufio.Reader.fill. */
    method Fill() returns (ok: bool)
      requires Valid() && |buffered| < MAX_LINE
      modifies `buffered, conn`inbound
      ensures Valid() && Remaining() == old(Remaining())
      ensures ok == (old(conn.inbound) != [])
      ensures !ok ==> buffered == old(buffered) && conn.inbound == []
      ensures ok ==>
                var k := Refill(old(|buffered|), old(conn.inbound));
                && k > 0 && buffered == old(buffered) + old(conn.inbound[0])[..k]
                && conn.inbound == Drop(old(conn.inbound), k)
    {
      var more := conn.Take(MAX_LINE - |buffered|);
      Associative(buffered, more, Flatten(conn.inbound));
      buffered := buffered + more;
      ok := more != "";
    }

    /** `readLine` over bufio.Reader.ReadSlice('\n'). */
    method ReadLine() returns (line: string, e: Option<Err>)
      requires Valid()
      modifies `buffered, conn`inbound
      ensures Valid()
      ensures LineOf(old(Remaining())) ==
              if e == None then Line(line, Remaining()) else NoLine(e.value, Remaining())
      ensures old(LeftAtLine(buffered, conn.inbound)) ==
              if e == None then LeftBehindSize(line, buffered, conn.inbound) else |Flatten(conn.inbound)|
    {
      ghost var all := Remaining();
      while true
        invariant Valid() && Remaining() == all
        invariant LeftAtLine(buffered, conn.inbound) == old(LeftAtLine(buffered, conn.inbound))
        decreases MAX_LINE - |buffered|
      {
        var at := Index(buffered, "\n");
        if at.Some? {
          line, e := TakeLine(at.value);
          return;
        }
        if |buffered| >= MAX_LINE {
          NoNewlineInPrefix(buffered, all);
          assert Flatten(conn.inbound) == all[MAX_LINE..];
          buffered := "";
          return "", Some(LineTooLong);
        }
        var more := Fill();
        if !more {
          assert buffered == all;
          buffered := "";
          return "", Some(UnexpectedEof);
        }
      }
    }

    /** The line is in the buffer, up to position `i`. */
    method TakeLine(i: nat) returns (line: string, e: Option<Err>)
      requires Valid() && Index(buffered, "\n") == Some(i)
      modifies `buffered
      ensures Valid()
      ensures LineOf(old(Remaining())) ==
              if e == None then Line(line, Remaining()) else NoLine(e.value, Remaining())
      ensures LeftBehindLine(old(buffered), i, conn.inbound) ==
              if e == None then LeftBehindSize(line, buffered, conn.inbound) else |Flatten(conn.inbound)|
    {
      ghost var all := Remaining();
      NewlineInPrefix(buffered, all, i);
      line := buffered[..i + 1];
      Associative(line, buffered[i + 1..], Flatten(conn.inbound));
      assert buffered == line + buffered[i + 1..];
      buffered := buffered[i + 1..];
      LineTaken(line, Remaining(), all, i);
      if |line| >= MAX_LINE {
        return "", Some(LineTooLong);
      }
      line := TrimTrailingWhitespace(line);
      e := None;
    }

    /** bufio.Reader.Read into a buffer of `k` bytes: at most one read of the connection,
        bypassing the private buffer when that is empty and `k` is at least its size. */
    method BufRead(k: nat) returns (data: string, eof: bool)
      requires Valid()
      modifies `buffered, conn`inbound
      ensures Valid() && |data| <= k
      ensures old(Remaining()) == data + Remaining()
      ensures eof <==> k > 0 && old(Remaining()) == ""
      ensures k > 0 && !eof ==> data != ""
      ensures Supplied(k, old(buffered), old(conn.inbound), data + buffered, conn.inbound)
    {
      eof := false;
      if k > 0 && buffered == "" {
        FlattenEmptyIff(conn.inbound);
        if k >= MAX_LINE {
          data := Bypass(k);
          return data, data == "";
        }
        var more := Fill();
        eof := !more;
      }
      data := TakeHeld(k);
    }

    /** Reading past the empty buffer. */
    method Bypass(k: nat) returns (data: string)
      requires Valid() && buffered == "" && k >= MAX_LINE
      modifies conn`inbound
      ensures Valid() && |data| <= k && (data == "" <==> old(conn.inbound) == [])
      ensures old(Remaining()) == data + Remaining()
      ensures Supplied(k, "", old(conn.inbound), data + buffered, conn.inbound)
    {
      data := conn.Take(k);
      assert data + buffered == data && buffered + Flatten(conn.inbound) == Flatten(conn.inbound);
      assert "" + old(Flatten(conn.inbound)) == old(Flatten(conn.inbound));
    }

    /** Handing out what the buffer holds. */
    method TakeHeld(k: nat) returns (data: string)
      requires Valid()
      modifies `buffered
      ensures Valid() && |data| <= k && data + buffered == old(buffered)
      ensures k > 0 && old(buffered) != "" ==> data != ""
      ensures old(Remaining()) == data + Remaining()
    {
      data := buffered[..Min(k, |buffered|)];
      Associative(data, buffered[|data|..], Flatten(conn.inbound));
      buffered := buffered[|data|..];
    }

    /** io.ReadFull into the two-byte buffer that takes the CRLF after a chunk. */
    method ReadPair() returns (pair: string, e: Option<Err>)
      requires Valid()
      modifies `buffered, conn`inbound
      ensures Valid() && old(Remaining()) == pair + Remaining() && |pair| <= 2
      ensures e == match |pair| case 0 => Some(Eof) case 1 => Some(UnexpectedEof) case _ => None
      ensures |pair| < 2 ==> Remaining() == ""
      ensures LeftInChunk(0, pair + buffered, conn.inbound) == old(LeftInChunk(0, buffered, conn.inbound))
    {
      pair := "";
      assert pair + buffered == buffered && pair + Remaining() == Remaining();
      while |pair| < 2
        invariant Valid() && |pair| <= 2 && old(Remaining()) == pair + Remaining()
        invariant LeftInChunk(0, pair + buffered, conn.inbound) == old(LeftInChunk(0, buffered, conn.inbound))
      {
        var eof;
        pair, eof := MorePair(pair);
        if eof { return pair, Some(if pair == "" then Eof else UnexpectedEof); }
      }
      e := None;
    }

    /** One round of it. */
    method MorePair(pair: string) returns (longer: string, eof: bool)
      requires Valid() && |pair| < 2
      modifies `buffered, conn`inbound
      ensures Valid() && |longer| <= 2 && (eof ==> longer == pair && Remaining() == "")
      ensures !eof ==> |longer| > |pair|
      ensures longer + Remaining() == pair + old(Remaining())
      ensures LeftInChunk(0, longer + buffered, conn.inbound) == LeftInChunk(0, pair + old(buffered), old(conn.inbound))
    {
      var more;
      more, eof := BufRead(2 - |pair|);
      LeftSupplied(0, pair, 2 - |pair|, old(buffered), old(conn.inbound), more + buffered, conn.inbound);
      Associative(pair, more, buffered);
      Associative(pair, more, Remaining());
      longer := pair + more;
    }

    /** `beginChunk` (lines 42-56). */
    method BeginChunk()
      requires Valid() && n == 0 && err == None
      modifies this, conn`inbound
      ensures Valid() && Outcome() == old(Outcome()) && Left() == old(Left())
      ensures err == None ==> n > 0
    {
      var line;
      line, err := ReadLine();
      if err.Some? { return; }
      var size := Hex.ParseHexUint(line);
      if size.None? {
        err := Some(BadLength(line));
        return;
      }
      n := size.value;
      if n == 0 {
        err := Some(Eof);
      }
    }

    /** The CRLF that closes a chunk (lines 73-80). */
    method EndChunk()
      requires Valid() && n == 0 && err == None
      modifies this, conn`inbound
      ensures Valid() && Outcome() == AfterChunk(old(Remaining()))
      ensures Left() == old(LeftInChunk(0, buffered, conn.inbound))
    {
      var pair;
      pair, err := ReadPair();
      if err == None && pair != CRLF {
        err := Some(Malformed);
      }
      DecodePair(pair, Remaining());
    }

    /** Reading inside a chunk (lines 68-72). */
    method ReadChunk(k: nat) returns (data: string)
      requires Valid() && n > 0 && err == None
      modifies this, conn`inbound
      ensures Valid() && |data| <= k
      ensures err == None || (err == Some(Eof) && n > 0)
      ensures old(Outcome()) == Prepend(data, if n == 0 then AfterChunk(Remaining()) else Outcome())
      ensures old(Left()) == if n == 0 then LeftInChunk(0, buffered, conn.inbound) else Left()
      ensures k > 0 && err == None ==> data != ""
    {
      var eof;
      data, eof := BufRead(Min(k, n));
      LeftSupplied(n, "", Min(k, n), old(buffered), old(conn.inbound), data + buffered, conn.inbound);
      assert "" + old(buffered) == old(buffered) && "" + (data + buffered) == data + buffered;
      if eof {
        err := Some(Eof);
      } else {
        DecodeSplit(n, data, Remaining());
        LeftShift(n, data, buffered, conn.inbound);
        n := n - |data|;
      }
    }

    /** `Read` (lines 58-82) into a buffer of `k` bytes: whatever the segments and buffer
        sizes, what is delivered now followed by what will be delivered is unchanged. */
    method Read(k: nat) returns (data: string, e: Option<Err>)
      requires Valid()
      modifies this, conn`inbound
      ensures Valid() && e == err && |data| <= k
      ensures old(Outcome()) == Prepend(data, Outcome()) && Left() == old(Left())
      ensures k > 0 && err == None ==> data != ""
    {
      if err.Some? { return "", err; }
      if n == 0 {
        BeginChunk();
        if err.Some? { return "", err; }
      }
      data := ReadChunk(k);
      if n == 0 && err == None {
        EndChunk();
      }
      e := err;
    }
  }

  lemma FlattenEmptyIff(segs: seq<string>)
    requires Segments(segs)
    ensures Flatten(segs) == "" <==> segs == []
  {}

  lemma NewlineInPrefix(prefix: string, s: string, i: nat)
    requires prefix <= s && Index(prefix, "\n") == Some(i)
    ensures Index(s, "\n") == Some(i)
  {
    assert s[i..i + 1] == prefix[i..i + 1];
    forall j: nat | j < i ensures !At(s, j, "\n") {
      assert s[j..j + 1] == prefix[j..j + 1];
      assert !At(prefix, j, "\n");
    }
    IndexIs(s, "\n", i);
  }

  lemma LineTaken(line: string, rest: string, s: string, i: nat)
    requires s == line + rest && |line| == i + 1 && Index(s, "\n") == Some(i)
    requires i + 1 >= MAX_LINE ==> i + 1 == MAX_LINE
    ensures LineOf(s) == if i + 1 < MAX_LINE then Line(Trimmed(line), rest) else NoLine(LineTooLong, rest)
  {
    assert s[..i + 1] == line && s[i + 1..] == rest;
  }

  lemma NoNewlineInPrefix(prefix: string, s: string)
    requires prefix <= s && Index(prefix, "\n") == None
    ensures Index(s, "\n").Some? ==> Index(s, "\n").value >= |prefix|
  {
    var at := Index(s, "\n");
    if at.Some? && at.value < |prefix| {
      assert s[at.value..at.value + 1] == prefix[at.value..at.value + 1];
      assert At(prefix, at.value, "\n");
    }
  }

  /** Delivering part of a chunk commutes with decoding. */
  lemma DecodeSplit(m: nat, data: string, after: string)
    requires 0 < m && |data| <= m
    ensures |data| < m ==> Decode(m, data + after) == Prepend(data, Decode(m - |data|, after))
    ensures |data| == m ==> Decode(m, data + after) == Prepend(data, AfterChunk(after))
  {
    var s, k := data + after, m - |data|;
    if m <= |s| {
      assert s[..m] == data + after[..k];
      assert s[m..] == after[k..];
      if k == 0 { assert after[..0] == "" && after[0..] == after; }
    }
  }

  lemma DecodePair(pair: string, rest: string)
    requires |pair| <= 2 && (|pair| < 2 ==> rest == "")
    ensures |pair| == 2 ==>
              AfterChunk(pair + rest) == if pair == CRLF then Decode(0, rest) else Decoded("", Malformed, rest)
    ensures |pair| == 1 ==> AfterChunk(pair + rest) == Decoded("", UnexpectedEof, "")
    ensures |pair| == 0 ==> AfterChunk(pair + rest) == Decoded("", Eof, "")
  {
    if |pair| == 2 {
      assert (pair + rest)[..2] == pair && (pair + rest)[2..] == rest;
    }
  }

  /** ioutil.ReadAll with the caller's buffer sizes: the result does not depend on them,
      nor on how the connection cuts its bytes into segments. */
  method ReadAll(r: ChunkedReader, sizes: nat -> nat) returns (data: string, e: Option<Err>)
    requires r.Valid()
    requires forall i: nat :: sizes(i) > 0
    modifies r, r.conn`inbound
    ensures r.Valid() && r.err.Some?
    ensures data == old(r.Outcome()).data
    ensures e == if old(r.Outcome()).end == Eof then None else Some(old(r.Outcome()).end)
    ensures r.Remaining() == old(r.Outcome()).rest
    ensures |Flatten(r.conn.inbound)| == old(r.Left())
  {
    data := "";
    ghost var all := r.Outcome();
    var i: nat := 0;
    while true
      invariant r.Valid() && all == Prepend(data, r.Outcome())
      invariant r.Left() == old(r.Left())
      decreases |r.Outcome().data|
    {
      ghost var before := r.Outcome();
      var more, end := r.Read(sizes(i));
      assert before.data == more + r.Outcome().data;
      Associative(data, more, r.Outcome().data);
      data := data + more;
      i := i + 1;
      if end.Some? {
        return data, if end == Some(Eof) then None else end;
      }
    }
  }

  // ---------------------------------------------------------------------------------
  // The writer
  // ---------------------------------------------------------------------------------

  /** One write on the wire; an empty write must not look like the end of the body. */
  function Chunk(data: string): string {
    if data == "" then "" else Hex.Format(|data|) + CRLF + data + CRLF
  }

  function Chunks(writes: seq<string>): string {
    if writes == [] then "" else Chunk(writes[0]) + Chunks(writes[1..])
  }

  const LAST_CHUNK := "0\r\n"

  /** `chunkedWriter`, writing to the connection. */
  class ChunkedWriter {
    const conn: Conn

    constructor (conn: Conn)
      ensures this.conn == conn
    {
      this.conn := conn;
    }

    /** `Write` (lines 138-158). */
    method Write(data: string) returns (n: nat)
      modifies conn`outbound
      ensures conn.outbound == old(conn.outbound) + Chunk(data)
      ensures n == |data|
    {
      if |data| == 0 { return 0; }
      conn.outbound := conn.outbound + (Hex.Format(|data|) + CRLF);
      conn.outbound := conn.outbound + data;
      conn.outbound := conn.outbound + CRLF;
      n := |data|;
    }

    /** `Close` (lines 160-163). */
    method Close()
      modifies conn`outbound
      ensures conn.outbound == old(conn.outbound) + LAST_CHUNK
    {
      conn.outbound := conn.outbound + LAST_CHUNK;
    }
  }

  // ---------------------------------------------------------------------------------
  // Round trips
  // ---------------------------------------------------------------------------------

  lemma LineOfText(text: string, rest: string)
    requires '\n' !in text && |text| + 2 < MAX_LINE
    requires text == "" || !IsAsciiSpace(text[|text| - 1])
    ensures LineOf(text + CRLF + rest) == Line(text, rest)
  {
    var s, i := text + CRLF + rest, |text| + 1;
    assert s[i..i + 1] == "\n";
    AtFirstByte(s, "\n");
    assert forall j | 0 <= j < i :: s[j] != '\n';
    IndexIs(s, "\n", i);
    assert s[..i + 1] == text + CRLF;
    TrimCrlf(text);
  }

  lemma TrimCrlf(text: string)
    requires text == "" || !IsAsciiSpace(text[|text| - 1])
    ensures Trimmed(text + CRLF) == text
  {
    TrimOne(text + "\r", '\n');
    assert text + CRLF == text + "\r" + "\n";
    TrimOne(text, '\r');
  }

  lemma TrimOne(text: string, c: char)
    requires IsAsciiSpace(c)
    ensures Trimmed(text + [c]) == Trimmed(text)
  {
    assert (text + [c])[..|text|] == text;
  }

  lemma HexIsText(n: nat)
    requires n < Hex.TWO64
    ensures '\n' !in Hex.Format(n) && |Hex.Format(n)| <= 16
    ensures !IsAsciiSpace(Hex.Format(n)[|Hex.Format(n)| - 1])
  {
    Hex.FormatLength64(n);
    var s := Hex.Format(n);
    forall i | 0 <= i < |s| ensures !IsAsciiSpace(s[i]) {
      assert Hex.DigitValue(s[i]).Some?;
    }
  }

  /** A size line announces its chunk. */
  lemma DecodeSize(n: nat, s: string)
    requires 0 < n < Hex.TWO64
    ensures Decode(0, Hex.Format(n) + CRLF + s) == Decode(n, s)
  {
    HexIsText(n);
    LineOfText(Hex.Format(n), s);
    Hex.ParseFormat(n);
    SizeLine(Hex.Format(n), n, Hex.Format(n) + CRLF + s, s);
  }

  lemma SizeLine(line: string, n: nat, all: string, s: string)
    requires n > 0 && LineOf(all) == Line(line, s) && Hex.Parse(line) == Some(n)
    ensures Decode(0, all) == Decode(n, s)
  {}

  /** One write is read back as itself, and decoding goes on behind it. */
  lemma DecodeChunk(data: string, s: string)
    requires |data| < Hex.TWO64
    ensures Decode(0, Chunk(data) + s) == Prepend(data, Decode(0, s))
  {
    if data == "" {
      assert Chunk(data) + s == s;
    } else {
      var body := data + (CRLF + s);
      assert Chunk(data) + s == Hex.Format(|data|) + CRLF + body;
      DecodeSize(|data|, body);
      DecodeSplit(|data|, data, CRLF + s);
      assert (CRLF + s)[..2] == CRLF && (CRLF + s)[2..] == s;
    }
  }

  lemma DecodeLast(s: string)
    ensures Decode(0, LAST_CHUNK + s) == Decoded("", Eof, s)
  {
    assert LAST_CHUNK == "0" + CRLF;
    LineOfText("0", s);
    assert Hex.Value("0"[..0]) == 0;
  }

  /** The codec round trip: reading what was written yields the concatenation of the
      writes, and stops right behind the last-chunk line. */
  lemma {:induction false} CodecRoundTrip(writes: seq<string>, tail: string)
    requires forall w | w in writes :: |w| < Hex.TWO64
    ensures Decode(0, Chunks(writes) + LAST_CHUNK + tail) == Decoded(Flatten(writes), Eof, tail)
    decreases |writes|
  {
    if writes == [] {
      DecodeLast(tail);
      assert Chunks(writes) + LAST_CHUNK + tail == LAST_CHUNK + tail;
    } else {
      var more := Chunks(writes[1..]) + LAST_CHUNK + tail;
      assert Chunks(writes) + LAST_CHUNK + tail == Chunk(writes[0]) + more;
      DecodeChunk(writes[0], more);
      CodecRoundTrip(writes[1..], tail);
    }
  }

  lemma OneMoreWrite(before: string, writes: seq<string>, i: nat)
    requires i < |writes|
    ensures before + Chunks(writes[..i]) + Chunk(writes[i]) == before + Chunks(writes[..i + 1])
  {
    Associative(before, Chunks(writes[..i]), Chunk(writes[i]));
    ChunksSnoc(writes[..i], writes[i]);
    assert writes[..i] + [writes[i]] == writes[..i + 1];
  }

  /** A body written in pieces and closed. */
  method WriteAll(w: ChunkedWriter, writes: seq<string>)
    modifies w.conn`outbound
    ensures w.conn.outbound == old(w.conn.outbound) + Chunks(writes) + LAST_CHUNK
  {
    ghost var before := w.conn.outbound;
    for i := 0 to |writes|
      invariant w.conn.outbound == before + Chunks(writes[..i])
    {
      var _ := w.Write(writes[i]);
      OneMoreWrite(before, writes, i);
    }
    assert writes[..|writes|] == writes;
    assert w.conn.outbound == before + Chunks(writes);
    w.Close();
  }

  /** The same over the running objects: every list of writes, every segmentation of the
      bytes, every sequence of buffer sizes. */
  method Transfer(writes: seq<string>, segs: seq<string>, tail: string, sizes: nat -> nat)
    returns (data: string, e: Option<Err>, r: ChunkedReader)
    requires forall w | w in writes :: |w| < Hex.TWO64
    requires Segments(segs) && Flatten(segs) == Chunks(writes) + LAST_CHUNK + tail
    requires forall i: nat :: sizes(i) > 0
    ensures data == Flatten(writes) && e == None && r.Remaining() == tail
  {
    CodecRoundTrip(writes, tail);
    var receiver := new Conn(segs, []);
    r := new ChunkedReader(receiver);
    data, e := ReadAll(r, sizes);
  }

  lemma {:induction false} ChunksSnoc(writes: seq<string>, w: string)
    ensures Chunks(writes + [w]) == Chunks(writes) + Chunk(w)
    decreases |writes|
  {
    if writes == [] {
      assert writes + [w] == [w];
    } else {
      ChunksSnoc(writes[1..], w);
      assert (writes + [w])[1..] == writes[1..] + [w];
      Associative(Chunk(writes[0]), Chunks(writes[1..]), Chunk(w));
    }
  }

  // ---------------------------------------------------------------------------------
  // Truncated streams
  // ---------------------------------------------------------------------------------

  lemma NoLineLeft(s: string)
    requires '\n' !in s && |s| < MAX_LINE
    ensures Decode(0, s) == Decoded("", UnexpectedEof, "")
  {
    forall j: nat ensures !At(s, j, "\n") {
      if j < |s| { assert s[j..j + 1] == [s[j]]; }
    }
  }

  lemma CutInside(n: nat, part: string)
    requires 0 < n < Hex.TWO64 && |part| <= n
    ensures Decode(0, Hex.Format(n) + CRLF + part) == Decoded(part, Eof, "")
  {
    DecodeSize(n, part);
    if |part| == n {
      assert part[..n] == part && part[n..] == "";
    }
  }

  lemma CutInCrlf(data: string)
    requires 0 < |data| < Hex.TWO64
    ensures Decode(0, Hex.Format(|data|) + CRLF + (data + "\r")) == Decoded(data, UnexpectedEof, "")
  {
    DecodeSize(|data|, data + "\r");
    DecodeSplit(|data|, data, "\r");
  }

  // ---------------------------------------------------------------------------------
  // Malformed streams
  // ---------------------------------------------------------------------------------

  /** A size line without a newline among its first 4095 bytes is too long. */
  lemma LongLine(s: string)
    requires |s| >= 4096 && forall i | 0 <= i < 4095 :: s[i] != '\n'
    ensures Decode(0, s) == Decoded("", LineTooLong, s[4096..])
  {
    AtFirstByte(s, "\n");
    var at := Index(s, "\n");
  }

  /** A size line that is not hexadecimal is bad, and what is behind it stays unread. */
  lemma BadLine(text: string, rest: string)
    requires '\n' !in text && |text| < 4094 && (text == "" || !IsAsciiSpace(text[|text| - 1]))
    requires exists i :: 0 <= i < |text| && Hex.DigitValue(text[i]) == None
    ensures Decode(0, text + CRLF + rest) == Decoded("", BadLength(text), rest)
  {
    LineOfText(text, rest);
  }

  /** A chunk that is not closed with CRLF is malformed; its data is delivered. */
  lemma BadEnd(data: string, pair: string, rest: string)
    requires 0 < |data| < Hex.TWO64 && |pair| == 2 && pair != "\r\n"
    ensures Decode(0, Hex.Format(|data|) + CRLF + (data + (pair + rest))) == Decoded(data, Malformed, rest)
  {
    DecodeSize(|data|, data + (pair + rest));
    DecodeSplit(|data|, data, pair + rest);
    DecodePair(pair, rest);
    assert data + "" == data;
  }

  /** A cut at `k` falls inside the data of the `i`-th write, or right behind it. */
  predicate CutInDataOf(writes: seq<string>, k: nat, i: nat)
    requires i < |writes|
  {
    writes[i] != "" && DataStart(writes, i) <= k <= DataStart(writes, i) + |writes[i]|
  }

  predicate CutInData(writes: seq<string>, k: nat) {
    exists i | 0 <= i < |writes| :: CutInDataOf(writes, k, i)
  }

  /** Where the data of the `i`-th write starts on the wire. */
  function DataStart(writes: seq<string>, i: nat): nat
    requires i < |writes|
  {
    |Chunks(writes[..i])| + |Hex.Format(|writes[i]|)| + 2
  }

  /** What the reader makes of a chunk that is cut. */
  lemma CutChunk(data: string, k: nat)
    requires 0 < |data| < Hex.TWO64 && k < |Chunk(data)|
    ensures var head := |Hex.Format(|data|)| + 2;
            var d := Decode(0, Chunk(data)[..k]);
            && (d.end == Eof <==> head <= k <= head + |data|)
            && (d.end == Eof ==> d.data == data[..k - head])
            && d.data <= data
  {
    var size := Hex.Format(|data|);
    var head := |size| + 2;
    HexIsText(|data|);
    ChunkPrefix(size + CRLF, data, k);
    if k < head {
      NoLineLeft(Chunk(data)[..k]);
    } else if k <= head + |data| {
      CutInside(|data|, data[..k - head]);
    } else {
      CutInCrlf(data);
    }
  }

  lemma ChunkPrefix(head: string, data: string, k: nat)
    requires k < |head + data + CRLF|
    ensures var s := head + data + CRLF;
            && (k < |head| ==> s[..k] == head[..k])
            && (|head| <= k <= |head| + |data| ==> s[..k] == head + data[..k - |head|])
            && (k == |head| + |data| + 1 ==> s[..k] == head + (data + "\r"))
  {}

  /** The positions in a list and in its tail. */
  lemma DataStartShift(writes: seq<string>, i: nat)
    requires 0 < i < |writes|
    ensures DataStart(writes, i) == |Chunk(writes[0])| + DataStart(writes[1..], i - 1)
    ensures Flatten(writes[..i]) == writes[0] + Flatten(writes[1..][..i - 1])
  {
    assert writes[..i][1..] == writes[1..][..i - 1];
  }

  /** Where a body is cut decides whether the cut is noticed: the reader reports a clean end
      exactly when the cut falls inside or right behind the data of a chunk, and has then
      delivered everything in front of the cut. */
  lemma {:induction false} TruncationNoticed(writes: seq<string>, k: nat)
    requires forall w | w in writes :: |w| < Hex.TWO64
    requires k < |Chunks(writes) + LAST_CHUNK|
    ensures Noticed(writes, k, Decode(0, (Chunks(writes) + LAST_CHUNK)[..k]))
    decreases |writes|
  {
    if writes == [] {
      CutLast(k);
    } else {
      var c, rest := Chunk(writes[0]), Chunks(writes[1..]) + LAST_CHUNK;
      Associative(c, Chunks(writes[1..]), LAST_CHUNK);
      CutSum(c, rest, k);
      if k < |c| {
        CutFirst(writes, k);
      } else {
        TruncationNoticed(writes[1..], k - |c|);
        CutBehind(writes, rest, k);
      }
    }
  }

  lemma CutLast(k: nat)
    requires k < |LAST_CHUNK|
    ensures Noticed([], k, Decode(0, (Chunks([]) + LAST_CHUNK)[..k]))
  {
    assert (Chunks([]) + LAST_CHUNK)[..k] == LAST_CHUNK[..k];
    NoLineLeft(LAST_CHUNK[..k]);
  }

  lemma CutFirst(writes: seq<string>, k: nat)
    requires writes != [] && |writes[0]| < Hex.TWO64 && k < |Chunk(writes[0])|
    ensures Noticed(writes, k, Decode(0, Chunk(writes[0])[..k]))
  {
    CutChunk(writes[0], k);
    DataStartFirst(writes);
    NoticedFirst(writes, k, Decode(0, Chunk(writes[0])[..k]));
  }

  lemma CutBehind(writes: seq<string>, rest: string, k: nat)
    requires writes != [] && |writes[0]| < Hex.TWO64 && |Chunk(writes[0])| <= k <= |Chunk(writes[0]) + rest|
    requires Noticed(writes[1..], k - |Chunk(writes[0])|, Decode(0, rest[..k - |Chunk(writes[0])|]))
    ensures Noticed(writes, k, Decode(0, Chunk(writes[0]) + rest[..k - |Chunk(writes[0])|]))
  {
    var part := rest[..k - |Chunk(writes[0])|];
    DecodeChunk(writes[0], part);
    NoticedLater(writes, k, Decode(0, part));
  }

  /** The verdict `d` on a body cut at `k`: a clean end exactly for a cut inside or right behind
      the data of a chunk, with everything in front of the cut delivered. */
  ghost predicate Noticed(writes: seq<string>, k: nat, d: Decoded) {
    && (d.end == Eof <==> CutInData(writes, k))
    && (forall i | 0 <= i < |writes| && CutInDataOf(writes, k, i) ::
          d.data == Flatten(writes[..i]) + writes[i][..k - DataStart(writes, i)])
    && d.data <= Flatten(writes)
  }

  lemma CutSum(a: string, b: string, k: nat)
    requires k <= |a + b|
    ensures (a + b)[..k] == if k < |a| then a[..k] else a + b[..k - |a|]
  {}

  /** The wire of the first write ends behind its data. */
  lemma DataStartFirst(writes: seq<string>)
    requires writes != []
    ensures DataStart(writes, 0) == |Hex.Format(|writes[0]|)| + 2 && Flatten(writes[..0]) == ""
    ensures writes[0] != "" ==> |Chunk(writes[0])| == DataStart(writes, 0) + |writes[0]| + 2
  {
    assert writes[..0] == [];
  }

  lemma NoticedFirst(writes: seq<string>, k: nat, d: Decoded)
    requires writes != [] && k < |Chunk(writes[0])|
    requires d.end == Eof <==> CutInDataOf(writes, k, 0)
    requires d.end == Eof ==> d.data == writes[0][..k - DataStart(writes, 0)]
    requires d.data <= writes[0]
    ensures Noticed(writes, k, d)
  {
    DataStartFirst(writes);
    forall i | 0 < i < |writes| ensures !CutInDataOf(writes, k, i) { DataStartShift(writes, i); }
    if CutInDataOf(writes, k, 0) {
      var part := writes[0][..k - DataStart(writes, 0)];
      assert "" + part == part;
    }
    assert Flatten(writes) == writes[0] + Flatten(writes[1..]);
  }

  lemma NoticedLater(writes: seq<string>, k: nat, d: Decoded)
    requires writes != [] && k >= |Chunk(writes[0])| && Noticed(writes[1..], k - |Chunk(writes[0])|, d)
    ensures Noticed(writes, k, Prepend(writes[0], d))
  {
    var k', tail := k - |Chunk(writes[0])|, writes[1..];
    LaterCuts(writes, k);
    forall i | 0 <= i < |writes| && CutInDataOf(writes, k, i)
      ensures writes[0] + d.data == Flatten(writes[..i]) + writes[i][..k - DataStart(writes, i)]
    {
      LaterData(writes, k, d, i);
    }
  }

  /** A cut behind the first chunk is a cut of the others. */
  lemma LaterCuts(writes: seq<string>, k: nat)
    requires writes != [] && k >= |Chunk(writes[0])|
    ensures !CutInDataOf(writes, k, 0)
    ensures CutInData(writes, k) <==> CutInData(writes[1..], k - |Chunk(writes[0])|)
  {
    var k', tail := k - |Chunk(writes[0])|, writes[1..];
    DataStartFirst(writes);
    if i :| 0 <= i < |writes| && CutInDataOf(writes, k, i) { CutShift(writes, k, i); }
    if j :| 0 <= j < |tail| && CutInDataOf(tail, k', j) { CutShift(writes, k, j + 1); }
  }

  lemma CutShift(writes: seq<string>, k: nat, i: nat)
    requires 0 < i < |writes| && k >= |Chunk(writes[0])|
    ensures CutInDataOf(writes, k, i) <==> CutInDataOf(writes[1..], k - |Chunk(writes[0])|, i - 1)
  {
    DataStartShift(writes, i);
  }

  lemma LaterData(writes: seq<string>, k: nat, d: Decoded, i: nat)
    requires 0 < i < |writes| && k >= |Chunk(writes[0])| && CutInDataOf(writes, k, i)
    requires Noticed(writes[1..], k - |Chunk(writes[0])|, d)
    ensures writes[0] + d.data == Flatten(writes[..i]) + writes[i][..k - DataStart(writes, i)]
  {
    var k', tail := k - |Chunk(writes[0])|, writes[1..];
    DataStartShift(writes, i);
    assert CutInDataOf(tail, k', i - 1);
    Associative(writes[0], Flatten(tail[..i - 1]), writes[i][..k - DataStart(writes, i)]);
  }
}
