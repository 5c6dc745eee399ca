/** The base64 treatment of request bodies in `RegularFile`: a body that looks like base64
    is decoded for scanning and encoded again afterwards. */
module Base64 {
  import opened Strings

  /** Bytes are characters below 256. */
  predicate IsBytes(s: string) { forall i | 0 <= i < |s| :: s[i] as int < 256 }

  // ---------------------------------------------------------------------------------
  // The alphabet (table 1 of RFC 4648)
  // ---------------------------------------------------------------------------------

  function ValueOf(c: char): (v: Option<nat>)
    ensures v.Some? ==> v.value < 64
  {
    if 'A' <= c <= 'Z' then Some(c as int - 'A' as int)
    else if 'a' <= c <= 'z' then Some(c as int - 'a' as int + 26)
    else if '0' <= c <= '9' then Some(c as int - '0' as int + 52)
    else if c == '+' then Some(62)
    else if c == '/' then Some(63)
    else None
  }

  predicate InAlphabet(c: char) { ValueOf(c).Some? }

  function CharOf(v: nat): (c: char)
    requires v < 64
    ensures ValueOf(c) == Some(v) && c as int < 128 && c != '='
  {
    if v < 26 then (v + 'A' as int) as char
    else if v < 52 then (v - 26 + 'a' as int) as char
    else if v < 62 then (v - 52 + '0' as int) as char
    else if v == 62 then '+'
    else '/'
  }

  lemma CharOfValue(c: char)
    requires InAlphabet(c)
    ensures CharOf(ValueOf(c).value) == c
  {}

  const UPPER := "ABCDEFGHIJKLMNOPQRSTUVWXYZ"
  const LOWER := "abcdefghijklmnopqrstuvwxyz"
  const ALPHABET := UPPER + LOWER + "0123456789+/"

  /** Table 1 of RFC 4648. */
  lemma AlphabetTable(v: nat, c: char)
    requires v < 64
    ensures CharOf(v) == ALPHABET[v]
    ensures InAlphabet(c) <==> c in ALPHABET
    ensures InAlphabet(c) ==> ALPHABET[ValueOf(c).value] == c
  {
    TableRow(v);
    if InAlphabet(c) {
      CharOfValue(c);
      TableRow(ValueOf(c).value);
    } else if c in ALPHABET {
      var i: nat :| i < |ALPHABET| && ALPHABET[i] == c;
      TableRow(i);
    }
  }

  lemma TableRow(v: nat)
    requires v < 64
    ensures |ALPHABET| == 64 && CharOf(v) == ALPHABET[v]
  {
    if v < 26 {
      UpperRow(v);
    } else if v < 52 {
      LowerRow(v - 26);
    } else {
      assert ALPHABET[v] == "0123456789+/"[v - 52];
    }
  }

  lemma UpperRow(v: nat)
    requires v < 26
    ensures UPPER[v] as int == 'A' as int + v
  {}

  lemma LowerRow(v: nat)
    requires v < 26
    ensures LOWER[v] as int == 'a' as int + v
  {}

  // ---------------------------------------------------------------------------------
  // Recognition
  // ---------------------------------------------------------------------------------

  predicate IsQuantum(q: string) {
    |q| == 4 && InAlphabet(q[0]) && InAlphabet(q[1]) && InAlphabet(q[2]) && InAlphabet(q[3])
  }

  predicate IsPaddedQuantum(q: string) {
    |q| == 4 && InAlphabet(q[0]) && InAlphabet(q[1]) && q[3] == '=' && (InAlphabet(q[2]) || q[2] == '=')
  }

  /** The regular expression ^([A-Za-z0-9+/]{4})*([A-Za-z0-9+/]{3}=|[A-Za-z0-9+/]{2}==)?$ */
  predicate Recognised(s: string) {
    || s == ""
    || IsPaddedQuantum(s)
    || (|s| >= 4 && IsQuantum(s[..4]) && Recognised(s[4..]))
  }

  /** The same in one look: a multiple of four, alphabet characters throughout, except that
      the last one or two may be padding. */
  predicate LooksEncoded(s: string) {
    var n := |s|;
    && n % 4 == 0
    && (forall i | 0 <= i < n - 2 :: InAlphabet(s[i]))
    && (|| n == 0
        || (InAlphabet(s[n - 2]) && (InAlphabet(s[n - 1]) || s[n - 1] == '='))
        || (s[n - 2] == '=' && s[n - 1] == '='))
  }

  lemma {:induction false} RecognisedExactly(s: string)
    ensures Recognised(s) <==> LooksEncoded(s)
    decreases |s|
  {
    if |s| > 4 {
      RecognisedExactly(s[4..]);
      assert forall i | 0 <= i < |s| - 4 :: s[4..][i] == s[i + 4];
      if LooksEncoded(s) {
        assert InAlphabet(s[0]) && InAlphabet(s[1]) && InAlphabet(s[2]);
        assert InAlphabet(s[3]);
      }
      if Recognised(s) {
        forall i | 0 <= i < |s| - 2 ensures InAlphabet(s[i]) {
          if i >= 4 { assert InAlphabet(s[4..][i - 4]); }
        }
      }
    } else if |s| == 4 {
      assert s[..4] == s && s[4..] == "";
    }
  }

  // ---------------------------------------------------------------------------------
  // Decoding and encoding
  // ---------------------------------------------------------------------------------

  function Byte(n: nat): (c: char)
    ensures c as int == n % 256
  {
    (n % 256) as char
  }

  /** 24 bits from four sextets, and from three bytes. */
  function Join24(a: nat, b: nat, c: nat, d: nat): nat { a * 0x4_0000 + b * 0x1000 + c * 0x40 + d }

  function Bytes24(p: nat, q: nat, r: nat): nat { p * 0x1_0000 + q * 0x100 + r }

  /** The k-th sextet: shifting and masking. */
  function Sextet(n: nat, shift: nat): (v: nat)
    requires shift > 0
    ensures v < 64
  {
    n / shift % 64
  }

  lemma BytesOf24(p: nat, q: nat, r: nat)
    requires p < 256 && q < 256 && r < 256
    ensures var n := p * 0x1_0000 + q * 0x100 + r;
            n / 0x1_0000 % 256 == p && n / 0x100 % 256 == q && n % 256 == r
  {
    var n := p * 0x1_0000 + q * 0x100 + r;
    assert n / 0x100 == p * 0x100 + q;
    assert n / 0x1_0000 == p;
  }

  lemma SextetsOf24(a: nat, b: nat, c: nat, d: nat)
    requires a < 64 && b < 64 && c < 64 && d < 64
    ensures var n := a * 0x4_0000 + b * 0x1000 + c * 0x40 + d;
            Sextet(n, 0x4_0000) == a && Sextet(n, 0x1000) == b && Sextet(n, 0x40) == c && Sextet(n, 1) == d
  {
    var n := a * 0x4_0000 + b * 0x1000 + c * 0x40 + d;
    assert n / 0x40 == a * 0x1000 + b * 0x40 + c;
    assert n / 0x1000 == a * 0x40 + b;
    assert n / 0x4_0000 == a;
  }

  /** Regrouping 24 bits: where the bits of each byte and of each sextet come from. */
  lemma BytesOfSextets(a: nat, b: nat, c: nat, d: nat)
    requires a < 64 && b < 64 && c < 64 && d < 64
    ensures var n := Join24(a, b, c, d);
            n / 0x1_0000 % 256 == a * 4 + b / 16 && n / 0x100 % 256 == b % 16 * 16 + c / 4 && n % 256 == c % 4 * 64 + d
  {
    BytesOf24(a * 4 + b / 16, b % 16 * 16 + c / 4, c % 4 * 64 + d);
  }

  lemma SextetsOfBytes(p: nat, q: nat, r: nat)
    requires p < 256 && q < 256 && r < 256
    ensures var n := Bytes24(p, q, r);
            && Sextet(n, 0x4_0000) == p / 4 && Sextet(n, 0x1000) == p % 4 * 16 + q / 16
            && Sextet(n, 0x40) == q % 16 * 4 + r / 64 && Sextet(n, 1) == r % 64
  {
    SextetsOf24(p / 4, p % 4 * 16 + q / 16, q % 16 * 4 + r / 64, r % 64);
  }

  /** The value of the k-th character; padding counts as zero bits. */
  function Bits(q: string, k: nat): (v: nat)
    requires k < |q|
    ensures v < 64
  {
    if InAlphabet(q[k]) then ValueOf(q[k]).value else 0
  }

  /** One quantum of Go's non-strict decoder. */
  function DecodeQuantum(q: string): (b: string)
    requires IsQuantum(q) || IsPaddedQuantum(q)
    ensures IsBytes(b) && |b| == if q[2] == '=' then 1 else if q[3] == '=' then 2 else 3
  {
    var n := Join24(Bits(q, 0), Bits(q, 1), Bits(q, 2), Bits(q, 3));
    if q[2] == '=' then [Byte(n / 0x1_0000)]
    else if q[3] == '=' then [Byte(n / 0x1_0000), Byte(n / 0x100)]
    else [Byte(n / 0x1_0000), Byte(n / 0x100), Byte(n)]
  }

  /** base64.StdEncoding.DecodeString on recognised text. */
  function Decode(s: string): (b: string)
    requires Recognised(s)
    ensures IsBytes(b)
    decreases |s|
  {
    if s == "" then ""
    else if IsPaddedQuantum(s) then DecodeQuantum(s)
    else DecodeQuantum(s[..4]) + Decode(s[4..])
  }

  /** The k-th byte of a group; a missing one counts as zero bits. */
  function Octet(b: string, k: nat): (v: nat)
    requires IsBytes(b)
    ensures v < 256
  {
    if k < |b| then b[k] as int else 0
  }

  /** Up to three bytes of input make one quantum. */
  function EncodeGroup(b: string): (q: string)
    requires 1 <= |b| <= 3 && IsBytes(b)
    ensures if |b| == 3 then IsQuantum(q) else IsPaddedQuantum(q) && (q[2] == '=' <==> |b| == 1)
  {
    var n := Bytes24(Octet(b, 0), Octet(b, 1), Octet(b, 2));
    [CharOf(Sextet(n, 0x4_0000)), CharOf(Sextet(n, 0x1000)),
     if |b| > 1 then CharOf(Sextet(n, 0x40)) else '=',
     if |b| > 2 then CharOf(Sextet(n, 1)) else '=']
  }

  /** base64.StdEncoding.EncodeToString. */
  function Encode(b: string): (s: string)
    requires IsBytes(b)
    decreases |b|
  {
    if b == "" then ""
    else if |b| <= 3 then EncodeGroup(b)
    else EncodeGroup(b[..3]) + Encode(b[3..])
  }

  /** A whole quantum and its three bytes are the same 24 bits, first ones first (section 4 of
      RFC 4648). */
  lemma QuantumBits(q: string)
    requires IsQuantum(q)
    ensures var b := DecodeQuantum(q);
            b[0] as int * 65536 + b[1] as int * 256 + b[2] as int ==
            ValueOf(q[0]).value * 262144 + ValueOf(q[1]).value * 4096 + ValueOf(q[2]).value * 64 + ValueOf(q[3]).value
  {
    BytesOfSextets(Bits(q, 0), Bits(q, 1), Bits(q, 2), Bits(q, 3));
  }

  /** Padded quanta hold the first bits of one or two bytes. */
  lemma PaddedBits(q: string)
    requires IsPaddedQuantum(q)
    ensures var b := DecodeQuantum(q);
            && (q[2] == '=' ==> b == [(ValueOf(q[0]).value * 4 + ValueOf(q[1]).value / 16) as char])
            && (q[2] != '=' ==>
                  && |b| == 2 && b[0] as int == ValueOf(q[0]).value * 4 + ValueOf(q[1]).value / 16
                  && b[1] as int == ValueOf(q[1]).value % 16 * 16 + ValueOf(q[2]).value / 4)
  {
    BytesOfSextets(Bits(q, 0), Bits(q, 1), Bits(q, 2), 0);
  }

  // ---------------------------------------------------------------------------------
  // Round trips
  // ---------------------------------------------------------------------------------

  /** Going to sextets and back. */
  lemma ThereAndBack(p: nat, q: nat, r: nat)
    requires p < 256 && q < 256 && r < 256
    ensures var a, b, c, d := p / 4, p % 4 * 16 + q / 16, q % 16 * 4 + r / 64, r % 64;
            && a * 4 + b / 16 == p
            && b % 16 * 16 + c / 4 == q
            && c % 4 * 64 + d == r
  {}

  lemma DecodeEncodeGroup(b: string)
    requires 1 <= |b| <= 3 && IsBytes(b)
    ensures DecodeQuantum(EncodeGroup(b)) == b
  {
    var x, y, z := Octet(b, 0), Octet(b, 1), Octet(b, 2);
    SextetsOfBytes(x, y, z);
    ThereAndBack(x, y, z);
    BytesOfSextets(x / 4, x % 4 * 16 + y / 16, y % 16 * 4 + z / 64, z % 64);
  }

  /** The bits of the last character that no byte takes are dropped (section 3.5 of
      RFC 4648). */
  function CanonicalQuantum(q: string): (r: string)
    requires IsQuantum(q) || IsPaddedQuantum(q)
    ensures |r| == 4
  {
    if q[2] == '=' then q[1 := CharOf(ValueOf(q[1]).value / 16 * 16)]
    else if q[3] == '=' then q[2 := CharOf(ValueOf(q[2]).value / 4 * 4)]
    else q
  }

  lemma BackAndThere(a: nat, b: nat, c: nat, d: nat)
    requires a < 64 && b < 64 && c < 64 && d < 64
    ensures var p, q, r := a * 4 + b / 16, b % 16 * 16 + c / 4, c % 4 * 64 + d;
            && p / 4 == a && p % 4 * 16 + q / 16 == b && q % 16 * 4 + r / 64 == c && r % 64 == d
            && p % 4 * 16 == b / 16 * 16 && q % 16 * 4 == c / 4 * 4
  {}

  lemma FullQuantum(q: string)
    requires IsQuantum(q)
    ensures EncodeGroup(DecodeQuantum(q)) == q
  {
    var a, b, c, d := Bits(q, 0), Bits(q, 1), Bits(q, 2), Bits(q, 3);
    BytesOfSextets(a, b, c, d);
    BackAndThere(a, b, c, d);
    SextetsOfBytes(a * 4 + b / 16, b % 16 * 16 + c / 4, c % 4 * 64 + d);
    CharOfValue(q[0]);
    CharOfValue(q[1]);
    CharOfValue(q[2]);
    CharOfValue(q[3]);
  }

  lemma PaddedQuantum(q: string)
    requires IsPaddedQuantum(q)
    ensures EncodeGroup(DecodeQuantum(q)) == CanonicalQuantum(q)
  {
    if q[2] == '=' { TwoPads(q); } else { OnePad(q); }
  }

  lemma TwoPads(q: string)
    requires IsPaddedQuantum(q) && q[2] == '='
    ensures EncodeGroup(DecodeQuantum(q)) == CanonicalQuantum(q)
  {
    var a, b := Bits(q, 0), Bits(q, 1);
    BytesOfSextets(a, b, 0, 0);
    BackAndThere(a, b, 0, 0);
    CharOfValue(q[0]);
    SextetsOfBytes(a * 4 + b / 16, 0, 0);
  }

  lemma OnePad(q: string)
    requires IsPaddedQuantum(q) && q[2] != '='
    ensures EncodeGroup(DecodeQuantum(q)) == CanonicalQuantum(q)
  {
    OnePadBytes(q);
    TwoOctets(DecodeQuantum(q), Bits(q, 0), Bits(q, 1), Bits(q, 2));
    OnePadCanonical(q);
  }

  lemma OnePadCanonical(q: string)
    requires IsPaddedQuantum(q) && q[2] != '='
    ensures CanonicalQuantum(q) == [CharOf(Bits(q, 0)), CharOf(Bits(q, 1)), CharOf(Bits(q, 2) / 4 * 4), '=']
  {
    CharOfValue(q[0]);
    CharOfValue(q[1]);
  }

  lemma TwoOctets(d: string, a: nat, b: nat, c: nat)
    requires |d| == 2 && IsBytes(d) && a < 64 && b < 64 && c < 64
    requires Octet(d, 0) == a * 4 + b / 16 && Octet(d, 1) == b % 16 * 16 + c / 4 && Octet(d, 2) == 0
    ensures EncodeGroup(d) == [CharOf(a), CharOf(b), CharOf(c / 4 * 4), '=']
  {
    GroupOfTwo(d);
    BackAndThere(a, b, c, 0);
  }

  lemma GroupOfTwo(d: string)
    requires |d| == 2 && IsBytes(d)
    ensures var p, q := Octet(d, 0), Octet(d, 1);
            EncodeGroup(d) == [CharOf(p / 4), CharOf(p % 4 * 16 + q / 16), CharOf(q % 16 * 4), '=']
  {
    SextetsOfBytes(Octet(d, 0), Octet(d, 1), 0);
  }

  lemma OnePadBytes(q: string)
    requires IsPaddedQuantum(q) && q[2] != '='
    ensures var a, b, c, d := Bits(q, 0), Bits(q, 1), Bits(q, 2), DecodeQuantum(q);
            |d| == 2 && Octet(d, 0) == a * 4 + b / 16 && Octet(d, 1) == b % 16 * 16 + c / 4 && Octet(d, 2) == 0
  {
    BytesOfSextets(Bits(q, 0), Bits(q, 1), Bits(q, 2), 0);
  }

  /** What the whole text is turned into. */
  function Canonical(s: string): (r: string)
    requires Recognised(s)
    ensures |r| == |s|
    decreases |s|
  {
    if s == "" then ""
    else if IsPaddedQuantum(s) then CanonicalQuantum(s)
    else s[..4] + Canonical(s[4..])
  }

  /** The bits behind the last byte. */
  function PadBits(s: string): nat
    requires Recognised(s)
    decreases |s|
  {
    if s == "" then 0
    else if IsPaddedQuantum(s) then
      if s[2] == '=' then ValueOf(s[1]).value % 16 else ValueOf(s[2]).value % 4
    else PadBits(s[4..])
  }

  lemma EncodeStep(g: string, rest: string)
    requires IsBytes(g) && IsBytes(rest) && |g| == 3
    ensures IsBytes(g + rest) && Encode(g + rest) == EncodeGroup(g) + Encode(rest)
  {
    if rest == "" {
      assert g + rest == g;
    } else {
      assert (g + rest)[..3] == g && (g + rest)[3..] == rest;
    }
  }

  /** Encoding what was decoded gives the canonical form. */
  lemma {:induction false} EncodeDecode(s: string)
    requires Recognised(s)
    ensures Encode(Decode(s)) == Canonical(s)
    decreases |s|
  {
    if s != "" {
      if IsPaddedQuantum(s) {
        PaddedQuantum(s);
      } else {
        EncodeDecode(s[4..]);
        EncodeStep(DecodeQuantum(s[..4]), Decode(s[4..]));
        FullQuantum(s[..4]);
      }
    }
  }

  lemma NotPadded(q: string, rest: string)
    requires IsQuantum(q)
    ensures !IsPaddedQuantum(q + rest) && (q + rest)[..4] == q && (q + rest)[4..] == rest
  {
    assert (q + rest)[3] == q[3];
  }

  /** Every encoder output is recognised, decodes back, and is canonical. */
  lemma {:induction false} DecodeEncode(b: string)
    requires IsBytes(b)
    ensures Recognised(Encode(b)) && Decode(Encode(b)) == b && Canonical(Encode(b)) == Encode(b)
    decreases |b|
  {
    if 0 < |b| < 3 {
      DecodeEncodeGroup(b);
      PaddedQuantum(EncodeGroup(b));
    } else if |b| >= 3 {
      var q, rest := EncodeGroup(b[..3]), Encode(b[3..]);
      DecodeEncode(b[3..]);
      DecodeEncodeGroup(b[..3]);
      EncodeStep(b[..3], b[3..]);
      assert b[..3] + b[3..] == b;
      NotPadded(q, rest);
    }
  }

  /** A recognised text is its own canonical form exactly when its pad bits are zero. */
  lemma {:induction false} CanonicalExactly(s: string)
    requires Recognised(s)
    ensures Canonical(s) == s <==> PadBits(s) == 0
    decreases |s|
  {
    if s != "" {
      if IsPaddedQuantum(s) {
        var k := if s[2] == '=' then 1 else 2;
        CharOfValue(s[k]);
        var m := if s[2] == '=' then 16 else 4;
        var v := ValueOf(s[k]).value;
        assert CanonicalQuantum(s)[k] == CharOf(v / m * m);
        assert CanonicalQuantum(s) == s <==> CanonicalQuantum(s)[k] == s[k];
      } else {
        CanonicalExactly(s[4..]);
        assert s == s[..4] + s[4..];
      }
    }
  }

  /** The canonical form differs from the text at most in the character in front of the
      padding, is recognised, decodes to the same bytes, and is a fixed point. */
  lemma CanonicalForm(s: string)
    requires Recognised(s)
    ensures Recognised(Canonical(s)) && Canonical(Canonical(s)) == Canonical(s) && Decode(Canonical(s)) == Decode(s)
  {
    EncodeDecode(s);
    DecodeEncode(Decode(s));
  }

  lemma {:induction false} CanonicalChange(s: string, i: nat)
    requires Recognised(s) && i < |s| && Canonical(s)[i] != s[i]
    ensures i + 1 < |s| && s[i] != '=' && forall j | i < j < |s| :: s[j] == '='
    decreases |s|
  {
    if !IsPaddedQuantum(s) && i >= 4 {
      assert Canonical(s)[i] == Canonical(s[4..])[i - 4] && s[i] == s[4..][i - 4];
      CanonicalChange(s[4..], i - 4);
      assert forall j | i < j < |s| :: s[j] == s[4..][j - 4];
    }
  }

  // ---------------------------------------------------------------------------------
  // RegularFile
  // ---------------------------------------------------------------------------------

  /** What goes out for a body that was scanned and not changed. */
  function PassedThrough(body: string): string {
    if Recognised(body) then Canonical(body) else body
  }

  /** It is the body itself exactly when the body does not look like base64 or has no
      stray pad bits. */
  lemma PassedThroughExactly(body: string)
    ensures PassedThrough(body) == body <==> !Recognised(body) || PadBits(body) == 0
    ensures PassedThrough(PassedThrough(body)) == PassedThrough(body)
  {
    if Recognised(body) {
      CanonicalExactly(body);
      CanonicalForm(body);
    }
  }

  /** service/services-utilities/ContentTypes/regularFile.go. */
  class RegularFile {
    var buf: string
    var encoded: bool

    constructor (buf: string, encoded: bool)
      ensures this.buf == buf && this.encoded == encoded
    {
      this.buf, this.encoded := buf, encoded;
    }

    /** `GetFileFromRequest`: the file to scan. */
    method GetFileFromRequest() returns (file: string)
      modifies this
      ensures encoded == Recognised(old(buf))
      ensures file == buf == if encoded then Decode(old(buf)) else old(buf)
    {
      encoded := Recognised(buf);
      if encoded {
        buf := Decode(buf);
      }
      file := buf;
    }

    /** `BodyAfterScanning`: the body to send for a scanned file. */
    method BodyAfterScanning(file: string) returns (body: string)
      requires encoded ==> IsBytes(file)
      ensures body == if encoded then Encode(file) else file
    {
      body := if encoded then Encode(file) else file;
    }
  }

  /** Scanning and going on without a change. */
  method ScanUnchanged(body: string) returns (sent: string)
    ensures sent == PassedThrough(body)
  {
    var f := new RegularFile(body, false);
    var file := f.GetFileFromRequest();
    sent := f.BodyAfterScanning(file);
    if Recognised(body) { EncodeDecode(body); }
  }
}
