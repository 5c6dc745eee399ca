/** The chunk-size arithmetic: the shift-and-or loop of `parseHexUint` on 64-bit words,
    and the `%x` printer on the writing side. */
module Hex {
  import opened Strings

  const TWO64: nat := 0x1_0000_0000_0000_0000

  /** The value of one hexadecimal digit, in either case. */
  function DigitValue(c: char): (v: Option<nat>)
    ensures v.Some? ==> v.value < 16
  {
    if '0' <= c <= '9' then Some(c as int - '0' as int)
    else if 'a' <= c <= 'f' then Some(c as int - 'a' as int + 10)
    else if 'A' <= c <= 'F' then Some(c as int - 'A' as int + 10)
    else None
  }

  /** The digits. */
  lemma DigitTable(c: char, v: nat)
    ensures DigitValue(c) == Some(v) <==> v < 16 && (c == "0123456789abcdef"[v] || c == "0123456789ABCDEF"[v])
  {
    if v < 16 {
      assert v >= 10 ==> "0123456789abcdef"[v] as int == 'a' as int + (v - 10);
      assert v >= 10 ==> "0123456789ABCDEF"[v] as int == 'A' as int + (v - 10);
      assert v < 10 ==> "0123456789abcdef"[v] == "0123456789ABCDEF"[v];
      assert v < 10 ==> "0123456789abcdef"[v] as int == '0' as int + v;
    }
  }

  predicate AllHex(s: string) { forall i | 0 <= i < |s| :: DigitValue(s[i]).Some? }

  /** Positional value, unbounded. */
  function Value(s: string): nat
    requires AllHex(s)
  {
    if s == "" then 0 else Value(s[..|s| - 1]) * 16 + DigitValue(s[|s| - 1]).value
  }

  /** What a chunk-size line means: its positional value modulo 2^64. */
  function Parse(s: string): (r: Option<nat>)
    ensures r.Some? ==> r.value < TWO64
  {
    if AllHex(s) then Some(Value(s) % TWO64) else None
  }

  /** Bitwise or of two non-negative integers. */
  function BitOr(a: nat, b: nat): nat {
    if a == 0 && b == 0 then 0
    else 2 * BitOr(a / 2, b / 2) + (if a % 2 == 1 || b % 2 == 1 then 1 else 0)
  }

  lemma {:induction false} BitOrZero(a: nat)
    ensures BitOr(a, 0) == a
  {
    if a > 0 { BitOrZero(a / 2); }
  }

  lemma BitOrHalf(h: nat, b: nat)
    requires BitOr(h, b / 2) == h + b / 2
    ensures BitOr(2 * h, b) == 2 * h + b
  {
    assert (2 * h) / 2 == h && (2 * h) % 2 == 0;
  }

  /** Or-ing four low bits into a multiple of 16 adds them. */
  lemma BitOrLow(c: nat, b: nat)
    requires b < 16
    ensures BitOr(16 * c, b) == 16 * c + b
  {
    BitOrZero(c);
    BitOrHalf(c, b / 8);
    BitOrHalf(2 * c, b / 4);
    BitOrHalf(4 * c, b / 2);
    BitOrHalf(8 * c, b);
  }

  lemma ModWord(x: nat, d: nat) returns (c: nat)
    requires d < 16
    ensures (x % TWO64) * 16 % TWO64 == 16 * c
    ensures 16 * c + d == (x * 16 + d) % TWO64
  {
    var q, r := x / TWO64, x % TWO64;
    var k := r / (TWO64 / 16);
    c := r % (TWO64 / 16);
    Remainder(r * 16, k, 16 * c);
    Remainder(x * 16 + d, 16 * q + k, 16 * c + d);
  }

  lemma Remainder(y: nat, k: nat, m: nat)
    requires y == TWO64 * k + m && m < TWO64
    ensures y % TWO64 == m
  {}

  /** One round of the loop: shifting a word left by four and or-ing a digit in is
      positional evaluation modulo 2^64. */
  lemma ShiftOr(x: nat, d: nat)
    requires d < 16
    ensures BitOr((x % TWO64) * 16 % TWO64, d) == (x * 16 + d) % TWO64
  {
    var c := ModWord(x, d);
    assert BitOr(16 * c, d) == 16 * c + d by { BitOrLow(c, d); }
  }

  /** icap/chunked.go:165-181. */
  method ParseHexUint(v: string) returns (r: Option<nat>)
    ensures r == Parse(v)
  {
    var n: nat := 0;
    for i := 0 to |v|
      invariant n < TWO64
      invariant AllHex(v[..i]) && n == Value(v[..i]) % TWO64
    {
      n := n * 16 % TWO64;
      var b: nat;
      if '0' <= v[i] <= '9' {
        b := v[i] as int - '0' as int;
      } else if 'a' <= v[i] <= 'f' {
        b := v[i] as int - 'a' as int + 10;
      } else if 'A' <= v[i] <= 'F' {
        b := v[i] as int - 'A' as int + 10;
      } else {
        assert DigitValue(v[i]).None?;
        return None;
      }
      assert v[..i + 1][..i] == v[..i];
      ShiftOr(Value(v[..i]), b);
      n := BitOr(n, b);
    }
    assert v[..|v|] == v;
    r := Some(n);
  }

  function DigitChar(d: nat): (c: char)
    requires d < 16
    ensures DigitValue(c) == Some(d) && !('A' <= c <= 'F')
  {
    if d < 10 then (d + '0' as int) as char else (d - 10 + 'a' as int) as char
  }

  /** fmt's %x. */
  function Format(n: nat): (s: string)
    ensures s != "" && AllHex(s)
  {
    if n < 16 then [DigitChar(n)] else Format(n / 16) + [DigitChar(n % 16)]
  }

  lemma {:induction false} ValueFormat(n: nat)
    ensures Value(Format(n)) == n
  {
    if n >= 16 {
      ValueFormat(n / 16);
      assert Format(n)[..|Format(n)| - 1] == Format(n / 16);
    }
  }

  /** The parser inverts the printer on every 64-bit length. */
  lemma ParseFormat(n: nat)
    ensures Parse(Format(n)) == Some(n % TWO64)
  {
    ValueFormat(n);
  }

  function Pow16(k: nat): nat { if k == 0 then 1 else 16 * Pow16(k - 1) }

  lemma {:induction false} FormatLength(n: nat, k: nat)
    requires 0 < k && n < Pow16(k)
    ensures |Format(n)| <= k
    decreases k
  {
    if n >= 16 { FormatLength(n / 16, k - 1); }
  }

  lemma FormatLength64(n: nat)
    requires n < TWO64
    ensures |Format(n)| <= 16
  {
    assert Pow16(4) == 0x1_0000;
    assert Pow16(8) == 0x1_0000_0000;
    assert Pow16(12) == 0x1_0000_0000_0000;
    assert Pow16(16) == TWO64;
    FormatLength(n, 16);
  }

  /** Leading zeros do not change a length. */
  lemma {:induction false} LeadingZero(s: string)
    requires AllHex(s)
    ensures AllHex("0" + s) && Value("0" + s) == Value(s)
  {
    if s == "" {
      assert ("0" + s)[..0] == "";
    } else {
      LeadingZero(s[..|s| - 1]);
      assert ("0" + s)[..|s|] == "0" + s[..|s| - 1];
    }
  }

  /** Neither does the case of its letters. */
  lemma {:induction false} CaseInsensitive(s: string)
    ensures Parse(ToLower(s)) == Parse(s)
  {
    assert forall i | 0 <= i < |s| :: DigitValue(ToLower(s)[i]) == DigitValue(s[i]);
    if AllHex(s) {
      assert AllHex(ToLower(s));
      LowerValue(s);
    } else {
      var i :| 0 <= i < |s| && DigitValue(s[i]).None?;
      assert DigitValue(ToLower(s)[i]).None?;
    }
  }

  lemma {:induction false} LowerValue(s: string)
    requires AllHex(s) && AllHex(ToLower(s))
    ensures Value(ToLower(s)) == Value(s)
  {
    if s != "" {
      assert ToLower(s)[..|s| - 1] == ToLower(s[..|s| - 1]);
      LowerValue(s[..|s| - 1]);
    }
  }
}
