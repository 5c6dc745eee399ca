/** strconv.Itoa and strconv.Atoi (64-bit int). */
module Decimal {
  import opened Strings

  const MAX_INT: nat := 0x7FFF_FFFF_FFFF_FFFF

  predicate IsDigit(c: char) { '0' <= c <= '9' }

  predicate AllDigits(s: string) { forall i | 0 <= i < |s| :: IsDigit(s[i]) }

  function Digit(d: nat): (c: char)
    requires d < 10
    ensures IsDigit(c) && c as int - '0' as int == d
  {
    (d + '0' as int) as char
  }

  function Itoa(n: nat): (s: string)
    ensures s != "" && AllDigits(s)
  {
    if n < 10 then [Digit(n)] else Itoa(n / 10) + [Digit(n % 10)]
  }

  /** The number a string of decimal digits stands for. */
  function Value(s: string): nat
    requires AllDigits(s)
  {
    if s == "" then 0 else Value(s[..|s| - 1]) * 10 + (s[|s| - 1] as int - '0' as int)
  }

  /** strconv.Atoi: an optional sign, at least one digit, and no overflow. */
  function Atoi(s: string): Option<int> {
    var signed := s != "" && (s[0] == '+' || s[0] == '-');
    var digits := if signed then s[1..] else s;
    if digits == "" || !AllDigits(digits) then None
    else if s[0] == '-' then
      if Value(digits) <= MAX_INT + 1 then Some(-(Value(digits) as int)) else None
    else
      if Value(digits) <= MAX_INT then Some(Value(digits)) else None
  }

  lemma {:induction false} ValueItoa(n: nat)
    ensures Value(Itoa(n)) == n
  {
    if n >= 10 {
      ValueItoa(n / 10);
      assert Itoa(n)[..|Itoa(n)| - 1] == Itoa(n / 10);
    }
  }

  /** Every length the printers write is read back unchanged. */
  lemma AtoiItoa(n: nat)
    requires n <= MAX_INT
    ensures Atoi(Itoa(n)) == Some(n)
  {
    ValueItoa(n);
    assert IsDigit(Itoa(n)[0]);
  }

  /** A minus sign, and the ends of the range. */
  lemma AtoiRange(n: nat)
    ensures Atoi(Itoa(n)) == if n <= MAX_INT then Some(n) else None
    ensures Atoi("-" + Itoa(n)) == if n <= MAX_INT + 1 then Some(-(n as int)) else None
  {
    ValueItoa(n);
    assert IsDigit(Itoa(n)[0]);
    assert ("-" + Itoa(n))[1..] == Itoa(n);
  }

  /** No leading zeros. */
  lemma {:induction false} ItoaLeads(n: nat)
    requires n > 0
    ensures Itoa(n)[0] != '0'
  {
    if n >= 10 {
      ItoaLeads(n / 10);
      assert Itoa(n)[0] == Itoa(n / 10)[0];
    }
  }

  /** "0" is printed for zero only, which is what the null-body decision tests. */
  lemma ItoaZero(n: nat)
    ensures Itoa(n) == "0" <==> n == 0
  {
    ValueItoa(n);
    if Itoa(n) == "0" {
      assert Value("0"[..0]) == 0;
    }
  }

  lemma ItoaNoByte(n: nat, c: char)
    requires !IsDigit(c)
    ensures c !in Itoa(n)
  {}
}
