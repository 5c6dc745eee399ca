/** The operations of Go's `strings` package that the ICAP code relies on.
    Go strings and byte slices are both sequences of bytes; a byte is written here as
    the character with that code. */
module Strings {

  datatype Option<+T> = None | Some(value: T)

  const CRLF := "\r\n"
  const DOUBLE_CRLF := "\r\n\r\n"

  /** `sep` occurs in `s` at position `i`. */
  predicate At(s: string, i: nat, sep: string) {
    i + |sep| <= |s| && s[i..i + |sep|] == sep
  }

  predicate HasSuffix(s: string, suffix: string) {
    |suffix| <= |s| && s[|s| - |suffix|..] == suffix
  }

  /** strings.Index: the first occurrence. */
  function Index(s: string, sep: string): (r: Option<nat>)
    ensures r.Some? ==> At(s, r.value, sep) && forall j: nat | j < r.value :: !At(s, j, sep)
    ensures r.None? ==> forall j: nat :: !At(s, j, sep)
  {
    IndexFrom(s, 0, sep)
  }

  function IndexFrom(s: string, i: nat, sep: string): (r: Option<nat>)
    requires forall j: nat | j < i :: !At(s, j, sep)
    ensures r.Some? ==> At(s, r.value, sep) && forall j: nat | j < r.value :: !At(s, j, sep)
    ensures r.None? ==> forall j: nat :: !At(s, j, sep)
    decreases |s| - i
  {
    if i + |sep| > |s| then None
    else if At(s, i, sep) then Some(i)
    else IndexFrom(s, i + 1, sep)
  }

  predicate Contains(s: string, sep: string) {
    Index(s, sep).Some?
  }

  /** The first occurrence is unique, so it can be exhibited. */
  lemma IndexIs(s: string, sep: string, i: nat)
    requires At(s, i, sep)
    requires forall j: nat | j < i :: !At(s, j, sep)
    ensures Index(s, sep) == Some(i)
  {
    var r := Index(s, sep);
    assert r.Some?;
  }

  /** strings.Split for a non-empty separator. */
  function Split(s: string, sep: string): (parts: seq<string>)
    requires sep != ""
    ensures parts != []
  {
    match Index(s, sep)
    case None => [s]
    case Some(i) => [s[..i]] + Split(s[i + |sep|..], sep)
  }

  /** strings.Join. */
  function Join(parts: seq<string>, sep: string): (s: string) {
    if parts == [] then ""
    else if |parts| == 1 then parts[0]
    else parts[0] + sep + Join(parts[1..], sep)
  }

  lemma {:induction false} JoinSplit(s: string, sep: string)
    requires sep != ""
    ensures Join(Split(s, sep), sep) == s
    decreases |s|
  {
    match Index(s, sep)
    case None =>
    case Some(i) =>
      JoinSplit(s[i + |sep|..], sep);
      assert Split(s, sep)[1..] == Split(s[i + |sep|..], sep);
      assert s == s[..i] + sep + s[i + |sep|..];
  }

  lemma Associative(a: string, b: string, c: string)
    ensures (a + b) + c == a + (b + c)
  {}

  lemma AtFirstByte(s: string, sep: string)
    requires sep != ""
    ensures forall j: nat | At(s, j, sep) :: s[j] == sep[0]
  {
    forall j: nat | At(s, j, sep) ensures s[j] == sep[0] {
      assert s[j..j + |sep|][0] == s[j];
    }
  }

  /** When no part contains the first byte of the separator, splitting undoes joining. */
  lemma {:induction false} SplitJoin(parts: seq<string>, sep: string)
    requires sep != "" && parts != []
    requires forall p | p in parts :: sep[0] !in p
    ensures Split(Join(parts, sep), sep) == parts
    decreases |parts|
  {
    var s := Join(parts, sep);
    var head := parts[0];
    AtFirstByte(s, sep);
    if |parts| == 1 {
      assert forall j: nat | j < |s| :: s[j] in head;
    } else {
      var tail := Join(parts[1..], sep);
      assert s == head + sep + tail;
      assert At(s, |head|, sep);
      forall j: nat | j < |head| ensures !At(s, j, sep) {
        assert s[j] == head[j] && head[j] in head;
      }
      IndexIs(s, sep, |head|);
      assert s[..|head|] == head && s[|head| + |sep|..] == tail;
      SplitJoin(parts[1..], sep);
    }
  }

  lemma {:induction false} SplitNoSep(s: string, sep: string)
    requires |sep| == 1
    ensures forall p | p in Split(s, sep) :: sep[0] !in p
    decreases |s|
  {
    match Index(s, sep)
    case None =>
      forall j | 0 <= j < |s| ensures s[j] != sep[0] {
        if s[j] == sep[0] { assert s[j..j + 1] == sep; assert At(s, j, sep); }
      }
    case Some(i) =>
      forall j | 0 <= j < i ensures s[..i][j] != sep[0] {
        if s[j] == sep[0] { assert s[j..j + 1] == sep; assert At(s, j, sep); }
      }
      SplitNoSep(s[i + 1..], sep);
  }

  /** ASCII white space, as strings.TrimSpace sees it. */
  predicate IsSpace(c: char) {
    c == ' ' || c == '\t' || c == '\n' || c == '\r' || c == 11 as char || c == 12 as char
  }

  function TrimLeftSpace(s: string): (r: string)
    ensures r == "" || !IsSpace(r[0])
    ensures |r| <= |s| && r == s[|s| - |r|..]
    ensures forall i | 0 <= i < |s| - |r| :: IsSpace(s[i])
  {
    if s != "" && IsSpace(s[0]) then TrimLeftSpace(s[1..]) else s
  }

  function TrimRightSpace(s: string): (r: string)
    ensures r == "" || !IsSpace(r[|r| - 1])
    ensures |r| <= |s| && r == s[..|r|]
    ensures forall i | |r| <= i < |s| :: IsSpace(s[i])
  {
    if s != "" && IsSpace(s[|s| - 1]) then TrimRightSpace(s[..|s| - 1]) else s
  }

  function TrimSpace(s: string): string {
    TrimRightSpace(TrimLeftSpace(s))
  }

  predicate Blank(s: string) { forall i | 0 <= i < |s| :: IsSpace(s[i]) }

  /** What is between two runs of white space. */
  lemma TrimSpaceIs(left: string, core: string, right: string)
    requires Blank(left) && Blank(right)
    requires core == "" || (!IsSpace(core[0]) && !IsSpace(core[|core| - 1]))
    ensures TrimSpace(left + core + right) == core
  {
    var s := left + core + right;
    var r := TrimLeftSpace(s);
    if core == "" {
      assert forall i | 0 <= i < |s| :: IsSpace(s[i]);
      assert r == "";
    } else {
      assert s[|left|] == core[0];
      assert |r| > 0 && r[0] == s[|s| - |r|];
      assert r == core + right;
      var t := TrimRightSpace(r);
      assert r[|core| - 1] == core[|core| - 1];
      assert t[|t| - 1] == r[|t| - 1];
    }
  }

  /** Every string is white space, its trimmed part, white space. */
  lemma TrimSpaceParts(s: string) returns (left: string, right: string)
    ensures Blank(left) && Blank(right) && s == left + TrimSpace(s) + right
    ensures var core := TrimSpace(s); core == "" || (!IsSpace(core[0]) && !IsSpace(core[|core| - 1]))
  {
    var r := TrimLeftSpace(s);
    var t := TrimRightSpace(r);
    left, right := s[..|s| - |r|], r[|t|..];
    LeftBlank(s);
    RightBlank(r);
    Regrouped(s, left, r, t, right);
  }

  lemma LeftBlank(s: string)
    ensures var r := TrimLeftSpace(s); s == s[..|s| - |r|] + r && Blank(s[..|s| - |r|])
  {}

  lemma RightBlank(s: string)
    ensures var r := TrimRightSpace(s); s == r + s[|r|..] && Blank(s[|r|..]) && (r != "" ==> r[0] == s[0])
  {}

  lemma Regrouped(s: string, left: string, r: string, t: string, right: string)
    requires s == left + r && r == t + right
    ensures s == left + t + right
  {}

  /** The same letter in either case, or the same other character. */
  predicate SameLetter(a: char, b: char) {
    || a == b
    || ('A' <= a <= 'Z' && b as int == a as int + 32)
    || ('A' <= b <= 'Z' && a as int == b as int + 32)
  }

  predicate EqualFold(s: string, t: string) {
    |s| == |t| && forall i | 0 <= i < |s| :: SameLetter(s[i], t[i])
  }

  /** ASCII case mapping. */
  function ToLower(s: string): (r: string)
    ensures EqualFold(r, s) && forall i | 0 <= i < |r| :: !('A' <= r[i] <= 'Z')
  {
    seq(|s|, i requires 0 <= i < |s| => if 'A' <= s[i] <= 'Z' then (s[i] as int + 32) as char else s[i])
  }

  function ToUpper(s: string): (r: string)
    ensures EqualFold(r, s) && forall i | 0 <= i < |r| :: !('a' <= r[i] <= 'z')
  {
    seq(|s|, i requires 0 <= i < |s| => if 'a' <= s[i] <= 'z' then (s[i] as int - 32) as char else s[i])
  }

  /** Comparing in lower case with a text in lower case. */
  lemma LowerEqual(s: string, t: string)
    requires forall i | 0 <= i < |t| :: !('A' <= t[i] <= 'Z')
    ensures ToLower(s) == t <==> EqualFold(s, t)
  {
    var r := ToLower(s);
    if EqualFold(s, t) {
      forall i | 0 <= i < |s| ensures r[i] == t[i] {
        assert SameLetter(r[i], s[i]) && SameLetter(s[i], t[i]);
      }
    }
  }

  /** Comparing in upper case. */
  lemma UpperEqual(s: string, t: string)
    ensures ToUpper(s) == ToUpper(t) <==> EqualFold(s, t)
  {
    var a, b := ToUpper(s), ToUpper(t);
    if EqualFold(s, t) {
      forall i | 0 <= i < |s| ensures a[i] == b[i] {
        assert SameLetter(a[i], s[i]) && SameLetter(s[i], t[i]) && SameLetter(b[i], t[i]);
      }
    }
  }

  /** The concatenation of a list of byte strings. */
  function Flatten(parts: seq<string>): string {
    if parts == [] then "" else parts[0] + Flatten(parts[1..])
  }

  lemma {:induction false} FlattenAppend(a: seq<string>, b: seq<string>)
    ensures Flatten(a + b) == Flatten(a) + Flatten(b)
    decreases |a|
  {
    if a == [] {
      assert a + b == b;
    } else {
      FlattenAppend(a[1..], b);
      assert (a + b)[1..] == a[1..] + b;
    }
  }
}
