/** The Encapsulated header (section 4.4.1 of RFC 3507): how `ReadRequest` scans it, how it
    cuts the stream into header blocks, and the lists the printers write. */
module Encapsulated {
  import opened Strings
  import Decimal

  /** The section names the scanning loop tells apart; it starts with no previous one. */
  datatype Key = NoKey | ReqHdr | ResHdr | ReqBody | ResBody | OptBody | NullBody | Unknown

  datatype Section = Section(key: Key, offset: int)

  function Name(key: Key): string
    requires Known(key)
  {
    match key
    case ReqHdr => "req-hdr"
    case ResHdr => "res-hdr"
    case ReqBody => "req-body"
    case ResBody => "res-body"
    case OptBody => "opt-body"
    case NullBody => "null-body"
  }

  function KeyOf(name: string): Key {
    if name == "" then NoKey
    else if name == "req-hdr" then ReqHdr
    else if name == "res-hdr" then ResHdr
    else if name == "req-body" then ReqBody
    else if name == "res-body" then ResBody
    else if name == "opt-body" then OptBody
    else if name == "null-body" then NullBody
    else Unknown
  }

  predicate IsHeader(k: Key) { k == ReqHdr || k == ResHdr }

  /** The keys that announce bytes behind the last header block. */
  predicate CarriesBody(k: Key) { k == ReqBody || k == ResBody || k == OptBody }

  predicate IsBody(k: Key) { CarriesBody(k) || k == NullBody }

  predicate Known(k: Key) { IsHeader(k) || IsBody(k) }

  /** One item of the list, `name=offset`. */
  function ParseItem(item: string): Option<Section> {
    match Index(item, "=")
    case None => None
    case Some(i) =>
      match Decimal.Atoi(item[i + 1..])
      case None => None
      case Some(v) => Some(Section(KeyOf(item[..i]), v))
  }

  function ParseItems(s: string): (items: seq<Option<Section>>)
    ensures items != []
  {
    var parts := Split(s, ", ");
    seq(|parts|, i requires 0 <= i < |parts| => ParseItem(parts[i]))
  }

  predicate Readable(items: seq<Option<Section>>) {
    forall i | 0 <= i < |items| :: items[i].Some?
  }

  function Sections(items: seq<Option<Section>>): (list: seq<Section>)
    requires Readable(items)
    ensures |list| == |items| && forall i | 0 <= i < |items| :: items[i] == Some(list[i])
  {
    seq(|items|, i requires 0 <= i < |items| => items[i].value)
  }

  /** The lists the server takes: known keys only, and a body key only at the end. */
  ghost predicate Accepted(list: seq<Section>) {
    && list != []
    && (forall i | 0 <= i < |list| :: Known(list[i].key))
    && (forall i | 0 <= i < |list| - 1 :: !IsBody(list[i].key))
  }

  datatype Layout = Layout(initialOffset: int, reqHdrLen: int, respHdrLen: int, hasBody: bool)

  /** The length the list announces for a header: up to the section that follows it. When
      a key is repeated the last one that is followed by another section counts. */
  ghost function Announced(list: seq<Section>, key: Key): int {
    if |list| < 2 then 0
    else if list[|list| - 2].key == key then list[|list| - 1].offset - list[|list| - 2].offset
    else Announced(list[..|list| - 1], key)
  }

  ghost function LayoutOf(list: seq<Section>): Layout
    requires list != []
  {
    Layout(list[0].offset, Announced(list, ReqHdr), Announced(list, ResHdr),
           CarriesBody(list[|list| - 1].key))
  }

  lemma OneSection(x: Section)
    ensures Accepted([x]) <==> Known(x.key)
    ensures LayoutOf([x]) == Layout(x.offset, 0, 0, CarriesBody(x.key))
  {
    assert [x][0] == x;
  }

  /** Appending a section settles the length of the one before it. */
  lemma Extend(list: seq<Section>, x: Section)
    requires Accepted(list)
    ensures var last := list[|list| - 1];
            && (Accepted(list + [x]) <==> Known(x.key) && IsHeader(last.key))
            && LayoutOf(list + [x]) ==
               Layout(list[0].offset,
                      if last.key == ReqHdr then x.offset - last.offset else LayoutOf(list).reqHdrLen,
                      if last.key == ResHdr then x.offset - last.offset else LayoutOf(list).respHdrLen,
                      CarriesBody(x.key))
  {
    var more, n := list + [x], |list|;
    assert more[..n] == list && more[n] == x && more[n - 1] == list[n - 1];
    assert forall i | 0 <= i < n :: more[i] == list[i];
    if Accepted(more) { assert !IsBody(more[n - 1].key); }
  }

  /** What the header means to the server. */
  ghost function LayoutFor(items: seq<Option<Section>>): Option<Layout>
    requires items != []
  {
    if Readable(items) && Accepted(Sections(items)) then Some(LayoutOf(Sections(items))) else None
  }

  lemma Rejected(items: seq<Option<Section>>, prefix: seq<Section>)
    requires 0 < |prefix| <= |items| && !Accepted(prefix)
    requires forall i | 0 <= i < |prefix| :: items[i] == Some(prefix[i])
    ensures LayoutFor(items) == None
  {
    if Readable(items) {
      var list := Sections(items);
      assert forall i | 0 <= i < |prefix| :: items[i] == Some(list[i]);
      assert list[..|prefix|] == prefix;
    }
  }

  /** The Encapsulated loop (icap/request.go:87-125) over the items of the header. */
  method Scan(items: seq<Option<Section>>) returns (layout: Option<Layout>)
    requires items != []
    ensures layout == LayoutFor(items)
  {
    var initialOffset, reqHdrLen, respHdrLen := 0, 0, 0;
    var hasBody := false;
    var prevKey, prevValue := NoKey, 0;
    ghost var list := [];
    for i := 0 to |items|
      invariant |list| == i && forall j | 0 <= j < i :: items[j] == Some(list[j])
      invariant i == 0 ==> prevKey == NoKey && reqHdrLen == 0 && respHdrLen == 0 && !hasBody
      invariant i > 0 ==> Accepted(list) && list[i - 1] == Section(prevKey, prevValue)
      invariant i > 0 ==> Layout(initialOffset, reqHdrLen, respHdrLen, hasBody) == LayoutOf(list)
    {
      if items[i] == None { return None; }
      var x := items[i].value;
      ghost var before := list;
      list := list + [x];
      if i > 0 { Extend(before, x); } else { OneSection(x); assert list == [x]; }
      match prevKey {
        case NoKey => initialOffset := x.offset;
        case ReqHdr => reqHdrLen := x.offset - prevValue;
        case ResHdr => respHdrLen := x.offset - prevValue;
        case _ =>
          Rejected(items, list);
          return None;
      }
      match x.key {
        case ReqHdr | ResHdr | NullBody =>
        case ReqBody | ResBody | OptBody => hasBody := true;
        case _ =>
          Rejected(items, list);
          return None;
      }
      prevValue, prevKey := x.offset, x.key;
    }
    assert list == Sections(items);
    layout := Some(Layout(initialOffset, reqHdrLen, respHdrLen, hasBody));
  }

  /** An accepted list has at most one body key, in the last position. */
  lemma BodyKeyLast(items: seq<Option<Section>>, i: nat)
    requires items != [] && LayoutFor(items).Some? && i < |items|
    requires IsBody(Sections(items)[i].key)
    ensures i == |items| - 1
    ensures LayoutFor(items).value.hasBody == CarriesBody(Sections(items)[i].key)
  {
    assert !(i < |items| - 1);
  }

  // ---------------------------------------------------------------------------------
  // Cutting the stream
  // ---------------------------------------------------------------------------------

  datatype Cut = Cut(request: string, response: string, rest: string)

  function Positive(n: int): nat { if n > 0 then n else 0 }

  /** The blocks `ReadRequest` reads in its fixed order (lines 127-149): filler, request
      header, response header. None when the stream is too short. */
  function Blocks(l: Layout, s: string): Option<Cut> {
    var a := Positive(l.initialOffset);
    var b := a + Positive(l.reqHdrLen);
    var c := HeaderBytes(l);
    if c <= |s| then Some(Cut(s[a..b], s[b..c], s[c..])) else None
  }

  function HeaderBytes(l: Layout): nat {
    Positive(l.initialOffset) + Positive(l.reqHdrLen) + Positive(l.respHdrLen)
  }

  ghost predicate NonDecreasing(list: seq<Section>) {
    && (forall i | 0 <= i < |list| :: 0 <= list[i].offset)
    && (forall i, j | 0 <= i < j < |list| :: list[i].offset <= list[j].offset)
  }

  /** Each header at most once, as the grammar of the header has it. */
  ghost predicate NoRepeat(list: seq<Section>) {
    forall i, j | 0 <= i < j < |list| :: list[i].key != list[j].key
  }

  ghost predicate Fits(list: seq<Section>, s: string) {
    NonDecreasing(list) && list != [] && list[|list| - 1].offset <= |s|
  }

  /** The bytes the list itself assigns to a header: from its offset to the next one. */
  ghost function Block(list: seq<Section>, key: Key, s: string): string
    requires Fits(list, s)
  {
    if |list| == 1 then ""
    else
      assert list[1..][|list| - 2] == list[|list| - 1];
      if list[0].key == key then s[list[0].offset..list[1].offset] else Block(list[1..], key, s)
  }

  /** What the reader cuts out is what the list announces, up to its last offset. */
  ghost predicate CutAsAnnounced(list: seq<Section>, s: string)
    requires Fits(list, s)
  {
    Blocks(LayoutOf(list), s) ==
    Some(Cut(Block(list, ReqHdr, s), Block(list, ResHdr, s), s[list[|list| - 1].offset..]))
  }

  /** A response header announced in front of a request header, neither of them empty. */
  ghost predicate Swapped(list: seq<Section>) {
    |list| == 3 && list[0].key == ResHdr && list[1].key == ReqHdr
    && list[0].offset < list[1].offset < list[2].offset
  }

  lemma TwoHeaders(a: Key, b: Key, c: Key)
    requires IsHeader(a) && IsHeader(b) && IsHeader(c)
    ensures a == b || a == c || b == c
  {}

  lemma AtMostThree(list: seq<Section>)
    requires Accepted(list) && NoRepeat(list)
    ensures |list| <= 3
    ensures |list| == 3 ==> list[0].key != list[1].key && IsHeader(list[0].key) && IsHeader(list[1].key)
  {
    assert forall i | 0 <= i < |list| - 1 :: Known(list[i].key) && !IsBody(list[i].key);
    if |list| > 3 { TwoHeaders(list[0].key, list[1].key, list[2].key); }
  }

  lemma CutOrdered(list: seq<Section>, s: string)
    requires Accepted(list) && NoRepeat(list) && Fits(list, s) && !Swapped(list)
    ensures CutAsAnnounced(list, s)
  {
    AtMostThree(list);
    var first, last := list[0].offset, list[|list| - 1].offset;
    assert s[first..first] == "" && s[last..last] == "";
    if |list| == 1 {
    } else if |list| == 2 {
      assert list[0].offset <= list[1].offset && IsHeader(list[0].key);
      assert list[1..] == [list[1]] && list[..1] == [list[0]];
      assert Announced(list[..1], ReqHdr) == 0 && Announced(list[..1], ResHdr) == 0;
    } else {
      assert list[0].offset <= list[1].offset <= list[2].offset;
      assert list[1..][0] == list[1] && list[1..][1] == list[2];
      assert list[1..][1..] == [list[2]];
      assert list[..2][0] == list[0] && list[..2][1] == list[1];
      var mid := list[1].offset;
      assert s[mid..mid] == "";
      assert Announced(list[..2], list[0].key) == mid - first;
      assert Announced(list, list[1].key) == last - mid;
      assert Block(list, list[0].key, s) == s[first..mid];
      assert Block(list[1..], list[1].key, s) == s[mid..last];
    }
  }

  /** Two non-empty headers in the other order are handed out as each other. */
  lemma CutSwapped(list: seq<Section>) returns (s: string)
    requires Accepted(list) && NonDecreasing(list) && Swapped(list)
    ensures Fits(list, s) && !CutAsAnnounced(list, s)
  {
    var a, b, c := list[0].offset, list[1].offset, list[2].offset;
    s := seq(c, i => if i == a then 'x' else 'y');
    assert list[..2][0] == list[0] && list[..2][1] == list[1];
    assert Announced(list[..2], ResHdr) == b - a;
    assert LayoutOf(list) == Layout(a, c - b, b - a, CarriesBody(list[2].key));
    assert Blocks(LayoutOf(list), s).value.request[0] == 'x';
    assert list[1..][0] == list[1] && list[1..][1] == list[2];
    assert Block(list, ReqHdr, s) == s[b..c];
    assert s[b..c][0] == 'y';
  }

  /** For lists without repeated keys and with non-decreasing offsets, the stream is cut
      as announced, whatever it holds, exactly when the headers come in the order in
      which the reader takes them. */
  lemma CutExactly(list: seq<Section>)
    requires Accepted(list) && NoRepeat(list) && NonDecreasing(list)
    ensures (forall s | Fits(list, s) :: CutAsAnnounced(list, s)) <==> !Swapped(list)
  {
    if Swapped(list) {
      var s := CutSwapped(list);
    } else {
      forall s | Fits(list, s) ensures CutAsAnnounced(list, s) { CutOrdered(list, s); }
    }
  }

  // ---------------------------------------------------------------------------------
  // Printing
  // ---------------------------------------------------------------------------------

  predicate Writable(x: Section) {
    Known(x.key) && 0 <= x.offset <= Decimal.MAX_INT
  }

  function PrintItem(x: Section): string
    requires Known(x.key) && x.offset >= 0
  {
    Name(x.key) + "=" + Decimal.Itoa(x.offset)
  }

  predicate Printable(list: seq<Section>) {
    list != [] && forall i | 0 <= i < |list| :: Writable(list[i])
  }

  function PrintItems(list: seq<Section>): (items: seq<string>)
    requires Printable(list)
    ensures |items| == |list|
  {
    seq(|list|, i requires 0 <= i < |list| => PrintItem(list[i]))
  }

  /** The form both printers use: `req-hdr=0, res-hdr=45, res-body=100`. */
  function Print(list: seq<Section>): string
    requires Printable(list)
  {
    Join(PrintItems(list), ", ")
  }

  lemma NameOf(key: Key)
    requires Known(key)
    ensures KeyOf(Name(key)) == key
    ensures '=' !in Name(key) && ',' !in Name(key)
  {}

  /** The names of the sections (section 4.4.1 of RFC 3507), and which of them announce a body. */
  lemma KeyNames(key: Key)
    requires Known(key)
    ensures key == ReqHdr ==> PrintItem(Section(key, 0)) == "req-hdr=0"
    ensures key == ResHdr ==> PrintItem(Section(key, 0)) == "res-hdr=0"
    ensures key == ReqBody ==> PrintItem(Section(key, 0)) == "req-body=0"
    ensures key == ResBody ==> PrintItem(Section(key, 0)) == "res-body=0"
    ensures key == OptBody ==> PrintItem(Section(key, 0)) == "opt-body=0"
    ensures key == NullBody ==> PrintItem(Section(key, 0)) == "null-body=0"
    ensures IsBody(key) <==> Contains(Name(key), "-body")
    ensures CarriesBody(key) <==> Contains(Name(key), "-body") && key != NullBody
  {
    var name := Name(key);
    assert Decimal.Itoa(0) == "0";
    if IsBody(key) {
      assert name[|name| - 5..|name| - 5 + 5] == "-body";
      assert At(name, |name| - 5, "-body");
    } else {
      assert name[3] == '-' && name[4] == 'h';
      var at := Index(name, "-body");
      assert |name| == 7;
      forall i: nat ensures !At(name, i, "-body") {
        if i <= 2 { assert name[i..i + 5][4] == name[i + 4] && name[i..i + 5][0] == name[i]; }
      }
    }
  }

  /** A key is known by exactly its name. */
  lemma KeyOfExactly(name: string, key: Key)
    requires Known(key)
    ensures KeyOf(name) == key <==> name == Name(key)
  {
    NameOf(key);
  }

  /** An item is a name, an equals sign and a number. */
  lemma ItemExactly(name: string, number: string)
    requires '=' !in name
    ensures ParseItem(name) == None
    ensures ParseItem(name + "=" + number) ==
            match Decimal.Atoi(number) case None => None case Some(v) => Some(Section(KeyOf(name), v))
  {
    var item, i := name + "=" + number, |name|;
    AtFirstByte(name, "=");
    assert item[i..i + 1] == "=";
    AtFirstByte(item, "=");
    assert forall j | 0 <= j < i :: item[j] == name[j];
    IndexIs(item, "=", i);
    assert item[..i] == name && item[i + 1..] == number;
  }

  lemma ItemRoundTrip(x: Section)
    requires Writable(x)
    ensures ParseItem(PrintItem(x)) == Some(x)
    ensures ',' !in PrintItem(x)
  {
    var name, digits := Name(x.key), Decimal.Itoa(x.offset);
    var item := PrintItem(x);
    NameOf(x.key);
    assert item[|name|..|name| + 1] == "=";
    AtFirstByte(item, "=");
    forall j: nat | j < |name| ensures !At(item, j, "=") { assert item[j] == name[j]; }
    IndexIs(item, "=", |name|);
    assert item[..|name|] == name && item[|name| + 1..] == digits;
    Decimal.AtoiItoa(x.offset);
    Decimal.ItoaNoByte(x.offset, ',');
  }

  lemma PrintOne(a: Section)
    requires Writable(a)
    ensures Printable([a]) && Print([a]) == PrintItem(a)
  {
    assert [a][0] == a;
  }

  lemma PrintMore(a: Section, rest: seq<Section>)
    requires Writable(a) && Printable(rest)
    ensures Printable([a] + rest) && Print([a] + rest) == PrintItem(a) + ", " + Print(rest)
  {
    var list := [a] + rest;
    assert list[0] == a && forall i | 0 <= i < |rest| :: list[i + 1] == rest[i];
    assert Printable(list);
    assert PrintItems(list)[1..] == PrintItems(rest);
  }

  /** The server recovers every list the printers write. */
  lemma PrintRoundTrip(list: seq<Section>)
    requires Printable(list)
    ensures Readable(ParseItems(Print(list))) && Sections(ParseItems(Print(list))) == list
  {
    var items := PrintItems(list);
    forall i | 0 <= i < |list| ensures ',' !in items[i] && ParseItem(items[i]) == Some(list[i]) {
      ItemRoundTrip(list[i]);
    }
    SplitJoin(items, ", ");
    var parsed := ParseItems(Print(list));
    assert forall i | 0 <= i < |list| :: parsed[i] == Some(list[i]);
    assert Sections(parsed) == list;
  }

  lemma {:induction false} JoinEnds(items: seq<string>, sep: string)
    requires items != [] && forall i | 0 <= i < |items| :: items[i] != ""
    ensures var s := Join(items, sep);
            s != "" && s[0] == items[0][0] && s[|s| - 1] == items[|items| - 1][|items[|items| - 1]| - 1]
    decreases |items|
  {
    if |items| > 1 {
      JoinEnds(items[1..], sep);
      assert items[1..][|items| - 2] == items[|items| - 1];
    }
  }

  lemma ItemEnds(x: Section)
    requires Writable(x)
    ensures var s := PrintItem(x); s != "" && !IsSpace(s[0]) && !IsSpace(s[|s| - 1])
  {
    var digits := Decimal.Itoa(x.offset);
    assert Decimal.IsDigit(digits[|digits| - 1]);
    assert PrintItem(x)[0] == Name(x.key)[0];
    assert PrintItem(x)[|PrintItem(x)| - 1] == digits[|digits| - 1];
  }

  /** Reading the header line strips the blank the client puts in front of the value. */
  lemma TrimPrinted(list: seq<Section>)
    requires Printable(list)
    ensures TrimSpace(" " + Print(list)) == Print(list) && Print(list) != ""
  {
    var items := PrintItems(list);
    forall i | 0 <= i < |list|
      ensures items[i] != "" && !IsSpace(items[i][0]) && !IsSpace(items[i][|items[i]| - 1])
    {
      ItemEnds(list[i]);
    }
    JoinEnds(items, ", ");
    TrimEnds(Print(list));
  }

  lemma TrimEnds(s: string)
    requires s != "" && !IsSpace(s[0]) && !IsSpace(s[|s| - 1])
    ensures TrimSpace(" " + s) == s
  {
    assert (" " + s)[1..] == s;
  }

  /** What a printed header value means to the server. */
  lemma HeaderRead(list: seq<Section>)
    requires Printable(list)
    ensures TrimSpace(" " + Print(list)) != ""
    ensures LayoutFor(ParseItems(TrimSpace(" " + Print(list)))) ==
            if Accepted(list) then Some(LayoutOf(list)) else None
  {
    TrimPrinted(list);
    PrintRoundTrip(list);
  }

  /** The same without the blank: what a printed list is scanned back to. */
  lemma ListRead(list: seq<Section>)
    requires Printable(list) && Accepted(list)
    ensures LayoutFor(ParseItems(Print(list))) == Some(LayoutOf(list))
  {
    PrintRoundTrip(list);
  }

  lemma OnlyBody(b: Section)
    requires IsBody(b.key)
    ensures Accepted([b]) && LayoutOf([b]) == Layout(b.offset, 0, 0, CarriesBody(b.key))
  {
    OneSection(b);
  }

  lemma HeaderAndBody(h: Section, b: Section)
    requires IsHeader(h.key) && IsBody(b.key)
    ensures Accepted([h] + [b])
    ensures LayoutOf([h] + [b]) ==
            Layout(h.offset, if h.key == ReqHdr then b.offset - h.offset else 0,
                   if h.key == ResHdr then b.offset - h.offset else 0, CarriesBody(b.key))
  {
    OneSection(h);
    Extend([h], b);
    assert [h][0] == h;
  }
}
