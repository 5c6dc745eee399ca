/** The endpoint index and its path matcher (business/urlmatcher.go). */
module UrlMatcher {
  import opened Strings

  // ---------------------------------------------------------------------------------
  // Paths
  // ---------------------------------------------------------------------------------

  /** What regexp.Compile makes of a pattern: nothing if it does not compile, otherwise the
      strings whose leftmost match is the whole string. */
  type Regexps = string -> Option<string -> bool>

  /** strings.Trim(s, "/"). */
  function TrimSlashesLeft(s: string): (r: string)
    ensures r == "" || r[0] != '/'
    ensures |r| <= |s| && r == s[|s| - |r|..]
    ensures forall i | 0 <= i < |s| - |r| :: s[i] == '/'
  {
    if s != "" && s[0] == '/' then TrimSlashesLeft(s[1..]) else s
  }

  function TrimSlashesRight(s: string): (r: string)
    ensures r == "" || r[|r| - 1] != '/'
    ensures |r| <= |s| && r == s[..|r|]
    ensures forall i | |r| <= i < |s| :: s[i] == '/'
  {
    if s != "" && s[|s| - 1] == '/' then TrimSlashesRight(s[..|s| - 1]) else s
  }

  function TrimSlashes(s: string): string {
    TrimSlashesRight(TrimSlashesLeft(s))
  }

  /** A path behind one slash at least, before exactly one trailing slash more than what one
      TrimSuffix leaves (lines 204-208, 210-214). */
  function Norm(p: string): (r: string)
    ensures r != "" && r[|r| - 1] == '/'
  {
    var rooted := if p != "" && p[0] == '/' then p else "/" + p;
    (if rooted[|rooted| - 1] == '/' then rooted[..|rooted| - 1] else rooted) + "/"
  }

  /** `isPathPlaceholder` (lines 16-19). */
  predicate IsPlaceholder(segment: string) {
    var s := TrimSpace(segment);
    |s| >= 3 && s[0] == '{' && s[|s| - 1] == '}'
  }

  const META := "^$.*+?[](){}|"

  /** `isRegexPattern` (lines 191-193). */
  predicate IsRegex(path: string) {
    exists i | 0 <= i < |path| :: path[i] in META
  }

  predicate SegmentFits(request: string, configured: string) {
    if IsPlaceholder(configured) then request != "" else request == configured
  }

  /** Segment by segment, a placeholder standing for any one non-empty segment. */
  predicate SegmentsFit(request: seq<string>, configured: seq<string>) {
    |request| == |configured| && forall i | 0 <= i < |request| :: SegmentFits(request[i], configured[i])
  }

  function Pieces(p: string): (r: seq<string>)
    ensures r != []
  {
    Split(TrimSlashes(p), "/")
  }

  predicate SegmentMatch(request: string, configured: string) {
    SegmentsFit(Pieces(request), Pieces(configured))
  }

  /** `pathSegmentMatch` (lines 170-188). */
  method PathSegmentMatch(requestPath: string, configuredPath: string) returns (b: bool)
    ensures b == SegmentMatch(requestPath, configuredPath)
  {
    b := SegmentsScan(Pieces(requestPath), Pieces(configuredPath));
  }

  method SegmentsScan(reqSegs: seq<string>, cfgSegs: seq<string>) returns (b: bool)
    ensures b == SegmentsFit(reqSegs, cfgSegs)
  {
    if |reqSegs| != |cfgSegs| { return false; }
    for i := 0 to |cfgSegs|
      invariant forall j | 0 <= j < i :: SegmentFits(reqSegs[j], cfgSegs[j])
    {
      var fits := true;
      if IsPlaceholder(cfgSegs[i]) {
        fits := reqSegs[i] != "";
      } else {
        fits := reqSegs[i] == cfgSegs[i];
      }
      assert fits == SegmentFits(reqSegs[i], cfgSegs[i]);
      if !fits { return false; }
    }
    return true;
  }

  /** A regular expression has to match the normalised path, or that without its last slash. */
  predicate RegexPath(compiled: Option<string -> bool>, request: string)
    requires request != ""
  {
    match compiled
    case None => false
    case Some(whole) => whole(request) || (|request| > 1 && whole(request[..|request| - 1]))
  }

  predicate LiteralPath(request: string, configured: string, record: bool) {
    SegmentMatch(request, configured) || if record then request == configured else configured <= request
  }

  /** One configured path against the normalised request path. */
  predicate OnePath(re: Regexps, request: string, configured: string, record: bool)
    requires request != ""
  {
    if IsRegex(configured) then RegexPath(re(configured), request)
    else LiteralPath(request, Norm(configured), record)
  }

  predicate AnyPath(re: Regexps, request: string, paths: seq<string>, record: bool)
    requires request != ""
  {
    exists i | 0 <= i < |paths| :: OnePath(re, request, paths[i], record)
  }

  predicate PathMatches(re: Regexps, request: string, paths: seq<string>, record: bool) {
    paths == [] || AnyPath(re, Norm(request), paths, record)
  }

  /** `pathMatches` (lines 200-253). */
  method PathMatchesScan(re: Regexps, requestPath: string, paths: seq<string>, record: bool) returns (b: bool)
    ensures b == PathMatches(re, requestPath, paths, record)
  {
    if |paths| == 0 { return true; }
    b := AnyPathScan(re, Norm(requestPath), paths, record);
  }

  /** Its loop. */
  method AnyPathScan(re: Regexps, normReq: string, paths: seq<string>, record: bool) returns (b: bool)
    requires normReq != ""
    ensures b == AnyPath(re, normReq, paths, record)
  {
    for i := 0 to |paths|
      invariant forall j | 0 <= j < i :: !OnePath(re, normReq, paths[j], record)
    {
      var fits := PathScan(re, normReq, paths[i], record);
      if fits { return true; }
    }
    return false;
  }

  /** The body of that loop. */
  method PathScan(re: Regexps, normReq: string, configuredPath: string, record: bool) returns (b: bool)
    requires normReq != ""
    ensures b == OnePath(re, normReq, configuredPath, record)
  {
    if IsRegex(configuredPath) {
      var compiled := re(configuredPath);
      if compiled == None { return false; }
      var whole := compiled.value;
      if whole(normReq) { return true; }
      var shorter := normReq[..|normReq| - 1];
      return shorter != "" && whole(shorter);
    }
    var normPath := Norm(configuredPath);
    b := PathSegmentMatch(normReq, normPath);
    if !b {
      b := if record then normReq == normPath else normPath <= normReq;
    }
  }

  /** A placeholder is something between braces, and white space around them. */
  lemma PlaceholderExactly(segment: string)
    ensures IsPlaceholder(segment) <==>
              exists left, name, right ::
                Blank(left) && Blank(right) && name != "" && segment == left + Braced(name) + right
  {
    if IsPlaceholder(segment) {
      var left, name, right := PlaceholderParts(segment);
    }
    if left, name, right :|
      Blank(left) && Blank(right) && name != "" && segment == left + Braced(name) + right
    {
      PlaceholderOf(left, name, right);
    }
  }

  lemma PlaceholderParts(segment: string) returns (left: string, name: string, right: string)
    requires IsPlaceholder(segment)
    ensures Blank(left) && Blank(right) && name != "" && segment == left + Braced(name) + right
  {
    var s := TrimSpace(segment);
    left, right := TrimSpaceParts(segment);
    name := s[1..|s| - 1];
    assert s == Braced(name);
  }

  lemma PlaceholderOf(left: string, name: string, right: string)
    requires Blank(left) && Blank(right) && name != ""
    ensures IsPlaceholder(left + Braced(name) + right)
  {
    TrimSpaceIs(left, Braced(name), right);
  }

  function Braced(name: string): string { "{" + name + "}" }

  /** The characters that make a path a regular expression. */
  lemma RegexExactly(path: string)
    ensures IsRegex(path) <==>
              || '^' in path || '$' in path || '.' in path || '*' in path || '+' in path || '?' in path || '[' in path
              || ']' in path || '(' in path || ')' in path || '{' in path || '}' in path || '|' in path
  {
    assert forall c :: c in META <==> c in {'^', '$', '.', '*', '+', '?', '[', ']', '(', ')', '{', '}', '|'} by {
      MetaChars();
    }
  }

  lemma MetaChars()
    ensures forall c :: c in META <==> c in {'^', '$', '.', '*', '+', '?', '[', ']', '(', ')', '{', '}', '|'}
  {
    assert META == ['^', '$', '.', '*', '+', '?', '[', ']', '(', ')', '{', '}', '|'];
  }

  // Trimming ------------------------------------------------------------------------

  predicate AllSlashes(s: string) { forall i | 0 <= i < |s| :: s[i] == '/' }

  /** What is left between two runs of slashes is unique. */
  lemma TrimIs(left: string, core: string, right: string)
    requires AllSlashes(left) && AllSlashes(right)
    requires core == "" || (core[0] != '/' && core[|core| - 1] != '/')
    ensures TrimSlashes(left + core + right) == core
  {
    var s := left + core + right;
    var r := TrimSlashesLeft(s);
    if core == "" {
      assert forall i | 0 <= i < |s| :: s[i] == '/';
      assert r == "";
    } else {
      assert s[|left|] == core[0];
      assert |s| - |r| <= |left|;
      assert |r| > 0 && r[0] == s[|s| - |r|];
      assert |s| - |r| >= |left|;
      assert r == core + right;
      var t := TrimSlashesRight(r);
      assert r[|core| - 1] == core[|core| - 1];
      assert |t| >= |core|;
      assert t[|t| - 1] == r[|t| - 1];
    }
  }

  /** Every string is slashes, its trimmed part, slashes. */
  lemma TrimParts(s: string) returns (left: string, right: string)
    ensures AllSlashes(left) && AllSlashes(right) && s == left + TrimSlashes(s) + right
    ensures var core := TrimSlashes(s); core == "" || (core[0] != '/' && core[|core| - 1] != '/')
  {
    var r;
    left, r := LeftPart(s);
    right := RightPart(r);
    Regrouped(s, left, r, TrimSlashes(s), right);
  }

  lemma LeftPart(s: string) returns (left: string, r: string)
    ensures r == TrimSlashesLeft(s) && s == left + r && AllSlashes(left)
  {
    r := TrimSlashesLeft(s);
    left := s[..|s| - |r|];
  }

  lemma RightPart(s: string) returns (right: string)
    ensures var r := TrimSlashesRight(s); s == r + right && AllSlashes(right) && (r != "" ==> r[0] == s[0])
  {
    right := s[|TrimSlashesRight(s)|..];
  }

  lemma PrependSlash(p: string)
    ensures TrimSlashes("/" + p) == TrimSlashes(p)
  {
    assert ("/" + p)[1..] == p;
  }

  lemma AppendSlash(p: string)
    ensures TrimSlashes(p + "/") == TrimSlashes(p)
  {
    var left, right := TrimParts(p);
    var core := TrimSlashes(p);
    assert p + "/" == left + core + (right + "/");
    TrimIs(left, core, right + "/");
  }

  /** Normalising only touches slashes at the ends. */
  lemma NormTrims(p: string)
    ensures TrimSlashes(Norm(p)) == TrimSlashes(p)
  {
    PrependSlash(p);
    var rooted := if p != "" && p[0] == '/' then p else "/" + p;
    if rooted[|rooted| - 1] == '/' {
      assert rooted[..|rooted| - 1] + "/" == rooted;
    } else {
      AppendSlash(rooted);
    }
  }

  // Literal paths -------------------------------------------------------------------

  lemma {:induction false} SplitParts(s: string, k: nat, c: char)
    requires k < |Split(s, "/")| && c in Split(s, "/")[k]
    ensures c in s
    decreases |s|
  {
    match Index(s, "/")
    case None =>
    case Some(i) => if k > 0 { SplitParts(s[i + 1..], k - 1, c); }
  }

  lemma PlaceholderBrace(segment: string)
    requires IsPlaceholder(segment)
    ensures '{' in segment
  {
    var t := TrimLeftSpace(segment);
    assert t[0] == segment[|segment| - |t|];
  }

  lemma BraceIsRegex(path: string)
    requires '{' in path
    ensures IsRegex(path)
  {
    var i :| 0 <= i < |path| && path[i] == '{';
    assert META[10] == '{';
  }

  /** A path with a placeholder segment counts as a regular expression, so `pathMatches`
      never takes it to the segment matcher. */
  lemma PlaceholderIsRegex(configured: string, k: nat)
    requires k < |Pieces(configured)| && IsPlaceholder(Pieces(configured)[k])
    ensures IsRegex(configured)
  {
    PlaceholderBrace(Pieces(configured)[k]);
    SplitParts(TrimSlashes(configured), k, '{');
    var left, right := TrimParts(configured);
    BraceIsRegex(configured);
  }

  /** Without placeholders, the segment matcher compares the trimmed paths. */
  lemma LiteralSegments(request: string, configured: string)
    requires !IsRegex(configured)
    ensures SegmentMatch(Norm(request), Norm(configured)) <==> TrimSlashes(request) == TrimSlashes(configured)
  {
    NormTrims(request);
    NormTrims(configured);
    forall k | 0 <= k < |Pieces(configured)| ensures !IsPlaceholder(Pieces(configured)[k]) {
      if IsPlaceholder(Pieces(configured)[k]) { PlaceholderIsRegex(configured, k); }
    }
    LiteralFit(Pieces(request), Pieces(configured));
    JoinSplit(TrimSlashes(request), "/");
    JoinSplit(TrimSlashes(configured), "/");
  }

  lemma LiteralFit(request: seq<string>, configured: seq<string>)
    requires forall k | 0 <= k < |configured| :: !IsPlaceholder(configured[k])
    ensures SegmentsFit(request, configured) <==> request == configured
  {
    if SegmentsFit(request, configured) {
      assert forall i | 0 <= i < |request| :: SegmentFits(request[i], configured[i]);
    }
  }

  lemma LiteralPathExactly(request: string, configured: string, record: bool)
    requires !IsRegex(configured)
    ensures LiteralPath(Norm(request), Norm(configured), record) <==>
              TrimSlashes(request) == TrimSlashes(configured) || (!record && Norm(configured) <= Norm(request))
  {
    LiteralSegments(request, configured);
    NormTrims(request);
    NormTrims(configured);
  }

  /** Literal paths under "record": equal after trimming slashes. Under any other action: that,
      or a slash-terminated prefix. */
  lemma LiteralPaths(re: Regexps, request: string, paths: seq<string>, record: bool)
    requires paths != [] && forall i | 0 <= i < |paths| :: !IsRegex(paths[i])
    ensures PathMatches(re, request, paths, record) <==>
              exists i | 0 <= i < |paths| ::
                TrimSlashes(request) == TrimSlashes(paths[i]) || (!record && Norm(paths[i]) <= Norm(request))
  {
    forall i | 0 <= i < |paths|
      ensures OnePath(re, Norm(request), paths[i], record) <==>
                TrimSlashes(request) == TrimSlashes(paths[i]) || (!record && Norm(paths[i]) <= Norm(request))
    {
      LiteralPathExactly(request, paths[i], record);
    }
  }

  // Segment lists -------------------------------------------------------------------

  /** The segments of a path; the root has none. */
  function Segments(p: string): seq<string> {
    if TrimSlashes(p) == "" then [] else Pieces(p)
  }

  /** No two slashes in a row. */
  predicate DoubleSlash(p: string, i: nat) {
    i + 1 < |p| && p[i] == '/' && p[i + 1] == '/'
  }

  ghost predicate NoEmptySegment(p: string) { forall i: nat :: !DoubleSlash(p, i) }

  lemma RunDoubles(a: string, run: string, b: string)
    requires AllSlashes(run) && |run| > 1
    ensures DoubleSlash(a + run + b, |a|)
  {
    var p := a + run + b;
    assert p[|a|] == run[0] && p[|a| + 1] == run[1];
  }

  /** Every segment before a slash. */
  function Terminated(es: seq<string>): string {
    if es == [] then "" else es[0] + "/" + Terminated(es[1..])
  }

  predicate NoSlash(es: seq<string>) { forall i | 0 <= i < |es| :: '/' !in es[i] }

  lemma {:induction false} TerminatedJoin(es: seq<string>)
    requires es != []
    ensures Terminated(es) == Join(es, "/") + "/"
    decreases |es|
  {
    if |es| > 1 {
      TerminatedJoin(es[1..]);
    } else {
      assert Terminated(es[1..]) == "";
    }
  }

  /** The first slash ends the first segment. */
  lemma FirstSlash(a: string, b: string, x: string, y: string)
    requires '/' !in a && '/' !in b && a + "/" + x <= b + "/" + y
    ensures a == b && x <= y
  {
    var s, t := a + "/" + x, b + "/" + y;
    assert s[|a|] == '/' == t[|a|] && t[|b|] == '/';
    assert forall j | 0 <= j < |a| :: t[j] == s[j] == a[j] && a[j] in a;
    assert forall j | 0 <= j < |b| :: t[j] == b[j] && b[j] in b;
    assert |a| == |b|;
    assert a == s[..|a|] && b == t[..|a|];
    assert x == s[|a| + 1..] && y == t[|a| + 1..];
  }

  /** Slash-terminated segment lists are prefixes of each other as strings when they are as
      lists. */
  lemma {:induction false} TerminatedPrefix(c: seq<string>, r: seq<string>)
    requires NoSlash(c) && NoSlash(r)
    ensures Terminated(c) <= Terminated(r) <==> c <= r
    decreases |c|
  {
    if c != [] && r != [] {
      TerminatedPrefix(c[1..], r[1..]);
      if Terminated(c) <= Terminated(r) {
        FirstSlash(c[0], r[0], Terminated(c[1..]), Terminated(r[1..]));
        assert c == [c[0]] + c[1..] && r == [r[0]] + r[1..];
      }
      if c <= r {
        assert c[0] == r[0] && c[1..] <= r[1..];
      }
    }
  }

  lemma NormOfCore(p: string, core: string)
    requires core != "" && core[0] != '/' && core[|core| - 1] != '/'
    requires p == core || p == "/" + core || p == core + "/" || p == "/" + core + "/"
    ensures Norm(p) == "/" + core + "/"
  {}

  /** A path without empty segments is its core with a slash at most on either side. */
  lemma SlashesAtEnds(p: string)
    requires NoEmptySegment(p)
    ensures var core := TrimSlashes(p);
            && (core == "" ==> p == "" || p == "/")
            && (core != "" ==> core[0] != '/' && core[|core| - 1] != '/')
            && (core != "" ==> p == core || p == "/" + core || p == core + "/" || p == "/" + core + "/")
  {
    var left, right := TrimParts(p);
    var core := TrimSlashes(p);
    if core == "" {
      assert AllSlashes(p);
      ShortRun(p, "", p, "");
    } else {
      FourForms(p, left, core, right);
    }
  }

  lemma FourForms(p: string, left: string, core: string, right: string)
    requires NoEmptySegment(p) && AllSlashes(left) && AllSlashes(right) && p == left + core + right
    ensures p == core || p == "/" + core || p == core + "/" || p == "/" + core + "/"
  {
    ShortRun(p, "", left, core + right);
    ShortRun(p, left + core, right, "");
    assert "" + core == core;
  }

  lemma ShortRun(p: string, a: string, run: string, b: string)
    requires NoEmptySegment(p) && AllSlashes(run) && p == a + run + b
    ensures run == "" || run == "/"
  {
    if |run| > 1 { RunDoubles(a, run, b); }
  }

  /** A path without empty segments, normalised, is its segments behind a slash. */
  lemma NormSegments(p: string)
    requires NoEmptySegment(p)
    ensures Norm(p) == "/" + Terminated(Segments(p)) && NoSlash(Segments(p))
  {
    SlashesAtEnds(p);
    var core := TrimSlashes(p);
    if core != "" {
      NormOfCore(p, core);
      SplitNoSep(core, "/");
      TerminatedJoin(Pieces(p));
      JoinSplit(core, "/");
      assert "/" + core + "/" == "/" + (core + "/");
    }
  }

  /** On paths without empty segments, a literal path matches under "record" when it has the
      request's segments, and under any other action when its segments are a prefix of the
      request's. */
  lemma LiteralPathsBySegments(re: Regexps, request: string, paths: seq<string>, record: bool)
    requires paths != [] && forall i | 0 <= i < |paths| :: !IsRegex(paths[i]) && NoEmptySegment(paths[i])
    requires NoEmptySegment(request)
    ensures PathMatches(re, request, paths, record) <==>
              exists i | 0 <= i < |paths| ::
                if record then Segments(paths[i]) == Segments(request) else Segments(paths[i]) <= Segments(request)
  {
    LiteralPaths(re, request, paths, record);
    forall i | 0 <= i < |paths|
      ensures TrimSlashes(request) == TrimSlashes(paths[i]) || (!record && Norm(paths[i]) <= Norm(request)) <==>
                if record then Segments(paths[i]) == Segments(request) else Segments(paths[i]) <= Segments(request)
    {
      SameSegments(request, paths[i]);
      NormSegments(request);
      NormSegments(paths[i]);
      PrefixBehindSlash(Terminated(Segments(paths[i])), Terminated(Segments(request)));
      TerminatedPrefix(Segments(paths[i]), Segments(request));
    }
  }

  lemma PrefixBehindSlash(x: string, y: string)
    ensures "/" + x <= "/" + y <==> x <= y
  {
    assert x == ("/" + x)[1..] && y == ("/" + y)[1..];
    if x <= y { assert ("/" + y)[..1 + |x|] == "/" + x; }
  }

  lemma SameSegments(p: string, q: string)
    ensures Segments(p) == Segments(q) <==> TrimSlashes(p) == TrimSlashes(q)
  {
    JoinSplit(TrimSlashes(p), "/");
    JoinSplit(TrimSlashes(q), "/");
  }

  /** A regular expression has to match the request's segments behind and between slashes, with or
      without the last one. */
  lemma RegexPathExactly(re: Regexps, request: string, configured: string, record: bool)
    requires IsRegex(configured) && NoEmptySegment(request)
    ensures var n := "/" + Terminated(Segments(request));
            OnePath(re, Norm(request), configured, record) <==>
              re(configured).Some? && (re(configured).value(n) || (|n| > 1 && re(configured).value(n[..|n| - 1])))
  {
    NormSegments(request);
  }

  /** The segment matcher on paths written from segments: equal lengths, each placeholder
      standing for one segment. */
  lemma SegmentMatchOfSegments(request: seq<string>, configured: seq<string>)
    requires request != [] && configured != [] && NoSlash(request) && NoSlash(configured)
    requires forall i | 0 <= i < |request| :: request[i] != ""
    requires forall i | 0 <= i < |configured| :: configured[i] != ""
    ensures SegmentMatch("/" + Join(request, "/"), "/" + Join(configured, "/")) <==> SegmentsFit(request, configured)
  {
    SegmentsOfJoin(request);
    SegmentsOfJoin(configured);
  }

  lemma SegmentsOfJoin(es: seq<string>)
    requires es != [] && NoSlash(es) && forall i | 0 <= i < |es| :: es[i] != ""
    ensures Split(TrimSlashes("/" + Join(es, "/")), "/") == es
  {
    var core := Join(es, "/");
    JoinEnds(es);
    assert "/" + core == "/" + core + "";
    TrimIs("/", core, "");
    SplitJoin(es, "/");
  }

  lemma {:induction false} JoinEnds(es: seq<string>)
    requires es != [] && NoSlash(es) && forall i | 0 <= i < |es| :: es[i] != ""
    ensures var core, last := Join(es, "/"), es[|es| - 1];
            core != "" && core[0] == es[0][0] && core[|core| - 1] == last[|last| - 1]
    ensures Join(es, "/")[0] != '/' && Join(es, "/")[|Join(es, "/")| - 1] != '/'
    decreases |es|
  {
    if |es| > 1 {
      JoinEnds(es[1..]);
      var tail := Join(es[1..], "/");
      assert Join(es, "/") == es[0] + "/" + tail;
    }
    assert es[0][0] in es[0];
    var last := es[|es| - 1];
    assert last[|last| - 1] in last;
  }

  // ---------------------------------------------------------------------------------
  // The index
  // ---------------------------------------------------------------------------------

  /** A row of the endpoint query, as scanned. */
  datatype Row = Row(id: string, toolId: string, name: string, action: string, flow: string, httpMethod: string,
                     path: string, domain: string, protocol: string, contentPaths: string, isWildcard: bool)

  datatype Endpoint = Endpoint(id: string, toolId: string, name: string, action: string, flow: string,
                               httpMethod: string, paths: seq<string>, baseUrl: string, contentPaths: string,
                               isWildcard: bool)

  /** A cache entry (lines 119-137). */
  function EntryOf(r: Row): Endpoint {
    Endpoint(r.id, r.toolId, r.name, r.action, r.flow, r.httpMethod, if r.path != "" then [r.path] else [],
             ToLower(TrimSpace(r.protocol)) + "://" + ToLower(TrimSpace(r.domain)), r.contentPaths, r.isWildcard)
  }

  /** A row is listed under its protocol and domain in lower case, without the white space
      around them, and has one path or none. */
  lemma EntryExactly(r: Row, protocol: string, domain: string)
    requires EqualFold(TrimSpace(r.protocol), protocol) && EqualFold(TrimSpace(r.domain), domain)
    requires forall i | 0 <= i < |protocol| :: !('A' <= protocol[i] <= 'Z')
    requires forall i | 0 <= i < |domain| :: !('A' <= domain[i] <= 'Z')
    ensures var e := EntryOf(r);
            && e.baseUrl == protocol + "://" + domain
            && (if r.path == "" then e.paths == [] else e.paths == [r.path])
            && e.id == r.id && e.toolId == r.toolId && e.name == r.name && e.httpMethod == r.httpMethod
            && e.action == r.action && e.flow == r.flow
            && e.contentPaths == r.contentPaths && e.isWildcard == r.isWildcard
  {
    LowerEqual(TrimSpace(r.protocol), protocol);
    LowerEqual(TrimSpace(r.domain), domain);
  }

  /** The rows that scan, in query order. */
  function Entries(rows: seq<Option<Row>>): seq<Endpoint> {
    if rows == [] then []
    else
      var n := |rows| - 1;
      Entries(rows[..n]) + if rows[n].Some? then [EntryOf(rows[n].value)] else []
  }

  /** Rows that do not scan are skipped; the others keep their order. */
  lemma {:induction false} EntriesExactly(a: seq<Option<Row>>, b: seq<Option<Row>>)
    ensures Entries(a + b) == Entries(a) + Entries(b)
    decreases |b|
  {
    if b == [] {
      assert a + b == a && Entries(a) + [] == Entries(a);
    } else {
      var n := |b| - 1;
      EntriesExactly(a, b[..n]);
      EntriesLast(a + b);
      EntriesLast(b);
      assert (a + b)[..|a + b| - 1] == a + b[..n];
      Regroup(Entries(a), Entries(b[..n]), OneEntry(b[n]));
    }
  }

  lemma EntriesOne(r: Row)
    ensures Entries([Some(r)]) == [EntryOf(r)] && Entries([None]) == []
  {
    EntriesLast([Some(r)]);
    EntriesLast([None]);
  }

  function OneEntry(r: Option<Row>): seq<Endpoint> {
    if r.Some? then [EntryOf(r.value)] else []
  }

  lemma EntriesLast(rows: seq<Option<Row>>)
    requires rows != []
    ensures Entries(rows) == Entries(rows[..|rows| - 1]) + OneEntry(rows[|rows| - 1])
  {}

  lemma Regroup<T>(a: seq<T>, b: seq<T>, c: seq<T>)
    ensures (a + b) + c == a + (b + c)
  {}

  /** The endpoints with a base URL, in query order. */
  function WithBase(es: seq<Endpoint>, base: string): seq<Endpoint> {
    if es == [] then []
    else
      var n := |es| - 1;
      WithBase(es[..n], base) + if es[n].baseUrl == base then [es[n]] else []
  }

  function Listed(cache: map<string, seq<Endpoint>>, base: string): seq<Endpoint> {
    if base in cache then cache[base] else []
  }

  /** The index groups the rows by base URL and keeps their order. */
  ghost predicate Indexes(cache: map<string, seq<Endpoint>>, es: seq<Endpoint>) {
    forall base: string :: Listed(cache, base) == WithBase(es, base) && (base in cache ==> cache[base] != [])
  }

  lemma EntriesSnoc(rows: seq<Option<Row>>, i: nat)
    requires i < |rows|
    ensures Entries(rows[..i + 1]) == Entries(rows[..i]) + if rows[i].Some? then [EntryOf(rows[i].value)] else []
  {
    assert rows[..i + 1][..i] == rows[..i];
  }

  lemma IndexesSnoc(cache: map<string, seq<Endpoint>>, es: seq<Endpoint>, entry: Endpoint)
    requires Indexes(cache, es)
    ensures var base := entry.baseUrl;
            Indexes(cache[base := Listed(cache, base) + [entry]], es + [entry])
  {
    var base := entry.baseUrl;
    var cache' := cache[base := Listed(cache, base) + [entry]];
    assert (es + [entry])[..|es|] == es;
    forall b: string
      ensures Listed(cache', b) == WithBase(es + [entry], b) && (b in cache' ==> cache'[b] != [])
    {
      assert Listed(cache, b) == WithBase(es, b);
    }
  }

  // ---------------------------------------------------------------------------------
  // Lookups
  // ---------------------------------------------------------------------------------

  /** A parsed request URL and the request method. */
  datatype Query = Query(base: string, path: string, verb: string)

  /** `methodMatches` (lines 37-47). */
  predicate MethodMatches(configured: string, request: string) {
    var cfg, req := ToUpper(TrimSpace(configured)), ToUpper(TrimSpace(request));
    cfg == "" || cfg == "*" || (req != "" && cfg == req)
  }

  function RequestPath(p: string): string {
    var rooted := if p != "" && p[0] == '/' then p else "/" + p;
    if rooted[|rooted| - 1] == '/' then rooted else rooted + "/"
  }

  /** A row without a method, or with an asterisk, is for every request; any other one for the
      requests with its method, in either case and between white space. */
  predicate VerbFits(configured: string, request: string) {
    || Blank(configured) || TrimSpace(configured) == "*"
    || EqualFold(TrimSpace(configured), TrimSpace(request))
  }

  lemma MethodMatchesExactly(configured: string, request: string)
    ensures MethodMatches(configured, request) <==> VerbFits(configured, request)
  {
    BlankTrimmed(configured);
    VerbsCompare(TrimSpace(configured), TrimSpace(request));
  }

  lemma VerbsCompare(cfg: string, req: string)
    ensures var c, r := ToUpper(cfg), ToUpper(req);
            c == "" || c == "*" || (r != "" && c == r) <==> cfg == "" || cfg == "*" || EqualFold(cfg, req)
  {
    UpperEqual(cfg, req);
    UpperEqual(cfg, "*");
    assert ToUpper("*") == "*";
    StarAlone(cfg);
  }

  lemma BlankTrimmed(s: string)
    ensures TrimSpace(s) == "" <==> Blank(s)
  {
    var left, right := TrimSpaceParts(s);
    if TrimSpace(s) == "" { assert s == left + right; }
    if Blank(s) {
      assert s == s + "" + "";
      TrimSpaceIs(s, "", "");
    }
  }

  lemma StarAlone(s: string)
    ensures EqualFold(s, "*") <==> s == "*"
  {}

  /** The request path that is matched is the parsed one but for slashes at its ends. */
  lemma RequestPathNorm(p: string)
    ensures Norm(RequestPath(p)) == Norm(p)
  {}

  /** Whether a row answers a query: its method and one of its paths fit. */
  predicate Matches(re: Regexps, q: Query, e: Endpoint) {
    VerbFits(e.httpMethod, q.verb) && PathMatches(re, q.path, e.paths, e.action == "record")
  }

  /** The same address under the other of the two schemes (lines 280-285). */
  function AltBase(base: string): string {
    if "http://" <= base then "https://" + base[7..]
    else if "https://" <= base then "http://" + base[8..]
    else ""
  }

  /** It leads from either scheme to the other and back, and from no other anywhere. */
  lemma AltBaseExactly(host: string, base: string)
    ensures AltBase("http://" + host) == "https://" + host
    ensures AltBase("https://" + host) == "http://" + host
    ensures AltBase(base) != "" <==> "http://" <= base || "https://" <= base
  {
    var plain, secure := "http://" + host, "https://" + host;
    assert plain[..7] == "http://" && plain[7..] == host;
    assert secure[..7][4] == 's' && "http://"[4] == ':';
    assert !("http://" <= secure);
    assert secure[..8] == "https://" && secure[8..] == host;
  }

  /** A base URL that the fallback considers (lines 298-306). */
  predicate Fallback(q: Query, key: string) {
    var star := Index(key, "*.");
    star.Some? &&
    var wild := key[..star.value] + key[star.value + 2..];
    HasSuffix(q.base, wild) || (AltBase(q.base) != "" && HasSuffix(AltBase(q.base), wild))
  }

  /** The fallback takes bases with an asterisk and a dot that are ends of the request's base,
      under either scheme, without these two. */
  lemma FallbackExactly(q: Query, front: string, back: string)
    requires forall j: nat | j < |front| :: !At(front + "*." + back, j, "*.")
    ensures Fallback(q, front + "*." + back) <==>
              HasSuffix(q.base, front + back) || (AltBase(q.base) != "" && HasSuffix(AltBase(q.base), front + back))
  {
    var key := front + "*." + back;
    assert key[|front|..|front| + 2] == "*.";
    IndexIs(key, "*.", |front|);
    assert key[..|front|] + key[|front| + 2..] == front + back;
  }

  lemma FallbackStarred(q: Query, key: string)
    requires Fallback(q, key)
    ensures Contains(key, "*.")
  {}

  /** The function that tells it. */
  function Matcher(re: Regexps, q: Query): Endpoint -> bool { e => Matches(re, q, e) }

  /** `r` is the first matching row with the base URL, in query order. */
  ghost predicate FirstRow(ok: Endpoint -> bool, es: seq<Endpoint>, base: string, r: Option<Endpoint>) {
    match r
    case None => forall i | 0 <= i < |es| && es[i].baseUrl == base :: !ok(es[i])
    case Some(e) =>
      exists i | 0 <= i < |es| ::
        && es[i] == e && e.baseUrl == base && ok(e)
        && forall j | 0 <= j < i && es[j].baseUrl == base :: !ok(es[j])
  }

  predicate HasBase(es: seq<Endpoint>, base: string) {
    exists i | 0 <= i < |es| :: es[i].baseUrl == base
  }

  /** What a linear scan of the rows gives. The fallback says only which rows are eligible. */
  ghost predicate Answers(ok: Endpoint -> bool, es: seq<Endpoint>, q: Query, r: Option<Endpoint>) {
    if HasBase(es, q.base) then FirstRow(ok, es, q.base, r)
    else if AltBase(q.base) != "" && HasBase(es, AltBase(q.base)) then FirstRow(ok, es, AltBase(q.base), r)
    else
      match r
      case None => forall e | e in es && Fallback(q, e.baseUrl) :: !ok(e)
      case Some(e) => e in es && Fallback(q, e.baseUrl) && ok(e)
  }

  /** The rows a lookup copies out of the index while it holds the lock. */
  ghost predicate Copied(es: seq<Endpoint>, q: Query, candidates: seq<Endpoint>) {
    if HasBase(es, q.base) then candidates == WithBase(es, q.base)
    else if AltBase(q.base) != "" && HasBase(es, AltBase(q.base)) then candidates == WithBase(es, AltBase(q.base))
    else forall e :: e in candidates <==> e in es && Fallback(q, e.baseUrl)
  }

  /** The first candidate that matches (lines 310-320). */
  function Chosen(ok: Endpoint -> bool, candidates: seq<Endpoint>): (r: Option<Endpoint>)
    ensures r.None? ==> forall e | e in candidates :: !ok(e)
    ensures r.Some? ==> r.value in candidates && ok(r.value)
  {
    if candidates == [] then None
    else if ok(candidates[0]) then Some(candidates[0])
    else Chosen(ok, candidates[1..])
  }

  lemma {:induction false} WithBaseMembers(es: seq<Endpoint>, base: string, e: Endpoint)
    ensures e in WithBase(es, base) <==> e in es && e.baseUrl == base
  {
    if es != [] {
      var n := |es| - 1;
      WithBaseMembers(es[..n], base, e);
      assert es == es[..n] + [es[n]];
    }
  }

  lemma HasBaseIff(es: seq<Endpoint>, base: string)
    ensures HasBase(es, base) <==> WithBase(es, base) != []
  {
    if i :| 0 <= i < |es| && es[i].baseUrl == base {
      WithBaseMembers(es, base, es[i]);
    }
    if WithBase(es, base) != [] {
      WithBaseMembers(es, base, WithBase(es, base)[0]);
    }
  }

  lemma {:induction false} ChosenSnoc(ok: Endpoint -> bool, candidates: seq<Endpoint>, last: Endpoint)
    ensures Chosen(ok, candidates + [last]) ==
            if Chosen(ok, candidates).Some? then Chosen(ok, candidates) else if ok(last) then Some(last) else None
    decreases |candidates|
  {
    if candidates == [] {
      assert (candidates + [last])[1..] == [];
    } else {
      ChosenSnoc(ok, candidates[1..], last);
      assert (candidates + [last])[1..] == candidates[1..] + [last];
    }
  }

  /** Scanning a group finds the first row of that base in query order. */
  lemma {:induction false} GroupScan(ok: Endpoint -> bool, es: seq<Endpoint>, base: string)
    ensures FirstRow(ok, es, base, Chosen(ok, WithBase(es, base)))
    decreases |es|
  {
    if es != [] {
      var n := |es| - 1;
      GroupScan(ok, es[..n], base);
      var before := Chosen(ok, WithBase(es[..n], base));
      if es[n].baseUrl == base {
        ChosenSnoc(ok, WithBase(es[..n], base), es[n]);
      } else {
        assert WithBase(es, base) == WithBase(es[..n], base);
      }
      if before.Some? {
        var i :| 0 <= i < n && es[..n][i] == before.value && before.value.baseUrl == base
              && forall j | 0 <= j < i && es[..n][j].baseUrl == base :: !ok(es[..n][j]);
        assert es[i] == before.value;
        forall j | 0 <= j < i && es[j].baseUrl == base ensures !ok(es[j]) {
          assert es[..n][j] == es[j];
        }
      } else {
        forall i | 0 <= i < n && es[i].baseUrl == base ensures !ok(es[i]) {
          assert es[..n][i] == es[i];
        }
      }
    }
  }

  /** The rows copied under the lock decide the answer of the scan. */
  lemma CopyDecides(ok: Endpoint -> bool, es: seq<Endpoint>, q: Query, candidates: seq<Endpoint>)
    requires Copied(es, q, candidates)
    ensures Answers(ok, es, q, Chosen(ok, candidates))
  {
    GroupScan(ok, es, q.base);
    GroupScan(ok, es, AltBase(q.base));
  }

  /** What the caller gets (lines 321-345): the policy of the row and the tenant's record. */
  datatype Verdict = NoMatch | Failed | Matched(endpoint: Endpoint, sanctioned: Option<bool>)

  /** `um.db.QueryRowContext` on the tenant's tools: an error, no row, or a flag. */
  datatype Tenancy = QueryError | NoRow | Flag(sanctioned: bool)

  function VerdictOn(r: Option<Endpoint>, tools: string -> Tenancy): Verdict {
    match r
    case None => NoMatch
    case Some(e) =>
      match tools(e.toolId)
      case QueryError => Failed
      case NoRow => Matched(e, None)
      case Flag(b) => Matched(e, Some(b))
  }

  /** No row, no match. A row comes with what the tenant's record says of its tool, nothing if
      there is no record; a failing query fails the lookup. */
  predicate Follows(verdict: Verdict, r: Option<Endpoint>, tools: string -> Tenancy) {
    && (verdict == NoMatch <==> r == None)
    && (r.Some? ==>
          var record := tools(r.value.toolId);
          && (verdict == Failed <==> record == QueryError)
          && (verdict.Matched? <==> record != QueryError)
          && (verdict.Matched? ==>
                && verdict.endpoint == r.value
                && (verdict.sanctioned == None <==> record == NoRow)
                && (record.Flag? ==> verdict.sanctioned == Some(record.sanctioned))))
  }

  class URLMatcher {
    var cache: map<string, seq<Endpoint>>
    ghost var snapshot: seq<Endpoint>

    ghost predicate Valid()
      reads this
    {
      Indexes(cache, snapshot)
    }

    constructor ()
      ensures Valid() && snapshot == []
    {
      cache, snapshot := map[], [];
    }

    /** `RefreshEndpointsCache` (lines 79-148). No rows: the query failed. */
    method Refresh(rows: Option<seq<Option<Row>>>)
      requires Valid()
      modifies this
      ensures Valid()
      ensures snapshot == if rows.Some? then Entries(rows.value) else old(snapshot)
      ensures rows.None? ==> cache == old(cache)
    {
      if rows == None { return; }
      var newCache: map<string, seq<Endpoint>> := map[];
      for i := 0 to |rows.value|
        invariant Indexes(newCache, Entries(rows.value[..i]))
      {
        var row := rows.value[i];
        ghost var es := Entries(rows.value[..i]);
        EntriesSnoc(rows.value, i);
        if row == None {
          assert Entries(rows.value[..i + 1]) == es;
          continue;
        }
        var entry := EntryOf(row.value);
        var base := entry.baseUrl;
        IndexesSnoc(newCache, es, entry);
        newCache := newCache[base := Listed(newCache, base) + [entry]];
        assert Entries(rows.value[..i + 1]) == es + [entry];
      }
      assert rows.value[..|rows.value|] == rows.value;
      cache := newCache;
      snapshot := Entries(rows.value);
    }

    /** Lines 287-308: under the read lock. */
    method Candidates(q: Query) returns (candidates: seq<Endpoint>)
      requires Valid()
      ensures Copied(snapshot, q, candidates)
    {
      var altBase := AltBase(q.base);
      HasBaseIff(snapshot, q.base);
      HasBaseIff(snapshot, altBase);
      candidates := Listed(cache, q.base);
      if altBase != "" && |candidates| == 0 {
        candidates := candidates + Listed(cache, altBase);
      }
      if |candidates| == 0 {
        candidates := FallbackCandidates(q);
      }
    }

    method FallbackCandidates(q: Query) returns (candidates: seq<Endpoint>)
      requires Valid()
      ensures forall e :: e in candidates <==> e in snapshot && Fallback(q, e.baseUrl)
    {
      candidates := [];
      var todo := cache.Keys;
      while todo != {}
        invariant todo <= cache.Keys
        invariant forall e :: e in candidates <==>
                    e in snapshot && Fallback(q, e.baseUrl) && e.baseUrl in cache && e.baseUrl !in todo
        decreases todo
      {
        var key :| key in todo;
        forall e ensures e in cache[key] <==> e in snapshot && e.baseUrl == key {
          assert Listed(cache, key) == cache[key];
          WithBaseMembers(snapshot, key, e);
        }
        todo := todo - {key};
        if Fallback(q, key) {
          candidates := candidates + cache[key];
        }
      }
      forall e | e in snapshot ensures e.baseUrl in cache {
        WithBaseMembers(snapshot, e.baseUrl, e);
        assert Listed(cache, e.baseUrl) != [];
      }
    }

    /** `MatchURL` (lines 257-346): the answer is that of a linear scan of the rows. */
    method MatchURL(re: Regexps, url: Option<Query>, tenant: string, tools: string -> Tenancy)
      returns (verdict: Verdict)
      requires Valid()
      ensures tenant == "" || url == None ==> verdict == NoMatch
      ensures tenant != "" && url.Some? ==>
                exists r :: Answers(Matcher(re, url.value), snapshot, url.value, r) && Follows(verdict, r, tools)
    {
      if tenant == "" || url == None { return NoMatch; }
      var q := url.value;
      var candidates := Candidates(q);
      CopyDecides(Matcher(re, q), snapshot, q, candidates);
      var matched := FirstCandidate(re, candidates, q);
      verdict := VerdictOn(matched, tools);
      assert Follows(verdict, matched, tools);
    }
  }

  /** Lines 310-320. */
  method FirstCandidate(re: Regexps, candidates: seq<Endpoint>, q: Query) returns (matched: Option<Endpoint>)
    ensures matched == Chosen(Matcher(re, q), candidates)
  {
    for i := 0 to |candidates|
      invariant Chosen(Matcher(re, q), candidates) == Chosen(Matcher(re, q), candidates[i..])
    {
      assert candidates[i..][1..] == candidates[i + 1..];
      var ep := candidates[i];
      MethodMatchesExactly(ep.httpMethod, q.verb);
      RequestPathNorm(q.path);
      var fits := MethodMatches(ep.httpMethod, q.verb);
      if fits {
        fits := PathMatchesScan(re, RequestPath(q.path), ep.paths, ep.action == "record");
      }
      assert fits == Matcher(re, q)(ep);
      if fits { return Some(ep); }
    }
    return None;
  }

  // ---------------------------------------------------------------------------------
  // Lookups while the index is being replaced
  // ---------------------------------------------------------------------------------

  /** Lookups in flight hold the rows they copied; `loaded` is the snapshot in the index. */
  datatype State = State(loaded: seq<Endpoint>, inFlight: map<nat, Lookup>, answers: map<nat, Given>)

  datatype Lookup = Lookup(q: Query, candidates: seq<Endpoint>)

  datatype Given = Given(q: Query, r: Option<Endpoint>)

  datatype Step = Swap(rows: seq<Option<Row>>)
                | Copy(id: nat, q: Query, candidates: seq<Endpoint>)
                | Answer(id: nat)

  ghost predicate Next(re: Regexps, s: State, step: Step, t: State) {
    match step
    case Swap(rows) => t == s.(loaded := Entries(rows))
    case Copy(id, q, candidates) =>
      && Copied(s.loaded, q, candidates)
      && id !in s.inFlight && id !in s.answers
      && t == s.(inFlight := s.inFlight[id := Lookup(q, candidates)])
    case Answer(id) =>
      && id in s.inFlight
      && var l := s.inFlight[id];
         var given := Given(l.q, Chosen(Matcher(re, l.q), l.candidates));
         t == s.(inFlight := s.inFlight - {id}, answers := s.answers[id := given])
  }

  ghost predicate Run(re: Regexps, states: seq<State>, steps: seq<Step>) {
    && |states| == |steps| + 1
    && states[0] == State([], map[], map[])
    && forall i | 0 <= i < |steps| :: Next(re, states[i], steps[i], states[i + 1])
  }

  /** The `k`-th step copies these rows for this lookup. */
  ghost predicate CopiedBy(states: seq<State>, steps: seq<Step>, k: nat, id: nat, q: Query, candidates: seq<Endpoint>)
    requires k < |steps| < |states|
  {
    steps[k] == Copy(id, q, candidates) && Copied(states[k].loaded, q, candidates)
  }

  /** The lookup in flight has its rows from the snapshot that was current when it copied. */
  ghost predicate Waiting(states: seq<State>, steps: seq<Step>, i: nat, id: nat)
    requires i <= |steps| < |states| && id in states[i].inFlight
  {
    exists k | 0 <= k < i :: CopiedBy(states, steps, k, id, states[i].inFlight[id].q, states[i].inFlight[id].candidates)
  }

  /** The `k`-th step copies rows for this lookup, and the answer is the linear scan of the
      snapshot that is current there. */
  ghost predicate AnsweredBy(re: Regexps, states: seq<State>, steps: seq<Step>, k: nat, id: nat, q: Query,
                             r: Option<Endpoint>)
    requires k < |steps| < |states|
  {
    && steps[k].Copy? && steps[k].id == id && steps[k].q == q
    && Answers(Matcher(re, q), states[k].loaded, q, r)
  }

  ghost predicate Explained(re: Regexps, states: seq<State>, steps: seq<Step>, i: nat, id: nat)
    requires i <= |steps| < |states| && id in states[i].answers
  {
    exists k | 0 <= k < i :: AnsweredBy(re, states, steps, k, id, states[i].answers[id].q, states[i].answers[id].r)
  }

  ghost predicate Consistent(re: Regexps, states: seq<State>, steps: seq<Step>, i: nat)
    requires i <= |steps| < |states|
  {
    && (forall id | id in states[i].inFlight :: Waiting(states, steps, i, id))
    && forall id | id in states[i].answers :: Explained(re, states, steps, i, id)
  }

  lemma StillWaiting(re: Regexps, states: seq<State>, steps: seq<Step>, i: nat, id: nat)
    requires Run(re, states, steps) && i < |steps| && Consistent(re, states, steps, i)
    requires id in states[i + 1].inFlight
    ensures Waiting(states, steps, i + 1, id)
  {
    assert Next(re, states[i], steps[i], states[i + 1]);
    var Lookup(q, candidates) := states[i + 1].inFlight[id];
    if id in states[i].inFlight {
      assert states[i].inFlight[id] == Lookup(q, candidates);
      var k :| 0 <= k < i && CopiedBy(states, steps, k, id, q, candidates);
      assert CopiedBy(states, steps, k, id, q, candidates);
    } else {
      assert CopiedBy(states, steps, i, id, q, candidates);
    }
  }

  lemma StillExplained(re: Regexps, states: seq<State>, steps: seq<Step>, i: nat, id: nat)
    requires Run(re, states, steps) && i < |steps| && Consistent(re, states, steps, i)
    requires id in states[i + 1].answers
    ensures Explained(re, states, steps, i + 1, id)
  {
    assert Next(re, states[i], steps[i], states[i + 1]);
    var Given(q, r) := states[i + 1].answers[id];
    if id in states[i].answers && states[i].answers[id] == Given(q, r) {
      var k :| 0 <= k < i && AnsweredBy(re, states, steps, k, id, q, r);
      assert AnsweredBy(re, states, steps, k, id, q, r);
    } else {
      assert Waiting(states, steps, i, id);
      var candidates := states[i].inFlight[id].candidates;
      var k :| 0 <= k < i && CopiedBy(states, steps, k, id, q, candidates);
      CopyDecides(Matcher(re, q), states[k].loaded, q, candidates);
      assert AnsweredBy(re, states, steps, k, id, q, r);
    }
  }

  /** However lookups and refreshes interleave, every answer is a linear scan of one whole
      snapshot: the one that was current when the lookup copied its rows. */
  lemma {:induction false} EveryAnswerFromOneSnapshot(re: Regexps, states: seq<State>, steps: seq<Step>, i: nat)
    requires Run(re, states, steps) && i <= |steps|
    ensures Consistent(re, states, steps, i)
  {
    if i > 0 {
      EveryAnswerFromOneSnapshot(re, states, steps, i - 1);
      forall id | id in states[i].inFlight ensures Waiting(states, steps, i, id) {
        StillWaiting(re, states, steps, i - 1, id);
      }
      forall id | id in states[i].answers ensures Explained(re, states, steps, i, id) {
        StillExplained(re, states, steps, i - 1, id);
      }
    }
  }
}
