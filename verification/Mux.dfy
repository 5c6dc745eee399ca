/** The request multiplexer (icap/mux.go): cleaning paths, matching patterns, redirects. */
module Mux {
  import opened Strings

  // ---------------------------------------------------------------------------------
  // path.Clean on rooted paths
  // ---------------------------------------------------------------------------------

  /** The elements that survive lexical processing: empty ones and "." vanish, ".." takes the
      one before it away (at the root there is none). */
  function Walk(elements: seq<string>, kept: seq<string>): (r: seq<string>)
    decreases |elements|
  {
    if elements == [] then kept
    else
      var e := elements[0];
      if e == "" || e == "." then Walk(elements[1..], kept)
      else if e == ".." then Walk(elements[1..], if kept == [] then [] else kept[..|kept| - 1])
      else Walk(elements[1..], kept + [e])
  }

  /** An element that Clean leaves in place. */
  predicate Plain(e: string) {
    e != "" && e != "." && e != ".." && '/' !in e
  }

  predicate AllPlain(es: seq<string>) { forall i | 0 <= i < |es| :: Plain(es[i]) }

  /** path.Clean of a path that starts with a slash. */
  function Clean(p: string): (r: string)
    requires p != "" && p[0] == '/'
    ensures r != "" && r[0] == '/'
  {
    "/" + Join(Walk(Split(p, "/"), []), "/")
  }

  /** `cleanPath` (lines 44-58). */
  function CleanPath(p: string): (r: string)
    ensures r != "" && r[0] == '/'
  {
    if p == "" then "/"
    else
      var q := if p[0] != '/' then "/" + p else p;
      var np := Clean(q);
      if q[|q| - 1] == '/' && np != "/" then np + "/" else np
  }

  /** Clean paths: "/", or plain elements each behind a slash, with or without a slash at
      the end. */
  function PathOf(es: seq<string>, slash: bool): (p: string)
    ensures p != "" && p[0] == '/'
  {
    if es == [] then "/" else "/" + Join(es, "/") + if slash then "/" else ""
  }

  lemma {:induction false} WalkPlain(es: seq<string>, kept: seq<string>)
    requires AllPlain(kept) && forall i | 0 <= i < |es| :: '/' !in es[i]
    ensures AllPlain(Walk(es, kept))
    decreases |es|
  {
    if es != [] {
      var e := es[0];
      if e == "" || e == "." {
        WalkPlain(es[1..], kept);
      } else if e == ".." {
        WalkPlain(es[1..], if kept == [] then [] else kept[..|kept| - 1]);
      } else {
        WalkPlain(es[1..], kept + [e]);
      }
    }
  }

  lemma {:induction false} WalkKeeps(es: seq<string>, kept: seq<string>)
    requires AllPlain(es)
    ensures Walk(es, kept) == kept + es
    decreases |es|
  {
    if es == [] {
      assert kept + es == kept;
    } else {
      WalkKeeps(es[1..], kept + [es[0]]);
      assert kept + es == (kept + [es[0]]) + es[1..];
    }
  }

  /** Splitting a clean path gives an empty element, its elements, and an empty one for a
      slash at the end. */
  lemma SplitPath(es: seq<string>, slash: bool)
    requires AllPlain(es)
    ensures Split(PathOf(es, slash), "/") == [""] + (if es == [] then [""] else es + if slash then [""] else [])
  {
    var parts := [""] + (if es == [] then [""] else es + if slash then [""] else []);
    assert forall p | p in parts :: '/' !in p;
    JoinPath(es, slash);
    SplitJoin(parts, "/");
  }

  lemma {:induction false} JoinSnoc(es: seq<string>, last: string)
    requires es != []
    ensures Join(es + [last], "/") == Join(es, "/") + "/" + last
    decreases |es|
  {
    if |es| == 1 {
      assert (es + [last])[1..] == [last];
    } else {
      JoinSnoc(es[1..], last);
      assert (es + [last])[1..] == es[1..] + [last];
    }
  }

  lemma JoinPath(es: seq<string>, slash: bool)
    ensures Join([""] + (if es == [] then [""] else es + if slash then [""] else []), "/") == PathOf(es, slash)
  {
    if es == [] {
      assert [""] + [""] == ["", ""] && ["", ""][1..] == [""];
    } else {
      var tail := es + if slash then [""] else [];
      assert ([""] + tail)[1..] == tail;
      if slash { JoinSnoc(es, ""); } else { assert tail == es; }
    }
  }

  /** Cleaning a clean path changes nothing. */
  lemma CleanFixed(es: seq<string>, slash: bool)
    requires AllPlain(es)
    ensures CleanPath(PathOf(es, slash)) == PathOf(es, slash)
  {
    var p := PathOf(es, slash);
    SplitPath(es, slash);
    var split := Split(p, "/");
    assert split[1..] == if es == [] then [""] else es + if slash then [""] else [];
    assert Walk(split, []) == Walk(split[1..], []);
    if es == [] {
      assert split[1..][1..] == [];
    } else {
      WalkSlash(es, slash);
      assert Clean(p) == PathOf(es, false);
      LastByte(es);
    }
  }

  lemma {:induction false} WalkSplit(a: seq<string>, b: seq<string>, kept: seq<string>)
    ensures Walk(a + b, kept) == Walk(b, Walk(a, kept))
    decreases |a|
  {
    if a == [] {
      assert a + b == b;
    } else {
      assert (a + b)[1..] == a[1..] + b;
      var e := a[0];
      if e == "" || e == "." {
        WalkSplit(a[1..], b, kept);
      } else if e == ".." {
        WalkSplit(a[1..], b, if kept == [] then [] else kept[..|kept| - 1]);
      } else {
        WalkSplit(a[1..], b, kept + [e]);
      }
    }
  }

  lemma WalkSlash(es: seq<string>, slash: bool)
    requires AllPlain(es)
    ensures Walk(es + (if slash then [""] else []), []) == es
  {
    WalkSplit(es, if slash then [""] else [], []);
    WalkKeeps(es, []);
    assert [] + es == es;
    assert slash ==> [""][1..] == [];
  }

  lemma LastByte(es: seq<string>)
    requires AllPlain(es) && es != []
    ensures var p := PathOf(es, false); p[|p| - 1] != '/' && p != "/"
    decreases |es|
  {
    var p := PathOf(es, false);
    if |es| == 1 {
      assert p == "/" + es[0];
      assert p[|p| - 1] in es[0];
    } else {
      var init, last := es[..|es| - 1], es[|es| - 1];
      assert es == init + [last];
      JoinSnoc(init, last);
      assert Plain(last);
      assert p[|p| - 1] == last[|last| - 1];
    }
  }

  /** Every result of cleaning is a clean path. */
  lemma CleanForm(p: string) returns (es: seq<string>, slash: bool)
    ensures AllPlain(es) && CleanPath(p) == PathOf(es, slash)
  {
    var q := if p == "" then "/" else if p[0] != '/' then "/" + p else p;
    var split := Split(q, "/");
    SplitNoSep(q, "/");
    WalkPlain(split, []);
    es := Walk(split, []);
    slash := p != "" && q[|q| - 1] == '/';
    if p == "" {
      es := [];
    } else if es != [] {
      assert Join(es, "/") != "" by { LastByte(es); }
    }
  }

  lemma WalkOne(pre: seq<string>, e: string, post: seq<string>)
    ensures Walk(pre + [e] + post, []) == Walk(post, Walk([e], Walk(pre, [])))
  {
    WalkSplit(pre + [e], post, []);
    WalkSplit(pre, [e], []);
  }

  /** The rules that make up cleaning: empty elements and dots vanish, two dots take the plain
      element in front of them away, or nothing at the root, and plain elements stay. */
  lemma WalkRules(pre: seq<string>, x: string, post: seq<string>)
    ensures Walk(pre + [""] + post, []) == Walk(pre + post, [])
    ensures Walk(pre + ["."] + post, []) == Walk(pre + post, [])
    ensures Plain(x) ==> Walk(pre + [x] + ([".."] + post), []) == Walk(pre + post, [])
    ensures Walk([".."] + post, []) == Walk(post, [])
    ensures AllPlain(pre) ==> Walk(pre, []) == pre
  {
    WalkSplit(pre, post, []);
    WalkOne(pre, "", post);
    WalkOne(pre, ".", post);
    var kept := Walk(pre, []);
    assert [""][1..] == [] && ["."][1..] == [] && [x][1..] == [];
    WalkOne(pre, x, [".."] + post);
    if Plain(x) {
      assert Walk([x], kept) == kept + [x];
      assert ([".."] + post)[1..] == post && (kept + [x])[..|kept|] == kept;
    }
    assert ([".."] + post)[1..] == post;
    if AllPlain(pre) {
      WalkKeeps(pre, []);
      assert [] + pre == pre;
    }
  }

  /** Cleaning a path written from elements. */
  lemma CleanElements(es: seq<string>)
    requires forall i | 0 <= i < |es| :: '/' !in es[i]
    ensures Clean("/" + Join(es, "/")) == "/" + Join(Walk(es, []), "/")
  {
    var parts := [""] + if es == [] then [""] else es;
    assert forall p | p in parts :: '/' !in p;
    assert parts[1..] == if es == [] then [""] else es;
    JoinLed(es);
    SplitJoin(parts, "/");
    assert Walk(parts, []) == Walk(parts[1..], []);
    assert [""][1..] == [];
  }

  lemma JoinLed(es: seq<string>)
    ensures Join([""] + (if es == [] then [""] else es), "/") == "/" + Join(es, "/")
  {
    assert ([""] + if es == [] then [""] else es)[1..] == if es == [] then [""] else es;
  }

  /** Where a slash at the end stays. */
  lemma CleanSlash(p: string)
    ensures var c := CleanPath(p);
            && (c != "/" ==> (c[|c| - 1] == '/' <==> p != "" && p[|p| - 1] == '/'))
            && (p != "" && p[0] != '/' ==> c == CleanPath("/" + p))
            && (p == "" ==> c == "/")
  {
    if p != "" { CleanEnd(if p[0] != '/' then "/" + p else p); }
  }

  lemma CleanEnd(q: string)
    requires q != "" && q[0] == '/'
    ensures Clean(q) != "/" ==> Clean(q)[|Clean(q)| - 1] != '/'
  {
    SplitNoSep(q, "/");
    WalkPlain(Split(q, "/"), []);
    var es := Walk(Split(q, "/"), []);
    if es != [] {
      LastByte(es);
      assert Clean(q) == PathOf(es, false);
    }
  }

  /** Cleaning is idempotent. */
  lemma CleanIdempotent(p: string)
    ensures CleanPath(CleanPath(p)) == CleanPath(p)
  {
    var es, slash := CleanForm(p);
    CleanFixed(es, slash);
  }

  // ---------------------------------------------------------------------------------
  // Matching
  // ---------------------------------------------------------------------------------

  /** A registered handler, or the redirect to a tree that registering the tree adds. */
  datatype Handler = Registered(id: nat) | RedirectTo(url: string)

  /** `pathMatch` (lines 31-41). */
  predicate PathMatch(pattern: string, path: string) {
    if pattern == "" then false
    else if pattern[|pattern| - 1] != '/' then pattern == path
    else pattern <= path
  }

  /** A tree matches what lies under it, and nothing else. */
  lemma TreeMatches(tree: string, path: string)
    ensures PathMatch(tree + "/", path) <==> exists rest :: path == tree + "/" + rest
  {
    var n := |tree| + 1;
    if PathMatch(tree + "/", path) { assert path == tree + "/" + path[n..]; }
  }

  /** Any other pattern matches itself. */
  lemma LeafMatches(leaf: string, path: string)
    requires leaf == "" || leaf[|leaf| - 1] != '/'
    ensures PathMatch(leaf, path) <==> leaf != "" && path == leaf
  {}

  /** The longest matching pattern. */
  ghost predicate IsBest(m: map<string, Handler>, path: string, k: string) {
    k in m && PathMatch(k, path) && forall j | j in m && PathMatch(j, path) :: |j| <= |k|
  }

  /** There is only one: two matching patterns of the same length are the same prefix. */
  lemma BestUnique(m: map<string, Handler>, path: string, k: string, j: string)
    requires IsBest(m, path, k) && IsBest(m, path, j)
    ensures k == j
  {
    assert k == path[..|k|] && j == path[..|j|];
  }

  ghost function BestOf(m: map<string, Handler>, path: string): Option<Handler> {
    if k :| IsBest(m, path, k) then Some(m[k]) else None
  }

  lemma BestIs(m: map<string, Handler>, path: string, k: string)
    requires IsBest(m, path, k)
    ensures BestOf(m, path) == Some(m[k])
  {
    var j :| IsBest(m, path, j) && BestOf(m, path) == Some(m[j]);
    BestUnique(m, path, k, j);
  }

  /** The map after `Handle`. */
  function Registering(m: map<string, Handler>, pattern: string, id: nat): map<string, Handler>
    requires pattern != ""
  {
    var n := |pattern|;
    var added := m[pattern := Registered(id)];
    if pattern[n - 1] == '/' then added[pattern[..n - 1] := RedirectTo(pattern)] else added
  }

  /** Where nothing matched, a new pattern that matches is the best one: the redirect that comes
      with it is shorter. */
  lemma OnlyMatch(m: map<string, Handler>, pattern: string, id: nat, path: string)
    requires pattern != "" && PathMatch(pattern, path) && BestOf(m, path) == None
    ensures BestOf(Registering(m, pattern, id), path) == Some(Registered(id))
  {
    var m' := Registering(m, pattern, id);
    forall j | j in m' && PathMatch(j, path) ensures |j| <= |pattern| {
      if j in m && |j| > |pattern| { SomeBest(m, path, j); }
    }
    BestIs(m', path, pattern);
  }

  /** Where a pattern matches, there is a best one. */
  lemma SomeBest(m: map<string, Handler>, path: string, j: string)
    requires j in m && PathMatch(j, path)
    ensures BestOf(m, path).Some?
    decreases |path| - |j|
  {
    if !IsBest(m, path, j) {
      var k :| k in m && PathMatch(k, path) && |k| > |j|;
      SomeBest(m, path, k);
    }
  }

  // ---------------------------------------------------------------------------------
  // Serving
  // ---------------------------------------------------------------------------------

  datatype Outcome = Moved(location: string) | Handled(id: nat) | NotFound

  /** The part of a rooted path up to its last slash. */
  function Dir(p: string): (d: string)
    requires p != "" && p[0] == '/'
    ensures d != "" && d[0] == '/' && d <= p
    ensures d[|d| - 1] == '/' && forall i | |d| <= i < |p| :: p[i] != '/'
    decreases |p|
  {
    if p[|p| - 1] == '/' then p else Dir(p[..|p| - 1])
  }

  /** `Redirect` (lines 158-193) for a URL that parses and has no scheme, on a rooted path. */
  function Location(oldpath: string, redirectURL: string): string
    requires oldpath != "" && oldpath[0] == '/'
  {
    Cleaned(if redirectURL == "" || redirectURL[0] != '/' then Dir(oldpath) + redirectURL else redirectURL)
  }

  /** The cleaning of lines 176-187: it keeps a slash at the end, and the query. */
  function Cleaned(url: string): string
    requires url != "" && url[0] == '/'
  {
    var q := Index(url, "?");
    assert url[0..1][0] == '/';
    var target, query := if q.Some? then url[..q.value] else url, if q.Some? then url[q.value..] else "";
    var cleaned := Clean(target);
    (if target[|target| - 1] == '/' && cleaned[|cleaned| - 1] != '/' then cleaned + "/" else cleaned) + query
  }

  function Serve(oldpath: string, h: Handler): Outcome
    requires oldpath != "" && oldpath[0] == '/'
  {
    match h
    case Registered(id) => Handled(id)
    case RedirectTo(url) => Moved(Location(oldpath, url))
  }

  /** What the multiplexer does with a request. */
  ghost function Dispatch(m: map<string, Handler>, host: string, path: string): Outcome {
    var p := CleanPath(path);
    if p != path then Moved(p)
    else if BestOf(m, host + path).Some? then Serve(path, BestOf(m, host + path).value)
    else if BestOf(m, path).Some? then Serve(path, BestOf(m, path).value)
    else NotFound
  }

  class ServeMux {
    var m: map<string, Handler>

    constructor ()
      ensures m == map[]
    {
      m := map[];
    }

    /** `Handle` (lines 98-111); registering "" panics. */
    method Handle(pattern: string, id: nat)
      requires pattern != ""
      modifies this
      ensures m == Registering(old(m), pattern, id)
      ensures pattern in m && m[pattern] == Registered(id)
      ensures var tree := pattern[..|pattern| - 1];
              && (pattern == tree + "/" ==> tree in m && m[tree] == RedirectTo(pattern))
              && forall k | k != pattern && (pattern != tree + "/" || k != tree) ::
                   (k in m <==> k in old(m)) && (k in m ==> m[k] == old(m[k]))
      ensures old(Sound(m)) && CleanPattern(pattern) ==> Sound(m)
      ensures forall path :: PathMatch(pattern, path) && BestOf(old(m), path) == None ==>
                BestOf(m, path) == Some(Registered(id))
    {
      if Sound(m) && CleanPattern(pattern) { RegisteringSound(m, pattern, id); }
      forall path | PathMatch(pattern, path) && BestOf(m, path) == None
        ensures BestOf(Registering(m, pattern, id), path) == Some(Registered(id))
      {
        OnlyMatch(m, pattern, id, path);
      }
      m := m[pattern := Registered(id)];
      var n := |pattern|;
      if n > 0 && pattern[n - 1] == '/' {
        m := m[pattern[..n - 1] := RedirectTo(pattern)];
      }
    }

    /** `match` (lines 62-75): the map is visited in any order, the result is the same. */
    method Match(path: string) returns (h: Option<Handler>)
      ensures h == BestOf(m, path)
    {
      h := None;
      var n := 0;
      var todo := m.Keys;
      ghost var best := "";
      while todo != {}
        invariant todo <= m.Keys
        invariant h == None ==> forall k | k in m && k !in todo :: !PathMatch(k, path)
        invariant h.Some? ==>
                    && best in m && PathMatch(best, path) && h == Some(m[best]) && n == |best|
                    && forall k | k in m && k !in todo && PathMatch(k, path) :: |k| <= n
        decreases todo
      {
        var k :| k in todo;
        todo := todo - {k};
        if !PathMatch(k, path) { continue; }
        if h == None || |k| > n {
          n := |k|;
          h := Some(m[k]);
          best := k;
        }
      }
      if h.Some? { BestIs(m, path, best); }
    }

    /** `ServeICAP` (lines 79-95). */
    method ServeICAP(host: string, path: string) returns (out: Outcome)
      ensures out == Dispatch(m, host, path)
    {
      var p := CleanPath(path);
      if p != path { return Moved(p); }
      var h := Match(host + path);
      if h == None {
        h := Match(path);
      }
      if h == None { return NotFound; }
      out := Serve(path, h.value);
    }
  }

  /** On a path that is not clean: a redirect to the clean one. On a clean one: the best match of
      host and path, before that of the path alone, before not found. */
  lemma DispatchExactly(m: map<string, Handler>, host: string, path: string, k: string)
    ensures CleanPath(path) != path ==> Dispatch(m, host, path) == Moved(CleanPath(path))
    ensures CleanPath(path) == path && IsBest(m, host + path, k) && m[k].Registered? ==>
              Dispatch(m, host, path) == Handled(m[k].id)
    ensures CleanPath(path) == path && (forall j | j in m :: !PathMatch(j, host + path))
            && IsBest(m, path, k) && m[k].Registered? ==>
              Dispatch(m, host, path) == Handled(m[k].id)
    ensures CleanPath(path) == path && (forall j | j in m :: !PathMatch(j, host + path) && !PathMatch(j, path)) ==>
              Dispatch(m, host, path) == NotFound
  {
    if IsBest(m, host + path, k) { BestIs(m, host + path, k); }
    if IsBest(m, path, k) { BestIs(m, path, k); }
  }

  // ---------------------------------------------------------------------------------
  // Settling
  // ---------------------------------------------------------------------------------

  /** A clean pattern without a query. */
  ghost predicate CleanPattern(p: string) {
    (exists es, slash :: AllPlain(es) && p == PathOf(es, slash)) && '?' !in p
  }

  /** A redirect leads to a registered tree, and patterns are clean. */
  ghost predicate SoundEntry(m: map<string, Handler>, k: string)
    requires k in m
  {
    match m[k]
    case Registered(_) => CleanPattern(k)
    case RedirectTo(url) =>
      url == k + "/" && CleanPattern(url) && url in m && m[url].Registered? && (k == "" || k[|k| - 1] != '/')
  }

  ghost predicate Sound(m: map<string, Handler>) { forall k | k in m :: SoundEntry(m, k) }

  lemma PathEnd(p: string)
    requires CleanPattern(p)
    ensures p != "" && p[0] == '/' && CleanPath(p) == p
    ensures p[|p| - 1] == '/' && |p| > 1 ==> p[|p| - 2] != '/'
  {
    var es, slash :| AllPlain(es) && p == PathOf(es, slash);
    CleanFixed(es, slash);
    if es != [] {
      LastByte(es);
      assert p == PathOf(es, false) + if slash then "/" else "";
    }
  }

  lemma OldEntrySound(m: map<string, Handler>, pattern: string, id: nat, k: string)
    requires k in m && SoundEntry(m, k) && CleanPattern(pattern) && pattern != ""
    requires Registering(m, pattern, id)[k] == m[k]
    ensures SoundEntry(Registering(m, pattern, id), k)
  {
    if m[k].RedirectTo? {
      var url := m[k].url;
      assert url[|url| - 1] == '/';
      PathEnd(pattern);
      assert Registering(m, pattern, id)[url].Registered?;
    }
  }

  lemma NewEntrySound(m: map<string, Handler>, pattern: string, id: nat, k: string)
    requires CleanPattern(pattern) && pattern != ""
    requires k == pattern || (pattern[|pattern| - 1] == '/' && k == pattern[..|pattern| - 1])
    ensures SoundEntry(Registering(m, pattern, id), k)
  {
    PathEnd(pattern);
    if k != pattern { assert k + "/" == pattern; }
  }

  lemma RegisteringSound(m: map<string, Handler>, pattern: string, id: nat)
    requires Sound(m) && CleanPattern(pattern)
    ensures pattern != "" && Sound(Registering(m, pattern, id))
  {
    PathEnd(pattern);
    var m' := Registering(m, pattern, id);
    forall k | k in m' ensures SoundEntry(m', k) {
      if k == pattern || (pattern[|pattern| - 1] == '/' && k == pattern[..|pattern| - 1]) {
        NewEntrySound(m, pattern, id, k);
      } else {
        OldEntrySound(m, pattern, id, k);
      }
    }
  }

  function RegisterAll(patterns: seq<(string, nat)>): map<string, Handler>
    requires forall i | 0 <= i < |patterns| :: patterns[i].0 != ""
  {
    if patterns == [] then map[]
    else
      var n := |patterns| - 1;
      Registering(RegisterAll(patterns[..n]), patterns[n].0, patterns[n].1)
  }

  lemma {:induction false} RegisterAllSound(patterns: seq<(string, nat)>)
    requires forall i | 0 <= i < |patterns| :: CleanPattern(patterns[i].0) && patterns[i].0 != ""
    ensures Sound(RegisterAll(patterns))
  {
    if patterns != [] {
      var n := |patterns| - 1;
      RegisterAllSound(patterns[..n]);
      RegisteringSound(RegisterAll(patterns[..n]), patterns[n].0, patterns[n].1);
    }
  }

  lemma Rooted(m: map<string, Handler>, k: string)
    requires k in m && SoundEntry(m, k)
    ensures k == "" || k[0] == '/'
  {
    if m[k].Registered? { PathEnd(k); } else { PathEnd(m[k].url); }
  }

  /** A host in front of the path matches no rooted pattern. */
  lemma HostMatchesNothing(m: map<string, Handler>, host: string, path: string)
    requires Sound(m) && host != "" && host[0] != '/'
    ensures BestOf(m, host + path) == None
  {
    assert (host + path)[0] == host[0];
    if k :| IsBest(m, host + path, k) {
      Rooted(m, k);
    }
  }

  /** Where a redirect leads: to the clean form of its path, which a relative one puts behind the
      directory of the old path; the query is kept. */
  lemma LocationExactly(oldpath: string, target: string, query: string)
    requires oldpath != "" && oldpath[0] == '/' && '?' !in oldpath
    requires '?' !in target && (query == "" || query[0] == '?')
    ensures Location(oldpath, target + query) ==
            CleanPath(if target != "" && target[0] == '/' then target else Dir(oldpath) + target) + query
  {
    var redirect := target + query;
    if target != "" && target[0] == '/' {
      assert Location(oldpath, redirect) == Cleaned(redirect);
      CleanedExactly(target, query);
    } else {
      var dir := Dir(oldpath);
      assert redirect == "" || redirect[0] != '/';
      Associative(dir, target, query);
      CleanedExactly(dir + target, query);
    }
  }

  lemma CleanedExactly(path: string, query: string)
    requires path != "" && path[0] == '/' && '?' !in path && (query == "" || query[0] == '?')
    ensures Cleaned(path + query) == CleanPath(path) + query
  {
    QueryAt(path, query);
    CleanEnd(path);
    var url := path + query;
    assert url[..|path|] == path && url[|path|..] == query;
    assert query == "" ==> url == path;
  }

  lemma QueryAt(path: string, query: string)
    requires '?' !in path && (query == "" || query[0] == '?')
    ensures Index(path + query, "?") == if query == "" then None else Some(|path|)
  {
    var url := path + query;
    AtFirstByte(url, "?");
    assert forall j | 0 <= j < |path| :: url[j] == path[j] && path[j] != '?';
    if query != "" {
      assert At(url, |path|, "?");
      IndexIs(url, "?", |path|);
    }
  }

  lemma LocationOfPattern(oldpath: string, url: string)
    requires oldpath != "" && oldpath[0] == '/' && CleanPattern(url) && url[|url| - 1] == '/'
    ensures Location(oldpath, url) == url
  {
    PathEnd(url);
    QueryAt(url, "");
    assert url + "" == url;
    assert CleanPath(url) == Clean(url) + if Clean(url) != "/" then "/" else "";
  }

  lemma HostIgnored(m: map<string, Handler>, host: string, path: string)
    requires Sound(m) && (host == "" || host[0] != '/') && CleanPath(path) == path
    ensures var best := BestOf(m, path);
            Dispatch(m, host, path) == if best.Some? then Serve(path, best.value) else NotFound
  {
    if host != "" { HostMatchesNothing(m, host, path); } else { assert host + path == path; }
  }

  lemma TreeHandled(m: map<string, Handler>, url: string)
    requires url in m && m[url].Registered? && PathMatch(url, url)
    ensures BestOf(m, url) == Some(m[url])
  {
    forall j | j in m && PathMatch(j, url) ensures |j| <= |url| {}
    BestIs(m, url, url);
  }

  /** On a clean path, the multiplexer redirects only into a registered tree, and there the
      request reaches a handler. */
  lemma CleanSettles(m: map<string, Handler>, host: string, path: string)
    requires Sound(m) && (host == "" || host[0] != '/') && CleanPath(path) == path
    ensures var out := Dispatch(m, host, path);
            out.Moved? ==> out.location == path + "/" && Dispatch(m, host, out.location).Handled?
  {
    HostIgnored(m, host, path);
    if k :| IsBest(m, path, k) {
      BestIs(m, path, k);
      if m[k].RedirectTo? {
        assert SoundEntry(m, k);
        var url := m[k].url;
        assert k == path;
        PathEnd(url);
        LocationOfPattern(path, url);
        HostIgnored(m, host, url);
        TreeHandled(m, url);
      }
    }
  }

  /** With clean patterns, every request reaches a handler or a 404 after at most two
      redirects. */
  lemma Settles(patterns: seq<(string, nat)>, host: string, path: string)
    requires forall i | 0 <= i < |patterns| :: CleanPattern(patterns[i].0) && patterns[i].0 != ""
    requires host == "" || host[0] != '/'
    ensures var m := RegisterAll(patterns);
            var first := Dispatch(m, host, path);
            first.Moved? ==>
              var second := Dispatch(m, host, first.location);
              second.Moved? ==> Dispatch(m, host, second.location).Handled?
  {
    var m := RegisterAll(patterns);
    RegisterAllSound(patterns);
    CleanIdempotent(path);
    if CleanPath(path) == path {
      CleanSettles(m, host, path);
    } else {
      CleanSettles(m, host, CleanPath(path));
    }
  }
}
