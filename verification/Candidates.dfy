/** The counters of unmatched domains (business/candidate_logger.go). */
module Candidates {
  import opened Strings

  // ---------------------------------------------------------------------------------
  // The filter in front of the counters
  // ---------------------------------------------------------------------------------

  /** Content types that get past lines 105-123. */
  predicate ContentTypePasses(contentType: string) {
    var ct := ToLower(contentType);
    if !Contains(ct, "application/json") && !Contains(ct, "application/") && !HasSuffix(ct, "+json")
       && !Contains(ct, "text/event-stream") && !Contains(ct, "multipart/form-data")
    then
      ct == "" ||
      !("text/html" <= ct || "image/" <= ct || "application/javascript" <= ct || "font/" <= ct
        || "text/css" <= ct || "application/x-www-form-urlencoded" <= ct)
    else true
  }

  predicate Denied(denylist: set<string>, domain: string) {
    var d := ToLower(domain);
    d in denylist || exists suffix | suffix in denylist :: "." <= suffix && HasSuffix(d, suffix)
  }

  /** `candidatePreFilter` (lines 99-137). */
  predicate PreFilter(verb: string, contentType: string, domain: string, denylist: set<string>) {
    var m := ToUpper(TrimSpace(verb));
    (m == "POST" || m == "PUT") && ContentTypePasses(contentType) && !Denied(denylist, domain)
  }

  /** The entries of the drop list that start with "application/" drop nothing: scripts and form
      posts are counted. */
  lemma ApplicationAlwaysPasses(contentType: string)
    requires "application/" <= ToLower(contentType)
    ensures ContentTypePasses(contentType)
  {
    assert At(ToLower(contentType), 0, "application/");
    var i := Index(ToLower(contentType), "application/");
  }

  /** Text `b` at the start of `s`, in either case. */
  predicate StartsWith(s: string, b: string) { |b| <= |s| && EqualFold(s[..|b|], b) }

  /** Text `b` somewhere in `s`, in either case. */
  ghost predicate Includes(s: string, b: string) { exists i: nat :: FoldAt(s, i, b) }

  predicate FoldAt(s: string, i: nat, b: string) { i + |b| <= |s| && EqualFold(s[i..i + |b|], b) }

  predicate EndsWith(s: string, b: string) { |b| <= |s| && EqualFold(s[|s| - |b|..], b) }

  predicate NoUpper(b: string) { forall i | 0 <= i < |b| :: !('A' <= b[i] <= 'Z') }

  lemma LowerSlice(s: string, from: nat, to: nat)
    requires from <= to <= |s|
    ensures ToLower(s)[from..to] == ToLower(s[from..to])
  {}

  lemma LowerStarts(s: string, b: string)
    requires NoUpper(b)
    ensures b <= ToLower(s) <==> StartsWith(s, b)
  {
    if |b| <= |s| {
      LowerSlice(s, 0, |b|);
      LowerEqual(s[..|b|], b);
    }
  }

  lemma LowerEnds(s: string, b: string)
    requires NoUpper(b)
    ensures HasSuffix(ToLower(s), b) <==> EndsWith(s, b)
  {
    if |b| <= |s| {
      LowerSlice(s, |s| - |b|, |s|);
      LowerEqual(s[|s| - |b|..], b);
    }
  }

  lemma LowerAt(s: string, b: string, i: nat)
    requires NoUpper(b)
    ensures At(ToLower(s), i, b) <==> FoldAt(s, i, b)
  {
    if i + |b| <= |s| {
      LowerSlice(s, i, i + |b|);
      LowerEqual(s[i..i + |b|], b);
    }
  }

  lemma LowerContains(s: string, b: string)
    requires NoUpper(b)
    ensures Contains(ToLower(s), b) <==> Includes(s, b)
  {
    var at := Index(ToLower(s), b);
    if at.Some? { LowerAt(s, b, at.value); }
    if i: nat :| FoldAt(s, i, b) { LowerAt(s, b, i); }
  }

  /** The content types that count, in either case: those that name an application type, JSON, an
      event stream or form data, and others that are not pages, images, fonts or style sheets. */
  lemma ContentTypeExactly(contentType: string)
    ensures ContentTypePasses(contentType) <==>
              || Includes(contentType, "application/") || EndsWith(contentType, "+json")
              || Includes(contentType, "text/event-stream") || Includes(contentType, "multipart/form-data")
              || !(StartsWith(contentType, "text/html") || StartsWith(contentType, "image/")
                   || StartsWith(contentType, "font/") || StartsWith(contentType, "text/css"))
  {
    var ct := contentType;
    LowerContains(ct, "application/");
    LowerEnds(ct, "+json");
    LowerContains(ct, "text/event-stream");
    LowerContains(ct, "multipart/form-data");
    Dropped(ct);
  }

  lemma Dropped(ct: string)
    ensures "text/html" <= ToLower(ct) <==> StartsWith(ct, "text/html")
    ensures "image/" <= ToLower(ct) <==> StartsWith(ct, "image/")
    ensures "font/" <= ToLower(ct) <==> StartsWith(ct, "font/")
    ensures "text/css" <= ToLower(ct) <==> StartsWith(ct, "text/css")
    ensures "application/javascript" <= ToLower(ct) ==> Contains(ToLower(ct), "application/")
    ensures "application/x-www-form-urlencoded" <= ToLower(ct) ==> Contains(ToLower(ct), "application/")
    ensures Contains(ToLower(ct), "application/json") ==> Contains(ToLower(ct), "application/")
  {
    LowerStarts(ct, "text/html");
    LowerStarts(ct, "image/");
    LowerStarts(ct, "font/");
    LowerStarts(ct, "text/css");
    Within(ToLower(ct), "application/javascript", "application/");
    Within(ToLower(ct), "application/x-www-form-urlencoded", "application/");
    Within(ToLower(ct), "application/json", "application/");
  }

  lemma Within(s: string, long: string, short: string)
    requires short <= long
    ensures long <= s ==> Contains(s, short)
    ensures Contains(s, long) ==> Contains(s, short)
  {
    if long <= s { assert At(s, 0, short); }
    var at := Index(s, long);
    if at.Some? {
      assert s[at.value..at.value + |short|] == s[at.value..at.value + |long|][..|short|];
      assert At(s, at.value, short);
    }
  }

  /** What is counted: a POST or PUT, in either case and between white space, with such a content
      type, to a domain that is not listed, nor under one that is listed with a leading dot. */
  lemma PreFilterExactly(verb: string, contentType: string, domain: string, denylist: set<string>)
    requires forall d | d in denylist :: NoUpper(d)
    ensures PreFilter(verb, contentType, domain, denylist) <==>
              && (EqualFold(TrimSpace(verb), "POST") || EqualFold(TrimSpace(verb), "PUT"))
              && ContentTypePasses(contentType)
              && forall d | d in denylist :: !EqualFold(domain, d) && !(d != "" && d[0] == '.' && EndsWith(domain, d))
  {
    UpperEqual(TrimSpace(verb), "POST");
    UpperEqual(TrimSpace(verb), "PUT");
    assert ToUpper("POST") == "POST" && ToUpper("PUT") == "PUT";
    forall d | d in denylist
      ensures ToLower(domain) == d <==> EqualFold(domain, d)
      ensures HasSuffix(ToLower(domain), d) <==> EndsWith(domain, d)
    {
      LowerEqual(domain, d);
      LowerEnds(domain, d);
    }
  }

  // ---------------------------------------------------------------------------------
  // Counting and flushing, one atomic step at a time
  // ---------------------------------------------------------------------------------

  function Count(m: map<string, nat>, domain: string): nat {
    if domain in m then m[domain] else 0
  }

  function Add(m: map<string, nat>, domain: string, n: nat): map<string, nat> {
    m[domain := Count(m, domain) + n]
  }

  /** The counters, the part of the snapshot that a flush has still to write, the table, and
      the counts that failed upserts lost. */
  datatype State = State(counts: map<string, nat>, pending: map<string, nat>, db: map<string, nat>,
                         lost: map<string, nat>)

  /** What can happen next: an accepted or refused observation, the swap under the mutex, one
      upsert of the flush in progress. */
  datatype Step = Observe(domain: string, accepted: bool)
                | Swap
                | Upsert(domain: string, ok: bool)

  /** There is one flush loop: it swaps when its last flush is over, and writes what it took. */
  predicate Enabled(s: State, step: Step) {
    match step
    case Observe(_, _) => true
    case Swap => s.pending == map[]
    case Upsert(d, _) => d in s.pending
  }

  function Next(s: State, step: Step): State
    requires Enabled(s, step)
  {
    match step
    case Observe(d, accepted) => if accepted then s.(counts := Add(s.counts, d, 1)) else s
    case Swap => s.(counts := map[], pending := s.counts)
    case Upsert(d, ok) =>
      var t := s.(pending := s.pending - {d});
      if ok then t.(db := Add(s.db, d, s.pending[d])) else t.(lost := Add(s.lost, d, s.pending[d]))
  }

  /** A run: observers and the flush loop interleave in any order. */
  ghost predicate Run(states: seq<State>, steps: seq<Step>) {
    && |states| == |steps| + 1
    && states[0].counts == states[0].pending == states[0].lost == map[]
    && forall i | 0 <= i < |steps| :: Enabled(states[i], steps[i]) && states[i + 1] == Next(states[i], steps[i])
  }

  /** How many observations of a domain the filter let through. */
  function Accepted(steps: seq<Step>, domain: string): nat {
    if steps == [] then 0
    else
      var n := |steps| - 1;
      Accepted(steps[..n], domain) + if steps[n] == Observe(domain, true) then 1 else 0
  }

  function Total(s: State, domain: string): nat {
    Count(s.counts, domain) + Count(s.pending, domain) + Count(s.db, domain) + Count(s.lost, domain)
  }

  lemma StepConserves(s: State, step: Step, domain: string)
    requires Enabled(s, step)
    ensures Total(Next(s, step), domain) == Total(s, domain) + if step == Observe(domain, true) then 1 else 0
  {}

  /** In every interleaving, per domain: what was in the table and what was accepted since is in
      the counters, in the snapshot being written, in the table, or lost by a failed upsert. */
  lemma {:induction false} Conservation(states: seq<State>, steps: seq<Step>, i: nat, domain: string)
    requires Run(states, steps) && i <= |steps|
    ensures Total(states[i], domain) == Count(states[0].db, domain) + Accepted(steps[..i], domain)
  {
    if i > 0 {
      Conservation(states, steps, i - 1, domain);
      assert steps[..i][..i - 1] == steps[..i - 1];
      StepConserves(states[i - 1], steps[i - 1], domain);
    }
  }

  /** No upsert failed: nothing is lost. */
  lemma {:induction false} NothingLost(states: seq<State>, steps: seq<Step>, i: nat)
    requires Run(states, steps) && i <= |steps|
    requires forall j | 0 <= j < i && steps[j].Upsert? :: steps[j].ok
    ensures states[i].lost == map[]
  {
    if i > 0 { NothingLost(states, steps, i - 1); }
  }

  /** After a swap with no observation accepted since, the counters are empty. */
  lemma {:induction false} QuietAfterSwap(states: seq<State>, steps: seq<Step>, k: nat, i: nat)
    requires Run(states, steps) && k < i <= |steps| && steps[k] == Swap
    requires forall j | k < j < i && steps[j].Observe? :: !steps[j].accepted
    ensures states[i].counts == map[]
  {
    if i > k + 1 { QuietAfterSwap(states, steps, k, i - 1); }
  }

  /** A final flush that is over, with no later observation and no failed upsert, leaves the table
      exact for every domain; with failures it is short by exactly what they lost. */
  lemma FinalFlushExact(states: seq<State>, steps: seq<Step>, k: nat, domain: string)
    requires Run(states, steps) && k < |steps| && steps[k] == Swap
    requires forall j | k < j < |steps| && steps[j].Observe? :: !steps[j].accepted
    requires states[|steps|].pending == map[]
    ensures var end := states[|steps|];
            && Count(end.db, domain) + Count(end.lost, domain) == Count(states[0].db, domain) + Accepted(steps, domain)
            && ((forall j | 0 <= j < |steps| && steps[j].Upsert? :: steps[j].ok) ==>
                  Count(end.db, domain) == Count(states[0].db, domain) + Accepted(steps, domain))
  {
    QuietAfterSwap(states, steps, k, |steps|);
    Conservation(states, steps, |steps|, domain);
    assert steps[..|steps|] == steps;
    if forall j | 0 <= j < |steps| && steps[j].Upsert? :: steps[j].ok {
      NothingLost(states, steps, |steps|);
    }
  }

  // ---------------------------------------------------------------------------------
  // The logger
  // ---------------------------------------------------------------------------------

  /** The table after writing a snapshot whose upserts fail for some domains. */
  function Written(db: map<string, nat>, snapshot: map<string, nat>, fails: set<string>, domain: string): nat {
    Count(db, domain) + if domain in fails then 0 else Count(snapshot, domain)
  }

  class CandidateLogger {
    var counts: map<string, nat>
    var denylist: set<string>
    var pending: map<string, nat>
    var db: map<string, nat>
    ghost var lost: map<string, nat>

    ghost function View(): State
      reads this
    {
      State(counts, pending, db, lost)
    }

    constructor (denylist: set<string>, db: map<string, nat>)
      ensures View() == State(map[], map[], db, map[]) && this.denylist == denylist
    {
      counts, pending, lost := map[], map[], map[];
      this.denylist, this.db := denylist, db;
    }

    /** `Observe` (lines 41-48). */
    method Observe(domain: string, verb: string, contentType: string)
      modifies this`counts
      ensures View() == Next(old(View()), Step.Observe(domain, PreFilter(verb, contentType, domain, denylist)))
      ensures forall d :: Count(counts, d) == old(Count(counts, d)) +
                            if d == domain && PreFilter(verb, contentType, domain, denylist) then 1 else 0
    {
      if !PreFilter(verb, contentType, domain, denylist) { return; }
      counts := Add(counts, domain, 1);
    }

    /** Lines 70-77: under the mutex. */
    method Swap() returns (busy: bool)
      requires Enabled(View(), Step.Swap)
      modifies this`counts, this`pending
      ensures View() == Next(old(View()), Step.Swap)
      ensures busy == (old(counts) != map[])
    {
      busy := |counts| != 0;
      if !busy { return; }
      pending := counts;
      counts := map[];
    }

    /** Lines 89-93: one upsert. */
    method Upsert(domain: string, ok: bool)
      requires Enabled(View(), Step.Upsert(domain, ok))
      modifies this`pending, this`db, this`lost
      ensures View() == Next(old(View()), Step.Upsert(domain, ok))
    {
      if ok {
        db := Add(db, domain, pending[domain]);
      } else {
        lost := Add(lost, domain, pending[domain]);
      }
      pending := pending - {domain};
    }

    /** `flush` (lines 69-95) left alone by observers; the snapshot is written in any order. */
    method Flush(fails: set<string>)
      requires pending == map[]
      modifies this`counts, this`pending, this`db, this`lost
      ensures counts == pending == map[]
      ensures forall d :: Count(db, d) == Written(old(db), old(counts), fails, d)
    {
      var busy := Swap();
      if !busy { return; }
      var snapshot := pending;
      while pending != map[]
        invariant counts == map[]
        invariant pending.Keys <= snapshot.Keys && forall d | d in pending :: pending[d] == snapshot[d]
        invariant forall d :: Count(db, d) ==
                              if d in pending then Count(old(db), d) else Written(old(db), snapshot, fails, d)
        decreases pending.Keys
      {
        var d :| d in pending;
        Upsert(d, d !in fails);
      }
    }
  }
}
