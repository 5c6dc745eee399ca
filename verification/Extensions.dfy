/** The three extension arrays of a service: how the configuration validates them, in which
    order they are scanned, and the verdict on a file extension. */
module Extensions {

  const ANY := "*"

  datatype Kind = Process | Reject | Bypass | Unnamed

  datatype Extension = Extension(name: Kind, exts: seq<string>)

  predicate IsAny(exts: seq<string>) { |exts| == 1 && exts[0] == ANY }

  // ---------------------------------------------------------------------------------
  // Validation (config/config.go:84-155)
  // ---------------------------------------------------------------------------------

  ghost predicate Distinct(a: seq<string>) {
    forall i, j | 0 <= i < j < |a| :: a[i] != a[j]
  }

  /** An asterisk only stands alone. */
  predicate Clean(exts: seq<string>) { ANY in exts ==> |exts| == 1 }

  /** The triples a service may be configured with. */
  ghost predicate Valid(bypass: seq<string>, process: seq<string>, reject: seq<string>) {
    && Distinct(bypass + process + reject)
    && Clean(bypass) && Clean(process) && Clean(reject)
    && (IsAny(bypass) || IsAny(process) || IsAny(reject))
  }

  /** What the loops have recorded of the first `k` of all the entries. */
  ghost predicate Recorded(all: seq<string>, k: nat, ext: map<string, bool>, asterisks: nat)
    requires k <= |all|
  {
    && (forall i, j | 0 <= i < j < k :: all[i] != all[j])
    && (forall x | x in ext :: ext[x] && exists i :: 0 <= i < k && all[i] == x)
    && (forall i | 0 <= i < k :: all[i] in ext)
    && asterisks == (if exists i :: 0 <= i < k && all[i] == ANY then 1 else 0)
  }

  lemma RecordOne(all: seq<string>, k: nat, ext: map<string, bool>, asterisks: nat)
    requires k < |all| && Recorded(all, k, ext, asterisks)
    ensures all[k] in ext ==> ext[all[k]] && !Distinct(all)
    ensures all[k] !in ext ==>
              Recorded(all, k + 1, ext[all[k] := true], if all[k] == ANY then asterisks + 1 else asterisks)
  {
    if all[k] !in ext {
      var ext' := ext[all[k] := true];
      forall x | x in ext' ensures ext'[x] && exists i :: 0 <= i < k + 1 && all[i] == x {
        if x != all[k] {
          var i :| 0 <= i < k && all[i] == x;
        } else {
          assert all[k] == x;
        }
      }
      if all[k] == ANY { assert !exists i :: 0 <= i < k && all[i] == ANY; }
    }
  }

  lemma StandsAlone(arr: seq<string>)
    ensures Clean(arr) <==> |arr| == 1 || forall j | 0 <= j < |arr| :: arr[j] != ANY
  {}

  /** One of the three loops, over the entries from `k` on. */
  method CheckArray(arr: seq<string>, ext0: map<string, bool>, asterisks0: nat, ghost all: seq<string>, ghost k: nat)
    returns (ok: bool, ext: map<string, bool>, asterisks: nat)
    requires k + |arr| <= |all| && forall i | 0 <= i < |arr| :: all[k + i] == arr[i]
    requires Recorded(all, k, ext0, asterisks0)
    ensures ok ==> Clean(arr) && Recorded(all, k + |arr|, ext, asterisks)
    ensures !ok ==> !Clean(arr) || !Distinct(all)
  {
    ext, asterisks := ext0, asterisks0;
    StandsAlone(arr);
    for i := 0 to |arr|
      invariant Recorded(all, k + i, ext, asterisks)
      invariant |arr| != 1 ==> forall j | 0 <= j < i :: arr[j] != ANY
    {
      if arr[i] == ANY && |arr| != 1 {
        return false, ext, asterisks;
      }
      RecordOne(all, k + i, ext, asterisks);
      if arr[i] == ANY {
        asterisks := asterisks + 1;
      }
      if arr[i] in ext && ext[arr[i]] {
        return false, ext, asterisks;
      }
      ext := ext[arr[i] := true];
    }
    ok := true;
  }

  /** The three loops and the final count accept exactly the valid triples. */
  method Validate(bypass: seq<string>, process: seq<string>, reject: seq<string>) returns (ok: bool)
    ensures ok <==> Valid(bypass, process, reject)
  {
    ghost var all := bypass + process + reject;
    var ext: map<string, bool> := map[];
    var asterisks := 0;
    ok, ext, asterisks := CheckArray(bypass, ext, asterisks, all, 0);
    if !ok { return false; }
    ok, ext, asterisks := CheckArray(process, ext, asterisks, all, |bypass|);
    if !ok { return false; }
    ok, ext, asterisks := CheckArray(reject, ext, asterisks, all, |bypass| + |process|);
    if !ok { return false; }
    AnyAmong(bypass, process, reject);
    assert asterisks == 1 <==> ANY in all;
    ok := asterisks == 1;
  }

  lemma AnyAmong(a: seq<string>, b: seq<string>, c: seq<string>)
    requires Clean(a) && Clean(b) && Clean(c)
    ensures ANY in a + b + c <==> IsAny(a) || IsAny(b) || IsAny(c)
  {
    assert ANY in a + b + c <==> ANY in a || ANY in b || ANY in c;
    assert ANY in a <==> IsAny(a);
    assert ANY in b <==> IsAny(b);
    assert ANY in c <==> IsAny(c);
  }

  // ---------------------------------------------------------------------------------
  // Order (service/services-utilities/extension.go:34-60)
  // ---------------------------------------------------------------------------------

  /** A scanning order: each array once, under its name, the asterisk array last. */
  ghost predicate IsOrder(arr: seq<Extension>, process: seq<string>, reject: seq<string>, bypass: seq<string>) {
    var p, r, b := Extension(Process, process), Extension(Reject, reject), Extension(Bypass, bypass);
    && |arr| == 3 && IsAny(arr[2].exts)
    && (   (arr[0] == p && arr[1] == r && arr[2] == b) || (arr[0] == r && arr[1] == p && arr[2] == b)
        || (arr[0] == p && arr[1] == b && arr[2] == r) || (arr[0] == b && arr[1] == p && arr[2] == r)
        || (arr[0] == r && arr[1] == b && arr[2] == p) || (arr[0] == b && arr[1] == r && arr[2] == p))
  }

  /** With one asterisk array, the slots are a scanning order. */
  method InitExtsArr(processExts: seq<string>, rejectExts: seq<string>, bypassExts: seq<string>)
    returns (extArrs: array<Extension>)
    ensures fresh(extArrs) && extArrs.Length == 3
    ensures OneAny(processExts, rejectExts, bypassExts) ==> IsOrder(extArrs[..], processExts, rejectExts, bypassExts)
  {
    var process := Extension(Process, processExts);
    var reject := Extension(Reject, rejectExts);
    var bypass := Extension(Bypass, bypassExts);
    extArrs := new Extension[3](_ => Extension(Unnamed, []));
    var ind := 0;
    if IsAny(process.exts) {
      extArrs[2] := process;
    } else {
      extArrs[ind] := process;
      ind := ind + 1;
    }
    if IsAny(reject.exts) {
      extArrs[2] := reject;
    } else {
      extArrs[ind] := reject;
      ind := ind + 1;
    }
    if IsAny(bypass.exts) {
      extArrs[2] := bypass;
    } else {
      extArrs[ind] := bypass;
      ind := ind + 1;
    }
    assert extArrs[..] == [extArrs[0], extArrs[1], extArrs[2]];
  }

  /** Exactly one of the arrays is the asterisk array. */
  predicate OneAny(process: seq<string>, reject: seq<string>, bypass: seq<string>) {
    || (IsAny(process) && !IsAny(reject) && !IsAny(bypass))
    || (!IsAny(process) && IsAny(reject) && !IsAny(bypass))
    || (!IsAny(process) && !IsAny(reject) && IsAny(bypass))
  }

  /** Validation guarantees that. */
  lemma ValidOneAny(bypass: seq<string>, process: seq<string>, reject: seq<string>)
    requires Valid(bypass, process, reject)
    ensures OneAny(process, reject, bypass)
  {
    var all := bypass + process + reject;
    assert IsAny(bypass) ==> all[0] == ANY;
    assert IsAny(process) ==> all[|bypass|] == ANY;
    assert IsAny(reject) ==> all[|bypass| + |process|] == ANY;
  }

  // ---------------------------------------------------------------------------------
  // Verdict
  // ---------------------------------------------------------------------------------

  method InStringSlice(data: string, ss: seq<string>) returns (found: bool)
    ensures found <==> data in ss
  {
    for i := 0 to |ss|
      invariant data !in ss[..i]
    {
      if data == ss[i] { return true; }
    }
    found := false;
  }

  method IfFileExtIsX(ext: string, arr: seq<string>) returns (yes: bool)
    ensures yes <==> IsAny(arr) || ext in arr
  {
    if |arr| == 1 && arr[0] == ANY { return true; }
    yes := InStringSlice(ext, arr);
  }

  /** The array that lists the extension, else the asterisk array. */
  function Verdict(ext: string, process: seq<string>, reject: seq<string>, bypass: seq<string>): Kind {
    if !IsAny(process) && ext in process then Process
    else if !IsAny(reject) && ext in reject then Reject
    else if !IsAny(bypass) && ext in bypass then Bypass
    else if IsAny(process) then Process
    else if IsAny(reject) then Reject
    else Bypass
  }

  /** Which array holds the extension does not depend on the order of asking. */
  lemma ListedOnce(ext: string, bypass: seq<string>, process: seq<string>, reject: seq<string>)
    requires Valid(bypass, process, reject)
    ensures !(ext in bypass && ext in process) && !(ext in bypass && ext in reject)
    ensures !(ext in process && ext in reject)
  {
    var all := bypass + process + reject;
    assert forall i | 0 <= i < |bypass| :: all[i] == bypass[i];
    assert forall i | 0 <= i < |process| :: all[|bypass| + i] == process[i];
    assert forall i | 0 <= i < |reject| :: all[|bypass| + |process| + i] == reject[i];
  }

  /** An extension goes to the array that lists it, and one that none lists to the asterisk. */
  lemma VerdictExactly(ext: string, process: seq<string>, reject: seq<string>, bypass: seq<string>)
    requires Valid(bypass, process, reject)
    ensures var listed := (process != [ANY] && ext in process) || (reject != [ANY] && ext in reject)
                          || (bypass != [ANY] && ext in bypass);
            && (Verdict(ext, process, reject, bypass) == Process <==>
                  if process == [ANY] then !listed else ext in process)
            && (Verdict(ext, process, reject, bypass) == Reject <==>
                  if reject == [ANY] then !listed else ext in reject)
            && (Verdict(ext, process, reject, bypass) == Bypass <==>
                  if bypass == [ANY] then !listed else ext in bypass)
  {
    ValidOneAny(bypass, process, reject);
    ListedOnce(ext, bypass, process, reject);
    AnyIs(process);
    AnyIs(reject);
    AnyIs(bypass);
  }

  lemma AnyIs(exts: seq<string>)
    ensures IsAny(exts) <==> exts == [ANY]
  {}

  /** The decision loop of `CheckTheExtension` (general-functions.go:79-131): for a valid
      triple, scanned in any order with the asterisk array last, it is the verdict. */
  method CheckTheExtension(ext: string, extArrs: seq<Extension>, processExts: seq<string>, rejectExts: seq<string>,
                           bypassExts: seq<string>)
    returns (kind: Kind)
    requires |extArrs| == 3
    ensures Valid(bypassExts, processExts, rejectExts) && IsOrder(extArrs, processExts, rejectExts, bypassExts) ==>
              kind == Verdict(ext, processExts, rejectExts, bypassExts)
  {
    kind := Process;
    ghost var good :=
      Valid(bypassExts, processExts, rejectExts) && IsOrder(extArrs, processExts, rejectExts, bypassExts);
    if good {
      ValidOneAny(bypassExts, processExts, rejectExts);
      ListedOnce(ext, bypassExts, processExts, rejectExts);
    }
    for i := 0 to 3
      invariant good ==> forall j | 0 <= j < i :: !IsAny(extArrs[j].exts) && ext !in extArrs[j].exts
    {
      match extArrs[i].name {
        case Process =>
          var hit := IfFileExtIsX(ext, processExts);
          if hit { break; }
        case Reject =>
          var hit := IfFileExtIsX(ext, rejectExts);
          if hit { return Reject; }
        case Bypass =>
          var hit := IfFileExtIsX(ext, bypassExts);
          if hit { return Bypass; }
        case Unnamed =>
      }
    }
  }

  /** Configuration, ordering and scanning together. */
  method VerdictOf(ext: string, bypass: seq<string>, process: seq<string>, reject: seq<string>) returns (kind: Kind)
    requires Valid(bypass, process, reject)
    ensures kind == Verdict(ext, process, reject, bypass)
  {
    ValidOneAny(bypass, process, reject);
    var order := InitExtsArr(process, reject, bypass);
    kind := CheckTheExtension(ext, order[..], process, reject, bypass);
  }
}
