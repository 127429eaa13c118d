/** firewall-lock and the SDK's pre-flight check: two programs, one verdict. */
module Firewall {
  import opened Bytes
  import opened Seqs
  import opened Scan
  import opened Molecule
  import opened Lookup
  import opened MedianTime
  import opened FirewallArgs
  import BR = BlacklistRegistry
  import RF = RegistryFormat
  import SR = SdkRegistry

  const UNSUPPORTED_VERSION := 6
  const UNSUPPORTED_FLAGS := 7
  const MISSING_REGISTRY_CELL_DEP := 8
  const INVALID_REGISTRY_DATA := 9
  const REGISTRY_NOT_SORTED := 10
  const BLACKLISTED_LOCK_ARGS := 11
  const BLACKLISTED_TYPE_ARGS := 12
  const AMBIGUOUS_REGISTRY_CELL_DEP := 17
  const ARITHMETIC_OVERFLOW := -2

  datatype Dep = Dep(typ: Option<Script>, data: seq<byte>)

  // ---- resolving registries ----

  /** `dep_matches_spec`, and the tests inside `resolve_registries`. */
  predicate DepMatches(dep: Dep, spec: RegistrySpec) {
    dep.typ.Some? && dep.typ.value.codeHash == spec.codeHash && dep.typ.value.hashType == spec.hashType
    && |dep.typ.value.args| == 66 && dep.typ.value.args[34..66] == spec.typeId
  }

  /** For a cell of a registry type a spec names the code, the hash type and the registry's own type id. */
  lemma MatchesRegistry(dep: Dep, spec: RegistrySpec, t: BR.TypeArgs)
    requires dep.typ.Some? && BR.ParseTypeArgs(dep.typ.value.args) == Some(t)
    ensures DepMatches(dep, spec)
       <==> dep.typ.value.codeHash == spec.codeHash && dep.typ.value.hashType == spec.hashType
            && t.typeId == spec.typeId
  {
  }

  function Matching(spec: RegistrySpec): Dep -> bool {
    (dep: Dep) => DepMatches(dep, spec)
  }

  /** The dep one spec stands for: at most one may match, and a required one must. */
  function Resolve(spec: RegistrySpec, deps: seq<Dep>): (r: Result<Option<nat>, int>)
    ensures r.Ok? && r.value.Some? ==> r.value.value < |deps|
  {
    var ps := Positions(deps, Matching(spec));
    if |ps| > 1 then Err(AMBIGUOUS_REGISTRY_CELL_DEP)
    else if ps == [] then if spec.required then Err(MISSING_REGISTRY_CELL_DEP) else Ok(None)
    else
      PositionsExact(deps, Matching(spec), ps[0]);
      Ok(Some(ps[0]))
  }

  /** One slot a spec, in order, or the first error. */
  function ResolveAll(specs: seq<RegistrySpec>, deps: seq<Dep>): (r: Result<seq<Option<nat>>, int>)
    ensures r.Ok? ==> |r.value| == |specs| && forall i <- r.value :: i.Some? ==> i.value < |deps|
  {
    if specs == [] then Ok([])
    else
      match ResolveAll(specs[..|specs| - 1], deps)
      case Err(e) => Err(e)
      case Ok(slots) =>
        match Resolve(specs[|specs| - 1], deps)
        case Err(e) => Err(e)
        case Ok(slot) => Ok(slots + [slot])
  }

  lemma {:induction false} FirstErrorStays(specs: seq<RegistrySpec>, deps: seq<Dep>, i: nat)
    requires i <= |specs| && ResolveAll(specs[..i], deps).Err?
    ensures ResolveAll(specs, deps) == ResolveAll(specs[..i], deps)
    decreases |specs|
  {
    if i == |specs| {
      assert specs[..i] == specs;
    } else {
      var init := specs[..|specs| - 1];
      assert init[..i] == specs[..i];
      FirstErrorStays(init, deps, i);
    }
  }

  /** The inner loop, shared by both resolvers: stop at a second match. */
  method FindDep(spec: RegistrySpec, deps: seq<Dep>) returns (r: Result<Option<nat>, int>)
    ensures r == Resolve(spec, deps)
  {
    var p := Matching(spec);
    var matched: Option<nat> := None;
    for k := 0 to |deps|
      invariant Positions(deps[..k], p) == if matched.Some? then [matched.value] else []
    {
      PositionsStep(deps, p, k);
      PositionsOfPrefix(deps, p, k + 1);
      if DepMatches(deps[k], spec) {
        if matched.Some? {
          return Err(AMBIGUOUS_REGISTRY_CELL_DEP);
        }
        matched := Some(k);
      }
    }
    assert deps[..|deps|] == deps;
    if matched.None? && spec.required {
      return Err(MISSING_REGISTRY_CELL_DEP);
    }
    return Ok(matched);
  }

  /** The dep indices behind the filled slots, in order. */
  function Flatten(slots: seq<Option<nat>>): (ds: seq<nat>)
    ensures forall i :: 0 <= i < |ds| ==> Some(ds[i]) in slots
  {
    if slots == [] then []
    else Flatten(slots[..|slots| - 1]) + match slots[|slots| - 1] case None => [] case Some(d) => [d]
  }

  /** `resolve_registry_deps`: one slot a spec. */
  method ResolveRegistryDeps(specs: seq<RegistrySpec>, deps: seq<Dep>) returns (r: Result<seq<Option<nat>>, int>)
    ensures r == ResolveAll(specs, deps)
  {
    hide Resolve;
    var resolved: seq<Option<nat>> := [];
    for i := 0 to |specs|
      invariant ResolveAll(specs[..i], deps) == Ok(resolved)
    {
      assert specs[..i + 1][..i] == specs[..i];
      var slot := FindDep(specs[i], deps);
      if slot.Err? {
        FirstErrorStays(specs, deps, i + 1);
        return Err(slot.error);
      }
      resolved := resolved + [slot.value];
    }
    assert specs[..|specs|] == specs;
    return Ok(resolved);
  }

  function Seconds(pairs: seq<(nat, nat)>): seq<nat> {
    if pairs == [] then [] else Seconds(pairs[..|pairs| - 1]) + [pairs[|pairs| - 1].1]
  }

  /** The pairs are the filled slots with their spec indices, in order. */
  predicate PairsOf(pairs: seq<(nat, nat)>, slots: seq<Option<nat>>) {
    Seconds(pairs) == Flatten(slots)
    && forall k :: 0 <= k < |pairs| ==> pairs[k].0 < |slots| && slots[pairs[k].0] == Some(pairs[k].1)
  }

  lemma PairsExtend(pairs: seq<(nat, nat)>, slots: seq<Option<nat>>, slot: Option<nat>)
    requires PairsOf(pairs, slots)
    ensures slot.None? ==> PairsOf(pairs, slots + [slot])
    ensures slot.Some? ==> PairsOf(pairs + [(|slots|, slot.value)], slots + [slot])
  {
    SnocInit(slots, slot);
    Nil(Flatten(slots));
    if slot.Some? {
      SnocInit(pairs, (|slots|, slot.value));
    }
  }

  /** `resolve_registries`: pairs of spec and dep index, only for the specs that resolved. */
  method ResolveRegistries(specs: seq<RegistrySpec>, deps: seq<Dep>) returns (r: Result<seq<(nat, nat)>, int>)
    ensures r.Err? ==> ResolveAll(specs, deps) == Err(r.error)
    ensures r.Ok? ==> ResolveAll(specs, deps).Ok? && PairsOf(r.value, ResolveAll(specs, deps).value)
  {
    hide Resolve, PairsOf;
    var resolved: seq<(nat, nat)> := [];
    ghost var slots: seq<Option<nat>> := [];
    NoPairs();
    for i := 0 to |specs|
      invariant ResolveAll(specs[..i], deps) == Ok(slots) && |slots| == i
      invariant PairsOf(resolved, slots)
    {
      assert specs[..i + 1][..i] == specs[..i];
      var slot := FindDep(specs[i], deps);
      if slot.Err? {
        FirstErrorStays(specs, deps, i + 1);
        return Err(slot.error);
      }
      PairsExtend(resolved, slots, slot.value);
      if slot.value.Some? {
        resolved := resolved + [(i, slot.value.value)];
      }
      slots := slots + [slot.value];
    }
    assert specs[..|specs|] == specs;
    return Ok(resolved);
  }

  lemma NoPairs()
    ensures PairsOf([], [])
  {
  }

  // ---- the registries' entries ----

  /** `map_registry_parse_err`. */
  function LockCode(e: RF.ParseError): int {
    match e
    case UnsupportedVersion => UNSUPPORTED_VERSION
    case NotSorted => REGISTRY_NOT_SORTED
    case InvalidPayload => INVALID_REGISTRY_DATA
    case TrailingBytes => INVALID_REGISTRY_DATA
  }

  /** One payload as the lock reads it. */
  function LockEntries(data: seq<byte>): Result<seq<RF.Entry>, int> {
    match RF.ParseStrict(data) case Ok(p) => Ok(p.entries) case Err(e) => Err(LockCode(e))
  }

  /** One payload as the SDK reads it. */
  function SdkEntries(data: seq<byte>): Result<seq<RF.Entry>, int> {
    match SR.Parse(data) case Ok(p) => Ok(p.entries) case Err(e) => Err(e)
  }

  /** All payloads in order, or the first error. */
  function ReadAll(datas: seq<seq<byte>>, read: seq<byte> -> Result<seq<RF.Entry>,
      int>): (r: Result<seq<seq<RF.Entry>>, int>)
    ensures r.Ok? ==> |r.value| == |datas|
  {
    if datas == [] then Ok([])
    else
      match ReadAll(datas[..|datas| - 1], read)
      case Err(e) => Err(e)
      case Ok(regs) => match read(datas[|datas| - 1]) case Err(e) => Err(e) case Ok(es) => Ok(regs + [es])
  }

  lemma {:induction false} ReadErrorStays(datas: seq<seq<byte>>, read: seq<byte> -> Result<seq<RF.Entry>, int>, i: nat)
    requires i <= |datas| && ReadAll(datas[..i], read).Err?
    ensures ReadAll(datas, read) == ReadAll(datas[..i], read)
    decreases |datas|
  {
    if i == |datas| {
      assert datas[..i] == datas;
    } else {
      var init := datas[..|datas| - 1];
      assert init[..i] == datas[..i];
      ReadErrorStays(init, read, i);
    }
  }

  /** The data of the resolved deps. */
  function DataOf(deps: seq<Dep>, ds: seq<nat>): (datas: seq<seq<byte>>)
    requires forall i :: 0 <= i < |ds| ==> ds[i] < |deps|
    ensures |datas| == |ds| && forall i :: 0 <= i < |ds| ==> datas[i] == deps[ds[i]].data
  {
    if ds == [] then [] else DataOf(deps, ds[..|ds| - 1]) + [deps[ds[|ds| - 1]].data]
  }

  predicate AllAscending(regs: seq<seq<RF.Entry>>) {
    forall r <- regs :: RF.Ascending(r)
  }

  /** The loop of the lock that loads and parses the resolved cells. */
  method LoadRegistries(datas: seq<seq<byte>>) returns (r: Result<seq<seq<RF.Entry>>, int>)
    ensures r == ReadAll(datas, LockEntries)
    ensures r.Ok? ==> AllAscending(r.value)
  {
    hide RF.ParsePayload, RF.Ascending, LockCode;
    var registries: seq<seq<RF.Entry>> := [];
    for i := 0 to |datas|
      invariant ReadAll(datas[..i], LockEntries) == Ok(registries) && AllAscending(registries)
    {
      assert datas[..i + 1][..i] == datas[..i];
      var payload := RF.ParseStrict(datas[i]);
      if payload.Err? {
        ReadErrorStays(datas, LockEntries, i + 1);
        return Err(LockCode(payload.error));
      }
      RF.EncodeOfStrict(datas[i]);
      registries := registries + [payload.value.entries];
    }
    assert datas[..|datas|] == datas;
    return Ok(registries);
  }

  /** The loop of `check_transaction` that parses the resolved payloads. */
  method ParsePayloads(datas: seq<seq<byte>>) returns (r: Result<seq<seq<RF.Entry>>, int>)
    ensures r == ReadAll(datas, SdkEntries)
    ensures r.Ok? ==> AllAscending(r.value)
  {
    hide SR.Parse, RF.Ascending;
    var payloads: seq<seq<RF.Entry>> := [];
    for i := 0 to |datas|
      invariant ReadAll(datas[..i], SdkEntries) == Ok(payloads) && AllAscending(payloads)
    {
      assert datas[..i + 1][..i] == datas[..i];
      var payload := SR.ParseRegistryPayload(datas[i]);
      if payload.Err? {
        ReadErrorStays(datas, SdkEntries, i + 1);
        return Err(payload.error);
      }
      SdkAscending(datas[i]);
      payloads := payloads + [payload.value.entries];
    }
    assert datas[..|datas|] == datas;
    return Ok(payloads);
  }

  lemma SdkAscending(data: seq<byte>)
    requires SR.Parse(data).Ok?
    ensures RF.Ascending(SR.Parse(data).value.entries)
  {
    hide RF.ParsePayload, SR.Parse;
    SR.SameAsChain(data);
    RF.EncodeOfStrict(data);
  }

  // ---- the outputs ----

  datatype Output = Output(lockArgs: seq<byte>, typeArgs: Option<seq<byte>>)

  /** Some resolved registry has an active entry with this identifier. */
  predicate AnyListed(regs: seq<seq<RF.Entry>>, id: seq<byte>, now: nat) {
    exists es <- regs :: Listed(es, id, now)
  }

  /** What one output is refused for, under the two check flags. */
  function OutputError(out: Output, regs: seq<seq<RF.Entry>>, now: nat, checkLock: bool, checkType: bool): Option<int> {
    if checkLock && AnyListed(regs, out.lockArgs, now) then Some(BLACKLISTED_LOCK_ARGS)
    else if checkType && out.typeArgs.Some? && AnyListed(regs, out.typeArgs.value, now) then Some(BLACKLISTED_TYPE_ARGS)
    else None
  }

  /** The error of the first refused output. */
  function Verdict(outs: seq<Output>, regs: seq<seq<RF.Entry>>, now: nat, checkLock: bool,
      checkType: bool): Result<(), int> {
    if outs == [] then Ok(())
    else
      match OutputError(outs[0], regs, now, checkLock, checkType)
      case Some(e) => Err(e)
      case None => Verdict(outs[1..], regs, now, checkLock, checkType)
  }

  /** The lock's loop over the registries for one identifier: the library search of each. */
  method AnyBlacklists(regs: seq<seq<RF.Entry>>, id: seq<byte>, now: u64, search: Search) returns (hit: bool)
    requires AllAscending(regs) && Documented(search)
    ensures hit == AnyListed(regs, id, now)
  {
    hide RF.Ascending, Listed, IsBlacklisted;
    for k := 0 to |regs|
      invariant forall es <- regs[..k] :: !Listed(es, id, now)
    {
      assert regs[k] in regs;
      IsBlacklistedIsListed(regs[k], id, now, search);
      if IsBlacklisted(regs[k], id, now, search) {
        return true;
      }
      assert regs[..k + 1] == regs[..k] + [regs[k]];
    }
    assert regs[..|regs|] == regs;
    return false;
  }

  /** `is_blacklisted` of the SDK: its own binary search in each registry. */
  method IsBlacklistedInAny(target: seq<byte>, regs: seq<seq<RF.Entry>>, now: u64) returns (hit: bool)
    requires AllAscending(regs)
    ensures hit == AnyListed(regs, target, now)
  {
    hide RF.Ascending, Listed;
    for k := 0 to |regs|
      invariant forall es <- regs[..k] :: !Listed(es, target, now)
    {
      assert regs[k] in regs;
      var found := SearchHalfOpen(regs[k], target, now);
      if found {
        return true;
      }
      assert regs[..k + 1] == regs[..k] + [regs[k]];
    }
    assert regs[..|regs|] == regs;
    return false;
  }

  /** The output loop of firewall-lock. */
  method CheckOutputs(outs: seq<Output>, regs: seq<seq<RF.Entry>>, now: u64, flags: byte, search: Search)
    returns (r: Result<(), int>)
    requires AllAscending(regs) && Documented(search)
    ensures r == Verdict(outs, regs, now, ChecksLock(flags), ChecksType(flags))
  {
    hide AnyListed, AllAscending, Documented;
    var i := 0;
    while i < |outs|
      invariant 0 <= i <= |outs|
      invariant Verdict(outs, regs, now, ChecksLock(flags), ChecksType(flags))
             == Verdict(outs[i..], regs, now, ChecksLock(flags), ChecksType(flags))
    {
      assert outs[i..][0] == outs[i] && outs[i..][1..] == outs[i + 1..];
      if flags % 2 == 1 {
        var hit := AnyBlacklists(regs, outs[i].lockArgs, now, search);
        if hit {
          return Err(BLACKLISTED_LOCK_ARGS);
        }
      }
      if (flags / 2) % 2 == 1 && outs[i].typeArgs.Some? {
        var hit := AnyBlacklists(regs, outs[i].typeArgs.value, now, search);
        if hit {
          return Err(BLACKLISTED_TYPE_ARGS);
        }
      }
      i := i + 1;
    }
    return Ok(());
  }

  /** `preflight_check`. */
  method PreflightCheck(outs: seq<Output>, regs: seq<seq<RF.Entry>>, now: u64) returns (r: Result<(), int>)
    requires AllAscending(regs)
    ensures r == Verdict(outs, regs, now, true, true)
  {
    hide AnyListed, AllAscending;
    for i := 0 to |outs|
      invariant Verdict(outs, regs, now, true, true) == Verdict(outs[i..], regs, now, true, true)
    {
      assert outs[i..][0] == outs[i] && outs[i..][1..] == outs[i + 1..];
      var hit := IsBlacklistedInAny(outs[i].lockArgs, regs, now);
      if hit {
        return Err(BLACKLISTED_LOCK_ARGS);
      }
      if outs[i].typeArgs.Some? {
        hit := IsBlacklistedInAny(outs[i].typeArgs.value, regs, now);
        if hit {
          return Err(BLACKLISTED_TYPE_ARGS);
        }
      }
    }
    return Ok(());
  }

  // ---- the two programs ----

  /** Bit 0 and bit 1 of the flags byte. */
  predicate ChecksLock(flags: byte) { flags % 2 == 1 }
  predicate ChecksType(flags: byte) { (flags / 2) % 2 == 1 }

  /** `program_entry` of firewall-lock up to the inner lock: Ok means the inner lock decides. */
  function LockEntry(args: LockArgs, deps: seq<Dep>, headers: seq<u64>, outs: seq<Output>): Result<(), int> {
    if args.version != 0x02 then Err(UNSUPPORTED_VERSION)
    else if args.flags / 4 != 0 || args.flags % 4 == 0 then Err(UNSUPPORTED_FLAGS)
    else
      match ResolveAll(args.specs, deps)
      case Err(e) => Err(e)
      case Ok(slots) =>
        match ReadAll(DataOf(deps, Flatten(slots)), LockEntries)
        case Err(e) => Err(e)
        case Ok(regs) =>
          match Median(headers)
          case None => Err(ARITHMETIC_OVERFLOW)
          case Some(now) => Verdict(outs, regs, now, ChecksLock(args.flags), ChecksType(args.flags))
  }

  /** The same from the bytes of the running lock's args. */
  function Entry(raw: seq<byte>, deps: seq<Dep>, headers: seq<u64>, outs: seq<Output>): Result<(), int> {
    match Parse(raw) case Err(e) => Err(e) case Ok(args) => LockEntry(args, deps, headers, outs)
  }

  /** `program_entry` with its loops. */
  method ProgramEntry(raw: seq<byte>, deps: seq<Dep>, headers: seq<u64>, outs: seq<Output>, search: Search)
    returns (r: Result<(), int>)
    requires Documented(search)
    ensures r == Entry(raw, deps, headers, outs)
  {
    hide Parse, ResolveAll, Flatten, ReadAll, Median, Verdict, AllAscending, LockEntries, DataOf, Documented;
    var parsed := ParseArgs(raw);
    if parsed.Err? {
      return Err(parsed.error);
    }
    var args := parsed.value;
    if args.version != 0x02 {
      return Err(UNSUPPORTED_VERSION);
    }
    if args.flags / 4 != 0 || args.flags % 4 == 0 {
      return Err(UNSUPPORTED_FLAGS);
    }
    var resolved := ResolveRegistries(args.specs, deps);
    if resolved.Err? {
      return Err(resolved.error);
    }
    var regs := LoadRegistries(DataOf(deps, Seconds(resolved.value)));
    if regs.Err? {
      return Err(regs.error);
    }
    var now := GetMedianTime(headers);
    if now.None? {
      return Err(ARITHMETIC_OVERFLOW);
    }
    r := CheckOutputs(outs, regs.value, now.value, args.flags, search);
  }

  /**
   * A lock whose args were built runs with exactly those args; flags of four and above are built but never accepted.
   */
  lemma BuiltArgsRun(a: LockArgs, deps: seq<Dep>, headers: seq<u64>, outs: seq<Output>)
    requires a.version == 0x02 && Buildable(a.flags, a.specs, a.innerArgs)
    ensures Entry(Encode(a), deps, headers, outs) == LockEntry(a, deps, headers, outs)
    ensures a.flags >= 4 ==> Entry(Encode(a), deps, headers, outs) == Err(UNSUPPORTED_FLAGS)
  {
    hide Parse, Encode, ResolveAll, ReadAll, Median, Verdict;
    RoundTrip(a);
  }

  /** `check_transaction` of the SDK. */
  function SdkCheck(specs: seq<RegistrySpec>, deps: seq<Dep>, outs: seq<Output>, now: u64): Result<(), int> {
    match ResolveAll(specs, deps)
    case Err(e) => Err(e)
    case Ok(slots) =>
      match ReadAll(DataOf(deps, Flatten(slots)), SdkEntries)
      case Err(e) => Err(e)
      case Ok(regs) => Verdict(outs, regs, now, true, true)
  }

  method CheckTransaction(specs: seq<RegistrySpec>, deps: seq<Dep>, outs: seq<Output>,
      now: u64) returns (r: Result<(), int>)
    ensures r == SdkCheck(specs, deps, outs, now)
  {
    hide ResolveAll, ReadAll, Verdict, AllAscending, SdkEntries, DataOf;
    var resolved := ResolveRegistryDeps(specs, deps);
    if resolved.Err? {
      return Err(resolved.error);
    }
    var payloads := ParsePayloads(DataOf(deps, Flatten(resolved.value)));
    if payloads.Err? {
      return Err(payloads.error);
    }
    r := PreflightCheck(outs, payloads.value, now);
  }

  // ---- the two agree ----

  /** The SDK reports the lock's version error as malformed data. */
  function Recoded(r: Result<(), int>): Result<(), int> {
    if r == Err(UNSUPPORTED_VERSION) then Err(INVALID_REGISTRY_DATA) else r
  }

  function RecodedRead(r: Result<seq<seq<RF.Entry>>, int>): Result<seq<seq<RF.Entry>>, int> {
    if r == Err(UNSUPPORTED_VERSION) then Err(INVALID_REGISTRY_DATA) else r
  }

  /** Where the SDK reads every payload, the lock reads the same entries. */
  lemma {:induction false} SdkReadsAreLockReads(datas: seq<seq<byte>>)
    requires ReadAll(datas, SdkEntries).Ok?
    ensures ReadAll(datas, LockEntries) == ReadAll(datas, SdkEntries)
  {
    hide SR.Parse, RF.ParsePayload;
    if datas != [] {
      SdkReadsAreLockReads(datas[..|datas| - 1]);
      SR.SameAsChain(datas[|datas| - 1]);
    }
  }

  /** On readable headers the two read the same, up to the version code. */
  lemma {:induction false} ReadersAgree(datas: seq<seq<byte>>)
    requires forall i :: 0 <= i < |datas| ==> SR.HeaderReadable(datas[i])
    ensures ReadAll(datas, SdkEntries) == RecodedRead(ReadAll(datas, LockEntries))
  {
    hide SR.Parse, RF.ParsePayload, SR.HeaderReadable;
    if datas != [] {
      var last := |datas| - 1;
      assert forall i :: 0 <= i < last ==> datas[..last][i] == datas[i];
      ReadersAgree(datas[..last]);
      SR.SameAsChain(datas[last]);
    }
  }

  /** Every registry a spec resolves to has a header the SDK reads. */
  ghost predicate HeadersReadable(specs: seq<RegistrySpec>, deps: seq<Dep>) {
    ResolveAll(specs, deps).Ok? ==>
      var ds := Flatten(ResolveAll(specs, deps).value);
      forall i :: 0 <= i < |ds| ==> ds[i] < |deps| && SR.HeaderReadable(deps[ds[i]].data)
  }

  lemma VerdictCodes(outs: seq<Output>, regs: seq<seq<RF.Entry>>, now: nat, checkLock: bool, checkType: bool)
    ensures Verdict(outs, regs, now, checkLock, checkType) in
              {Ok(()), Err(BLACKLISTED_LOCK_ARGS), Err(BLACKLISTED_TYPE_ARGS)}
  {
  }

  lemma {:induction false} ResolveCodes(specs: seq<RegistrySpec>, deps: seq<Dep>)
    ensures ResolveAll(specs, deps).Err? ==>
              ResolveAll(specs, deps).error in {AMBIGUOUS_REGISTRY_CELL_DEP, MISSING_REGISTRY_CELL_DEP}
  {
    hide Positions;
    if specs != [] {
      ResolveCodes(specs[..|specs| - 1], deps);
    }
  }

  /** What the SDK reads has a header it can read. */
  lemma {:induction false} SdkReadsReadable(datas: seq<seq<byte>>, i: nat)
    requires ReadAll(datas, SdkEntries).Ok? && i < |datas|
    ensures SR.HeaderReadable(datas[i])
  {
    hide SR.Parse, RF.ParsePayload, SR.HeaderReadable;
    var last := |datas| - 1;
    if i < last {
      SdkReadsReadable(datas[..last], i);
    } else {
      SR.SameAsChain(datas[last]);
    }
  }

  /**
   * With both checks on and the same time, a pre-flight is Ok exactly when the lock reaches its inner lock and
   * every resolved header is one the SDK reads; and on such headers the two verdicts and codes are the same (the
   * lock's 6 reads as 9).
   */
  lemma PreflightRefinesLock(args: LockArgs, deps: seq<Dep>, headers: seq<u64>, outs: seq<Output>, now: u64)
    requires Median(headers) == Some(now) && args.version == 0x02 && args.flags == 0x03
    ensures SdkCheck(args.specs, deps, outs, now).Ok?
       <==> LockEntry(args, deps, headers, outs).Ok? && HeadersReadable(args.specs, deps)
    ensures HeadersReadable(args.specs, deps) ==>
              SdkCheck(args.specs, deps, outs, now) == Recoded(LockEntry(args, deps, headers, outs))
  {
    hide ReadAll, Verdict, Median, ResolveAll, Flatten, SR.HeaderReadable;
    ResolveCodes(args.specs, deps);
    if ResolveAll(args.specs, deps).Ok? {
      var datas := DataOf(deps, Flatten(ResolveAll(args.specs, deps).value));
      if ReadAll(datas, SdkEntries).Ok? {
        SdkReadsAreLockReads(datas);
        forall i | 0 <= i < |datas|
          ensures SR.HeaderReadable(datas[i])
        {
          SdkReadsReadable(datas, i);
        }
      }
      if HeadersReadable(args.specs, deps) {
        ReadersAgree(datas);
      }
      if ReadAll(datas, LockEntries).Ok? {
        VerdictCodes(outs, ReadAll(datas, LockEntries).value, now, true, true);
      }
    }
  }

  /** An output is clean of a registry set under the checks that are on. */
  predicate Clean(out: Output, regs: seq<seq<RF.Entry>>, now: nat, checkLock: bool, checkType: bool) {
    (checkLock ==> !AnyListed(regs, out.lockArgs, now))
    && (checkType && out.typeArgs.Some? ==> !AnyListed(regs, out.typeArgs.value, now))
  }

  /**
   * A verdict is Ok iff no output matches an active entry of any registry; else it names the first output that does.
   */
  lemma {:induction false} VerdictExact(outs: seq<Output>, regs: seq<seq<RF.Entry>>, now: nat, checkLock: bool,
      checkType: bool)
    ensures Verdict(outs, regs, now, checkLock, checkType).Ok?
       <==> forall i :: 0 <= i < |outs| ==> Clean(outs[i], regs, now, checkLock, checkType)
    ensures Verdict(outs, regs, now, checkLock, checkType).Err? ==>
              exists i :: 0 <= i < |outs|
                && (forall k :: 0 <= k < i ==> Clean(outs[k], regs, now, checkLock, checkType))
                && OutputError(outs[i], regs, now, checkLock, checkType)
                   == Some(Verdict(outs, regs, now, checkLock, checkType).error)
  {
    hide AnyListed;
    if outs != [] {
      VerdictExact(outs[1..], regs, now, checkLock, checkType);
      assert forall i :: 0 < i < |outs| ==> outs[1..][i - 1] == outs[i];
      if Verdict(outs, regs, now, checkLock, checkType).Err? {
        if OutputError(outs[0], regs, now, checkLock, checkType) == None {
          var i :| 0 <= i < |outs[1..]|
            && (forall k :: 0 <= k < i ==> Clean(outs[1..][k], regs, now, checkLock, checkType))
            && OutputError(outs[1..][i], regs, now, checkLock, checkType)
               == Some(Verdict(outs[1..], regs, now, checkLock, checkType).error);
          FirstRefused(outs, regs, now, checkLock, checkType, i);
        } else {
          assert OutputError(outs[0], regs, now, checkLock, checkType)
            == Some(Verdict(outs, regs, now, checkLock, checkType).error);
        }
      }
    }
  }

  lemma FirstRefused(outs: seq<Output>, regs: seq<seq<RF.Entry>>, now: nat, checkLock: bool, checkType: bool, i: nat)
    requires outs != [] && i < |outs[1..]| && Clean(outs[0], regs, now, checkLock, checkType)
    requires forall k :: 0 <= k < i ==> Clean(outs[1..][k], regs, now, checkLock, checkType)
    ensures forall k :: 0 <= k < i + 1 ==> Clean(outs[k], regs, now, checkLock, checkType)
    ensures outs[1..][i] == outs[i + 1]
  {
    hide Clean;
    forall k | 0 <= k < i + 1
      ensures Clean(outs[k], regs, now, checkLock, checkType)
    {
      if k > 0 {
        assert outs[1..][k - 1] == outs[k];
      }
    }
  }

  /** A spec that resolves names the one dep that matches it; a resolution fails only where its error says. */
  lemma ResolveExact(spec: RegistrySpec, deps: seq<Dep>, d: nat)
    ensures Resolve(spec, deps) == Ok(Some(d))
       <==> d < |deps| && DepMatches(deps[d], spec)
            && forall k :: 0 <= k < |deps| && DepMatches(deps[k], spec) ==> k == d
    ensures Resolve(spec, deps) == Ok(None)
            <==> !spec.required && forall k :: 0 <= k < |deps| ==> !DepMatches(deps[k], spec)
    ensures Resolve(spec, deps) == Err(8)
       <==> spec.required && forall k :: 0 <= k < |deps| ==> !DepMatches(deps[k], spec)
    ensures Resolve(spec, deps).Err? ==> Resolve(spec, deps) == Err(8) || Resolve(spec, deps) == Err(17)
  {
    hide DepMatches;
    var p := Matching(spec);
    UniqueExact(deps, p, d);
    assert Resolve(spec, deps) == Ok(Some(d)) <==> Unique(deps, p) == Some(d);
    assert forall k :: 0 <= k < |deps| ==> p(deps[k]) == DepMatches(deps[k], spec);
    var ps := Positions(deps, p);
    if ps != [] {
      PositionsExact(deps, p, ps[0]);
    }
    forall k: nat | k < |deps| && DepMatches(deps[k], spec)
      ensures ps != []
    {
      PositionsExact(deps, p, k);
    }
  }

  // ---- what enforcement means ----

  lemma {:induction false} SlotOf(specs: seq<RegistrySpec>, deps: seq<Dep>, i: nat)
    requires ResolveAll(specs, deps).Ok? && i < |specs|
    ensures Resolve(specs[i], deps) == Ok(ResolveAll(specs, deps).value[i])
  {
    hide Resolve;
    if i < |specs| - 1 {
      SlotOf(specs[..|specs| - 1], deps, i);
    }
  }

  lemma {:induction false} FilledSlot(slots: seq<Option<nat>>, i: nat) returns (k: nat)
    requires i < |slots| && slots[i].Some?
    ensures k < |Flatten(slots)| && Flatten(slots)[k] == slots[i].value
  {
    var init := slots[..|slots| - 1];
    if i < |init| {
      k := FilledSlot(init, i);
    } else {
      k := |Flatten(init)|;
    }
  }

  lemma {:induction false} ReadAt(datas: seq<seq<byte>>, read: seq<byte> -> Result<seq<RF.Entry>, int>, k: nat)
    requires ReadAll(datas, read).Ok? && k < |datas|
    ensures read(datas[k]) == Ok(ReadAll(datas, read).value[k])
  {
    if k < |datas| - 1 {
      ReadAt(datas[..|datas| - 1], read, k);
    }
  }

  /** The flags byte in numbers. */
  lemma FlagsMean(flags: byte)
    ensures flags / 4 == 0 && flags % 4 != 0 <==> flags == 1 || flags == 2 || flags == 3
    ensures flags < 4 ==> (ChecksLock(flags) <==> flags == 1 || flags == 3)
    ensures flags < 4 ==> (ChecksType(flags) <==> flags == 2 || flags == 3)
  {
  }

  /**
   * When the lock lets a transaction reach its inner lock, the flags ask for some check, every required registry
   * is there, and no output carries the identifier of an active entry of any registry cell a spec matches: not in its
   * lock args under flags 1 and 3, not in its type args under flags 2 and 3.
   */
  lemma Enforced(args: LockArgs, deps: seq<Dep>, headers: seq<u64>, outs: seq<Output>, i: nat, d: nat)
    requires LockEntry(args, deps, headers, outs).Ok?
    requires i < |args.specs| && d < |deps| && DepMatches(deps[d], args.specs[i])
    ensures args.version == 2 && 1 <= args.flags <= 3 && Median(headers).Some?
    ensures forall k :: 0 <= k < |deps| && DepMatches(deps[k], args.specs[i]) ==> k == d
    ensures RF.ParseStrict(deps[d].data).Ok?
    ensures forall e, o | e in RF.ParseStrict(deps[d].data).value.entries
            && (e.expiresAt == 0 || Median(headers).value < e.expiresAt) && 0 <= o < |outs| ::
              (args.flags == 1 || args.flags == 3 ==> outs[o].lockArgs != e.id)
              && (args.flags == 2 || args.flags == 3 ==> outs[o].typeArgs != Some(e.id))
  {
    hide ResolveAll, Flatten, ReadAll, Median, Verdict, LockEntries, RF.ParsePayload, DepMatches, AnyListed, Listed,
      Resolve;
    var slots := ResolveAll(args.specs, deps).value;
    var datas := DataOf(deps, Flatten(slots));
    var regs := ReadAll(datas, LockEntries).value;
    var now := Median(headers).value;
    SlotOf(args.specs, deps, i);
    OnlyMatch(args.specs[i], deps, d);
    var k := FilledSlot(slots, i);
    ReadAt(datas, LockEntries, k);
    LockEntriesOf(deps[d].data);
    FlagsMean(args.flags);
    VerdictExact(outs, regs, now, ChecksLock(args.flags), ChecksType(args.flags));
    forall e, o | e in RF.ParseStrict(deps[d].data).value.entries && Active(e, now) && 0 <= o < |outs|
      ensures args.flags == 1 || args.flags == 3 ==> outs[o].lockArgs != e.id
      ensures args.flags == 2 || args.flags == 3 ==> outs[o].typeArgs != Some(e.id)
    {
      ActiveIsListed(regs, k, e, now);
    }
  }

  lemma OnlyMatch(spec: RegistrySpec, deps: seq<Dep>, d: nat)
    requires Resolve(spec, deps).Ok? && d < |deps| && DepMatches(deps[d], spec)
    ensures Resolve(spec, deps) == Ok(Some(d))
    ensures forall k :: 0 <= k < |deps| && DepMatches(deps[k], spec) ==> k == d
  {
    hide DepMatches, Resolve;
    match Resolve(spec, deps).value
    case Some(d') => ResolveExact(spec, deps, d');
    case None => ResolveExact(spec, deps, d);
  }

  lemma LockEntriesOf(data: seq<byte>)
    ensures LockEntries(data).Ok? <==> RF.ParseStrict(data).Ok?
    ensures LockEntries(data).Ok? ==> LockEntries(data).value == RF.ParseStrict(data).value.entries
  {
    hide RF.ParsePayload;
  }

  lemma ActiveIsListed(regs: seq<seq<RF.Entry>>, k: nat, e: RF.Entry, now: nat)
    requires k < |regs| && e in regs[k] && Active(e, now)
    ensures AnyListed(regs, e.id, now)
  {
    hide Active;
    assert Listed(regs[k], e.id, now);
  }

  /** No active entry of the registries has this identifier. */
  predicate Unlisted(regs: seq<seq<RF.Entry>>, id: seq<byte>, now: nat) {
    forall es <- regs, e <- es :: e.id == id ==> e.expiresAt != 0 && e.expiresAt <= now
  }

  lemma UnlistedIsNotListed(regs: seq<seq<RF.Entry>>, id: seq<byte>, now: nat)
    ensures Unlisted(regs, id, now) <==> !AnyListed(regs, id, now)
  {
    if !Unlisted(regs, id, now) {
      var es, e :| es in regs && e in es && e.id == id && !(e.expiresAt != 0 && e.expiresAt <= now);
      assert Listed(es, id, now);
    }
  }

  /**
   * What the lock decides once registries and time are read, flag by flag: it lets the outputs through iff none has a
   * listed identifier where the flags look; and it refuses with 11 or 12 by what the first refused output is listed
   * for.
   */
  lemma DecidesExactly(args: LockArgs, deps: seq<Dep>, headers: seq<u64>, outs: seq<Output>, regs: seq<seq<RF.Entry>>,
      now: u64)
    requires args.version == 2 && ResolveAll(args.specs, deps).Ok? && Median(headers) == Some(now)
    requires ReadAll(DataOf(deps, Flatten(ResolveAll(args.specs, deps).value)), LockEntries) == Ok(regs)
    ensures args.flags == 1 ==>
              (LockEntry(args, deps, headers, outs).Ok? <==> forall o <- outs :: Unlisted(regs, o.lockArgs, now))
    ensures args.flags == 2 ==>
              (LockEntry(args, deps, headers, outs).Ok?
               <==> forall o <- outs :: o.typeArgs.Some? ==> Unlisted(regs, o.typeArgs.value, now))
    ensures args.flags == 3 ==>
              (LockEntry(args, deps, headers, outs).Ok?
               <==> forall o <- outs :: Unlisted(regs, o.lockArgs, now)
                                        && (o.typeArgs.Some? ==> Unlisted(regs, o.typeArgs.value, now)))
    ensures args.flags == 1 || args.flags == 2 || args.flags == 3 || LockEntry(args, deps, headers, outs) == Err(7)
    ensures 1 <= args.flags <= 3 && LockEntry(args, deps, headers, outs).Err? ==>
              LockEntry(args, deps, headers, outs) == Err(11) || LockEntry(args, deps, headers, outs) == Err(12)
    ensures LockEntry(args, deps, headers, outs) == Err(11) ==> exists o <- outs :: !Unlisted(regs, o.lockArgs, now)
    ensures LockEntry(args, deps, headers, outs) == Err(12) ==>
              exists o <- outs :: o.typeArgs.Some? && !Unlisted(regs, o.typeArgs.value, now)
  {
    hide ReadAll, Median, ResolveAll, Flatten, AnyListed, Unlisted, Verdict;
    FlagsMean(args.flags);
    if 1 <= args.flags <= 3 {
      var (l, t) := (ChecksLock(args.flags), ChecksType(args.flags));
      VerdictExact(outs, regs, now, l, t);
      forall id: seq<byte>
        ensures Unlisted(regs, id, now) <==> !AnyListed(regs, id, now)
      {
        UnlistedIsNotListed(regs, id, now);
      }
      assert forall i :: 0 <= i < |outs| ==> outs[i] in outs;
    }
  }

  /** What the lock refuses before it looks at outputs. */
  lemma EarlyRefusals(args: LockArgs, deps: seq<Dep>, headers: seq<u64>, outs: seq<Output>)
    ensures args.version != 2 ==> LockEntry(args, deps, headers, outs) == Err(6)
    ensures args.version == 2 && 1 <= args.flags <= 3 && ResolveAll(args.specs, deps).Err? ==>
              LockEntry(args, deps, headers, outs) == Err(ResolveAll(args.specs, deps).error)
    ensures args.version == 2 && 1 <= args.flags <= 3 && ResolveAll(args.specs, deps).Ok? ==>
              var regs := ReadAll(DataOf(deps, Flatten(ResolveAll(args.specs, deps).value)), LockEntries);
              LockEntry(args, deps, headers, outs)
              == if regs.Err? then Err(regs.error) else if Median(headers).None? then Err(-2)
                 else Verdict(outs, regs.value, Median(headers).value, args.flags != 2, args.flags != 1)
  {
    hide ReadAll, Median, ResolveAll, Flatten, Verdict;
    FlagsMean(args.flags);
  }

  /** The codes for a registry the lock cannot read. */
  lemma UnreadableRegistry(data: seq<byte>)
    ensures LockEntries(data).Err? ==>
              LockEntries(data)
              == Err(match RF.ParseStrict(data).error case UnsupportedVersion => 6 case NotSorted => 10 case _ => 9)
    ensures SdkEntries(data).Err? && SR.HeaderReadable(data) && RF.ParseStrict(data).Err? ==>
              SdkEntries(data) == Err(if RF.ParseStrict(data).error == RF.NotSorted then 10 else 9)
  {
    hide RF.ParsePayload, SR.Parse, SR.HeaderReadable;
    SR.SameAsChain(data);
  }

  /** Every required registry of a transaction the lock lets through is matched by some dep. */
  lemma RequiredIsThere(args: LockArgs, deps: seq<Dep>, headers: seq<u64>, outs: seq<Output>, i: nat) returns (d: nat)
    requires LockEntry(args, deps, headers, outs).Ok? && i < |args.specs| && args.specs[i].required
    ensures d < |deps| && DepMatches(deps[d], args.specs[i])
  {
    hide ResolveAll, Flatten, ReadAll, Median, Verdict, LockEntries, DepMatches, Resolve;
    SlotOf(args.specs, deps, i);
    var slot := ResolveAll(args.specs, deps).value[i];
    ResolveExact(args.specs[i], deps, if slot.Some? then slot.value else 0);
    d := if slot.Some? then slot.value else 0;
  }
}
