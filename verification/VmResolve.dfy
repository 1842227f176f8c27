/** One `resolveVM` call (host/src/vm-cache.ts) that nothing else interrupts. */
module VmResolve {
  import opened Wrappers
  import opened Sequences
  import opened HandleCache

  /** The machines cached in order, each at its own reading of the clock. */
  function SetsAt(vms: seq<VMHandle>, times: seq<int>): (ops: seq<Op>)
    requires |times| >= |vms|
    ensures |ops| == |vms| && forall i :: 0 <= i < |vms| ==> ops[i] == Set(vms[i].name, vms[i], times[i])
  {
    seq(|vms|, i requires 0 <= i < |vms| => Set(vms[i].name, vms[i], times[i]))
  }

  /** The position of the last machine whose folded name is `key`. */
  function LastAt(cfg: Config, vms: seq<VMHandle>, key: string): (r: Option<nat>)
    ensures r.Some? ==> r.value < |vms| && cfg.fold(vms[r.value].name) == key
    ensures r.None? ==> forall i :: 0 <= i < |vms| ==> cfg.fold(vms[i].name) != key
  {
    if vms == [] then None
    else if cfg.fold(vms[|vms| - 1].name) == key then Some(|vms| - 1)
    else
      assert forall i :: 0 <= i < |vms| - 1 ==> vms[..|vms| - 1][i] == vms[i];
      LastAt(cfg, vms[..|vms| - 1], key)
  }

  ghost predicate Rising(from: int, times: seq<int>) {
    && (forall i :: 0 <= i < |times| ==> from <= times[i])
    && (forall i, j :: 0 <= i < j < |times| ==> times[i] <= times[j])
  }

  lemma SetsSnoc(log: seq<Op>, vms: seq<VMHandle>, times: seq<int>)
    requires vms != [] && |times| >= |vms|
    ensures var n := |vms| - 1;
            log + SetsAt(vms, times) ==
            log + SetsAt(vms[..n], times) + [Set(vms[n].name, vms[n], times[n])]
  {
    var n := |vms| - 1;
    var last := [Set(vms[n].name, vms[n], times[n])];
    assert SetsAt(vms, times) == SetsAt(vms[..n], times) + last;
    Assoc(log, SetsAt(vms[..n], times), last);
  }

  lemma {:induction false} SetsWrite(cfg: Config, log: seq<Op>, vms: seq<VMHandle>, times: seq<int>, key: string)
    requires |times| >= |vms|
    ensures LastWrite(cfg, log + SetsAt(vms, times), key) ==
            match LastAt(cfg, vms, key)
            case None => LastWrite(cfg, log, key)
            case Some(j) => Some(Entry(vms[j], times[j]))
  {
    if vms == [] {
      assert log + SetsAt(vms, times) == log;
    } else {
      var n := |vms| - 1;
      var last := Set(vms[n].name, vms[n], times[n]);
      SetsWrite(cfg, log, vms[..n], times, key);
      SetsSnoc(log, vms, times);
      LastWriteSnoc(cfg, log + SetsAt(vms[..n], times), last, key);
    }
  }

  lemma SetsKeepClock(log: seq<Op>, now: int, vms: seq<VMHandle>, times: seq<int>)
    requires ClockRuns(log, now) && |times| == |vms| + 1 && Rising(now, times)
    ensures ClockRuns(log + SetsAt(vms, times), times[|times| - 1])
  {
  }

  /** `for (const vm of vms) cacheVM(vm)` */
  method CacheAll(cache: VmCache, vms: seq<VMHandle>, times: seq<int>)
    requires cache.Valid() && |times| >= |vms|
    modifies cache
    ensures cache.Valid() && cache.log == old(cache.log) + SetsAt(vms, times)
  {
    for i := 0 to |vms|
      invariant cache.Valid() && cache.log == old(cache.log) + SetsAt(vms[..i], times)
    {
      cache.Put(vms[i].name, vms[i], times[i]);
      assert SetsAt(vms[..i + 1], times) == SetsAt(vms[..i], times) + [Set(vms[i].name, vms[i], times[i])];
    }
    assert vms[..|vms|] == vms;
  }

  /** `Unlisted` is the listing's own failure. */
  datatype Resolution = Resolved(handle: VMHandle) | NotFound | Unlisted

  /** The last machine of that name in the listing, unless its entry is already too old when it is looked up. */
  function FromListing(cfg: Config, vms: seq<VMHandle>, times: seq<int>, name: string): Option<VMHandle>
    requires |times| == |vms| + 1
  {
    match LastAt(cfg, vms, cfg.fold(name))
    case None => None
    case Some(j) => if times[|vms|] - times[j] > cfg.ttlMs then None else Some(vms[j])
  }

  /** `resolveVM` with what the backend's listing gives. The clock reads `t0` before the await and `times` after it:
      once for each machine cached and once for the last lookup. */
  method ResolveVM(cache: VmCache, listing: Option<seq<VMHandle>>, name: string, t0: int, times: seq<int>)
    returns (r: Resolution)
    requires cache.Valid() && ClockRuns(cache.log, t0)
    requires listing.Some? ==> |times| == |listing.value| + 1 && Rising(t0, times)
    modifies cache
    ensures cache.Valid()
    ensures match Recalled(cache.cfg, old(cache.log), name, t0)
            case Some(h) => r == Resolved(h) && cache.log == old(cache.log) + [Look(name, t0)]
            case None =>
              match listing
              case None => r == Unlisted && cache.log == old(cache.log) + [Look(name, t0)]
              case Some(vms) =>
                var asked, end := old(cache.log) + [Look(name, t0)], times[|vms|];
                var found := FromListing(cache.cfg, vms, times, name);
                && r == (if found.Some? then Resolved(found.value) else NotFound)
                && cache.log == asked + SetsAt(vms, times) + [Look(name, end)]
  {
    EvictionUnobservable(cache.cfg, cache.log, name, t0);
    var cached := cache.Get(name, t0);
    if cached.Some? {
      return Resolved(cached.value);
    }
    if listing.None? {
      return Unlisted;
    }
    var vms := listing.value;
    CacheAll(cache, vms, times);
    ResolvedFromListing(cache.cfg, old(cache.log), vms, name, t0, times);
    var resolved := cache.Get(name, times[|vms|]);
    r := if resolved.Some? then Resolved(resolved.value) else NotFound;
  }

  lemma ResolvedFromListing(
    cfg: Config, log: seq<Op>, vms: seq<VMHandle>, name: string, t0: int, times: seq<int>)
    requires ClockRuns(log, t0) && Recalled(cfg, log, name, t0) == None
    requires |times| == |vms| + 1 && Rising(t0, times)
    ensures Found(cfg, Run(cfg, log + [Look(name, t0)] + SetsAt(vms, times)), name, times[|vms|]) ==
            FromListing(cfg, vms, times, name)
  {
    var asked := log + [Look(name, t0)];
    LastWriteSnoc(cfg, log, Look(name, t0), cfg.fold(name));
    SetsWrite(cfg, asked, vms, times, cfg.fold(name));
    SetsKeepClock(asked, t0, vms, times);
    EvictionUnobservable(cfg, asked + SetsAt(vms, times), name, times[|vms|]);
  }
}
