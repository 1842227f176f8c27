/** The shared VM handle cache (host/src/vm-cache.ts). */
module HandleCache {
  import opened Wrappers

  datatype VMHandle = VMHandle(id: string, name: string)
  datatype Entry = Entry(handle: VMHandle, insertedAt: int)

  /** What was done to a cache and when the clock was read. `get` and `has` are both looks. */
  datatype Op =
    | Set(name: string, handle: VMHandle, at: int)
    | Delete(name: string)
    | Clear
    | Look(name: string, at: int)

  /** What does not change over a cache's life: how names are lower-cased, and the entry lifetime. */
  datatype Config = Config(fold: string -> string, ttlMs: int)

  type Store = map<string, Entry>

  predicate Expired(cfg: Config, e: Entry, now: int) { now - e.insertedAt > cfg.ttlMs }

  // ----- The cache with eviction -----

  function Found(cfg: Config, c: Store, name: string, now: int): (r: Option<VMHandle>) {
    var key := cfg.fold(name);
    if key in c && !Expired(cfg, c[key], now) then Some(c[key].handle) else None
  }

  function Step(cfg: Config, c: Store, op: Op): (r: Store) {
    match op
    case Set(name, handle, at) => c[cfg.fold(name) := Entry(handle, at)]
    case Delete(name) => c - {cfg.fold(name)}
    case Clear => map[]
    case Look(name, at) =>
      var key := cfg.fold(name);
      if key in c && Expired(cfg, c[key], at) then c - {key} else c
  }

  function Run(cfg: Config, log: seq<Op>): (c: Store) {
    if log == [] then map[] else Step(cfg, Run(cfg, log[..|log| - 1]), log[|log| - 1])
  }

  class VmCache {
    var cache: Store
    const cfg: Config
    ghost var log: seq<Op>

    /** The store is what the operations so far make of an empty one. */
    ghost predicate Valid()
      reads this
    {
      cache == Run(cfg, log)
    }

    constructor (cfg: Config)
      ensures Valid() && this.cfg == cfg && log == []
    {
      this.cfg := cfg;
      cache, log := map[], [];
    }

    ghost method Record(op: Op)
      requires cache == Step(cfg, Run(cfg, log), op)
      modifies this`log
      ensures Valid() && log == old(log) + [op]
    {
      log := log + [op];
      assert log[..|log| - 1] == old(log);
    }

    method Get(name: string, now: int) returns (r: Option<VMHandle>)
      requires Valid()
      modifies this
      ensures Valid() && log == old(log) + [Look(name, now)]
      ensures r == Found(cfg, old(cache), name, now)
    {
      var key := cfg.fold(name);
      r := None;
      if key in cache {
        if now - cache[key].insertedAt > cfg.ttlMs {
          cache := cache - {key};
        } else {
          r := Some(cache[key].handle);
        }
      }
      Record(Look(name, now));
    }

    method Has(name: string, now: int) returns (r: bool)
      requires Valid()
      modifies this
      ensures Valid() && log == old(log) + [Look(name, now)]
      ensures r == Found(cfg, old(cache), name, now).Some?
    {
      var key := cfg.fold(name);
      if key !in cache {
        r := false;
      } else if now - cache[key].insertedAt > cfg.ttlMs {
        cache := cache - {key};
        r := false;
      } else {
        r := true;
      }
      Record(Look(name, now));
    }

    /** `set`, and `cacheVM` with the handle's own name. */
    method Put(name: string, handle: VMHandle, now: int)
      requires Valid()
      modifies this
      ensures Valid() && log == old(log) + [Set(name, handle, now)]
    {
      cache := cache[cfg.fold(name) := Entry(handle, now)];
      Record(Set(name, handle, now));
    }

    /** `delete` and `invalidate`. */
    method Invalidate(name: string)
      requires Valid()
      modifies this
      ensures Valid() && log == old(log) + [Delete(name)]
    {
      cache := cache - {cfg.fold(name)};
      Record(Delete(name));
    }

    method Empty()
      requires Valid()
      modifies this
      ensures Valid() && log == old(log) + [Clear]
    {
      cache := map[];
      Record(Clear);
    }
  }

  // ----- The never-evicting log -----

  /** The last operation touching `key`, if it was a set. Looks touch nothing. */
  function LastWrite(cfg: Config, log: seq<Op>, key: string): (r: Option<Entry>) {
    if log == [] then None
    else
      var before := log[..|log| - 1];
      match log[|log| - 1]
      case Set(name, h, at) => if cfg.fold(name) == key then Some(Entry(h, at)) else LastWrite(cfg, before, key)
      case Delete(name) => if cfg.fold(name) == key then None else LastWrite(cfg, before, key)
      case Clear => None
      case Look(_, _) => LastWrite(cfg, before, key)
  }

  lemma LastWriteSnoc(cfg: Config, log: seq<Op>, op: Op, key: string)
    ensures LastWrite(cfg, log + [op], key) ==
            match op
            case Set(name, h, at) => if cfg.fold(name) == key then Some(Entry(h, at)) else LastWrite(cfg, log, key)
            case Delete(name) => if cfg.fold(name) == key then None else LastWrite(cfg, log, key)
            case Clear => None
            case Look(_, _) => LastWrite(cfg, log, key)
  {
    assert (log + [op])[..|log|] == log;
  }

  function Recalled(cfg: Config, log: seq<Op>, name: string, now: int): (r: Option<VMHandle>) {
    match LastWrite(cfg, log, cfg.fold(name))
    case None => None
    case Some(e) => if Expired(cfg, e, now) then None else Some(e.handle)
  }

  predicate Timed(op: Op) { op.Set? || op.Look? }

  /** Every reading of the clock in `log` is at most `now`, and later readings are not earlier ones. */
  ghost predicate ClockRuns(log: seq<Op>, now: int) {
    && (forall i :: 0 <= i < |log| && Timed(log[i]) ==> log[i].at <= now)
    && (forall i, j :: 0 <= i < j < |log| && Timed(log[i]) && Timed(log[j]) ==> log[i].at <= log[j].at)
  }

  /** The store and the log agree on `key` from time `now` on: evicted entries are ones that stay expired. */
  ghost predicate Agree(cfg: Config, c: Store, e: Option<Entry>, key: string, now: int) {
    if key in c then e == Some(c[key]) else e.Some? ==> Expired(cfg, e.value, now)
  }

  lemma {:induction false} RunAgrees(cfg: Config, log: seq<Op>, key: string, now: int)
    requires ClockRuns(log, now)
    ensures Agree(cfg, Run(cfg, log), LastWrite(cfg, log, key), key, now)
  {
    if log != [] {
      var before, op := log[..|log| - 1], log[|log| - 1];
      var at := if Timed(op) then op.at else now;
      assert ClockRuns(before, at) by {
        assert forall i :: 0 <= i < |before| ==> before[i] == log[i];
      }
      RunAgrees(cfg, before, key, at);
    }
  }

  /** Under a clock that does not run back, the cache with eviction answers every lookup as the never-evicting log does:
      a handle exactly when the last operation on the folded name was a set of it no more than the TTL ago. */
  lemma EvictionUnobservable(cfg: Config, log: seq<Op>, name: string, now: int)
    requires ClockRuns(log, now)
    ensures Found(cfg, Run(cfg, log), name, now) == Recalled(cfg, log, name, now)
  {
    RunAgrees(cfg, log, cfg.fold(name), now);
  }

  predicate Touches(cfg: Config, op: Op, key: string) {
    match op
    case Set(name, _, _) => cfg.fold(name) == key
    case Delete(name) => cfg.fold(name) == key
    case Clear => true
    case Look(_, _) => false
  }

  /** The look at `i` saw the last write to `key` expired, and nothing has touched `key` since. */
  ghost predicate EvictedAt(cfg: Config, log: seq<Op>, key: string, i: nat) {
    && i < |log| && log[i].Look? && cfg.fold(log[i].name) == key
    && (forall j :: i < j < |log| ==> !Touches(cfg, log[j], key))
    && var e := LastWrite(cfg, log[..i], key); e.Some? && Expired(cfg, e.value, log[i].at)
  }

  ghost predicate Evicted(cfg: Config, log: seq<Op>, key: string) {
    exists i :: EvictedAt(cfg, log, key, i)
  }

  lemma EvictedEarlier(cfg: Config, log: seq<Op>, key: string, i: nat)
    requires log != []
    ensures var n := |log| - 1;
            i < n ==>
              (EvictedAt(cfg, log, key, i) <==> EvictedAt(cfg, log[..n], key, i) && !Touches(cfg, log[n], key))
  {
    var n := |log| - 1;
    if i < n {
      assert log[..n][..i] == log[..i];
    }
  }

  lemma EvictedSnoc(cfg: Config, log: seq<Op>, key: string)
    requires log != []
    ensures var before, op := log[..|log| - 1], log[|log| - 1];
            var e := LastWrite(cfg, before, key);
            Evicted(cfg, log, key) <==>
            !Touches(cfg, op, key) &&
            (Evicted(cfg, before, key) ||
             (op.Look? && cfg.fold(op.name) == key && e.Some? && Expired(cfg, e.value, op.at)))
  {
    var n := |log| - 1;
    if Evicted(cfg, log, key) {
      var i: nat :| EvictedAt(cfg, log, key, i);
      EvictedEarlier(cfg, log, key, i);
    }
    if Evicted(cfg, log[..n], key) {
      var i: nat :| EvictedAt(cfg, log[..n], key, i);
      EvictedEarlier(cfg, log, key, i);
    }
    assert EvictedAt(cfg, log, key, n) ==> Evicted(cfg, log, key);
  }

  /** After every history, whatever the clock did, the store holds exactly the last writes that were not evicted. */
  lemma {:induction false} RunExactly(cfg: Config, log: seq<Op>, key: string)
    ensures key in Run(cfg, log) <==> LastWrite(cfg, log, key).Some? && !Evicted(cfg, log, key)
    ensures key in Run(cfg, log) ==> LastWrite(cfg, log, key) == Some(Run(cfg, log)[key])
  {
    if log != [] {
      RunExactly(cfg, log[..|log| - 1], key);
      EvictedSnoc(cfg, log, key);
    }
  }

  /** Whatever the clock did, a lookup answers as the never-evicting log does unless an entry that is live by the clock
      now was seen expired before. */
  lemma LookupExactly(cfg: Config, log: seq<Op>, name: string, now: int)
    ensures Found(cfg, Run(cfg, log), name, now) == Recalled(cfg, log, name, now) <==>
            !(Recalled(cfg, log, name, now).Some? && Evicted(cfg, log, cfg.fold(name)))
  {
    RunExactly(cfg, log, cfg.fold(name));
  }

  /** If the clock runs back the two can differ: an entry evicted at a later time is missed at an earlier one. */
  lemma ClockMustNotRunBack(cfg: Config, name: string, h: VMHandle)
    requires cfg.ttlMs >= 0
    ensures var log := [Set(name, h, 0), Look(name, cfg.ttlMs + 1)];
            Found(cfg, Run(cfg, log), name, 0) == None && Recalled(cfg, log, name, 0) == Some(h)
  {
    var log := [Set(name, h, 0), Look(name, cfg.ttlMs + 1)];
    assert log[..1] == [Set(name, h, 0)] && log[..1][..0] == [];
    assert Run(cfg, log[..1]) == map[cfg.fold(name) := Entry(h, 0)];
    assert LastWrite(cfg, log[..1], cfg.fold(name)) == Some(Entry(h, 0));
  }
}
