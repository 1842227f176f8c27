/** What `invalidate` (host/src/vm-cache.ts) achieves among the other users of the cache, and what undoes it. */
module VmInvalidation {
  import opened Wrappers
  import opened HandleCache
  import opened VmResolve
  import opened VmInterleaving

  /** The call in flight `c` may still cache `h` under `key` without asking the backend again. */
  ghost predicate MayCache(u: Setup, s: State, c: nat, key: string, h: VMHandle) {
    && c in s.calls && u.cfg.fold(h.name) == key
    && match s.calls[c]
       case Asking(_) => false
       case Told(kind, l) =>
         l < |s.reports| && s.now - s.reports[l].at <= u.latency && h in Usable(kind, s.reports[l].vms)
       case Holding(g, since, _) => g == h && s.now - since <= u.hold
  }

  /** `h` was in one of the reports from the `first` on. */
  ghost predicate ReportedSince(reports: seq<Report>, first: nat, h: VMHandle) {
    exists l :: first <= l < |reports| && h in reports[l].vms
  }

  /** Only what was reported since is cached under `key`, on its way there, or given out from answer `from` on. */
  ghost predicate Renewed(u: Setup, s: State, key: string, first: nat, from: nat) {
    && (forall c, h :: MayCache(u, s, c, key, h) ==> ReportedSince(s.reports, first, h))
    && EntryRenewed(u, s, key, first)
    && (forall k :: from <= k < |s.answers| && u.cfg.fold(s.answers[k].name) == key ==>
                      ReportedSince(s.reports, first, s.answers[k].handle))
  }

  ghost predicate EntryRenewed(u: Setup, s: State, key: string, first: nat) {
    var e := LastWrite(u.cfg, s.log, key);
    e.Some? ==> ReportedSince(s.reports, first, e.value.handle)
  }

  /** `t` differs from a renewed `s` in its calls, none of which may cache anything that could not be cached before. */
  lemma CallsRenewed(u: Setup, s: State, t: State, key: string, first: nat, from: nat)
    requires Renewed(u, s, key, first, from) && t.reports == s.reports && t.answers == s.answers
    requires EntryRenewed(u, t, key, first)
    requires forall c, h :: MayCache(u, t, c, key, h) ==>
                              MayCache(u, s, c, key, h) || ReportedSince(s.reports, first, h)
    ensures Renewed(u, t, key, first, from)
  {
  }

  lemma TickRenewed(u: Setup, s: State, t: int, key: string, first: nat, from: nat)
    requires Renewed(u, s, key, first, from) && s.now <= t
    ensures Renewed(u, s.(now := t), key, first, from)
  {
    CallsRenewed(u, s, s.(now := t), key, first, from);
  }

  lemma LookupRenewed(u: Setup, s: State, name: string, key: string, first: nat, from: nat)
    requires Inv(u, s) && Renewed(u, s, key, first, from)
    ensures Renewed(u, Lookup(u, s, name), key, first, from)
  {
    var t := Lookup(u, s, name);
    LastWriteSnoc(u.cfg, s.log, Look(name, s.now), key);
    forall c, h | MayCache(u, t, c, key, h)
      ensures ReportedSince(t.reports, first, h)
    {
      assert MayCache(u, s, c, key, h);
    }
    if Hit(u, s, name).Some? {
      HitAged(u, s, name);
    }
  }

  lemma StartRenewed(u: Setup, s: State, c: nat, kind: Kind, key: string, first: nat, from: nat)
    requires Inv(u, s) && Renewed(u, s, key, first, from) && c !in s.calls
    ensures Renewed(u, StartCall(u, s, c, kind), key, first, from)
  {
    var t, end := s, StartCall(u, s, c, kind);
    if kind.Resolve? || kind.Find? {
      t := Lookup(u, s, kind.name);
      LookupRenewed(u, s, kind.name, key, first, from);
      if Hit(u, s, kind.name).Some? {
        HitAged(u, s, kind.name);
      }
    }
    CallsRenewed(u, t, end, key, first, from);
  }

  lemma ReplyRenewed(u: Setup, s: State, c: nat, vms: seq<VMHandle>, key: string, first: nat, from: nat)
    requires Renewed(u, s, key, first, from) && Enabled(u, s, Reply(c, vms)) && first <= |s.reports|
    requires Inv(u, s)
    ensures Renewed(u, Do(u, s, Reply(c, vms)), key, first, from)
  {
    var t := Do(u, s, Reply(c, vms));
    forall h | ReportedSince(s.reports, first, h)
      ensures ReportedSince(t.reports, first, h)
    {
      var l :| first <= l < |s.reports| && h in s.reports[l].vms;
      assert t.reports[l] == s.reports[l];
    }
    forall c', h | MayCache(u, t, c', key, h)
      ensures ReportedSince(t.reports, first, h)
    {
      if c' == c {
        if s.calls[c].kind.Find? {
          FirstNamedIn(vms, s.calls[c].kind.name);
        }
        assert h in t.reports[|s.reports|].vms;
      } else {
        assert CallOk(u, s, s.calls[c']);
        assert MayCache(u, s, c', key, h);
      }
    }
  }

  lemma ResumeRenewed(u: Setup, s: State, c: nat, times: seq<int>, key: string, first: nat, from: nat)
    requires Inv(u, s) && Renewed(u, s, key, first, from) && Enabled(u, s, Resume(c, times))
    ensures Renewed(u, ResumeCall(u, s, c, times), key, first, from)
  {
    var kind, l := s.calls[c].kind, s.calls[c].report;
    if kind.Find? {
      CallsRenewed(u, s, ResumeCall(u, s, c, times), key, first, from);
    } else {
      FilledRenewed(u, s, c, l, times, key, first, from);
      if kind.Resolve? {
        FilledKeepsInv(u, s, c, l, times);
        LookupRenewed(u, Filled(u, s, c, l, times), kind.name, key, first, from);
      }
    }
  }

  lemma FilledRenewed(u: Setup, s: State, c: nat, l: nat, times: seq<int>, key: string, first: nat, from: nat)
    requires Inv(u, s) && Renewed(u, s, key, first, from) && Enabled(u, s, Resume(c, times))
    requires s.calls[c].report == l && !s.calls[c].kind.Find?
    ensures Renewed(u, Filled(u, s, c, l, times), key, first, from)
  {
    var vms := s.reports[l].vms;
    SetsWrite(u.cfg, s.log, vms, times, key);
    var j := LastAt(u.cfg, vms, key);
    assert j.Some? ==> MayCache(u, s, c, key, vms[j.value]);
    CallsRenewed(u, s, Filled(u, s, c, l, times), key, first, from);
  }

  lemma KeepRenewed(u: Setup, s: State, c: nat, key: string, first: nat, from: nat)
    requires Renewed(u, s, key, first, from) && Enabled(u, s, Keep(c))
    ensures Renewed(u, KeepCall(u, s, c), key, first, from)
  {
    var h := s.calls[c].handle;
    LastWriteSnoc(u.cfg, s.log, Set(h.name, h, s.now), key);
    assert u.cfg.fold(h.name) == key ==> MayCache(u, s, c, key, h);
    CallsRenewed(u, s, KeepCall(u, s, c), key, first, from);
  }

  lemma MoveRenewed(u: Setup, s: State, m: Move, key: string, first: nat, from: nat)
    requires Inv(u, s) && Renewed(u, s, key, first, from) && Enabled(u, s, m) && first <= |s.reports|
    ensures Renewed(u, Do(u, s, m), key, first, from)
  {
    match m
    case Tick(t) => TickRenewed(u, s, t, key, first, from);
    case Start(c, kind) => StartRenewed(u, s, c, kind, key, first, from);
    case Reply(c, vms) => ReplyRenewed(u, s, c, vms, key, first, from);
    case Resume(c, times) => ResumeRenewed(u, s, c, times, key, first, from);
    case Keep(c) => KeepRenewed(u, s, c, key, first, from);
    case Drop(c) => CallsRenewed(u, s, Do(u, s, m), key, first, from);
    case Invalidate(name) =>
      LastWriteSnoc(u.cfg, s.log, Delete(name), key);
      CallsRenewed(u, s, Do(u, s, m), key, first, from);
    case InvalidateAll =>
      LastWriteSnoc(u.cfg, s.log, Clear, key);
      CallsRenewed(u, s, Do(u, s, m), key, first, from);
  }

  lemma {:induction false} ExecRenewed(u: Setup, s: State, moves: seq<Move>, key: string, first: nat, from: nat)
    requires Inv(u, s) && Renewed(u, s, key, first, from) && first <= |s.reports| && Exec(u, s, moves).Some?
    ensures Renewed(u, Exec(u, s, moves).value, key, first, from)
    decreases |moves|
  {
    if moves != [] {
      MoveKeepsInv(u, s, moves[0]);
      MoveRenewed(u, s, moves[0], key, first, from);
      ExecRenewed(u, Do(u, s, moves[0]), moves[1..], key, first, from);
    }
  }

  // ----- A negative lifetime -----

  lemma NothingHit(u: Setup, s: State, name: string)
    requires Inv(u, s) && u.cfg.ttlMs < 0
    ensures Hit(u, s, name) == None
  {
    EvictionUnobservable(u.cfg, s.log, name, s.now);
    EntryNotLater(u.cfg, s.log, u.cfg.fold(name), s.now);
  }

  /** With a negative lifetime every entry is expired at once and nothing is ever given out. */
  lemma {:induction false} NothingGiven(u: Setup, s: State, moves: seq<Move>)
    requires u.cfg.ttlMs < 0 && Inv(u, s) && Exec(u, s, moves).Some?
    ensures Exec(u, s, moves).value.answers == s.answers
    decreases |moves|
  {
    if moves != [] {
      var m := moves[0];
      if m.Start? && (m.kind.Resolve? || m.kind.Find?) {
        NothingHit(u, s, m.kind.name);
      } else if m.Resume? && s.calls[m.call].kind.Resolve? {
        var l := s.calls[m.call].report;
        FilledKeepsInv(u, s, m.call, l, m.times);
        NothingHit(u, Filled(u, s, m.call, l, m.times), s.calls[m.call].kind.name);
      }
      MoveKeepsInv(u, s, m);
      NothingGiven(u, Do(u, s, m), moves[1..]);
    }
  }

  // ----- When an invalidated handle comes back -----

  /** After the invalidation the cache gives out, under the invalidated name, a handle that no report since then has. */
  ghost predicate Resurfaces(u: Setup, s: State, name: string, moves: seq<Move>, k: nat) {
    && Exec(u, Do(u, s, Invalidate(name)), moves).Some?
    && var t := Exec(u, Do(u, s, Invalidate(name)), moves).value;
    && |s.answers| <= k < |t.answers|
    && u.cfg.fold(t.answers[k].name) == u.cfg.fold(name)
    && !ReportedSince(t.reports, |s.reports|, t.answers[k].handle)
  }

  /** If no call in flight may still cache anything under the name, the invalidation holds in every run that follows. */
  lemma InvalidationHolds(u: Setup, s: State, name: string, moves: seq<Move>, k: nat)
    requires Inv(u, s) && (u.cfg.ttlMs < 0 || forall c, h :: !MayCache(u, s, c, u.cfg.fold(name), h))
    ensures !Resurfaces(u, s, name, moves, k)
  {
    var key, t := u.cfg.fold(name), Do(u, s, Invalidate(name));
    if Exec(u, t, moves).Some? {
      MoveKeepsInv(u, s, Invalidate(name));
      if u.cfg.ttlMs < 0 {
        NothingGiven(u, t, moves);
      } else {
        LastWriteSnoc(u.cfg, s.log, Delete(name), key);
        assert forall c, h :: MayCache(u, t, c, key, h) ==> MayCache(u, s, c, key, h);
        ExecRenewed(u, t, moves, key, |s.reports|, |s.answers|);
      }
    }
  }

  /** The next lookup right after an invalidation asks the backend. */
  lemma NextLookupAsksBackend(u: Setup, s: State, name: string, c: nat)
    requires Inv(u, s) && c !in s.calls
    ensures var t := Do(u, Do(u, s, Invalidate(name)), Start(c, Resolve(name)));
            t.calls == s.calls[c := Asking(Resolve(name))] && t.answers == s.answers
  {
    var t := Do(u, s, Invalidate(name));
    MoveKeepsInv(u, s, Invalidate(name));
    LastWriteSnoc(u.cfg, s.log, Delete(name), u.cfg.fold(name));
    EvictionUnobservable(u.cfg, t.log, name, t.now);
  }

  /** An entry under the name, cached this moment, whose handle no report from `first` on has. */
  ghost predicate PutBack(u: Setup, s: State, name: string, first: nat) {
    var e := LastWrite(u.cfg, s.log, u.cfg.fold(name));
    e.Some? && e.value.insertedAt == s.now && !ReportedSince(s.reports, first, e.value.handle)
  }

  lemma PutBackGiven(u: Setup, s: State, name: string, first: nat, c: nat)
    requires Inv(u, s) && u.cfg.ttlMs >= 0 && PutBack(u, s, name, first) && c !in s.calls
    ensures var t := Do(u, s, Start(c, Resolve(name)));
            && t.reports == s.reports && |t.answers| == |s.answers| + 1
            && t.answers[|s.answers|].name == name && !ReportedSince(t.reports, first, t.answers[|s.answers|].handle)
  {
    EvictionUnobservable(u.cfg, s.log, name, s.now);
  }

  lemma ListedWritten(cfg: Config, log: seq<Op>, vms: seq<VMHandle>, times: seq<int>, now: int, h: VMHandle)
    requires h in vms && |times| >= |vms| && forall i :: 0 <= i < |vms| ==> times[i] == now
    ensures var e := LastWrite(cfg, log + SetsAt(vms, times), cfg.fold(h.name));
            e.Some? && e.value.insertedAt == now
  {
    var i :| 0 <= i < |vms| && vms[i] == h;
    SetsWrite(cfg, log, vms, times, cfg.fold(h.name));
  }

  lemma NothingSince(reports: seq<Report>, h: VMHandle)
    ensures !ReportedSince(reports, |reports|, h)
  {
  }

  /** A call told of the name before the invalidation resumes at once. */
  lemma ToldPutsBack(u: Setup, s: State, name: string, c: nat, h: VMHandle) returns (m: Move)
    requires Inv(u, s) && MayCache(u, s, c, u.cfg.fold(name), h) && s.calls[c].Told? && !s.calls[c].kind.Find?
    ensures Enabled(u, s, m)
    ensures var t := Do(u, s, m);
            c !in t.calls && t.reports == s.reports && |s.answers| <= |t.answers| && PutBack(u, t, name, |s.reports|)
  {
    var l := s.calls[c].report;
    var vms := s.reports[l].vms;
    var times := seq(|vms| + 1, _ => s.now);
    m := Resume(c, times);
    var key := u.cfg.fold(name);
    var filled := Filled(u, s, c, l, times);
    ListedWritten(u.cfg, s.log, vms, times, s.now, h);
    NothingSince(s.reports, LastWrite(u.cfg, filled.log, key).value.handle);
    var kind := s.calls[c].kind;
    if kind.Resolve? {
      LastWriteSnoc(u.cfg, filled.log, Look(kind.name, s.now), key);
    }
  }

  /** A call that has found the handle caches it at once. */
  lemma HoldingPutsBack(u: Setup, s: State, name: string, c: nat, h: VMHandle)
    requires MayCache(u, s, c, u.cfg.fold(name), h) && s.calls[c].Holding?
    ensures Enabled(u, s, Keep(c))
    ensures var t := Do(u, s, Keep(c));
            c !in t.calls && t.reports == s.reports && t.answers == s.answers && PutBack(u, t, name, |s.reports|)
  {
    LastWriteSnoc(u.cfg, s.log, Set(h.name, h, s.now), u.cfg.fold(name));
  }

  /** A call told of the handle it looks for holds it. */
  lemma FindHolds(u: Setup, s: State, name: string, c: nat, h: VMHandle) returns (m: Move)
    requires Inv(u, s) && MayCache(u, s, c, u.cfg.fold(name), h) && s.calls[c].Told? && s.calls[c].kind.Find?
    ensures Enabled(u, s, m)
    ensures var t := Do(u, s, m);
            && MayCache(u, t, c, u.cfg.fold(name), h) && t.calls[c].Holding?
            && t.reports == s.reports && t.answers == s.answers
  {
    var vms := s.reports[s.calls[c].report].vms;
    m := Resume(c, seq(|vms| + 1, _ => s.now));
    FirstNamedIn(vms, s.calls[c].kind.name);
  }

  lemma Exec2(u: Setup, s: State, m: Move, n: Move)
    requires Enabled(u, s, m) && Enabled(u, Do(u, s, m), n)
    ensures Exec(u, s, [m, n]) == Some(Do(u, Do(u, s, m), n))
  {
    var t := Do(u, s, m);
    assert [m, n][1..] == [n] && [n][1..] == [];
    assert Exec(u, t, [n]) == Exec(u, Do(u, t, n), []);
  }

  lemma Exec3(u: Setup, s: State, m: Move, n: Move, o: Move)
    requires Enabled(u, s, m) && Enabled(u, Do(u, s, m), n) && Enabled(u, Do(u, Do(u, s, m), n), o)
    ensures Exec(u, s, [m, n, o]) == Some(Do(u, Do(u, Do(u, s, m), n), o))
  {
    assert [m, n, o][1..] == [n, o];
    Exec2(u, Do(u, s, m), n, o);
  }

  /** Whatever call in flight may still cache the handle does so right after the invalidation. */
  lemma InvalidationUndone(u: Setup, s: State, name: string, c: nat, h: VMHandle) returns (moves: seq<Move>, k: nat)
    requires Inv(u, s) && u.cfg.ttlMs >= 0 && MayCache(u, s, c, u.cfg.fold(name), h)
    ensures Resurfaces(u, s, name, moves, k)
  {
    var s1, look := Do(u, s, Invalidate(name)), Start(c, Resolve(name));
    MoveKeepsInv(u, s, Invalidate(name));
    assert MayCache(u, s1, c, u.cfg.fold(name), h);
    var s2;
    if s.calls[c].Holding? {
      HoldingPutsBack(u, s1, name, c, h);
      MoveKeepsInv(u, s1, Keep(c));
      s2 := Do(u, s1, Keep(c));
      moves := [Keep(c), look];
      Exec2(u, s1, Keep(c), look);
    } else if s.calls[c].kind.Find? {
      var m := FindHolds(u, s1, name, c, h);
      MoveKeepsInv(u, s1, m);
      var held := Do(u, s1, m);
      HoldingPutsBack(u, held, name, c, h);
      MoveKeepsInv(u, held, Keep(c));
      s2 := Do(u, held, Keep(c));
      moves := [m, Keep(c), look];
      Exec3(u, s1, m, Keep(c), look);
    } else {
      var m := ToldPutsBack(u, s1, name, c, h);
      MoveKeepsInv(u, s1, m);
      s2 := Do(u, s1, m);
      moves := [m, look];
      Exec2(u, s1, m, look);
    }
    PutBackGiven(u, s2, name, |s.reports|, c);
    k := |s2.answers|;
  }

  /** An invalidated handle can be given out again exactly when some call in flight may still cache one under the name:
      a lookup, a listing or a creation the backend has already answered, or a call that holds what it found. */
  lemma InvalidationExactly(u: Setup, s: State, name: string)
    requires Inv(u, s)
    ensures (exists moves, k :: Resurfaces(u, s, name, moves, k)) <==>
            (u.cfg.ttlMs >= 0 && exists c, h :: MayCache(u, s, c, u.cfg.fold(name), h))
  {
    if u.cfg.ttlMs >= 0 && exists c, h :: MayCache(u, s, c, u.cfg.fold(name), h) {
      var c, h :| MayCache(u, s, c, u.cfg.fold(name), h);
      var moves, k := InvalidationUndone(u, s, name, c, h);
    } else {
      forall moves, k
        ensures !Resurfaces(u, s, name, moves, k)
      {
        InvalidationHolds(u, s, name, moves, k);
      }
    }
  }
}
