/** How old a handle given out by the shared cache can be: the bound of `VmInterleaving` is attained, for everything a
    handle can have been through. */
module VmStaleness {
  import opened Wrappers
  import opened HandleCache
  import opened VmResolve
  import opened VmInterleaving

  // ----- The bound, spelled out -----

  /** How often the handle was given out and cached again. */
  function Reuses(chain: Chain): nat {
    match chain
    case Direct => 0
    case GivenOut(c) => Reuses(c) + 1
    case Held(c) => Reuses(c)
  }

  function Holds(chain: Chain): nat {
    match chain
    case Direct => 0
    case GivenOut(c) => Holds(c)
    case Held(c) => Holds(c) + 1
  }

  lemma {:induction false} BudgetSum(u: Setup, chain: Chain)
    ensures Budget(u, chain) == u.latency + Reuses(chain) * u.cfg.ttlMs + Holds(chain) * u.hold
  {
    match chain
    case Direct =>
    case GivenOut(c) =>
      BudgetSum(u, c);
      assert Reuses(chain) * u.cfg.ttlMs == Reuses(c) * u.cfg.ttlMs + u.cfg.ttlMs;
    case Held(c) =>
      BudgetSum(u, c);
      assert Holds(chain) * u.hold == Holds(c) * u.hold + u.hold;
  }

  // ----- Runs without keeping -----

  ghost predicate AllDirect(s: State) {
    && (forall key :: key in s.origins ==> s.origins[key].chain == Direct)
    && (forall k :: 0 <= k < |s.answers| ==> s.answers[k].origin.chain == GivenOut(Direct))
  }

  lemma FilledDirect(u: Setup, s: State, c: nat, l: nat, times: seq<int>)
    requires AllDirect(s) && l < |s.reports| && |times| == |s.reports[l].vms| + 1
    ensures AllDirect(Filled(u, s, c, l, times))
  {
    var t := Filled(u, s, c, l, times);
    forall key | key in t.origins
      ensures t.origins[key].chain == Direct
    {
      MarkedAt(u.cfg, s.origins, s.reports[l].vms, Origin(l, Direct), key);
    }
  }

  lemma LookupDirect(u: Setup, s: State, name: string)
    requires AllDirect(s)
    ensures AllDirect(Lookup(u, s, name))
  {
  }

  lemma MoveStaysDirect(u: Setup, s: State, m: Move)
    requires AllDirect(s) && Enabled(u, s, m) && !m.Keep?
    ensures AllDirect(Do(u, s, m))
  {
    if m.Resume? {
      var kind, l := s.calls[m.call].kind, s.calls[m.call].report;
      FilledDirect(u, s, m.call, l, m.times);
      if kind.Resolve? {
        LookupDirect(u, Filled(u, s, m.call, l, m.times), kind.name);
      }
    } else if m.Start? && (m.kind.Resolve? || m.kind.Find?) {
      LookupDirect(u, s, m.kind.name);
    }
  }

  lemma {:induction false} ExecStaysDirect(u: Setup, s: State, moves: seq<Move>)
    requires AllDirect(s) && Exec(u, s, moves).Some? && forall m :: m in moves ==> !m.Keep?
    ensures AllDirect(Exec(u, s, moves).value)
    decreases |moves|
  {
    if moves != [] {
      assert moves[0] in moves;
      MoveStaysDirect(u, s, moves[0]);
      ExecStaysDirect(u, Do(u, s, moves[0]), moves[1..]);
    }
  }

  /** As long as no call caches a handle it found, nothing given out is older than the lifetime and one latency. */
  lemma WithoutKeeping(u: Setup, s: State, moves: seq<Move>, a: Answer)
    requires Gives(u, s, moves, a) && forall m :: m in moves ==> !m.Keep?
    ensures var reports := Exec(u, s, moves).value.reports;
            a.origin.report < |reports| && 0 <= Age(reports, a) <= u.cfg.ttlMs + u.latency
  {
    ExecStaysDirect(u, s, moves);
    StalenessBound(u, s, moves, a);
  }

  // ----- Runs that attain the bound -----

  ghost predicate Reaches(u: Setup, s: State, t: State) {
    exists moves :: Exec(u, s, moves) == Some(t)
  }

  lemma {:induction false} ExecSnoc(u: Setup, s: State, moves: seq<Move>, m: Move)
    requires Exec(u, s, moves).Some? && Enabled(u, Exec(u, s, moves).value, m)
    ensures Exec(u, s, moves + [m]) == Some(Do(u, Exec(u, s, moves).value, m))
    decreases |moves|
  {
    if moves == [] {
      assert moves + [m] == [m];
      assert [m][1..] == [];
    } else {
      ExecSnoc(u, Do(u, s, moves[0]), moves[1..], m);
      assert (moves + [m])[1..] == moves[1..] + [m];
    }
  }

  lemma Reach(u: Setup, s: State, t: State, m: Move)
    requires Reaches(u, s, t) && Enabled(u, t, m) && Inv(u, t)
    ensures Reaches(u, s, Do(u, t, m)) && Inv(u, Do(u, t, m))
  {
    var moves :| Exec(u, s, moves) == Some(t);
    ExecSnoc(u, s, moves, m);
    MoveKeepsInv(u, t, m);
  }

  lemma ReachSelf(u: Setup, s: State)
    requires Initial(s)
    ensures Reaches(u, s, s) && Inv(u, s)
  {
    assert Exec(u, s, []) == Some(s);
    InitialInv(u, s);
  }

  /** `h`, reported when the run began, has just been cached again, as old as its chain allows. */
  ghost predicate Oldest(u: Setup, s: State, t: State, h: VMHandle, chain: Chain) {
    var key := u.cfg.fold(h.name);
    && Reaches(u, s, t) && Inv(u, t)
    && t.calls == map[] && t.reports == [Report(s.now, [h])] && t.now == s.now + Budget(u, chain)
    && LastWrite(u.cfg, t.log, key) == Some(Entry(h, t.now))
    && key in t.origins && t.origins[key] == Origin(0, chain)
  }

  lemma AttainDirect(u: Setup, s: State, h: VMHandle) returns (t: State)
    requires Initial(s)
    ensures Oldest(u, s, t, h, Direct)
  {
    var end := s.now + u.latency;
    var s1 := Do(u, s, Start(0, ListAll));
    var s2 := Do(u, s1, Reply(0, [h]));
    t := Do(u, s2, Resume(0, [end, end]));
    ReachSelf(u, s);
    Reach(u, s, s, Start(0, ListAll));
    Reach(u, s, s1, Reply(0, [h]));
    Reach(u, s, s2, Resume(0, [end, end]));
    SetsWrite(u.cfg, s.log, [h], [end, end], u.cfg.fold(h.name));
    MarkedAt(u.cfg, s.origins, [h], Origin(0, Direct), u.cfg.fold(h.name));
    assert t.calls == map[];
  }

  /** A call that holds `h` since the moment its chain allows, and nothing else going on. */
  ghost predicate OldestHeld(u: Setup, s: State, t: State, h: VMHandle, chain: Chain) {
    && Reaches(u, s, t) && Inv(u, t)
    && t.calls == map[0 := Holding(h, t.now, Origin(0, chain))]
    && t.reports == [Report(s.now, [h])] && t.now == s.now + Budget(u, chain)
  }

  lemma AttainListed(u: Setup, s: State, h: VMHandle) returns (t: State)
    requires Initial(s)
    ensures OldestHeld(u, s, t, h, Direct)
  {
    var end := s.now + u.latency;
    var s1 := Do(u, s, Start(0, Find(h.name)));
    assert s1.calls == map[0 := Asking(Find(h.name))];
    var s2 := Do(u, s1, Reply(0, [h]));
    t := Do(u, s2, Resume(0, [end, end]));
    ReachSelf(u, s);
    Reach(u, s, s, Start(0, Find(h.name)));
    Reach(u, s, s1, Reply(0, [h]));
    Reach(u, s, s2, Resume(0, [end, end]));
    assert FirstNamed([h], h.name) == [h];
  }

  /** Still live at the last moment of its lifetime. */
  lemma LiveAtEnd(u: Setup, s: State, t: State, h: VMHandle, chain: Chain)
    requires Oldest(u, s, t, h, chain) && u.cfg.ttlMs >= 0
    ensures Hit(u, t.(now := t.now + u.cfg.ttlMs), h.name) == Some(h)
    ensures Reaches(u, s, t.(now := t.now + u.cfg.ttlMs)) && Inv(u, t.(now := t.now + u.cfg.ttlMs))
  {
    Reach(u, s, t, Tick(t.now + u.cfg.ttlMs));
    EvictionUnobservable(u.cfg, t.log, h.name, t.now + u.cfg.ttlMs);
  }

  lemma AttainFound(u: Setup, s: State, t: State, h: VMHandle, chain: Chain) returns (t': State)
    requires Oldest(u, s, t, h, chain) && u.cfg.ttlMs >= 0
    ensures OldestHeld(u, s, t', h, GivenOut(chain))
  {
    LiveAtEnd(u, s, t, h, chain);
    var late := t.(now := t.now + u.cfg.ttlMs);
    Reach(u, s, late, Start(0, Find(h.name)));
    t' := Do(u, late, Start(0, Find(h.name)));
  }

  lemma AttainKept(u: Setup, s: State, t: State, h: VMHandle, chain: Chain) returns (t': State)
    requires OldestHeld(u, s, t, h, chain)
    ensures Oldest(u, s, t', h, Held(chain))
  {
    var late := t.(now := t.now + u.hold);
    Reach(u, s, t, Tick(t.now + u.hold));
    Reach(u, s, late, Keep(0));
    t' := Do(u, late, Keep(0));
    LastWriteSnoc(u.cfg, t.log, Set(h.name, h, late.now), u.cfg.fold(h.name));
    assert t'.calls == map[];
  }

  lemma {:induction false} Attain(u: Setup, s: State, h: VMHandle, chain: Chain) returns (t: State)
    requires Initial(s) && CachedChain(chain) && u.cfg.ttlMs >= 0
    ensures Oldest(u, s, t, h, chain)
    decreases chain
  {
    match chain
    case Direct =>
      t := AttainDirect(u, s, h);
    case Held(c) =>
      var held;
      if c == Direct {
        held := AttainListed(u, s, h);
      } else {
        var before := Attain(u, s, h, c.of);
        held := AttainFound(u, s, before, h, c.of);
      }
      t := AttainKept(u, s, held, h, c);
  }

  /** The run gives out a handle with this chain that is older than `bound`. */
  ghost predicate GivesOlder(u: Setup, s: State, moves: seq<Move>, a: Answer, chain: Chain, bound: int) {
    && Gives(u, s, moves, a) && a.origin.chain == GivenOut(chain)
    && a.origin.report < |Exec(u, s, moves).value.reports| && Age(Exec(u, s, moves).value.reports, a) > bound
  }

  /** Some run gives out a handle with this chain that is older than `bound`. */
  ghost predicate CanExceed(u: Setup, chain: Chain, bound: int) {
    exists s, moves, a :: GivesOlder(u, s, moves, a, chain, bound)
  }

  lemma GivesOldest(u: Setup, s: State, h: VMHandle, chain: Chain, bound: int) returns (moves: seq<Move>, a: Answer)
    requires Initial(s) && CachedChain(chain) && u.cfg.ttlMs >= 0 && bound < Budget(u, GivenOut(chain))
    ensures GivesOlder(u, s, moves, a, chain, bound)
  {
    var t := Attain(u, s, h, chain);
    LiveAtEnd(u, s, t, h, chain);
    var late := t.(now := t.now + u.cfg.ttlMs);
    Reach(u, s, late, Start(0, Resolve(h.name)));
    var end := Do(u, late, Start(0, Resolve(h.name)));
    moves :| Exec(u, s, moves) == Some(end);
    a := end.answers[|end.answers| - 1];
  }

  /** For everything a cached handle can have been through, its budget is the exact bound on the age at which it can be
      given out. */
  lemma AgeBoundExactly(u: Setup, chain: Chain, bound: int)
    requires CachedChain(chain) && u.cfg.ttlMs >= 0
    ensures CanExceed(u, chain, bound) <==>
            bound < u.latency + (Reuses(chain) + 1) * u.cfg.ttlMs + Holds(chain) * u.hold
  {
    BudgetSum(u, GivenOut(chain));
    if bound < Budget(u, GivenOut(chain)) {
      var s := State(0, [], map[], [], map[], []);
      var moves, a := GivesOldest(u, s, VMHandle("", ""), chain, bound);
    }
    forall s, moves, a | GivesOlder(u, s, moves, a, chain, bound)
      ensures bound < Budget(u, GivenOut(chain))
    {
      StalenessBound(u, s, moves, a);
    }
  }

  lemma PositiveProduct(a: nat, b: nat)
    ensures 0 <= a * b && (a * b > 0 <==> a > 0 && b > 0)
  {
    if a > 0 && b > 0 {
      assert a * b >= b;
    }
  }

  /** The lifetime and one latency bound the age exactly for handles that have not aged by being reused or held. */
  lemma LifetimeBoundExactly(u: Setup, chain: Chain)
    requires CachedChain(chain) && u.cfg.ttlMs >= 0
    ensures CanExceed(u, chain, u.cfg.ttlMs + u.latency) <==>
            (Reuses(chain) > 0 && u.cfg.ttlMs > 0) || (Holds(chain) > 0 && u.hold > 0)
  {
    AgeBoundExactly(u, chain, u.cfg.ttlMs + u.latency);
    assert (Reuses(chain) + 1) * u.cfg.ttlMs == Reuses(chain) * u.cfg.ttlMs + u.cfg.ttlMs;
    PositiveProduct(Reuses(chain), u.cfg.ttlMs);
    PositiveProduct(Holds(chain), u.hold);
  }

  /** `n` times found in the cache and cached again. */
  function Reused(n: nat): Chain {
    if n == 0 then Direct else Held(GivenOut(Reused(n - 1)))
  }

  lemma {:induction false} ReusedBudget(u: Setup, n: nat)
    requires u.cfg.ttlMs >= 0 && u.cfg.ttlMs + u.hold > 0
    ensures CachedChain(Reused(n)) && Budget(u, Reused(n)) >= n
  {
    if n > 0 {
      ReusedBudget(u, n - 1);
    }
  }

  /** Finding and caching a handle again and again keeps it alive for ever: no bound holds for all runs. */
  lemma KeptForEver(u: Setup, bound: nat)
    requires u.cfg.ttlMs >= 0 && u.cfg.ttlMs + u.hold > 0
    ensures CanExceed(u, Reused(bound + 1), bound)
  {
    ReusedBudget(u, bound + 1);
    BudgetSum(u, GivenOut(Reused(bound + 1)));
    AgeBoundExactly(u, Reused(bound + 1), bound);
  }
}
