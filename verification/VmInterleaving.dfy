/** Every interleaving of the users of the shared handle cache: `resolveVM` (host/src/vm-cache.ts), the `vm_list` and
    `vm_create` tools (host/src/tools/vm-lifecycle.ts), and provisioning, which looks a machine up and later caches what
    it found (host/src/provisioning/provision.ts, bootstrap-win11.ts). A call is split at its awaits. */
module VmInterleaving {
  import opened Wrappers
  import opened HandleCache
  import opened VmResolve

  /** What the backend told one call, and when: its listing, or the one machine it created. */
  datatype Report = Report(at: int, vms: seq<VMHandle>)

  /** What a handle has been through since it was reported: given out by the cache, held by a call that cached it. */
  datatype Chain = Direct | GivenOut(of: Chain) | Held(of: Chain)

  datatype Origin = Origin(report: nat, chain: Chain)

  datatype Kind = Resolve(name: string) | Find(name: string) | ListAll | Create

  /** A call awaiting the backend, one the backend has answered but that has not resumed, and one that has found a
      handle it may cache. */
  datatype Call =
    | Asking(kind: Kind)
    | Told(kind: Kind, report: nat)
    | Holding(handle: VMHandle, since: int, origin: Origin)

  /** A handle the cache gave out. */
  datatype Answer = Answer(name: string, handle: VMHandle, at: int, origin: Origin)

  datatype State = State(
    now: int,
    log: seq<Op>,
    origins: map<string, Origin>,
    reports: seq<Report>,
    calls: map<nat, Call>,
    answers: seq<Answer>)

  datatype Move =
    | Tick(t: int)
    | Start(call: nat, kind: Kind)
    | Reply(call: nat, vms: seq<VMHandle>)
    | Resume(call: nat, times: seq<int>)
    | Keep(call: nat)
    | Drop(call: nat)
    | Invalidate(name: string)
    | InvalidateAll

  /** A call resumes at most `latency` after the backend answered; it caches what it found at most `hold` later. */
  datatype Setup = Setup(cfg: Config, latency: nat, hold: nat)

  ghost predicate Enabled(u: Setup, s: State, m: Move) {
    match m
    case Tick(t) => s.now <= t
    case Start(c, _) => c !in s.calls
    case Reply(c, vms) => c in s.calls && s.calls[c].Asking? && (s.calls[c].kind.Create? ==> |vms| == 1)
    case Resume(c, times) =>
      && c in s.calls && s.calls[c].Told? && s.calls[c].report < |s.reports|
      && var r := s.reports[s.calls[c].report];
      |times| == |r.vms| + 1 && Rising(s.now, times) && times[|r.vms|] - r.at <= u.latency
    case Keep(c) => c in s.calls && s.calls[c].Holding? && s.now - s.calls[c].since <= u.hold
    case Drop(c) => c in s.calls
    case Invalidate(_) => true
    case InvalidateAll => true
  }

  /** `vms.find((vm) => vm.name === name)`, as a sequence of at most one. */
  function FirstNamed(vms: seq<VMHandle>, name: string): seq<VMHandle> {
    if vms == [] then [] else if vms[0].name == name then [vms[0]] else FirstNamed(vms[1..], name)
  }

  lemma {:induction false} FirstNamedIn(vms: seq<VMHandle>, name: string)
    ensures FirstNamed(vms, name) != [] ==>
              var h := FirstNamed(vms, name)[0]; FirstNamed(vms, name) == [h] && h in vms && h.name == name
  {
    if vms != [] {
      FirstNamedIn(vms[1..], name);
    }
  }

  /** The machines a call of this kind may cache once it has been told of `vms`. */
  function Usable(kind: Kind, vms: seq<VMHandle>): seq<VMHandle> {
    if kind.Find? then FirstNamed(vms, kind.name) else vms
  }

  function OriginOf(s: State, key: string): Origin {
    if key in s.origins then s.origins[key] else Origin(0, Direct)
  }

  function Given(o: Origin): Origin { o.(chain := GivenOut(o.chain)) }

  ghost function Hit(u: Setup, s: State, name: string): Option<VMHandle> {
    Found(u.cfg, Run(u.cfg, s.log), name, s.now)
  }

  /** A lookup by name; the cache's answer, if it has one, is recorded. */
  ghost function Lookup(u: Setup, s: State, name: string): State {
    var found := Hit(u, s, name);
    var looked := s.(log := s.log + [Look(name, s.now)]);
    if found.None? then looked
    else looked.(answers := s.answers + [Answer(name, found.value, s.now, Given(OriginOf(s, u.cfg.fold(name))))])
  }

  function Marked(cfg: Config, origins: map<string, Origin>, vms: seq<VMHandle>, o: Origin): (r: map<string, Origin>) {
    if vms == [] then origins
    else Marked(cfg, origins, vms[..|vms| - 1], o)[cfg.fold(vms[|vms| - 1].name) := o]
  }

  ghost function StartCall(u: Setup, s: State, c: nat, kind: Kind): State {
    match kind
    case ListAll => s.(calls := s.calls[c := Asking(kind)])
    case Create => s.(calls := s.calls[c := Asking(kind)])
    case Resolve(name) =>
      var t := Lookup(u, s, name);
      if Hit(u, s, name).Some? then t else t.(calls := s.calls[c := Asking(kind)])
    case Find(name) =>
      var t, found := Lookup(u, s, name), Hit(u, s, name);
      if found.None? then t.(calls := s.calls[c := Asking(kind)])
      else t.(calls := s.calls[c := Holding(found.value, s.now, Given(OriginOf(s, u.cfg.fold(name))))])
  }

  /** The machines of report `l` cached in order at `times`. */
  ghost function Filled(u: Setup, s: State, c: nat, l: nat, times: seq<int>): State
    requires l < |s.reports| && |times| == |s.reports[l].vms| + 1
  {
    var vms := s.reports[l].vms;
    var origins := Marked(u.cfg, s.origins, vms, Origin(l, Direct));
    State(times[|vms|], s.log + SetsAt(vms, times), origins, s.reports, s.calls - {c}, s.answers)
  }

  ghost function ResumeCall(u: Setup, s: State, c: nat, times: seq<int>): State
    requires Enabled(u, s, Resume(c, times))
  {
    var kind, l := s.calls[c].kind, s.calls[c].report;
    match kind
    case ListAll => Filled(u, s, c, l, times)
    case Create => Filled(u, s, c, l, times)
    case Resolve(name) => Lookup(u, Filled(u, s, c, l, times), name)
    case Find(name) =>
      var end, hs := times[|times| - 1], FirstNamed(s.reports[l].vms, name);
      var calls := if hs == [] then s.calls - {c} else s.calls[c := Holding(hs[0], end, Origin(l, Direct))];
      s.(now := end, calls := calls)
  }

  ghost function KeepCall(u: Setup, s: State, c: nat): State
    requires Enabled(u, s, Keep(c))
  {
    var h, o := s.calls[c].handle, s.calls[c].origin;
    var origins := s.origins[u.cfg.fold(h.name) := o.(chain := Held(o.chain))];
    State(s.now, s.log + [Set(h.name, h, s.now)], origins, s.reports, s.calls - {c}, s.answers)
  }

  ghost function Do(u: Setup, s: State, m: Move): State
    requires Enabled(u, s, m)
  {
    match m
    case Tick(t) => s.(now := t)
    case Start(c, kind) => StartCall(u, s, c, kind)
    case Reply(c, vms) =>
      s.(reports := s.reports + [Report(s.now, vms)], calls := s.calls[c := Told(s.calls[c].kind, |s.reports|)])
    case Resume(c, times) => ResumeCall(u, s, c, times)
    case Keep(c) => KeepCall(u, s, c)
    case Drop(c) => s.(calls := s.calls - {c})
    case Invalidate(name) => s.(log := s.log + [Delete(name)])
    case InvalidateAll => s.(log := s.log + [Clear])
  }

  /** The state after `moves`, if each is enabled in its turn. */
  ghost function Exec(u: Setup, s: State, moves: seq<Move>): Option<State>
    decreases |moves|
  {
    if moves == [] then Some(s)
    else if !Enabled(u, s, moves[0]) then None
    else Exec(u, Do(u, s, moves[0]), moves[1..])
  }

  ghost predicate Initial(s: State) {
    s.log == [] && s.origins == map[] && s.reports == [] && s.calls == map[] && s.answers == []
  }

  // ----- How old a handle can be -----

  /** The most a handle can have aged since it was reported. */
  function Budget(u: Setup, chain: Chain): int {
    match chain
    case Direct => u.latency
    case GivenOut(c) => Budget(u, c) + u.cfg.ttlMs
    case Held(c) => Budget(u, c) + u.hold
  }

  /** What an entry can have been through: reported, and then any number of times given out and held. */
  predicate CachedChain(chain: Chain) {
    match chain
    case Direct => true
    case GivenOut(_) => false
    case Held(c) => FoundChain(c)
  }

  predicate FoundChain(chain: Chain) {
    match chain
    case Direct => true
    case GivenOut(c) => CachedChain(c)
    case Held(_) => false
  }

  /** At time `t`, `h` is a handle its report has, and no older than its chain allows. */
  ghost predicate Aged(u: Setup, reports: seq<Report>, o: Origin, h: VMHandle, t: int) {
    && o.report < |reports| && h in reports[o.report].vms
    && reports[o.report].at <= t <= reports[o.report].at + Budget(u, o.chain)
  }

  ghost predicate EntryOk(u: Setup, s: State, key: string) {
    var e := LastWrite(u.cfg, s.log, key);
    e.Some? ==>
      && u.cfg.fold(e.value.handle.name) == key && key in s.origins && CachedChain(s.origins[key].chain)
      && Aged(u, s.reports, s.origins[key], e.value.handle, e.value.insertedAt)
  }

  ghost predicate CallOk(u: Setup, s: State, call: Call) {
    match call
    case Asking(_) => true
    case Told(_, l) => l < |s.reports|
    case Holding(h, since, o) => since <= s.now && FoundChain(o.chain) && Aged(u, s.reports, o, h, since)
  }

  ghost predicate AnswerOk(u: Setup, s: State, a: Answer) {
    && u.cfg.fold(a.handle.name) == u.cfg.fold(a.name) && a.origin.chain.GivenOut? && FoundChain(a.origin.chain)
    && Aged(u, s.reports, a.origin, a.handle, a.at)
  }

  ghost predicate Inv(u: Setup, s: State) {
    && ClockRuns(s.log, s.now)
    && (forall l :: 0 <= l < |s.reports| ==> s.reports[l].at <= s.now)
    && (forall key :: EntryOk(u, s, key))
    && (forall c :: c in s.calls ==> CallOk(u, s, s.calls[c]))
    && (forall k :: 0 <= k < |s.answers| ==> AnswerOk(u, s, s.answers[k]))
  }

  lemma HitAged(u: Setup, s: State, name: string)
    requires Inv(u, s) && Hit(u, s, name).Some?
    ensures var key, h := u.cfg.fold(name), Hit(u, s, name).value;
            && key in s.origins && u.cfg.fold(h.name) == key && CachedChain(s.origins[key].chain)
            && Aged(u, s.reports, Given(s.origins[key]), h, s.now)
            && LastWrite(u.cfg, s.log, key).Some? && LastWrite(u.cfg, s.log, key).value.handle == h
  {
    EvictionUnobservable(u.cfg, s.log, name, s.now);
    assert EntryOk(u, s, u.cfg.fold(name));
    EntryNotLater(u.cfg, s.log, u.cfg.fold(name), s.now);
  }

  lemma {:induction false} EntryNotLater(cfg: Config, log: seq<Op>, key: string, now: int)
    requires ClockRuns(log, now)
    ensures LastWrite(cfg, log, key).Some? ==> LastWrite(cfg, log, key).value.insertedAt <= now
  {
    if log != [] {
      var before, op := log[..|log| - 1], log[|log| - 1];
      assert forall i :: 0 <= i < |before| ==> before[i] == log[i];
      assert Timed(op) ==> op.at <= now;
      EntryNotLater(cfg, before, key, now);
    }
  }

  lemma LookupKeepsInv(u: Setup, s: State, name: string)
    requires Inv(u, s)
    ensures Inv(u, Lookup(u, s, name))
  {
    var t := Lookup(u, s, name);
    forall key
      ensures EntryOk(u, t, key)
    {
      assert EntryOk(u, s, key);
      LastWriteSnoc(u.cfg, s.log, Look(name, s.now), key);
    }
    if Hit(u, s, name).Some? {
      HitAged(u, s, name);
    }
  }

  lemma {:induction false} MarkedAt(
    cfg: Config, origins: map<string, Origin>, vms: seq<VMHandle>, o: Origin, key: string)
    ensures var r := Marked(cfg, origins, vms, o);
            if LastAt(cfg, vms, key).Some? then key in r && r[key] == o
            else (key in r <==> key in origins) && (key in r ==> r[key] == origins[key])
  {
    if vms != [] {
      MarkedAt(cfg, origins, vms[..|vms| - 1], o, key);
    }
  }

  lemma FilledEntry(u: Setup, s: State, c: nat, l: nat, times: seq<int>, key: string)
    requires Inv(u, s) && l < |s.reports|
    requires var r := s.reports[l];
             |times| == |r.vms| + 1 && Rising(s.now, times) && times[|r.vms|] - r.at <= u.latency
    ensures EntryOk(u, Filled(u, s, c, l, times), key)
  {
    var vms := s.reports[l].vms;
    assert EntryOk(u, s, key);
    SetsWrite(u.cfg, s.log, vms, times, key);
    MarkedAt(u.cfg, s.origins, vms, Origin(l, Direct), key);
  }

  lemma FilledKeepsInv(u: Setup, s: State, c: nat, l: nat, times: seq<int>)
    requires Inv(u, s) && l < |s.reports|
    requires var r := s.reports[l];
             |times| == |r.vms| + 1 && Rising(s.now, times) && times[|r.vms|] - r.at <= u.latency
    ensures Inv(u, Filled(u, s, c, l, times))
  {
    SetsKeepClock(s.log, s.now, s.reports[l].vms, times);
    var t := Filled(u, s, c, l, times);
    assert times[|s.reports[l].vms|] >= s.now;
    forall key
      ensures EntryOk(u, t, key)
    {
      FilledEntry(u, s, c, l, times, key);
    }
  }

  /** The invariant speaks of the calls one by one. */
  lemma CallsKeepInv(u: Setup, s: State, t: State)
    requires Inv(u, s) && t == s.(calls := t.calls)
    requires forall c :: c in t.calls ==> CallOk(u, s, t.calls[c])
    ensures Inv(u, t)
  {
    forall key
      ensures EntryOk(u, t, key)
    {
      assert EntryOk(u, s, key);
    }
  }

  lemma TickKeepsInv(u: Setup, s: State, t: int)
    requires Inv(u, s) && s.now <= t
    ensures Inv(u, s.(now := t))
  {
    forall key
      ensures EntryOk(u, s.(now := t), key)
    {
      assert EntryOk(u, s, key);
    }
  }

  lemma StartKeepsInv(u: Setup, s: State, c: nat, kind: Kind)
    requires Inv(u, s) && c !in s.calls
    ensures Inv(u, StartCall(u, s, c, kind))
  {
    if kind.Resolve? || kind.Find? {
      var t := Lookup(u, s, kind.name);
      LookupKeepsInv(u, s, kind.name);
      if Hit(u, s, kind.name).Some? {
        HitAged(u, s, kind.name);
      }
      CallsKeepInv(u, t, StartCall(u, s, c, kind));
    } else {
      CallsKeepInv(u, s, StartCall(u, s, c, kind));
    }
  }

  lemma ReplyKeepsInv(u: Setup, s: State, c: nat, vms: seq<VMHandle>)
    requires Inv(u, s) && Enabled(u, s, Reply(c, vms))
    ensures Inv(u, Do(u, s, Reply(c, vms)))
  {
    var t := s.(reports := s.reports + [Report(s.now, vms)]);
    forall key
      ensures EntryOk(u, t, key)
    {
      assert EntryOk(u, s, key);
    }
    forall c' | c' in s.calls
      ensures CallOk(u, t, s.calls[c'])
    {
      assert CallOk(u, s, s.calls[c']);
    }
    CallsKeepInv(u, t, Do(u, s, Reply(c, vms)));
  }

  lemma ResumeKeepsInv(u: Setup, s: State, c: nat, times: seq<int>)
    requires Inv(u, s) && Enabled(u, s, Resume(c, times))
    ensures Inv(u, ResumeCall(u, s, c, times))
  {
    var kind, l := s.calls[c].kind, s.calls[c].report;
    var end := times[|times| - 1];
    if kind.Find? {
      assert s.now <= end && s.reports[l].at <= s.now;
      FirstNamedIn(s.reports[l].vms, kind.name);
      TickKeepsInv(u, s, end);
      CallsKeepInv(u, s.(now := end), ResumeCall(u, s, c, times));
    } else {
      FilledKeepsInv(u, s, c, l, times);
      if kind.Resolve? {
        LookupKeepsInv(u, Filled(u, s, c, l, times), kind.name);
      }
    }
  }

  lemma KeepKeepsInv(u: Setup, s: State, c: nat)
    requires Inv(u, s) && Enabled(u, s, Keep(c))
    ensures Inv(u, KeepCall(u, s, c))
  {
    var t, h := KeepCall(u, s, c), s.calls[c].handle;
    assert CallOk(u, s, s.calls[c]);
    forall key
      ensures EntryOk(u, t, key)
    {
      assert EntryOk(u, s, key);
      LastWriteSnoc(u.cfg, s.log, Set(h.name, h, s.now), key);
    }
  }

  lemma ForgetKeepsInv(u: Setup, s: State, op: Op)
    requires Inv(u, s) && (op.Delete? || op.Clear?)
    ensures Inv(u, s.(log := s.log + [op]))
  {
    forall key
      ensures EntryOk(u, s.(log := s.log + [op]), key)
    {
      assert EntryOk(u, s, key);
      LastWriteSnoc(u.cfg, s.log, op, key);
    }
  }

  lemma MoveKeepsInv(u: Setup, s: State, m: Move)
    requires Inv(u, s) && Enabled(u, s, m)
    ensures Inv(u, Do(u, s, m))
  {
    match m
    case Tick(t) => TickKeepsInv(u, s, t);
    case Start(c, kind) => StartKeepsInv(u, s, c, kind);
    case Reply(c, vms) => ReplyKeepsInv(u, s, c, vms);
    case Resume(c, times) => ResumeKeepsInv(u, s, c, times);
    case Keep(c) => KeepKeepsInv(u, s, c);
    case Drop(c) => CallsKeepInv(u, s, Do(u, s, m));
    case Invalidate(name) => ForgetKeepsInv(u, s, Delete(name));
    case InvalidateAll => ForgetKeepsInv(u, s, Clear);
  }

  lemma {:induction false} ExecKeepsInv(u: Setup, s: State, moves: seq<Move>)
    requires Inv(u, s) && Exec(u, s, moves).Some?
    ensures Inv(u, Exec(u, s, moves).value)
    decreases |moves|
  {
    if moves != [] {
      MoveKeepsInv(u, s, moves[0]);
      ExecKeepsInv(u, Do(u, s, moves[0]), moves[1..]);
    }
  }

  lemma InitialInv(u: Setup, s: State)
    requires Initial(s)
    ensures Inv(u, s)
  {
  }

  /** The run gives out `a`, from empty. */
  ghost predicate Gives(u: Setup, s: State, moves: seq<Move>, a: Answer) {
    Initial(s) && Exec(u, s, moves).Some? && a in Exec(u, s, moves).value.answers
  }

  function Age(reports: seq<Report>, a: Answer): int
    requires a.origin.report < |reports|
  {
    a.at - reports[a.origin.report].at
  }

  /** In every run, every handle the cache gives out was in its report under the name asked for, and is no older than
      what it has been through allows. */
  lemma StalenessBound(u: Setup, s: State, moves: seq<Move>, a: Answer)
    requires Gives(u, s, moves, a)
    ensures var reports := Exec(u, s, moves).value.reports;
            && u.cfg.fold(a.handle.name) == u.cfg.fold(a.name)
            && a.origin.chain.GivenOut? && CachedChain(a.origin.chain.of)
            && a.origin.report < |reports| && a.handle in reports[a.origin.report].vms
            && 0 <= Age(reports, a) <= Budget(u, a.origin.chain)
  {
    InitialInv(u, s);
    ExecKeepsInv(u, s, moves);
    var t := Exec(u, s, moves).value;
    var k :| 0 <= k < |t.answers| && t.answers[k] == a;
  }
}
