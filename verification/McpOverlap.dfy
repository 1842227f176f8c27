/** The registry's MCP session (registry/src/mcp.ts) with calls that overlap at their awaits. */
module McpOverlap {
  import opened Wrappers
  import opened McpSession

  datatype State = State(session: Session, world: World, serving: map<nat, nat>, stopping: map<nat, Session>)

  /** `serve` awaits the server's start, `stop` awaits its close; in between other calls may run. */
  datatype Move = ServeBegin(call: nat) | ServeEnd(call: nat, starts: bool) | StopBegin(call: nat)
                | StopEnd(call: nat, closes: bool) | EnsureNow

  predicate Enabled(st: State, m: Move) {
    match m
    case ServeBegin(c) => c !in st.serving
    case ServeEnd(c, _) => c in st.serving
    case StopBegin(c) => c !in st.stopping
    case StopEnd(c, _) => c in st.stopping
    case EnsureNow => true
  }

  function Do(st: State, m: Move): State
    requires Enabled(st, m)
  {
    match m
    case ServeBegin(c) =>
      if Running(st.session) then st
      else st.(serving := st.serving[c := StorageFor(st.session, st.world)], world := OpenStorage(st.session, st.world))
    case ServeEnd(c, starts) =>
      var serving, servers := st.serving - {c}, st.world.servers;
      var world := st.world.(servers := servers + 1);
      if starts then State(Session(st.serving[c], Some(servers)), world, serving, st.stopping)
      else st.(serving := serving)
    case StopBegin(c) =>
      if Running(st.session) then
        st.(stopping := st.stopping[c := st.session], world := CloseServer(st.world, st.session))
      else st.(session := NoSession, world := CloseStorage(st.world, st.session))
    case StopEnd(c, closes) =>
      var stopping := st.stopping - {c};
      if closes then State(NoSession, CloseStorage(st.world, st.stopping[c]), st.serving, stopping)
      else st.(stopping := stopping)
    case EnsureNow =>
      var (s, w) := Perform(st.session, st.world, Ensure);
      st.(session := s, world := w)
  }

  function Exec(st: State, moves: seq<Move>): Option<State>
    decreases |moves|
  {
    if moves == [] then Some(st)
    else if !Enabled(st, moves[0]) then None
    else Exec(Do(st, moves[0]), moves[1..])
  }

  /** A call whose two parts follow each other is the undisturbed call. */
  lemma UndisturbedCalls(st: State, c: nat, starts: bool, closes: bool)
    requires c !in st.serving && c !in st.stopping
    ensures var (s, w) := Perform(st.session, st.world, Serve(starts));
            if Running(st.session) then Do(st, ServeBegin(c)) == st.(session := s, world := w)
            else Do(Do(st, ServeBegin(c)), ServeEnd(c, starts)) == st.(session := s, world := w)
    ensures var (s, w) := Perform(st.session, st.world, Stop(closes));
            if !Running(st.session) then Do(st, StopBegin(c)) == st.(session := s, world := w)
            else Do(Do(st, StopBegin(c)), StopEnd(c, closes)) == st.(session := s, world := w)
    ensures var (s, w) := Perform(st.session, st.world, Ensure);
            Enabled(st, EnsureNow) && Do(st, EnsureNow) == st.(session := s, world := w)
  {
    assert st.serving[c := StorageFor(st.session, st.world)] - {c} == st.serving;
    assert st.stopping[c := st.session] - {c} == st.stopping;
  }

  /** A server that was started, that the session does not hold, and on which `close` was not called. */
  ghost predicate Forgotten(st: State, server: nat) {
    server < st.world.servers && !HoldsServer(st.session, server) && st.world.closedServers[server] == 0
  }

  lemma {:induction false} ForgottenForever(st: State, moves: seq<Move>, server: nat)
    requires Forgotten(st, server) && Exec(st, moves).Some?
    ensures Forgotten(Exec(st, moves).value, server)
    decreases |moves|
  {
    if moves != [] {
      ForgottenForever(Do(st, moves[0]), moves[1..], server);
    }
  }

  /** Whether `bad` happens at some step of the run. */
  ghost predicate SomeStep(st: State, moves: seq<Move>, bad: (State, Move) -> bool)
    decreases |moves|
  {
    moves != [] && Enabled(st, moves[0]) && (bad(st, moves[0]) || SomeStep(Do(st, moves[0]), moves[1..], bad))
  }

  predicate Opened(s: Session, w: World) {
    s.Session? ==> s.storage < w.storages && (s.server.Some? ==> s.server.value < w.servers)
  }

  /** What the session and the calls in flight refer to was opened. */
  ghost predicate CallsOpened(st: State) {
    && Opened(st.session, st.world)
    && (forall c :: c in st.serving ==> st.serving[c] < st.world.storages)
    && (forall c :: c in st.stopping ==> Running(st.stopping[c]) && Opened(st.stopping[c], st.world))
  }

  /** Only what was opened was closed. */
  ghost predicate Valid(st: State) { CallsOpened(st) && InRange(st.session, st.world) }

  lemma MoveKeepsOpened(st: State, m: Move)
    requires CallsOpened(st) && Enabled(st, m)
    ensures CallsOpened(Do(st, m))
  {
  }

  lemma CloseKeepsRange(w: World, closing: Session)
    requires InRange(NoSession, w) && Opened(closing, w)
    ensures InRange(NoSession, CloseServer(w, closing)) && InRange(NoSession, CloseStorage(w, closing))
  {
  }

  lemma MoveKeepsValid(st: State, m: Move)
    requires Valid(st) && Enabled(st, m)
    ensures Valid(Do(st, m))
  {
    MoveKeepsOpened(st, m);
    if m.StopBegin? {
      CloseKeepsRange(st.world, st.session);
    } else if m.StopEnd? {
      CloseKeepsRange(st.world, st.stopping[m.call]);
    }
  }

  /** Every step keeps a good state good except the bad ones, which spoil it for good. */
  ghost predicate SpoiledBy(good: State -> bool, bad: (State, Move) -> bool) {
    forall st, m :: Valid(st) && Enabled(st, m) ==> (good(Do(st, m)) <==> good(st) && !bad(st, m))
  }

  lemma {:induction false} SpoiledExactly(
    st: State, moves: seq<Move>, good: State -> bool, bad: (State, Move) -> bool)
    requires SpoiledBy(good, bad) && Valid(st) && Exec(st, moves).Some?
    ensures good(Exec(st, moves).value) <==> good(st) && !SomeStep(st, moves, bad)
    decreases |moves|
  {
    if moves != [] {
      var t := Do(st, moves[0]);
      MoveKeepsValid(st, moves[0]);
      SpoiledExactly(t, moves[1..], good, bad);
      assert good(t) <==> good(st) && !bad(st, moves[0]);
    }
  }

  // ----- Servers nobody can close any more -----

  ghost predicate NoneForgotten(st: State) { forall i :: 0 <= i < st.world.servers ==> !Forgotten(st, i) }

  /** The session lets go of a server that was not closed: another start takes its place, or the `stop` of another
      server ends. */
  ghost predicate Forgets(st: State, m: Move) {
    && ((m.StopEnd? && m.closes) || (m.ServeEnd? && m.starts))
    && Running(st.session) && st.world.closedServers[st.session.server.value] == 0
  }

  lemma ForgetsStep(st: State, m: Move)
    requires Valid(st) && Enabled(st, m)
    ensures NoneForgotten(Do(st, m)) <==> NoneForgotten(st) && !Forgets(st, m)
  {
    var t := Do(st, m);
    if !NoneForgotten(st) {
      var i :| 0 <= i < st.world.servers && Forgotten(st, i);
      assert Forgotten(t, i);
    } else if Forgets(st, m) {
      assert Forgotten(t, st.session.server.value);
    } else {
      forall i | 0 <= i < t.world.servers
        ensures !Forgotten(t, i)
      {
        assert i < st.world.servers ==> !Forgotten(st, i);
      }
    }
  }

  // ----- Storages nobody can close any more -----

  ghost predicate CallRefers(serving: map<nat, nat>, stopping: map<nat, Session>, i: nat) {
    (exists c :: c in serving && serving[c] == i) || (exists c :: c in stopping && HoldsStorage(stopping[c], i))
  }

  ghost predicate Lost(st: State, i: nat) {
    && i < st.world.storages && st.world.closedStorages[i] == 0
    && !HoldsStorage(st.session, i) && !CallRefers(st.serving, st.stopping, i)
  }

  ghost predicate NoneLost(st: State) { forall i :: 0 <= i < st.world.storages ==> !Lost(st, i) }

  /** The last reference to an open storage goes: the session's, when a start or the end of a `stop` replaces it, or
      that of a call whose start or close fails. */
  ghost predicate Loses(st: State, m: Move) {
    Enabled(st, m) &&
    match m
    case ServeEnd(c, starts) =>
      if starts then
        && st.session.Session? && st.world.closedStorages[st.session.storage] == 0
        && !CallRefers(st.serving, st.stopping, st.session.storage)
      else
        && st.world.closedStorages[st.serving[c]] == 0 && !HoldsStorage(st.session, st.serving[c])
        && !CallRefers(st.serving - {c}, st.stopping, st.serving[c])
    case StopEnd(c, closes) =>
      if closes then
        && st.session.Session? && st.world.closedStorages[st.session.storage] == 0
        && !HoldsStorage(st.stopping[c], st.session.storage)
        && !CallRefers(st.serving, st.stopping - {c}, st.session.storage)
      else
        && st.stopping[c].Session? && st.world.closedStorages[st.stopping[c].storage] == 0
        && !HoldsStorage(st.session, st.stopping[c].storage)
        && !CallRefers(st.serving, st.stopping - {c}, st.stopping[c].storage)
    case _ => false
  }

  lemma LostStays(st: State, m: Move, i: nat)
    requires Valid(st) && Enabled(st, m) && Lost(st, i)
    ensures Lost(Do(st, m), i)
  {
  }

  lemma LosesStep(st: State, m: Move)
    requires Valid(st) && Enabled(st, m)
    ensures NoneLost(Do(st, m)) <==> NoneLost(st) && !Loses(st, m)
  {
    var t := Do(st, m);
    if !NoneLost(st) {
      var i :| 0 <= i < st.world.storages && Lost(st, i);
      LostStays(st, m, i);
    } else if Loses(st, m) {
      var i := if m.ServeEnd? && !m.starts then st.serving[m.call]
      else if m.StopEnd? && !m.closes then st.stopping[m.call].storage else st.session.storage;
      assert Lost(t, i);
    } else {
      forall i | 0 <= i < t.world.storages
        ensures !Lost(t, i)
      {
        NotLost(st, m, i);
      }
    }
  }

  lemma NotLost(st: State, m: Move, i: nat)
    requires Valid(st) && Enabled(st, m) && NoneLost(st) && !Loses(st, m)
    ensures !Lost(Do(st, m), i)
  {
    var t := Do(st, m);
    if i < st.world.storages {
      assert !Lost(st, i);
    }
    match m
    case ServeBegin(c) =>
      assert t.serving != st.serving ==> t.serving[c] == StorageFor(st.session, st.world);
      if exists d :: d in st.serving && st.serving[d] == i {
        var d :| d in st.serving && st.serving[d] == i;
        assert d in t.serving && t.serving[d] == i;
      }
    case StopBegin(c) =>
      if exists d :: d in st.stopping && HoldsStorage(st.stopping[d], i) {
        var d :| d in st.stopping && HoldsStorage(st.stopping[d], i);
        assert d in t.stopping && t.stopping[d] == st.stopping[d];
      }
    case ServeEnd(c, starts) =>
      if exists d :: d in st.serving && d != c && st.serving[d] == i {
        var d :| d in st.serving && d != c && st.serving[d] == i;
        assert d in t.serving && t.serving[d] == i;
      }
    case StopEnd(c, closes) =>
      if exists d :: d in st.stopping && d != c && HoldsStorage(st.stopping[d], i) {
        var d :| d in st.stopping && d != c && HoldsStorage(st.stopping[d], i);
        assert d in t.stopping && t.stopping[d] == st.stopping[d];
      }
    case EnsureNow =>
  }

  // ----- Closing twice -----

  ghost predicate Once(closed: multiset<nat>) { forall i: nat :: closed[i] <= 1 }

  lemma OnceMore(closed: multiset<nat>, i: nat)
    ensures Once(closed + multiset{i}) <==> Once(closed) && closed[i] == 0
  {
    var after := closed + multiset{i};
    assert after[i] == closed[i] + 1;
    assert forall j: nat :: j != i ==> after[j] == closed[j];
  }

  ghost predicate NoneClosedTwice(st: State) { Once(st.world.closedServers) && Once(st.world.closedStorages) }

  /** `close` is called again on a server or a storage. */
  ghost predicate ClosesAgain(st: State, m: Move) {
    Enabled(st, m) &&
    match m
    case StopBegin(_) =>
      if Running(st.session) then st.world.closedServers[st.session.server.value] > 0
      else st.session.Session? && st.world.closedStorages[st.session.storage] > 0
    case StopEnd(c, closes) => closes && st.stopping[c].Session? && st.world.closedStorages[st.stopping[c].storage] > 0
    case _ => false
  }

  lemma ClosesAgainStep(st: State, m: Move)
    requires Valid(st) && Enabled(st, m)
    ensures NoneClosedTwice(Do(st, m)) <==> NoneClosedTwice(st) && !ClosesAgain(st, m)
  {
    if m.StopEnd? && m.closes {
      OnceMore(st.world.closedStorages, st.stopping[m.call].storage);
    } else if m.StopBegin? && st.session.Session? {
      if Running(st.session) {
        OnceMore(st.world.closedServers, st.session.server.value);
      } else {
        OnceMore(st.world.closedStorages, st.session.storage);
      }
    }
  }

  // ----- A session on something closed -----

  /** The session refers to a server or a storage on which `close` was called. */
  ghost predicate HoldsClosed(st: State) {
    && st.session.Session?
    && (st.world.closedStorages[st.session.storage] > 0 ||
        (Running(st.session) && st.world.closedServers[st.session.server.value] > 0))
  }

  /** What a step says of that, if it says anything: a start puts its storage in the session even if a `stop` has closed
      it meanwhile, a `stop` closes the server before it lets go of it, and any other change leaves a session on
      something open or none. */
  ghost function Verdict(st: State, m: Move): Option<bool>
    requires Enabled(st, m)
  {
    match m
    case ServeBegin(_) => None
    case ServeEnd(c, starts) => if starts then Some(st.world.closedStorages[st.serving[c]] > 0) else None
    case StopBegin(_) => Some(Running(st.session))
    case StopEnd(_, closes) => if closes then Some(false) else None
    case EnsureNow => if st.session.Session? then None else Some(false)
  }

  lemma VerdictStep(st: State, m: Move)
    requires Valid(st) && Enabled(st, m)
    ensures HoldsClosed(Do(st, m)) == if Verdict(st, m).Some? then Verdict(st, m).value else HoldsClosed(st)
  {
  }

  /** The last verdict of the run, or `before` if no step gives one. */
  ghost function LastVerdict(st: State, moves: seq<Move>, before: bool): bool
    requires Exec(st, moves).Some?
    decreases |moves|
  {
    if moves == [] then before
    else
      var v := Verdict(st, moves[0]);
      LastVerdict(Do(st, moves[0]), moves[1..], if v.Some? then v.value else before)
  }

  /** However the calls overlap, the session ends up on something closed exactly when the last step to say so does. */
  lemma {:induction false} HoldsClosedExactly(st: State, moves: seq<Move>)
    requires Valid(st) && Exec(st, moves).Some?
    ensures HoldsClosed(Exec(st, moves).value) == LastVerdict(st, moves, HoldsClosed(st))
    decreases |moves|
  {
    if moves != [] {
      VerdictStep(st, moves[0]);
      MoveKeepsValid(st, moves[0]);
      HoldsClosedExactly(Do(st, moves[0]), moves[1..]);
    }
  }

  /** A `stop` while a `serve` awaits its start leaves a running server on a closed storage, with nothing leaked and
      nothing closed twice. */
  lemma ServesClosedStorage(st: State, c: nat, d: nat)
    requires Valid(st) && Tidy(st) && c !in st.serving && d !in st.stopping
    requires st.session.Session? && !Running(st.session) && st.world.closedStorages[st.session.storage] == 0
    ensures var end := Do(Do(Do(st, ServeBegin(c)), StopBegin(d)), ServeEnd(c, true));
            Running(end.session) && HoldsClosed(end) && Tidy(end)
  {
    var s1 := Do(st, ServeBegin(c));
    var s2 := Do(s1, StopBegin(d));
    MoveKeepsValid(st, ServeBegin(c));
    MoveKeepsValid(s1, StopBegin(d));
    ForgetsStep(st, ServeBegin(c));
    ForgetsStep(s1, StopBegin(d));
    ForgetsStep(s2, ServeEnd(c, true));
    LosesStep(st, ServeBegin(c));
    LosesStep(s1, StopBegin(d));
    LosesStep(s2, ServeEnd(c, true));
    ClosesAgainStep(st, ServeBegin(c));
    ClosesAgainStep(s1, StopBegin(d));
    ClosesAgainStep(s2, ServeEnd(c, true));
    assert s2.world.closedStorages[st.session.storage] > 0;
  }

  // ----- Exactly when a run with overlapping calls goes wrong -----

  /** No server runs that nobody can close, no storage is open that nobody can close, and nothing was closed twice. */
  ghost predicate Tidy(st: State) { NoneForgotten(st) && NoneLost(st) && NoneClosedTwice(st) }

  /** However the calls overlap, a run leaves everything tidy exactly when no step of it forgets a server, loses a
      storage or closes something again. */
  lemma OverlappingRunsTidy(st: State, moves: seq<Move>)
    requires Valid(st) && Tidy(st) && Exec(st, moves).Some?
    ensures NoneForgotten(Exec(st, moves).value) <==> !SomeStep(st, moves, (s, m) => Forgets(s, m))
    ensures NoneLost(Exec(st, moves).value) <==> !SomeStep(st, moves, (s, m) => Loses(s, m))
    ensures NoneClosedTwice(Exec(st, moves).value) <==> !SomeStep(st, moves, (s, m) => ClosesAgain(s, m))
  {
    forall s, m | Valid(s) && Enabled(s, m)
      ensures NoneForgotten(Do(s, m)) <==> NoneForgotten(s) && !Forgets(s, m)
      ensures NoneLost(Do(s, m)) <==> NoneLost(s) && !Loses(s, m)
      ensures NoneClosedTwice(Do(s, m)) <==> NoneClosedTwice(s) && !ClosesAgain(s, m)
    {
      ForgetsStep(s, m);
      LosesStep(s, m);
      ClosesAgainStep(s, m);
    }
    SpoiledExactly(st, moves, s => NoneForgotten(s), (s, m) => Forgets(s, m));
    SpoiledExactly(st, moves, s => NoneLost(s), (s, m) => Loses(s, m));
    SpoiledExactly(st, moves, s => NoneClosedTwice(s), (s, m) => ClosesAgain(s, m));
  }

  /** Two overlapping `serve` calls on a session without a server start two servers, and the first is never closed,
      whatever follows. */
  lemma OverlappingServesLeak(st: State, c: nat, d: nat, moves: seq<Move>)
    requires !Running(st.session) && c != d && c !in st.serving && d !in st.serving
    requires InRange(st.session, st.world)
    ensures var run := [ServeBegin(c), ServeBegin(d), ServeEnd(c, true), ServeEnd(d, true)] + moves;
            Exec(st, run).Some? ==> Forgotten(Exec(st, run).value, st.world.servers)
  {
    var s1 := Do(st, ServeBegin(c));
    var s2 := Do(s1, ServeBegin(d));
    var s3 := Do(s2, ServeEnd(c, true));
    var s4 := Do(s3, ServeEnd(d, true));
    var run := [ServeBegin(c), ServeBegin(d), ServeEnd(c, true), ServeEnd(d, true)] + moves;
    assert run[1..][1..][1..][1..] == moves;
    assert run[1..][0] == ServeBegin(d) && run[1..][1..][0] == ServeEnd(c, true);
    assert run[1..][1..][1..][0] == ServeEnd(d, true);
    assert Exec(st, run) == Exec(s1, run[1..]) == Exec(s2, run[1..][1..]) == Exec(s3, run[1..][1..][1..])
        == Exec(s4, moves);
    assert st.world.servers !in st.world.closedServers;
    assert Forgotten(s4, st.world.servers);
    if Exec(s4, moves).Some? {
      ForgottenForever(s4, moves, st.world.servers);
    }
  }

  /** Two overlapping `stop` calls call `close` on the same server twice. If both calls succeed the storage is closed
      twice as well; if the second fails it is closed once, and either way the session is gone. */
  lemma OverlappingStopsCloseTwice(st: State, c: nat, d: nat, closes: bool)
    requires Clean(st.session, st.world) && Running(st.session) && c != d && c !in st.stopping && d !in st.stopping
    ensures var two := Do(Do(st, StopBegin(c)), StopBegin(d));
            var end := Do(Do(two, StopEnd(c, true)), StopEnd(d, closes));
            && end.session == NoSession && end.world.closedServers[st.session.server.value] == 2
            && end.world.closedStorages[st.session.storage] == if closes then 2 else 1
  {
    var one := Do(st, StopBegin(c));
    var two := Do(one, StopBegin(d));
    assert two.stopping[c] == two.stopping[d] == st.session;
  }
}
