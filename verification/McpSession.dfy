/** The registry's MCP session (registry/src/mcp.ts): the storages and servers it opens and closes. */
module McpSession {
  import opened Wrappers

  /** The `session` field. Storages and servers are numbered in the order they are opened. */
  datatype Session = NoSession | Session(storage: nat, server: Option<nat>)

  /** How many storages and servers were ever opened, and which `close` calls were made on them,
      whether they succeeded or not. */
  datatype World = World(storages: nat, servers: nat, closedStorages: multiset<nat>, closedServers: multiset<nat>)

  /** Calls that run undisturbed; `starts` says whether the server comes up, `closes` whether closing it succeeds. */
  datatype Op = Serve(starts: bool) | Stop(closes: bool) | Ensure

  predicate Running(s: Session) { s.Session? && s.server.Some? }

  /** The storage a call works with: the session's, or a new one. */
  function StorageFor(s: Session, w: World): nat { if s.Session? then s.storage else w.storages }

  function OpenStorage(s: Session, w: World): World { if s.Session? then w else w.(storages := w.storages + 1) }

  function CloseServer(w: World, s: Session): World {
    if Running(s) then w.(closedServers := w.closedServers + multiset{s.server.value}) else w
  }

  function CloseStorage(w: World, s: Session): World {
    if s.Session? then w.(closedStorages := w.closedStorages + multiset{s.storage}) else w
  }

  function Perform(s: Session, w: World, op: Op): (Session, World) {
    match op
    case Serve(starts) =>
      if Running(s) then (s, w)
      else if starts then
        (Session(StorageFor(s, w), Some(w.servers)), OpenStorage(s, w).(servers := w.servers + 1))
      else (s, OpenStorage(s, w))
    case Stop(closes) =>
      if s.NoSession? then (s, w)
      else if Running(s) && !closes then (s, CloseServer(w, s))
      else (NoSession, CloseStorage(CloseServer(w, s), s))
    case Ensure => if s.Session? then (s, w) else (Session(w.storages, None), OpenStorage(s, w))
  }

  class RegistryMcpSession {
    var session: Session
    var world: World

    constructor ()
      ensures session == NoSession && world == World(0, 0, multiset{}, multiset{})
    {
      session, world := NoSession, World(0, 0, multiset{}, multiset{});
    }

    /** `serve`: the handle, and whether it was already running. */
    method Serve(starts: bool) returns (handle: Option<nat>, alreadyRunning: bool)
      modifies this
      ensures (session, world) == Perform(old(session), old(world), Op.Serve(starts))
      ensures alreadyRunning == Running(old(session))
      ensures alreadyRunning || starts ==> Running(session) && handle == session.server
      ensures !alreadyRunning && !starts ==> handle == None
    {
      if session.Session? && session.server.Some? {
        return session.server, true;
      }
      var storage;
      if session.Session? {
        storage := session.storage;
      } else {
        storage := world.storages;
        world := world.(storages := world.storages + 1);
      }
      handle, alreadyRunning := None, false;
      if starts {
        handle := Some(world.servers);
        world := world.(servers := world.servers + 1);
        session := Session(storage, handle);
      }
    }

    method Status() returns (running: bool, server: Option<nat>)
      ensures running == Running(session) && server == if running then session.server else None
    {
      if session.NoSession? || session.server.None? {
        return false, None;
      }
      return true, session.server;
    }

    /** `stop`: whether it closed a session, or nothing if it throws because the server's `close` failed. */
    method Stop(closes: bool) returns (closed: Option<bool>)
      modifies this
      ensures (session, world) == Perform(old(session), old(world), Op.Stop(closes))
      ensures closed == if Running(old(session)) && !closes then None else Some(old(session).Session?)
    {
      if session.NoSession? {
        return Some(false);
      }
      if session.server.Some? {
        world := world.(closedServers := world.closedServers + multiset{session.server.value});
        if !closes {
          return None;
        }
      }
      world := world.(closedStorages := world.closedStorages + multiset{session.storage});
      session := NoSession;
      closed := Some(true);
    }

    method EnsureStorage() returns (storage: nat)
      modifies this
      ensures (session, world) == Perform(old(session), old(world), Ensure)
      ensures session.Session? && session.storage == storage
    {
      if session.NoSession? {
        session := Session(world.storages, None);
        world := world.(storages := world.storages + 1);
      }
      storage := session.storage;
    }
  }

  // ----- Calls one after the other -----

  predicate HoldsStorage(s: Session, i: nat) { s.Session? && s.storage == i }

  predicate HoldsServer(s: Session, i: nat) { s.Session? && s.server == Some(i) }

  /** Every storage and server ever opened is either held by the session and not closed, or was closed exactly once. */
  ghost predicate Clean(s: Session, w: World) {
    && (forall i :: 0 <= i < w.storages ==> w.closedStorages[i] == if HoldsStorage(s, i) then 0 else 1)
    && (forall i :: 0 <= i < w.servers ==> w.closedServers[i] == if HoldsServer(s, i) then 0 else 1)
    && InRange(s, w)
  }

  ghost predicate InRange(s: Session, w: World) {
    && (s.Session? ==> s.storage < w.storages && (s.server.Some? ==> s.server.value < w.servers))
    && (forall i :: i in w.closedStorages ==> i < w.storages)
    && (forall i :: i in w.closedServers ==> i < w.servers)
  }

  /** A storage that is open and that nobody holds. */
  ghost predicate Leaked(s: Session, w: World, i: nat) {
    i < w.storages && !HoldsStorage(s, i) && w.closedStorages[i] == 0
  }

  /** A server on which `close` was called while the session still holds it, or more than once. */
  ghost predicate Overclosed(s: Session, w: World, i: nat) {
    i < w.servers && w.closedServers[i] > if HoldsServer(s, i) then 0 else 1
  }

  /** A server start fails while there is no session, or closing the session's server fails. */
  predicate Spoils(s: Session, op: Op) { (op == Serve(false) && s.NoSession?) || (op == Stop(false) && Running(s)) }

  lemma PerformInRange(s: Session, w: World, op: Op)
    requires InRange(s, w)
    ensures InRange(Perform(s, w, op).0, Perform(s, w, op).1)
  {
  }

  lemma StopClean(s: Session, w: World, closes: bool)
    requires Clean(s, w) && !Spoils(s, Stop(closes))
    ensures Clean(Perform(s, w, Stop(closes)).0, Perform(s, w, Stop(closes)).1)
  {
  }

  lemma OpenClean(s: Session, w: World, op: Op)
    requires Clean(s, w) && !op.Stop? && !Spoils(s, op)
    ensures Clean(Perform(s, w, op).0, Perform(s, w, op).1)
  {
    assert w.storages !in w.closedStorages && w.servers !in w.closedServers;
  }

  lemma PerformClean(s: Session, w: World, op: Op)
    requires Clean(s, w) && !Spoils(s, op)
    ensures Clean(Perform(s, w, op).0, Perform(s, w, op).1)
  {
    if op.Stop? {
      StopClean(s, w, op.closes);
    } else {
      OpenClean(s, w, op);
    }
  }

  function Performed(s: Session, w: World, ops: seq<Op>): (Session, World)
    decreases |ops|
  {
    if ops == [] then (s, w) else
    var (s', w') := Perform(s, w, ops[0]);
    Performed(s', w', ops[1..])
  }

  predicate SomeSpoils(s: Session, w: World, ops: seq<Op>)
    decreases |ops|
  {
    ops != [] &&
    (Spoils(s, ops[0]) ||
     var (s', w') := Perform(s, w, ops[0]);
     SomeSpoils(s', w', ops[1..]))
  }

  lemma {:induction false} LeakStays(s: Session, w: World, ops: seq<Op>, i: nat)
    requires InRange(s, w) && Leaked(s, w, i)
    ensures Leaked(Performed(s, w, ops).0, Performed(s, w, ops).1, i)
    decreases |ops|
  {
    if ops != [] {
      var (s', w') := Perform(s, w, ops[0]);
      PerformInRange(s, w, ops[0]);
      LeakStays(s', w', ops[1..], i);
    }
  }

  lemma {:induction false} OverclosedStays(s: Session, w: World, ops: seq<Op>, i: nat)
    requires Overclosed(s, w, i)
    ensures Overclosed(Performed(s, w, ops).0, Performed(s, w, ops).1, i)
    decreases |ops|
  {
    if ops != [] {
      var (s', w') := Perform(s, w, ops[0]);
      OverclosedStays(s', w', ops[1..], i);
    }
  }

  /** In a run of calls that do not overlap, everything opened is held or closed exactly once (so at most one storage
      and one server are open) exactly when no server start failed without a session and no server failed to close. */
  lemma {:induction false} SerialRunsClean(s: Session, w: World, ops: seq<Op>)
    requires Clean(s, w)
    ensures Clean(Performed(s, w, ops).0, Performed(s, w, ops).1) <==> !SomeSpoils(s, w, ops)
    decreases |ops|
  {
    if ops != [] {
      var (s', w') := Perform(s, w, ops[0]);
      if !Spoils(s, ops[0]) {
        PerformClean(s, w, ops[0]);
        SerialRunsClean(s', w', ops[1..]);
      } else if ops[0].Stop? {
        OverclosedStays(s', w', ops[1..], s.server.value);
      } else {
        assert w.storages !in w.closedStorages;
        assert Leaked(s', w', w.storages);
        PerformInRange(s, w, ops[0]);
        LeakStays(s', w', ops[1..], w.storages);
      }
    }
  }
}
