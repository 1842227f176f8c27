/** Following a run's events from the command line: the event queue (host/src/output/envelope.ts), the status verb
    (host/src/verbs/status.ts) and the polling loop (host/src/cli.ts). */
module RunEvents {
  import opened Wrappers

  datatype Event = Event(seqNo: nat, kind: string)

  const EVENT_DRAIN_LIMIT: nat := 1000

  /** Events are numbered by their position. */
  ghost predicate Numbered(log: seq<Event>) {
    forall i :: 0 <= i < |log| ==> log[i].seqNo == i
  }

  function From(log: seq<Event>, since: nat): (r: seq<Event>) {
    if log == [] then [] else (if log[0].seqNo >= since then [log[0]] else []) + From(log[1..], since)
  }

  function Min(a: nat, b: nat): nat { if a <= b then a else b }

  /** `drain`: the events numbered `since` and up, at most `limit` of them. */
  function Drained(log: seq<Event>, since: nat, limit: nat): (r: seq<Event>) {
    From(log, since)[..Min(limit, |From(log, since)|)]
  }

  class EventQueue {
    var events: seq<Event>
    var nextSeq: nat

    ghost predicate Valid()
      reads this
    {
      Numbered(events) && nextSeq == |events|
    }

    constructor ()
      ensures Valid() && events == []
    {
      events, nextSeq := [], 0;
    }

    /** An event is numbered in order, unless it brings its own number. */
    method Push(kind: string, number: Option<nat>) returns (e: Event)
      modifies this
      ensures e == Event(if number.Some? then number.value else old(nextSeq), kind)
      ensures events == old(events) + [e] && nextSeq == old(nextSeq) + if number.Some? then 0 else 1
      ensures old(Valid()) && number.None? ==> Valid()
    {
      if number.Some? {
        e := Event(number.value, kind);
      } else {
        e := Event(nextSeq, kind);
        nextSeq := nextSeq + 1;
      }
      events := events + [e];
    }

    /** The events from number `since` on, and the cursor for the next call. */
    method Drain(since: nat, limit: nat) returns (slice: seq<Event>, next: nat)
      ensures slice == Drained(events, since, limit)
      ensures next == if slice == [] then since else slice[|slice| - 1].seqNo + 1
      ensures Valid() && since <= |events| ==> next == Min(since + limit, |events|) && slice == events[since..next]
    {
      var matching: seq<Event> := [];
      for i := 0 to |events|
        invariant matching == From(events[..i], since)
      {
        FromNext(events, i, since);
        if events[i].seqNo >= since {
          matching := matching + [events[i]];
        }
      }
      assert events[..|events|] == events;
      slice := matching[..Min(limit, |matching|)];
      next := if |slice| == 0 then since else slice[|slice| - 1].seqNo + 1;
      if Valid() && since <= |events| {
        DrainedSuffix(events, since, limit);
      }
    }
  }

  lemma {:induction false} FromConcat(a: seq<Event>, b: seq<Event>, since: nat)
    ensures From(a + b, since) == From(a, since) + From(b, since)
  {
    if a == [] {
      assert a + b == b;
    } else {
      var first := if a[0].seqNo >= since then [a[0]] else [];
      assert (a + b)[0] == a[0] && (a + b)[1..] == a[1..] + b;
      FromConcat(a[1..], b, since);
      assert first + (From(a[1..], since) + From(b, since)) == first + From(a[1..], since) + From(b, since);
    }
  }

  lemma FromNext(log: seq<Event>, i: nat, since: nat)
    requires i < |log|
    ensures From(log[..i + 1], since) == if log[i].seqNo >= since then From(log[..i], since) + [log[i]]
                                         else From(log[..i], since)
  {
    assert log[..i + 1] == log[..i] + [log[i]];
    FromConcat(log[..i], [log[i]], since);
    assert From([log[i]], since) == if log[i].seqNo >= since then [log[i]] else [];
  }

  lemma DrainedSuffix(log: seq<Event>, since: nat, limit: nat)
    requires Numbered(log) && since <= |log|
    ensures var slice, next := Drained(log, since, limit), Min(since + limit, |log|);
            slice == log[since..next] && (if slice == [] then since else slice[|slice| - 1].seqNo + 1) == next
  {
    FromNumbered(log, since);
  }

  lemma {:induction false} FromNumbered(log: seq<Event>, since: nat)
    requires Numbered(log) && since <= |log|
    ensures From(log, since) == log[since..]
  {
    if log != [] {
      var n := |log| - 1;
      assert log == log[..n] + [log[n]];
      FromConcat(log[..n], [log[n]], since);
      if since <= n {
        FromNumbered(log[..n], since);
        assert log[since..] == log[..n][since..] + [log[n]];
      } else {
        FromNumbered(log[..n], n);
        FromBelow(log[..n], since);
      }
    }
  }

  lemma {:induction false} FromBelow(log: seq<Event>, since: nat)
    requires forall i :: 0 <= i < |log| ==> log[i].seqNo < since
    ensures From(log, since) == []
  {
    if log != [] {
      FromBelow(log[1..], since);
    }
  }

  // ----- The polling loop -----

  /** What one status call sees: the events so far, and whether the envelope is there. */
  datatype Poll = Poll(log: seq<Event>, finished: bool)

  /** The log only grows from one poll to the next. */
  ghost predicate Schedule(polls: seq<Poll>) {
    && (forall k :: 0 <= k < |polls| ==> Numbered(polls[k].log))
    && (forall k :: 0 <= k < |polls| - 1 ==> polls[k].log <= polls[k + 1].log)
  }

  /** How many events have been printed after the first `k` polls. */
  function Printed(polls: seq<Poll>, k: nat): (n: nat)
    requires k <= |polls|
  {
    if k == 0 then 0 else Min(Printed(polls, k - 1) + EVENT_DRAIN_LIMIT, |polls[k - 1].log|)
  }

  lemma {:induction false} PrintedBound(polls: seq<Poll>, k: nat)
    requires k <= |polls| && Schedule(polls)
    ensures k > 0 ==> Printed(polls, k) <= |polls[k - 1].log|
    ensures k < |polls| ==> Printed(polls, k) <= |polls[k].log|
  {
    if k > 0 {
      PrintedBound(polls, k - 1);
      assert k < |polls| ==> polls[k - 1].log <= polls[k - 1 + 1].log;
    }
  }

  /** One turn of the loop: print what the status call returned and move the cursor past it. */
  method PrintNew(log: seq<Event>, printed: seq<Event>, since: nat) returns (printed': seq<Event>, since': nat)
    requires Numbered(log) && since <= |log| && printed == log[..since]
    ensures since' == Min(since + EVENT_DRAIN_LIMIT, |log|) && printed' == log[..since']
  {
    FromNumbered(log, since);
    var events := Drained(log, since, EVENT_DRAIN_LIMIT);
    printed', since' := printed, since;
    for i := 0 to |events|
      invariant since' == since + i && printed' == log[..since']
    {
      printed' := printed' + [events[i]];
      since' := events[i].seqNo + 1;
    }
  }

  /** The loop of `cmdRun` over the polls it makes; `at` is the poll that showed the envelope. */
  method Follow(polls: seq<Poll>) returns (printed: seq<Event>, at: nat)
    requires Schedule(polls)
    ensures at <= |polls| && forall k :: 0 <= k < at ==> !polls[k].finished
    ensures at < |polls| ==> polls[at].finished
    ensures at < |polls| ==>
              var n := Printed(polls, at + 1); n <= |polls[at].log| && printed == polls[at].log[..n]
  {
    var since: nat := 0;
    printed := [];
    at := 0;
    while at < |polls|
      invariant 0 <= at <= |polls| && forall k :: 0 <= k < at ==> !polls[k].finished
      invariant since == Printed(polls, at)
      invariant at < |polls| ==> since <= |polls[at].log| && printed == polls[at].log[..since]
    {
      PrintedBound(polls, at + 1);
      printed, since := PrintNew(polls[at].log, printed, since);
      if polls[at].finished {
        return;
      }
      at := at + 1;
      if at < |polls| {
        assert polls[at - 1].log <= polls[at - 1 + 1].log;
      }
    }
  }

  // ----- When nothing is lost -----

  /** `n` events can have been printed after `k` polls: they fit the limit of one poll after the other, counting from
      the start and from every poll that had shown fewer. */
  ghost predicate CouldPrint(polls: seq<Poll>, k: nat, n: int)
    requires k <= |polls|
  {
    && n <= EVENT_DRAIN_LIMIT * k
    && forall j :: 0 <= j < k ==> n <= |polls[j].log| + EVENT_DRAIN_LIMIT * (k - 1 - j)
  }

  lemma {:induction false} PrintedExactly(polls: seq<Poll>, k: nat, n: int)
    requires k <= |polls|
    ensures n <= Printed(polls, k) <==> CouldPrint(polls, k, n)
  {
    if k > 0 {
      PrintedExactly(polls, k - 1, n - EVENT_DRAIN_LIMIT);
      if CouldPrint(polls, k, n) {
        assert n <= |polls[k - 1].log|;
        forall j | 0 <= j < k - 1
          ensures n - EVENT_DRAIN_LIMIT <= |polls[j].log| + EVENT_DRAIN_LIMIT * (k - 2 - j)
        {
          assert n <= |polls[j].log| + EVENT_DRAIN_LIMIT * (k - 1 - j);
        }
        assert CouldPrint(polls, k - 1, n - EVENT_DRAIN_LIMIT);
      }
      if CouldPrint(polls, k - 1, n - EVENT_DRAIN_LIMIT) && n <= |polls[k - 1].log| {
        forall j | 0 <= j < k
          ensures n <= |polls[j].log| + EVENT_DRAIN_LIMIT * (k - 1 - j)
        {
          if j < k - 1 {
            assert n - EVENT_DRAIN_LIMIT <= |polls[j].log| + EVENT_DRAIN_LIMIT * (k - 2 - j);
          }
        }
      }
    }
  }

  /** When the envelope is reported, every event has been printed, once and in order, exactly when the log never got
      more than a drain limit per poll ahead. */
  lemma CompleteExactly(polls: seq<Poll>, at: nat)
    requires Schedule(polls) && at < |polls|
    ensures polls[at].log[..Printed(polls, at + 1)] == polls[at].log <==>
            && |polls[at].log| <= EVENT_DRAIN_LIMIT * (at + 1)
            && forall j :: 0 <= j < at ==> |polls[at].log| - |polls[j].log| <= EVENT_DRAIN_LIMIT * (at - j)
  {
    var n := |polls[at].log|;
    PrintedBound(polls, at + 1);
    PrintedExactly(polls, at + 1, n);
    if forall j :: 0 <= j < at ==> n - |polls[j].log| <= EVENT_DRAIN_LIMIT * (at - j) {
      forall j | 0 <= j < at + 1
        ensures n <= |polls[j].log| + EVENT_DRAIN_LIMIT * (at - j)
      {
        if j < at {
          assert n - |polls[j].log| <= EVENT_DRAIN_LIMIT * (at - j);
        }
      }
    }
  }

  /** The failing family: a run already finished at its first poll loses whatever exceeds the limit. */
  lemma BacklogLost(log: seq<Event>)
    requires Numbered(log) && |log| > 1000
    ensures Schedule([Poll(log, true)])
    ensures log[..Printed([Poll(log, true)], 1)] == log[..1000] != log
  {
    var polls := [Poll(log, true)];
    assert Printed(polls, 1) == Min(Printed(polls, 0) + EVENT_DRAIN_LIMIT, |polls[0].log|);
    assert |log[..EVENT_DRAIN_LIMIT]| != |log|;
  }
}
