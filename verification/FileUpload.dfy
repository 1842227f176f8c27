/** Copying a file to a guest in chunks: the guest's writes (guest/src/file_ops.rs), the client's retries
    (host/src/guest/client.ts) and the host's loop over them (host/src/scenarios/orchestrator.ts). */
module FileUpload {
  import opened Wrappers
  import opened Sequences
  import opened Utf
  import opened FileTransfer

  /** What a `write_file` handler did to the file: opened it, truncating it or not, and wrote these bytes. An unanswered
      one may have been cut off, or have outlived the call that made it. */
  datatype Write = Write(append: bool, bytes: Bytes, answered: bool)

  function Apply(content: Bytes, w: Write): Bytes { (if w.append then content else []) + w.bytes }

  function Replay(content: Bytes, ws: seq<Write>): Bytes {
    if ws == [] then content else Apply(Replay(content, ws[..|ws| - 1]), ws[|ws| - 1])
  }

  lemma {:induction false} ReplayConcat(content: Bytes, a: seq<Write>, b: seq<Write>)
    ensures Replay(content, a + b) == Replay(Replay(content, a), b)
  {
    if b == [] {
      assert a + b == a;
    } else {
      var n := |b| - 1;
      ReplayConcat(content, a, b[..n]);
      assert (a + b)[..|a + b| - 1] == a + b[..n];
    }
  }

  class GuestFile {
    var content: Bytes

    constructor (content: Bytes)
      ensures this.content == content
    {
      this.content := content;
    }

    /** `file_ops::write_file` on a path that passes validation */
    method WriteFile(data: Bytes, append: bool) returns (written: nat)
      modifies this
      ensures content == Apply(old(content), Write(append, data, true)) && written == |data|
    {
      if append {
        content := content + data;
      } else {
        content := [] + data;
      }
      written := |data|;
    }

    /** Handlers of earlier attempts, or of this one, that nobody hears of. */
    method Unheard(ws: seq<Write>)
      modifies this
      ensures content == Replay(old(content), ws)
    {
      for i := 0 to |ws|
        invariant content == Replay(old(content), ws[..i])
      {
        assert ws[..i + 1][..i] == ws[..i];
        content := (if ws[i].append then content else []) + ws[i].bytes;
      }
      assert ws[..|ws|] == ws;
    }
  }

  // ----- One retried call -----

  datatype Ending = Answered | Transient | Fatal

  /** One attempt at a write RPC. First `others` take place, which earlier attempts left behind; then this one's handler
      writes all, if it is answered, or as much as it says, if it reaches the file at all. */
  datatype Attempt = Attempt(others: seq<Write>, wrote: Option<nat>, ending: Ending)

  predicate Unanswered(ws: seq<Write>) { forall w :: w in ws ==> !w.answered }

  /** The attempts a call may use, `maxRetries + 1` of them, as each would go. */
  type Attempts = a: seq<Attempt> | |a| > 0 && forall i :: 0 <= i < |a| ==> Unanswered(a[i].others)
    witness [Attempt([], None, Answered)]

  function Own(a: Attempt, data: Bytes, append: bool): seq<Write> {
    if a.ending.Answered? then [Write(append, data, true)]
    else if a.wrote.None? then []
    else [Write(append, data[..Min(a.wrote.value, |data|)], false)]
  }

  predicate Retries(a: Attempts) { a[0].ending.Transient? && |a| > 1 }

  predicate Succeeds(a: Attempts)
    decreases |a|
  {
    a[0].ending.Answered? || (Retries(a) && Succeeds(a[1..]))
  }

  /** Everything the guest does during the call, in the order it takes effect. */
  function History(a: Attempts, data: Bytes, append: bool): seq<Write>
    decreases |a|
  {
    a[0].others + Own(a[0], data, append) + if Retries(a) then History(a[1..], data, append) else []
  }

  /** `withRetry` around the `writeFile` RPC */
  method WriteWithRetry(file: GuestFile, data: Bytes, append: bool, a: Attempts) returns (ok: bool)
    modifies file
    ensures ok == Succeeds(a) && file.content == Replay(old(file.content), History(a, data, append))
  {
    ghost var done: seq<Write> := [];
    for attempt := 0 to |a|
      invariant attempt < |a| && Succeeds(a) == Succeeds(a[attempt..])
      invariant History(a, data, append) == done + History(a[attempt..], data, append)
      invariant file.content == Replay(old(file.content), done)
    {
      var now := a[attempt];
      HistoryStep(done, a, attempt, data, append);
      file.Unheard(now.others);
      ReplayConcat(old(file.content), done, now.others);
      ReplayConcat(old(file.content), done + now.others, Own(now, data, append));
      done := done + now.others + Own(now, data, append);
      if now.ending.Answered? {
        var _ := file.WriteFile(data, append);
        return true;
      }
      file.Unheard(Own(now, data, append));
      if !(attempt < |a| - 1 && now.ending.Transient?) {
        return false;
      }
    }
  }

  lemma HistoryStep(done: seq<Write>, a: Attempts, i: nat, data: Bytes, append: bool)
    requires i < |a|
    ensures var next := done + a[i].others + Own(a[i], data, append);
            if Retries(a[i..]) then
              done + History(a[i..], data, append) == next + History(a[i + 1..], data, append)
            else done + History(a[i..], data, append) == next
  {
    var others, own := a[i].others, Own(a[i], data, append);
    if Retries(a[i..]) {
      assert a[i..][1..] == a[i + 1..];
      var rest := History(a[i + 1..], data, append);
      assert done + (others + own + rest) == done + others + own + rest;
    } else {
      assert done + (others + own + []) == done + others + own;
    }
  }

  // ----- The whole transfer -----

  /** Everything the guest does while the chunks are sent: the first replaces what was there, the others are added. */
  function Everything(chunks: seq<Bytes>, runs: nat -> Attempts): seq<Write> {
    if chunks == [] then []
    else
      var n := |chunks| - 1;
      Everything(chunks[..n], runs) + History(runs(n), chunks[n], n > 0)
  }

  /** What of it comes after the first chunk. */
  function Later(chunks: seq<Bytes>, runs: nat -> Attempts): seq<Write> {
    if |chunks| <= 1 then []
    else
      var n := |chunks| - 1;
      Later(chunks[..n], runs) + History(runs(n), chunks[n], true)
  }

  lemma OnlyFirst(chunks: seq<Bytes>, runs: nat -> Attempts)
    requires |chunks| == 1
    ensures Everything(chunks, runs) == History(runs(0), chunks[0], false)
  {
    assert chunks[..0] == [];
    assert Everything(chunks, runs) == [] + History(runs(0), chunks[0], false);
  }

  lemma {:induction false} FirstThenLater(chunks: seq<Bytes>, runs: nat -> Attempts)
    requires chunks != []
    ensures Everything(chunks, runs) == History(runs(0), chunks[0], false) + Later(chunks, runs)
    decreases |chunks|
  {
    var n := |chunks| - 1;
    if n == 0 {
      OnlyFirst(chunks, runs);
    } else {
      var sent := chunks[..n];
      FirstThenLater(sent, runs);
      Extended(History(runs(0), sent[0], false), Later(sent, runs), Everything(sent, runs),
               History(runs(n), chunks[n], true));
    }
  }

  lemma EverythingSnoc(chunks: seq<Bytes>, data: Bytes, runs: nat -> Attempts)
    ensures Everything(chunks + [data], runs) ==
            Everything(chunks, runs) + History(runs(|chunks|), data, chunks != [])
  {
    assert (chunks + [data])[..|chunks|] == chunks;
  }

  ghost predicate AllSucceed(count: nat, runs: nat -> Attempts) {
    forall i :: 0 <= i < count ==> Succeeds(runs(i))
  }

  lemma AllSucceedNext(count: nat, runs: nat -> Attempts)
    requires AllSucceed(count, runs)
    ensures AllSucceed(count + 1, runs) <==> Succeeds(runs(count))
  {
  }

  ghost predicate AppendsNonempty(chunks: seq<Bytes>) {
    forall i :: 1 <= i < |chunks| ==> chunks[i] != []
  }

  /** Sends one more chunk: `chunks` are those sent so far. */
  method SendChunk(file: GuestFile, chunks: seq<Bytes>, data: Bytes, runs: nat -> Attempts, ghost before: Bytes)
    returns (sent: bool)
    requires file.content == Replay(before, Everything(chunks, runs)) && AllSucceed(|chunks|, runs)
    modifies file
    ensures file.content == Replay(before, Everything(chunks + [data], runs))
    ensures sent <==> AllSucceed(|chunks + [data]|, runs)
  {
    AllSucceedNext(|chunks|, runs);
    EverythingSnoc(chunks, data, runs);
    ReplayConcat(before, Everything(chunks, runs), History(runs(|chunks|), data, chunks != []));
    sent := WriteWithRetry(file, data, chunks != [], runs(|chunks|));
  }

  /** `chunks` are the file up to `offset`, cut into chunks, none empty but perhaps the first. */
  ghost predicate Cut(host: Bytes, offset: nat, chunks: seq<Bytes>, chunkBytes: nat) {
    && offset <= |host| && Concat(chunks) == host[..offset] && AppendsNonempty(chunks)
    && forall i :: 0 <= i < |chunks| ==> |chunks[i]| <= chunkBytes
  }

  lemma CutMore(host: Bytes, offset: nat, chunks: seq<Bytes>, chunkBytes: nat, n: nat)
    requires Cut(host, offset, chunks, chunkBytes) && offset + n <= |host| && n <= chunkBytes
    requires chunks != [] ==> n > 0
    ensures Cut(host, offset + n, chunks + [host[offset..offset + n]], chunkBytes)
  {
    var data := host[offset..offset + n];
    assert (chunks + [data])[..|chunks|] == chunks;
    assert host[..offset] + data == host[..offset + n];
  }

  /** `copyFileToGuest`, the chunked loop; `chunks` are what the reads of the host's file gave. */
  method CopyFileToGuest(host: Bytes, file: GuestFile, chunkBytes: nat, runs: nat -> Attempts)
    returns (ok: bool, chunks: seq<Bytes>)
    requires chunkBytes > 0
    modifies file
    ensures file.content == Replay(old(file.content), Everything(chunks, runs))
    ensures chunks != [] && Cut(host, |Concat(chunks)|, chunks, chunkBytes)
    ensures ok <==> AllSucceed(|chunks|, runs)
    ensures ok ==> Concat(chunks) == host
  {
    ghost var before := file.content;
    chunks := [];
    var offset := 0;
    while true
      invariant Cut(host, offset, chunks, chunkBytes) && AllSucceed(|chunks|, runs)
      invariant chunks == [] <==> offset == 0
      invariant file.content == Replay(before, Everything(chunks, runs))
      decreases |host| - offset
    {
      var bytesRead := ReadSome(host, offset, chunkBytes);
      if bytesRead == 0 && chunks != [] {
        break;
      }
      var data := host[offset..offset + bytesRead];
      CutMore(host, offset, chunks, chunkBytes, bytesRead);
      var sent := SendChunk(file, chunks, data, runs, before);
      chunks := chunks + [data];
      if !sent {
        return false, chunks;
      }
      if bytesRead == 0 {
        break;
      }
      offset := offset + bytesRead;
    }
    ok := true;
    assert host[..offset] == host;
  }

  // ----- When the copy is the file -----

  function AnsweredBytes(ws: seq<Write>): Bytes {
    if ws == [] then []
    else
      var n := |ws| - 1;
      AnsweredBytes(ws[..n]) + if ws[n].answered then ws[n].bytes else []
  }

  lemma {:induction false} AnsweredConcat(a: seq<Write>, b: seq<Write>)
    ensures AnsweredBytes(a + b) == AnsweredBytes(a) + AnsweredBytes(b)
  {
    if b == [] {
      assert a + b == a;
    } else {
      var n := |b| - 1;
      var last := if b[n].answered then b[n].bytes else [];
      AnsweredConcat(a, b[..n]);
      assert (a + b)[..|a + b| - 1] == a + b[..n];
      Assoc(AnsweredBytes(a), AnsweredBytes(b[..n]), last);
    }
  }

  lemma {:induction false} UnansweredBytes(ws: seq<Write>)
    requires Unanswered(ws)
    ensures AnsweredBytes(ws) == []
  {
    if ws != [] {
      assert ws[|ws| - 1] in ws;
      UnansweredBytes(ws[..|ws| - 1]);
    }
  }

  /** A call that succeeds ends with its one answered write. */
  lemma {:induction false} HistoryAnswered(a: Attempts, data: Bytes, append: bool) returns (lost: seq<Write>)
    requires Succeeds(a)
    ensures Unanswered(lost) && History(a, data, append) == lost + [Write(append, data, true)]
    decreases |a|
  {
    var others, own := a[0].others, Own(a[0], data, append);
    if a[0].ending.Answered? {
      lost := others;
      assert others + own + [] == others + own;
    } else {
      var rest := HistoryAnswered(a[1..], data, append);
      lost := others + own + rest;
      Assoc(others + own, rest, [Write(append, data, true)]);
    }
  }

  lemma HistoryBytes(a: Attempts, data: Bytes, append: bool)
    requires Succeeds(a)
    ensures AnsweredBytes(History(a, data, append)) == data
  {
    var lost := HistoryAnswered(a, data, append);
    var last := [Write(append, data, true)];
    AnsweredConcat(lost, last);
    UnansweredBytes(lost);
    assert last[..0] == [];
    assert [] + ([] + data) == data;
  }

  lemma LaterBytes(chunks: seq<Bytes>, runs: nat -> Attempts)
    requires |chunks| > 1 && Succeeds(runs(|chunks| - 1))
    ensures var n := |chunks| - 1;
            AnsweredBytes(Later(chunks, runs)) == AnsweredBytes(Later(chunks[..n], runs)) + chunks[n]
  {
    var n := |chunks| - 1;
    AnsweredConcat(Later(chunks[..n], runs), History(runs(n), chunks[n], true));
    HistoryBytes(runs(n), chunks[n], true);
  }

  lemma {:induction false} LaterAnswered(chunks: seq<Bytes>, runs: nat -> Attempts)
    requires chunks != [] && AllSucceed(|chunks|, runs)
    ensures chunks[0] + AnsweredBytes(Later(chunks, runs)) == Concat(chunks)
    decreases |chunks|
  {
    var n := |chunks| - 1;
    if n == 0 {
      assert chunks[..0] == [];
      assert chunks[0] + [] == chunks[0] == [] + chunks[0];
    } else {
      var sent := chunks[..n];
      LaterAnswered(sent, runs);
      LaterBytes(chunks, runs);
      Extended(sent[0], AnsweredBytes(Later(sent, runs)), Concat(sent), chunks[n]);
    }
  }

  /** No write but the answered ones appends anything. */
  predicate NothingAppendedUnheard(ws: seq<Write>) {
    forall w :: w in ws && w.append && !w.answered ==> w.bytes == []
  }

  predicate NoTruncation(ws: seq<Write>) { forall w :: w in ws ==> w.append }

  /** Without truncation a run only grows the file, by the answered bytes exactly when nothing else was appended. */
  lemma {:induction false} Grown(content: Bytes, ws: seq<Write>)
    requires NoTruncation(ws)
    ensures |Replay(content, ws)| >= |content| + |AnsweredBytes(ws)|
    ensures NothingAppendedUnheard(ws) ==> Replay(content, ws) == content + AnsweredBytes(ws)
    ensures !NothingAppendedUnheard(ws) ==> |Replay(content, ws)| > |content| + |AnsweredBytes(ws)|
  {
    if ws == [] {
      assert content + [] == content;
    } else {
      var n := |ws| - 1;
      var front, w := ws[..n], ws[n];
      assert w in ws && ws == front + [w];
      Grown(content, front);
      assert NothingAppendedUnheard(ws) <==> NothingAppendedUnheard(front) && (w.answered || w.bytes == []);
      if w.answered {
        Assoc(content, AnsweredBytes(front), w.bytes);
      } else if w.bytes == [] {
        assert Replay(content, front) + [] == Replay(content, front);
        assert AnsweredBytes(front) + [] == AnsweredBytes(front);
      }
    }
  }

  /** The last truncating write, if there is one. */
  function LastTruncation(ws: seq<Write>): (r: Option<nat>)
    ensures r.None? ==> NoTruncation(ws)
    ensures r.Some? ==> r.value < |ws| && !ws[r.value].append && NoTruncation(ws[r.value + 1..])
  {
    if ws == [] then None
    else
      var r := LastTruncation(ws[1..]);
      assert ws == [ws[0]] + ws[1..];
      if r.Some? then
        assert ws[1..][r.value + 1..] == ws[r.value + 2..];
        Some(r.value + 1)
      else if ws[0].append then None
      else Some(0)
  }

  /** A handler of the first write that comes late does no harm if it is complete and no other chunk was written before
      it. */
  predicate LateHarmless(ws: seq<Write>, first: Bytes) {
    match LastTruncation(ws)
    case None => true
    case Some(p) => ws[p].bytes == first && Unanswered(ws[..p])
  }

  /** What may come after the first chunk was answered: nothing truncates the file but leftovers of the first write. */
  ghost predicate LeftoversOf(ws: seq<Write>, first: Bytes) {
    forall w :: w in ws && !w.append ==> !w.answered && w.bytes <= first
  }

  lemma {:induction false} AnsweredNonempty(ws: seq<Write>)
    requires forall w :: w in ws && w.answered ==> w.bytes != []
    ensures AnsweredBytes(ws) == [] <==> Unanswered(ws)
  {
    if ws != [] {
      var n := |ws| - 1;
      assert ws[n] in ws && ws == ws[..n] + [ws[n]];
      AnsweredNonempty(ws[..n]);
    }
  }

  /** What comes after the last truncation, or everything if there is none. */
  function Tail(ws: seq<Write>): seq<Write> {
    match LastTruncation(ws)
    case None => ws
    case Some(p) => ws[p + 1..]
  }

  lemma Truncated(first: Bytes, a: seq<Write>, t: Write, b: seq<Write>)
    requires !t.append && !t.answered && t.bytes <= first && NoTruncation(b) && NothingAppendedUnheard(b)
    requires forall w :: w in a && w.answered ==> w.bytes != []
    ensures var ws := a + ([t] + b);
            Replay(first, ws) == first + AnsweredBytes(ws) <==> t.bytes == first && Unanswered(a)
  {
    ReplayConcat(first, a, [t] + b);
    ReplayConcat(Replay(first, a), [t], b);
    assert [t][..0] == [];
    assert Replay(Replay(first, a), [t]) == [] + t.bytes == t.bytes;
    Grown(t.bytes, b);
    AnsweredConcat(a, [t] + b);
    AnsweredConcat([t], b);
    UnansweredBytes([t]);
    assert [] + AnsweredBytes(b) == AnsweredBytes(b);
    AnsweredNonempty(a);
    TruncatedLength(first, t.bytes, AnsweredBytes(a), AnsweredBytes(b));
  }

  /** After the first chunk: the file is what was answered exactly when nothing was appended unheard since the last
      truncation and no late handler of the first write did harm. */
  lemma AfterFirst(first: Bytes, ws: seq<Write>)
    requires LeftoversOf(ws, first) && forall w :: w in ws && w.answered ==> w.bytes != []
    requires NoTruncation(ws) || NothingAppendedUnheard(Tail(ws))
    ensures Replay(first, ws) == first + AnsweredBytes(ws) <==>
            NothingAppendedUnheard(Tail(ws)) && LateHarmless(ws, first)
  {
    match LastTruncation(ws)
    case None => Grown(first, ws);
    case Some(p) =>
      assert ws[p] in ws && ws == ws[..p] + ([ws[p]] + ws[p + 1..]);
      Truncated(first, ws[..p], ws[p], ws[p + 1..]);
  }

  lemma TruncatedLength(first: Bytes, t: Bytes, a: Bytes, b: Bytes)
    requires t <= first
    ensures t + b == first + (a + b) <==> t == first && a == []
  {
    if t + b == first + (a + b) {
      assert |t| + |b| == |first| + |a| + |b|;
    } else if a == [] {
      assert a + b == b;
    }
  }

  lemma {:induction false} LaterAppends(chunks: seq<Bytes>, runs: nat -> Attempts)
    requires AllSucceed(|chunks|, runs) && AppendsNonempty(chunks)
    ensures forall w :: w in Later(chunks, runs) && w.answered ==> w.bytes != []
    decreases |chunks|
  {
    if |chunks| > 1 {
      var n := |chunks| - 1;
      LaterAppends(chunks[..n], runs);
      var lost := HistoryAnswered(runs(n), chunks[n], true);
    }
  }

  function Appended(ws: seq<Write>): Bytes {
    if ws == [] then [] else Appended(ws[..|ws| - 1]) + ws[|ws| - 1].bytes
  }

  lemma {:induction false} ReplayAppends(content: Bytes, ws: seq<Write>)
    requires NoTruncation(ws)
    ensures Replay(content, ws) == content + Appended(ws)
  {
    if ws == [] {
      assert content + [] == content;
    } else {
      var n := |ws| - 1;
      assert ws[n] in ws && forall w :: w in ws[..n] ==> w in ws;
      ReplayAppends(content, ws[..n]);
      Assoc(content, Appended(ws[..n]), ws[n].bytes);
    }
  }

  /** What the file starts with: the last truncating write, which is the first chunk unless a leftover came late. */
  function Start(ws: seq<Write>, first: Bytes): Bytes {
    match LastTruncation(ws)
    case None => first
    case Some(p) => ws[p].bytes
  }

  lemma ReplayIs(first: Bytes, ws: seq<Write>)
    ensures Replay(first, ws) == Start(ws, first) + Appended(Tail(ws))
  {
    match LastTruncation(ws)
    case None => ReplayAppends(first, ws);
    case Some(p) =>
      var a, t, b := ws[..p], ws[p], ws[p + 1..];
      assert ws == a + [t] + b;
      ReplayConcat(first, a + [t], b);
      assert (a + [t])[..p] == a;
      assert Replay(first, a + [t]) == [] + t.bytes == t.bytes;
      ReplayAppends(t.bytes, b);
  }

  lemma FirstThenRest(before: Bytes, chunks: seq<Bytes>, runs: nat -> Attempts, after: seq<Write>)
    requires chunks != [] && Succeeds(runs(0))
    ensures Replay(before, Everything(chunks, runs) + after) == Replay(chunks[0], Later(chunks, runs) + after)
  {
    var later := Later(chunks, runs);
    var lost := HistoryAnswered(runs(0), chunks[0], false);
    var first := Write(false, chunks[0], true);
    FirstThenLater(chunks, runs);
    Assoc(lost + [first], later, after);
    ReplayConcat(before, lost + [first], later + after);
    ReplayConcat(before, lost, [first]);
    assert [first][..0] == [];
    assert Replay(Replay(before, lost), [first]) == [] + chunks[0] == chunks[0];
  }

  /** What the guest's file is in the end, for every run whose first chunk was answered: the last truncating write and
      everything appended since, heard of or not. */
  lemma ContentIs(before: Bytes, chunks: seq<Bytes>, runs: nat -> Attempts, after: seq<Write>)
    requires chunks != [] && Succeeds(runs(0))
    ensures var ws := Later(chunks, runs) + after;
            Replay(before, Everything(chunks, runs) + after) == Start(ws, chunks[0]) + Appended(Tail(ws))
  {
    FirstThenRest(before, chunks, runs, after);
    ReplayIs(chunks[0], Later(chunks, runs) + after);
  }

  /** However the attempts went, and whatever `after` comes once the copy has returned: the guest's file is the host's
      exactly when, since the last truncation, no write appended anything unheard, and that truncation, if it is a
      leftover of the first write after its answer, was complete and followed no other chunk. Before the answer such a
      leftover may do anything: the answered write truncates. Left open are the runs where a leftover of the first write
      came late and something was appended unheard after it; there the two may mend each other. */
  lemma CopiedExactly(before: Bytes, chunks: seq<Bytes>, runs: nat -> Attempts, after: seq<Write>)
    requires chunks != [] && AllSucceed(|chunks|, runs) && AppendsNonempty(chunks) && Unanswered(after)
    requires LeftoversOf(Later(chunks, runs) + after, chunks[0])
    requires var ws := Later(chunks, runs) + after; NoTruncation(ws) || NothingAppendedUnheard(Tail(ws))
    ensures var ws := Later(chunks, runs) + after;
            Replay(before, Everything(chunks, runs) + after) == Concat(chunks) <==>
            NothingAppendedUnheard(Tail(ws)) && LateHarmless(ws, chunks[0])
  {
    var later := Later(chunks, runs);
    FirstThenRest(before, chunks, runs, after);
    LaterAppends(chunks, runs);
    LaterAnswered(chunks, runs);
    AnsweredConcat(later, after);
    UnansweredBytes(after);
    assert AnsweredBytes(later) + [] == AnsweredBytes(later);
    AfterFirst(chunks[0], later + after);
  }

  lemma ReplayThree(content: Bytes, a: Write, b: Write, c: Write)
    ensures Replay(content, [a, b, c]) == Apply(Apply(Apply(content, a), b), c)
  {
    assert [a, b, c][..2] == [a, b] && [a, b][..1] == [a] && [a][..0] == [];
    assert Replay(content, [a]) == Apply(content, a);
    assert Replay(content, [a, b]) == Apply(Replay(content, [a]), b);
    assert Replay(content, [a, b, c]) == Apply(Replay(content, [a, b]), c);
  }

  lemma HistoryOnce(data: Bytes, append: bool)
    ensures var a: Attempts := [Attempt([], None, Answered)];
            Succeeds(a) && History(a, data, append) == [Write(append, data, true)]
  {
  }

  lemma HistoryTwice(data: Bytes, append: bool, n: nat)
    requires n <= |data|
    ensures var a: Attempts := [Attempt([], Some(n), Transient), Attempt([], None, Answered)];
            && Succeeds(a)
            && History(a, data, append) == [Write(append, data[..n], false), Write(append, data, true)]
  {
    var a: Attempts := [Attempt([], Some(n), Transient), Attempt([], None, Answered)];
    assert a[1..] == [Attempt([], None, Answered)];
    HistoryOnce(data, append);
  }

  lemma EverythingTwo(first: Bytes, second: Bytes, runs: nat -> Attempts)
    ensures Everything([first, second], runs) == History(runs(0), first, false) + History(runs(1), second, true)
  {
    EverythingSnoc([], first, runs);
    EverythingSnoc([first], second, runs);
    assert [] + [first] == [first] && [first] + [second] == [first, second];
  }

  /** An appended chunk written in part, or whole, by an attempt whose response was lost is there before the chunk. */
  lemma ResponseLost(before: Bytes, first: Bytes, second: Bytes, n: nat, runs: nat -> Attempts)
    requires n <= |second| && runs(0) == [Attempt([], None, Answered)]
    requires runs(1) == [Attempt([], Some(n), Transient), Attempt([], None, Answered)]
    ensures AllSucceed(2, runs) && Replay(before, Everything([first, second], runs)) == first + second[..n] + second
  {
    var w0, w1, w2 := Write(false, first, true), Write(true, second[..n], false), Write(true, second, true);
    HistoryOnce(first, false);
    HistoryTwice(second, true, n);
    EverythingTwo(first, second, runs);
    assert [w0] + [w1, w2] == [w0, w1, w2];
    ReplayThree(before, w0, w1, w2);
    assert [] + first == first;
  }

  /** A handler of the first write that outlives its retry and the next chunk undoes that chunk. */
  lemma LateTruncation(before: Bytes, first: Bytes, second: Bytes, runs: nat -> Attempts)
    requires runs(0) == [Attempt([], None, Transient), Attempt([], None, Answered)]
    requires runs(1) == [Attempt([], None, Answered)]
    ensures AllSucceed(2, runs)
    ensures Replay(before, Everything([first, second], runs) + [Write(false, first, false)]) == first
  {
    assert runs(0)[1..] == [Attempt([], None, Answered)];
    ReplayConcat(before, Everything([first, second], runs), [Write(false, first, false)]);
  }

  /** Why the two kinds of mishap are told apart: one can mend the other. Here the first write comes late once more, and
      then a leftover of the second puts its chunk back. */
  lemma MishapsMend(first: Bytes, second: Bytes)
    ensures var ws := [Write(true, second, true), Write(false, first, false), Write(true, second, false)];
            !NothingAppendedUnheard(Tail(ws)) == (second != []) && Replay(first, ws) == first + second
  {
    var a, b, c := Write(true, second, true), Write(false, first, false), Write(true, second, false);
    ReplayThree(first, a, b, c);
    assert [] + first == first;
    assert [a, b, c][1..] == [b, c] && [b, c][1..] == [c] && [c][1..] == [];
    assert LastTruncation([c]) == None && LastTruncation([b, c]) == Some(0) && LastTruncation([a, b, c]) == Some(1);
    assert Tail([a, b, c]) == [c] && c in [c];
  }
}
