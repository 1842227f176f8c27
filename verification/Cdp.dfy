/** Matching CDP responses to requests by id (`BrowserCdpClient::call`, guest/src/ui_sidecar.rs). */
module Cdp {
  import opened Utf
  import opened WebSocket
  import opened WebSocketClient

  /** What one `websocket_read_text` yields: a message with a `u64` id, a message without one (an event), a message that
      is not JSON, or a failed read (timeout at a message boundary, close frame, bad UTF-8, end of stream). */
  datatype Item<T> = Reply(id: nat, body: T) | Event(body: T) | Unparsable | ReadFailed

  datatype Outcome<T> = Answered(body: T) | Failed | NotSent

  predicate Stops<T>(item: Item<T>, id: nat) {
    item.ReadFailed? || item.Unparsable? || (item.Reply? && item.id == id)
  }

  /** The position after the item that ends a call for `id` starting at `pos`; past the end a read fails. */
  function StopAt<T>(s: seq<Item<T>>, pos: nat, id: nat): (p: nat)
    requires pos <= |s|
    ensures pos <= p <= |s| && (p < |s| ==> Stops(s[p], id))
    ensures forall k :: pos <= k < p ==> !Stops(s[k], id)
    decreases |s| - pos
  {
    if pos == |s| || Stops(s[pos], id) then pos else StopAt(s, pos + 1, id)
  }

  // ----- From bytes to items -----

  /** What the peer sends arrives in bursts. A read that finds its burst used up times out; what it had taken of a
      message is gone, and the next read starts with the next burst. */
  type Bursts = b: seq<Bytes> | b != [] witness [[]]

  function AfterRead(b: Bursts): Bursts {
    var r := ReadText(b[0]);
    if r.EndOfStream? then if |b| == 1 then [[]] else b[1..]
    else
      assert |[r.rest] + b[1..]| == |b|;
      [r.rest] + b[1..]
  }

  function ItemOf<T>(parse: Bytes -> Item<T>, r: ReadResult): Item<T> {
    if r.Text? then parse(r.payload) else ReadFailed
  }

  /** Everything reading the bursts one message after the other will give, before it fails for good. */
  function Items<T>(parse: Bytes -> Item<T>, b: Bursts): seq<Item<T>>
    decreases |b|, |b[0]|
  {
    var r := ReadText(b[0]);
    ReadTextShrinks(b[0]);
    if r.EndOfStream? && |b| == 1 then [] else [ItemOf(parse, ResultOf(r))] + Items(parse, AfterRead(b))
  }

  lemma ItemsEnd<T>(parse: Bytes -> Item<T>, b: Bursts)
    requires Items(parse, b) == []
    ensures ReadText(b[0]).EndOfStream? && Items(parse, AfterRead(b)) == []
  {
    assert ReadText([]).EndOfStream?;
  }

  /** What a frame the peer sends amounts to for the client. */
  function FrameItem<T>(parse: Bytes -> Item<T>, f: Frame): seq<Item<T>> {
    if f.first % 16 == 1 then [if ValidUtf8(f.payload) then parse(f.payload) else ReadFailed]
    else if f.first % 16 == 8 then [ReadFailed]
    else []
  }

  function FrameItems<T>(parse: Bytes -> Item<T>, xs: seq<Sent>): seq<Item<T>> {
    if xs == [] then [] else FrameItem(parse, xs[0].frame) + FrameItems(parse, xs[1..])
  }

  lemma SameReading<T>(parse: Bytes -> Item<T>, s: Bytes, t: Bytes)
    requires ReadText(s) == ReadText(t)
    ensures Items(parse, [s]) == Items(parse, [t])
  {
    var b, c: seq<Bytes> := [s], [t];
    assert b[1..] == c[1..];
    assert AfterRead(b) == AfterRead(c);
  }

  lemma OneReading<T>(parse: Bytes -> Item<T>, s: Bytes)
    requires !ReadText(s).EndOfStream?
    ensures Items(parse, [s]) == [ItemOf(parse, ResultOf(ReadText(s)))] + Items(parse, [ReadText(s).rest])
  {
    var b: seq<Bytes> := [s];
    assert [ReadText(s).rest] + b[1..] == [ReadText(s).rest];
  }

  lemma FrameThenRest<T>(parse: Bytes -> Item<T>, x: Sent, rest: Bytes)
    ensures Items(parse, [EncodeFrame(x.frame, x.form) + rest]) == FrameItem(parse, x.frame) + Items(parse, [rest])
  {
    var s := EncodeFrame(x.frame, x.form) + rest;
    ReadEncoded(x.frame, x.form, rest);
    if PassedOver(x.frame) {
      SameReading(parse, s, rest);
      assert [] + Items(parse, [rest]) == Items(parse, [rest]);
    } else {
      OneReading(parse, s);
    }
  }

  /** Whatever frames the peer sends, in whatever length forms, the client reads exactly their items. */
  lemma {:induction false} FramesAreItems<T>(parse: Bytes -> Item<T>, xs: seq<Sent>)
    ensures Items(parse, [Wire(xs)]) == FrameItems(parse, xs)
  {
    if xs != [] {
      FramesAreItems(parse, xs[1..]);
      FrameThenRest(parse, xs[0], Wire(xs[1..]));
    }
  }

  class Connection {
    const stream: Stream
    var later: seq<Bytes>

    constructor (bursts: Bursts)
      ensures Pending() == bursts && fresh(stream)
    {
      stream := new Stream(bursts[0]);
      later := bursts[1..];
    }

    ghost function Pending(): Bursts
      reads this, stream
    {
      assert ([stream.input] + later)[0] == stream.input;
      [stream.input] + later
    }

    /** `websocket_read_text`, and what arrives while it waits in vain. */
    method Read() returns (r: ReadResult)
      modifies this, stream
      ensures r == ResultOf(ReadText(old(Pending())[0])) && Pending() == AfterRead(old(Pending()))
    {
      ghost var before := Pending();
      assert before[0] == stream.input && before[1..] == later;
      r := WebsocketReadText(stream);
      if r.StreamEnded? && later != [] {
        stream.input, later := later[0], later[1..];
      }
    }
  }

  /** The client over everything the peer ever sends, of which `read` items have been consumed. */
  class Client<T(!new)> {
    const connection: Connection
    const parse: Bytes -> Item<T>
    ghost const incoming: seq<Item<T>>
    ghost var read: nat
    var nextId: nat
    ghost var calls: seq<Call<T>>

    ghost predicate InStep()
      reads this, connection, connection.stream
    {
      read <= |incoming| && Items(parse, connection.Pending()) == incoming[read..]
    }

    ghost predicate Valid()
      reads this, connection, connection.stream
    {
      InStep() && nextId == IdOf(|calls|) && Consistent(incoming, calls, read)
    }

    constructor (bursts: Bursts, parse: Bytes -> Item<T>)
      ensures Valid() && incoming == Items(parse, bursts) && calls == []
      ensures fresh(connection) && fresh(connection.stream)
    {
      connection := new Connection(bursts);
      this.parse := parse;
      incoming := Items(parse, bursts);
      read, nextId, calls := 0, 1, [];
    }

    /** Reads one message and parses it; past the last one it fails. */
    method Next() returns (item: Item<T>)
      requires InStep()
      modifies this`read, connection, connection.stream
      ensures InStep()
      ensures if old(read) == |incoming| then item == ReadFailed && read == old(read)
              else item == incoming[old(read)] && read == old(read) + 1
    {
      ghost var pending := connection.Pending();
      if Items(parse, pending) == [] {
        ItemsEnd(parse, pending);
      }
      var r := connection.Read();
      item := ItemOf(parse, r);
      if read < |incoming| {
        assert incoming[read..][0] == incoming[read] && incoming[read..][1..] == incoming[read + 1..];
        read := read + 1;
      }
    }

    /** Reads until the response to `id`, or until reading or parsing fails. */
    method Await(id: nat) returns (r: Outcome<T>)
      requires InStep()
      modifies this`read, connection, connection.stream
      ensures InStep() && ValidCall(incoming, Call(id, old(read), read, r)) && !r.NotSent?
    {
      ghost var start := read;
      while true
        invariant InStep() && start <= read
        invariant forall k :: start <= k < read ==> !Stops(incoming[k], id)
        decreases |incoming| - read
      {
        var item := Next();
        if item.ReadFailed? || item.Unparsable? {
          return Failed;
        }
        if item.Reply? && item.id == id {
          return Answered(item.body);
        }
      }
    }

    /** `call`: `writes` says whether the request could be written. The id is used up either way. */
    method Request(writes: bool) returns (r: Outcome<T>)
      requires Valid()
      modifies this, connection, connection.stream
      ensures Valid() && calls == old(calls) + [Call(old(nextId), old(read), read, r)]
      ensures r.NotSent? <==> !writes
    {
      var id := nextId;
      NextIdOf(|calls|);
      nextId := IdAfter(nextId);
      ghost var start := read;
      if writes {
        r := Await(id);
      } else {
        r := NotSent;
      }
      ghost var call := Call(id, start, read, r);
      ConsistentSnoc(incoming, calls, start, call);
      calls := calls + [call];
    }
  }

  datatype Call<T> = Call(id: nat, start: nat, end: nat, outcome: Outcome<T>)

  /** One call read the items from `start` to `end` and ended as the source does. */
  ghost predicate ValidCall<T>(s: seq<Item<T>>, c: Call<T>) {
    && c.start <= c.end <= |s|
    && match c.outcome
       case NotSent => c.end == c.start
       case Answered(body) =>
         c.start < c.end && s[c.end - 1] == Reply(c.id, body) && c.end - 1 == StopAt(s, c.start, c.id)
       case Failed =>
         var p := StopAt(s, c.start, c.id);
         if p == |s| then c.end == |s| else c.end == p + 1 && !s[p].Reply?
  }

  const U64: nat := 0x1_0000_0000_0000_0000

  /** Ids count up from one in 64 bits. */
  function IdOf(k: nat): nat { (k + 1) % U64 }

  function IdAfter(id: nat): nat { (id + 1) % U64 }

  lemma NextIdOf(k: nat)
    ensures IdAfter(IdOf(k)) == IdOf(k + 1)
  {
  }

  /** The ids are one, two, three and so on, and after the greatest 64-bit number zero. */
  lemma IdsCount(k: nat)
    ensures k < 0xFFFF_FFFF_FFFF_FFFF ==> IdOf(k) == k + 1
    ensures IdAfter(0xFFFF_FFFF_FFFF_FFFF) == 0
  {
  }

  /** Calls made one after the other: they take the ids in turn and each call starts where the previous one stopped. */
  ghost predicate Consistent<T>(s: seq<Item<T>>, calls: seq<Call<T>>, read: nat) {
    && (forall k :: 0 <= k < |calls| ==> ValidCall(s, calls[k]) && calls[k].id == IdOf(k))
    && (forall k :: 0 <= k < |calls| - 1 ==> calls[k].end == calls[k + 1].start)
    && (calls != [] ==> calls[|calls| - 1].end == read && calls[0].start == 0)
    && (calls == [] ==> read == 0)
  }

  lemma ConsistentSnoc<T>(s: seq<Item<T>>, calls: seq<Call<T>>, read: nat, c: Call<T>)
    requires Consistent(s, calls, read) && ValidCall(s, c) && c.id == IdOf(|calls|) && c.start == read
    ensures Consistent(s, calls + [c], c.end)
  {
  }

  lemma {:induction false} CallsInOrder<T>(s: seq<Item<T>>, calls: seq<Call<T>>, read: nat, i: nat, j: nat)
    requires Consistent(s, calls, read) && i < j < |calls|
    ensures calls[i].end <= calls[j].start
  {
    if i + 1 < j {
      CallsInOrder(s, calls, read, i, j - 1);
      assert ValidCall(s, calls[j - 1]);
    }
    assert calls[j - 1].end == calls[j - 1 + 1].start;
  }

  /** In every run of calls, failed ones included, short of using up the ids: ids strictly increase, an answered call
      returns a message bearing its own id, and no message is delivered to two calls or out of order. */
  lemma RunDelivery<T>(s: seq<Item<T>>, calls: seq<Call<T>>, read: nat)
    requires Consistent(s, calls, read)
    ensures |calls| < U64 ==> forall i, j :: 0 <= i < j < |calls| ==> calls[i].id < calls[j].id
    ensures forall i :: 0 <= i < |calls| && calls[i].outcome.Answered? ==>
                          var at := calls[i].end - 1;
                          0 <= at < |s| && s[at] == Reply(calls[i].id, calls[i].outcome.body)
    ensures forall i, j :: 0 <= i < j < |calls| && calls[i].outcome.Answered? && calls[j].outcome.Answered? ==>
                             calls[i].end - 1 < calls[j].end - 1
  {
    forall i, j | 0 <= i < j < |calls| && calls[i].outcome.Answered? && calls[j].outcome.Answered?
      ensures calls[i].end < calls[j].end
    {
      CallsInOrder(s, calls, read, i, j);
      assert ValidCall(s, calls[i]) && ValidCall(s, calls[j]);
    }
    forall i | 0 <= i < |calls| && calls[i].outcome.Answered?
      ensures 0 < calls[i].end <= |s| && s[calls[i].end - 1] == Reply(calls[i].id, calls[i].outcome.body)
    {
      assert ValidCall(s, calls[i]);
    }
  }

  /** The peer answers each id at most once. */
  ghost predicate AnswersOnce<T>(s: seq<Item<T>>) {
    forall p, q :: 0 <= p < q < |s| && s[p].Reply? && s[q].Reply? ==> s[p].id != s[q].id
  }

  /** The item at `p` is what the call returned. */
  predicate Delivers<T>(c: Call<T>, p: nat) { c.outcome.Answered? && c.end == p + 1 }

  lemma OwnReplyOnly<T>(s: seq<Item<T>>, calls: seq<Call<T>>, read: nat, i: nat, j: nat, p: nat)
    requires Consistent(s, calls, read) && |calls| < U64 && i < |calls| && j < |calls| && i != j
    requires p < |s| && s[p].Reply? && s[p].id == calls[i].id
    ensures !Delivers(calls[j], p)
  {
    assert ValidCall(s, calls[j]) && calls[j].id == j + 1 && calls[i].id == i + 1;
  }

  /** With such a peer the response to a call that was sent is delivered to that call exactly when it arrives after the
      call began and before any failed read; otherwise it is delivered to no call at all. */
  lemma ResponseDelivery<T>(s: seq<Item<T>>, calls: seq<Call<T>>, read: nat, i: nat, p: nat)
    requires Consistent(s, calls, read) && AnswersOnce(s)
    requires i < |calls| && !calls[i].outcome.NotSent?
    requires p < |s| && s[p].Reply? && s[p].id == calls[i].id
    ensures Delivers(calls[i], p) <==>
            calls[i].start <= p && forall k :: calls[i].start <= k < p ==> !s[k].ReadFailed? && !s[k].Unparsable?
    ensures |calls| < U64 ==> forall j :: 0 <= j < |calls| && j != i ==> !Delivers(calls[j], p)
  {
    var c := calls[i];
    assert ValidCall(s, c);
    var stop := StopAt(s, c.start, c.id);
    if c.start <= p && forall k :: c.start <= k < p ==> !s[k].ReadFailed? && !s[k].Unparsable? {
      assert stop <= p by {
        assert Stops(s[p], c.id);
      }
    }
    if Delivers(c, p) {
      forall k | c.start <= k < p
        ensures !s[k].ReadFailed? && !s[k].Unparsable?
      {
        assert !Stops(s[k], c.id);
      }
    }
    if |calls| < U64 {
      forall j | 0 <= j < |calls| && j != i
        ensures !Delivers(calls[j], p)
      {
        OwnReplyOnly(s, calls, read, i, j, p);
      }
    }
  }
}
