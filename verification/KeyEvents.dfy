/** The key-down and key-up events a stroke is sent as (`native_send_virtual_key`, guest/src/ui_sidecar.rs). */
module KeyEvents {
  import opened Wrappers
  import opened Sequences
  import opened KeySequence

  datatype Event = Down(vk: nat) | Up(vk: nat)

  function ModifierKeys(m: Modifiers): (ks: seq<nat>) {
    (if m.ctrl then [VK_CONTROL] else []) + (if m.shift then [VK_SHIFT] else [])
    + (if m.alt then [VK_MENU] else []) + (if m.win then [VK_LWIN] else [])
  }

  /** The place of a modifier among the modifiers pressed: control, shift, alt, Windows. */
  function Rank(vk: nat): nat {
    match vk
    case 0x11 => 0
    case 0x10 => 1
    case 0x12 => 2
    case _ => 3
  }

  /** The modifiers of a stroke by their virtual-key codes, in their order. */
  lemma ModifierCodes(m: Modifiers)
    ensures forall k :: k in ModifierKeys(m) <==>
                        || (m.ctrl && k == 0x11) || (m.shift && k == 0x10) || (m.alt && k == 0x12)
                        || (m.win && k == 0x5B)
    ensures forall i, j :: 0 <= i < j < |ModifierKeys(m)| ==> Rank(ModifierKeys(m)[i]) < Rank(ModifierKeys(m)[j])
  {
  }

  function Downs(ks: seq<nat>): (es: seq<Event>)
    ensures |es| == |ks| && forall i :: 0 <= i < |ks| ==> es[i] == Down(ks[i])
  {
    seq(|ks|, i requires 0 <= i < |ks| => Down(ks[i]))
  }

  /** Released in the reverse order. */
  function Ups(ks: seq<nat>): (es: seq<Event>)
    ensures |es| == |ks| && forall i :: 0 <= i < |ks| ==> es[i] == Up(ks[|ks| - 1 - i])
  {
    seq(|ks|, i requires 0 <= i < |ks| => Up(ks[|ks| - 1 - i]))
  }

  function Emit(st: Stroke): (es: seq<Event>) {
    Downs(ModifierKeys(st.modifiers)) + [Down(st.vk), Up(st.vk)] + Ups(ModifierKeys(st.modifiers))
  }

  method CollectModifiers(m: Modifiers) returns (modifiers: seq<nat>)
    ensures modifiers == ModifierKeys(m)
  {
    modifiers := [];
    if m.ctrl {
      modifiers := modifiers + [VK_CONTROL];
    }
    if m.shift {
      modifiers := modifiers + [VK_SHIFT];
    }
    if m.alt {
      modifiers := modifiers + [VK_MENU];
    }
    if m.win {
      modifiers := modifiers + [VK_LWIN];
    }
  }

  function Min(a: nat, b: nat): nat { if a <= b then a else b }

  method PressAll(modifiers: seq<nat>) returns (inputs: seq<Event>)
    ensures inputs == Downs(modifiers)
  {
    inputs := [];
    for i := 0 to |modifiers|
      invariant inputs == Downs(modifiers)[..i]
    {
      inputs := inputs + [Down(modifiers[i])];
    }
  }

  method ReleaseAll(pressed: seq<Event>, modifiers: seq<nat>) returns (inputs: seq<Event>)
    ensures inputs == pressed + Ups(modifiers)
  {
    inputs := pressed;
    for i := |modifiers| downto 0
      invariant inputs == pressed + Ups(modifiers)[..|modifiers| - i]
    {
      inputs := inputs + [Up(modifiers[i])];
    }
    assert Ups(modifiers)[..|modifiers|] == Ups(modifiers);
  }

  /** `SendInput` takes the first `accepted` of the events; `ok` says that those were all. */
  method SendVirtualKey(st: Stroke, accepted: nat) returns (sent: seq<Event>, ok: bool)
    ensures sent == Emit(st)[..Min(accepted, |Emit(st)|)] && (ok <==> sent == Emit(st))
  {
    var modifiers := CollectModifiers(st.modifiers);
    var inputs := PressAll(modifiers);
    inputs := inputs + [Down(st.vk), Up(st.vk)];
    inputs := ReleaseAll(inputs, modifiers);
    sent := inputs[..Min(accepted, |inputs|)];
    ok := |sent| == |inputs|;
  }

  type Emitter = Stroke -> seq<Event>

  /** The events of a list of strokes, each taken as far as `accepts` says, up to the first not taken whole. */
  datatype Sending = Sending(events: seq<Event>, ok: bool)

  function DeliverBy(emit: Emitter, strokes: seq<Stroke>, accepts: nat -> nat): (r: Sending) {
    if strokes == [] then Sending([], true)
    else
      var n := |strokes| - 1;
      var before, es := DeliverBy(emit, strokes[..n], accepts), emit(strokes[n]);
      if before.ok then Sending(before.events + es[..Min(accepts(n), |es|)], accepts(n) >= |es|) else before
  }

  function Deliver(strokes: seq<Stroke>, accepts: nat -> nat): Sending { DeliverBy(Emit, strokes, accepts) }

  lemma DeliverNext(emit: Emitter, done: seq<Stroke>, st: Stroke, accepts: nat -> nat)
    ensures var before, es := DeliverBy(emit, done, accepts), emit(st);
            DeliverBy(emit, done + [st], accepts) ==
            if before.ok then Sending(before.events + es[..Min(accepts(|done|), |es|)], accepts(|done|) >= |es|)
            else before
  {
    assert (done + [st])[..|done|] == done;
  }

  lemma {:induction false} DeliverStops(emit: Emitter, done: seq<Stroke>, rest: seq<Stroke>, accepts: nat -> nat)
    requires !DeliverBy(emit, done, accepts).ok
    ensures DeliverBy(emit, done + rest, accepts) == DeliverBy(emit, done, accepts)
  {
    if rest == [] {
      assert done + rest == done;
    } else {
      var n := |rest| - 1;
      DeliverStops(emit, done, rest[..n], accepts);
      assert done + rest == done + rest[..n] + [rest[n]];
      DeliverNext(emit, done + rest[..n], rest[n], accepts);
    }
  }

  function Repeated(strokes: seq<Stroke>, repeat: nat): seq<Stroke> {
    if repeat == 0 then [] else Repeated(strokes, repeat - 1) + strokes
  }

  lemma {:induction false} RepeatedPrefix(strokes: seq<Stroke>, i: nat, repeat: nat)
    requires i <= repeat
    ensures Repeated(strokes, i) <= Repeated(strokes, repeat)
  {
    if i < repeat {
      RepeatedPrefix(strokes, i, repeat - 1);
    }
  }

  lemma TakenWhole(es: seq<Event>, a: nat)
    ensures es[..Min(a, |es|)] == es <==> a >= |es|
  {
  }

  lemma DeliverAt(
    emit: Emitter, before: seq<Stroke>, st: Stroke, accepts: nat -> nat, events: seq<Event>, ok: bool)
    requires DeliverBy(emit, before, accepts).ok
    requires events == emit(st)[..Min(accepts(|before|), |emit(st)|)] && (ok <==> events == emit(st))
    ensures DeliverBy(emit, before + [st], accepts) == Sending(DeliverBy(emit, before, accepts).events + events, ok)
  {
    DeliverNext(emit, before, st, accepts);
    TakenWhole(emit(st), accepts(|before|));
  }

  lemma DeliverEnds(emit: Emitter, done: seq<Stroke>, strokes: seq<Stroke>, k: nat, accepts: nat -> nat)
    requires k < |strokes| && !DeliverBy(emit, done + strokes[..k + 1], accepts).ok
    ensures DeliverBy(emit, done + strokes, accepts) == DeliverBy(emit, done + strokes[..k + 1], accepts)
  {
    OneMore(done, strokes, k);
    DeliverStops(emit, done + strokes[..k + 1], strokes[k + 1..], accepts);
  }

  method SendStrokes(out: seq<Event>, count: nat, strokes: seq<Stroke>, accepts: nat -> nat, ghost done: seq<Stroke>)
    returns (r: Sending)
    requires |done| == count && Deliver(done, accepts) == Sending(out, true)
    ensures r == Deliver(done + strokes, accepts)
  {
    r := Sending(out, true);
    assert done + strokes[..0] == done;
    for k := 0 to |strokes|
      invariant r == Deliver(done + strokes[..k], accepts) && r.ok
    {
      var events, ok := SendVirtualKey(strokes[k], accepts(count + k));
      OneMore(done, strokes, k);
      DeliverAt(Emit, done + strokes[..k], strokes[k], accepts, events, ok);
      r := Sending(r.events + events, ok);
      if !ok {
        DeliverEnds(Emit, done, strokes, k, accepts);
        return;
      }
    }
    assert strokes[..|strokes|] == strokes;
  }

  datatype Result = Unsupported | Sent(sending: Sending)

  /** `native_send_key_sequence`: the sequence is parsed anew each time round, so with no repetition even an unsupported
      one is accepted. `accepts` says how many events `SendInput` takes of each stroke. */
  method SendKeySequence(keys: string, repeat: nat, accepts: nat -> nat) returns (r: Result)
    ensures r == if repeat == 0 then Sent(Sending([], true))
                 else if Parse(keys).None? then Unsupported
                 else Sent(Deliver(Repeated(Parse(keys).value, repeat), accepts))
  {
    var out, count := [], 0;
    ghost var parsed := Parse(keys);
    ghost var done: seq<Stroke> := [];
    for i := 0 to repeat
      invariant i > 0 ==> parsed.Some? && done == Repeated(parsed.value, i)
      invariant i == 0 ==> done == []
      invariant |done| == count && Deliver(done, accepts) == Sending(out, true)
    {
      var strokes := ParseNativeKeySequence(keys);
      if strokes == None {
        return Unsupported;
      }
      var sending := SendStrokes(out, count, strokes.value, accepts, done);
      done := done + strokes.value;
      if !sending.ok {
        StopsWithin(strokes.value, i + 1, repeat, accepts);
        return Sent(sending);
      }
      out, count := sending.events, count + |strokes.value|;
    }
    r := Sent(Sending(out, true));
  }

  lemma StopsWithin(strokes: seq<Stroke>, i: nat, repeat: nat, accepts: nat -> nat)
    requires i <= repeat && !Deliver(Repeated(strokes, i), accepts).ok
    ensures Deliver(Repeated(strokes, repeat), accepts) == Deliver(Repeated(strokes, i), accepts)
  {
    RepeatedPrefix(strokes, i, repeat);
    var a, b := Repeated(strokes, i), Repeated(strokes, repeat);
    assert b == a + b[|a|..];
    DeliverStops(Emit, a, b[|a|..], accepts);
  }

  // ----- Nesting -----

  /** Presses push, and a release must match the latest press still held. */
  function Nest(stack: seq<nat>, es: seq<Event>): (r: Option<seq<nat>>)
    decreases |es|
  {
    if es == [] then Some(stack)
    else
      match es[0]
      case Down(k) => Nest(stack + [k], es[1..])
      case Up(k) => if stack != [] && stack[|stack| - 1] == k then Nest(stack[..|stack| - 1], es[1..]) else None
  }

  lemma {:induction false} NestConcat(stack: seq<nat>, es: seq<Event>, fs: seq<Event>)
    requires Nest(stack, es).Some?
    ensures Nest(stack, es + fs) == Nest(Nest(stack, es).value, fs)
    decreases |es|
  {
    if es == [] {
      assert es + fs == fs;
    } else {
      assert (es + fs)[1..] == es[1..] + fs;
      match es[0]
      case Down(k) => NestConcat(stack + [k], es[1..], fs);
      case Up(k) => NestConcat(stack[..|stack| - 1], es[1..], fs);
    }
  }

  lemma {:induction false} NestDowns(stack: seq<nat>, ks: seq<nat>)
    ensures Nest(stack, Downs(ks)) == Some(stack + ks)
    decreases |ks|
  {
    if ks == [] {
      assert stack + ks == stack;
    } else {
      assert Downs(ks)[1..] == Downs(ks[1..]);
      NestDowns(stack + [ks[0]], ks[1..]);
      assert stack + [ks[0]] + ks[1..] == stack + ks;
    }
  }

  lemma {:induction false} NestUps(stack: seq<nat>, ks: seq<nat>)
    ensures Nest(stack + ks, Ups(ks)) == Some(stack)
  {
    if ks == [] {
      assert stack + ks == stack;
    } else {
      var n := |ks| - 1;
      assert Ups(ks)[1..] == Ups(ks[..n]);
      assert (stack + ks)[..|stack + ks| - 1] == stack + ks[..n];
      NestUps(stack, ks[..n]);
    }
  }

  /** The presses not yet matched by a release after the first `a` events of a stroke. */
  function UnmatchedAfter(st: Stroke, a: nat): seq<nat>
    requires a <= |Emit(st)|
  {
    var ks := ModifierKeys(st.modifiers);
    if a <= |ks| then ks[..a] else if a == |ks| + 1 then ks + [st.vk] else ks[..2 * |ks| + 2 - a]
  }

  lemma NestSomeUps(stack: seq<nat>, ks: seq<nat>, j: nat)
    requires j <= |ks|
    ensures Nest(stack + ks, Ups(ks)[..j]) == Some(stack + ks[..|ks| - j])
  {
    var m := |ks| - j;
    assert Ups(ks)[..j] == Ups(ks[m..]);
    assert stack + ks == stack + ks[..m] + ks[m..];
    NestUps(stack + ks[..m], ks[m..]);
  }

  lemma NestStroke(stack: seq<nat>, st: Stroke, a: nat)
    requires a <= |Emit(st)|
    ensures Nest(stack, Emit(st)[..a]) == Some(stack + UnmatchedAfter(st, a))
  {
    var ks, es := ModifierKeys(st.modifiers), Emit(st);
    var n, key := |ks|, [Down(st.vk), Up(st.vk)];
    if a <= n {
      assert es[..a] == Downs(ks[..a]);
      NestDowns(stack, ks[..a]);
    } else if a == n + 1 {
      assert es[..a] == Downs(ks + [st.vk]);
      NestDowns(stack, ks + [st.vk]);
    } else {
      var j := a - n - 2;
      assert es[..a] == Downs(ks) + key + Ups(ks)[..j];
      NestKey(stack, ks, st.vk);
      NestConcat(stack, Downs(ks) + key, Ups(ks)[..j]);
      NestSomeUps(stack, ks, j);
    }
  }

  lemma NestKey(stack: seq<nat>, ks: seq<nat>, vk: nat)
    ensures Nest(stack, Downs(ks) + [Down(vk), Up(vk)]) == Some(stack + ks)
  {
    var key, held := [Down(vk), Up(vk)], stack + ks;
    NestDowns(stack, ks);
    assert key[1..] == [Up(vk)] && key[1..][1..] == [] && (held + [vk])[..|held|] == held;
    assert Nest(held, key) == Nest(held + [vk], key[1..]) == Nest(held, []) == Some(held);
    NestConcat(stack, Downs(ks), key);
  }

  /** The presses a list of strokes leaves unmatched: those of the stroke that was not taken whole. */
  function Unmatched(strokes: seq<Stroke>, accepts: nat -> nat): (r: seq<nat>) {
    if strokes == [] then []
    else
      var n := |strokes| - 1;
      if Deliver(strokes[..n], accepts).ok then UnmatchedAfter(strokes[n], Min(accepts(n), |Emit(strokes[n])|))
      else Unmatched(strokes[..n], accepts)
  }

  /** The stroke after the first `n`, all of them taken whole, was taken in part. */
  ghost predicate CutShort(strokes: seq<Stroke>, accepts: nat -> nat, n: nat) {
    n < |strokes| && Deliver(strokes[..n], accepts).ok && 0 < accepts(n) < |Emit(strokes[n])|
  }

  lemma WholeLeavesNothing(strokes: seq<Stroke>, accepts: nat -> nat)
    requires Deliver(strokes, accepts).ok
    ensures Unmatched(strokes, accepts) == []
  {
  }

  /** The events sent, whatever the sequence, the repetitions and what `SendInput` takes, are properly nested except
      that the presses of a stroke cut short are not all matched. */
  lemma {:induction false} SequenceNests(stack: seq<nat>, strokes: seq<Stroke>, accepts: nat -> nat)
    ensures Nest(stack, Deliver(strokes, accepts).events) == Some(stack + Unmatched(strokes, accepts))
  {
    if strokes == [] {
      assert stack + [] == stack;
    } else {
      var n := |strokes| - 1;
      SequenceNests(stack, strokes[..n], accepts);
      if Deliver(strokes[..n], accepts).ok {
        var a := Min(accepts(n), |Emit(strokes[n])|);
        WholeLeavesNothing(strokes[..n], accepts);
        assert stack + [] == stack;
        NestStroke(stack, strokes[n], a);
        NestConcat(stack, Deliver(strokes[..n], accepts).events, Emit(strokes[n])[..a]);
      }
    }
  }

  lemma UnmatchedStep(strokes: seq<Stroke>, accepts: nat -> nat)
    requires strokes != []
    ensures var n := |strokes| - 1;
            if Deliver(strokes[..n], accepts).ok then
              Unmatched(strokes, accepts) == [] <==> !CutShort(strokes, accepts, n)
            else Unmatched(strokes, accepts) == Unmatched(strokes[..n], accepts) && !CutShort(strokes, accepts, n)
  {
    var n := |strokes| - 1;
    PartLeavesSome(strokes[n], Min(accepts(n), |Emit(strokes[n])|));
  }

  lemma CutShortEarlier(strokes: seq<Stroke>, accepts: nat -> nat, k: nat)
    requires k < |strokes| - 1
    ensures CutShort(strokes, accepts, k) <==> CutShort(strokes[..|strokes| - 1], accepts, k)
  {
    assert strokes[..|strokes| - 1][..k] == strokes[..k];
  }

  /** Some stroke was cut short. */
  ghost predicate SomeCutShort(strokes: seq<Stroke>, accepts: nat -> nat) {
    exists n :: CutShort(strokes, accepts, n)
  }

  lemma SomeCutShortStep(strokes: seq<Stroke>, accepts: nat -> nat)
    requires strokes != []
    ensures var n := |strokes| - 1;
            SomeCutShort(strokes, accepts) <==> SomeCutShort(strokes[..n], accepts) || CutShort(strokes, accepts, n)
  {
    var n := |strokes| - 1;
    if SomeCutShort(strokes, accepts) {
      var k: nat :| CutShort(strokes, accepts, k);
      if k < n {
        CutShortEarlier(strokes, accepts, k);
      }
    }
    if SomeCutShort(strokes[..n], accepts) {
      var k: nat :| CutShort(strokes[..n], accepts, k);
      CutShortEarlier(strokes, accepts, k);
    }
  }

  lemma {:induction false} UnmatchedExactly(strokes: seq<Stroke>, accepts: nat -> nat)
    ensures Unmatched(strokes, accepts) == [] <==> !SomeCutShort(strokes, accepts)
  {
    if strokes != [] {
      var n := |strokes| - 1;
      UnmatchedExactly(strokes[..n], accepts);
      UnmatchedStep(strokes, accepts);
      SomeCutShortStep(strokes, accepts);
      if Deliver(strokes[..n], accepts).ok {
        WholeLeavesNothing(strokes[..n], accepts);
      }
    }
  }

  lemma PartLeavesSome(st: Stroke, a: nat)
    requires a <= |Emit(st)|
    ensures UnmatchedAfter(st, a) == [] <==> a == 0 || a == |Emit(st)|
  {
  }

  /** Every press is matched by a release exactly when no stroke was cut short. */
  lemma PressesMatchedExactly(stack: seq<nat>, strokes: seq<Stroke>, accepts: nat -> nat)
    ensures Nest(stack, Deliver(strokes, accepts).events) == Some(stack) <==> !SomeCutShort(strokes, accepts)
  {
    SequenceNests(stack, strokes, accepts);
    UnmatchedExactly(strokes, accepts);
    assert stack + Unmatched(strokes, accepts) == stack <==> Unmatched(strokes, accepts) == [] by {
      assert |stack + Unmatched(strokes, accepts)| == |stack| + |Unmatched(strokes, accepts)|;
      assert stack + [] == stack;
    }
  }
}
