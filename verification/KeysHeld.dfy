/** Which keys are down after the events a key sequence is sent as (guest/src/ui_sidecar.rs). */
module KeysHeld {
  import opened KeySequence
  import opened KeyLaws
  import opened KeyEvents

  function Held(keys: set<nat>, es: seq<Event>): (r: set<nat>)
    decreases |es|
  {
    if es == [] then keys
    else Held(match es[0] { case Down(k) => keys + {k} case Up(k) => keys - {k} }, es[1..])
  }

  lemma {:induction false} HeldConcat(keys: set<nat>, es: seq<Event>, fs: seq<Event>)
    ensures Held(keys, es + fs) == Held(Held(keys, es), fs)
    decreases |es|
  {
    if es == [] {
      assert es + fs == fs;
    } else {
      assert (es + fs)[1..] == es[1..] + fs;
      HeldConcat(match es[0] { case Down(k) => keys + {k} case Up(k) => keys - {k} }, es[1..], fs);
    }
  }

  function Elements(ks: seq<nat>): set<nat> { set k | k in ks }

  lemma {:induction false} HeldDowns(keys: set<nat>, ks: seq<nat>)
    ensures Held(keys, Downs(ks)) == keys + Elements(ks)
    decreases |ks|
  {
    if ks != [] {
      assert Downs(ks)[1..] == Downs(ks[1..]);
      HeldDowns(keys + {ks[0]}, ks[1..]);
      assert Elements(ks) == {ks[0]} + Elements(ks[1..]);
    }
  }

  lemma {:induction false} HeldUps(keys: set<nat>, ks: seq<nat>)
    ensures Held(keys, Ups(ks)) == keys - Elements(ks)
    decreases |ks|
  {
    if ks != [] {
      var n := |ks| - 1;
      assert Ups(ks)[1..] == Ups(ks[..n]);
      HeldUps(keys - {ks[n]}, ks[..n]);
      assert ks == ks[..n] + [ks[n]];
      assert Elements(ks) == {ks[n]} + Elements(ks[..n]);
    }
  }

  /** When the stroke's key goes down exactly it and its modifiers are held, and afterwards nothing is. */
  lemma StrokeHolds(st: Stroke)
    ensures var ks := ModifierKeys(st.modifiers);
            && Held({}, Downs(ks) + [Down(st.vk)]) == Elements(ks) + {st.vk}
            && Held({}, Downs(ks) + [Down(st.vk), Up(st.vk)]) == Elements(ks) - {st.vk}
            && Held({}, Emit(st)) == {}
  {
    var ks := ModifierKeys(st.modifiers);
    HeldDowns({}, ks);
    HeldConcat({}, Downs(ks), [Down(st.vk)]);
    assert Held(Elements(ks), [Down(st.vk)]) == Elements(ks) + {st.vk};
    var key := [Down(st.vk), Up(st.vk)];
    HeldConcat({}, Downs(ks), key);
    assert key[1..] == [Up(st.vk)] && key[1..][1..] == [];
    assert Held(Elements(ks), key) == Held(Elements(ks) + {st.vk}, key[1..]) == Elements(ks) + {st.vk} - {st.vk};
    HeldConcat({}, Downs(ks) + key, Ups(ks));
    HeldUps(Elements(ks) - {st.vk}, ks);
  }

  lemma KeyIsModifier(vk: nat, m: Modifiers)
    requires Supported(vk)
    ensures vk in Elements(ModifierKeys(m)) <==> vk == VK_LWIN && m.win
  {
  }

  lemma KeptIffAbsent(keys: set<nat>, k: nat)
    ensures keys - {k} == keys <==> k !in keys
  {
    assert k !in keys - {k};
  }

  /** A supported stroke's modifiers stay held until they are released in their turn, except when the Windows key is
      both the key and a modifier. */
  lemma ModifiersHeldThroughout(st: Stroke)
    requires Supported(st.vk)
    ensures var ks := ModifierKeys(st.modifiers);
            Held({}, Downs(ks) + [Down(st.vk), Up(st.vk)]) == Elements(ks) <==> !(st.vk == VK_LWIN && st.modifiers.win)
  {
    StrokeHolds(st);
    KeyIsModifier(st.vk, st.modifiers);
    KeptIffAbsent(Elements(ModifierKeys(st.modifiers)), st.vk);
  }

  // ----- A stroke from any keys, taken in part -----

  function KeysOf(st: Stroke): set<nat> { Elements(ModifierKeys(st.modifiers)) + {st.vk} }

  /** The keys down after the first `a` events of a stroke. */
  function DownAfter(keys: set<nat>, st: Stroke, a: nat): set<nat>
    requires a <= |Emit(st)|
  {
    var ks := ModifierKeys(st.modifiers);
    if a <= |ks| then keys + Elements(ks[..a])
    else if a == |ks| + 1 then keys + Elements(ks) + {st.vk}
    else keys + Elements(ks) - {st.vk} - Elements(ks[2 * |ks| + 2 - a..])
  }

  lemma HeldKey(keys: set<nat>, ks: seq<nat>, vk: nat)
    ensures Held(keys, Downs(ks) + [Down(vk), Up(vk)]) == keys + Elements(ks) - {vk}
  {
    var key, held := [Down(vk), Up(vk)], keys + Elements(ks);
    HeldDowns(keys, ks);
    HeldConcat(keys, Downs(ks), key);
    assert key[1..] == [Up(vk)] && key[1..][1..] == [];
    assert Held(held, key) == Held(held + {vk}, key[1..]) == held + {vk} - {vk};
  }

  lemma HeldPart(keys: set<nat>, st: Stroke, a: nat)
    requires a <= |Emit(st)|
    ensures Held(keys, Emit(st)[..a]) == DownAfter(keys, st, a)
  {
    var ks, es := ModifierKeys(st.modifiers), Emit(st);
    var n := |ks|;
    if a <= n {
      assert es[..a] == Downs(ks[..a]);
      HeldDowns(keys, ks[..a]);
    } else if a == n + 1 {
      assert es[..a] == Downs(ks + [st.vk]);
      HeldDowns(keys, ks + [st.vk]);
      assert Elements(ks + [st.vk]) == Elements(ks) + {st.vk};
    } else {
      var j := a - n - 2;
      assert es[..a] == Downs(ks) + [Down(st.vk), Up(st.vk)] + Ups(ks)[..j];
      assert Ups(ks)[..j] == Ups(ks[n - j..]);
      HeldKey(keys, ks, st.vk);
      HeldConcat(keys, Downs(ks) + [Down(st.vk), Up(st.vk)], Ups(ks)[..j]);
      HeldUps(keys + Elements(ks) - {st.vk}, ks[n - j..]);
    }
  }

  lemma DownAfterWhole(keys: set<nat>, st: Stroke)
    ensures DownAfter(keys, st, |Emit(st)|) == keys - KeysOf(st)
  {
    var ks := ModifierKeys(st.modifiers);
    assert ks[0..] == ks;
  }

  /** The Windows key as its own only modifier: after its own release nothing is down. */
  predicate WinAlone(st: Stroke, a: nat) {
    st.vk == VK_LWIN && st.modifiers == PLAIN.(win := true) && a == 3
  }

  lemma FirstModifier(m: Modifiers)
    ensures var ks := ModifierKeys(m);
            && (forall i, j :: 0 <= i < j < |ks| ==> ks[i] != ks[j])
            && (ks != [] && ks[0] == VK_LWIN ==> ks == [VK_LWIN] && m == PLAIN.(win := true))
  {
  }

  lemma PartLeavesKeys(st: Stroke, a: nat)
    requires Supported(st.vk) && a <= |Emit(st)|
    ensures DownAfter({}, st, a) == {} <==> a == 0 || a == |Emit(st)| || WinAlone(st, a)
  {
    var ks, down := ModifierKeys(st.modifiers), DownAfter({}, st, a);
    FirstModifier(st.modifiers);
    KeyIsModifier(st.vk, st.modifiers);
    if a == |Emit(st)| {
      DownAfterWhole({}, st);
    } else if WinAlone(st, a) {
      assert ks == [VK_LWIN] && down == Elements(ks) - {VK_LWIN} - Elements(ks[1..]);
    } else if a == |ks| + 1 {
      assert st.vk in down;
    } else if a > 0 {
      assert ks != [] && ks[0] in Elements(ks);
      assert a > |ks| + 1 ==> ks[0] != st.vk;
      assert ks[0] in down;
    }
  }

  // ----- A whole sequence -----

  function KeysOfAll(strokes: seq<Stroke>): set<nat> {
    if strokes == [] then {} else KeysOfAll(strokes[..|strokes| - 1]) + KeysOf(strokes[|strokes| - 1])
  }

  /** The keys down after a list of strokes: those of strokes taken whole are up, and the next one has left its mark. */
  function DownAfterAll(keys: set<nat>, strokes: seq<Stroke>, accepts: nat -> nat): set<nat> {
    if strokes == [] then keys
    else
      var n := |strokes| - 1;
      if Deliver(strokes[..n], accepts).ok then
        DownAfter(keys - KeysOfAll(strokes[..n]), strokes[n], Min(accepts(n), |Emit(strokes[n])|))
      else DownAfterAll(keys, strokes[..n], accepts)
  }

  lemma WholeReleases(keys: set<nat>, strokes: seq<Stroke>, accepts: nat -> nat)
    requires Deliver(strokes, accepts).ok
    ensures DownAfterAll(keys, strokes, accepts) == keys - KeysOfAll(strokes)
  {
    if strokes != [] {
      var n := |strokes| - 1;
      DownAfterWhole(keys - KeysOfAll(strokes[..n]), strokes[n]);
    }
  }

  /** For every sequence, every set of keys down before it, and however far each stroke was taken. */
  lemma {:induction false} SequenceHolds(keys: set<nat>, strokes: seq<Stroke>, accepts: nat -> nat)
    ensures Held(keys, Deliver(strokes, accepts).events) == DownAfterAll(keys, strokes, accepts)
  {
    if strokes != [] {
      var n := |strokes| - 1;
      SequenceHolds(keys, strokes[..n], accepts);
      if Deliver(strokes[..n], accepts).ok {
        var a := Min(accepts(n), |Emit(strokes[n])|);
        WholeReleases(keys, strokes[..n], accepts);
        HeldConcat(keys, Deliver(strokes[..n], accepts).events, Emit(strokes[n])[..a]);
        HeldPart(keys - KeysOfAll(strokes[..n]), strokes[n], a);
      }
    }
  }

  /** A sequence taken whole releases every key it sends, so it leaves the keyboard as it was exactly when none of them
      was down before. */
  lemma WholeRestoresExactly(keys: set<nat>, strokes: seq<Stroke>, accepts: nat -> nat)
    requires Deliver(strokes, accepts).ok
    ensures var after := Held(keys, Deliver(strokes, accepts).events);
            after == keys - KeysOfAll(strokes) && (after == keys <==> keys !! KeysOfAll(strokes))
  {
    SequenceHolds(keys, strokes, accepts);
    WholeReleases(keys, strokes, accepts);
    if keys - KeysOfAll(strokes) == keys {
      assert forall k :: k in keys ==> k in keys - KeysOfAll(strokes);
    }
  }

  /** The stroke after the first `n` was cut short and has left a key down. */
  ghost predicate LeavesKey(strokes: seq<Stroke>, accepts: nat -> nat, n: nat) {
    CutShort(strokes, accepts, n) && !WinAlone(strokes[n], accepts(n))
  }

  ghost predicate SomeKeyLeft(strokes: seq<Stroke>, accepts: nat -> nat) {
    exists n :: LeavesKey(strokes, accepts, n)
  }

  lemma SomeKeyLeftStep(strokes: seq<Stroke>, accepts: nat -> nat)
    requires strokes != []
    ensures var n := |strokes| - 1;
            SomeKeyLeft(strokes, accepts) <==> SomeKeyLeft(strokes[..n], accepts) || LeavesKey(strokes, accepts, n)
  {
    var n := |strokes| - 1;
    if SomeKeyLeft(strokes, accepts) {
      var k: nat :| LeavesKey(strokes, accepts, k);
      if k < n {
        CutShortEarlier(strokes, accepts, k);
        assert LeavesKey(strokes[..n], accepts, k);
      }
    }
    if SomeKeyLeft(strokes[..n], accepts) {
      var k: nat :| LeavesKey(strokes[..n], accepts, k);
      CutShortEarlier(strokes, accepts, k);
      assert LeavesKey(strokes, accepts, k);
    }
  }

  lemma LastStrokeLeaves(strokes: seq<Stroke>, accepts: nat -> nat)
    requires strokes != [] && Supported(strokes[|strokes| - 1].vk)
    ensures var n := |strokes| - 1;
            if Deliver(strokes[..n], accepts).ok then
              DownAfterAll({}, strokes, accepts) == {} <==> !LeavesKey(strokes, accepts, n)
            else !LeavesKey(strokes, accepts, n)
  {
    var n := |strokes| - 1;
    assert {} - KeysOfAll(strokes[..n]) == {};
    PartLeavesKeys(strokes[n], Min(accepts(n), |Emit(strokes[n])|));
  }

  lemma {:induction false} NothingLeftExactly(strokes: seq<Stroke>, accepts: nat -> nat)
    requires forall st :: st in strokes ==> Supported(st.vk)
    ensures DownAfterAll({}, strokes, accepts) == {} <==> !SomeKeyLeft(strokes, accepts)
  {
    if strokes != [] {
      var n := |strokes| - 1;
      assert strokes[n] in strokes;
      NothingLeftExactly(strokes[..n], accepts);
      SomeKeyLeftStep(strokes, accepts);
      LastStrokeLeaves(strokes, accepts);
      if Deliver(strokes[..n], accepts).ok {
        WholeReleases({}, strokes[..n], accepts);
      }
    }
  }

  /** From a keyboard with all keys up, any supported sequence, taken however far, leaves all keys up exactly when no
      stroke was cut short, but for the Windows key as its own only modifier cut after its own release. */
  lemma KeysRestoredExactly(strokes: seq<Stroke>, accepts: nat -> nat)
    requires forall st :: st in strokes ==> Supported(st.vk)
    ensures Held({}, Deliver(strokes, accepts).events) == {} <==> !SomeKeyLeft(strokes, accepts)
  {
    SequenceHolds({}, strokes, accepts);
    NothingLeftExactly(strokes, accepts);
  }

  lemma {:induction false} RepeatedMembers(strokes: seq<Stroke>, repeat: nat)
    ensures forall st :: st in Repeated(strokes, repeat) ==> st in strokes
  {
    if repeat > 0 {
      RepeatedMembers(strokes, repeat - 1);
    }
  }

  /** So for every sequence the parser accepts, however often repeated. */
  lemma AcceptedKeysRestoredExactly(keys: string, repeat: nat, accepts: nat -> nat)
    requires Parse(keys).Some?
    ensures var strokes := Repeated(Parse(keys).value, repeat);
            Held({}, Deliver(strokes, accepts).events) == {} <==> !SomeKeyLeft(strokes, accepts)
  {
    ParsePrint(keys);
    RepeatedMembers(Parse(keys).value, repeat);
    KeysRestoredExactly(Repeated(Parse(keys).value, repeat), accepts);
  }
}
