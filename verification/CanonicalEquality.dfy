/** Canonical text determines the value: reading it back, and exactly which values print alike. */
module CanonicalEquality {
  import opened Wrappers
  import opened Utf
  import opened CanonicalJson
  import opened CanonicalRead
  import opened CanonicalNormal

  /** What may follow a value: anything that cannot continue a number. */
  predicate Delimited(rest: Text) { rest == [] || !IsNumUnit(rest[0]) }

  // ----- Reading a printed normal form -----

  lemma FirstUnit(v: Json)
    requires v != Undefined
    ensures Canonicalize(v) != []
    ensures Canonicalize(v)[0] != COMMA && Canonicalize(v)[0] != RBRACK
  {
    if v.Num? {
      assert v.token[0] in v.token;
    }
  }

  lemma {:induction false} NumLengthToken(t: Text, rest: Text)
    requires (forall u :: u in t ==> IsNumUnit(u)) && Delimited(rest)
    ensures NumLength(t + rest) == |t|
  {
    if t == [] {
      assert t + rest == rest;
    } else {
      NumLengthToken(t[1..], rest);
      assert (t + rest)[1..] == t[1..] + rest;
    }
  }

  lemma ReadToken(t: NumToken, rest: Text)
    requires Delimited(rest)
    ensures ReadValue(t + rest) == Some((Num(t), rest))
  {
    var s := t + rest;
    NumLengthToken(t, rest);
    assert t[0] in t && s[0] == t[0];
    assert s[..|t|] == t && s[|t|..] == rest;
  }

  lemma ReadWord(w: Text, rest: Text)
    requires w == NULL || w == TRUE || w == FALSE
    ensures ReadValue(w + rest) == Some((if w == NULL then Null else Bool(w == TRUE), rest))
  {
    var s := w + rest;
    assert w <= s && s[0] == w[0] && s[|w|..] == rest;
  }

  lemma ReadArr(items: seq<Json>, body: Text, rest: Text)
    requires body != [] && body[0] != RBRACK && ReadItems(body) == Some((items, rest))
    ensures ReadValue([LBRACK] + body) == Some((Arr(items), rest))
  {
    var s := [LBRACK] + body;
    assert s[1] == body[0] && s[1..] == body;
  }

  lemma ReadObj(ms: seq<Keyed<Json>>, body: Text, rest: Text)
    requires body != [] && body[0] == QUOTE && ReadMembers(body) == Some((ms, rest))
    ensures ReadValue([LBRACE] + body) == Some((Obj(ms), rest))
  {
    var s := [LBRACE] + body;
    assert s[1] == body[0] && s[1..] == body;
  }

  lemma ReadEmpty(rest: Text)
    ensures ReadValue([LBRACK, RBRACK] + rest) == Some((Arr([]), rest))
    ensures ReadValue([LBRACE, RBRACE] + rest) == Some((Obj([]), rest))
  {
    assert ([LBRACK, RBRACK] + rest)[2..] == rest;
    assert ([LBRACE, RBRACE] + rest)[2..] == rest;
  }

  lemma ReadLastMember(key: Text, v: Json, text: Text, rest: Text)
    requires ReadValue(text) == Some((v, [RBRACE] + rest))
    ensures ReadMembers(Quote(key) + ([COLON] + text)) == Some(([Keyed(key, v)], rest))
  {
    QuoteRoundTrip(key, [COLON] + text);
    assert ([COLON] + text)[1..] == text;
    assert ([RBRACE] + rest)[1..] == rest;
  }

  lemma ReadMember(key: Text, v: Json, text: Text, body: Text, ms: seq<Keyed<Json>>, rest: Text)
    requires ReadValue(text) == Some((v, [COMMA] + body))
    requires ReadMembers(body) == Some((ms, rest))
    ensures ReadMembers(Quote(key) + ([COLON] + text)) == Some(([Keyed(key, v)] + ms, rest))
  {
    QuoteRoundTrip(key, [COLON] + text);
    assert ([COLON] + text)[1..] == text;
    assert ([COMMA] + body)[1..] == body;
  }

  /** `x` is how the array element `v` is printed, in front of `tail`. */
  ghost predicate PrintsElement(v: Json, x: Text, tail: Text) {
    if v == Undefined then x == []
    else x != [] && x[0] != COMMA && x[0] != RBRACK && ReadValue(x + tail) == Some((v, tail))
  }

  lemma ReadLastItem(v: Json, x: Text, rest: Text)
    requires PrintsElement(v, x, [RBRACK] + rest)
    ensures v != Undefined ==> (x + ([RBRACK] + rest))[0] != RBRACK
    ensures ReadItems(x + ([RBRACK] + rest)) == Some(([v], rest))
  {
    assert ([RBRACK] + rest)[1..] == rest;
    assert v == Undefined ==> x + ([RBRACK] + rest) == [RBRACK] + rest;
  }

  lemma ReadItem(v: Json, x: Text, body: Text, items: seq<Json>, rest: Text)
    requires PrintsElement(v, x, [COMMA] + body)
    requires ReadItems(body) == Some((items, rest))
    ensures (x + ([COMMA] + body))[0] != RBRACK
    ensures ReadItems(x + ([COMMA] + body)) == Some(([v] + items, rest))
  {
    assert ([COMMA] + body)[1..] == body;
    assert v == Undefined ==> x + ([COMMA] + body) == [COMMA] + body;
  }

  lemma Assoc4(a: Text, b: Text, c: Text, d: Text)
    ensures a + b + c + d == a + (b + (c + d))
  {
  }

  lemma JoinItemsSplit(items: seq<Json>, end: Text)
    requires |items| > 1
    ensures JoinItems(items) + end == Canonicalize(items[0]) + ([COMMA] + (JoinItems(items[1..]) + end))
  {
    Assoc4(Canonicalize(items[0]), [COMMA], JoinItems(items[1..]), end);
  }

  lemma JoinMembersSplit(m: Keyed<Text>, ms: seq<Keyed<Text>>, end: Text)
    ensures JoinMembers([m]) + end == Quote(m.key) + ([COLON] + (m.val + end))
    ensures ms != [] ==>
              JoinMembers([m] + ms) + end == Quote(m.key) + ([COLON] + (m.val + ([COMMA] + (JoinMembers(ms) + end))))
  {
    Assoc4(Quote(m.key), [COLON], m.val, end);
    if ms != [] {
      var tail := JoinMembers(ms) + end;
      assert ([m] + ms)[1..] == ms;
      Assoc4(Quote(m.key) + [COLON] + m.val, [COMMA], JoinMembers(ms), end);
      Assoc4(Quote(m.key), [COLON], m.val, [COMMA] + tail);
    }
  }

  lemma PrintSorted(ms: seq<Keyed<Json>>)
    requires Sorted(ms) && AllDefined(ms)
    ensures Canonicalize(Obj(ms)) == [LBRACE] + JoinMembers(PrintDefined(ms)) + [RBRACE]
  {
    PrintSort(ms);
    SortFixed(ms);
  }

  lemma {:induction false} ReadNormal(v: Json, rest: Text)
    requires IsNormal(v) && v != Undefined && Delimited(rest)
    ensures ReadValue(Canonicalize(v) + rest) == Some((v, rest))
    decreases v, 0
  {
    match v
    case Null => ReadWord(NULL, rest);
    case Bool(b) => ReadWord(if b then TRUE else FALSE, rest);
    case Num(token) => ReadToken(token, rest);
    case Str(s) => QuoteRoundTrip(s, rest);
    case Arr(items) => ReadNormalArr(items, rest);
    case Obj(ms) => ReadNormalObj(ms, rest);
  }

  lemma {:induction false} ReadNormalArr(items: seq<Json>, rest: Text)
    requires IsNormal(Arr(items))
    ensures ReadValue(Canonicalize(Arr(items)) + rest) == Some((Arr(items), rest))
    decreases items, 2
  {
    if items == [] {
      assert Canonicalize(Arr(items)) + rest == [LBRACK, RBRACK] + rest;
      ReadEmpty(rest);
    } else {
      var body := JoinItems(items) + ([RBRACK] + rest);
      ReadNormalItems(items, rest);
      assert Canonicalize(Arr(items)) + rest == [LBRACK] + body;
      ReadArr(items, body, rest);
    }
  }

  lemma {:induction false} ReadNormalObj(ms: seq<Keyed<Json>>, rest: Text)
    requires IsNormal(Obj(ms))
    ensures ReadValue(Canonicalize(Obj(ms)) + rest) == Some((Obj(ms), rest))
    decreases ms, 2
  {
    PrintSorted(ms);
    if ms == [] {
      assert Canonicalize(Obj(ms)) + rest == [LBRACE, RBRACE] + rest;
      ReadEmpty(rest);
    } else {
      var body := JoinMembers(PrintDefined(ms)) + ([RBRACE] + rest);
      ReadNormalMembers(ms, rest);
      Assoc4([LBRACE], JoinMembers(PrintDefined(ms)), [RBRACE], rest);
      ReadObj(ms, body, rest);
    }
  }

  lemma NormalElement(v: Json, tail: Text)
    requires v != Undefined ==> ReadValue(Canonicalize(v) + tail) == Some((v, tail))
    ensures PrintsElement(v, Canonicalize(v), tail)
  {
    if v != Undefined {
      FirstUnit(v);
    }
  }

  lemma LastNormalItem(v: Json, rest: Text)
    requires PrintsElement(v, Canonicalize(v), [RBRACK] + rest)
    ensures v != Undefined ==> (JoinItems([v]) + ([RBRACK] + rest))[0] != RBRACK
    ensures ReadItems(JoinItems([v]) + ([RBRACK] + rest)) == Some(([v], rest))
  {
    ReadLastItem(v, Canonicalize(v), rest);
  }

  lemma MoreNormalItems(v: Json, items: seq<Json>, rest: Text)
    requires items != [] && ReadItems(JoinItems(items) + ([RBRACK] + rest)) == Some((items, rest))
    requires PrintsElement(v, Canonicalize(v), [COMMA] + (JoinItems(items) + ([RBRACK] + rest)))
    ensures (JoinItems([v] + items) + ([RBRACK] + rest))[0] != RBRACK
    ensures ReadItems(JoinItems([v] + items) + ([RBRACK] + rest)) == Some(([v] + items, rest))
  {
    ReadItem(v, Canonicalize(v), JoinItems(items) + ([RBRACK] + rest), items, rest);
    assert ([v] + items)[1..] == items;
    JoinItemsSplit([v] + items, [RBRACK] + rest);
  }

  lemma {:induction false} ReadNormalItems(items: seq<Json>, rest: Text)
    requires items != [] && forall i :: 0 <= i < |items| ==> IsNormal(items[i])
    ensures items != [Undefined] ==> (JoinItems(items) + ([RBRACK] + rest))[0] != RBRACK
    ensures ReadItems(JoinItems(items) + ([RBRACK] + rest)) == Some((items, rest))
    decreases items, 1
  {
    var v, others := items[0], items[1..];
    assert items == [v] + others;
    var tail := if others == [] then [RBRACK] + rest else [COMMA] + (JoinItems(others) + ([RBRACK] + rest));
    if v != Undefined {
      ReadNormal(v, tail);
    }
    NormalElement(v, tail);
    if others == [] {
      assert items == [v];
      LastNormalItem(v, rest);
    } else {
      ReadNormalItems(others, rest);
      MoreNormalItems(v, others, rest);
    }
  }

  lemma {:induction false} ReadNormalMembers(ms: seq<Keyed<Json>>, rest: Text)
    requires ms != [] && AllDefined(ms) && forall m :: m in ms ==> IsNormal(m.val)
    ensures var s := JoinMembers(PrintDefined(ms)) + ([RBRACE] + rest);
            s[0] == QUOTE && ReadMembers(s) == Some((ms, rest))
    decreases ms, 1
  {
    var m, others := ms[0], PrintDefined(ms[1..]);
    assert ms == [m] + ms[1..];
    PrintCons(m, ms[1..]);
    PrintDefinedLength(ms[1..]);
    JoinMembersSplit(Printed(m), others, [RBRACE] + rest);
    if |ms| == 1 {
      ReadNormal(m.val, [RBRACE] + rest);
      PrintedLast(m, rest);
      assert PrintDefined(ms) == [Printed(m)];
      assert ms == [m];
    } else {
      var body := JoinMembers(others) + ([RBRACE] + rest);
      ReadNormal(m.val, [COMMA] + body);
      ReadNormalMembers(ms[1..], rest);
      ReadMember(m.key, m.val, Canonicalize(m.val) + ([COMMA] + body), body, ms[1..], rest);
    }
  }

  lemma PrintedLast(m: Keyed<Json>, rest: Text)
    requires ReadValue(Canonicalize(m.val) + ([RBRACE] + rest)) == Some((m.val, [RBRACE] + rest))
    ensures ReadMembers(JoinMembers([Printed(m)]) + ([RBRACE] + rest)) == Some(([m], rest))
  {
    JoinMembersSplit(Printed(m), [], [RBRACE] + rest);
    ReadLastMember(m.key, m.val, Canonicalize(m.val) + ([RBRACE] + rest), rest);
  }

  lemma {:induction false} PrintDefinedLength(ms: seq<Keyed<Json>>)
    requires AllDefined(ms)
    ensures |PrintDefined(ms)| == |ms|
  {
    if ms != [] {
      PrintDefinedLength(ms[1..]);
    }
  }

  /** A reader recovers the value from its canonical text, up to normal form, and printing what it read
      gives the same text again. */
  lemma CanonicalRoundTrip(v: Json)
    requires v != Undefined
    ensures ReadValue(Canonicalize(v)) == Some((Normalize(v), []))
    ensures Canonicalize(ReadValue(Canonicalize(v)).value.0) == Canonicalize(v)
  {
    NormalizeKeeps(v);
    ReadNormal(Normalize(v), []);
    assert Canonicalize(v) + [] == Canonicalize(v);
  }

  // ----- Same values have the same normal form, and only they do -----

  /** No key occurs twice, said of the elements rather than of their positions. */
  ghost predicate KeysOnce<T(!new)>(ms: seq<Keyed<T>>) {
    && (forall m, n :: m in ms && n in ms && m.key == n.key ==> m == n)
    && (forall m :: m in ms ==> multiset(ms)[m] == 1)
  }

  lemma {:induction false} HeadLeast<T>(ms: seq<Keyed<T>>, m: Keyed<T>)
    requires Sorted(ms) && m in ms
    ensures LexLeq(ms[0].key, m.key)
  {
    if m == ms[0] {
      LexTotal(m.key, m.key);
    } else {
      HeadLeast(ms[1..], m);
      LexTransitive(ms[0].key, ms[1].key, m.key);
    }
  }

  lemma SameHead<T(!new)>(x: seq<Keyed<T>>, y: seq<Keyed<T>>)
    requires Sorted(x) && Sorted(y) && multiset(x) == multiset(y) && KeysOnce(x) && x != []
    ensures y != [] && x[0] == y[0]
  {
    assert x[0] in multiset(y);
    assert y[0] in multiset(x);
    HeadLeast(x, y[0]);
    HeadLeast(y, x[0]);
    LexTotal(x[0].key, y[0].key);
  }

  lemma TailMultiset<T>(x: seq<T>)
    requires x != []
    ensures multiset(x[1..]) == multiset(x) - multiset{x[0]}
  {
    assert x == [x[0]] + x[1..];
  }

  lemma TailKeysOnce<T(!new)>(x: seq<Keyed<T>>)
    requires x != [] && KeysOnce(x)
    ensures KeysOnce(x[1..])
  {
    TailMultiset(x);
    forall m | m in x[1..]
      ensures multiset(x[1..])[m] == 1
    {
      assert m in x && m in multiset(x[1..]);
    }
  }

  /** A sorted list without repeated keys is determined by its elements. */
  lemma {:induction false} SortedUnique<T(!new)>(x: seq<Keyed<T>>, y: seq<Keyed<T>>)
    requires Sorted(x) && Sorted(y) && multiset(x) == multiset(y) && KeysOnce(x)
    ensures x == y
  {
    if x == [] {
      assert |multiset(x)| == |multiset(y)|;
    } else {
      SameHead(x, y);
      TailMultiset(x);
      TailMultiset(y);
      TailKeysOnce(x);
      SortedUnique(x[1..], y[1..]);
      assert x == [x[0]] + x[1..] && y == [y[0]] + y[1..];
    }
  }

  function Normalized(m: Keyed<Json>): Keyed<Json> { Keyed(m.key, Normalize(m.val)) }

  lemma {:induction false} DefinedElements(ms: seq<Keyed<Json>>, m: Keyed<Json>)
    ensures m in NormalizeDefined(ms) <==>
            exists i :: 0 <= i < |ms| && ms[i].val != Undefined && m == Normalized(ms[i])
  {
    if ms != [] {
      DefinedElements(ms[1..], m);
      if i :| 0 <= i < |ms| && ms[i].val != Undefined && m == Normalized(ms[i]) {
        if i > 0 {
          assert ms[i] == ms[1..][i - 1];
        }
      }
    }
  }

  lemma {:induction false} DefinedKeysOnce(ms: seq<Keyed<Json>>)
    requires DistinctKeys(ms)
    ensures KeysOnce(NormalizeDefined(ms))
  {
    if ms != [] {
      var rest := NormalizeDefined(ms[1..]);
      DefinedKeysOnce(ms[1..]);
      if ms[0].val != Undefined {
        forall m | m in rest
          ensures m.key != ms[0].key
        {
          DefinedElements(ms[1..], m);
          var i :| 0 <= i < |ms[1..]| && m == Normalized(ms[1..][i]);
          assert ms[1..][i] == ms[i + 1];
        }
        assert NormalizeDefined(ms) == [Normalized(ms[0])] + rest;
      }
    }
  }

  lemma OnceMultiset(x: seq<Keyed<Json>>, y: seq<Keyed<Json>>)
    requires KeysOnce(x) && KeysOnce(y)
    requires forall m :: m in x <==> m in y
    ensures multiset(x) == multiset(y)
  {
    forall m
      ensures multiset(x)[m] == multiset(y)[m]
    {
      if m !in x {
        assert m !in multiset(x) && m !in multiset(y);
      }
    }
  }

  lemma SortKeysOnce(x: seq<Keyed<Json>>)
    requires KeysOnce(x)
    ensures KeysOnce(Sort(x))
  {
    SortElements(x);
  }

  lemma SameElementsSort(x: seq<Keyed<Json>>, y: seq<Keyed<Json>>)
    requires KeysOnce(x) && KeysOnce(y)
    requires forall m :: m in x <==> m in y
    ensures Sort(x) == Sort(y)
  {
    OnceMultiset(x, y);
    SortSorted(x);
    SortSorted(y);
    SortKeysOnce(x);
    SortedUnique(Sort(x), Sort(y));
  }

  /** Every defined member of `a` has a counterpart in `b`. */
  ghost predicate Covered(a: seq<Keyed<Json>>, b: seq<Keyed<Json>>) {
    forall m :: m in NormalizeDefined(a) ==> m in NormalizeDefined(b)
  }

  /** `Same` on objects, with the members compared by their normal forms. */
  ghost predicate SameMembers(a: seq<Keyed<Json>>, b: seq<Keyed<Json>>) {
    && DefinedKeys(a) == DefinedKeys(b)
    && forall i, j :: 0 <= i < |a| && 0 <= j < |b| && Corresponding(a[i], b[j]) ==> Normalized(a[i]) == Normalized(b[j])
  }

  lemma SameMembersCovered(a: seq<Keyed<Json>>, b: seq<Keyed<Json>>)
    requires SameMembers(a, b)
    ensures Covered(a, b)
  {
    forall m | m in NormalizeDefined(a)
      ensures m in NormalizeDefined(b)
    {
      DefinedElements(a, m);
      var i :| 0 <= i < |a| && a[i].val != Undefined && m == Normalized(a[i]);
      assert a[i].key in DefinedKeys(a);
      assert a[i].key in DefinedKeys(b);
      var j :| 0 <= j < |b| && b[j].val != Undefined && b[j].key == a[i].key;
      assert Corresponding(a[i], b[j]);
      DefinedElements(b, m);
    }
  }

  lemma CoveredMember(a: seq<Keyed<Json>>, b: seq<Keyed<Json>>, i: nat) returns (j: nat)
    requires Covered(a, b) && i < |a| && a[i].val != Undefined
    ensures j < |b| && b[j].val != Undefined && Normalized(a[i]) == Normalized(b[j])
  {
    DefinedElements(a, Normalized(a[i]));
    DefinedElements(b, Normalized(a[i]));
    j :| 0 <= j < |b| && b[j].val != Undefined && Normalized(a[i]) == Normalized(b[j]);
  }

  lemma CoveredKeys(a: seq<Keyed<Json>>, b: seq<Keyed<Json>>)
    requires Covered(a, b)
    ensures DefinedKeys(a) <= DefinedKeys(b)
  {
    forall k | k in DefinedKeys(a)
      ensures k in DefinedKeys(b)
    {
      var i :| 0 <= i < |a| && a[i].val != Undefined && a[i].key == k;
      var j := CoveredMember(a, b, i);
      assert b[j].key == k;
    }
  }

  lemma CoveredSameMembers(a: seq<Keyed<Json>>, b: seq<Keyed<Json>>)
    requires DistinctKeys(b) && Covered(a, b) && Covered(b, a)
    ensures SameMembers(a, b)
  {
    CoveredKeys(a, b);
    CoveredKeys(b, a);
    forall i, j | 0 <= i < |a| && 0 <= j < |b| && Corresponding(a[i], b[j])
      ensures Normalized(a[i]) == Normalized(b[j])
    {
      var j' := CoveredMember(a, b, i);
      assert j' == j;
    }
  }

  lemma NormalObjEqual(a: seq<Keyed<Json>>, b: seq<Keyed<Json>>)
    requires DistinctKeys(a) && DistinctKeys(b)
    ensures SameMembers(a, b) <==> Sort(NormalizeDefined(a)) == Sort(NormalizeDefined(b))
  {
    var x, y := NormalizeDefined(a), NormalizeDefined(b);
    if Sort(x) == Sort(y) {
      SortElements(x);
      SortElements(y);
      CoveredSameMembers(a, b);
    }
    if SameMembers(a, b) {
      SameMembersCovered(a, b);
      SameMembersCovered(b, a);
      DefinedKeysOnce(a);
      DefinedKeysOnce(b);
      SameElementsSort(x, y);
    }
  }

  lemma SameArrNormal(a: seq<Json>, b: seq<Json>)
    requires var x, y := Elements(a), Elements(b);
             forall i :: 0 <= i < |x| && i < |y| ==> (Same(x[i], y[i]) <==> Normalize(x[i]) == Normalize(y[i]))
    ensures Same(Arr(a), Arr(b)) <==> Normalize(Arr(a)) == Normalize(Arr(b))
  {
    var x, y := NormalizeItems(Elements(a)), NormalizeItems(Elements(b));
    assert Normalize(Arr(a)) == Arr(x) && Normalize(Arr(b)) == Arr(y);
    assert x == y <==> |x| == |y| && forall i :: 0 <= i < |x| ==> x[i] == y[i];
  }

  lemma SameObjMembers(a: seq<Keyed<Json>>, b: seq<Keyed<Json>>)
    requires forall i, j :: 0 <= i < |a| && 0 <= j < |b| ==>
                              (Same(a[i].val, b[j].val) <==> Normalize(a[i].val) == Normalize(b[j].val))
    ensures Same(Obj(a), Obj(b)) <==> SameMembers(a, b)
  {
    forall i, j | 0 <= i < |a| && 0 <= j < |b| && Corresponding(a[i], b[j])
      ensures Same(a[i].val, b[j].val) <==> Normalized(a[i]) == Normalized(b[j])
    {
    }
  }

  lemma {:induction false} SameIffNormal(v: Json, w: Json)
    requires Proper(v) && Proper(w)
    ensures Same(v, w) <==> Normalize(v) == Normalize(w)
  {
    match (v, w)
    case (Arr(a), Arr(b)) =>
      var x, y := Elements(a), Elements(b);
      forall i | 0 <= i < |x| && i < |y|
        ensures Same(x[i], y[i]) <==> Normalize(x[i]) == Normalize(y[i])
      {
        SameIffNormal(x[i], y[i]);
      }
      SameArrNormal(a, b);
    case (Obj(a), Obj(b)) =>
      forall i, j | 0 <= i < |a| && 0 <= j < |b|
        ensures Same(a[i].val, b[j].val) <==> Normalize(a[i].val) == Normalize(b[j].val)
      {
        SameIffNormal(a[i].val, b[j].val);
      }
      SameObjMembers(a, b);
      NormalObjEqual(a, b);
    case _ =>
  }

  /** Two values print the same canonical text exactly when they are the same up to member order and
      `undefined` members. */
  lemma CanonicalExact(v: Json, w: Json)
    requires Proper(v) && Proper(w) && v != Undefined && w != Undefined
    ensures Canonicalize(v) == Canonicalize(w) <==> Same(v, w)
  {
    SameIffNormal(v, w);
    NormalizeKeeps(v);
    NormalizeKeeps(w);
    CanonicalRoundTrip(v);
    CanonicalRoundTrip(w);
  }

  /** Listing an object's members in another order gives the same value, hence the same text. */
  lemma InsertionOrderIrrelevant(a: seq<Keyed<Json>>, b: seq<Keyed<Json>>)
    requires Proper(Obj(a)) && Proper(Obj(b)) && multiset(a) == multiset(b)
    ensures Same(Obj(a), Obj(b)) && Canonicalize(Obj(a)) == Canonicalize(Obj(b))
  {
    forall i, j | 0 <= i < |a| && 0 <= j < |b| && Corresponding(a[i], b[j])
      ensures Same(a[i].val, b[j].val)
    {
      assert b[j] in multiset(a);
      var k :| 0 <= k < |a| && a[k] == b[j];
      assert k == i;
      SameIffNormal(a[i].val, b[j].val);
    }
    forall k
      ensures k in DefinedKeys(a) <==> k in DefinedKeys(b)
    {
      if k in DefinedKeys(a) {
        PermutedKeys(a, b, k);
      } else if k in DefinedKeys(b) {
        PermutedKeys(b, a, k);
      }
    }
    CanonicalExact(Obj(a), Obj(b));
  }

  lemma PermutedKeys(a: seq<Keyed<Json>>, b: seq<Keyed<Json>>, k: Text)
    requires multiset(a) == multiset(b) && k in DefinedKeys(a)
    ensures k in DefinedKeys(b)
  {
    var i :| 0 <= i < |a| && a[i].val != Undefined && a[i].key == k;
    assert a[i] in multiset(b);
  }

  // ----- Canonical text can be encoded without loss -----

  lemma {:induction false} EscapeWellFormed(s: Text)
    ensures WellFormed(Escape(s))
  {
    if s != [] {
      if StartsWithPair(s) {
        EscapeWellFormed(s[2..]);
        assert WellFormed([s[0], s[1]]);
        WellFormedConcat([s[0], s[1]], Escape(s[2..]));
      } else {
        EscapeWellFormed(s[1..]);
        WellFormedPlain(EscapeUnit(s[0]));
        WellFormedConcat(EscapeUnit(s[0]), Escape(s[1..]));
      }
    }
  }

  lemma Around(a: Text, s: Text, b: Text)
    requires WellFormed(a) && WellFormed(s) && WellFormed(b)
    ensures WellFormed(a + s + b)
  {
    WellFormedConcat(a, s);
    WellFormedConcat(a + s, b);
  }

  lemma QuoteWellFormed(s: Text)
    ensures WellFormed(Quote(s))
  {
    EscapeWellFormed(s);
    Around([QUOTE], Escape(s), [QUOTE]);
  }

  lemma {:induction false} JoinMembersWellFormed(ms: seq<Keyed<Text>>)
    requires forall m :: m in ms ==> WellFormed(m.val)
    ensures WellFormed(JoinMembers(ms))
  {
    if ms != [] {
      var first := Quote(ms[0].key) + [COLON] + ms[0].val;
      QuoteWellFormed(ms[0].key);
      Around(Quote(ms[0].key), [COLON], ms[0].val);
      JoinMembersWellFormed(ms[1..]);
      Around(first, [COMMA], JoinMembers(ms[1..]));
    }
  }

  lemma {:induction false} PrintedWellFormed(v: Json)
    ensures WellFormed(Canonicalize(v))
    decreases v, 0
  {
    match v
    case Num(t) => WellFormedPlain(t);
    case Str(s) => QuoteWellFormed(s);
    case Arr(items) =>
      ItemsWellFormed(items);
      Around([LBRACK], JoinItems(items), [RBRACK]);
    case Obj(ms) =>
      MembersWellFormed(ms);
      var printed := Sort(PrintDefined(ms));
      SortElements(PrintDefined(ms));
      JoinMembersWellFormed(printed);
      Around([LBRACE], JoinMembers(printed), [RBRACE]);
    case _ =>
      WellFormedPlain(Canonicalize(v));
  }

  lemma {:induction false} ItemsWellFormed(items: seq<Json>)
    ensures WellFormed(JoinItems(items))
    decreases items, 1
  {
    if items != [] {
      PrintedWellFormed(items[0]);
      ItemsWellFormed(items[1..]);
      Around(Canonicalize(items[0]), [COMMA], JoinItems(items[1..]));
    }
  }

  lemma {:induction false} MembersWellFormed(ms: seq<Keyed<Json>>)
    ensures forall m :: m in PrintDefined(ms) ==> WellFormed(m.val)
    decreases ms, 1
  {
    if ms != [] {
      PrintedWellFormed(ms[0].val);
      MembersWellFormed(ms[1..]);
    }
  }

  /** The same for the UTF-8 bytes that are signed: lone surrogates are escaped, so encoding loses nothing. */
  lemma CanonicalBytesExact(v: Json, w: Json)
    requires Proper(v) && Proper(w) && v != Undefined && w != Undefined
    ensures Utf8(Canonicalize(v)) == Utf8(Canonicalize(w)) <==> Same(v, w)
  {
    CanonicalExact(v, w);
    PrintedWellFormed(v);
    PrintedWellFormed(w);
    if Utf8(Canonicalize(v)) == Utf8(Canonicalize(w)) {
      Utf8Injective(Canonicalize(v), Canonicalize(w));
    }
  }
}
