/** The normal form of a value: the one its canonical text denotes. */
module CanonicalNormal {
  import opened Utf
  import opened CanonicalJson

  /** The value a canonical text denotes. */
  function Normalize(v: Json): (n: Json)
    ensures n == Undefined <==> v == Undefined
    decreases v, 0
  {
    match v
    case NonFinite(_) => Null
    case Arr(items) => if items == [Undefined] then Arr([]) else Arr(NormalizeItems(items))
    case Obj(members) => Obj(Sort(NormalizeDefined(members)))
    case _ => v
  }

  function NormalizeItems(items: seq<Json>): (r: seq<Json>)
    ensures |r| == |items| && forall i :: 0 <= i < |items| ==> r[i] == Normalize(items[i])
    decreases items, 1
  {
    if items == [] then [] else [Normalize(items[0])] + NormalizeItems(items[1..])
  }

  function NormalizeDefined(members: seq<Keyed<Json>>): (r: seq<Keyed<Json>>)
    decreases members, 1
  {
    if members == [] then []
    else if members[0].val == Undefined then NormalizeDefined(members[1..])
    else [Keyed(members[0].key, Normalize(members[0].val))] + NormalizeDefined(members[1..])
  }

  ghost predicate Sorted<T>(ms: seq<Keyed<T>>) {
    |ms| < 2 || (LexLeq(ms[0].key, ms[1].key) && Sorted(ms[1..]))
  }

  ghost predicate IsNormal(v: Json) {
    match v
    case NonFinite(_) => false
    case Arr(items) => items != [Undefined] && forall i :: 0 <= i < |items| ==> IsNormal(items[i])
    case Obj(ms) => Sorted(ms) && AllDefined(ms) && forall m :: m in ms ==> IsNormal(m.val)
    case _ => true
  }

  /** Up to `n` the two are alike; there `a` has ended or has the smaller unit. */
  predicate SmallerAt(a: Text, b: Text, n: nat) {
    n <= |a| && n < |b| && a[..n] == b[..n] && (n == |a| || a[n] < b[n])
  }

  /** The order of strings by their UTF-16 code units. */
  ghost predicate InOrder(a: Text, b: Text) { a == b || exists n: nat :: SmallerAt(a, b, n) }

  lemma SmallerAfter(a: Text, b: Text, n: nat)
    requires a != [] && b != [] && a[0] == b[0]
    ensures SmallerAt(a, b, n + 1) <==> SmallerAt(a[1..], b[1..], n)
  {
    if n < |a| && n + 1 < |b| {
      assert a[..n + 1] == [a[0]] + a[1..][..n] && b[..n + 1] == [b[0]] + b[1..][..n];
    }
  }

  lemma {:induction false} LexIsUnitOrder(a: Text, b: Text)
    ensures LexLeq(a, b) <==> InOrder(a, b)
  {
    if a == [] || b == [] || a[0] != b[0] {
      assert a != b && LexLeq(a, b) ==> SmallerAt(a, b, 0);
    } else {
      LexIsUnitOrder(a[1..], b[1..]);
      assert a == [a[0]] + a[1..] && b == [b[0]] + b[1..];
      if LexLeq(a, b) && a != b {
        var n: nat :| SmallerAt(a[1..], b[1..], n);
        SmallerAfter(a, b, n);
      }
      if InOrder(a, b) && a != b {
        var n: nat :| SmallerAt(a, b, n);
        assert n > 0;
        SmallerAfter(a, b, n - 1);
      }
    }
  }

  lemma {:induction false} LexTotal(a: Text, b: Text)
    ensures LexLeq(a, b) || LexLeq(b, a)
    ensures LexLeq(a, b) && LexLeq(b, a) ==> a == b
  {
    if a != [] && b != [] {
      LexTotal(a[1..], b[1..]);
      if a[0] == b[0] && a[1..] == b[1..] {
        assert a == [a[0]] + a[1..] && b == [b[0]] + b[1..];
      }
    }
  }

  lemma {:induction false} LexTransitive(a: Text, b: Text, c: Text)
    requires LexLeq(a, b) && LexLeq(b, c)
    ensures LexLeq(a, c)
  {
    if a != [] && a[0] == b[0] == c[0] {
      LexTransitive(a[1..], b[1..], c[1..]);
    }
  }

  lemma {:induction false} InsertSorted<T>(m: Keyed<T>, ms: seq<Keyed<T>>)
    requires Sorted(ms)
    ensures Sorted(Insert(m, ms))
    ensures ms != [] ==> Insert(m, ms)[0] == m || Insert(m, ms)[0] == ms[0]
  {
    if ms != [] && !LexLeq(m.key, ms[0].key) {
      LexTotal(m.key, ms[0].key);
      InsertSorted(m, ms[1..]);
      assert ([ms[0]] + Insert(m, ms[1..]))[1..] == Insert(m, ms[1..]);
    } else {
      assert ([m] + ms)[1..] == ms;
    }
  }

  lemma {:induction false} SortSorted<T>(ms: seq<Keyed<T>>)
    ensures Sorted(Sort(ms))
  {
    if ms != [] {
      SortSorted(ms[1..]);
      InsertSorted(ms[0], Sort(ms[1..]));
    }
  }

  lemma {:induction false} SortedAt<T>(ms: seq<Keyed<T>>, i: nat, j: nat)
    requires Sorted(ms) && i <= j < |ms|
    ensures LexLeq(ms[i].key, ms[j].key)
  {
    if i > 0 {
      SortedAt(ms[1..], i - 1, j - 1);
    } else if j == 0 {
      LexTotal(ms[0].key, ms[0].key);
    } else {
      SortedAt(ms[1..], 0, j - 1);
      LexTransitive(ms[0].key, ms[1].key, ms[j].key);
    }
  }

  /** The members of an object are printed between braces in the order of their keys' code units. */
  lemma PrintedInOrder(ms: seq<Keyed<Json>>)
    ensures var printed := Sort(PrintDefined(ms));
            && Canonicalize(Obj(ms)) == Ascii("{") + JoinMembers(printed) + Ascii("}")
            && multiset(printed) == multiset(PrintDefined(ms))
            && forall i, j :: 0 <= i <= j < |printed| ==> InOrder(printed[i].key, printed[j].key)
  {
    var printed := Sort(PrintDefined(ms));
    SortSorted(PrintDefined(ms));
    forall i, j | 0 <= i <= j < |printed|
      ensures InOrder(printed[i].key, printed[j].key)
    {
      SortedAt(printed, i, j);
      LexIsUnitOrder(printed[i].key, printed[j].key);
    }
    assert Ascii("{") == [LBRACE] && Ascii("}") == [RBRACE];
  }

  lemma {:induction false} SortFixed<T>(ms: seq<Keyed<T>>)
    requires Sorted(ms)
    ensures Sort(ms) == ms
  {
    if ms != [] {
      SortFixed(ms[1..]);
      assert ms == [ms[0]] + ms[1..];
    }
  }

  // ----- Printing the normal form prints the value -----

  ghost predicate AllDefined(ms: seq<Keyed<Json>>) {
    forall m :: m in ms ==> m.val != Undefined
  }

  function Printed(m: Keyed<Json>): Keyed<Text> { Keyed(m.key, Canonicalize(m.val)) }

  lemma PrintCons(m: Keyed<Json>, ms: seq<Keyed<Json>>)
    requires m.val != Undefined
    ensures PrintDefined([m] + ms) == [Printed(m)] + PrintDefined(ms)
  {
    assert ([m] + ms)[1..] == ms;
  }

  lemma {:induction false} PrintInsert(m: Keyed<Json>, ms: seq<Keyed<Json>>)
    requires m.val != Undefined && AllDefined(ms)
    ensures PrintDefined(Insert(m, ms)) == Insert(Printed(m), PrintDefined(ms))
    ensures AllDefined(Insert(m, ms))
  {
    if ms == [] {
      PrintCons(m, ms);
    } else {
      PrintCons(ms[0], ms[1..]);
      assert ms == [ms[0]] + ms[1..];
      assert PrintDefined(ms)[1..] == PrintDefined(ms[1..]);
      if LexLeq(m.key, ms[0].key) {
        PrintCons(m, ms);
      } else {
        PrintInsert(m, ms[1..]);
        PrintCons(ms[0], Insert(m, ms[1..]));
      }
    }
  }

  lemma {:induction false} PrintSort(ms: seq<Keyed<Json>>)
    requires AllDefined(ms)
    ensures PrintDefined(Sort(ms)) == Sort(PrintDefined(ms))
    ensures AllDefined(Sort(ms))
  {
    if ms != [] {
      PrintSort(ms[1..]);
      PrintInsert(ms[0], Sort(ms[1..]));
      assert PrintDefined(ms)[1..] == PrintDefined(ms[1..]);
    }
  }

  lemma {:induction false} NormalizeItemsKeeps(items: seq<Json>)
    requires forall i :: 0 <= i < |items| ==> Canonicalize(Normalize(items[i])) == Canonicalize(items[i])
    ensures JoinItems(NormalizeItems(items)) == JoinItems(items)
  {
    if items != [] {
      NormalizeItemsKeeps(items[1..]);
    }
  }

  lemma {:induction false} NormalizeDefinedKeeps(ms: seq<Keyed<Json>>)
    requires forall m :: m in ms ==> IsNormal(Normalize(m.val)) && Canonicalize(Normalize(m.val)) == Canonicalize(m.val)
    ensures PrintDefined(NormalizeDefined(ms)) == PrintDefined(ms)
    ensures AllDefined(NormalizeDefined(ms)) && forall m :: m in NormalizeDefined(ms) ==> IsNormal(m.val)
  {
    if ms != [] {
      NormalizeDefinedKeeps(ms[1..]);
      if ms[0].val != Undefined {
        PrintCons(Keyed(ms[0].key, Normalize(ms[0].val)), NormalizeDefined(ms[1..]));
      }
    }
  }

  lemma SortElements<T>(ms: seq<Keyed<T>>)
    ensures forall m :: m in Sort(ms) <==> m in ms
  {
    assert forall m :: m in Sort(ms) <==> m in multiset(Sort(ms));
  }

  lemma NormalizeObjKeeps(ms: seq<Keyed<Json>>)
    requires forall m :: m in ms ==> IsNormal(Normalize(m.val)) && Canonicalize(Normalize(m.val)) == Canonicalize(m.val)
    ensures IsNormal(Obj(Sort(NormalizeDefined(ms))))
    ensures Sort(PrintDefined(Sort(NormalizeDefined(ms)))) == Sort(PrintDefined(ms))
  {
    var n := NormalizeDefined(ms);
    NormalizeDefinedKeeps(ms);
    SortElements(n);
    SortSorted(n);
    PrintSort(n);
    SortSorted(PrintDefined(n));
    SortFixed(Sort(PrintDefined(n)));
  }

  /** Normalizing changes nothing that is printed. */
  lemma {:induction false} NormalizeKeeps(v: Json)
    ensures IsNormal(Normalize(v))
    ensures Canonicalize(Normalize(v)) == Canonicalize(v)
  {
    match v
    case Arr(items) =>
      forall i | 0 <= i < |items|
        ensures IsNormal(Normalize(items[i])) && Canonicalize(Normalize(items[i])) == Canonicalize(items[i])
      {
        NormalizeKeeps(items[i]);
      }
      NormalizeItemsKeeps(items);
    case Obj(ms) =>
      forall m | m in ms
        ensures IsNormal(Normalize(m.val)) && Canonicalize(Normalize(m.val)) == Canonicalize(m.val)
      {
        NormalizeKeeps(m.val);
      }
      NormalizeObjKeeps(ms);
    case _ =>
  }
}
