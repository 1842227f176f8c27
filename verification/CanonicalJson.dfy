/** The canonical manifest text of registry/src/signing.ts: sorted keys, no whitespace, no `undefined` members. */
module CanonicalJson {
  import opened Utf

  datatype Keyed<T> = Keyed(key: Text, val: T)

  /** A JavaScript value as `canonicalize` sees it. `Undefined` only occurs inside arrays and objects. A finite number
      is the text `JSON.stringify` prints for it. Members are listed in the object's own enumeration order. */
  datatype Json =
    | Undefined
    | Null
    | Bool(b: bool)
    | NonFinite(nan: bool)
    | Num(token: NumToken)
    | Str(s: Text)
    | Arr(items: seq<Json>)
    | Obj(members: seq<Keyed<Json>>)

  predicate IsNumUnit(u: Unit) {
    0x30 <= u <= 0x39 || u == 0x2B || u == 0x2D || u == 0x2E || u == 0x45 || u == 0x65
  }

  type NumToken = t: Text | t != [] && forall u :: u in t ==> IsNumUnit(u) witness [0x30]

  const QUOTE: Unit := 0x22
  const BACKSLASH: Unit := 0x5C
  const COMMA: Unit := 0x2C
  const COLON: Unit := 0x3A
  const LBRACK: Unit := 0x5B
  const RBRACK: Unit := 0x5D
  const LBRACE: Unit := 0x7B
  const RBRACE: Unit := 0x7D
  const NULL: Text := [0x6E, 0x75, 0x6C, 0x6C]
  const TRUE: Text := [0x74, 0x72, 0x75, 0x65]
  const FALSE: Text := [0x66, 0x61, 0x6C, 0x73, 0x65]

  // ----- Strings: JSON.stringify's quoting -----

  function HexDigit(n: int): (u: Unit)
    requires 0 <= n < 16
  {
    if n < 10 then 0x30 + n else 0x61 + n - 10
  }

  function HexEscape(u: Unit): Text {
    var c: int := u;
    [BACKSLASH, 0x75, HexDigit(c / 4096), HexDigit(c / 256 % 16), HexDigit(c / 16 % 16), HexDigit(c % 16)]
  }

  function EscapeUnit(u: Unit): Text {
    if u == QUOTE then [BACKSLASH, QUOTE]
    else if u == BACKSLASH then [BACKSLASH, BACKSLASH]
    else if u == 0x08 then [BACKSLASH, 0x62]
    else if u == 0x0C then [BACKSLASH, 0x66]
    else if u == 0x0A then [BACKSLASH, 0x6E]
    else if u == 0x0D then [BACKSLASH, 0x72]
    else if u == 0x09 then [BACKSLASH, 0x74]
    else if u < 0x20 || IsHigh(u) || IsLow(u) then HexEscape(u)
    else [u]
  }

  /** Surrogate pairs are printed as they are; a lone surrogate is printed as a hex escape. */
  function Escape(s: Text): Text {
    if s == [] then []
    else if StartsWithPair(s) then [s[0], s[1]] + Escape(s[2..])
    else EscapeUnit(s[0]) + Escape(s[1..])
  }

  function Quote(s: Text): Text { [QUOTE] + Escape(s) + [QUOTE] }

  // ----- Key order: UTF-16 code units, as Array.prototype.sort compares strings -----

  predicate LexLeq(a: Text, b: Text) {
    if a == [] then true
    else if b == [] then false
    else if a[0] != b[0] then a[0] < b[0]
    else LexLeq(a[1..], b[1..])
  }

  function Insert<T>(m: Keyed<T>, ms: seq<Keyed<T>>): (r: seq<Keyed<T>>)
    ensures multiset(r) == multiset{m} + multiset(ms)
  {
    if ms == [] then [m]
    else if LexLeq(m.key, ms[0].key) then [m] + ms
    else
      assert ms == [ms[0]] + ms[1..];
      [ms[0]] + Insert(m, ms[1..])
  }

  function Sort<T>(ms: seq<Keyed<T>>): (r: seq<Keyed<T>>)
    ensures multiset(r) == multiset(ms)
  {
    if ms == [] then []
    else
      assert ms == [ms[0]] + ms[1..];
      Insert(ms[0], Sort(ms[1..]))
  }

  // ----- The printer -----

  /** `canonicalize`. An undefined array element contributes nothing, as `join` prints it. */
  function Canonicalize(v: Json): (t: Text)
    decreases v, 0
  {
    match v
    case Undefined => []
    case Null => NULL
    case Bool(b) => if b then TRUE else FALSE
    case NonFinite(_) => NULL
    case Num(token) => token
    case Str(s) => Quote(s)
    case Arr(items) => [LBRACK] + JoinItems(items) + [RBRACK]
    case Obj(members) => [LBRACE] + JoinMembers(Sort(PrintDefined(members))) + [RBRACE]
  }

  function JoinItems(items: seq<Json>): (t: Text)
    decreases items, 1
  {
    if items == [] then []
    else if |items| == 1 then Canonicalize(items[0])
    else Canonicalize(items[0]) + [COMMA] + JoinItems(items[1..])
  }

  /** The members that are not `undefined`, each with its printed value. */
  function PrintDefined(members: seq<Keyed<Json>>): (r: seq<Keyed<Text>>)
    decreases members, 1
  {
    if members == [] then []
    else if members[0].val == Undefined then PrintDefined(members[1..])
    else [Keyed(members[0].key, Canonicalize(members[0].val))] + PrintDefined(members[1..])
  }

  function JoinMembers(ms: seq<Keyed<Text>>): (t: Text) {
    if ms == [] then []
    else
      var first := Quote(ms[0].key) + [COLON] + ms[0].val;
      if |ms| == 1 then first else first + [COMMA] + JoinMembers(ms[1..])
  }

  // ----- What two values must share to print alike -----

  /** An array holding one `undefined` prints like the empty array. */
  function Elements(items: seq<Json>): seq<Json> {
    if items == [Undefined] then [] else items
  }

  function DefinedKeys(ms: seq<Keyed<Json>>): set<Text> {
    set i | 0 <= i < |ms| && ms[i].val != Undefined :: ms[i].key
  }

  predicate Corresponding(m: Keyed<Json>, n: Keyed<Json>) {
    m.key == n.key && m.val != Undefined && n.val != Undefined
  }

  /** Equal as manifests: member order and `undefined` members do not count, at any depth. */
  ghost predicate Same(v: Json, w: Json)
    decreases v
  {
    match (v, w)
    case (Undefined, Undefined) => true
    case (Null, _) => w.Null? || w.NonFinite?
    case (NonFinite(_), _) => w.Null? || w.NonFinite?
    case (Bool(b), Bool(c)) => b == c
    case (Num(s), Num(t)) => s == t
    case (Str(s), Str(t)) => s == t
    case (Arr(a), Arr(b)) =>
      && |Elements(a)| == |Elements(b)|
      && forall i :: 0 <= i < |Elements(a)| ==> Same(Elements(a)[i], Elements(b)[i])
    case (Obj(a), Obj(b)) =>
      && DefinedKeys(a) == DefinedKeys(b)
      && forall i, j :: 0 <= i < |a| && 0 <= j < |b| && Corresponding(a[i], b[j]) ==> Same(a[i].val, b[j].val)
    case _ => false
  }

  /** JavaScript objects have no repeated keys. */
  ghost predicate Proper(v: Json) {
    match v
    case Arr(items) => forall i :: 0 <= i < |items| ==> Proper(items[i])
    case Obj(ms) => DistinctKeys(ms) && forall i :: 0 <= i < |ms| ==> Proper(ms[i].val)
    case _ => true
  }

  ghost predicate DistinctKeys<T>(ms: seq<Keyed<T>>) {
    forall i, j :: 0 <= i < j < |ms| ==> ms[i].key != ms[j].key
  }
}
