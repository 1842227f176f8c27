module Sequences {
  lemma Assoc<T>(a: seq<T>, b: seq<T>, c: seq<T>)
    ensures a + b + c == a + (b + c)
  {
  }

  lemma Extended<T>(a: seq<T>, b: seq<T>, ab: seq<T>, c: seq<T>)
    requires a + b == ab
    ensures a + (b + c) == ab + c
  {
    Assoc(a, b, c);
  }

  lemma Cons2<T>(x: T, y: T, s: seq<T>)
    ensures [x, y] + s == [x] + ([y] + s)
  {
  }

  lemma Enclosed<T>(x: T, s: seq<T>, rest: seq<T>)
    ensures var t := [x] + s + [x] + rest; t != [] && t[0] == x && t[1..] == s + ([x] + rest)
  {
  }

  lemma OneMore<T>(d: seq<T>, s: seq<T>, k: nat)
    requires k < |s|
    ensures d + s[..k] + [s[k]] == d + s[..k + 1] && d + s[..k + 1] + s[k + 1..] == d + s
  {
  }
}
