/** Equations between concatenations the solver is spared. */
module Sequences {
  lemma Reassociate<T>(a: seq<T>, b: seq<T>, c: seq<T>)
    ensures a + (b + c) == (a + b) + c
  {
  }

  lemma Cut<T>(s: seq<T>, k: nat)
    requires k <= |s|
    ensures s == s[..k] + s[k..]
  {
  }

  lemma Joined<T>(a: seq<T>, b: seq<T>)
    ensures (a + b)[..|a|] == a && (a + b)[|a|..] == b
  {
  }

  lemma CutInThree<T>(s: seq<T>, k: nat)
    requires 1 <= k <= |s|
    ensures s == [s[0]] + s[1..k] + s[k..]
  {
  }

  lemma JoinedInThree<T>(x: T, b: seq<T>, c: seq<T>)
    ensures var s, k := [x] + b + c, 1 + |b|; s[0] == x && s[1..k] == b && s[k..] == c
  {
  }

  /** Taking off what was put on. */
  lemma Appended<T>(s: seq<T>, x: T)
    ensures var t := s + [x]; t != [] && t[..|t| - 1] == s && t[|t| - 1] == x
  {
  }

  lemma OneFurther<T>(s: seq<T>, n: nat)
    requires n < |s|
    ensures s[..n + 1] == s[..n] + [s[n]]
  {
  }

  /** Putting back what is taken off. */
  lemma Split<T>(s: seq<T>)
    requires s != []
    ensures s == s[..|s| - 1] + [s[|s| - 1]]
  {
  }

  lemma NothingAround<T>(s: seq<T>)
    ensures [] + s == s && s + [] == s
  {
  }
}
