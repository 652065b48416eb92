/** Facts about sequences shared by the loops of this project. */
module Sequences {

  /** Taking one element more appends it. */
  lemma TakeOneMore<T>(s: seq<T>, i: nat)
    requires i < |s|
    ensures s[..i + 1] == s[..i] + [s[i]]
  {
  }

  /** A full take is the sequence itself. */
  lemma TakeAll<T>(s: seq<T>)
    ensures s[..|s|] == s
  {
  }

  lemma TakeAndDrop<T>(s: seq<T>, n: nat)
    requires n <= |s|
    ensures s == s[..n] + s[n..]
  {
  }

  /** `f(0), f(1), ...` */
  function Tabulate<T>(n: nat, f: nat -> T): (r: seq<T>)
    ensures |r| == n && forall i :: 0 <= i < n ==> r[i] == f(i)
  {
    seq(n, i requires 0 <= i < n => f(i))
  }

  lemma TabulatePrefix<T>(n: nat, i: nat, f: nat -> T)
    requires i <= n
    ensures Tabulate(n, f)[..i] == Tabulate(i, f)
  {
  }

  lemma TabulateSnoc<T>(n: nat, f: nat -> T)
    ensures Tabulate(n + 1, f) == Tabulate(n, f) + [f(n)]
  {
  }
}
