// Facts and functions on sequences that several modules share.
module Seqs {

  function Min(a: nat, b: nat): nat {
    if a < b then a else b
  }

  ghost function Elems<T>(s: seq<T>): set<T> {
    set x | x in s
  }

  ghost predicate Distinct<T>(s: seq<T>) {
    forall i, j | 0 <= i < j < |s| :: s[i] != s[j]
  }

  ghost function Without<T>(s: seq<T>, k: nat): seq<T>
    requires k < |s|
  {
    s[..k] + s[k + 1..]
  }

  ghost function Inserted<T>(s: seq<T>, k: nat, e: T): seq<T>
    requires k <= |s|
  {
    s[..k] + [e] + s[k..]
  }

  lemma Associative<T>(a: seq<T>, b: seq<T>, c: seq<T>)
    ensures a + (b + c) == (a + b) + c
  {
  }
}
