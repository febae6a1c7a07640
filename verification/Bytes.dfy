// Bytes and C strings. A string is its bytes without the terminator.
module Bytes {

  type byte = x: int | 0 <= x < 256
  type Str = seq<byte>

  // strcmp
  function StrCmp(a: Str, b: Str): int {
    if a == [] then (if b == [] then 0 else -1)
    else if b == [] then 1
    else if a[0] != b[0] then a[0] - b[0]
    else StrCmp(a[1..], b[1..])
  }

  lemma {:induction false} StrCmpIsEquality(a: Str, b: Str)
    ensures StrCmp(a, b) == 0 <==> a == b
  {
    if a != [] && b != [] && a[0] == b[0] {
      StrCmpIsEquality(a[1..], b[1..]);
      assert a == [a[0]] + a[1..] && b == [b[0]] + b[1..];
    }
  }

  // A negative result means lexicographically before: at the first index k where the
  // two part, a has ended or has the smaller byte.
  lemma {:induction false} StrCmpIsLexicographic(a: Str, b: Str)
    ensures StrCmp(a, b) < 0
       <==> exists k: nat :: k <= |a| && k < |b| && a[..k] == b[..k] && (k == |a| || a[k] < b[k])
  {
    if k: nat :| k <= |a| && k < |b| && a[..k] == b[..k] && (k == |a| || a[k] < b[k]) {
      PartsAtDecides(a, b, k);
    }
    if StrCmp(a, b) < 0 {
      var k := WherePart(a, b);
      assert k <= |a| && k < |b| && a[..k] == b[..k] && (k == |a| || a[k] < b[k]);
    }
  }

  lemma {:induction false} PartsAtDecides(a: Str, b: Str, k: nat)
    requires k <= |a| && k < |b| && a[..k] == b[..k] && (k == |a| || a[k] < b[k])
    ensures StrCmp(a, b) < 0
  {
    if k > 0 {
      assert a[0] == a[..k][0] == b[..k][0] == b[0];
      assert a[1..][..k - 1] == a[..k][1..] == b[..k][1..] == b[1..][..k - 1];
      PartsAtDecides(a[1..], b[1..], k - 1);
    }
  }

  lemma {:induction false} WherePart(a: Str, b: Str) returns (k: nat)
    requires StrCmp(a, b) < 0
    ensures k <= |a| && k < |b| && a[..k] == b[..k] && (k == |a| || a[k] < b[k])
  {
    if a == [] || a[0] != b[0] {
      k := 0;
    } else {
      var j := WherePart(a[1..], b[1..]);
      k := j + 1;
      assert a[..k] == [a[0]] + a[1..][..k - 1] == [b[0]] + b[1..][..k - 1] == b[..k];
    }
  }

  lemma {:induction false} StrCmpFlips(a: Str, b: Str)
    ensures StrCmp(a, b) < 0 <==> StrCmp(b, a) > 0
    ensures StrCmp(a, b) > 0 <==> StrCmp(b, a) < 0
  {
    if a != [] && b != [] && a[0] == b[0] {
      StrCmpFlips(a[1..], b[1..]);
    }
  }

  lemma {:induction false} StrCmpChains(a: Str, b: Str, c: Str)
    requires StrCmp(a, b) <= 0 && StrCmp(b, c) <= 0
    ensures StrCmp(a, c) <= 0
  {
    if a != [] && b != [] && c != [] && a[0] == b[0] == c[0] {
      StrCmpChains(a[1..], b[1..], c[1..]);
    }
  }
}
