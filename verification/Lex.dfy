// Unsigned lexicographic order of byte strings.
module Lex {
  import opened Bytes

  /** -1, 0 or 1 as `a` comes before, is or comes after `b`. */
  function LexCmp(a: seq<byte>, b: seq<byte>): (r: int)
    ensures -1 <= r <= 1
  {
    if a == [] || b == [] then
      (if a == b then 0 else if a == [] then -1 else 1)
    else if a[0] != b[0] then
      (if a[0] < b[0] then -1 else 1)
    else LexCmp(a[1..], b[1..])
  }

  /** `a` and `b` are alike up to `k`, and there `a` ends or has the smaller byte. */
  ghost predicate FirstSmaller(a: seq<byte>, b: seq<byte>, k: nat) {
    && k <= |a| && k < |b| && (forall i :: 0 <= i < k ==> a[i] == b[i])
    && (k == |a| || a[k] < b[k])
  }

  /** `a` comes before `b` in the order of bytes. */
  ghost predicate ComesBefore(a: seq<byte>, b: seq<byte>) {
    exists k :: FirstSmaller(a, b, k)
  }

  lemma {:induction false} FirstSmallerDecides(a: seq<byte>, b: seq<byte>, k: nat)
    requires FirstSmaller(a, b, k)
    ensures LexCmp(a, b) == -1
    decreases k
  {
    if k > 0 {
      assert a[0] == b[0];
      assert forall i :: 0 <= i < k - 1 ==> a[1..][i] == a[i + 1] && b[1..][i] == b[i + 1];
      FirstSmallerDecides(a[1..], b[1..], k - 1);
    }
  }

  lemma {:induction false} SomeFirstSmaller(a: seq<byte>, b: seq<byte>) returns (k: nat)
    requires LexCmp(a, b) == -1
    ensures FirstSmaller(a, b, k)
  {
    if a == [] || a[0] != b[0] {
      k := 0;
    } else {
      k := SomeFirstSmaller(a[1..], b[1..]);
      k := k + 1;
      forall i | 0 <= i < k ensures a[i] == b[i] {
        if i > 0 {
          assert a[i] == a[1..][i - 1] && b[i] == b[1..][i - 1];
        }
      }
    }
  }

  /** The comparison is that of the first difference. */
  lemma LexIsByteOrder(a: seq<byte>, b: seq<byte>)
    ensures LexCmp(a, b) == -1 <==> ComesBefore(a, b)
    ensures LexCmp(a, b) == 1 <==> ComesBefore(b, a)
    ensures LexCmp(a, b) == 0 <==> a == b
  {
    hide LexCmp, FirstSmaller;
    LexOpposite(a, b);
    LexEqual(a, b);
    if LexCmp(a, b) == -1 {
      var k := SomeFirstSmaller(a, b);
    }
    if LexCmp(b, a) == -1 {
      var k := SomeFirstSmaller(b, a);
    }
    if k: nat :| FirstSmaller(a, b, k) {
      FirstSmallerDecides(a, b, k);
    }
    if k: nat :| FirstSmaller(b, a, k) {
      FirstSmallerDecides(b, a, k);
    }
  }

  lemma {:induction false} LexEqual(a: seq<byte>, b: seq<byte>)
    ensures LexCmp(a, b) == 0 <==> a == b
  {
    if a != [] && b != [] {
      LexEqual(a[1..], b[1..]);
      assert a == [a[0]] + a[1..] && b == [b[0]] + b[1..];
    }
  }

  lemma {:induction false} LexOpposite(a: seq<byte>, b: seq<byte>)
    ensures LexCmp(b, a) == -LexCmp(a, b)
  {
    if a != [] && b != [] {
      LexOpposite(a[1..], b[1..]);
    }
  }

  lemma {:induction false} LexTransitive(a: seq<byte>, b: seq<byte>, c: seq<byte>)
    requires LexCmp(a, b) <= 0 && LexCmp(b, c) <= 0
    ensures LexCmp(a, c) <= 0
    ensures LexCmp(a, c) == 0 ==> LexCmp(a, b) == 0 && LexCmp(b, c) == 0
  {
    if a != [] && b != [] && c != [] && a[0] == b[0] == c[0] {
      LexTransitive(a[1..], b[1..], c[1..]);
    }
  }

  /** The first difference decides. */
  lemma {:induction false} LexCommonPrefix(p: seq<byte>, a: seq<byte>, b: seq<byte>)
    ensures LexCmp(p + a, p + b) == LexCmp(a, b)
  {
    if p == [] {
      assert p + a == a && p + b == b;
    } else {
      assert (p + a)[1..] == p[1..] + a && (p + b)[1..] == p[1..] + b;
      LexCommonPrefix(p[1..], a, b);
    }
  }
}
