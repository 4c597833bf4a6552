// What a skiplist stands for: a sequence of scored strings in order, with
// repetitions, and the places a search can stop at.
module RankedElements {
  import opened Bytes
  import opened Lex

  datatype Elem = Elem(score: real, value: seq<byte>)

  /** By score, then by value. */
  function Compare(a: Elem, b: Elem): (r: int)
    ensures -1 <= r <= 1
  {
    if a.score < b.score then -1 else if a.score > b.score then 1 else LexCmp(a.value, b.value)
  }

  /** The smaller score first; of equal ones, the value that comes first in the
      order of bytes. */
  ghost predicate Less(a: Elem, b: Elem) {
    a.score < b.score || (a.score == b.score && ComesBefore(a.value, b.value))
  }

  lemma CompareIsLess(a: Elem, b: Elem)
    ensures Compare(a, b) < 0 <==> Less(a, b)
    ensures Compare(a, b) > 0 <==> Less(b, a)
    ensures Compare(a, b) == 0 <==> a == b
  {
    hide LexCmp, ComesBefore;
    LexIsByteOrder(a.value, b.value);
  }

  /** By score, and where scores are equal by the bytes of the values. */
  ghost predicate InOrder(s: seq<Elem>) {
    forall i, j :: 0 <= i < j < |s| ==>
      s[i].score <= s[j].score && (s[i].score == s[j].score ==> !ComesBefore(s[j].value, s[i].value))
  }

  ghost predicate Ordered(s: seq<Elem>) {
    forall i, j :: 0 <= i < j < |s| ==> Compare(s[i], s[j]) <= 0
  }

  /** A search walks past `e`: it is smaller, or equal and not excluded. */
  predicate Passed(e: Elem, target: Elem, exclude: bool) {
    Compare(e, target) < 0 || (Compare(e, target) == 0 && !exclude)
  }

  /** How many leading elements a search walks past. */
  ghost function Cut(s: seq<Elem>, target: Elem, exclude: bool): (p: nat)
    ensures p <= |s|
  {
    if s == [] || !Passed(s[0], target, exclude) then 0 else 1 + Cut(s[1..], target, exclude)
  }

  lemma CompareFacts(a: Elem, b: Elem, c: Elem)
    ensures Compare(b, a) == -Compare(a, b)
    ensures Compare(a, b) == 0 <==> a == b
    ensures Compare(a, b) <= 0 && Compare(b, c) <= 0 ==> Compare(a, c) <= 0
    ensures Compare(a, b) <= 0 && Compare(b, c) <= 0 && Compare(a, c) == 0 ==> Compare(a, b) == 0 == Compare(b, c)
  {
    LexOpposite(a.value, b.value);
    LexEqual(a.value, b.value);
    if LexCmp(a.value, b.value) <= 0 && LexCmp(b.value, c.value) <= 0 {
      LexTransitive(a.value, b.value, c.value);
    }
  }

  /** What is passed comes before what is not. */
  lemma PassedFirst(a: Elem, b: Elem, target: Elem, exclude: bool)
    requires Compare(a, b) <= 0 && Passed(b, target, exclude)
    ensures Passed(a, target, exclude)
  {
    CompareFacts(a, b, target);
  }

  /** In an ordered sequence the leading ones passed are all that are passed. */
  lemma {:induction false} CutSplits(s: seq<Elem>, target: Elem, exclude: bool)
    requires Ordered(s)
    ensures forall i :: 0 <= i < |s| ==> (Passed(s[i], target, exclude) <==> i < Cut(s, target, exclude))
  {
    if s != [] {
      CutSplits(s[1..], target, exclude);
      forall i | 1 <= i < |s|
        ensures Passed(s[i], target, exclude) <==> i < Cut(s, target, exclude)
      {
        assert s[i] == s[1..][i - 1];
        if Passed(s[i], target, exclude) {
          PassedFirst(s[0], s[i], target, exclude);
        }
      }
    }
  }

  /** Putting an element in after those not greater keeps the order. */
  lemma InsertedInOrder(s: seq<Elem>, e: Elem)
    requires Ordered(s)
    ensures var p := Cut(s, e, false); Ordered(s[..p] + [e] + s[p..])
  {
    var p := Cut(s, e, false);
    CutSplits(s, e, false);
    var t := s[..p] + [e] + s[p..];
    forall i, j | 0 <= i < j < |t| ensures Compare(t[i], t[j]) <= 0 {
      if i == p {
        CompareFacts(t[j], e, e);
      }
    }
  }

  lemma RemovedInOrder(s: seq<Elem>, p: nat)
    requires Ordered(s) && p < |s|
    ensures Ordered(s[..p] + s[p + 1..])
  {}

  /** An element is found at the cut that excludes it, or nowhere. */
  lemma CutFinds(s: seq<Elem>, e: Elem)
    requires Ordered(s)
    ensures var p := Cut(s, e, true); e in s <==> p < |s| && s[p] == e
  {
    CutSplits(s, e, true);
    var p := Cut(s, e, true);
    CompareFacts(e, e, e);
    if e in s {
      var i :| 0 <= i < |s| && s[i] == e;
      assert p <= i;
      CompareFacts(s[p], e, e);
    }
  }

  lemma BagOfOneMore(s: seq<Elem>, p: nat, e: Elem)
    requires p <= |s|
    ensures multiset(s[..p] + [e] + s[p..]) == multiset(s) + multiset{e}
  {
    assert s == s[..p] + s[p..];
  }

  lemma BagOfOneLess(s: seq<Elem>, p: nat)
    requires p < |s|
    ensures multiset(s[..p] + s[p + 1..]) == multiset(s) - multiset{s[p]}
  {
    assert s == s[..p] + [s[p]] + s[p + 1..];
  }

  /** The least element of a bag comes first. */
  lemma FirstIsLeast(s: seq<Elem>, t: seq<Elem>)
    requires Ordered(s) && Ordered(t) && multiset(s) == multiset(t) && s != [] && t != []
    ensures s[0] == t[0]
  {
    assert s[0] in multiset(t) && t[0] in multiset(s);
    var i :| 0 <= i < |t| && t[i] == s[0];
    var j :| 0 <= j < |s| && s[j] == t[0];
    CompareFacts(s[0], s[0], s[0]);
    CompareFacts(t[0], s[0], t[0]);
    assert Compare(t[0], t[i]) <= 0 && Compare(s[0], s[j]) <= 0;
  }

  /** What is in an ordered sequence determines it. */
  lemma {:induction false} OrderedByBag(s: seq<Elem>, t: seq<Elem>)
    requires Ordered(s) && Ordered(t) && multiset(s) == multiset(t)
    ensures s == t
    decreases |s|
  {
    hide Compare, Ordered;
    SameLength(s, t);
    if s != [] {
      var a, b := s[1..], t[1..];
      FirstIsLeast(s, t);
      RestOf(s);
      RestOf(t);
      OrderedByBag(a, b);
    }
  }

  lemma SameLength(s: seq<Elem>, t: seq<Elem>)
    requires multiset(s) == multiset(t)
    ensures |s| == |t|
  {
    assert |s| == |multiset(s)| && |t| == |multiset(t)|;
  }

  lemma RestOf(s: seq<Elem>)
    requires Ordered(s) && s != []
    ensures Ordered(s[1..]) && multiset(s[1..]) == multiset(s) - multiset{s[0]} && s == [s[0]] + s[1..]
  {
    hide Compare;
    assert s == [s[0]] + s[1..];
  }

  lemma OrderedIsInOrder(s: seq<Elem>)
    ensures Ordered(s) <==> InOrder(s)
  {
    hide Compare;
    if Ordered(s) {
      forall i, j | 0 <= i < j < |s|
        ensures s[i].score <= s[j].score && (s[i].score == s[j].score ==> !ComesBefore(s[j].value, s[i].value))
      {
        CompareIsLess(s[i], s[j]);
      }
    }
    if InOrder(s) {
      forall i, j | 0 <= i < j < |s| ensures Compare(s[i], s[j]) <= 0 {
        CompareIsLess(s[i], s[j]);
      }
    }
  }

  /** The elements before a cut are those that are less, or not greater. */
  lemma CutByLess(s: seq<Elem>, e: Elem, exclude: bool)
    requires Ordered(s)
    ensures forall i :: 0 <= i < |s| ==> (i < Cut(s, e, exclude) <==> if exclude then Less(s[i], e) else !Less(e, s[i]))
  {
    hide Compare, Cut, Less;
    CutSplits(s, e, exclude);
    forall i | 0 <= i < |s| ensures i < Cut(s, e, exclude) <==> if exclude then Less(s[i], e) else !Less(e, s[i]) {
      CompareIsLess(s[i], e);
    }
  }

  /** `t` is `s` with `e` behind all that are not greater. */
  ghost predicate PutBehind(s: seq<Elem>, t: seq<Elem>, e: Elem, p: nat) {
    && p <= |s| && t == s[..p] + [e] + s[p..]
    && forall i :: 0 <= i < |s| ==> (i < p <==> !Less(e, s[i]))
  }

  /** `t` is `s` without the first `e`, which stood at `p`. */
  ghost predicate FirstTaken(s: seq<Elem>, t: seq<Elem>, e: Elem, p: nat) {
    p < |s| && s[p] == e && e !in s[..p] && t == s[..p] + s[p + 1..]
  }

  /** The elements equal to `e` are those between the two cuts. */
  lemma EqualBetweenCuts(s: seq<Elem>, e: Elem, i: nat)
    requires Ordered(s) && i < |s|
    ensures s[i] == e <==> Cut(s, e, true) <= i < Cut(s, e, false)
  {
    CutSplits(s, e, true);
    CutSplits(s, e, false);
    CompareFacts(s[i], e, e);
  }
}
