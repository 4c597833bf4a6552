// Page numbers: lists of them without repetition, and numbers nobody uses yet.
// Which one a caller gets is left open: the pager decides that.
module PageNumbers {
  ghost predicate Distinct(s: seq<nat>) {
    forall i, j :: 0 <= i < j < |s| ==> s[i] != s[j]
  }

  lemma {:induction false} SomePageIsFree(used: set<nat>)
    ensures exists p: nat :: p != 0 && p !in used
  {
    var bound := UpperBound(used);
    assert bound + 1 !in used;
  }

  ghost function UpperBound(used: set<nat>): (b: nat)
    ensures forall p :: p in used ==> p <= b
  {
    if used == {} then 0 else
      var p :| p in used;
      var b := UpperBound(used - {p});
      assert forall q :: q in used ==> q == p || q in used - {p};
      if p > b then p else b
  }

  method FreshPage(used: set<nat>) returns (page: nat)
    ensures page != 0 && page !in used
  {
    SomePageIsFree(used);
    page :| page != 0 && page !in used;
  }
}
