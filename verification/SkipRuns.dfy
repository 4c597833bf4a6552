// Any run of additions to a skiplist and removals from it.
module SkipRuns {
  import opened PageNumbers
  import opened RankedElements
  import opened SkipStore
  import S = SkipList

  /** An element added on a number of levels, or taken out. */
  datatype Change = Insert(elem: Elem, height: nat) | Delete(elem: Elem)

  /** What a run of changes leaves of a bag of elements. */
  ghost function BagAfter(changes: seq<Change>): multiset<Elem> {
    if changes == [] then multiset{}
    else
      var n := |changes| - 1;
      match changes[n]
      case Insert(e, _) => BagAfter(changes[..n]) + multiset{e}
      case Delete(e) => BagAfter(changes[..n]) - multiset{e}
  }

  /** Heights are those there are, and only what is there is taken out. */
  ghost predicate Proper(changes: seq<Change>) {
    forall i :: 0 <= i < |changes| ==> ProperAt(changes, i)
  }

  ghost predicate ProperAt(changes: seq<Change>, i: nat)
    requires i < |changes|
  {
    match changes[i]
    case Insert(_, h) => 1 <= h <= MAXLEVEL
    case Delete(e) => e in BagAfter(changes[..i])
  }

  lemma BagMore(changes: seq<Change>, i: nat)
    requires i < |changes|
    ensures BagAfter(changes[..i + 1]) == match changes[i]
      case Insert(e, _) => BagAfter(changes[..i]) + multiset{e}
      case Delete(e) => BagAfter(changes[..i]) - multiset{e}
  {
    assert changes[..i + 1][..i] == changes[..i];
  }

  /** The list holds a bag of elements, in order. */
  ghost predicate HoldsBag(c: seq<Elem>, bag: multiset<Elem>) {
    Ordered(c) && multiset(c) == bag
  }

  lemma ContentsOrdered(l: S.SkipList)
    requires l.Valid()
    ensures Ordered(l.Contents()) && |l.Contents()| == l.size
  {}

  lemma BagPlaced(c: seq<Elem>, bag: multiset<Elem>, e: Elem)
    requires HoldsBag(c, bag)
    ensures HoldsBag(S.PlacedIn(c, e), bag + multiset{e})
  {
    hide Ordered, Cut;
    InsertedInOrder(c, e);
    BagOfOneMore(c, Cut(c, e, false), e);
  }

  lemma BagTaken(c: seq<Elem>, bag: multiset<Elem>, e: Elem)
    requires HoldsBag(c, bag) && e in bag
    ensures e in c && Cut(c, e, true) < |c| && HoldsBag(S.TakenOut(c, Cut(c, e, true)), bag - multiset{e})
  {
    hide Ordered, Cut;
    assert e in multiset(c);
    CutFinds(c, e);
    RemovedInOrder(c, Cut(c, e, true));
    BagOfOneLess(c, Cut(c, e, true));
  }

  lemma LastOfBag(c: seq<Elem>, bag: multiset<Elem>, e: Elem)
    requires HoldsBag(c, bag) && e in bag && |c| == 1
    ensures bag - multiset{e} == multiset{} && HoldsBag([], bag - multiset{e})
  {
    assert e in multiset(c) && c == [c[0]];
  }

  /** Any run of additions, on any numbers of levels, and removals of elements that
      are there, a new list taking the place of one that lost its last element,
      leaves exactly the elements that are left of a bag, in order. */
  method Perform(changes: seq<Change>) returns (l: S.SkipList)
    requires Proper(changes)
    ensures l.Valid() && multiset(l.Contents()) == BagAfter(changes)
    ensures InOrder(l.Contents())
    ensures forall c :: InOrder(c) && multiset(c) == BagAfter(changes) ==> c == l.Contents()
  {
    hide InOrder, S.Sound, Ordered, HoldsBag, BagAfter, S.PlacedIn, S.TakenOut, Elements;
    l := new S.SkipList(1);
    NoBag();
    assert changes[..0] == [];
    for i := 0 to |changes|
      invariant l.Valid() && fresh(l) && HoldsBag(l.Contents(), BagAfter(changes[..i]))
    {
      ghost var was, bag := l.Contents(), BagAfter(changes[..i]);
      BagMore(changes, i);
      assert ProperAt(changes, i);
      ContentsOrdered(l);
      match changes[i] {
        case Insert(e, h) =>
          BagPlaced(was, bag, e);
          var page := FreshPage(l.nodes.Keys);
          l.Add(e, h, page);
        case Delete(e) =>
          BagTaken(was, bag, e);
          var r := l.Remove(e);
          if r == S.Deleted {
            LastOfBag(was, bag, e);
            l := new S.SkipList(1);
          }
      }
    }
    assert changes[..|changes|] == changes;
    OnlyThat(l.Contents(), BagAfter(changes));
  }

  lemma NoBag()
    ensures BagAfter([]) == multiset{} && HoldsBag([], multiset{})
  {}

  lemma OnlyThat(c: seq<Elem>, bag: multiset<Elem>)
    requires HoldsBag(c, bag)
    ensures InOrder(c) && multiset(c) == bag && forall d :: InOrder(d) && multiset(d) == bag ==> d == c
  {
    hide Ordered, InOrder;
    OrderedIsInOrder(c);
    forall d | InOrder(d) && multiset(d) == bag ensures d == c {
      OrderedIsInOrder(d);
      OrderedByBag(c, d);
    }
  }
}
