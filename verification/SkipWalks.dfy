// What following the links of a skiplist yields, level by level and backwards.
module SkipWalks {
  import opened SkipChain
  import opened SkipStore

  /** The pages after position `k` that are on level `i`. */
  ghost function OnLevel(order: seq<nat>, hs: seq<nat>, i: nat, k: nat): seq<nat>
    requires |order| == |hs|
    decreases |order| - k
  {
    if k + 1 >= |order| then []
    else (if hs[k + 1] > i then [order[k + 1]] else []) + OnLevel(order, hs, i, k + 1)
  }

  /** The pages right links of level `i` lead to from `page`, and the spans on
      the way, the last one included. */
  ghost function WalkRight(s: Store, page: nat, i: nat, fuel: nat): (r: (seq<nat>, nat))
    decreases fuel
  {
    if page !in s || i >= |s[page].levels| || fuel == 0 then ([], 0)
    else
      var l := s[page].levels[i];
      if l.right == 0 then ([], l.span)
      else
        var rest := WalkRight(s, l.right, i, fuel - 1);
        ([l.right] + rest.0, l.span + rest.1)
  }

  lemma {:induction false} SkipNone(order: seq<nat>, hs: seq<nat>, i: nat, k: nat, j: nat)
    requires |order| == |hs| && k <= j < |order| && Skips(hs, k, j + 1, i)
    ensures OnLevel(order, hs, i, k) == OnLevel(order, hs, i, j)
    decreases j - k
  {
    if k < j {
      assert hs[k + 1] <= i;
      SkipNone(order, hs, i, k + 1, j);
    }
  }

  lemma LinkIs(s: Store, order: seq<nat>, hs: seq<nat>, level: nat, k: nat, i: nat)
    requires Linked(s, order, hs, level) && i < level && k < |order| == |hs| && i < hs[k]
    ensures order[k] in s && i < |s[order[k]].levels| && LinkOk(order, hs, k, i, s[order[k]].levels[i])
  {
    assert ChainedAt(s, order, hs, k, i);
  }

  lemma LastOnLevel(order: seq<nat>, hs: seq<nat>, i: nat, k: nat)
    requires k + 1 == |order| == |hs|
    ensures OnLevel(order, hs, i, k) == []
  {}

  lemma FirstOnLevel(order: seq<nat>, hs: seq<nat>, i: nat, k: nat)
    requires k + 1 < |order| == |hs| && hs[k + 1] > i
    ensures OnLevel(order, hs, i, k) == [order[k + 1]] + OnLevel(order, hs, i, k + 1)
  {}

  /** A link leads over the nodes not on its level to the next one that is. */
  lemma NextOnLevel(s: Store, order: seq<nat>, hs: seq<nat>, level: nat, k: nat, i: nat)
    requires Linked(s, order, hs, level) && i < level && k < |order| == |hs| && i < hs[k]
    ensures order[k] in s && i < |s[order[k]].levels|
    ensures var l := s[order[k]].levels[i];
      if l.right == 0 then
        k + l.span == |order| - 1 && OnLevel(order, hs, i, k) == []
      else
        && k < k + l.span < |order| && order[k + l.span] == l.right && hs[k + l.span] > i
        && OnLevel(order, hs, i, k) == [l.right] + OnLevel(order, hs, i, k + l.span)
  {
    hide Linked, OnLevel;
    LinkIs(s, order, hs, level, k, i);
    var l := s[order[k]].levels[i];
    var j := k + l.span;
    if l.right == 0 {
      SkipNone(order, hs, i, k, j);
      LastOnLevel(order, hs, i, j);
    } else {
      SkipNone(order, hs, i, k, j - 1);
      FirstOnLevel(order, hs, i, j - 1);
    }
  }

  /** Level `i` chains exactly the nodes that are on it, in level-0 order, and
      its spans add up to the number of elements left. */
  lemma {:induction false} LevelIsSubchain(s: Store, order: seq<nat>, hs: seq<nat>, level: nat, i: nat, k: nat,
                                           fuel: nat)
    requires Linked(s, order, hs, level) && i < level && k < |order| == |hs| && i < hs[k] && fuel >= |order| - k
    ensures WalkRight(s, order[k], i, fuel) == (OnLevel(order, hs, i, k), |order| - 1 - k)
    decreases |order| - k
  {
    hide Linked, OnLevel, LinkOk, Skips;
    NextOnLevel(s, order, hs, level, k, i);
    var l := s[order[k]].levels[i];
    if l.right != 0 {
      LevelIsSubchain(s, order, hs, level, i, k + l.span, fuel - 1);
    }
  }

  /** The pages from position `k` back to the first element. */
  ghost function BackFrom(order: seq<nat>, k: nat): seq<nat>
    requires k < |order|
  {
    if k == 0 then [] else [order[k]] + BackFrom(order, k - 1)
  }

  ghost function WalkLeft(s: Store, page: nat, fuel: nat): seq<nat>
    decreases fuel
  {
    if page !in s || fuel == 0 then [] else [page] + WalkLeft(s, s[page].left, fuel - 1)
  }

  /** Left links from any element go back over all before it and stop. */
  lemma {:induction false} LeftIsReverse(s: Store, order: seq<nat>, k: nat, fuel: nat)
    requires Backwards(s, order) && 0 !in s && 1 <= k < |order| && fuel >= k
    ensures WalkLeft(s, order[k], fuel) == BackFrom(order, k)
    decreases k
  {
    assert BackAt(s, order, k);
    if k > 1 {
      LeftIsReverse(s, order, k - 1, fuel - 1);
    } else {
      assert WalkLeft(s, 0, fuel - 1) == [];
      assert BackFrom(order, 0) == [];
    }
  }
}
