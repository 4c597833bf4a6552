// The links of a skiplist level as facts about two sequences: the pages in
// level-0 order and how many levels each node is on.
module SkipChain {
  /** Where a node leads on one level, and how many nodes on that is. */
  datatype Link = Link(right: nat, span: nat)

  /** No node strictly between `a` and `b` is on level `i`. */
  ghost predicate Skips(hs: seq<nat>, a: nat, b: nat, i: nat) {
    forall m :: a < m < b && m < |hs| ==> hs[m] <= i
  }

  /** Link `l` of node `k` leads to the next node on level `i`, its span the
      distance; the last one leads nowhere and its span reaches the end. */
  ghost predicate LinkOk(order: seq<nat>, hs: seq<nat>, k: nat, i: nat, l: Link) {
    && |order| == |hs|
    && var j := k + l.span;
    if l.right == 0 then
      j == |order| - 1 && Skips(hs, k, j + 1, i)
    else
      k < j < |order| && order[j] == l.right && hs[j] > i && Skips(hs, k, j, i)
  }

  /** The link leads past the gap after position `p`. */
  ghost predicate Crosses(k: nat, l: Link, p: nat) {
    k <= p && (l.right == 0 || k + l.span > p)
  }

  /** `s` with `x` after position `p`. */
  function Added(s: seq<nat>, p: nat, x: nat): (r: seq<nat>)
    requires p < |s|
    ensures |r| == |s| + 1
    ensures forall k {:trigger r[k]} :: 0 <= k < |r| ==>
      r[k] == (if k <= p then s[k] else if k == p + 1 then x else s[k - 1])
  {
    s[..p + 1] + [x] + s[p + 1..]
  }

  /** The same, from the old positions. */
  lemma AddedAt(s: seq<nat>, p: nat, x: nat)
    requires p < |s|
    ensures forall k {:trigger s[k]} :: 0 <= k < |s| ==> Added(s, p, x)[if k <= p then k else k + 1] == s[k]
  {}

  lemma LinkBefore(order: seq<nat>, hs: seq<nat>, p: nat, y: nat, h: nat, k: nat, i: nat, l: Link)
    requires LinkOk(order, hs, k, i, l) && p < |order| && k <= p && !Crosses(k, l, p)
    ensures LinkOk(Added(order, p, y), Added(hs, p, h), k, i, l)
  {
    AddedAt(hs, p, h);
    AddedAt(order, p, y);
  }

  lemma LinkAfter(order: seq<nat>, hs: seq<nat>, p: nat, y: nat, h: nat, k: nat, i: nat, l: Link)
    requires LinkOk(order, hs, k, i, l) && p < |order| && p < k
    ensures LinkOk(Added(order, p, y), Added(hs, p, h), k + 1, i, l)
  {
    AddedAt(hs, p, h);
    AddedAt(order, p, y);
  }

  /** A node put in the way takes over the rest of the link. */
  lemma LinkCut(order: seq<nat>, hs: seq<nat>, p: nat, y: nat, h: nat, k: nat, i: nat, l: Link)
    requires LinkOk(order, hs, k, i, l) && p < |order| && Crosses(k, l, p) && i < h && y != 0
    ensures l.span >= p - k
    ensures LinkOk(Added(order, p, y), Added(hs, p, h), k, i, Link(y, p - k + 1))
    ensures LinkOk(Added(order, p, y), Added(hs, p, h), p + 1, i, Link(l.right, l.span - (p - k)))
  {
    hide Added;
    AddedAt(hs, p, h);
    AddedAt(order, p, y);
  }

  /** A node put under the link makes it one longer. */
  lemma LinkStretched(order: seq<nat>, hs: seq<nat>, p: nat, y: nat, h: nat, k: nat, i: nat, l: Link)
    requires LinkOk(order, hs, k, i, l) && p < |order| && Crosses(k, l, p) && i >= h
    ensures LinkOk(Added(order, p, y), Added(hs, p, h), k, i, Link(l.right, l.span + 1))
  {
    AddedAt(hs, p, h);
    AddedAt(order, p, y);
  }

  // ---- Removal: the node after `p` goes

  lemma LinkKeptBefore(order: seq<nat>, hs: seq<nat>, p: nat, y: nat, h: nat, k: nat, i: nat, l: Link)
    requires p < |order| == |hs| && LinkOk(Added(order, p, y), Added(hs, p, h), k, i, l) && k <= p
    requires l.right != 0 && k + l.span <= p
    ensures LinkOk(order, hs, k, i, l)
  {
    AddedAt(hs, p, h);
    AddedAt(order, p, y);
  }

  lemma LinkKeptAfter(order: seq<nat>, hs: seq<nat>, p: nat, y: nat, h: nat, k: nat, i: nat, l: Link)
    requires p < |order| == |hs| && LinkOk(Added(order, p, y), Added(hs, p, h), k + 1, i, l) && p < k
    ensures LinkOk(order, hs, k, i, l)
  {
    AddedAt(hs, p, h);
    AddedAt(order, p, y);
  }

  /** The link to the node joins the link from it. */
  lemma LinkJoined(order: seq<nat>, hs: seq<nat>, p: nat, y: nat, h: nat, k: nat, i: nat, l: Link, m: Link)
    requires p < |order| == |hs| && k <= p
    requires LinkOk(Added(order, p, y), Added(hs, p, h), k, i, l) && l.right != 0 && k + l.span == p + 1
    requires LinkOk(Added(order, p, y), Added(hs, p, h), p + 1, i, m)
    ensures l.span + m.span >= 1
    ensures LinkOk(order, hs, k, i, Link(m.right, l.span + m.span - 1))
  {
    AddedAt(hs, p, h);
    AddedAt(order, p, y);
  }

  /** A link over the node becomes one shorter. */
  lemma LinkShrunk(order: seq<nat>, hs: seq<nat>, p: nat, y: nat, h: nat, k: nat, i: nat, l: Link)
    requires p < |order| == |hs| && k <= p
    requires LinkOk(Added(order, p, y), Added(hs, p, h), k, i, l) && (l.right == 0 || k + l.span > p + 1)
    ensures l.span >= 1
    ensures LinkOk(order, hs, k, i, Link(l.right, l.span - 1))
  {
    AddedAt(hs, p, h);
    AddedAt(order, p, y);
  }
}
