// Skiplist nodes linked by page number, and what linking a node in or out does
// to the chains of all levels.
module SkipStore {
  import opened Bytes
  import opened PageNumbers
  import opened RankedElements
  import opened SkipChain

  const MAXLEVEL := 32

  datatype Node = Node(score: real, value: seq<byte>, left: nat, levels: seq<Link>)

  type Store = map<nat, Node>

  /** `order` lists the pages of the store, the index node first; `hs` how many
      levels each node is on. */
  ghost predicate Pages(s: Store, order: seq<nat>, hs: seq<nat>) {
    && |order| == |hs| > 0 && Distinct(order)
    && (forall k :: 0 <= k < |order| ==> order[k] != 0 && order[k] in s && |s[order[k]].levels| == hs[k])
    && Covers(s, order)
  }

  /** The store holds no other page. */
  ghost predicate Covers(s: Store, order: seq<nat>) {
    forall q :: q in s ==> q in order
  }

  /** The index node is on every level, no element is above `level`. */
  ghost predicate Heights(hs: seq<nat>, level: nat) {
    && 1 <= level <= MAXLEVEL && |hs| > 0 && hs[0] == MAXLEVEL
    && forall k :: 1 <= k < |hs| ==> 1 <= hs[k] <= level
  }

  /** Above `level` the index node leads nowhere. */
  ghost predicate HeadEnds(head: Node, level: nat) {
    |head.levels| == MAXLEVEL && forall i :: level <= i < MAXLEVEL ==> head.levels[i].right == 0
  }

  ghost predicate ChainedAt(s: Store, order: seq<nat>, hs: seq<nat>, k: nat, i: nat) {
    k < |order| && order[k] in s && i < |s[order[k]].levels| && LinkOk(order, hs, k, i, s[order[k]].levels[i])
  }

  /** Every level below `level` chains its nodes. */
  ghost predicate Chained(s: Store, order: seq<nat>, hs: seq<nat>, level: nat) {
    forall k: nat, i: nat :: k < |order| && k < |hs| && i < hs[k] && i < level ==> ChainedAt(s, order, hs, k, i)
  }

  /** Left links go back over the elements, stopping at the first. */
  ghost predicate Backwards(s: Store, order: seq<nat>) {
    forall k: nat :: 1 <= k < |order| ==> BackAt(s, order, k)
  }

  ghost predicate BackAt(s: Store, order: seq<nat>, k: nat)
    requires 1 <= k < |order|
  {
    order[k] in s && s[order[k]].left == (if k == 1 then 0 else order[k - 1])
  }

  ghost predicate Linked(s: Store, order: seq<nat>, hs: seq<nat>, level: nat) {
    && Pages(s, order, hs) && Heights(hs, level) && HeadEnds(s[order[0]], level)
    && Chained(s, order, hs, level)
  }

  function ElemOf(n: Node): Elem {
    Elem(n.score, n.value)
  }

  /** The elements in level-0 order. */
  ghost function Elements(s: Store, order: seq<nat>): (e: seq<Elem>)
    requires order != [] && forall k :: 0 <= k < |order| ==> order[k] in s
    ensures |e| == |order| - 1
    ensures forall k :: 0 <= k < |e| ==> e[k] == ElemOf(s[order[k + 1]])
  {
    seq(|order| - 1, k requires 0 <= k < |order| - 1 => ElemOf(s[order[k + 1]]))
  }

  /** `rank[i]` is the last node at or before `p` that is on level `i`. */
  ghost predicate Ranked(hs: seq<nat>, level: nat, rank: seq<nat>, p: nat) {
    && level <= |rank| && p < |hs|
    && forall i :: 0 <= i < level ==> rank[i] <= p && hs[rank[i]] > i && Skips(hs, rank[i], p + 1, i)
  }

  /** Replaces one link of one node. */
  function SetLink(s: Store, page: nat, i: nat, l: Link): (t: Store)
    requires page in s && i < |s[page].levels|
    ensures t.Keys == s.Keys && |t[page].levels| == |s[page].levels| && t[page].levels[i] == l
    ensures forall m :: 0 <= m < |s[page].levels| && m != i ==> t[page].levels[m] == s[page].levels[m]
    ensures forall q :: q in s && q != page ==> t[q] == s[q]
    ensures t[page].left == s[page].left && ElemOf(t[page]) == ElemOf(s[page])
  {
    s[page := s[page].(levels := s[page].levels[i := l])]
  }

  ghost predicate SameButLinks(s: Store, t: Store) {
    && s.Keys == t.Keys
    && forall q :: q in s ==> t[q].left == s[q].left && ElemOf(t[q]) == ElemOf(s[q]) && |t[q].levels| == |s[q].levels|
  }

  lemma SameAsItself(s: Store)
    ensures SameButLinks(s, s)
  {}

  lemma SetLinkSame(s: Store, t: Store, page: nat, i: nat, l: Link)
    requires SameButLinks(s, t) && page in t && i < |t[page].levels|
    ensures SameButLinks(s, SetLink(t, page, i, l))
  {}

  lemma SameAgain(s: Store, t: Store, v: Store)
    requires SameButLinks(s, t) && SameButLinks(t, v)
    ensures SameButLinks(s, v)
  {}

  // ---- Insertion

  /** The link of the last node before the gap after `p`, when page `y` on
      `height` levels fills the gap. */
  ghost function AddLink(rank: seq<nat>, p: nat, y: nat, height: nat, i: nat, l: Link): Link {
    if i < height then Link(y, if i < |rank| && rank[i] <= p then p - rank[i] + 1 else 0) else Link(l.right, l.span + 1)
  }

  /** The last node on level `i` before the gap leads past the gap. */
  lemma ReachesGap(s: Store, order: seq<nat>, hs: seq<nat>, level: nat, rank: seq<nat>, p: nat, i: nat)
    requires Linked(s, order, hs, level) && Ranked(hs, level, rank, p) && i < level
    ensures rank[i] < |order| && order[rank[i]] in s && i < |s[order[rank[i]]].levels|
    ensures LinkOk(order, hs, rank[i], i, s[order[rank[i]]].levels[i])
    ensures Crosses(rank[i], s[order[rank[i]]].levels[i], p)
  {
    assert ChainedAt(s, order, hs, rank[i], i);
  }

  /** Any other node before the gap leads to one before the gap. */
  lemma StaysBefore(s: Store, order: seq<nat>, hs: seq<nat>, level: nat, rank: seq<nat>, p: nat, i: nat, k: nat)
    requires Linked(s, order, hs, level) && Ranked(hs, level, rank, p) && i < level
    requires k <= p && i < hs[k] && k != rank[i]
    ensures order[k] in s && i < |s[order[k]].levels|
    ensures LinkOk(order, hs, k, i, s[order[k]].levels[i]) && !Crosses(k, s[order[k]].levels[i], p)
  {
    assert ChainedAt(s, order, hs, k, i);
  }

  /** `t` is `s` and page `y`, put after `p` on `height` levels. */
  ghost predicate LinkedIn(s: Store, t: Store, order: seq<nat>, hs: seq<nat>, level: nat,
                           rank: seq<nat>, p: nat, y: nat, height: nat)
    requires Linked(s, order, hs, level) && Ranked(hs, level, rank, p) && 1 <= height <= level
  {
    && t.Keys == s.Keys + {y} && |t[y].levels| == height
    && (forall q :: q in s ==> |t[q].levels| == |s[q].levels|)
    && (forall k: nat, i: nat :: k < |order| && i < hs[k] ==>
         t[order[k]].levels[i] == (if i < level && k == rank[i]
                                   then AddLink(rank, p, y, height, i, s[order[k]].levels[i])
                                   else s[order[k]].levels[i]))
    && (forall i :: 0 <= i < height ==> TailOf(s, order, hs, rank, p, i, t[y].levels[i]))
  }

  /** What is left of the link over the gap, from the gap on. */
  ghost predicate TailOf(s: Store, order: seq<nat>, hs: seq<nat>, rank: seq<nat>, p: nat, i: nat, l: Link) {
    && i < |rank| && rank[i] < |order| && order[rank[i]] in s && i < |s[order[rank[i]]].levels|
    && var was := s[order[rank[i]]].levels[i];
    l.right == was.right && l.span == was.span - (p - rank[i])
  }

  lemma LinkBeforeGap(s: Store, order: seq<nat>, hs: seq<nat>, level: nat, rank: seq<nat>, p: nat, y: nat, height: nat,
                      k: nat, i: nat)
    requires Linked(s, order, hs, level) && Ranked(hs, level, rank, p) && y != 0
    requires k <= p && i < level && i < hs[k]
    ensures var l := s[order[k]].levels[i];
      LinkOk(Added(order, p, y), Added(hs, p, height), k, i,
             if k == rank[i] then AddLink(rank, p, y, height, i, l) else l)
  {
    hide Covers;
    if k == rank[i] {
      ReachesGap(s, order, hs, level, rank, p, i);
      var l := s[order[k]].levels[i];
      if i < height {
        LinkCut(order, hs, p, y, height, k, i, l);
      } else {
        LinkStretched(order, hs, p, y, height, k, i, l);
      }
    } else {
      StaysBefore(s, order, hs, level, rank, p, i, k);
      LinkBefore(order, hs, p, y, height, k, i, s[order[k]].levels[i]);
    }
  }

  lemma LinkOfNew(s: Store, order: seq<nat>, hs: seq<nat>, level: nat, rank: seq<nat>, p: nat, y: nat, height: nat,
                  i: nat, l: Link)
    requires Linked(s, order, hs, level) && Ranked(hs, level, rank, p) && y != 0
    requires i < height <= level && TailOf(s, order, hs, rank, p, i, l)
    ensures LinkOk(Added(order, p, y), Added(hs, p, height), p + 1, i, l)
  {
    ReachesGap(s, order, hs, level, rank, p, i);
    hide LinkOk, Linked, Ranked;
    LinkCut(order, hs, p, y, height, rank[i], i, s[order[rank[i]]].levels[i]);
  }

  lemma LinkAfterGap(s: Store, order: seq<nat>, hs: seq<nat>, level: nat, p: nat, y: nat, height: nat, k: nat, i: nat)
    requires Linked(s, order, hs, level) && p < k < |order| && i < level && i < hs[k]
    ensures LinkOk(Added(order, p, y), Added(hs, p, height), k + 1, i, s[order[k]].levels[i])
  {
    assert ChainedAt(s, order, hs, k, i);
    hide LinkOk, Linked;
    LinkAfter(order, hs, p, y, height, k, i, s[order[k]].levels[i]);
  }

  /** One link of an old node in `t`. */
  lemma LinkThen(s: Store, t: Store, order: seq<nat>, hs: seq<nat>, level: nat,
                 rank: seq<nat>, p: nat, y: nat, height: nat, k: nat, i: nat)
    requires Linked(s, order, hs, level) && Ranked(hs, level, rank, p) && 1 <= height <= level
    requires y !in s && LinkedIn(s, t, order, hs, level, rank, p, y, height)
    requires k < |order| && i < hs[k]
    ensures order[k] in s && order[k] in t && |t[order[k]].levels| == hs[k] == |s[order[k]].levels|
    ensures t[order[k]].levels[i] == (if i < level && k == rank[i]
                                      then AddLink(rank, p, y, height, i, s[order[k]].levels[i])
                                      else s[order[k]].levels[i])
  {}

  lemma ChainedIn(s: Store, t: Store, order: seq<nat>, hs: seq<nat>, level: nat,
                  rank: seq<nat>, p: nat, y: nat, height: nat, k: nat, i: nat)
    requires Linked(s, order, hs, level) && Ranked(hs, level, rank, p) && 1 <= height <= level
    requires y !in s && y != 0 && LinkedIn(s, t, order, hs, level, rank, p, y, height)
    requires k <= |order| && i < level && i < Added(hs, p, height)[k]
    ensures ChainedAt(t, Added(order, p, y), Added(hs, p, height), k, i)
  {
    hide Added, Skips, Covers;
    var order', hs' := Added(order, p, y), Added(hs, p, height);
    if k <= p {
      assert order'[k] == order[k] && hs'[k] == hs[k];
      LinkThen(s, t, order, hs, level, rank, p, y, height, k, i);
      LinkBeforeGap(s, order, hs, level, rank, p, y, height, k, i);
    } else if k == p + 1 {
      assert order'[k] == y && hs'[k] == height;
      assert TailOf(s, order, hs, rank, p, i, t[y].levels[i]);
      LinkOfNew(s, order, hs, level, rank, p, y, height, i, t[y].levels[i]);
    } else {
      assert order'[k] == order[k - 1] && hs'[k] == hs[k - 1];
      NotRanked(hs, level, rank, p, k - 1, i);
      LinkThen(s, t, order, hs, level, rank, p, y, height, k - 1, i);
      LinkAfterGap(s, order, hs, level, p, y, height, k - 1, i);
    }
  }

  lemma NotRanked(hs: seq<nat>, level: nat, rank: seq<nat>, p: nat, k: nat, i: nat)
    requires Ranked(hs, level, rank, p) && i < level && k > p
    ensures k != rank[i]
  {}

  lemma AllChainedIn(s: Store, t: Store, order: seq<nat>, hs: seq<nat>, level: nat,
                     rank: seq<nat>, p: nat, y: nat, height: nat)
    requires Linked(s, order, hs, level) && Ranked(hs, level, rank, p) && 1 <= height <= level
    requires y !in s && y != 0 && LinkedIn(s, t, order, hs, level, rank, p, y, height)
    ensures Chained(t, Added(order, p, y), Added(hs, p, height), level)
  {
    var order', hs' := Added(order, p, y), Added(hs, p, height);
    assert |order'| == |order| + 1;
    hide Linked, Ranked, LinkedIn, ChainedAt;
    forall k: nat, i: nat | k < |order'| && i < hs'[k] && i < level ensures ChainedAt(t, order', hs', k, i) {
      ChainedIn(s, t, order, hs, level, rank, p, y, height, k, i);
    }
  }

  lemma CoversWith(s: Store, t: Store, order: seq<nat>, p: nat, y: nat)
    requires Covers(s, order) && p < |order| && t.Keys == s.Keys + {y}
    ensures Covers(t, Added(order, p, y))
  {
    var order' := Added(order, p, y);
    assert order'[p + 1] == y;
    forall q | q in s ensures q in order' {
      var k :| 0 <= k < |order| && order[k] == q;
      assert order'[if k <= p then k else k + 1] == q;
    }
  }

  lemma DistinctWith(order: seq<nat>, p: nat, y: nat)
    requires Distinct(order) && p < |order| && y !in order
    ensures Distinct(Added(order, p, y))
  {}

  lemma PagesWith(s: Store, t: Store, order: seq<nat>, hs: seq<nat>, p: nat, y: nat, height: nat)
    requires Pages(s, order, hs) && p < |order| && y !in s && y != 0
    requires t.Keys == s.Keys + {y} && |t[y].levels| == height
    requires forall q :: q in s ==> |t[q].levels| == |s[q].levels|
    ensures Pages(t, Added(order, p, y), Added(hs, p, height))
  {
    CoversWith(s, t, order, p, y);
    DistinctWith(order, p, y);
    hide Covers, Distinct;
    var order', hs' := Added(order, p, y), Added(hs, p, height);
    forall k | 0 <= k < |order'|
      ensures order'[k] != 0 && order'[k] in t && |t[order'[k]].levels| == hs'[k]
    {
      if k <= p {
        assert order[k] in s;
      } else if k > p + 1 {
        assert order[k - 1] in s;
      }
    }
  }

  lemma HeadEndsWith(s: Store, t: Store, order: seq<nat>, hs: seq<nat>, level: nat,
                     rank: seq<nat>, p: nat, y: nat, height: nat)
    requires Linked(s, order, hs, level) && Ranked(hs, level, rank, p) && 1 <= height <= level
    requires y !in s && y != 0 && LinkedIn(s, t, order, hs, level, rank, p, y, height)
    ensures order[0] in t && HeadEnds(t[order[0]], level)
  {
    LinkThen(s, t, order, hs, level, rank, p, y, height, 0, 0);
    forall i | level <= i < MAXLEVEL ensures t[order[0]].levels[i].right == 0 {
      LinkThen(s, t, order, hs, level, rank, p, y, height, 0, i);
    }
  }

  lemma LinkedWith(s: Store, t: Store, order: seq<nat>, hs: seq<nat>, level: nat,
                   rank: seq<nat>, p: nat, y: nat, height: nat)
    requires Linked(s, order, hs, level) && Ranked(hs, level, rank, p) && 1 <= height <= level
    requires y !in s && y != 0 && LinkedIn(s, t, order, hs, level, rank, p, y, height)
    ensures Linked(t, Added(order, p, y), Added(hs, p, height), level)
  {
    hide Covers;
    PagesWith(s, t, order, hs, p, y, height);
    AllChainedIn(s, t, order, hs, level, rank, p, y, height);
    HeadEndsWith(s, t, order, hs, level, rank, p, y, height);
  }

  // ---- Removal of the node after `p`, page `y` on `h` levels

  /** The link of the last node before the one removed. */
  ghost function DropLink(gone: Node, y: nat, i: nat, l: Link): Link {
    if l.right != y then Link(l.right, if l.span > 0 then l.span - 1 else 0)
    else if i < |gone.levels| && l.span > 0 then Link(gone.levels[i].right, l.span + gone.levels[i].span - 1)
    else l
  }

  /** `t` is `s` without page `y`, the links on the way to it or over it mended. */
  ghost predicate LinkedOut(s: Store, t: Store, order: seq<nat>, hs: seq<nat>, level: nat,
                            rank: seq<nat>, p: nat, y: nat, h: nat)
    requires p < |order| == |hs| && Linked(s, Added(order, p, y), Added(hs, p, h), level)
    requires Ranked(Added(hs, p, h), level, rank, p)
  {
    && y in s && t.Keys == s.Keys - {y}
    && (forall q :: q in t ==> q in s && |t[q].levels| == |s[q].levels|)
    && (forall k: nat :: k < |order| ==> order[k] in t)
    && (forall k: nat, i: nat {:trigger t[order[k]].levels[i]} ::
         k < |order| && i < hs[k] && i < |t[order[k]].levels| ==>
         t[order[k]].levels[i] == (if i < level && k == rank[i] then DropLink(s[y], y, i, s[order[k]].levels[i])
                                   else s[order[k]].levels[i]))
  }

  lemma LinkBeforeDrop(s: Store, order: seq<nat>, hs: seq<nat>, level: nat, rank: seq<nat>, p: nat, y: nat, h: nat,
                       k: nat, i: nat)
    requires p < |order| == |hs| && Linked(s, Added(order, p, y), Added(hs, p, h), level)
    requires Ranked(Added(hs, p, h), level, rank, p) && y in s
    requires k <= p && i < level && i < hs[k]
    ensures order[k] in s && i < |s[order[k]].levels|
    ensures var l := s[order[k]].levels[i];
      LinkOk(order, hs, k, i, if k == rank[i] then DropLink(s[y], y, i, l) else l)
  {
    hide Skips, Covers;
    var order', hs' := Added(order, p, y), Added(hs, p, h);
    assert order'[k] == order[k] && hs'[k] == hs[k] && order'[p + 1] == y && hs'[p + 1] == h;
    if k == rank[i] {
      ReachesGap(s, order', hs', level, rank, p, i);
      var l := s[order[k]].levels[i];
      assert l.right == y <==> l.right != 0 && k + l.span == p + 1;
      if l.right == y {
        assert ChainedAt(s, order', hs', p + 1, i);
        LinkJoined(order, hs, p, y, h, k, i, l, s[y].levels[i]);
      } else {
        LinkShrunk(order, hs, p, y, h, k, i, l);
      }
    } else {
      StaysBefore(s, order', hs', level, rank, p, i, k);
      LinkKeptBefore(order, hs, p, y, h, k, i, s[order[k]].levels[i]);
    }
  }

  lemma LinkAfterDrop(s: Store, order: seq<nat>, hs: seq<nat>, level: nat, p: nat, y: nat, h: nat, k: nat, i: nat)
    requires p < |order| == |hs| && Linked(s, Added(order, p, y), Added(hs, p, h), level)
    requires p < k < |order| && i < level && i < hs[k]
    ensures order[k] in s && i < |s[order[k]].levels|
    ensures LinkOk(order, hs, k, i, s[order[k]].levels[i])
  {
    var order', hs' := Added(order, p, y), Added(hs, p, h);
    assert order'[k + 1] == order[k] && hs'[k + 1] == hs[k];
    assert ChainedAt(s, order', hs', k + 1, i);
    hide Linked, LinkOk, Added;
    LinkKeptAfter(order, hs, p, y, h, k, i, s[order[k]].levels[i]);
  }

  lemma CoversWithout(s: Store, order: seq<nat>, p: nat, y: nat)
    requires p < |order| && Covers(s, Added(order, p, y))
    ensures forall q :: q in s && q != y ==> q in order
  {
    var order' := Added(order, p, y);
    forall q | q in s && q != y ensures q in order {
      var k :| 0 <= k < |order'| && order'[k] == q;
      assert order[if k <= p then k else k - 1] == q;
    }
  }

  lemma PagesWithout(s: Store, order: seq<nat>, hs: seq<nat>, p: nat, y: nat, h: nat)
    requires p < |order| == |hs| && Pages(s, Added(order, p, y), Added(hs, p, h))
    ensures Distinct(order) && y !in order && y in s
    ensures forall k :: 0 <= k < |order| ==> order[k] != 0 && order[k] in s && |s[order[k]].levels| == hs[k]
    ensures forall q :: q in s && q != y ==> q in order
  {
    hide Added, Distinct, Covers;
    CoversWithout(s, order, p, y);
    DistinctWithout(order, p, y);
    assert Added(order, p, y)[p + 1] == y;
    forall k | 0 <= k < |order| ensures order[k] != 0 && order[k] in s && |s[order[k]].levels| == hs[k] {
      var j := if k <= p then k else k + 1;
      assert Added(order, p, y)[j] == order[k] && Added(hs, p, h)[j] == hs[k];
    }
  }

  lemma DistinctWithout(order: seq<nat>, p: nat, y: nat)
    requires p < |order| && Distinct(Added(order, p, y))
    ensures Distinct(order) && y !in order
  {
    var order' := Added(order, p, y);
    AddedAt(order, p, y);
    assert order'[p + 1] == y;
    forall i, j | 0 <= i < j < |order| ensures order[i] != order[j] {
      assert order'[if i <= p then i else i + 1] != order'[if j <= p then j else j + 1];
    }
    forall i | 0 <= i < |order| ensures order[i] != y {
      assert order'[if i <= p then i else i + 1] == order[i];
    }
  }

  /** A link above the levels on which anything changed. */
  lemma LinkStill(s: Store, t: Store, order: seq<nat>, hs: seq<nat>, level: nat,
                  rank: seq<nat>, p: nat, y: nat, h: nat, k: nat, i: nat)
    requires p < |order| == |hs| && Linked(s, Added(order, p, y), Added(hs, p, h), level)
    requires Ranked(Added(hs, p, h), level, rank, p) && LinkedOut(s, t, order, hs, level, rank, p, y, h)
    requires k < |order| && level <= i < hs[k] && order[k] in s && i < |s[order[k]].levels|
    ensures order[k] in t && i < |t[order[k]].levels| && t[order[k]].levels[i] == s[order[k]].levels[i]
  {}

  lemma ChainedOut(s: Store, t: Store, order: seq<nat>, hs: seq<nat>, level: nat,
                   rank: seq<nat>, p: nat, y: nat, h: nat, k: nat, i: nat)
    requires p < |order| == |hs| && Linked(s, Added(order, p, y), Added(hs, p, h), level)
    requires Ranked(Added(hs, p, h), level, rank, p) && LinkedOut(s, t, order, hs, level, rank, p, y, h)
    requires k < |order| && i < level && i < hs[k]
    ensures ChainedAt(t, order, hs, k, i)
  {
    PagesWithout(s, order, hs, p, y, h);
    assert order[k] in t && i < |t[order[k]].levels|;
    if k <= p {
      LinkBeforeDrop(s, order, hs, level, rank, p, y, h, k, i);
      hide Linked, Ranked, LinkOk, Added, DropLink;
    } else {
      NotRanked(Added(hs, p, h), level, rank, p, k, i);
      LinkAfterDrop(s, order, hs, level, p, y, h, k, i);
      hide Linked, Ranked, LinkOk, Added, DropLink;
    }
  }

  lemma AllChainedOut(s: Store, t: Store, order: seq<nat>, hs: seq<nat>, level: nat,
                      rank: seq<nat>, p: nat, y: nat, h: nat)
    requires p < |order| == |hs| && Linked(s, Added(order, p, y), Added(hs, p, h), level)
    requires Ranked(Added(hs, p, h), level, rank, p) && LinkedOut(s, t, order, hs, level, rank, p, y, h)
    ensures Chained(t, order, hs, level)
  {
    hide LinkedOut, Linked, Ranked, ChainedAt;
    forall k: nat, i: nat | k < |order| && i < hs[k] && i < level ensures ChainedAt(t, order, hs, k, i) {
      ChainedOut(s, t, order, hs, level, rank, p, y, h, k, i);
    }
  }

  lemma LinkedWithout(s: Store, t: Store, order: seq<nat>, hs: seq<nat>, level: nat,
                      rank: seq<nat>, p: nat, y: nat, h: nat)
    requires p < |order| == |hs| && Linked(s, Added(order, p, y), Added(hs, p, h), level)
    requires Ranked(Added(hs, p, h), level, rank, p) && LinkedOut(s, t, order, hs, level, rank, p, y, h)
    ensures Linked(t, order, hs, level)
  {
    AllChainedOut(s, t, order, hs, level, rank, p, y, h);
    PagesWithout(s, order, hs, p, y, h);
    HeightsWithout(hs, level, p, h);
    assert order[0] == Added(order, p, y)[0];
    forall i: nat | level <= i < MAXLEVEL ensures t[order[0]].levels[i].right == 0 {
      LinkStill(s, t, order, hs, level, rank, p, y, h, 0, i);
    }
  }

  lemma HeightsWithout(hs: seq<nat>, level: nat, p: nat, h: nat)
    requires p < |hs| && Heights(Added(hs, p, h), level)
    ensures Heights(hs, level)
  {
    AddedAt(hs, p, h);
  }

  // ---- The height of the list

  /** Another level on which only the index node is. */
  lemma RaiseOne(s: Store, order: seq<nat>, hs: seq<nat>, level: nat)
    requires Linked(s, order, hs, level) && level < MAXLEVEL
    ensures order[0] in s && |s[order[0]].levels| == MAXLEVEL && Heights(hs, level)
    ensures var l := Link(s[order[0]].levels[level].right, |order| - 1);
      Linked(SetLink(s, order[0], level, l), order, hs, level + 1)
  {
    var head := order[0];
    var t := SetLink(s, head, level, Link(s[head].levels[level].right, |order| - 1));
    assert Pages(t, order, hs) by {
      hide Distinct;
      assert Covers(t, order);
    }
    hide Pages;
    forall k: nat, i: nat | k < |order| && i < hs[k] && i < level + 1 ensures ChainedAt(t, order, hs, k, i) {
      if i < level {
        assert ChainedAt(s, order, hs, k, i);
      }
    }
  }

  /** A level on which only the index node is can go. */
  lemma LowerOne(s: Store, order: seq<nat>, hs: seq<nat>, level: nat)
    requires Linked(s, order, hs, level)
    requires order[0] in s && level <= |s[order[0]].levels| && s[order[0]].levels[level - 1].right == 0
    ensures level == 1 ==> |order| == 1
    ensures level > 1 ==> Linked(s, order, hs, level - 1)
  {
    assert ChainedAt(s, order, hs, 0, level - 1);
    forall k | 1 <= k < |hs| ensures hs[k] <= level - 1 {
    }
    assert |order| > 1 ==> 1 <= hs[1] <= level - 1;
    if level > 1 {
      forall k: nat, i: nat | k < |order| && i < hs[k] && i < level - 1 ensures ChainedAt(s, order, hs, k, i) {
        assert ChainedAt(s, order, hs, k, i);
      }
    }
  }

  // ---- Elements and left links

  /** Left links do not matter to the chains. */
  lemma LinkedFrame(s: Store, t: Store, order: seq<nat>, hs: seq<nat>, level: nat)
    requires Linked(s, order, hs, level)
    requires s.Keys == t.Keys && forall q :: q in s ==> t[q].levels == s[q].levels
    ensures Linked(t, order, hs, level)
  {
    assert Pages(t, order, hs) by {
      hide Distinct;
      assert Covers(t, order);
    }
    hide Pages, LinkOk;
    forall k: nat, i: nat | k < |order| && i < hs[k] && i < level ensures ChainedAt(t, order, hs, k, i) {
      assert ChainedAt(s, order, hs, k, i);
    }
    assert order[0] in s by {
      assert ChainedAt(s, order, hs, 0, 0);
    }
  }

  /** The left link of the node at `k`. */
  ghost function LeftOfNode(order: seq<nat>, k: nat): nat
    requires 1 <= k <= |order|
  {
    if k == 1 then 0 else order[k - 1]
  }

  lemma BackwardsWith(s: Store, t: Store, order: seq<nat>, p: nat, y: nat)
    requires p < |order| && Distinct(order) && y !in order && Backwards(s, order)
    requires y in t && t[y].left == LeftOfNode(order, p + 1)
    requires forall k :: 0 <= k < |order| ==> order[k] in s && order[k] in t
    requires forall k :: 1 <= k < |order| ==> t[order[k]].left == (if k == p + 1 then y else s[order[k]].left)
    ensures Backwards(t, Added(order, p, y))
  {
    var order' := Added(order, p, y);
    forall k: nat | 1 <= k < |order'| ensures BackAt(t, order', k) {
      assert order'[k - 1] == (if k - 1 <= p then order[k - 1] else if k == p + 2 then y else order[k - 2]);
      if k <= p {
        assert order'[k] == order[k] && BackAt(s, order, k);
      } else if k == p + 1 {
        assert order'[k] == y;
      } else {
        assert order'[k] == order[k - 1] && BackAt(s, order, k - 1);
      }
    }
  }

  lemma BackwardsWithout(s: Store, t: Store, order: seq<nat>, p: nat, y: nat)
    requires p < |order| && Backwards(s, Added(order, p, y)) && y in s
    requires forall k :: 0 <= k < |order| ==> order[k] in s && order[k] in t
    requires forall k :: 1 <= k < |order| ==> t[order[k]].left == (if k == p + 1 then s[y].left else s[order[k]].left)
    ensures Backwards(t, order)
  {
    var order' := Added(order, p, y);
    forall k: nat | 1 <= k < |order| ensures BackAt(t, order, k) {
      assert order'[p + 1] == y;
      if k <= p {
        assert order'[k] == order[k] && order'[k - 1] == order[k - 1] && BackAt(s, order', k);
      } else {
        assert BackAt(s, order', k + 1) && BackAt(s, order', p + 1);
        assert order'[k + 1] == order[k];
        assert order'[k] == (if k == p + 1 then y else order[k - 1]);
        assert p + 1 > 1 ==> order'[p] == order[p];
      }
    }
  }

  lemma ElementsWith(s: Store, t: Store, order: seq<nat>, p: nat, y: nat)
    requires p < |order| && y in t
    requires forall k :: 0 <= k < |order| ==>
      order[k] in s && order[k] in t && ElemOf(t[order[k]]) == ElemOf(s[order[k]])
    ensures forall k :: 0 <= k <= |order| ==> Added(order, p, y)[k] in t
    ensures Elements(t, Added(order, p, y)) == Elements(s, order)[..p] + [ElemOf(t[y])] + Elements(s, order)[p..]
  {
    var order' := Added(order, p, y);
    var a, b := Elements(t, order'), Elements(s, order);
    forall k | 0 <= k < |a| ensures a[k] == (b[..p] + [ElemOf(t[y])] + b[p..])[k] {
      assert a[k] == ElemOf(t[order'[k + 1]]);
    }
  }

  // ---- Linking in, level by level

  /** `LinkedIn` as far as the levels below `low` of the new node and those from
      `height` to `high` over it. */
  ghost predicate PartlyIn(s: Store, t: Store, order: seq<nat>, hs: seq<nat>, level: nat, rank: seq<nat>,
                           p: nat, y: nat, height: nat, low: nat, high: nat)
  {
    && |order| == |hs| && level <= |rank|
    && t.Keys == s.Keys + {y} && |t[y].levels| == height
    && (forall q :: q in s ==> |t[q].levels| == |s[q].levels|)
    && (forall k: nat, i: nat {:trigger t[order[k]].levels[i]} ::
         k < |order| && i < hs[k] && order[k] in s && i < |s[order[k]].levels| ==>
           t[order[k]].levels[i] ==
             (if i < level && k == rank[i] && (i < low || height <= i < high)
              then AddLink(rank, p, y, height, i, s[order[k]].levels[i]) else s[order[k]].levels[i]))
    && (forall i :: 0 <= i < low && i < height ==> TailOf(s, order, hs, rank, p, i, t[y].levels[i]))
  }

  lemma NothingIn(s: Store, order: seq<nat>, hs: seq<nat>, level: nat, rank: seq<nat>, p: nat, y: nat, n: Node)
    requires Linked(s, order, hs, level) && Ranked(hs, level, rank, p) && y !in s
    ensures PartlyIn(s, s[y := n], order, hs, level, rank, p, y, |n.levels|, 0, |n.levels|)
  {}

  lemma AllIn(s: Store, t: Store, order: seq<nat>, hs: seq<nat>, level: nat, rank: seq<nat>, p: nat, y: nat,
              height: nat)
    requires Linked(s, order, hs, level) && Ranked(hs, level, rank, p) && 1 <= height <= level && y !in s
    requires PartlyIn(s, t, order, hs, level, rank, p, y, height, height, level)
    ensures LinkedIn(s, t, order, hs, level, rank, p, y, height)
  {}

  /** The link of the last node before the gap, not rewritten yet. */
  lemma LinkYet(s: Store, t: Store, order: seq<nat>, hs: seq<nat>, level: nat, rank: seq<nat>,
                p: nat, y: nat, height: nat, low: nat, high: nat, i: nat)
    requires Linked(s, order, hs, level) && Ranked(hs, level, rank, p) && i < level && y !in s
    requires PartlyIn(s, t, order, hs, level, rank, p, y, height, low, high) && low <= i && (i < height || high <= i)
    ensures rank[i] < |order| && order[rank[i]] in s && order[rank[i]] in t && order[rank[i]] != y
    ensures rank[i] <= p && i < |s[order[rank[i]]].levels| && i < |t[order[rank[i]]].levels| && i < hs[rank[i]]
    ensures t[order[rank[i]]].levels[i] == s[order[rank[i]]].levels[i]
    ensures t[order[rank[i]]].levels[i].span >= p - rank[i]
  {
    ReachesGap(s, order, hs, level, rank, p, i);
  }

  lemma OneLinkMore(s: Store, t: Store, v: Store, order: seq<nat>, hs: seq<nat>, level: nat, rank: seq<nat>,
                    p: nat, y: nat, height: nat, low: nat, high: nat, i: nat, low': nat, high': nat)
    requires Pages(s, order, hs) && y !in s && i < level
    requires PartlyIn(s, t, order, hs, level, rank, p, y, height, low, high)
    requires rank[i] < |order| && order[rank[i]] in s && i < |s[order[rank[i]]].levels|
    requires low <= i && (i < height || high <= i)
    requires (low' == i + 1 && high' == high) || (high' == i + 1 && low' == low)
    requires if i < height then low == i && low' == i + 1 else high == i && high' == i + 1
    requires SameButLinks(t, v)
    requires forall q, m :: q in t && 0 <= m < |t[q].levels| && m != i ==> v[q].levels[m] == t[q].levels[m]
    requires forall q :: q in t && q != order[rank[i]] && q != y && i < |t[q].levels| ==>
      v[q].levels[i] == t[q].levels[i]
    requires v[order[rank[i]]].levels[i] == AddLink(rank, p, y, height, i, s[order[rank[i]]].levels[i])
    requires i < height ==> TailOf(s, order, hs, rank, p, i, v[y].levels[i])
    ensures PartlyIn(s, v, order, hs, level, rank, p, y, height, low', high')
  {}

  /** The link of page `u` is at least `d` steps long, and `y` has one as well. */
  predicate CanTake(t: Store, u: nat, y: nat, i: nat, d: int) {
    u in t && y in t && u != y && i < |t[u].levels| && i < |t[y].levels| && 0 <= d <= t[u].levels[i].span
  }

  /** Page `y` takes over all but the first `d` steps of the link of page `u`. */
  function Take(t: Store, u: nat, y: nat, i: nat, d: int): (v: Store)
    requires CanTake(t, u, y, i, d)
    ensures SameButLinks(t, v)
    ensures v[u].levels == t[u].levels[i := Link(y, d + 1)]
    ensures v[y].levels == t[y].levels[i := Link(t[u].levels[i].right, t[u].levels[i].span - d)]
    ensures forall q :: q in t && q != u && q != y ==> v[q] == t[q]
  {
    var l := t[u].levels[i];
    SetLink(SetLink(t, y, i, Link(l.right, l.span - d)), u, i, Link(y, d + 1))
  }

  predicate HasLevel(t: Store, u: nat, i: nat) {
    u in t && i < |t[u].levels|
  }

  /** The link of page `u` is one longer. */
  function Stretch(t: Store, u: nat, i: nat): (v: Store)
    requires HasLevel(t, u, i)
    ensures SameButLinks(t, v)
    ensures v[u].levels == t[u].levels[i := Link(t[u].levels[i].right, t[u].levels[i].span + 1)]
    ensures forall q :: q in t && q != u ==> v[q] == t[q]
  {
    SetLink(t, u, i, Link(t[u].levels[i].right, t[u].levels[i].span + 1))
  }

  /** Level `i` of the new node is linked in. */
  lemma TallStep(s: Store, start: Store, t: Store, order: seq<nat>, hs: seq<nat>, level: nat, rank: seq<nat>,
                 p: nat, y: nat, height: nat, i: nat, u: nat)
    requires SameButLinks(start, t)
    requires Linked(s, order, hs, level) && Ranked(hs, level, rank, p) && y !in s
    requires i < height <= level && PartlyIn(s, t, order, hs, level, rank, p, y, height, i, height)
    requires rank[i] < |order| && u == order[rank[i]]
    ensures CanTake(t, u, y, i, p - rank[i])
    ensures var v := Take(t, u, y, i, p - rank[i]);
      SameButLinks(start, v) && PartlyIn(s, v, order, hs, level, rank, p, y, height, i + 1, height)
  {
    hide Take, Skips, Distinct, Covers;
    LinkYet(s, t, order, hs, level, rank, p, y, height, i, height, i);
    assert Pages(s, order, hs) && i < |t[y].levels|;
    var v := Take(t, order[rank[i]], y, i, p - rank[i]);
    assert TailOf(s, order, hs, rank, p, i, v[y].levels[i]);
    OneLinkMore(s, t, v, order, hs, level, rank, p, y, height, i, height, i, i + 1, height);
  }

  /** Level `i` skips over the new node. */
  lemma ShortStep(s: Store, start: Store, t: Store, order: seq<nat>, hs: seq<nat>, level: nat, rank: seq<nat>,
                  p: nat, y: nat, height: nat, i: nat, u: nat)
    requires SameButLinks(start, t)
    requires Linked(s, order, hs, level) && Ranked(hs, level, rank, p) && y !in s
    requires height <= i < level && PartlyIn(s, t, order, hs, level, rank, p, y, height, height, i)
    requires rank[i] < |order| && u == order[rank[i]]
    ensures HasLevel(t, u, i)
    ensures var v := Stretch(t, u, i);
      SameButLinks(start, v) && PartlyIn(s, v, order, hs, level, rank, p, y, height, height, i + 1)
  {
    hide PartlyIn, Covers, ElemOf;
    LinkYet(s, t, order, hs, level, rank, p, y, height, height, i, i);
    assert Pages(s, order, hs);
    var v := Stretch(t, order[rank[i]], i);
    OneLinkMore(s, t, v, order, hs, level, rank, p, y, height, height, i, i, height, i + 1);
  }

  /** Level 0 leads from each node to the next. */
  lemma BottomLink(s: Store, order: seq<nat>, hs: seq<nat>, level: nat, k: nat)
    requires Linked(s, order, hs, level) && k < |order|
    ensures order[k] in s && |s[order[k]].levels| > 0
    ensures s[order[k]].levels[0] == if k + 1 < |order| then Link(order[k + 1], 1) else Link(0, 0)
  {
    assert ChainedAt(s, order, hs, k, 0);
    assert k + 1 < |order| ==> hs[k + 1] > 0;
  }

  function SetLeft(s: Store, page: nat, left: nat): (t: Store)
    requires page in s
    ensures t.Keys == s.Keys && t[page].left == left && ElemOf(t[page]) == ElemOf(s[page])
    ensures forall q :: q in s ==> t[q].levels == s[q].levels && (q != page ==> t[q] == s[q])
  {
    s[page := s[page].(left := left)]
  }

  // ---- Linking out, level by level

  /** `LinkedOut` as far as the levels below `low`, page `y` still stored. */
  ghost predicate PartlyOut(s: Store, t: Store, order: seq<nat>, hs: seq<nat>, level: nat, rank: seq<nat>,
                            p: nat, y: nat, low: nat)
  {
    && |order| == |hs| && level <= |rank| && SameButLinks(s, t) && y in s && t[y] == s[y]
    && (forall k: nat, i: nat {:trigger t[order[k]].levels[i]} ::
         k < |order| && i < hs[k] && order[k] in s && i < |s[order[k]].levels| ==>
           t[order[k]].levels[i] ==
             (if i < level && k == rank[i] && i < low
              then DropLink(s[y], y, i, s[order[k]].levels[i]) else s[order[k]].levels[i]))
  }

  /** The link of page `u` to page `y` takes over that of `y`; one over it is
      one shorter. */
  function Mend(t: Store, u: nat, y: nat, i: nat): (v: Store)
    requires u in t && y in t && u != y && i < |t[u].levels| && t[u].levels[i].span >= 1
    requires t[u].levels[i].right == y ==> i < |t[y].levels|
    ensures SameButLinks(t, v)
    ensures v[u].levels == t[u].levels[i := DropLink(t[y], y, i, t[u].levels[i])]
    ensures forall q :: q in t && q != u ==> v[q] == t[q]
  {
    var l := t[u].levels[i];
    if l.right == y then
      SetLink(t, u, i, Link(t[y].levels[i].right, l.span + t[y].levels[i].span - 1))
    else
      SetLink(t, u, i, Link(l.right, l.span - 1))
  }

  lemma NothingOut(s: Store, order: seq<nat>, hs: seq<nat>, level: nat, rank: seq<nat>, p: nat, y: nat, h: nat)
    requires p < |order| == |hs| && Linked(s, Added(order, p, y), Added(hs, p, h), level)
    requires Ranked(Added(hs, p, h), level, rank, p)
    ensures PartlyOut(s, s, order, hs, level, rank, p, y, 0)
  {
    PagesWithout(s, order, hs, p, y, h);
  }

  lemma AllOut(s: Store, t: Store, order: seq<nat>, hs: seq<nat>, level: nat, rank: seq<nat>, p: nat, y: nat, h: nat)
    requires p < |order| == |hs| && Linked(s, Added(order, p, y), Added(hs, p, h), level)
    requires Ranked(Added(hs, p, h), level, rank, p)
    requires PartlyOut(s, t, order, hs, level, rank, p, y, level)
    ensures LinkedOut(s, t - {y}, order, hs, level, rank, p, y, h)
  {
    PagesWithout(s, order, hs, p, y, h);
  }

  /** The link of the last node before the one removed, not mended yet. */
  lemma LinkToMend(s: Store, t: Store, order: seq<nat>, hs: seq<nat>, level: nat, rank: seq<nat>,
                   p: nat, y: nat, h: nat, i: nat)
    requires p < |order| == |hs| && Linked(s, Added(order, p, y), Added(hs, p, h), level)
    requires Ranked(Added(hs, p, h), level, rank, p) && i < level
    requires PartlyOut(s, t, order, hs, level, rank, p, y, i)
    ensures rank[i] <= p && order[rank[i]] in s && order[rank[i]] in t && order[rank[i]] != y
    ensures Added(order, p, y)[rank[i]] == order[rank[i]] && i < hs[rank[i]]
    ensures i < |s[order[rank[i]]].levels| && i < |t[order[rank[i]]].levels|
    ensures var l := t[order[rank[i]]].levels[i];
      l == s[order[rank[i]]].levels[i] && l.span >= 1 && (l.right == y ==> i < |t[y].levels|)
  {
    hide Heights, Covers;
    var order', hs' := Added(order, p, y), Added(hs, p, h);
    assert order'[rank[i]] == order[rank[i]] && hs'[rank[i]] == hs[rank[i]];
    assert order'[p + 1] == y && hs'[p + 1] == h && |s[y].levels| == h;
    ReachesGap(s, order', hs', level, rank, p, i);
    PagesWithout(s, order, hs, p, y, h);
    var l := s[order[rank[i]]].levels[i];
    assert l.right != 0 ==> order'[rank[i] + l.span] == l.right;
  }

  lemma OneLinkMended(s: Store, t: Store, v: Store, order: seq<nat>, hs: seq<nat>, level: nat, rank: seq<nat>,
                      p: nat, y: nat, i: nat)
    requires Distinct(order) && y !in order && PartlyOut(s, t, order, hs, level, rank, p, y, i) && i < level
    requires rank[i] < |order| && order[rank[i]] in s && i < |s[order[rank[i]]].levels|
    requires SameButLinks(t, v)
    requires v[order[rank[i]]].levels
          == t[order[rank[i]]].levels[i := DropLink(s[y], y, i, s[order[rank[i]]].levels[i])]
    requires forall q :: q in t && q != order[rank[i]] ==> v[q] == t[q]
    ensures PartlyOut(s, v, order, hs, level, rank, p, y, i + 1)
  {}

  lemma MendStep(s: Store, t: Store, order: seq<nat>, hs: seq<nat>, level: nat, rank: seq<nat>,
                 p: nat, y: nat, h: nat, i: nat)
    requires p < |order| == |hs| && Linked(s, Added(order, p, y), Added(hs, p, h), level)
    requires Ranked(Added(hs, p, h), level, rank, p) && i < level
    requires PartlyOut(s, t, order, hs, level, rank, p, y, i)
    ensures rank[i] < |order| && Added(order, p, y)[rank[i]] == order[rank[i]] && order[rank[i]] in t
    ensures y in t && order[rank[i]] != y && i < |t[order[rank[i]]].levels| && t[order[rank[i]]].levels[i].span >= 1
    ensures t[order[rank[i]]].levels[i].right == y ==> i < |t[y].levels|
    ensures PartlyOut(s, Mend(t, order[rank[i]], y, i), order, hs, level, rank, p, y, i + 1)
  {
    LinkToMend(s, t, order, hs, level, rank, p, y, h, i);
    PagesWithout(s, order, hs, p, y, h);
    assert y in t && t[y] == s[y];
    hide PartlyOut, Linked, Ranked, Mend, DropLink;
    OneLinkMended(s, t, Mend(t, order[rank[i]], y, i), order, hs, level, rank, p, y, i);
  }

  // ---- Left links

  /** Page `y` gets a left link, and the page to its right, if any, one to `y`. */
  function PutBack(s: Store, y: nat, left: nat, next: nat): (t: Store)
    requires y in s && (next != 0 ==> next in s && next != y)
    ensures t.Keys == s.Keys && t[y].left == left && (next != 0 ==> t[next].left == y)
    ensures forall q :: q in s ==> t[q].levels == s[q].levels && ElemOf(t[q]) == ElemOf(s[q])
    ensures forall q :: q in s && q != y && q != next ==> t[q] == s[q]
  {
    var t := SetLeft(s, y, left);
    if next != 0 then SetLeft(t, next, y) else t
  }

  lemma PutBackLinks(s: Store, order: seq<nat>, hs: seq<nat>, level: nat, p: nat, y: nat, h: nat)
    requires p < |order| == |hs| && Linked(s, Added(order, p, y), Added(hs, p, h), level) && Backwards(s, order)
    ensures y in s && |s[y].levels| > 0
    ensures var next := s[y].levels[0].right;
      && next == (if p + 1 < |order| then order[p + 1] else 0)
      && (next == 0 <==> p + 1 == |order|)
      && (next != 0 ==> next in s && next != y)
      && var t := PutBack(s, y, LeftOfNode(order, p + 1), next);
      && Linked(t, Added(order, p, y), Added(hs, p, h), level) && Backwards(t, Added(order, p, y))
  {
    var order', hs' := Added(order, p, y), Added(hs, p, h);
    PagesWithout(s, order, hs, p, y, h);
    BottomLink(s, order', hs', level, p + 1);
    assert order'[p + 1] == y && (p + 2 < |order'| ==> order'[p + 2] == order[p + 1]);
    hide Linked, Backwards, Added, PutBack;
    var next := s[y].levels[0].right;
    var t := PutBack(s, y, LeftOfNode(order, p + 1), next);
    LinkedFrame(s, t, order', hs', level);
    BackwardsWith(s, t, order, p, y);
  }

  /** The page to the right of `y`, if any, gets the left link of `y`. */
  function PassOver(s: Store, y: nat, next: nat): (t: Store)
    requires y in s && (next != 0 ==> next in s && next != y)
    ensures t.Keys == s.Keys && t[y] == s[y] && (next != 0 ==> t[next].left == s[y].left)
    ensures forall q :: q in s ==> t[q].levels == s[q].levels && ElemOf(t[q]) == ElemOf(s[q])
    ensures forall q :: q in s && q != next ==> t[q] == s[q]
  {
    if next != 0 then SetLeft(s, next, s[y].left) else s
  }

  /** With the links mended and the left link passed on, page `y` can go. */
  lemma PassOverLinks(s: Store, t: Store, order: seq<nat>, hs: seq<nat>, level: nat, rank: seq<nat>, p: nat, y: nat,
                      h: nat)
    requires p < |order| == |hs| && Linked(s, Added(order, p, y), Added(hs, p, h), level)
    requires Backwards(s, Added(order, p, y)) && Ranked(Added(hs, p, h), level, rank, p)
    requires PartlyOut(s, t, order, hs, level, rank, p, y, level)
    ensures y in t && |t[y].levels| > 0 && y in s && t.Keys == s.Keys
    ensures forall k :: 0 <= k < |order| ==> order[k] in s && order[k] != y
    ensures t[y].left == LeftOfNode(order, p + 1)
    ensures var next := t[y].levels[0].right;
      && (next == 0 <==> p + 1 == |order|)
      && (next != 0 ==> next in t && next != y)
      && var v := PassOver(t, y, next);
      Linked(v - {y}, order, hs, level) && Backwards(v - {y}, order)
  {
    var order', hs' := Added(order, p, y), Added(hs, p, h);
    PagesWithout(s, order, hs, p, y, h);
    BottomLink(s, order', hs', level, p + 1);
    assert order'[p + 1] == y && (p + 2 < |order'| ==> order'[p + 2] == order[p + 1]);
    assert t[y] == s[y] && SameButLinks(s, t);
    assert BackAt(s, order', p + 1) && order'[p] == order[p];
    AllOut(s, t, order, hs, level, rank, p, y, h);
    LinkedWithout(s, t - {y}, order, hs, level, rank, p, y, h);
    hide Linked, Ranked, Backwards, Added, PassOver, PartlyOut, LinkedOut;
    var next := t[y].levels[0].right;
    var v := PassOver(t, y, next);
    LinkedFrame(t - {y}, v - {y}, order, hs, level);
    BackwardsWithout(s, v - {y}, order, p, y);
  }
}
