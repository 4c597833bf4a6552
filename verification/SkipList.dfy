// The skiplist: a search from the top level down, insertion on any number of
// levels, removal, and access by rank, all by following and mending spans.
module SkipList {
  import opened Lex
  import opened PageNumbers
  import opened RankedElements
  import opened SkipChain
  import opened SkipStore
  import opened Wrappers

  datatype Removal = Removed | NotFound | Deleted

  /** What a search is for: the last element before the score and value, the
      last before the range that starts with them, or the first in a range that
      includes or excludes them. */
  datatype RangeMode = Before | Upto | Include | Exclude

  /** `p` is the place a search for `target` ends at. */
  ghost predicate Searchable(s: Store, order: seq<nat>, hs: seq<nat>, level: nat, target: Elem, exclude: bool, p: nat) {
    && Linked(s, order, hs, level) && order != [] && (forall j :: 0 <= j < |order| ==> order[j] in s)
    && Ordered(Elements(s, order)) && p == Cut(Elements(s, order), target, exclude)
  }

  /** One step of the search keeps to the cut. */
  lemma SearchStep(s: Store, order: seq<nat>, hs: seq<nat>, level: nat, k: nat, i: nat, target: Elem, exclude: bool,
                   p: nat, page: nat)
    requires Searchable(s, order, hs, level, target, exclude, p) && i < level && OnWay(order, hs, i + 1, k, page, p)
    ensures page in s && i < |s[page].levels|
    ensures var l := s[page].levels[i];
      if l.right != 0 && l.right in s && Passed(ElemOf(s[l.right]), target, exclude) then
        l.span > 0 && OnWay(order, hs, i + 1, k + l.span, l.right, p)
      else
        (l.right != 0 ==> l.right in s) && Skips(hs, k, p + 1, i)
  {
    assert ChainedAt(s, order, hs, k, i);
    var l := s[order[k]].levels[i];
    CutSplits(Elements(s, order), target, exclude);
    if l.right != 0 {
      var j := k + l.span;
      assert Elements(s, order)[j - 1] == ElemOf(s[order[j]]);
    }
  }

  /** The search for place `p` stands at position `pos`, on page `page`, whose node
      is on the levels below `i`. */
  ghost predicate OnWay(order: seq<nat>, hs: seq<nat>, i: nat, pos: nat, page: nat, p: nat) {
    pos < |order| == |hs| && order[pos] == page && hs[pos] >= i && pos <= p
  }

  /** `update` and `rank` are the last nodes at or before `p`, level by level. */
  ghost predicate Found(order: seq<nat>, hs: seq<nat>, level: nat, update: seq<nat>, rank: seq<nat>, p: nat) {
    && |order| == |hs| && |update| == |rank| == MAXLEVEL >= level
    && Ranked(hs, level, rank, p) && rank[0] == p < |order|
    && forall i :: 0 <= i < level ==> update[i] == order[rank[i]]
  }

  lemma FoundParts(order: seq<nat>, hs: seq<nat>, level: nat, update: seq<nat>, rank: seq<nat>, p: nat)
    requires Found(order, hs, level, update, rank, p)
    ensures Ranked(hs, level, rank, p) && |order| == |hs| && level <= |update| == |rank|
    ensures forall i :: 0 <= i < level ==> rank[i] < |order| && update[i] == order[rank[i]]
  {}

  /** The steps of linking in, for the nodes the search found. */
  lemma TallAt(s: Store, start: Store, t: Store, order: seq<nat>, hs: seq<nat>, level: nat,
               update: seq<nat>, rank: seq<nat>, y: nat, height: nat, i: nat)
    requires SameButLinks(start, t) && Linked(s, order, hs, level) && y !in s
    requires |rank| > 0 && Found(order, hs, level, update, rank, rank[0]) && i < height <= level
    requires PartlyIn(s, t, order, hs, level, rank, rank[0], y, height, i, height)
    ensures i < |rank| && i < |update| && CanTake(t, update[i], y, i, rank[0] - rank[i])
    ensures var v := Take(t, update[i], y, i, rank[0] - rank[i]);
      SameButLinks(start, v) && PartlyIn(s, v, order, hs, level, rank, rank[0], y, height, i + 1, height)
  {
    hide Found, Linked, Ranked, PartlyIn, Take, CanTake, SameButLinks;
    FoundParts(order, hs, level, update, rank, rank[0]);
    TallStep(s, start, t, order, hs, level, rank, rank[0], y, height, i, update[i]);
  }

  lemma ShortAt(s: Store, start: Store, t: Store, order: seq<nat>, hs: seq<nat>, level: nat,
                update: seq<nat>, rank: seq<nat>, y: nat, height: nat, i: nat)
    requires SameButLinks(start, t) && Linked(s, order, hs, level) && y !in s
    requires |rank| > 0 && Found(order, hs, level, update, rank, rank[0]) && height <= i < level
    requires PartlyIn(s, t, order, hs, level, rank, rank[0], y, height, height, i)
    ensures i < |update| && HasLevel(t, update[i], i)
    ensures var v := Stretch(t, update[i], i);
      SameButLinks(start, v) && PartlyIn(s, v, order, hs, level, rank, rank[0], y, height, height, i + 1)
  {
    hide Found, Linked, Ranked, PartlyIn, Stretch, HasLevel, SameButLinks;
    FoundParts(order, hs, level, update, rank, rank[0]);
    ShortStep(s, start, t, order, hs, level, rank, rank[0], y, height, i, update[i]);
  }

  /** What of it is known when the search has done the levels from `i` on. */
  ghost predicate FoundFrom(order: seq<nat>, hs: seq<nat>, i: nat, level: nat, update: seq<nat>, rank: seq<nat>,
                            p: nat) {
    && |order| == |hs| && |update| == |rank| == MAXLEVEL >= level && p < |hs|
    && forall m :: i <= m < level ==>
         rank[m] <= p && hs[rank[m]] > m && Skips(hs, rank[m], p + 1, m) && update[m] == order[rank[m]]
  }

  /** The search has done the levels from `i` on, and stands where the last of
      them ended. */
  ghost predicate Halfway(order: seq<nat>, hs: seq<nat>, i: nat, level: nat, update: seq<nat>, rank: seq<nat>, p: nat,
                          pos: nat, page: nat) {
    && FoundFrom(order, hs, i, level, update, rank, p) && OnWay(order, hs, i, pos, page, p)
    && i <= level && pos == (if i == level then 0 else rank[i])
  }

  function PerLevel(x: nat): (r: seq<nat>)
    ensures |r| == MAXLEVEL > 0
  {
    seq(MAXLEVEL, _ => x)
  }

  function Fresh(e: Elem, height: nat): (n: Node)
    ensures |n.levels| == height && ElemOf(n) == e
  {
    Node(e.score, e.value, 0, seq(height, _ => Link(0, 0)))
  }

  /** Everything the fields promise. */
  ghost predicate Sound(s: Store, order: seq<nat>, hs: seq<nat>, level: nat, left: nat, right: nat, size: nat) {
    && Linked(s, order, hs, level) && Backwards(s, order)
    && left == order[0] && size == |order| - 1
    && right == (if size == 0 then 0 else order[size])
    && Ordered(Elements(s, order))
  }

  /** `t` is `s` with `e` on page `y`, linked in on `height` levels. */
  ghost predicate Wired(s: Store, t: Store, order: seq<nat>, hs: seq<nat>, level: nat, rank: seq<nat>,
                        y: nat, height: nat, e: Elem) {
    && |rank| > 0 && 1 <= height <= level && y !in s && y != 0
    && Linked(s, order, hs, level) && Ranked(hs, level, rank, rank[0])
    && LinkedIn(s, t, order, hs, level, rank, rank[0], y, height)
    && SameButLinks(s[y := Fresh(e, height)], t)
  }

  class SkipList {
    var nodes: Store
    var left: nat
    var right: nat
    var size: nat
    var level: nat
    ghost var order: seq<nat>
    ghost var hs: seq<nat>

    ghost predicate Valid()
      reads this
    {
      Sound(nodes, order, hs, level, left, right, size)
    }

    ghost function Contents(): (e: seq<Elem>)
      requires Valid()
      reads this
      ensures |e| == size
    {
      Elements(nodes, order)
    }

    constructor (page: nat)
      requires page != 0
      ensures Valid() && Contents() == []
    {
      nodes := map[page := Node(0.0, [], 0, seq(MAXLEVEL, _ => Link(0, 0)))];
      left, right, size, level := page, 0, 0, 1;
      order, hs := [page], [MAXLEVEL];
    }

    /** Along level `i` from the node at `k` to the last one the search passes. */
    method WalkLevel(start: nat, ghost k: nat, i: nat, target: Elem, exclude: bool, ghost p: nat)
      returns (page: nat, steps: nat)
      requires Searchable(nodes, order, hs, level, target, exclude, p) && i < level
      requires OnWay(order, hs, i + 1, k, start, p)
      ensures OnWay(order, hs, i + 1, k + steps, page, p) && Skips(hs, k + steps, p + 1, i)
    {
      hide Covers;
      page, steps := start, 0;
      while true
        invariant OnWay(order, hs, i + 1, k + steps, page, p)
        decreases p - (k + steps)
      {
        SearchStep(nodes, order, hs, level, k + steps, i, target, exclude, p, page);
        var link := nodes[page].levels[i];
        if link.right == 0 || !Passed(ElemOf(nodes[link.right]), target, exclude) {
          break;
        }
        page, steps := link.right, steps + link.span;
      }
    }

    /** For every level, the last node the search passes there, and its rank. */
    method GetUpdate(target: Elem, exclude: bool) returns (update: seq<nat>, rank: seq<nat>)
      requires Valid()
      ensures |rank| == MAXLEVEL && rank[0] == Cut(Contents(), target, exclude)
      ensures Found(order, hs, level, update, rank, rank[0])
    {
      update, rank := Search(target, exclude, Cut(Contents(), target, exclude));
    }

    method Search(target: Elem, exclude: bool, ghost p: nat) returns (update: seq<nat>, rank: seq<nat>)
      requires Sound(nodes, order, hs, level, left, right, size) && p == Cut(Elements(nodes, order), target, exclude)
      ensures |rank| == MAXLEVEL && rank[0] == p && Found(order, hs, level, update, rank, p)
    {
      hide *;
      rank, update := PerLevel(0), PerLevel(0)[0 := left];
      var nodePage := left;
      var i := level;
      ghost var pos: nat := 0;
      SearchStart(nodes, order, hs, level, left, right, size, update, rank, target, exclude, p);
      while i > 0
        invariant 0 <= i <= level && Halfway(order, hs, i, level, update, rank, p, pos, nodePage)
      {
        i := i - 1;
        Standing(order, hs, i, level, update, rank, p, pos, nodePage);
        var above := if i == level - 1 then 0 else rank[i + 1];
        var steps;
        nodePage, steps := WalkLevel(nodePage, pos, i, target, exclude, p);
        FoundStep(order, hs, i, level, update, rank, p, pos + steps, nodePage);
        pos, rank, update := pos + steps, rank[i := above + steps], update[i := nodePage];
      }
      FoundAll(nodes, order, hs, level, update, rank, target, exclude, p, pos, nodePage);
    }

    /** Gives the index node `size` to skip on the levels from `level` to `height`. */
    method Raise(height: nat, update0: seq<nat>, rank0: seq<nat>) returns (update: seq<nat>, rank: seq<nat>)
      requires Valid() && level <= height <= MAXLEVEL
      requires |rank0| == MAXLEVEL && Found(order, hs, level, update0, rank0, rank0[0])
      modifies `nodes, `level
      ensures Valid() && Contents() == old(Contents()) && nodes.Keys == old(nodes.Keys) && level == height
      ensures |rank| == MAXLEVEL && rank[0] == rank0[0] && Found(order, hs, level, update, rank, rank[0])
    {
      update, rank := update0, rank0;
      var i := level;
      hide Found, Linked, SetLink, SameButLinks;
      SameAsItself(nodes);
      while i < height
        invariant level <= i <= height && Linked(nodes, order, hs, i)
        invariant SameButLinks(old(nodes), nodes)
        invariant |rank| == MAXLEVEL && rank[0] == rank0[0] && Found(order, hs, i, update, rank, rank[0])
        modifies `nodes
      {
        RaiseOne(nodes, order, hs, i);
        AboveAll(order, hs, i, update, rank, rank0[0]);
        SetLinkSame(old(nodes), nodes, left, i, Link(nodes[left].levels[i].right, size));
        rank := rank[i := 0];
        nodes := SetLink(nodes, left, i, Link(nodes[left].levels[i].right, size));
        update := update[i := left];
        i := i + 1;
      }
      level := height;
      PagesOf(nodes, order, hs, level);
      SameSkeleton(old(nodes), nodes, order);
      SameElements(old(nodes), nodes, order);
    }

    /** Puts page `y` behind the nodes of `update` on its own levels. */
    method LinkTall(y: nat, height: nat, update: seq<nat>, rank: seq<nat>, ghost s: Store)
      requires Linked(s, order, hs, level) && |rank| > 0 && Found(order, hs, level, update, rank, rank[0])
      requires y !in s && height <= level
      requires PartlyIn(s, nodes, order, hs, level, rank, rank[0], y, height, 0, height)
      modifies `nodes
      ensures PartlyIn(s, nodes, order, hs, level, rank, rank[0], y, height, height, height)
      ensures SameButLinks(old(nodes), nodes)
    {
      hide Take, Linked, SameButLinks;
      ghost var start, p := nodes, rank[0];
      SameAsItself(nodes);
      for i := 0 to height
        invariant PartlyIn(s, nodes, order, hs, level, rank, p, y, height, i, height)
        invariant SameButLinks(start, nodes)
      {
        TallAt(s, start, nodes, order, hs, level, update, rank, y, height, i);
        nodes := Take(nodes, update[i], y, i, rank[0] - rank[i]);
      }
    }

    /** Makes the links over page `y` one longer. */
    method LinkShort(y: nat, height: nat, update: seq<nat>, rank: seq<nat>, ghost s: Store)
      requires Linked(s, order, hs, level) && |rank| > 0 && Found(order, hs, level, update, rank, rank[0])
      requires y !in s && height <= level
      requires PartlyIn(s, nodes, order, hs, level, rank, rank[0], y, height, height, height)
      modifies `nodes
      ensures PartlyIn(s, nodes, order, hs, level, rank, rank[0], y, height, height, level)
      ensures SameButLinks(old(nodes), nodes)
    {
      ghost var start, p := nodes, rank[0];
      hide *;
      SameAsItself(nodes);
      for i := height to level
        invariant PartlyIn(s, nodes, order, hs, level, rank, p, y, height, height, i)
        invariant SameButLinks(start, nodes)
      {
        ShortAt(s, start, nodes, order, hs, level, update, rank, y, height, i);
        nodes := Stretch(nodes, update[i], i);
      }
    }

    /** Stores an element on page `y` and links it in after the nodes of
        `update`; the links over it become one longer. */
    method LinkIn(e: Elem, y: nat, height: nat, update: seq<nat>, rank: seq<nat>)
      requires Valid() && |rank| > 0 && Found(order, hs, level, update, rank, rank[0])
      requires y !in nodes && y != 0 && 1 <= height <= level
      modifies `nodes
      ensures Wired(old(nodes), nodes, order, hs, level, rank, y, height, e)
    {
      ghost var s := nodes;
      NothingIn(s, order, hs, level, rank, rank[0], y, Fresh(e, height));
      nodes := nodes[y := Fresh(e, height)];
      hide Linked, PartlyIn, LinkedIn, SameButLinks;
      LinkTall(y, height, update, rank, s);
      ghost var t := nodes;
      LinkShort(y, height, update, rank, s);
      SameAgain(s[y := Fresh(e, height)], t, nodes);
      AllIn(s, nodes, order, hs, level, rank, rank[0], y, height);
    }

    /** Left links, tail and size after page `y` was linked in. */
    method Settle(e: Elem, y: nat, height: nat, update: seq<nat>, rank: seq<nat>, ghost s: Store)
      requires Sound(s, order, hs, level, left, right, size) && |rank| > 0
      requires Found(order, hs, level, update, rank, rank[0]) && rank[0] == Cut(Elements(s, order), e, false)
      requires Wired(s, nodes, order, hs, level, rank, y, height, e)
      modifies this
      ensures Valid() && Contents() == old(PlacedIn(Elements(s, order), e)) && nodes.Keys == s.Keys + {y}
    {
      hide Sound, Found, Wired, PutBack, PlacedIn, Cut, Added;
      SoundWith(s, nodes, order, hs, level, left, right, size, update, rank, y, height, e);
      var next := nodes[y].levels[0].right;
      nodes := PutBack(nodes, y, if update[0] == left then 0 else update[0], next);
      if next == 0 {
        right := y;
      }
      order, hs := Added(order, rank[0], y), Added(hs, rank[0], height);
      size := size + 1;
    }

    /** Adds an element, on any number of levels, after those not greater. */
    method Add(e: Elem, height: nat, y: nat)
      requires Valid() && 1 <= height <= MAXLEVEL && y != 0 && y !in nodes
      modifies this
      ensures Valid()
      ensures Contents() == PlacedIn(old(Contents()), e)
      ensures InOrder(Contents()) && exists p :: PutBehind(old(Contents()), Contents(), e, p)
      ensures nodes.Keys == old(nodes.Keys) + {y}
    {
      hide Sound, Found, Wired, PlacedIn, Cut, InOrder, PutBehind, Elements;
      AddedInOrder(this, e);
      var update, rank := GetUpdate(e, false);
      if height > level {
        update, rank := Raise(height, update, rank);
      }
      ghost var s := nodes;
      LinkIn(e, y, height, update, rank);
      Settle(e, y, height, update, rank, s);
    }

    /** Mends the links that lead to page `y` or over it. */
    method MendLinks(y: nat, update: seq<nat>, rank: seq<nat>, ghost o: seq<nat>, ghost hh: seq<nat>, ghost h: nat)
      requires |rank| > 0 && rank[0] < |o| == |hh| && order == Added(o, rank[0], y) && hs == Added(hh, rank[0], h)
      requires Linked(nodes, order, hs, level) && Found(order, hs, level, update, rank, rank[0])
      modifies `nodes
      ensures PartlyOut(old(nodes), nodes, o, hh, level, rank, rank[0], y, level)
    {
      hide Heights, Covers;
      ghost var s, p := nodes, rank[0];
      NothingOut(s, o, hh, level, rank, p, y, h);
      for i := 0 to level
        invariant PartlyOut(s, nodes, o, hh, level, rank, p, y, i)
      {
        MendStep(s, nodes, o, hh, level, rank, p, y, h, i);
        nodes := Mend(nodes, update[i], y, i);
      }
    }

    /** Drops the levels on which only the index node is left. */
    method Lower()
      requires Linked(nodes, order, hs, level) && left == order[0]
      modifies `level
      ensures level > 0 ==> Linked(nodes, order, hs, level)
      ensures level > 0 ==> left in nodes && |nodes[left].levels| >= level && nodes[left].levels[level - 1].right != 0
      ensures level == 0 ==> |order| == 1
    {
      PagesOf(nodes, order, hs, level);
      while level > 0 && nodes[left].levels[level - 1].right == 0
        invariant level <= MAXLEVEL && (level > 0 ==> Linked(nodes, order, hs, level))
        invariant level == 0 ==> |order| == 1
      {
        LowerOne(nodes, order, hs, level);
        level := level - 1;
      }
    }

    /** Takes page `y` out of the left links and the store. */
    method Detach(y: nat, rank: seq<nat>, ghost o: seq<nat>, ghost hh: seq<nat>, ghost h: nat, ghost s: Store)
      requires Sound(s, order, hs, level, left, right, size)
      requires |rank| > 0 && rank[0] < |o| == |hh| && order == Added(o, rank[0], y) && hs == Added(hh, rank[0], h)
      requires Ranked(hs, level, rank, rank[0]) && PartlyOut(s, nodes, o, hh, level, rank, rank[0], y, level)
      modifies `nodes, `right, `order, `hs
      ensures o != [] && Linked(nodes, order, hs, level) && order == o && hs == hh && left == o[0] && size == |o|
      ensures SoundBut(nodes, o, right, TakenOut(old(Elements(s, order)), rank[0]))
    {
      hide Sound, PartlyOut, Ranked, PassOver, SoundBut, Linked;
      SoundWithout(s, nodes, o, hh, level, left, right, size, rank, y, h);
      var next := nodes[y].levels[0].right;
      nodes := PassOver(nodes, y, next);
      if next == 0 {
        right := nodes[y].left;
      }
      nodes := nodes - {y};
      order, hs := o, hh;
    }

    /** Unlinks the node on page `y`, the one after the nodes of `update`. */
    method Unlink(y: nat, update: seq<nat>, rank: seq<nat>)
      requires Valid() && |rank| > 0 && Found(order, hs, level, update, rank, rank[0])
      requires rank[0] < size && y == order[rank[0] + 1]
      modifies `nodes, `right, `order, `hs
      ensures order != [] && Linked(nodes, order, hs, level) && left == order[0] && size == |order|
      ensures SoundBut(nodes, order, right, TakenOut(old(Contents()), rank[0]))
    {
      assert Sound(nodes, order, hs, level, left, right, size);
      hide *;
      ghost var s := nodes;
      ghost var o, hh, h := Apart(nodes, order, hs, level, left, right, size, update, rank, y);
      MendLinks(y, update, rank, o, hh, h);
      Detach(y, rank, o, hh, h, s);
    }

    /** Lowers the list and its size after a node was unlinked. */
    method Shrink(ghost e: seq<Elem>) returns (r: Removal)
      requires order != [] && Linked(nodes, order, hs, level) && left == order[0] && size == |order|
      requires SoundBut(nodes, order, right, e)
      modifies `nodes, `level, `size
      ensures r == (if old(size) > 1 then Removed else Deleted)
      ensures r == Deleted ==> nodes == map[]
      ensures r == Removed ==> Valid() && Contents() == e
    {
      OnlyHead(nodes, order, hs, level);
      hide Sound, Linked, SoundBut;
      Lower();
      if size > 1 {
        SoundAgain(nodes, order, hs, level, left, right, e);
        size := size - 1;
        return Removed;
      } else {
        nodes := nodes - {left};
        return Deleted;
      }
    }

    /** Removes an element equal to `e`, if the one the search ends before is. */
    method Remove(e: Elem) returns (r: Removal)
      requires Valid() && Cut(Contents(), e, true) < size
      modifies this
      ensures r == NotFound <==> e !in old(Contents())
      ensures r == NotFound ==> Valid() && Contents() == old(Contents()) && nodes == old(nodes)
      ensures r == Deleted <==> e in old(Contents()) && old(size) == 1
      ensures r == Deleted ==> nodes == map[]
      ensures r == Removed ==> Valid() && Contents() == TakenOut(old(Contents()), Cut(old(Contents()), e, true))
      ensures r == Removed ==> InOrder(Contents()) && exists p :: FirstTaken(old(Contents()), Contents(), e, p)
    {
      hide TakenOut, Distinct, Covers, ElemOf, InOrder, FirstTaken;
      RemovedInOrderToo(this, e);
      CutFinds(Contents(), e);
      var update, rank := GetUpdate(e, true);
      BottomLink(nodes, order, hs, level, rank[0]);
      var y := nodes[update[0]].levels[0].right;
      assert y == order[rank[0] + 1] && y in nodes && ElemOf(nodes[y]) == Contents()[rank[0]];
      CompareFacts(ElemOf(nodes[y]), e, e);
      if Compare(ElemOf(nodes[y]), e) != 0 {
        return NotFound;
      }
      ghost var rest := TakenOut(Contents(), rank[0]);
      Unlink(y, update, rank);
      r := Shrink(rest);
    }

    /** Follows level `i` as far as it goes without passing position `target`. */
    method Jump(start: nat, pos0: nat, i: nat, target: int) returns (page: nat, pos: nat)
      requires Valid() && pos0 < |order| && order[pos0] == start && i < level && i < hs[pos0]
      ensures pos0 <= pos < |order| && order[pos] == page && i < hs[pos]
      ensures pos <= target || pos == pos0
      ensures i == 0 ==> pos >= target || pos == size
    {
      page, pos := start, pos0;
      while true
        invariant pos0 <= pos < |order| && order[pos] == page && i < hs[pos]
        invariant pos <= target || pos == pos0
        decreases |order| - pos
      {
        BottomLink(nodes, order, hs, level, pos);
        assert ChainedAt(nodes, order, hs, pos, i);
        var link := nodes[page].levels[i];
        if link.right == 0 || pos + link.span > target {
          break;
        }
        page, pos := link.right, pos + link.span;
      }
    }

    /** The node of a rank, by the spans, and the number of its page; of the index
        node's page the number is not given. */
    method NodeByRank(rank: int) returns (node: Option<nat>, page: nat)
      requires Valid()
      ensures 0 <= rank < size ==>
        && page == order[rank + 1] && node == Some(page)
        && page in nodes && ElemOf(nodes[page]) == Contents()[rank]
      ensures rank == -1 ==> node == Some(left) && page == 0
      ensures rank < -1 || rank >= size ==> node == None
    {
      var target := rank + 1;
      page := 0;
      var nodePage, pos: nat, i := left, 0, level;
      assert Linked(nodes, order, hs, level);
      while i > 0
        invariant 0 <= i <= level && pos < |order| && order[pos] == nodePage && hs[pos] >= i
        invariant pos <= target || pos == 0
        invariant page == if pos == 0 then 0 else nodePage
        invariant i == 0 ==> pos >= target || pos == size
      {
        if pos == target {
          break;
        }
        i := i - 1;
        nodePage, pos := Jump(nodePage, pos, i, target);
        page := if pos == 0 then 0 else nodePage;
      }
      node := if pos == target then Some(nodePage) else None;
    }

    /** Whether a range search ends on the last node passed, rather than the one
        after it. */
    method StaysOn(e: Elem, mode: RangeMode, last: nat, next: nat) returns (take: bool)
      requires last in nodes && (next != 0 ==> next in nodes)
      requires last != left ==> Compare(ElemOf(nodes[last]), e) <= 0
      ensures take == match mode
        case Before => true
        case Upto => !(next != 0 && ElemOf(nodes[next]) == e)
        case Include => last != left && ElemOf(nodes[last]) == e
        case Exclude => false
    {
      take := mode == Before || mode == Upto;
      if mode == Include && last != left {
        var n := nodes[last];
        LexEqual(n.value, e.value);
        if (n.score == e.score || n.score > e.score) && LexCmp(n.value, e.value) == 0 {
          take := true;
        }
      }
      if mode == Upto && next != 0 {
        LexEqual(nodes[next].value, e.value);
        if nodes[next].score == e.score && LexCmp(nodes[next].value, e.value) == 0 {
          take := false;
        }
      }
    }

    /** The first node of a range, or the last before it, and its rank. */
    method FirstNode(e: Elem, mode: RangeMode) returns (rank: int, page: Option<nat>)
      requires Valid()
      ensures rank == RankFor(Contents(), e, mode)
      ensures RankBounds(Contents(), e, mode, rank)
      ensures -1 <= rank <= size
      ensures page == if rank == size then None else Some(order[rank + 1])
    {
      hide Elements, HeadEnds, Backwards, Skips, Ordered, Distinct, Covers, ElemOf;
      ghost var c := Contents();
      RanksByLess(this, e, mode);
      var update, ranks := GetUpdate(e, mode == Before || mode == Upto);
      var p: int := ranks[0];
      AroundRank(nodes, order, hs, level, left, right, size, p);
      PassedNotGreater(c, e, mode == Before || mode == Upto);
      assert update[0] == order[p] && |c| == size;
      var next := nodes[update[0]].levels[0].right;
      var take := StaysOn(e, mode, update[0], next);
      RangeEnds(c, e, mode, p, take);
      rank := p - if take then 1 else 0;
      page := if take then Some(update[0]) else if next != 0 then Some(next) else None;
    }
  }

  /** Above the top level nothing is known, and the search starts at the index node. */
  lemma SearchStart(s: Store, order: seq<nat>, hs: seq<nat>, level: nat, left: nat, right: nat, size: nat,
                    update: seq<nat>, rank: seq<nat>, target: Elem, exclude: bool, p: nat)
    requires Sound(s, order, hs, level, left, right, size) && |update| == |rank| == MAXLEVEL
    requires p == Cut(Elements(s, order), target, exclude)
    ensures Searchable(s, order, hs, level, target, exclude, p)
    ensures Halfway(order, hs, level, level, update, rank, p, 0, left)
  {
    hide Chained, Pages, Backwards, Ordered;
    PagesOf(s, order, hs, level);
  }

  lemma FoundStep(order: seq<nat>, hs: seq<nat>, i: nat, level: nat, update: seq<nat>, rank: seq<nat>, p: nat,
                  r: nat, page: nat)
    requires FoundFrom(order, hs, i + 1, level, update, rank, p) && i < level
    requires OnWay(order, hs, i + 1, r, page, p) && Skips(hs, r, p + 1, i)
    ensures i < |update| && i < |rank|
    ensures Halfway(order, hs, i, level, update[i := page], rank[i := r], p, r, page)
  {}

  /** Where the search stands when it goes down a level. */
  lemma Standing(order: seq<nat>, hs: seq<nat>, i: nat, level: nat, update: seq<nat>, rank: seq<nat>, p: nat,
                 pos: nat, page: nat)
    requires Halfway(order, hs, i + 1, level, update, rank, p, pos, page) && i < level
    ensures FoundFrom(order, hs, i + 1, level, update, rank, p) && OnWay(order, hs, i + 1, pos, page, p)
    ensures i < |update| && i < |rank| && (i + 1 < level ==> i + 1 < |rank|)
    ensures pos == if i == level - 1 then 0 else rank[i + 1]
  {}

  /** Every element is on level 0, so there the search stops at the cut. */
  lemma FoundAll(s: Store, order: seq<nat>, hs: seq<nat>, level: nat, update: seq<nat>, rank: seq<nat>,
                 target: Elem, exclude: bool, p: nat, pos: nat, page: nat)
    requires Searchable(s, order, hs, level, target, exclude, p)
    requires Halfway(order, hs, 0, level, update, rank, p, pos, page)
    ensures |rank| == MAXLEVEL && rank[0] == p
    ensures Found(order, hs, level, update, rank, p)
  {
    assert p == 0 || hs[p] >= 1;
  }

  /** Above every element the last node before a gap is the index node. */
  lemma AboveAll(order: seq<nat>, hs: seq<nat>, level: nat, update: seq<nat>, rank: seq<nat>, p: nat)
    requires Heights(hs, level) && Found(order, hs, level, update, rank, p) && level < MAXLEVEL
    ensures |update| == |rank| == MAXLEVEL && level > 0
    ensures Found(order, hs, level + 1, update[level := order[0]], rank[level := 0], p)
  {}

  lemma SameSkeleton(s: Store, t: Store, order: seq<nat>)
    requires SameButLinks(s, t) && forall k :: 0 <= k < |order| ==> order[k] in t
    ensures s.Keys == t.Keys && forall k :: 0 <= k < |order| ==> order[k] in s
  {}

  lemma SameElements(s: Store, t: Store, order: seq<nat>)
    requires order != [] && SameButLinks(s, t) && forall k :: 0 <= k < |order| ==> order[k] in s
    ensures Elements(s, order) == Elements(t, order)
    ensures Backwards(s, order) ==> Backwards(t, order)
  {
    if Backwards(s, order) {
      forall k: nat | 1 <= k < |order| ensures BackAt(t, order, k) {
        assert BackAt(s, order, k);
      }
    }
  }

  /** `s` with `e` put in after the elements not greater. */
  ghost function PlacedIn(s: seq<Elem>, e: Elem): seq<Elem> {
    var p := Cut(s, e, false);
    s[..p] + [e] + s[p..]
  }

  lemma WiredElements(s: Store, t: Store, v: Store, order: seq<nat>, hs: seq<nat>, level: nat, rank: seq<nat>,
                      y: nat, height: nat, e: Elem)
    requires Wired(s, t, order, hs, level, rank, y, height, e)
    requires v.Keys == t.Keys && forall q :: q in t ==> ElemOf(v[q]) == ElemOf(t[q])
    ensures forall k :: 0 <= k < |order| ==> order[k] in s
    ensures forall k :: 0 <= k <= |order| ==> Added(order, rank[0], y)[k] in v
    ensures Elements(v, Added(order, rank[0], y)) == Elements(s, order)[..rank[0]] + [e] + Elements(s, order)[rank[0]..]
  {
    PagesOf(s, order, hs, level);
    hide Linked, LinkedIn, Ranked;
    ElementsWith(s, v, order, rank[0], y);
  }

  lemma SoundWith(s: Store, t: Store, order: seq<nat>, hs: seq<nat>, level: nat, left: nat, right: nat, size: nat,
                  update: seq<nat>, rank: seq<nat>, y: nat, height: nat, e: Elem)
    requires Sound(s, order, hs, level, left, right, size) && |rank| > 0
    requires Found(order, hs, level, update, rank, rank[0]) && rank[0] == Cut(Elements(s, order), e, false)
    requires Wired(s, t, order, hs, level, rank, y, height, e)
    ensures y in t && |t[y].levels| > 0 && |update| > 0 && rank[0] < |order| == |hs|
    ensures var next := t[y].levels[0].right;
      (next != 0 ==> next in t && next != y)
    ensures var next := t[y].levels[0].right;
      var v := PutBack(t, y, if update[0] == left then 0 else update[0], next);
      var order' := Added(order, rank[0], y);
      && Sound(v, order', Added(hs, rank[0], height), level, left, if next == 0 then y else right, size + 1)
      && Elements(v, order') == PlacedIn(Elements(s, order), e)
      && v.Keys == s.Keys + {y}
  {
    hide LinkedIn, PutBack, Elements, Skips, Covers, ElemOf;
    var p := rank[0];
    InsertedInOrder(Elements(s, order), e);
    LinkedWith(s, t, order, hs, level, rank, p, y, height);
    BackwardsStill(s, t, order, y, Fresh(e, height));
    assert update[0] == order[p];
    PutBackLinks(t, order, hs, level, p, y, height);
    var next := t[y].levels[0].right;
    WiredElements(s, t, PutBack(t, y, if update[0] == left then 0 else update[0], next),
                  order, hs, level, rank, y, height, e);
  }

  ghost function TakenOut(s: seq<Elem>, p: nat): seq<Elem>
    requires p < |s|
  {
    s[..p] + s[p + 1..]
  }

  ghost function Without(s: seq<nat>, k: nat): (r: seq<nat>)
    requires 0 < k < |s|
    ensures |r| == |s| - 1 && s == Added(r, k - 1, s[k])
  {
    s[..k] + s[k + 1..]
  }

  /** The list without the node after those of `update`. */
  lemma Apart(s: Store, order: seq<nat>, hs: seq<nat>, level: nat, left: nat, right: nat, size: nat,
              update: seq<nat>, rank: seq<nat>, y: nat)
    returns (o: seq<nat>, hh: seq<nat>, h: nat)
    requires Sound(s, order, hs, level, left, right, size) && |rank| > 0
    requires Found(order, hs, level, update, rank, rank[0]) && rank[0] < size && y == order[rank[0] + 1]
    ensures rank[0] < |o| == |hh| && order == Added(o, rank[0], y) && hs == Added(hh, rank[0], h)
    ensures Linked(s, order, hs, level) && Ranked(hs, level, rank, rank[0])
  {
    o, hh, h := Without(order, rank[0] + 1), Without(hs, rank[0] + 1), hs[rank[0] + 1];
    assert Linked(s, order, hs, level);
  }

  /** What `Sound` says of the elements, the left links and the tail. */
  ghost predicate SoundBut(s: Store, order: seq<nat>, right: nat, e: seq<Elem>) {
    && order != [] && (forall k :: 0 <= k < |order| ==> order[k] in s)
    && Backwards(s, order) && right == (if |order| == 1 then 0 else order[|order| - 1])
    && Elements(s, order) == e && Ordered(e)
  }

  lemma SoundAgain(s: Store, order: seq<nat>, hs: seq<nat>, level: nat, left: nat, right: nat, e: seq<Elem>)
    requires Linked(s, order, hs, level) && SoundBut(s, order, right, e) && left == order[0]
    ensures Sound(s, order, hs, level, left, right, |order| - 1) && Elements(s, order) == e
  {}

  lemma ElementsWithout(s: Store, t: Store, order: seq<nat>, p: nat, y: nat)
    requires p < |order| && y in s
    requires forall k :: 0 <= k < |order| ==>
      order[k] in s && order[k] in t && ElemOf(t[order[k]]) == ElemOf(s[order[k]])
    ensures forall k :: 0 <= k <= |order| ==> Added(order, p, y)[k] in s
    ensures Elements(t, order) == TakenOut(Elements(s, Added(order, p, y)), p)
  {
    var order' := Added(order, p, y);
    var a, b := Elements(t, order), Elements(s, order');
    forall k | 0 <= k < |a| ensures a[k] == TakenOut(b, p)[k] {
      assert order[k + 1] == order'[if k + 1 <= p then k + 1 else k + 2];
    }
  }

  /** What `Sound` says of a list that has page `y` after position `p`. */
  lemma SoundParts(s: Store, o: seq<nat>, hh: seq<nat>, level: nat, left: nat, right: nat, size: nat,
                   p: nat, y: nat, h: nat)
    requires p < |o| == |hh| && Sound(s, Added(o, p, y), Added(hh, p, h), level, left, right, size)
    ensures |Added(o, p, y)| == |o| + 1
    ensures Linked(s, Added(o, p, y), Added(hh, p, h), level) && Backwards(s, Added(o, p, y))
    ensures left == o[0] && size == |o| && right == (if p + 1 == |o| then y else o[|o| - 1])
    ensures forall k :: 0 <= k <= |o| ==> Added(o, p, y)[k] in s
    ensures Ordered(Elements(s, Added(o, p, y)))
  {
    PagesOf(s, Added(o, p, y), Added(hh, p, h), level);
    var order := Added(o, p, y);
    assert order[0] == o[0] && order[|o|] == if p + 1 == |o| then y else o[|o| - 1];
    hide Linked, Backwards, Ordered;
  }

  lemma SoundWithout(s: Store, t: Store, o: seq<nat>, hh: seq<nat>, level: nat, left: nat, right: nat, size: nat,
                     rank: seq<nat>, y: nat, h: nat)
    requires |rank| > 0 && rank[0] < |o| == |hh|
    requires Sound(s, Added(o, rank[0], y), Added(hh, rank[0], h), level, left, right, size)
    requires Ranked(Added(hh, rank[0], h), level, rank, rank[0]) &&
      PartlyOut(s, t, o, hh, level, rank, rank[0], y, level)
    ensures y in t && |t[y].levels| > 0 && left == o[0] && size == |o|
    ensures var next := t[y].levels[0].right;
      && (next != 0 ==> next in t && next != y)
      && var v := PassOver(t, y, next);
      && Linked(v - {y}, o, hh, level)
      && SoundBut(v - {y}, o, if next == 0 then t[y].left else right,
                  TakenOut(Elements(s, Added(o, rank[0], y)), rank[0]))
  {
    hide Sound, Linked, Ranked, Backwards, Ordered, Added, PassOver;
    var p := rank[0];
    SoundParts(s, o, hh, level, left, right, size, p, y, h);
    assert SameButLinks(s, t);
    hide PartlyOut;
    RemovedInOrder(Elements(s, Added(o, p, y)), p);
    PassOverLinks(s, t, o, hh, level, rank, p, y, h);
    var v := PassOver(t, y, t[y].levels[0].right);
    ElementsWithout(s, v - {y}, o, p, y);
  }

  lemma OnlyHead(s: Store, order: seq<nat>, hs: seq<nat>, level: nat)
    requires Linked(s, order, hs, level)
    ensures |order| == 1 ==> s - {order[0]} == map[]
  {
    if |order| == 1 {
      assert forall q :: q in s ==> q == order[0];
    }
  }

  /** The rank each mode asks for. Among equal elements `Include` means the last. */
  ghost function RankFor(c: seq<Elem>, e: Elem, mode: RangeMode): int {
    match mode
    case Before => Cut(c, e, true) - 1
    case Upto => if e in c then Cut(c, e, true) else Cut(c, e, true) - 1
    case Include => if e in c then Cut(c, e, false) - 1 else Cut(c, e, false)
    case Exclude => Cut(c, e, false)
  }

  /** The elements less than `e` are the first `p`. */
  ghost predicate LessFirst(c: seq<Elem>, e: Elem, p: int) {
    0 <= p <= |c| && forall i :: 0 <= i < |c| ==> (Less(c[i], e) <==> i < p)
  }

  /** The elements not greater than `e` are the first `p`. */
  ghost predicate UptoFirst(c: seq<Elem>, e: Elem, p: int) {
    0 <= p <= |c| && forall i :: 0 <= i < |c| ==> (Less(e, c[i]) <==> p <= i)
  }

  /** What the rank says: up to it, or before it, stand exactly the elements less
      than `e`, or not greater. */
  ghost predicate RankBounds(c: seq<Elem>, e: Elem, mode: RangeMode, rank: int) {
    match mode
    case Before => LessFirst(c, e, rank + 1)
    case Upto => LessFirst(c, e, if e in c then rank else rank + 1)
    case Include => UptoFirst(c, e, if e in c then rank + 1 else rank)
    case Exclude => UptoFirst(c, e, rank)
  }

  lemma RanksByLess(l: SkipList, e: Elem, mode: RangeMode)
    requires l.Valid()
    ensures RankBounds(l.Contents(), e, mode, RankFor(l.Contents(), e, mode))
  {
    hide Linked, Backwards, Elements, Ordered, Less, Cut;
    CutByLess(l.Contents(), e, true);
    CutByLess(l.Contents(), e, false);
  }

  lemma AddedInOrder(l: SkipList, e: Elem)
    requires l.Valid()
    ensures var c, d := l.Contents(), PlacedIn(l.Contents(), e);
      InOrder(d) && PutBehind(c, d, e, Cut(c, e, false))
  {
    hide Linked, Backwards, Elements, Ordered, Less, Cut, InOrder;
    CutByLess(l.Contents(), e, false);
    InsertedInOrder(l.Contents(), e);
    OrderedIsInOrder(PlacedIn(l.Contents(), e));
  }

  lemma RemovedInOrderToo(l: SkipList, e: Elem)
    requires l.Valid()
    ensures var c, p := l.Contents(), Cut(l.Contents(), e, true);
      e in c ==> p < |c| && InOrder(TakenOut(c, p)) && FirstTaken(c, TakenOut(c, p), e, p)
  {
    hide Linked, Backwards, Elements, Ordered, Less, Cut, InOrder;
    var c, p := l.Contents(), Cut(l.Contents(), e, true);
    if e in c {
      CutFinds(c, e);
      RemovedInOrder(c, p);
      OrderedIsInOrder(TakenOut(c, p));
      forall i | 0 <= i < p ensures c[i] != e {
        EqualBetweenCuts(c, e, i);
      }
    }
  }

  /** The last element not greater than `e` is `e`, if `e` is there at all. */
  lemma LastPassed(c: seq<Elem>, e: Elem)
    requires Ordered(c)
    ensures var p := Cut(c, e, false); e in c <==> p > 0 && c[p - 1] == e
  {
    hide LexCmp, Cut, Compare;
    CutSplits(c, e, false);
    var p := Cut(c, e, false);
    CompareFacts(e, e, e);
    if e in c {
      var i :| 0 <= i < |c| && c[i] == e;
      CompareFacts(c[p - 1], e, e);
      CompareFacts(c[i], c[p - 1], e);
    }
  }

  lemma PassedNotGreater(c: seq<Elem>, e: Elem, exclude: bool)
    requires Ordered(c)
    ensures var p := Cut(c, e, exclude); p > 0 ==> Compare(c[p - 1], e) <= 0
  {
    CutSplits(c, e, exclude);
  }

  /** Staying on the last node passed gives the rank the mode asks for. */
  lemma RangeEnds(c: seq<Elem>, e: Elem, mode: RangeMode, p: nat, take: bool)
    requires Ordered(c) && p == Cut(c, e, mode == Before || mode == Upto)
    requires take == match mode
      case Before => true
      case Upto => !(p < |c| && c[p] == e)
      case Include => p > 0 && c[p - 1] == e
      case Exclude => false
    ensures RankFor(c, e, mode) == p - (if take then 1 else 0)
    ensures -1 <= RankFor(c, e, mode) <= |c|
  {
    CutFinds(c, e);
    LastPassed(c, e);
  }

  /** The rank of the element of rank `k` is `k`, unless the next one is equal. */
  lemma RankOfSelected(c: seq<Elem>, k: nat)
    requires Ordered(c) && k < |c|
    ensures RankFor(c, c[k], Include) == k <==> k + 1 == |c| || c[k + 1] != c[k]
  {
    EqualBetweenCuts(c, c[k], k);
    CutSplits(c, c[k], false);
    if k + 1 < |c| {
      EqualBetweenCuts(c, c[k], k + 1);
      CutSplits(c, c[k], true);
    }
  }

  /** Selecting by rank and asking for the rank of what was selected. */
  method RankAgain(l: SkipList, k: nat) returns (rank: int)
    requires l.Valid() && k < l.size
    ensures rank == k <==> k + 1 == l.size || l.Contents()[k + 1] != l.Contents()[k]
  {
    var node, page := l.NodeByRank(k);
    var again;
    rank, again := l.FirstNode(ElemOf(l.nodes[page]), Include);
    RankOfSelected(l.Contents(), k);
  }

  /** With an element stored twice, the rank of the first one is not found again. */
  method RankOfRepeated(e: Elem, h1: nat, h2: nat) returns (l: SkipList, rank: int)
    requires 1 <= h1 <= MAXLEVEL && 1 <= h2 <= MAXLEVEL
    ensures l.Valid() && l.Contents() == [e, e] && rank == 1
  {
    l := new SkipList(1);
    var y := FreshPage(l.nodes.Keys);
    l.Add(e, h1, y);
    var z := FreshPage(l.nodes.Keys);
    l.Add(e, h2, z);
    OneThenTwo(e);
    var first, page := l.NodeByRank(0);
    var again;
    rank, again := l.FirstNode(ElemOf(l.nodes[page]), Include);
  }

  lemma OneThenTwo(e: Elem)
    ensures PlacedIn([], e) == [e] && PlacedIn([e], e) == [e, e] && RankFor([e, e], e, Include) == 1
  {
    CompareFacts(e, e, e);
    EqualBetweenCuts([e], e, 0);
    EqualBetweenCuts([e, e], e, 1);
  }

  /** The node of a rank and the one after it. */
  lemma AroundRank(s: Store, order: seq<nat>, hs: seq<nat>, level: nat, left: nat, right: nat, size: nat, p: nat)
    requires Sound(s, order, hs, level, left, right, size) && p <= size
    ensures |order| == size + 1 && order[p] in s && |s[order[p]].levels| > 0 && |Elements(s, order)| == size
    ensures s[order[p]].levels[0].right == if p < size then order[p + 1] else 0
    ensures p > 0 ==> order[p] != left && ElemOf(s[order[p]]) == Elements(s, order)[p - 1]
    ensures p == 0 ==> order[p] == left
    ensures p < size ==> order[p + 1] != 0 && order[p + 1] in s && ElemOf(s[order[p + 1]]) == Elements(s, order)[p]
  {
    BottomLink(s, order, hs, level, p);
  }

  lemma PagesOf(s: Store, order: seq<nat>, hs: seq<nat>, level: nat)
    requires Linked(s, order, hs, level)
    ensures |order| == |hs| > 0 && Distinct(order) && forall k :: 0 <= k < |order| ==> order[k] in s
  {}

  /** A page outside the list does not disturb the left links. */
  lemma BackwardsStill(s: Store, t: Store, order: seq<nat>, y: nat, n: Node)
    requires Backwards(s, order) && y !in s && SameButLinks(s[y := n], t)
    ensures Backwards(t, order)
  {
    forall k: nat | 1 <= k < |order| ensures BackAt(t, order, k) {
      assert BackAt(s, order, k);
    }
  }
}
