// The B-tree iterator: a stack of nodes, one per level, each with the position
// of the next entry to hand out.
module BTreeIterator {
  import opened SortedEntries
  import opened BTreeStore
  import opened BTree
  import opened Wrappers

  datatype Frame<V> = Frame(node: Node<V>, position: nat)

  ghost predicate LeavesFull<V>(s: Store<V>, lvl: map<nat, nat>) {
    forall p :: p in lvl && lvl[p] == 1 ==> p in s && |s[p].items| > 0
  }

  /** What is left of a node at level `h` whose position is `pos`: in a leaf its
      remaining entries, in an inner node the entry there and all after it. */
  ghost function NodeRest<V>(s: Store<V>, n: Node<V>, pos: nat, h: nat): seq<Entry<V>>
    requires h >= 1 && pos <= |n.items| && (h > 1 ==> |n.kids| == |n.items| + 1)
  {
    if h == 1 then n.items[pos..] else RightOf(KidFlats(s, n.kids, h - 1), n.items, pos)
  }

  ghost predicate FrameOk<V>(s: Store<V>, lvl: map<nat, nat>, par: map<nat, nat>, f: Frame<V>, page: nat, h: nat) {
    && page in lvl && lvl[page] == h >= 1 && page in s && s[page] == f.node
    && f.position <= |f.node.items| && NodeOk(s, lvl, par, page)
  }

  ghost predicate StackOk<V>(s: Store<V>, lvl: map<nat, nat>, par: map<nat, nat>, height: nat,
                             stack: seq<Frame<V>>, pages: seq<nat>) {
    && |stack| == |pages| <= height
    && forall k :: 0 <= k < |stack| ==> FrameOk(s, lvl, par, stack[k], pages[k], height - k)
  }

  /** What a stack of frames still has to give, the deepest frame first. */
  ghost function Rest<V>(s: Store<V>, lvl: map<nat, nat>, par: map<nat, nat>, height: nat,
                         stack: seq<Frame<V>>, pages: seq<nat>): seq<Entry<V>>
    requires StackOk(s, lvl, par, height, stack, pages)
    decreases |stack|
  {
    if stack == [] then [] else
      var k := |stack| - 1;
      assert FrameOk(s, lvl, par, stack[k], pages[k], height - k);
      NodeRest(s, stack[k].node, stack[k].position, height - k)
        + Rest(s, lvl, par, height, stack[..k], pages[..k])
  }

  /** A stack with a page on top of it. */
  function Pushed<V>(s: Store<V>, stack: seq<Frame<V>>, page: nat): seq<Frame<V>>
    requires page in s
  {
    stack + [Frame(s[page], 0)]
  }

  lemma PushOk<V>(s: Store<V>, lvl: map<nat, nat>, par: map<nat, nat>, height: nat,
                  stack: seq<Frame<V>>, pages: seq<nat>, page: nat)
    requires StackOk(s, lvl, par, height, stack, pages) && |stack| < height
    requires page in lvl && lvl[page] == height - |stack| && NodeOk(s, lvl, par, page)
    ensures page in s && StackOk(s, lvl, par, height, Pushed(s, stack, page), pages + [page])
  {
    assert page in s;
    var st, ps := Pushed(s, stack, page), pages + [page];
    assert FrameOk(s, lvl, par, st[|stack|], page, height - |stack|);
    hide NodeOk, FrameOk;
    forall k | 0 <= k < |st| ensures FrameOk(s, lvl, par, st[k], ps[k], height - k) {
      if k < |stack| {
        assert FrameOk(s, lvl, par, stack[k], pages[k], height - k);
      }
    }
  }

  /** Going down into a page puts what it has in front of what is left. */
  lemma PushRest<V>(s: Store<V>, lvl: map<nat, nat>, par: map<nat, nat>, height: nat,
                    stack: seq<Frame<V>>, pages: seq<nat>, page: nat)
    requires StackOk(s, lvl, par, height, stack, pages) && |stack| < height
    requires page in lvl && lvl[page] == height - |stack| && NodeOk(s, lvl, par, page)
    ensures page in s && StackOk(s, lvl, par, height, Pushed(s, stack, page), pages + [page])
    ensures Rest(s, lvl, par, height, Pushed(s, stack, page), pages + [page])
         == NodeRest(s, s[page], 0, lvl[page]) + Rest(s, lvl, par, height, stack, pages)
  {
    PushOk(s, lvl, par, height, stack, pages, page);
    assert |stack| == |pages| && (lvl[page] > 1 ==> |s[page].kids| == |s[page].items| + 1) && lvl[page] >= 1;
    hide StackOk, NodeRest, NodeOk;
    assert Pushed(s, stack, page)[..|stack|] == stack && (pages + [page])[..|stack|] == pages;
  }

  lemma StackAt<V>(s: Store<V>, lvl: map<nat, nat>, par: map<nat, nat>, height: nat,
                   stack: seq<Frame<V>>, pages: seq<nat>, pos: nat)
    requires StackOk(s, lvl, par, height, stack, pages) && stack != []
    requires pos <= |stack[|stack| - 1].node.items|
    ensures var k := |stack| - 1;
      && FrameOk(s, lvl, par, stack[k], pages[k], height - k)
      && StackOk(s, lvl, par, height, stack[k := Frame(stack[k].node, pos)], pages)
      && StackOk(s, lvl, par, height, stack[..k], pages[..k])
  {
    hide NodeOk;
    var k := |stack| - 1;
    var st := stack[k := Frame(stack[k].node, pos)];
    assert FrameOk(s, lvl, par, stack[k], pages[k], height - k);
    forall j | 0 <= j < |st| ensures FrameOk(s, lvl, par, st[j], pages[j], height - j) {
      assert FrameOk(s, lvl, par, stack[j], pages[j], height - j);
    }
  }

  lemma RestAt<V>(s: Store<V>, lvl: map<nat, nat>, par: map<nat, nat>, height: nat,
                  stack: seq<Frame<V>>, pages: seq<nat>, pos: nat)
    requires StackOk(s, lvl, par, height, stack, pages) && stack != []
    requires pos <= |stack[|stack| - 1].node.items|
    ensures var k := |stack| - 1;
      var st := stack[k := Frame(stack[k].node, pos)];
      && FrameOk(s, lvl, par, stack[k], pages[k], height - k)
      && StackOk(s, lvl, par, height, st, pages)
      && StackOk(s, lvl, par, height, stack[..k], pages[..k])
      && Rest(s, lvl, par, height, st, pages)
           == NodeRest(s, stack[k].node, pos, height - k) + Rest(s, lvl, par, height, stack[..k], pages[..k])
  {
    hide Weave;
    StackAt(s, lvl, par, height, stack, pages, pos);
    var k := |stack| - 1;
    var st := stack[k := Frame(stack[k].node, pos)];
    assert st[..k] == stack[..k];
  }

  /** An inner node's rest is its entry, then the next child, then the rest. */
  lemma InnerRest<V>(s: Store<V>, n: Node<V>, pos: nat, h: nat)
    requires h > 1 && |n.kids| == |n.items| + 1 && pos < |n.items|
    ensures NodeRest(s, n, pos, h)
         == [n.items[pos]] + Flat(s, n.kids[pos + 1], h - 1) + NodeRest(s, n, pos + 1, h)
  {
    var fs := KidFlats(s, n.kids, h - 1);
    WeaveFocus(fs[pos + 1..], n.items[pos + 1..], 0);
    assert fs[pos + 1..][1..] == fs[pos + 2..];
    if pos + 1 < |n.items| {
      assert n.items[pos + 1..][1..] == n.items[pos + 2..];
    }
  }

  /** Entering a subtree: its first child, then the rest from position 0. */
  lemma EnterNode<V>(s: Store<V>, page: nat, h: nat)
    requires h >= 1 && page in s && (h > 1 ==> |s[page].kids| == |s[page].items| + 1)
    ensures Flat(s, page, h)
         == (if h == 1 then [] else Flat(s, s[page].kids[0], h - 1)) + NodeRest(s, s[page], 0, h)
  {
    if h > 1 {
      WeaveFocus(KidFlats(s, s[page].kids, h - 1), s[page].items, 0);
    }
  }

  lemma DownStep<V>(s: Store<V>, lvl: map<nat, nat>, par: map<nat, nat>, root: nat, height: nat,
                    stack: seq<Frame<V>>, pages: seq<nat>, page: nat)
    requires Tree(s, lvl, par, root, height) && StackOk(s, lvl, par, height, stack, pages)
    requires |stack| + 1 < height && page in lvl && lvl[page] == height - |stack|
    ensures page in s && |s[page].kids| > 0 && s[page].kids[0] in lvl && lvl[s[page].kids[0]] == height - |stack| - 1
    ensures StackOk(s, lvl, par, height, Pushed(s, stack, page), pages + [page])
    ensures Flat(s, page, height - |stack|) + Rest(s, lvl, par, height, stack, pages)
         == Flat(s, s[page].kids[0], height - |stack| - 1)
           + Rest(s, lvl, par, height, Pushed(s, stack, page), pages + [page])
  {
    assert NodeOk(s, lvl, par, page);
    PushRest(s, lvl, par, height, stack, pages, page);
    EnterNode(s, page, height - |stack|);
    hide StackOk, Rest, NodeRest, Flat, Tree;
    Regroup(Flat(s, s[page].kids[0], height - |stack| - 1), NodeRest(s, s[page], 0, lvl[page]),
            Rest(s, lvl, par, height, stack, pages));
  }

  lemma Regroup<V>(a: seq<Entry<V>>, b: seq<Entry<V>>, c: seq<Entry<V>>)
    ensures (a + b) + c == a + (b + c)
  {}

  lemma LeafStep<V>(s: Store<V>, lvl: map<nat, nat>, par: map<nat, nat>, root: nat, height: nat,
                    stack: seq<Frame<V>>, pages: seq<nat>, page: nat)
    requires Tree(s, lvl, par, root, height) && StackOk(s, lvl, par, height, stack, pages)
    requires |stack| + 1 == height && page in lvl && lvl[page] == 1
    ensures page in s && StackOk(s, lvl, par, height, Pushed(s, stack, page), pages + [page])
    ensures Flat(s, page, 1) + Rest(s, lvl, par, height, stack, pages)
         == Rest(s, lvl, par, height, Pushed(s, stack, page), pages + [page])
  {
    assert NodeOk(s, lvl, par, page);
    hide StackOk, Rest, NodeRest, Flat, Tree;
    EnterNode(s, page, 1);
    PushRest(s, lvl, par, height, stack, pages, page);
  }

  lemma TopKids<V>(s: Store<V>, lvl: map<nat, nat>, par: map<nat, nat>, height: nat,
                   stack: seq<Frame<V>>, pages: seq<nat>)
    requires StackOk(s, lvl, par, height, stack, pages) && stack != []
    ensures var n, h := stack[|stack| - 1].node, height - |stack| + 1;
      && (n.kids == [] <==> h == 1) && (h > 1 ==> |n.kids| == |n.items| + 1)
      && forall i :: 0 <= i < |n.kids| ==> n.kids[i] in lvl && lvl[n.kids[i]] + 1 == h
  {
    var k := |stack| - 1;
    assert FrameOk(s, lvl, par, stack[k], pages[k], height - k);
  }

  /** The stack after its top frame stepped past one entry. */
  ghost function Advanced<V>(stack: seq<Frame<V>>): seq<Frame<V>>
    requires stack != []
  {
    var k := |stack| - 1;
    stack[k := Frame(stack[k].node, stack[k].position + 1)]
  }

  /** Going from `stack` to `st` hands out `given`. */
  ghost predicate Gives<V>(s: Store<V>, lvl: map<nat, nat>, par: map<nat, nat>, height: nat,
                           stack: seq<Frame<V>>, pages: seq<nat>, st: seq<Frame<V>>, given: seq<Entry<V>>) {
    && StackOk(s, lvl, par, height, stack, pages)
    && StackOk(s, lvl, par, height, st, pages)
    && Rest(s, lvl, par, height, stack, pages) == given + Rest(s, lvl, par, height, st, pages)
  }

  lemma TopAdvance<V>(s: Store<V>, lvl: map<nat, nat>, par: map<nat, nat>, height: nat,
                      stack: seq<Frame<V>>, pages: seq<nat>, given: seq<Entry<V>>)
    requires StackOk(s, lvl, par, height, stack, pages) && stack != []
    requires var top := stack[|stack| - 1];
      && top.position < |top.node.items|
      && FrameOk(s, lvl, par, top, pages[|stack| - 1], height - |stack| + 1)
      && NodeRest(s, top.node, top.position, height - |stack| + 1)
           == given + NodeRest(s, top.node, top.position + 1, height - |stack| + 1)
    ensures Gives(s, lvl, par, height, stack, pages, Advanced(stack), given)
  {
    hide Rest, NodeRest;
    var k := |stack| - 1;
    RestAt(s, lvl, par, height, stack, pages, stack[k].position);
    RestAt(s, lvl, par, height, stack, pages, stack[k].position + 1);
    hide StackOk;
    assert stack[k := Frame(stack[k].node, stack[k].position)] == stack;
    var a, b := NodeRest(s, stack[k].node, stack[k].position + 1, height - k),
      Rest(s, lvl, par, height, stack[..k], pages[..k]);
    assert (given + a) + b == given + (a + b);
  }

  lemma InnerStep<V>(s: Store<V>, lvl: map<nat, nat>, par: map<nat, nat>, root: nat, height: nat,
                     stack: seq<Frame<V>>, pages: seq<nat>)
    requires StackOk(s, lvl, par, height, stack, pages) && stack != []
    requires var top := stack[|stack| - 1]; top.position < |top.node.items| && top.node.kids != []
    ensures var n, pos := stack[|stack| - 1].node, stack[|stack| - 1].position;
      && |stack| < height
      && pos + 1 < |n.kids| && n.kids[pos + 1] in lvl && lvl[n.kids[pos + 1]] == height - |stack|
      && Gives(s, lvl, par, height, stack, pages, Advanced(stack),
               [n.items[pos]] + Flat(s, n.kids[pos + 1], height - |stack|))
  {
    hide RightOf;
    var k := |stack| - 1;
    var n, pos := stack[k].node, stack[k].position;
    StackAt(s, lvl, par, height, stack, pages, pos);
    TopKids(s, lvl, par, height, stack, pages);
    assert |stack| == |pages| <= height;
    InnerRest(s, n, pos, height - k);
    TopAdvance(s, lvl, par, height, stack, pages, [n.items[pos]] + Flat(s, n.kids[pos + 1], height - k - 1));
  }

  lemma LeafNext<V>(s: Store<V>, lvl: map<nat, nat>, par: map<nat, nat>, root: nat, height: nat,
                    stack: seq<Frame<V>>, pages: seq<nat>)
    requires StackOk(s, lvl, par, height, stack, pages) && stack != []
    requires var top := stack[|stack| - 1]; top.position < |top.node.items| && top.node.kids == []
    ensures var n, pos := stack[|stack| - 1].node, stack[|stack| - 1].position;
      Gives(s, lvl, par, height, stack, pages, Advanced(stack), [n.items[pos]])
  {
    var k := |stack| - 1;
    var n, pos := stack[k].node, stack[k].position;
    assert FrameOk(s, lvl, par, stack[k], pages[k], height - k);
    TopKids(s, lvl, par, height, stack, pages);
    assert n.items[pos..] == [n.items[pos]] + n.items[pos + 1..];
    TopAdvance(s, lvl, par, height, stack, pages, [n.items[pos]]);
  }

  class BTreeIterator<V> {
    const store: Store<V>
    const height: nat
    const root: nat
    var nodes: seq<Frame<V>>
    ghost const lvl: map<nat, nat>
    ghost const par: map<nat, nat>
    ghost var pages: seq<nat>

    /** The tree is sound and does not change while it is iterated. */
    ghost predicate Valid()
      reads this
    {
      && Tree(store, lvl, par, root, height)
      && StackOk(store, lvl, par, height, nodes, pages)
      && (nodes != [] ==> var top := nodes[|nodes| - 1]; top.position < |top.node.items|)
      && LeavesFull(store, lvl)
    }

    ghost function Remaining(): seq<Entry<V>>
      requires Valid()
      reads this
    {
      Rest(store, lvl, par, height, nodes, pages)
    }

    /** Pushes the pages from `page` down to its leftmost leaf. */
    method GoDown(page0: nat)
      requires Tree(store, lvl, par, root, height) && StackOk(store, lvl, par, height, nodes, pages)
      requires LeavesFull(store, lvl)
      requires |nodes| < height && page0 in lvl && lvl[page0] == height - |nodes|
      modifies this
      ensures Valid() && nodes != []
      ensures Remaining() == Flat(store, page0, old(height - |nodes|))
        + old(Rest(store, lvl, par, height, nodes, pages))
    {
      hide Tree, StackOk, Rest, Flat;
      var page := page0;
      ghost var target := Flat(store, page0, height - |nodes|) + Rest(store, lvl, par, height, nodes, pages);
      while |nodes| + 1 < height
        invariant StackOk(store, lvl, par, height, nodes, pages) && |nodes| < height
        invariant page in lvl && lvl[page] == height - |nodes|
        invariant target == Flat(store, page, height - |nodes|) + Rest(store, lvl, par, height, nodes, pages)
        decreases height - |nodes|
      {
        DownStep(store, lvl, par, root, height, nodes, pages, page);
        var node := store[page];
        nodes, pages := Pushed(store, nodes, page), pages + [page];
        page := node.kids[0];
      }
      LeafStep(store, lvl, par, root, height, nodes, pages, page);
      nodes, pages := Pushed(store, nodes, page), pages + [page];
    }

    constructor (tree: BTree<V>)
      requires tree.Valid() && tree.Contents() != []
      ensures Valid() && Remaining() == tree.Contents()
    {
      store, height, root := tree.store, tree.height, tree.root;
      lvl, par := tree.lvl, tree.par;
      nodes, pages := [], [];
      new;
      assert NodeOk(store, lvl, par, root);
      LeavesHaveEntries(store, lvl, par, root, height, tree.max);
      GoDown(root);
    }

    /** The entry the top frame is at. */
    function Upcoming(): Entry<V>
      requires nodes != [] && nodes[|nodes| - 1].position < |nodes[|nodes| - 1].node.items|
      reads this
    {
      nodes[|nodes| - 1].node.items[nodes[|nodes| - 1].position]
    }

    /** Steps past an inner entry, into the child after it. */
    method IntoChild()
      requires Valid() && nodes != [] && nodes[|nodes| - 1].node.kids != []
      modifies this
      ensures Valid() && old(Remaining()) == [old(Upcoming())] + Remaining()
    {
      hide Tree, StackOk, Flat, LeavesFull, Rest;
      var k := |nodes| - 1;
      var node, position := nodes[k].node, nodes[k].position;
      InnerStep(store, lvl, par, root, height, nodes, pages);
      nodes := nodes[k := Frame(node, position + 1)];
      GoDown(node.kids[position + 1]);
    }

    /** Steps past a leaf entry, and off the frames that are finished. */
    method AlongLeaf()
      requires Valid() && nodes != [] && nodes[|nodes| - 1].node.kids == []
      modifies this
      ensures Valid() && old(Remaining()) == [old(Upcoming())] + Remaining()
    {
      hide Tree, StackOk, Flat, LeavesFull, Rest;
      var k := |nodes| - 1;
      var node, position := nodes[k].node, nodes[k].position;
      LeafNext(store, lvl, par, root, height, nodes, pages);
      nodes := nodes[k := Frame(node, position + 1)];
      if |node.items| == position + 1 {
        PopFinished();
      }
    }

    /** Hands out the next entry, if there is one. */
    method Next() returns (e: Option<Entry<V>>)
      requires Valid()
      modifies this
      ensures Valid()
      ensures old(Remaining()) == [] ==> e == None && Remaining() == []
      ensures old(Remaining()) != [] ==> e == Some(old(Remaining())[0]) && Remaining() == old(Remaining())[1..]
    {
      hide Tree, StackOk, Flat, LeavesFull;
      if nodes == [] {
        return None;
      }
      hide Rest;
      e := Some(Upcoming());
      if nodes[|nodes| - 1].node.kids != [] {
        IntoChild();
      } else {
        AlongLeaf();
      }
    }

    /** Drops the frames that have nothing left. */
    method PopFinished()
      requires Tree(store, lvl, par, root, height) && StackOk(store, lvl, par, height, nodes, pages)
      requires LeavesFull(store, lvl)
      modifies this
      ensures Valid() && Remaining() == old(Rest(store, lvl, par, height, nodes, pages))
    {
      hide Tree, StackOk, Rest, LeavesFull;
      while nodes != [] && nodes[|nodes| - 1].position == |nodes[|nodes| - 1].node.items|
        invariant StackOk(store, lvl, par, height, nodes, pages)
        invariant Rest(store, lvl, par, height, nodes, pages) == old(Rest(store, lvl, par, height, nodes, pages))
        decreases |nodes|
      {
        PopRest(store, lvl, par, height, nodes, pages);
        nodes, pages := nodes[..|nodes| - 1], pages[..|pages| - 1];
      }
      if nodes != [] {
        StackTop(store, lvl, par, height, nodes, pages);
      }
    }
  }

  /** A finished frame adds nothing. */
  lemma PopRest<V>(s: Store<V>, lvl: map<nat, nat>, par: map<nat, nat>, height: nat,
                   stack: seq<Frame<V>>, pages: seq<nat>)
    requires StackOk(s, lvl, par, height, stack, pages) && stack != []
    requires stack[|stack| - 1].position == |stack[|stack| - 1].node.items|
    ensures |pages| == |stack| && StackOk(s, lvl, par, height, stack[..|stack| - 1], pages[..|pages| - 1])
    ensures Rest(s, lvl, par, height, stack, pages)
         == Rest(s, lvl, par, height, stack[..|stack| - 1], pages[..|pages| - 1])
  {
    var k := |stack| - 1;
    RestAt(s, lvl, par, height, stack, pages, stack[k].position);
    assert |stack| == |pages|;
    hide StackOk, Rest, NodeOk;
    assert stack[k := Frame(stack[k].node, stack[k].position)] == stack;
    assert NodeRest(s, stack[k].node, stack[k].position, height - k) == [];
  }

  lemma StackTop<V>(s: Store<V>, lvl: map<nat, nat>, par: map<nat, nat>, height: nat,
                    stack: seq<Frame<V>>, pages: seq<nat>)
    requires StackOk(s, lvl, par, height, stack, pages) && stack != []
    ensures stack[|stack| - 1].position <= |stack[|stack| - 1].node.items|
  {
    var k := |stack| - 1;
    assert FrameOk(s, lvl, par, stack[k], pages[k], height - k);
  }

  lemma LeavesHaveEntries<V>(s: Store<V>, lvl: map<nat, nat>, par: map<nat, nat>, root: nat, height: nat, max: nat)
    requires max >= 2 && Tree(s, lvl, par, root, height) && Sizes(s, lvl, root, height, max, 0)
    requires Flat(s, root, height) != []
    ensures LeavesFull(s, lvl)
  {
    assert NodeOk(s, lvl, par, root);
    forall p | p in lvl && lvl[p] == 1 ensures p in s && |s[p].items| > 0 {
      assert NodeOk(s, lvl, par, p) && p != 0;
      assert SizeOk(|s[p].items|, p == root, height, max);
    }
  }

  /** Iterating to the end lists every entry of the tree once, in key order. */
  method ListAll<V>(tree: BTree<V>) returns (all: seq<Entry<V>>)
    requires tree.Valid()
    ensures all == tree.Contents() && Sorted(all)
    ensures forall i, j :: 0 <= i < j < |all| ==> all[i].key < all[j].key
  {
    hide Rest, Tree, StackOk, Sizes, Flat;
    all := [];
    if tree.count == 0 {
      return;
    }
    ghost var contents := tree.Contents();
    var it := new BTreeIterator(tree);
    ghost var rest := contents;
    while true
      invariant it.Valid() && fresh(it) && it.Remaining() == rest && all + rest == contents
      decreases |rest|
    {
      var e := it.Next();
      rest := it.Remaining();
      if e.None? {
        break;
      }
      all := all + [e.value];
    }
  }
}
