// A list cut into nodes of bounded size that refines a plain sequence: access,
// insertion and removal by position, counted from either end.
module UnrolledList {
  import opened Chunks
  import opened ListStore
  import opened Wrappers

  datatype Removal = Done | OutOfRange | Deleted

  /** A position counted from the end when negative, if it is one of
      `size + add` positions. */
  function Normal(position: int, size: nat, add: nat): Option<nat> {
    if 0 <= position < size + add then Some(position)
    else if position < 0 && size + position + add >= 0 then Some(size + position + add)
    else None
  }

  /** `big` is `small` and `e`, which is at `at`. */
  ghost predicate OneMore<T>(small: seq<T>, big: seq<T>, at: int, e: T) {
    && |big| == |small| + 1 && 0 <= at <= |small| && big[at] == e
    && big[..at] == small[..at] && big[at + 1..] == small[at..]
  }

  class UnrolledList<T> {
    const max: nat
    var nodes: Store<T>
    var left: nat
    var right: nat
    var size: nat
    ghost var pages: seq<nat>
    ghost var chunks: seq<seq<T>>

    ghost predicate Valid()
      reads this
    {
      max >= 1 && Holds(nodes, pages, left, right, chunks) && Balanced(chunks, max) && size == |Flat(chunks)|
    }

    ghost function Contents(): (e: seq<T>)
      requires Valid()
      reads this
      ensures |e| == size
    {
      Flat(chunks)
    }

    constructor (maxNodeSize: nat, page: nat)
      requires maxNodeSize >= 1 && page != 0
      ensures Valid() && Contents() == [] && max == maxNodeSize
    {
      max := maxNodeSize;
      nodes, left, right, size := map[page := Node(0, 0, [])], page, page, 0;
      pages, chunks := [page], [[]];
      new;
      FlatOne<T>([]);
      assert forall k: nat :: k < |pages| ==> LinksAt(nodes, pages, k);
      assert ChunksOf(nodes, pages) == chunks;
    }

    /** The node that holds position `p`, and where that node starts; the last
        node also for the position after its last element. */
    ghost predicate IsAt(p: nat, pos: nat, number: nat, k: nat)
      reads this
    {
      && k < |pages| == |chunks| && number == pages[k] && pos == Offset(chunks, k)
      && pos <= p <= pos + |chunks[k]| && (p < pos + |chunks[k]| || k + 1 == |chunks|)
    }

    method WalkFromLeft(p: nat) returns (pos: nat, number: nat, ghost k: nat)
      requires Valid() && p <= size
      ensures IsAt(p, pos, number, k)
    {
      pos, number, k := 0, left, 0;
      hide Holds, Flat, Balanced;
      NodeAt(nodes, pages, left, right, chunks, 0);
      while true
        invariant k < |pages| == |chunks| && number == pages[k] && pos == Offset(chunks, k) <= p
        decreases |pages| - k
      {
        NodeAt(nodes, pages, left, right, chunks, k);
        OffsetNext(chunks, k);
        var node := nodes[number];
        if pos + |node.elements| > p || node.right == 0 {
          break;
        }
        pos, number, k := pos + |node.elements|, node.right, k + 1;
      }
    }

    method WalkFromRight(p: nat) returns (pos: nat, number: nat, ghost k: nat)
      requires Valid() && p <= size
      ensures IsAt(p, pos, number, k)
    {
      hide Offset, Covers;
      pos, number, k := size, right, |pages| - 1;
      NodeAt(nodes, pages, left, right, chunks, k);
      OffsetNext(chunks, k);
      while true
        invariant k < |pages| == |chunks| && number == pages[k] && pos == Offset(chunks, k + 1)
        invariant p < pos || (k + 1 == |chunks| && p <= pos)
        decreases k
      {
        NodeAt(nodes, pages, left, right, chunks, k);
        OffsetNext(chunks, k);
        var node := nodes[number];
        pos := pos - |node.elements|;
        if pos <= p || node.left == 0 {
          break;
        }
        number, k := node.left, k - 1;
      }
    }

    /** Finds the node for a position, walking from the nearer end it names. */
    method Find(position: int, add: nat) returns (p: Option<nat>, pos: nat, number: nat, ghost k: nat)
      requires Valid() && add <= 1
      ensures p == Normal(position, size, add)
      ensures p.Some? ==> IsAt(p.value, pos, number, k)
    {
      pos, number, k := 0, 0, 0;
      var n: int := size;
      if position >= n + add || position <= -n - 1 - add {
        return None, 0, 0, 0;
      }
      if position >= 0 {
        pos, number, k := WalkFromLeft(position);
        p := Some(position);
      } else {
        var q := size + position + add;
        pos, number, k := WalkFromRight(q);
        p := Some(q);
      }
    }

    method Get(position: int) returns (e: Option<T>)
      requires Valid()
      ensures match Normal(position, size, 0)
        case None => e == None
        case Some(p) => p < size && e == Some(Contents()[p])
      ensures 0 <= position < size ==> e == Some(Contents()[position])
      ensures position < 0 <= size + position ==> e == Some(Contents()[size + position])
      ensures size + position < 0 || size <= position ==> e == None
    {
      hide Covers;
      var p, pos, number, k := Find(position, 0);
      if p == None {
        return None;
      }
      NodeAt(nodes, pages, left, right, chunks, k);
      OffsetNext(chunks, k);
      FlatAt(chunks, k, p.value - pos);
      return Some(nodes[number].elements[p.value - pos]);
    }

    /** Room in the node itself. */
    method AddHere(number: nat, i: nat, e: T, ghost k: nat)
      requires Valid() && k < |pages| && number == pages[k] && i <= |chunks[k]| < max
      modifies `nodes, `size, `chunks
      ensures Holds(nodes, pages, left, right, chunks) && size == old(size) + 1
      ensures Inserted(old(chunks), chunks, max, Offset(old(chunks), k) + i, e)
    {
      InsertHere(chunks, max, k, i, e);
      NodeAt(nodes, pages, left, right, chunks, k);
      HoldsSet(nodes, pages, left, right, chunks, k, InsertAt(chunks[k], i, e));
      hide Holds, Flat, Inserted, InsertAt, SetElements;
      chunks := chunks[k := InsertAt(chunks[k], i, e)];
      nodes := SetElements(nodes, number, InsertAt(nodes[number].elements, i, e));
      size := size + 1;
    }

    /** The nodes at `k` and `k + 1` get elements `c` and `d`, which are theirs
        with one more. */
    method AddToPair(number: nat, next: nat, c: seq<T>, d: seq<T>, ghost i: nat, ghost e: T, ghost k: nat)
      requires Valid() && k + 1 < |pages| && number == pages[k] && next == pages[k + 1]
      requires i <= |chunks[k] + chunks[k + 1]| && c + d == InsertAt(chunks[k] + chunks[k + 1], i, e)
      requires |chunks[k]| <= |c| <= max && |chunks[k + 1]| <= |d| <= max
      modifies `nodes, `size, `chunks
      ensures Holds(nodes, pages, left, right, chunks) && size == old(size) + 1
      ensures Inserted(old(chunks), chunks, max, Offset(old(chunks), k) + i, e)
    {
      InsertPair(chunks, max, k, i, e, c, d);
      HoldsSet(nodes, pages, left, right, chunks, k, c);
      hide Holds, Flat, Inserted, InsertAt, SetElements;
      HoldsSet(SetElements(nodes, number, c), pages, left, right, chunks[k := c], k + 1, d);
      chunks := chunks[k := c][k + 1 := d];
      nodes := SetElements(SetElements(nodes, number, c), next, d);
      size := size + 1;
    }

    /** A full node with full neighbours hands its last element to a new node. */
    method AddNode(number: nat, c: seq<T>, d: T, y: nat, ghost i: nat, ghost e: T, ghost k: nat)
      requires Valid() && k < |pages| && number == pages[k] && y !in nodes && y != 0
      requires i <= |chunks[k]| == |c| == max && (k + 1 < |pages| ==> |chunks[k + 1]| == max)
      requires c + [d] == InsertAt(chunks[k], i, e)
      modifies `nodes, `size, `right, `pages, `chunks
      ensures Holds(nodes, pages, left, right, chunks) && size == old(size) + 1
      ensures Inserted(old(chunks), chunks, max, Offset(old(chunks), k) + i, e)
    {
      NodeAdded(nodes, pages, left, right, chunks, max, k, c, d, y, i, e);
      hide Holds, Flat, Inserted, InsertAt, InsertAfter, SetElements, Splice, PageAdded;
      right := if nodes[number].right == 0 then y else right;
      nodes := InsertAfter(SetElements(nodes, number, c), number, y, [d]);
      chunks := Splice(chunks, k, k + 1, [c, [d]]);
      pages := PageAdded(pages, k, y);
      size := size + 1;
    }

    /** A full node hands an element, or the new one, to its left neighbour. */
    method AddLeft(number: nat, prev: nat, i: nat, e: T, ghost k: nat)
      requires Valid() && 0 < k < |pages| == |chunks| && number == pages[k] && prev == pages[k - 1]
      requires i <= |chunks[k]| == max && |chunks[k - 1]| < max
      modifies `nodes, `size, `chunks
      ensures Holds(nodes, pages, left, right, chunks) && size == old(size) + 1
      ensures Inserted(old(chunks), chunks, max, Offset(old(chunks), k) + i, e)
    {
      hide Flat, Covers;
      NodeAt(nodes, pages, left, right, chunks, k);
      OffsetNext(chunks, k - 1);
      var before := nodes[prev].elements;
      var c, d := Underflow(before, nodes[number].elements, i, e);
      AddToPair(prev, number, c, d, |before| + i, e, k - 1);
    }

    /** A full node hands its last element, or the new one, to its right
        neighbour or to a new node between them. */
    method AddRight(number: nat, i: nat, e: T, y: nat, ghost k: nat)
      requires Valid() && k < |pages| == |chunks| && number == pages[k] && y !in nodes && y != 0
      requires i <= |chunks[k]| == max
      modifies this
      ensures Holds(nodes, pages, left, right, chunks) && size == old(size) + 1
      ensures Inserted(old(chunks), chunks, max, Offset(old(chunks), k) + i, e)
    {
      hide Flat, Covers;
      NodeAt(nodes, pages, left, right, chunks, k);
      FullBounds(chunks, max);
      var node := nodes[number];
      var c, d := Overflow(node.elements, i, e);
      InsertedLength(node.elements, i, e, c, d);
      if node.right != 0 {
        var sibling := nodes[node.right].elements;
        if |sibling| != max {
          MoveRight(node.elements, sibling, i, e, c, d);
          AddToPair(number, node.right, c, [d] + sibling, i, e, k);
          return;
        }
      }
      AddNode(number, c, d, y, i, e, k);
    }

    /** Inserts before element `i` of a node. */
    method AddAt(number: nat, i: nat, e: T, y: nat, ghost k: nat)
      requires Valid() && k < |pages| == |chunks| && number == pages[k] && y !in nodes && y != 0
      requires i <= |chunks[k]|
      modifies this
      ensures Holds(nodes, pages, left, right, chunks) && size == old(size) + 1
      ensures Inserted(old(chunks), chunks, max, Offset(old(chunks), k) + i, e)
    {
      NodeAt(nodes, pages, left, right, chunks, k);
      FullBounds(chunks, max);
      hide Holds, Flat, Balanced, InsertAt, Inserted;
      var node := nodes[number];
      if |node.elements| != max {
        AddHere(number, i, e, k);
      } else if node.left != 0 && |nodes[node.left].elements| != max {
        AddLeft(number, node.left, i, e, k);
      } else {
        AddRight(number, i, e, y, k);
      }
    }

    /** Inserts before a position: in the node itself, by handing an element to
        a neighbour with room, the left one first, or into a new node. */
    method Add(e: T, position: int, y: nat) returns (ok: bool)
      requires Valid() && y !in nodes && y != 0
      modifies this
      ensures Valid()
      ensures match Normal(position, old(size), 1)
        case None => !ok && Contents() == old(Contents())
        case Some(p) => ok && p <= old(size) && Contents() == InsertAt(old(Contents()), p, e)
      ensures ok <==> 0 <= old(size) + 1 + position && position <= old(size)
      ensures var p := if position < 0 then old(size) + 1 + position else position;
        ok ==> OneMore(old(Contents()), Contents(), p, e)
    {
      hide Holds, Flat, Balanced, InsertAt, Normal, OneMore, Inserted, IsAt;
      NormalIs(position, size, 1);
      ghost var was := Contents();
      var p, pos, number, k := Find(position, 1);
      if p == None {
        return false;
      }
      IsWithin(this, p.value, pos, number, k);
      AddAt(number, p.value - pos, e, y, k);
      InsertedIs(this, old(chunks), p.value, e);
      LongerByOne(was, p.value, e);
      return true;
    }

    /** Two nodes with `e` inserted before element `i` of the second, recut so
        that the first has one more. */
    static method Underflow(a: seq<T>, b: seq<T>, i: nat, e: T) returns (c: seq<T>, d: seq<T>)
      requires i <= |b|
      ensures c + d == InsertAt(a + b, |a| + i, e) && |c| == |a| + 1 && |d| == |b|
    {
      MoveLeft(a, b, i, e);
      if i == 0 {
        c, d := a + [e], b;
      } else {
        c, d := a + [b[0]], b[1..i] + [e] + b[i..];
      }
    }

    /** A full node with `e` inserted, cut before its last element. */
    static method Overflow(s: seq<T>, i: nat, e: T) returns (c: seq<T>, d: T)
      requires i <= |s|
      ensures c + [d] == InsertAt(s, i, e)
    {
      if i == |s| {
        c, d := s, e;
      } else {
        c, d := s[..i] + [e] + s[i..|s| - 1], s[|s| - 1];
      }
    }

    /** Takes a node out of the chain and the store. */
    method DropNode(number: nat, ghost cs: seq<seq<T>>, ghost k: nat)
      requires Holds(nodes, pages, left, right, cs) && k < |pages| && number == pages[k]
      modifies `nodes, `left, `right, `pages
      ensures |cs| == |old(pages)|
      ensures |cs| > 1 ==> Holds(nodes, pages, left, right, Splice(cs, k, k + 1, []))
      ensures |cs| == 1 ==> nodes == map[] && left == right == 0
    {
      NodeAt(nodes, pages, left, right, cs, k);
      HoldsUnlink(nodes, pages, left, right, cs, k);
      hide Holds, Unlinked, Splice;
      var node := nodes[number];
      left := if left == number then node.right else left;
      right := if right == number then node.left else right;
      nodes := Unlinked(nodes, number);
      pages := PageRemoved(pages, k);
    }

    /** The node keeps elements and stays. */
    method RemoveHere(number: nat, c: seq<T>, ghost i: nat, ghost k: nat)
      requires Valid() && k < |pages| == |chunks| && number == pages[k]
      requires i < |chunks[k]| && |chunks[k]| > 1 && c == RemoveAt(chunks[k], i)
      requires k > 0 ==> |chunks[k - 1]| + |c| > max
      requires k + 1 < |chunks| ==> |chunks[k + 1]| + |c| > max
      modifies `nodes, `size, `chunks
      ensures Holds(nodes, pages, left, right, chunks) && size == old(size) - 1
      ensures Removed(old(chunks), chunks, max, Offset(old(chunks), k) + i)
    {
      hide Covers;
      Chunks.RemoveHere(chunks, max, k, i);
      HoldsSet(nodes, pages, left, right, chunks, k, c);
      nodes := SetElements(nodes, number, c);
      chunks := chunks[k := c];
      size := size - 1;
    }

    /** The node at `k + 1` of a pair goes, or the one at `k`, when what both
        still hold fits into the other. */
    method RemoveMerge(gone: nat, kept: nat, c: seq<T>, ghost i: nat, ghost k: nat, ghost out: nat, ghost at: nat)
      requires Valid() && k + 1 < |pages| == |chunks|
      requires ((out == k && at == k + 1) || (out == k + 1 && at == k)) && gone == pages[out] && kept == pages[at]
      requires Mergeable(chunks, max, k, i, c)
      modifies this
      ensures Holds(nodes, pages, left, right, chunks) && size == old(size) - 1
      ensures Removed(old(chunks), chunks, max, Offset(old(chunks), k) + i)
    {
      hide Covers;
      ghost var moved, merged := PairMerged(nodes, pages, left, right, chunks, max, k, i, c, at, out);
      nodes := SetElements(nodes, kept, c);
      DropNode(gone, moved, out);
      chunks := merged;
      size := size - 1;
    }

    /** The node is left empty and goes. */
    method RemoveLast(number: nat, ghost k: nat) returns (r: Removal)
      requires Valid() && k < |pages| == |chunks| && number == pages[k] && |chunks[k]| == 1
      modifies this
      ensures Offset(old(chunks), k) < old(size)
      ensures r == (if old(size) == 1 then Deleted else Done)
      ensures r == Done ==> Valid() && Contents() == RemoveAt(old(Contents()), Offset(old(chunks), k))
      ensures r == Deleted ==> nodes == map[] && left == right == 0
    {
      hide Covers;
      Chunks.RemoveLast(chunks, max, k);
      SingleSize(chunks, max, k);
      DropNode(number, chunks, k);
      chunks := Splice(chunks, k, k + 1, []);
      size := size - 1;
      return if size == 0 then Deleted else Done;
    }

    /** Removes element `i` of a node that holds more; what is left moves into
        the left neighbour if it fits there, else into the right one. */
    method RemoveFrom(number: nat, i: nat, ghost k: nat)
      requires Valid() && k < |pages| == |chunks| && number == pages[k]
      requires i < |chunks[k]| && |chunks[k]| > 1
      modifies this
      ensures Holds(nodes, pages, left, right, chunks) && size == old(size) - 1
      ensures Removed(old(chunks), chunks, max, Offset(old(chunks), k) + i)
    {
      hide Holds, Flat, RemoveAt;
      NodeAt(nodes, pages, left, right, chunks, k);
      var node := nodes[number];
      RemovedLength(node.elements, i);
      var c := RemoveAt(node.elements, i);
      if node.left != 0 {
        var sibling := nodes[node.left].elements;
        if |sibling| + |c| <= max {
          OffsetNext(chunks, k - 1);
          JoinLeft(sibling, node.elements, i);
          RemoveMerge(number, node.left, sibling + c, |sibling| + i, k - 1, k, k - 1);
          return;
        }
      }
      if node.right != 0 {
        var sibling := nodes[node.right].elements;
        if |sibling| + |c| <= max {
          JoinRight(node.elements, sibling, i);
          RemoveMerge(number, node.right, c + sibling, i, k, k, k + 1);
          return;
        }
      }
      RemoveHere(number, c, i, k);
    }

    /** Removes element `i` of a node. */
    method RemoveIn(number: nat, i: nat, ghost k: nat) returns (r: Removal)
      requires Valid() && k < |pages| == |chunks| && number == pages[k] && i < |chunks[k]|
      modifies this
      ensures Offset(old(chunks), k) + i < old(size)
      ensures r == (if old(size) == 1 then Deleted else Done)
      ensures r == Done ==> Valid() && Contents() == RemoveAt(old(Contents()), Offset(old(chunks), k) + i)
      ensures r == Deleted ==> nodes == map[] && left == right == 0
    {
      hide Holds, RemoveAt;
      NodeAt(nodes, pages, left, right, chunks, k);
      OffsetNext(chunks, k);
      if |nodes[number].elements| == 1 {
        r := RemoveLast(number, k);
      } else {
        ManyElements(chunks, k);
        ghost var was := Contents();
        RemoveFrom(number, i, k);
        RemovedLength(was, Offset(old(chunks), k) + i);
        r := Done;
      }
    }

    /** Removes the element at a position. */
    method Remove(position: int) returns (r: Removal)
      requires Valid()
      modifies this
      ensures match Normal(position, old(size), 0)
        case None => r == OutOfRange && Valid() && Contents() == old(Contents())
        case Some(p) =>
          && p < old(size) && r == (if old(size) == 1 then Deleted else Done)
          && (r == Done ==> Valid() && Contents() == RemoveAt(old(Contents()), p))
          && (r == Deleted ==> nodes == map[] && left == right == 0)
      ensures r == OutOfRange <==> old(size) + position < 0 || old(size) <= position
      ensures r == Done ==> var p := if position < 0 then old(size) + position else position;
        0 <= p < old(size) && OneMore(Contents(), old(Contents()), p, old(Contents())[p])
    {
      hide *;
      NormalIs(position, size, 0);
      ghost var was := Contents();
      var p, pos, number, k := Find(position, 0);
      if p == None {
        return OutOfRange;
      }
      IsIn(this, p.value, pos, number, k);
      r := RemoveIn(number, p.value - pos, k);
      RemovedLength(was, p.value);
    }
  }

  /** A position that is not the end is in a node. */
  lemma IsIn<T>(l: UnrolledList<T>, p: nat, pos: nat, number: nat, k: nat)
    requires l.Valid() && l.IsAt(p, pos, number, k) && p < l.size
    ensures k < |l.pages| == |l.chunks| && number == l.pages[k] && pos == Offset(l.chunks, k) <= p < pos + |l.chunks[k]|
  {
    hide Holds, Flat, Balanced;
    OffsetNext(l.chunks, k);
  }

  /** A position is in a node, or at its end. */
  lemma IsWithin<T>(l: UnrolledList<T>, p: nat, pos: nat, number: nat, k: nat)
    requires l.Valid() && l.IsAt(p, pos, number, k)
    ensures k < |l.pages| == |l.chunks| && number == l.pages[k]
    ensures pos == Offset(l.chunks, k) <= p <= pos + |l.chunks[k]|
    ensures Flat(l.chunks) == l.Contents()
  {
    hide Holds, Flat, Balanced;
  }

  /** What the links and chunks say after an insertion. */
  lemma InsertedIs<T>(l: UnrolledList<T>, was: seq<seq<T>>, p: nat, e: T)
    requires Holds(l.nodes, l.pages, l.left, l.right, l.chunks) && Inserted(was, l.chunks, l.max, p, e)
    requires l.size == |Flat(was)| + 1 && l.max >= 1
    ensures l.Valid() && p <= |Flat(was)| && l.Contents() == InsertAt(Flat(was), p, e)
  {
    hide Holds, Flat, Balanced;
  }

  lemma SpliceOfPair<T>(cs: seq<seq<T>>, k: nat, c: seq<T>)
    requires k + 1 < |cs|
    ensures Splice(cs[k + 1 := c], k, k + 1, []) == Splice(cs, k, k + 2, [c])
    ensures Splice(cs[k := c], k + 1, k + 2, []) == Splice(cs, k, k + 2, [c])
  {}

  /** Chunks `k` and `k + 1` fit into one once element `i` of them is gone. */
  ghost predicate Mergeable<T>(cs: seq<seq<T>>, max: nat, k: nat, i: nat, c: seq<T>) {
    && k + 1 < |cs| && i < |cs[k] + cs[k + 1]| <= max + 1 && c == RemoveAt(cs[k] + cs[k + 1], i)
    && if i < |cs[k]| then |cs[k]| > 1 else |cs[k + 1]| > 1
  }

  /** One of two neighbours holds what both are to hold, and the other can go. */
  lemma PairMerged<T>(s: Store<T>, pages: seq<nat>, left: nat, right: nat, cs: seq<seq<T>>, max: nat, k: nat,
                      i: nat, c: seq<T>, at: nat, out: nat)
    returns (moved: seq<seq<T>>, merged: seq<seq<T>>)
    requires Holds(s, pages, left, right, cs) && Balanced(cs, max) && k + 1 < |pages| == |cs|
    requires (at == k && out == k + 1) || (at == k + 1 && out == k)
    requires Mergeable(cs, max, k, i, c)
    ensures |moved| > 1 && pages[at] in s && Holds(SetElements(s, pages[at], c), pages, left, right, moved)
    ensures out < |moved| && merged == Splice(moved, out, out + 1, [])
    ensures k < |cs| && Removed(cs, merged, max, Offset(cs, k) + i)
  {
    moved, merged := cs[at := c], Splice(cs, k, k + 2, [c]);
    Chunks.RemoveMerge(cs, max, k, i);
    HoldsSet(s, pages, left, right, cs, at, c);
    hide Holds, Flat, Balanced, SetElements, Splice;
    SpliceOfPair(cs, k, c);
  }

  /** A node with one element is the whole list or has company. */
  lemma SingleSize<T>(cs: seq<seq<T>>, max: nat, k: nat)
    requires Balanced(cs, max) && k < |cs| && |cs[k]| == 1
    ensures |Flat(cs)| == 1 <==> |cs| == 1
  {
    if |cs| == 1 {
      assert cs == [cs[0]];
      FlatOne(cs[0]);
    } else {
      var j := if k == 0 then 1 else 0;
      OffsetNext(cs, 0);
      OffsetNext(cs, 1);
    }
  }

  lemma ManyElements<T>(cs: seq<seq<T>>, k: nat)
    requires k < |cs|
    ensures |cs[k]| <= |Flat(cs)|
  {
    OffsetNext(cs, k);
  }

  lemma LongerByOne<T>(s: seq<T>, i: nat, e: T)
    requires i <= |s|
    ensures |InsertAt(s, i, e)| == |s| + 1 && OneMore(s, InsertAt(s, i, e), i, e)
  {}

  lemma RemovedLength<T>(s: seq<T>, i: nat)
    requires i < |s|
    ensures |RemoveAt(s, i)| == |s| - 1 && OneMore(RemoveAt(s, i), s, i, s[i])
  {}

  /** Position `-1 - k` is the one `k` before the last. */
  lemma NormalIs(position: int, n: nat, add: nat)
    ensures Normal(position, n, add) ==
      if position < 0 <= n + add + position then Some(n + add + position)
      else if 0 <= position < n + add then Some(position)
      else None
  {}

  lemma JoinLeft<T>(a: seq<T>, b: seq<T>, i: nat)
    requires i < |b|
    ensures a + RemoveAt(b, i) == RemoveAt(a + b, |a| + i)
  {
    assert (a + b)[..|a| + i] == a + b[..i] && (a + b)[|a| + i + 1..] == b[i + 1..];
  }

  lemma JoinRight<T>(a: seq<T>, b: seq<T>, i: nat)
    requires i < |a|
    ensures RemoveAt(a, i) + b == RemoveAt(a + b, i)
  {
    assert (a + b)[..i] == a[..i] && (a + b)[i + 1..] == a[i + 1..] + b;
  }

  /** A new node behind a full one, which hands it its last element. */
  lemma NodeAdded<T>(s: Store<T>, pages: seq<nat>, left: nat, right: nat, cs: seq<seq<T>>, max: nat, k: nat,
                     c: seq<T>, d: T, y: nat, i: nat, e: T)
    requires Holds(s, pages, left, right, cs) && Balanced(cs, max) && max >= 1
    requires k < |pages| == |cs| && y !in s && y != 0
    requires i <= |cs[k]| == |c| == max && (k + 1 < |cs| ==> |cs[k + 1]| == max) && c + [d] == InsertAt(cs[k], i, e)
    ensures pages[k] in s
    ensures Holds(InsertAfter(SetElements(s, pages[k], c), pages[k], y, [d]), PageAdded(pages, k, y), left,
                  if s[pages[k]].right == 0 then y else right, Splice(cs, k, k + 1, [c, [d]]))
    ensures Inserted(cs, Splice(cs, k, k + 1, [c, [d]]), max, Offset(cs, k) + i, e)
  {
    InsertSplit(cs, max, k, i, e, c, d);
    NodeAt(s, pages, left, right, cs, k);
    HoldsSet(s, pages, left, right, cs, k, c);
    assert y !in SetElements(s, pages[k], c);
    hide Holds, Flat, Balanced, InsertAt, InsertAfter, SetElements, Splice, PageAdded, Inserted;
    HoldsInsert(SetElements(s, pages[k], c), pages, left, right, cs[k := c], k, y, [d]);
    SpliceAfterSet(cs, k, c, [d]);
  }

  lemma SpliceAfterSet<T>(cs: seq<seq<T>>, k: nat, c: seq<T>, d: seq<T>)
    requires k < |cs|
    ensures Splice(cs[k := c], k + 1, k + 1, [d]) == Splice(cs, k, k + 1, [c, d])
  {}

  lemma InsertedLength<T>(s: seq<T>, i: nat, e: T, c: seq<T>, d: T)
    requires i <= |s| && c + [d] == InsertAt(s, i, e)
    ensures |c| == |s|
  {
    assert |c + [d]| == |s| + 1;
  }

  lemma FullBounds<T>(cs: seq<seq<T>>, max: nat)
    requires Balanced(cs, max)
    ensures forall k :: 0 <= k < |cs| ==> |cs[k]| <= max
  {}

  lemma MoveLeft<T>(a: seq<T>, b: seq<T>, i: nat, e: T)
    requires i <= |b|
    ensures i == 0 ==> (a + [e]) + b == InsertAt(a + b, |a| + i, e)
    ensures i > 0 ==> (a + [b[0]]) + (b[1..i] + [e] + b[i..]) == InsertAt(a + b, |a| + i, e)
  {
    assert (a + b)[..|a| + i] == a + b[..i] && (a + b)[|a| + i..] == b[i..];
    if i > 0 {
      assert b[..i] == [b[0]] + b[1..i];
    }
  }

  lemma MoveRight<T>(a: seq<T>, b: seq<T>, i: nat, e: T, c: seq<T>, d: T)
    requires i <= |a| && c + [d] == InsertAt(a, i, e)
    ensures c + ([d] + b) == InsertAt(a + b, i, e)
  {
    assert (a + b)[..i] == a[..i] && (a + b)[i..] == a[i..] + b;
    assert c + ([d] + b) == (c + [d]) + b;
  }
}
