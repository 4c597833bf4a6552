// Nodes of an unrolled list, linked by page number in both directions.
module ListStore {
  import opened Chunks
  import opened PageNumbers

  datatype Node<T> = Node(left: nat, right: nat, elements: seq<T>)

  type Store<T> = map<nat, Node<T>>

  /** The links of the node at `k` lead to its neighbours, 0 where there is none. */
  ghost predicate LinksAt<T>(s: Store<T>, pages: seq<nat>, k: nat)
    requires k < |pages|
  {
    && pages[k] != 0 && pages[k] in s
    && s[pages[k]].left == (if k == 0 then 0 else pages[k - 1])
    && s[pages[k]].right == (if k + 1 < |pages| then pages[k + 1] else 0)
  }

  /** The store holds no other page. */
  ghost predicate Covers<T>(s: Store<T>, pages: seq<nat>) {
    forall q :: q in s ==> q in pages
  }

  ghost predicate Chain<T>(s: Store<T>, pages: seq<nat>) {
    Distinct(pages) && Covers(s, pages) && forall k: nat :: k < |pages| ==> LinksAt(s, pages, k)
  }

  ghost function ChunksOf<T>(s: Store<T>, pages: seq<nat>): (cs: seq<seq<T>>)
    ensures |cs| == |pages|
    ensures forall k :: 0 <= k < |cs| && pages[k] in s ==> cs[k] == s[pages[k]].elements
  {
    seq(|pages|, k requires 0 <= k < |pages| => if pages[k] in s then s[pages[k]].elements else [])
  }

  /** The nodes chain from `left` to `right` and hold the chunks `cs`. */
  ghost predicate Holds<T>(s: Store<T>, pages: seq<nat>, left: nat, right: nat, cs: seq<seq<T>>) {
    && pages != [] && Chain(s, pages) && left == pages[0] && right == pages[|pages| - 1]
    && ChunksOf(s, pages) == cs
  }

  // ---- Elements of one node

  function SetElements<T>(s: Store<T>, page: nat, c: seq<T>): (t: Store<T>)
    requires page in s
  {
    s[page := s[page].(elements := c)]
  }

  lemma SetElementsKeeps<T>(s: Store<T>, pages: seq<nat>, k: nat, c: seq<T>)
    requires Chain(s, pages) && k < |pages|
    ensures pages[k] in s
    ensures Chain(SetElements(s, pages[k], c), pages)
    ensures ChunksOf(SetElements(s, pages[k], c), pages) == ChunksOf(s, pages)[k := c]
  {
    assert LinksAt(s, pages, k);
    var t := SetElements(s, pages[k], c);
    forall j: nat | j < |pages| ensures LinksAt(t, pages, j) {
      assert LinksAt(s, pages, j);
    }
    assert Covers(t, pages);
  }

  // ---- A new node after node `k`

  function InsertAfter<T>(s: Store<T>, number: nat, y: nat, c: seq<T>): (t: Store<T>)
    requires number in s
  {
    var n := s[number];
    var t := s[y := Node(number, n.right, c)][number := n.(right := y)];
    if n.right != 0 && n.right in t then t[n.right := t[n.right].(left := y)] else t
  }

  function PageAdded(pages: seq<nat>, k: nat, y: nat): (r: seq<nat>)
    requires k < |pages|
    ensures |r| == |pages| + 1
    ensures forall j {:trigger r[j]} :: 0 <= j < |r| ==>
      r[j] == (if j <= k then pages[j] else if j == k + 1 then y else pages[j - 1])
  {
    pages[..k + 1] + [y] + pages[k + 1..]
  }

  lemma CoversAdded<T>(s: Store<T>, t: Store<T>, pages: seq<nat>, k: nat, y: nat)
    requires Covers(s, pages) && k < |pages| && t.Keys == s.Keys + {y}
    ensures Covers(t, PageAdded(pages, k, y))
  {
    var r := PageAdded(pages, k, y);
    assert r[k + 1] == y;
    forall q | q in s ensures q in r {
      var j :| 0 <= j < |pages| && pages[j] == q;
      assert r[if j <= k then j else j + 1] == q;
    }
  }

  lemma LinksAdded<T>(s: Store<T>, pages: seq<nat>, k: nat, y: nat, c: seq<T>, j: nat)
    requires Distinct(pages) && (forall j: nat :: j < |pages| ==> LinksAt(s, pages, j))
    requires k < |pages| && y !in s && y != 0 && j <= |pages|
    ensures pages[k] in s && LinksAt(InsertAfter(s, pages[k], y, c), PageAdded(pages, k, y), j)
    ensures PageAdded(pages, k, y)[j] in InsertAfter(s, pages[k], y, c)
    ensures var i := if j <= k then j else j - 1;
      i < |pages| && pages[i] in s && InsertAfter(s, pages[k], y, c)[PageAdded(pages, k, y)[j]].elements
        == if j == k + 1 then c else s[pages[i]].elements
  {
    assert LinksAt(s, pages, k);
    assert k + 1 < |pages| ==> LinksAt(s, pages, k + 1);
    var t, r := InsertAfter(s, pages[k], y, c), PageAdded(pages, k, y);
    var i := if j <= k then j else j - 1;
    assert LinksAt(s, pages, i);
    if j != k + 1 {
      assert r[j] == pages[i];
      assert j > 0 ==> r[j - 1] == (if j - 1 <= k then pages[j - 1] else if j == k + 2 then y else pages[j - 2]);
    }
    assert j + 1 < |r| ==> r[j + 1] == (if j + 1 <= k then pages[j + 1] else if j == k then y else pages[j]);
  }

  lemma InsertAfterKeeps<T>(s: Store<T>, pages: seq<nat>, k: nat, y: nat, c: seq<T>)
    requires Chain(s, pages) && k < |pages| && y !in s && y != 0
    ensures pages[k] in s
    ensures Chain(InsertAfter(s, pages[k], y, c), PageAdded(pages, k, y))
    ensures ChunksOf(InsertAfter(s, pages[k], y, c), PageAdded(pages, k, y))
         == Splice(ChunksOf(s, pages), k + 1, k + 1, [c])
  {
    assert LinksAt(s, pages, k);
    assert k + 1 < |pages| ==> LinksAt(s, pages, k + 1);
    var t, r := InsertAfter(s, pages[k], y, c), PageAdded(pages, k, y);
    CoversAdded(s, t, pages, k, y);
    hide Covers, InsertAfter, PageAdded;
    DistinctAdded(s, pages, k, y);
    forall j: nat | j < |r| ensures LinksAt(t, r, j) {
      LinksAdded(s, pages, k, y, c, j);
    }
    ChunksAdded(s, pages, k, y, c);
  }

  lemma ChunksAdded<T>(s: Store<T>, pages: seq<nat>, k: nat, y: nat, c: seq<T>)
    requires Distinct(pages) && (forall j: nat :: j < |pages| ==> LinksAt(s, pages, j))
    requires k < |pages| && y !in s && y != 0
    ensures pages[k] in s
    ensures ChunksOf(InsertAfter(s, pages[k], y, c), PageAdded(pages, k, y))
         == Splice(ChunksOf(s, pages), k + 1, k + 1, [c])
  {
    assert LinksAt(s, pages, k);
    hide InsertAfter, PageAdded, LinksAt, Distinct;
    var a, b := ChunksOf(InsertAfter(s, pages[k], y, c), PageAdded(pages, k, y)),
      Splice(ChunksOf(s, pages), k + 1, k + 1, [c]);
    forall j | 0 <= j < |a| ensures a[j] == b[j] {
      LinksAdded(s, pages, k, y, c, j);
      assert PageAdded(pages, k, y)[j] in InsertAfter(s, pages[k], y, c);
    }
  }

  lemma DistinctAdded<T>(s: Store<T>, pages: seq<nat>, k: nat, y: nat)
    requires Distinct(pages) && k < |pages| && y !in s && forall j: nat :: j < |pages| ==> LinksAt(s, pages, j)
    ensures Distinct(PageAdded(pages, k, y))
  {
    forall j | 0 <= j < |pages| ensures pages[j] != y {
      assert LinksAt(s, pages, j);
    }
  }

  // ---- Node `k` taken out

  function Unlinked<T>(s: Store<T>, number: nat): (t: Store<T>)
    requires number in s
  {
    var n := s[number];
    var t := if n.left != 0 && n.left in s then s[n.left := s[n.left].(right := n.right)] else s;
    var u := if n.right != 0 && n.right in t then t[n.right := t[n.right].(left := n.left)] else t;
    u - {number}
  }

  function PageRemoved(pages: seq<nat>, k: nat): (r: seq<nat>)
    requires k < |pages|
    ensures |r| == |pages| - 1
    ensures forall j {:trigger r[j]} :: 0 <= j < |r| ==> r[j] == (if j < k then pages[j] else pages[j + 1])
  {
    pages[..k] + pages[k + 1..]
  }

  lemma CoversRemoved<T>(s: Store<T>, t: Store<T>, pages: seq<nat>, k: nat)
    requires Covers(s, pages) && k < |pages| && t.Keys == s.Keys - {pages[k]}
    ensures Covers(t, PageRemoved(pages, k))
  {
    var r := PageRemoved(pages, k);
    forall q | q in t ensures q in r {
      var j :| 0 <= j < |pages| && pages[j] == q;
      assert r[if j < k then j else j - 1] == q;
    }
  }

  lemma UnlinkedKeeps<T>(s: Store<T>, pages: seq<nat>, k: nat)
    requires Chain(s, pages) && k < |pages|
    ensures pages[k] in s
    ensures Chain(Unlinked(s, pages[k]), PageRemoved(pages, k))
    ensures ChunksOf(Unlinked(s, pages[k]), PageRemoved(pages, k)) == Splice(ChunksOf(s, pages), k, k + 1, [])
  {
    assert LinksAt(s, pages, k);
    var t, r := Unlinked(s, pages[k]), PageRemoved(pages, k);
    assert t.Keys == s.Keys - {pages[k]} by {
      assert k > 0 ==> LinksAt(s, pages, k - 1);
      assert k + 1 < |pages| ==> LinksAt(s, pages, k + 1);
    }
    CoversRemoved(s, t, pages, k);
    assert forall j: nat :: j < |pages| ==> LinksAt(s, pages, j);
    hide Covers, Unlinked, PageRemoved, LinksAt;
    DistinctRemoved(pages, k);
    forall j: nat | j < |r| ensures LinksAt(t, r, j) {
      LinksRemoved(s, pages, k, j);
    }
    ChunksRemoved(s, pages, k);
  }

  lemma DistinctRemoved(pages: seq<nat>, k: nat)
    requires Distinct(pages) && k < |pages|
    ensures Distinct(PageRemoved(pages, k))
  {}

  lemma ChunksRemoved<T>(s: Store<T>, pages: seq<nat>, k: nat)
    requires Distinct(pages) && (forall j: nat :: j < |pages| ==> LinksAt(s, pages, j)) && k < |pages|
    ensures pages[k] in s
    ensures ChunksOf(Unlinked(s, pages[k]), PageRemoved(pages, k)) == Splice(ChunksOf(s, pages), k, k + 1, [])
  {
    assert LinksAt(s, pages, k);
    hide Unlinked, LinksAt, Distinct;
    var a, b := ChunksOf(Unlinked(s, pages[k]), PageRemoved(pages, k)), Splice(ChunksOf(s, pages), k, k + 1, []);
    forall j | 0 <= j < |a| ensures a[j] == b[j] {
      LinksRemoved(s, pages, k, j);
    }
  }

  lemma LinksRemoved<T>(s: Store<T>, pages: seq<nat>, k: nat, j: nat)
    requires Distinct(pages) && (forall j: nat :: j < |pages| ==> LinksAt(s, pages, j))
    requires k < |pages| && j + 1 < |pages|
    ensures pages[k] in s && LinksAt(Unlinked(s, pages[k]), PageRemoved(pages, k), j)
    ensures var i := if j < k then j else j + 1;
      pages[i] in s && PageRemoved(pages, k)[j] == pages[i] && pages[i] in Unlinked(s, pages[k])
      && Unlinked(s, pages[k])[pages[i]].elements == s[pages[i]].elements
  {
    assert LinksAt(s, pages, k);
    var t, r := Unlinked(s, pages[k]), PageRemoved(pages, k);
    assert k > 0 ==> LinksAt(s, pages, k - 1);
    assert k + 1 < |pages| ==> LinksAt(s, pages, k + 1);
    var i := if j < k then j else j + 1;
    assert LinksAt(s, pages, i) && r[j] == pages[i];
    assert j > 0 ==> r[j - 1] == (if j - 1 < k then pages[j - 1] else pages[j]);
    assert j + 1 < |r| ==> r[j + 1] == (if j + 1 < k then pages[j + 1] else pages[j + 2]);
  }

  // ---- The same, for a whole list

  /** A node of the list and its neighbours. */
  lemma NodeAt<T>(s: Store<T>, pages: seq<nat>, left: nat, right: nat, cs: seq<seq<T>>, k: nat)
    requires Holds(s, pages, left, right, cs) && k < |pages|
    ensures |cs| == |pages| && pages[k] in s && s[pages[k]].elements == cs[k] && pages[k] != 0
    ensures s[pages[k]].left == 0 <==> k == 0
    ensures k > 0 ==> s[pages[k]].left == pages[k - 1] && pages[k - 1] in s && s[pages[k - 1]].elements == cs[k - 1]
    ensures s[pages[k]].right == 0 <==> k + 1 == |pages|
    ensures k + 1 < |pages| ==>
      s[pages[k]].right == pages[k + 1] && pages[k + 1] in s && s[pages[k + 1]].elements == cs[k + 1]
    ensures left == pages[k] <==> k == 0
    ensures right == pages[k] <==> k + 1 == |pages|
  {
    assert LinksAt(s, pages, k);
    assert k > 0 ==> LinksAt(s, pages, k - 1);
    assert k + 1 < |pages| ==> LinksAt(s, pages, k + 1);
  }

  lemma HoldsSet<T>(s: Store<T>, pages: seq<nat>, left: nat, right: nat, cs: seq<seq<T>>, k: nat, c: seq<T>)
    requires Holds(s, pages, left, right, cs) && k < |pages|
    ensures pages[k] in s && |cs| == |pages|
    ensures Holds(SetElements(s, pages[k], c), pages, left, right, cs[k := c])
  {
    SetElementsKeeps(s, pages, k, c);
  }

  lemma HoldsInsert<T>(s: Store<T>, pages: seq<nat>, left: nat, right: nat, cs: seq<seq<T>>, k: nat, y: nat, c: seq<T>)
    requires Holds(s, pages, left, right, cs) && k < |pages| && y !in s && y != 0
    ensures pages[k] in s && |cs| == |pages|
    ensures Holds(InsertAfter(s, pages[k], y, c), PageAdded(pages, k, y), left, if k + 1 == |pages| then y else right,
                  Splice(cs, k + 1, k + 1, [c]))
  {
    InsertAfterKeeps(s, pages, k, y, c);
  }

  lemma HoldsUnlink<T>(s: Store<T>, pages: seq<nat>, left: nat, right: nat, cs: seq<seq<T>>, k: nat)
    requires Holds(s, pages, left, right, cs) && k < |pages|
    ensures pages[k] in s && |cs| == |pages|
    ensures |pages| > 1 ==>
      Holds(Unlinked(s, pages[k]), PageRemoved(pages, k), if k == 0 then s[pages[k]].right else left,
            if k + 1 == |pages| then s[pages[k]].left else right, Splice(cs, k, k + 1, []))
    ensures |pages| == 1 ==> Unlinked(s, pages[k]) == map[]
  {
    NodeAt(s, pages, left, right, cs, k);
    UnlinkedKeeps(s, pages, k);
  }
}
