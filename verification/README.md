# rlite storage engine: a verified model

rlite is an embedded database with the data types of Redis. This project models
the parts of it that keep data right: the paged B-tree, the skiplist with spans,
the unrolled list and the strings stored in it, the pager with its free-page
chain, the write-ahead log, and three byte-level codes (LZF, HyperLogLog
registers, streaming SHA-1), together with the partial quicksort.

Each of these is a fast, mutable form of a simple object: a finite map, an
ordered sequence, a byte string, a vector of registers, a sorted range. The
code is modelled in the form it has: objects whose fields are updated are
classes, buffers edited in place are arrays, loops are loops with invariants.
Every operation is proved against the simple object it stands for, and what the
object promises is proved as lemmas about that specification.

The main results:

- **B-tree.** `Add` and `RemoveElement` turn the entries of the tree into exactly
  the old entries with one added or taken out, and keep keys strictly ordered,
  all leaves at one depth equal to the height, every node but the root between
  half full and full, and the count exact; so the height stays between the
  logarithms of the count to the bases max + 1 and max / 2 + 1 (`HeightBounds`).
  Over every run of operations the entries are those of a finite map (`Perform`).
  The iterator lists them once each, in order.
- **Skiplist.** Adding on any number of levels and removing keep every level a
  sub-chain of the one below, every span the distance it skips, and left links
  and tail the reverse of level 0. After every run of them the list holds what is
  left of a bag of elements, by score and, where scores are equal, in the order of
  the bytes of their values, which determines it. Select by spans finds the k-th
  element; rank of a stored element gives its position back exactly when the next
  element is not equal to it.
- **LZF.** For every content of the uninitialised hash table, what the
  compressor writes decodes to its input. Its length is at most that of the input
  and one byte for every 32 begun, which is reached, so that the lengths for which
  the documented bound of 104% holds are known exactly. Of equal bytes it leaves
  three in 264, and a constant.
- **HyperLogLog.** An element raises the register that the low 14 bits of its hash
  name to one more than the zeros that follow them, and no other, whether the
  object is packed or its code is split, merged or promoted; merging gives the
  pointwise maximum whatever the order and form of the inputs.
- **Pager.** Reads see what was last written; commit makes that the stored pages
  and discard goes back. After every run of calls, the pages given out and not
  freed, by the answers alone, are those off the free chain; no live page is given
  out again, and what was written to live pages is there.
- **Write-ahead log.** After a crash at any step of a commit or of a recovery,
  recovery leaves the old bytes of the file or the new ones, if the commit wrote
  the header or nothing at all, and only then, whatever the file holds
  (`ExactlyWithHeader`). A log cut short is taken for a complete one exactly if
  what it has of the records collides with all of them in SHA-1
  (`NoPrefixIsTaken`), and records altered to another digest are refused. For the
  pager: a transaction that wrote the header, as writing the first free page does,
  is all or nothing (`CommitToDisk`).
- **Unrolled list and strings.** Both refine plain sequences; comparing a stored
  string is unsigned lexicographic order. Writing at an offset is known for every
  text and every offset, and exactly when it is what it should be.
- **SHA-1.** Any way of cutting a message gives the digest of the whole, with the
  padding of section 5.1.1 of FIPS 180-4.
- **Partial quicksort.** Whatever partitions are skipped, the wanted positions
  hold what a full sort would put there.

## Files

| files | what they model |
|---|---|
| SortedEntries, BTreeStore, BTreePath, BTreeSteps, BTreeRemoval, BTree, BTreeShape, BTreeIterator | src/rlite/src/page_btree.c |
| Lex, RankedElements, SkipChain, SkipStore, SkipList, SkipRuns, SkipWalks | src/rlite/src/page_skiplist.c |
| Chunks, ListStore, UnrolledList | src/rlite/src/page_list.c |
| PaddedText, MultiString, SetRange | src/rlite/src/page_multi_string.c |
| PageCache, Pager, PagerRuns | src/rlite/src/rlite.c |
| WalFormat, WalCrash, WalHeader, Wal | src/rlite/src/wal.c |
| PagerLog | src/rlite/src/wal.c, src/rlite/src/rlite.c |
| HllDense, HllSparse, HyperLogLog | src/rlite/src/hyperloglog.c |
| Lzf | src/rlite/src/lzf_c.c, src/rlite/src/lzf_d.c |
| PqSort | src/rlite/src/pqsort.c |
| Sha1 | src/rlite/src/sha1.c |
| Bytes, BitWords, PageNumbers, Wrappers | shared helpers |

`dafny verify dfyconfig.toml` checks the whole project.

## Where the code is not what it promises

- src/rlite/src/rlite/lzf.h:56-58 promises compressed output under 104% of the
  input. A result for `n` bytes has at most `n + (n + 31) / 32` of them
  (`Lzf.Compress`), and has exactly that many if no three consecutive bytes of the
  input recur; `Lzf.BreakPromise` compresses such an input of any length for which
  that is too long. So the promise holds if and only if
  `25 * ((n + 31) / 32) < n`: for 26 to 32, 51 to 64, 76 to 96 and more than 100
  bytes.
- A log is meant to make a commit all or nothing, but recovery starts with the page
  size of a header, 200 bytes (src/rlite/src/rlite.c:438-448), and learns the real
  one only from a record of page 0. `WalHeader.ExactlyWithHeader`, for every file:
  all commits of given pages of it survive every crash that finds their log complete
  if and only if there are no pages, or page 0 is among them, or pages have 200
  bytes. `WalHeader.WithoutHeader` gives, for any file, with a header or without,
  and any other set of pages, a transaction that recovery from its complete log
  neither undoes nor completes. `rl_write` writes the header only when it is given
  the first free page or the header itself (src/rlite/src/rlite.c:757-770), so a
  transaction that only overwrites or frees pages is not protected.
- Rank and select are inverse only up to repeated elements:
  `SkipList.RankAgain` gives the exact condition on any list and
  `SkipList.RankOfRepeated` builds one of two equal elements on which it fails.
- src/rlite/src/page_multi_string.c:18-23 clamps a stop before the first byte to the
  first byte. No documentation of the repository says what such a range is;
  as the bytes between two positions it should be empty.
  `MultiString.RangeIsIdeal` says exactly when the two agree, and
  `MultiString.RangeBeforeStart` gives the input on which they do not.
- Writing at an offset into a string (src/rlite/src/page_multi_string.c:408-478)
  takes a place within a page for the length of the text, unless the text is
  shorter than a page. `SetRange.ResultIsIdeal`: what it leaves is the text with the
  data at the offset, if and only if it is not the case that the text fills a page
  or more but not all of its last one, and the data starts within the text and ends
  behind it. Then the bytes that went into the rest of the last page are followed by
  as many zeros; `SetRange.HundredZeros` gives such a text.
- src/rlite/src/page_btree.c:235-237 corrects a position the search has just
  found. The correction never applies: `BTree.SearchNode`, which does without
  it, always ends at the insertion point.

## Model

| member | source | states |
|---|---|---|
| SortedEntries.InsertIsMapUpdate | src/rlite/src/page_btree.c:291-450 | adding an absent key keeps strict key order, adds one entry, and adds exactly that binding to the map the entries denote |
| SortedEntries.RemoveIsMapRemoval | src/rlite/src/page_btree.c:489-734 | removing a key keeps strict key order and drops exactly its binding; the number of entries falls by one exactly when the key was there |
| SortedEntries.RunIsMapRun | src/rlite/src/page_btree.c:291-734 | after every run of insertions and removals the sorted list has the bindings of the map the same run makes of an empty map, and as many |
| SortedEntries.WeaveExpand | src/rlite/src/page_btree.c:348-402 | replacing a child by two children and a separator that together spell what it spelt leaves the in-order entries of the node as they were |
| BTreeStore.LocalChange | src/rlite/src/page_btree.c:602-651 | rewriting a node and its children so that the node spells the same entries changes nothing in what the whole tree spells |
| BTreeStore.SplitSpells | src/rlite/src/page_btree.c:335-402 | the two halves with the median between them spell, in order, what the split node spelt |
| BTreeStore.MergeKeepsFlat | src/rlite/src/page_btree.c:656-712 | merging two neighbours around their separator does not change the entries of the tree |
| BTreeStore.LowerRoot | src/rlite/src/page_btree.c:573-579 | a root without entries has one child, and that child is the root of a sound tree, one level lower, with the same entries |
| BTreePath.AddAlongPath | src/rlite/src/page_btree.c:303-334 | adding an entry at its gap in the leaf the search reached adds it, in order, to what every node on the search path spells |
| BTreePath.RemoveAlongPath | src/rlite/src/page_btree.c:499-563 | taking an entry out of what one node on the search path spells takes it out of what every node above spells |
| BTreePath.DropAlongEdge | src/rlite/src/page_btree.c:519-541 | taking the last entry of the leaf at the end of the right edge takes the last entry of the subtree, which is the predecessor wanted |
| BTreeSteps.SplitStep | src/rlite/src/page_btree.c:335-402 | splitting an overfull node keeps the tree sound and its entries, and only the parent may now be overfull |
| BTreeSteps.SplitRootStep | src/rlite/src/page_btree.c:404-437 | splitting an overfull root under a new root keeps the entries, raises the height by one and keeps all leaves at one depth |
| BTreeSteps.PendingUp | src/rlite/src/page_btree.c:335-402 | once the halves are stored, giving the median to the parent is still what makes the tree spell the wanted entries |
| BTreeRemoval.RemoveFromLeaf | src/rlite/src/page_btree.c:545-549 | closing the gap in the leaf removes exactly the searched key from the entries of the tree |
| BTreeRemoval.RemoveFromInner | src/rlite/src/page_btree.c:518-542 | overwriting an inner entry by its predecessor, which leaves its leaf, removes exactly the searched key from the entries of the tree |
| BTreeRemoval.MergeStep | src/rlite/src/page_btree.c:656-712 | after a merge only the parent on the path may be one entry short |
| BTreeRemoval.RedealStep | src/rlite/src/page_btree.c:602-651 | dealing the entries of two neighbours out again through their separator keeps the entries, the depth and all parents right, and ends the shortage |
| BTree.SearchNode | src/rlite/src/page_btree.c:195-237 | halving ends at the key or, if it is absent, at the only place before which all keys are smaller and from which all are larger |
| BTree.InsertIntoNode | src/rlite/src/page_btree.c:315-329 | entries before the place stay, the new one stands there, later ones move by one, and in an inner node the children likewise with the new page right of the entry; at the gap of its key the entries stay in order |
| BTree.SplitNode | src/rlite/src/page_btree.c:335-394 | in all three positions of the new entry the two halves and the median are the overfull node cut in the middle, entries and children, each half exactly half full |
| BTree.ShiftRight | src/rlite/src/page_btree.c:606-623 | moves one entry from the left neighbour through the parent, and in inner nodes its last child with it |
| BTree.ShiftLeft | src/rlite/src/page_btree.c:631-649 | moves one entry from the right neighbour through the parent, and in inner nodes its first child with it |
| BTree.BTree.constructor | src/rlite/src/page_btree.c:140-172 | a new tree is sound and empty |
| BTree.BTree.FindScore | src/rlite/src/page_btree.c:180-248 | finds a key exactly when the tree holds it, at an entry with that key and value; otherwise every position on the path to the leaf is the insertion point of the key |
| BTree.BTree.TakeIn | src/rlite/src/page_btree.c:307-402 | one level of the insertion either ends it with the wanted entries in a sound tree, or leaves the median and the new page pending one level up |
| BTree.BTree.GrowRoot | src/rlite/src/page_btree.c:404-437 | a new root over the two halves of the old one completes the insertion |
| BTree.BTree.Ascend | src/rlite/src/page_btree.c:306-437 | splits cascading any number of levels up, to a new root at most, end in a sound tree with the wanted entries |
| BTree.BTree.Place | src/rlite/src/page_btree.c:306-437 | an entry put where the search for its absent key ended is inserted in order into the entries of the tree, which stays sound |
| BTree.BTree.Add | src/rlite/src/page_btree.c:291-450 | adds the entry exactly when the key is absent; order, depth, occupancy and count stay right |
| BTree.BTree.Descend | src/rlite/src/page_btree.c:519-528 | extends the path from an inner entry down the right edge of its left subtree to a leaf |
| BTree.BTree.TakeFromInner | src/rlite/src/page_btree.c:518-543 | replaces an inner entry by its predecessor; the tree then spells its entries without the key, and only the leaf may be one short |
| BTree.BTree.TakeOut | src/rlite/src/page_btree.c:503-563 | takes the found entry out of a leaf or an inner node; only the leaf at the end of the path may be one short |
| BTree.BTree.BorrowLeft | src/rlite/src/page_btree.c:602-626 | borrowing from the left neighbour keeps the entries and ends with every node large enough |
| BTree.BTree.BorrowRight | src/rlite/src/page_btree.c:627-652 | borrowing from the right neighbour keeps the entries and ends with every node large enough |
| BTree.BTree.MergeNeighbours | src/rlite/src/page_btree.c:656-712 | merging keeps the entries and moves the shortage to the parent |
| BTree.BTree.PutRight | src/rlite/src/page_btree.c:586-718 | a short node is put right by a neighbour, or the shortage moves up; the branch without a neighbour is never reached |
| BTree.BTree.SettleRoot | src/rlite/src/page_btree.c:573-585 | an empty root gives way to its only child, keeping the entries, or leaves the empty tree |
| BTree.BTree.Rebalance | src/rlite/src/page_btree.c:565-719 | shortages climbing to the root end in a sound tree with the same entries |
| BTree.BTree.RemoveElement | src/rlite/src/page_btree.c:489-734 | removes exactly the entry of a present key, reports an absent one without a change, and reports the removal of the last entry |
| BTree.Perform | src/rlite/src/page_btree.c:291-734 | any run of changes performed on a tree, a new one taking the place of one whose last entry went, leaves the entries and the count of the finite map after the same run |
| BTreeShape.HeightBounds | src/rlite/src/page_btree.c:291-734 | a tree of height h has at most (max + 1)^h - 1 entries and, if any, at least 2 (max / 2 + 1)^(h - 1) - 1: insertion and removal keep every node but the root between half full and full, and all leaves equally deep |
| BTreeIterator.BTreeIterator.constructor | src/rlite/src/page_btree.c:1305-1339 | the iterator has all entries of a non-empty tree still to give |
| BTreeIterator.BTreeIterator.GoDown | src/rlite/src/page_btree.c:1325-1329 | going down first children puts the whole subtree in front of what is left |
| BTreeIterator.BTreeIterator.IntoChild | src/rlite/src/page_btree.c:1364-1372 | stepping past an inner entry hands out that entry and leaves exactly the rest |
| BTreeIterator.BTreeIterator.AlongLeaf | src/rlite/src/page_btree.c:1373-1389 | stepping past a leaf entry, and off finished frames, hands out that entry and leaves exactly the rest |
| BTreeIterator.BTreeIterator.Next | src/rlite/src/page_btree.c:1341-1396 | gives the first remaining entry and keeps the others, until none is left |
| BTreeIterator.ListAll | src/rlite/src/page_btree.c:1305-1396 | iterating terminates and yields every entry once, in strictly increasing key order |
| RankedElements.CutSplits | src/rlite/src/page_skiplist.c:181-209 | in an ordered list the elements a search passes are exactly those before one place |
| RankedElements.InsertedInOrder | src/rlite/src/page_skiplist.c:220-279 | an element put after those not greater keeps the order by score, then value |
| RankedElements.CutFinds | src/rlite/src/page_skiplist.c:362-372 | an element is stored exactly when the first one not smaller is equal to it |
| RankedElements.CompareIsLess | src/rlite/src/page_skiplist.c:182-199 | the comparison is of scores first and, where they are equal, of the values byte by byte |
| RankedElements.OrderedIsInOrder | src/rlite/src/page_skiplist.c:182-199 | in order by comparison is, both ways, in order of scores and, where they are equal, of bytes |
| RankedElements.CutByLess | src/rlite/src/page_skiplist.c:182-208 | in an ordered list the cuts are behind exactly the elements less than the one given, and behind exactly those not greater |
| RankedElements.OrderedByBag | src/rlite/src/page_skiplist.c:220-279 | an ordered sequence of elements is determined by what is in it |
| SkipStore.LinkedWith | src/rlite/src/page_skiplist.c:247-260 | with the links before the gap cut or lengthened, every level chains its nodes again, every span the distance it skips |
| SkipStore.LinkedWithout | src/rlite/src/page_skiplist.c:375-384 | with the links to the node joined and those over it shortened, every level chains the remaining nodes, every span the distance it skips |
| SkipStore.PutBackLinks | src/rlite/src/page_skiplist.c:262-273 | left links are the reverse of level 0 after an insertion |
| SkipStore.PassOverLinks | src/rlite/src/page_skiplist.c:386-398 | left links are the reverse of level 0 after a removal |
| SkipList.SkipList.constructor | src/rlite/src/page_skiplist.c:33-50 | a list with only its index node is sound and empty |
| SkipList.SkipList.WalkLevel | src/rlite/src/page_skiplist.c:181-209 | ends at the last node of the level that the search passes, the spans adding up to its distance |
| SkipList.SearchStep | src/rlite/src/page_skiplist.c:182-208 | a link is followed exactly when it leads to an element still passed, and then stays before the place searched for; otherwise no node of the level lies between |
| SkipList.SkipList.Search | src/rlite/src/page_skiplist.c:158-218 | going down level by level, each from where the one above ended, ends at the place of the element with the last node before it on every level |
| SkipList.SkipList.GetUpdate | src/rlite/src/page_skiplist.c:158-218 | gives for every level the last node before the place of the element, and its rank; on level 0 the rank is that place |
| SkipList.SkipList.Raise | src/rlite/src/page_skiplist.c:234-243 | on new levels the index node spans the whole list |
| SkipList.SkipList.LinkIn | src/rlite/src/page_skiplist.c:244-260 | links the node in on its own levels and lengthens the links over it |
| SkipList.SkipList.Settle | src/rlite/src/page_skiplist.c:262-275 | left links, tail and size fit the list with the element placed after those not greater |
| SkipList.SkipList.Add | src/rlite/src/page_skiplist.c:220-279 | for any height from 1 to 32 the list is the old one with the element behind all that are not greater, by score and then byte by byte, and all links, spans, left links and the tail are right |
| SkipList.SkipList.MendLinks | src/rlite/src/page_skiplist.c:374-384 | links to the node take over its links, links over it become one shorter, on every level |
| SkipList.SkipList.Unlink | src/rlite/src/page_skiplist.c:374-398 | the list is sound again without the node |
| SkipList.SkipList.Lower | src/rlite/src/page_skiplist.c:402-404 | only levels on which the index node leads nowhere are dropped |
| SkipList.SkipList.Remove | src/rlite/src/page_skiplist.c:353-416 | removes the first of the elements equal to the one given, exactly when there is one, and nothing else; the rest stays in order of scores and bytes |
| SkipRuns.Perform | src/rlite/src/page_skiplist.c:220-416 | any run of additions on any numbers of levels and removals of elements that are there, a new list taking the place of one whose last element went, leaves the only sequence, by score and then byte by byte, of what the same run leaves of a bag |
| SkipList.SkipList.Jump | src/rlite/src/page_skiplist.c:638-646 | follows a level as far as it goes without passing the position wanted |
| SkipList.SkipList.NodeByRank | src/rlite/src/page_skiplist.c:620-662 | finds the k-th element by its spans, for rank -1 the index node with page number 0, and nothing outside the list |
| SkipList.SkipList.StaysOn | src/rlite/src/page_skiplist.c:292-324 | the comparisons after the search decide as the mode of the range asks |
| SkipList.SkipList.FirstNode | src/rlite/src/page_skiplist.c:288-351 | gives the node and rank each of the four range modes asks for: exactly the elements less than the one given, or exactly those not greater, by score and then byte by byte, stand up to the rank or before it |
| SkipList.RankOfSelected | src/rlite/src/page_skiplist.c:288-351 | the place of the first element not passed inclusively is k if and only if the element after the k-th is not equal to it |
| SkipList.RankAgain | src/rlite/src/page_skiplist.c:288-351 | the inclusive rank of the element found at position k of a list is k again if and only if the next element is not equal to it |
| SkipList.RankOfRepeated | src/rlite/src/page_skiplist.c:288-351 | adding an element twice, on any numbers of levels, makes a list in which the rank of the first one is not found again |
| SkipWalks.LevelIsSubchain | src/rlite/src/page_skiplist.c:472-557 | following one level visits exactly the nodes on it, in level-0 order, and its spans sum to the size |
| SkipWalks.LeftIsReverse | src/rlite/src/page_skiplist.c:472-557 | following left links from an element visits all elements before it, backwards, and stops |
| Lex.LexTransitive | src/rlite/src/page_multi_string.c:148-159 | unsigned lexicographic comparison is transitive, and equality of the ends forces equality between |
| Lex.LexIsByteOrder | src/rlite/src/page_multi_string.c:148-159 | one string comes before another if and only if up to some place they are alike and there it ends or has the smaller byte; they compare equal only if they are |
| Lzf.Decompress | src/rlite/src/lzf_d.c:55-149 | runs a code into a fixed buffer with exactly the bytes, or the error, that the code means |
| Lzf.RunLiteral | src/rlite/src/lzf_d.c:68-93 | one literal run, with its checks for room and for the end of the code in that order |
| Lzf.RunReference | src/rlite/src/lzf_d.c:94-144 | one back reference of two or three bytes, with its checks in order |
| Lzf.CopyReference | src/rlite/src/lzf_d.c:133-143 | copying forwards byte by byte repeats what it has itself written, also when the stretches overlap |
| Lzf.DecodePrefix | src/rlite/src/lzf_d.c:64-146 | a code followed by another means what the second means after the first |
| Lzf.CopyBackRepeats | src/rlite/src/lzf_c.c:179-209 | copying back over a stretch that repeats with the distance of the reference reproduces it |
| Lzf.RoomMatters | src/rlite/src/lzf_d.c:72-125 | a code that decodes at all decodes alike into every buffer that holds the result, and fails as too big in every other |
| Lzf.StepMeans | src/rlite/src/lzf_d.c:64-130 | what every instruction means: lengths and distances by the bits of its bytes, and when it is cut off |
| Lzf.MatchLength | src/rlite/src/lzf_c.c:168-209 | the two stretches agree over the length found, by the unrolled and the plain loop alike, and it ends where they differ, at 264, or within two bytes of the end |
| Lzf.FindMatch | src/rlite/src/lzf_c.c:147-166 | whatever the slot held, there is a match if and only if it names a place in the input behind its first byte, at most 8192 back, that agrees in three bytes, with two more behind them; the slot then names this place |
| Lzf.NoWrap | src/rlite/src/lzf_c.c:126-155 | a pointer difference that is small modulo 2^64 is the true difference |
| Lzf.HashBits | src/rlite/src/lzf_c.c:48-53 | the hash is of the last bytes shifted in, and its slot is the upper part less five times the whole |
| Lzf.CloseRun | src/rlite/src/lzf_c.c:173-174 | the back-patched header makes the code mean the input so far; an empty run is taken back |
| Lzf.AddLiteral | src/rlite/src/lzf_c.c:261-273 | a literal byte extends the run, which is closed at 32 |
| Lzf.AddBack | src/rlite/src/lzf_c.c:211-227 | a back reference makes the code mean the input up to the end of the match |
| Lzf.AddMatch | src/rlite/src/lzf_c.c:167-230 | after a match the output so far decodes to the input so far; it fails only when room is short |
| Lzf.Finish | src/rlite/src/lzf_c.c:276-293 | the last literals complete a code for the whole input, within the tight bound |
| Lzf.Compress | src/rlite/src/lzf_c.c:98-294 | for every content of the table a non-empty result decodes to the input, fits the output, has at most n + (n + 31) / 32 bytes and exactly so many if no three bytes recur, is under 104% whenever 25 * ((n + 31) / 32) < n, and is there whenever the output has n + n/32 + 4; n equal bytes come out at no more than n / 88 + 14, and do whenever the output has these |
| Lzf.RoundTrip | src/rlite/src/lzf_d.c:55-149 | decompressing what was compressed gives back the input in every buffer that holds it |
| Lzf.RisingHasNoMatch | src/rlite/src/lzf_c.c:147-166 | in the bytes 0, 1, 2, ... up to 100 of them no three consecutive ones recur |
| Lzf.BreakPromise | src/rlite/src/lzf_c.c:98-294 | for every length at which 25 * ((n + 31) / 32) >= n there is an input that comes out at 104% or more, whatever the table holds |
| PqSort.Med3IsMedian | src/rlite/src/pqsort.c:88-96 | the element chosen is not larger than two of the three and not smaller than two of them |
| PqSort.PivotBetween | src/rlite/src/pqsort.c:114-124 | among eight or more elements another one is no larger than the pivot and another one no smaller |
| PqSort.InsertionSort | src/rlite/src/pqsort.c:107-113 | sorts a short stretch and leaves the rest alone |
| PqSort.SplitZones | src/rlite/src/pqsort.c:126-150 | the four pointers end with equal elements at both ends, smaller ones left and larger ones right |
| PqSort.VecSwap | src/rlite/src/pqsort.c:69-84 | exchanges two disjoint blocks, element by element, and nothing else |
| PqSort.Partition | src/rlite/src/pqsort.c:126-156 | smaller, equal and larger elements stand in that order |
| PqSort.SortRange | src/rlite/src/pqsort.c:98-177 | permutes the stretch and orders every pair of positions of which one is wanted |
| PqSort.PqSort | src/rlite/src/pqsort.c:179-185 | permutes the array; positions l to r are sorted, nothing before them is greater and nothing after them smaller |
| PqSort.PartialAgreesWithFull | src/rlite/src/pqsort.c:98-185 | every wanted position holds an element that compares equal to what any full sort puts there |
| Sha1.FoldAppend | src/rlite/src/sha1.c:141-149 | folding the transform over full blocks can be cut at any block |
| Sha1.CountStep | src/rlite/src/sha1.c:136-139 | the two-word count with its carry is the length in bits modulo 2^64 |
| Sha1.PaddingFits | src/rlite/src/sha1.c:184-190 | the padding fills the last block and is the shortest that does |
| Sha1.ShortDigest | src/rlite/src/sha1.c:118-198 | the digest of a message of up to 55 bytes: the message, a one bit, zeros and its length in bits, compressed into the initial state of section 5.3.1 of FIPS 180-4, word by word |
| Sha1.PaddingInjective | src/rlite/src/sha1.c:184-190 | different messages under 2^61 bytes stay different when padded |
| Sha1.Context.constructor | src/rlite/src/sha1.c:118-127 | a new context has hashed the empty message |
| Sha1.Context.Count | src/rlite/src/sha1.c:136-139 | adds a chunk to the count modulo 2^64 |
| Sha1.Context.FullBlocks | src/rlite/src/sha1.c:141-149 | completes the buffer from the data and folds it and every further full block, so that less than a block is left |
| Sha1.Context.Update | src/rlite/src/sha1.c:132-151 | state, buffer and count become those of the message so far and the chunk, wherever the message was cut |
| Sha1.Context.PadOut | src/rlite/src/sha1.c:184-189 | processes a one bit and exactly the zeros section 5.1.1 of FIPS 180-4 asks for |
| Sha1.Context.Final | src/rlite/src/sha1.c:156-198 | gives the digest of the padded message and wipes the context |
| Sha1.HashChunks | src/rlite/src/wal.c:134-152 | hashing any chunks one after the other is hashing their concatenation |
| Chunks.InsertPair | src/rlite/src/page_list.c:284-319 | refilling two neighbours with one element more is inserting into the whole, and keeps the occupancy |
| Chunks.InsertSplit | src/rlite/src/page_list.c:321-346 | a new chunk of one element behind a full one is allowed only beside full neighbours, which is when it is made |
| Chunks.RemoveMerge | src/rlite/src/page_list.c:395-445 | joining two neighbours that fit once an element is gone is removing it from the whole, and keeps the occupancy |
| Chunks.FewChunks | src/rlite/src/page_list.c:260-460 | the occupancy kept means that n elements are in at most 2 n / max + 1 nodes, of which none is empty unless it is the only one |
| UnrolledList.UnrolledList.constructor | src/rlite/src/page_list.c:126-148 | a list of one empty node holds nothing |
| UnrolledList.UnrolledList.Find | src/rlite/src/page_list.c:195-247 | resolves a position counted from either end, refuses one outside, and finds the node that holds it and where that node starts |
| UnrolledList.UnrolledList.Get | src/rlite/src/page_list.c:249-258 | gives the element at a position from the start, for -1 - k the one k before the last, and nothing outside |
| UnrolledList.UnrolledList.AddLeft | src/rlite/src/page_list.c:280-299 | handing an element to the left neighbour inserts into the sequence |
| UnrolledList.UnrolledList.AddRight | src/rlite/src/page_list.c:300-346 | handing one to the right neighbour, or to a new node, inserts into the sequence |
| UnrolledList.UnrolledList.Add | src/rlite/src/page_list.c:260-356 | the new element is at the position given, or for -1 - k has k elements behind it, and all others are as they were; keeps links, occupancy and any two adjacent nodes summing to at least the node size |
| UnrolledList.UnrolledList.RemoveFrom | src/rlite/src/page_list.c:394-447 | removes from a node that keeps elements, merging left or right where both fit |
| UnrolledList.UnrolledList.RemoveLast | src/rlite/src/page_list.c:373-393 | removes the only element of a node and the node, repairing links and ends |
| UnrolledList.UnrolledList.Remove | src/rlite/src/page_list.c:358-460 | takes out the element at a position from either end and no other, reports one outside, and reports the removal of the last element |
| PaddedText.PaddedDiffers | src/rlite/src/page_multi_string.c:140-159 | a difference found with zero padding is a difference without it |
| PaddedText.LengthSettles | src/rlite/src/page_multi_string.c:160-162 | when all bytes agree the stored length tells real zeros from padding |
| MultiString.MultiString.constructor | src/rlite/src/page_multi_string.c:392-407 | a new string stores its data |
| MultiString.MultiString.AppendPages | src/rlite/src/page_multi_string.c:178-201 | data on new zero-padded pages extends the text |
| MultiString.MultiString.SetLength | src/rlite/src/page_multi_string.c:215-220 | putting the new length in front and taking the old one out replaces it |
| MultiString.MultiString.FillLast | src/rlite/src/page_multi_string.c:225-239 | fills what the last page has left and nothing else |
| MultiString.MultiString.Append | src/rlite/src/page_multi_string.c:203-248 | the text is the exact concatenation |
| MultiString.MultiString.GetRange | src/rlite/src/page_multi_string.c:311-380 | reads back exactly the bytes of a range of the text, counted from either end |
| MultiString.RangeIsIdeal | src/rlite/src/page_multi_string.c:10-31 | the clamped range is the bytes between the two positions except exactly when the stop lies before a text that is not empty and the start is, or is clamped to, its first byte; then it is that byte instead of nothing |
| MultiString.RangeBeforeStart | src/rlite/src/page_multi_string.c:18-23 | from 0 to one before the first byte the range is the first byte instead of nothing |
| MultiString.MultiString.CompareNode | src/rlite/src/page_multi_string.c:132-166 | what the pages one list node names settle about the comparison |
| MultiString.MultiString.CompareTo | src/rlite/src/page_multi_string.c:111-176 | is 0 only for the text itself, and else -1 or 1 as text or argument comes first: where they first differ, by the smaller byte or by ending |
| SetRange.Extend | src/rlite/src/page_multi_string.c:429-438 | the stored length may grow over the padding of the last page, which becomes text |
| SetRange.OverPage | src/rlite/src/page_multi_string.c:441-449 | bytes written into a page are those bytes of the text, and no others change |
| SetRange.WritePages | src/rlite/src/page_multi_string.c:440-462 | as much of the data as the pages have room for is at the offset, all else as it was; the length reckoned with is the old one unless the text is shorter than a page |
| SetRange.Write | src/rlite/src/page_multi_string.c:408-478 | at every offset and for every text and data the text is the one described, the length reported is that of the text, and a negative offset is refused |
| SetRange.ResultIsIdeal | src/rlite/src/page_multi_string.c:451-474 | the text with the data at the offset, a gap filled with zeros, except exactly when the text fills a page or more but not its last one, and the data starts within it and ends behind it |
| SetRange.HundredZeros | src/rlite/src/page_multi_string.c:451-471 | 200 bytes written at 1400 into any 1500 bytes on pages of 1024 are followed by a hundred zeros |
| PageCache.SearchCache | src/rlite/src/rlite.c:490-574 | finds a page number in a sorted cache, or the place to put it |
| PageCache.PutInMap | src/rlite/src/rlite.c:800-812 | inserting at that place keeps the cache sorted and adds exactly that page |
| PageCache.DropInMap | src/rlite/src/rlite.c:813-825 | dropping an entry keeps the cache sorted and forgets exactly that page |
| Pager.ChainPopped | src/rlite/src/rlite.c:739-755 | the first free page leads to the rest of the chain and was not live |
| Pager.ChainPushed | src/rlite/src/rlite.c:856-863 | a freed live page leads to the old chain, which stays acyclic and ends at the number of pages |
| Pager.Pager.Read | src/rlite/src/rlite.c:585-737 | gives what was last written in the transaction, else the committed page, and changes no page |
| Pager.Pager.AllocPageNumber | src/rlite/src/rlite.c:739-755 | hands out a page that is not live, and makes it live |
| Pager.Pager.CacheWrite | src/rlite/src/rlite.c:771-826 | the write cache has the page, the read cache no longer, both stay sorted and disjoint |
| Pager.Pager.Write | src/rlite/src/rlite.c:757-831 | changes exactly that page of the view, allocating it if it is the first free one, which also makes the header dirty |
| Pager.Pager.WriteHeader | src/rlite/src/rlite.c:1283-1284 | makes the header dirty with the fields as they are, and changes no other page |
| Pager.Pager.Delete | src/rlite/src/rlite.c:856-863 | frees a live page: it heads the chain and its old content is gone |
| Pager.Pager.Commit | src/rlite/src/wal.c:252-273 | in memory, the view becomes the stored pages and the fields the committed ones |
| Pager.Pager.Discard | src/rlite/src/rlite.c:914-988 | view and fields are again the committed ones |
| PagerRuns.Take | src/rlite/src/rlite.c:739-988 | each call keeps the pager and the books of its caller in step |
| PagerRuns.Perform | src/rlite/src/rlite.c:490-988 | after any calls, the pages the answers gave out and did not take back, with commits and discards, are exactly the pages below the count that are off the chain; none was given out while live; reading a live page gives what was last written to it, and the committed content is in the store |
| PagerLog.DirtyIsLog | src/rlite/src/wal.c:141-151 | the dirty pages of any transaction make a log in page order, with the header first exactly if it is dirty |
| PagerLog.CommitOnDisk | src/rlite/src/wal.c:190-251 | writing the records of the dirty pages to a file that has the stored pages gives a file that has the pages of the view |
| PagerLog.CrashOldOrNew | src/rlite/src/wal.c:190-313 | wherever the commit of a transaction that wrote the header, or nothing, stops, and if no shorter stretch of its records has their digest, recovery finds a file with the pages from before it or with those of its view |
| PagerLog.CommitToDisk | src/rlite/src/rlite.c:899-912 | commits any transaction through the log: the file has the pages of the view and the pager goes on from there; if the header is dirty, or nothing, or pages have 200 bytes, and no shorter stretch of the records has their digest, every snapshot on the way is recovered to the old or the new pages |
| WalFormat.RecordAt | src/rlite/src/wal.c:141-151 | where record i of a log is and what it says |
| WalFormat.StoppedStays | src/rlite/src/wal.c:116-119 | a replay that met an unknown header writes no more |
| WalFormat.StepHeader | src/rlite/src/wal.c:116-120 | replaying the header record with a smaller page size writes its start and learns the real size |
| WalFormat.ReplayPuts | src/rlite/src/wal.c:77-121 | replaying a transaction from the real page size, or with its header from that of a header alone, writes exactly its pages, each at its offset |
| WalFormat.LogComplete | src/rlite/src/wal.c:127-160 | no step of such a replay reads past the end of the log |
| WalFormat.PassesIsSound | src/rlite/src/wal.c:50-68 | the check of recovery passes exactly the logs of 236 bytes or more with the identifier and, behind it, the digest of all that follows the first 32 |
| WalCrash.LogPasses | src/rlite/src/wal.c:50-68 | the complete log passes the check of recovery |
| WalCrash.NoPrefixIsTaken | src/rlite/src/wal.c:50-68 | no log cut short passes if and only if no shorter stretch of the records, with room for one, has the digest of them all |
| WalCrash.AlteredIsRefused | src/rlite/src/wal.c:59-67 | a log whose records were altered to others with another digest is refused, and the file stays as it is |
| WalCrash.OverTorn | src/rlite/src/wal.c:77-121 | replaying over any mixture of old, new and torn bytes in the pages of the transaction gives the new ones |
| WalCrash.PutTorn | src/rlite/src/wal.c:77-121 | every stage of writing the pages, by a commit or a recovery, touches only pages of the transaction and keeps what follows the header zero |
| WalCrash.RecoveryRepeats | src/rlite/src/wal.c:284-313 | a crash at any stage of a recovery is recovered from like the first |
| WalCrash.AllOrNothing | src/rlite/src/wal.c:190-313 | if no shorter stretch of its records has their digest, wherever a commit that wrote the header, or nothing, stops, recovery yields the old bytes of the file or the new ones |
| WalHeader.ExactlyWithHeader | src/rlite/src/wal.c:72-121 | on every file, all commits of given pages, in every state a crash can leave behind a complete log, are recovered to the old or the new bytes if and only if there are no pages, or page 0 is one, or pages have 200 bytes |
| WalHeader.WithoutHeader | src/rlite/src/rlite.c:438-448 | on every file and for every other set of pages there is a transaction whose complete log recovery replays to neither the old nor the new bytes |
| WalHeader.HeadlessReplay | src/rlite/src/wal.c:72-121 | without the header a replay goes through the log in steps of 204 bytes, whatever it says, and changes at most 200 bytes of the file in each |
| Wal.CreateWalData | src/rlite/src/wal.c:127-160 | builds identifier, digest, count and records by position, hashing page by page |
| Wal.Check | src/rlite/src/wal.c:50-68 | accepts exactly the logs of 236 bytes or more that start with the identifier and the digest of all behind byte 32 |
| Wal.Disk.ReplayAll | src/rlite/src/wal.c:77-121 | writes the pages of the log, every intermediate state a stage of the replay |
| Wal.Disk.ApplyWalData | src/rlite/src/wal.c:49-125 | replays a log that passes, or that is the program's own, and leaves the file alone otherwise |
| Wal.Disk.WriteApplyWal | src/rlite/src/wal.c:190-251 | for any transaction, and whatever log was there, leaves the new bytes and no log; every state on the way lies within the commit |
| Wal.Disk.ApplyWal | src/rlite/src/wal.c:284-313 | leaves what recovery means and no log; a log that is too short or has another identifier or digest leaves the file as it was |
| Wal.Disk.RecoverCommit | src/rlite/src/wal.c:284-313 | opening after a crash anywhere in a commit that wrote the header, or nothing, finds the old bytes or the new ones, if no shorter stretch of its records has their digest |
| HllDense.GetByMask | src/rlite/src/hyperloglog.c:340-348 | on every two bytes the shifts and mask of a register read give the register the model reads |
| HllDense.SetByMask | src/rlite/src/hyperloglog.c:352-362 | on every byte and value those of a write give the two bytes the model writes |
| HllDense.SetRegister | src/rlite/src/hyperloglog.c:340-362 | writing a packed register changes that register and none of the other 16383 |
| HllDense.FourRegisters | src/rlite/src/hyperloglog.c:340-348 | four registers are the 24 bits of their three bytes, low end first |
| HllSparse.OpcodeByMask | src/rlite/src/hyperloglog.c:366-378 | on every byte the masks tell apart and read the opcodes as the model does |
| HllSparse.ValueByMask | src/rlite/src/hyperloglog.c:379-381 | the mask that writes a VAL opcode gives the one the model writes, for every value and length |
| HllSparse.ExpandJoin | src/rlite/src/hyperloglog.c:599-619 | codes joined stand for their registers joined |
| HllSparse.CutAt | src/rlite/src/hyperloglog.c:660-692 | a code cut between opcodes stands for its registers cut there |
| HllSparse.Spliced | src/rlite/src/hyperloglog.c:820-835 | an opcode replaced by what stands for its run with one register raised raises that register only |
| HllSparse.SplitRun | src/rlite/src/hyperloglog.c:775-818 | in all splits of ZERO, XZERO and VAL the new opcodes stand for the old run with one register raised |
| HllSparse.FindOpcode | src/rlite/src/hyperloglog.c:660-692 | finds the opcode that covers a register, where its run starts, and the opcode before it |
| HllSparse.MergeTwo | src/rlite/src/hyperloglog.c:853-869 | joining two VAL opcodes of one value changes no register |
| HllSparse.MergeValues | src/rlite/src/hyperloglog.c:837-873 | the merge pass changes no register, and shortens the code if and only if one of five opcodes from its start and the next are values that fit into one |
| HyperLogLog.PatLen | src/rlite/src/hyperloglog.c:447-473 | the register number is the low 14 bits of the hash; the bits above start with as many zeros as the count less one, and then a one or the end of the 50 bits |
| HyperLogLog.CountOfZeros | src/rlite/src/hyperloglog.c:451-473 | the count is one more than a number of bits if and only if so many zeros, and then a one or the end of the 50 bits, follow those of the register number |
| HyperLogLog.IndexByMask | src/rlite/src/hyperloglog.c:463 | the register number is what the mask of 14 bits keeps of the last two bytes of the hash |
| HyperLogLog.DenseAdd | src/rlite/src/hyperloglog.c:488-501 | raises one register to at least the count, and returns 1 exactly when it grew |
| HyperLogLog.SparseToDense | src/rlite/src/hyperloglog.c:571-624 | unpacks a valid code into the same registers and refuses every other |
| HyperLogLog.Replacement | src/rlite/src/hyperloglog.c:731-818 | what replaces an opcode, or nothing exactly when its value is not smaller |
| HyperLogLog.SparseAdd | src/rlite/src/hyperloglog.c:642-894 | the registers of the code, even of one too short or too long in all, are the old ones with one raised, as a code or promoted: promoted for a value over 32, and a code for any other if four bytes more stay within 3000; only a code that is too short, or empty, is refused; returns 1 exactly when the register grew |
| HyperLogLog.Promote | src/rlite/src/hyperloglog.c:876-894 | the packed form of a valid code holds its registers with one raised; a code that is too short is refused |
| HyperLogLog.CreateObject | src/rlite/src/hyperloglog.c:1102-1132 | a new object is a valid code of 16384 zeros |
| HyperLogLog.AddElement | src/rlite/src/hyperloglog.c:1038-1047 | raises one register in either form |
| HyperLogLog.AfterAllIsMax | src/rlite/src/hyperloglog.c:1160-1193 | after any elements every register is the largest of what it was and what their hashes ask for |
| HyperLogLog.FirstElement | src/rlite/src/hyperloglog.c:447-473 | an element whose hash has the low 14 bits i, added to nothing, raises register i to one more than the zeros that follow them, and no other |
| HyperLogLog.PfAdd | src/rlite/src/hyperloglog.c:1160-1193 | refuses exactly what does not look like an object; adds elements to an object or a new one, returns 1 exactly when a register grew or the object is new, and then makes the cached cardinality stale |
| HyperLogLog.MergeInto | src/rlite/src/hyperloglog.c:1057-1096 | merges either form into the registers by maximum, and refuses an invalid code |
| HyperLogLog.MergeIndependent | src/rlite/src/hyperloglog.c:1285-1321 | the merge depends neither on the order nor on the form nor on repetition of its inputs |
| HyperLogLog.PfMerge | src/rlite/src/hyperloglog.c:1285-1321 | yields a packed object of 12304 bytes, its cached cardinality stale, whose registers are the pointwise maximum, or nothing exactly when an input is invalid |

## Left out

General:

- Allocation failure, pointer ownership, files, locks and buffering: storage is a map from page numbers to pages or, in the model of the log, a file of bytes, and each write takes effect in program order.
- The command layer, the R bindings, Lua scripting and the serialisation of nodes into bytes: a node or page is a value of its own type, and classes hold the nodes of their structure in a map from page number to node. In-place aliasing of cached page objects is therefore not captured.
- Which page number a new node gets: structures take any unused one, and the pager shows what it hands out.

B-tree:

- Scores and values are one sequence of entries per node instead of two arrays, and keys are integers; byte-string keys compare like integers of the same width.
- Pages freed by removal are dropped from the model's store, but that the source never frees the old root's page when the tree gets lower (src/rlite/src/page_btree.c:573-578) is not part of any claim: nothing is said about conservation of pages.
- `rl_btree_update_element` and `rl_btree_random_element`, which would add easy members only.

Skiplist:

- SkipList.SkipList.Remove: asks that some element is not smaller than the one to remove; otherwise the source goes on to read page 0 as a node.
- Scores are real numbers, values are byte strings held in the node instead of on pages of their own, and the height is a parameter instead of a random number.
- Range modes without a value, which the source uses with a null pointer: with repeated scores they walk past all equal scores.

LZF:

- Lzf.Compress: the output is a growing sequence, so that the source's writes past a short output buffer are not modelled; the table's slots are distances from the start of the input, any signed 64-bit number.
- Lzf.Decompress: asks for a code of at least one byte, because the source reads the first one before it looks at the length.
- The byte after a one-byte input, which the compressor reads into a hash it does not use.

Strings and lists:

- UnrolledList.UnrolledList.constructor: node sizes from 1 on; the source computes the size from the page size.
- Comparing two stored strings (`rl_multi_string_cmp`), which reads elements of the second list by the number of those of the first.

Pager:

- Any claim about the stored header after a transaction that only deletes: `rl_delete` does not write the header page (src/rlite/src/rlite.c:856-863), and neither does the model.
- Pager.Pager.Write: asks for a live page or the first free one; the header, which callers also write (src/rlite/src/rlite.c:453, src/rlite/src/rlite.c:1284), is written by `WriteHeader`.
- Pager.Pager.Read: asks for a page other than the header, which is read once, on opening, and then kept in the fields.
- Pager.Pager.Commit: writes the pages of a memory database; `PagerLog.CommitToDisk` adds the log and the file.
- Read-only databases.
- PagerLog.CommitToDisk: how pages become bytes is a parameter, asked only for pages of one size and for headers with the identifier, the size and nothing beyond 200 bytes, which has room for 44 databases.

Write-ahead log:

- WalCrash.AllOrNothing: rests on no shorter stretch of the records having their digest (a statement about SHA-1 that cannot be proved of it; `WalCrash.NoPrefixIsTaken` shows that no less will do), and on a header page that is zero from byte 200 on.
- Wal.Disk.RecoverCommit: logs of at most 2^32 - 64 bytes, page numbers and counts under 2^31; of commits without the header it promises nothing, for the reason `WalHeader.WithoutHeader` gives.
- The length of the file: bytes beyond its end read as zeros.
- Recovery in read-only mode into the read cache, and an empty log file that stays behind where allocating nothing gives a null pointer.

HyperLogLog:

- HyperLogLog.SparseAdd: asks for whole opcodes that cover the register, unless the code is empty or the count too large for a code, because otherwise the source reads past the code; and for a code that does not run past the last register where it might be promoted, because the source would write past its buffer.
- HyperLogLog.Promote: asks for whole opcodes that do not run past the last register, for the same reason.
- HyperLogLog.PfAdd: asks the same of its object.
- HyperLogLog.SparseToDense: asks for whole opcodes that do not run past the last register, because beyond it the source writes past its buffer; shorter codes are covered and refused.
- HyperLogLog.MergeInto: asks the same of what it merges.
- HyperLogLog.PfMerge: asks the same of its objects.
- The hash function, which is a parameter, and the estimation of the cardinality, which is floating point.
- That the byte after the last register, which the source reads and rewrites unchanged, may lie outside the string: it is part of the buffer here.

SHA-1:

- The rounds of the transform, which are a parameter.
- Sha1.Context.Update: chunks of at most 2^32 - 64 bytes, because the source adds up to 63 to the length in 32 bits.

Partial quicksort:

- Swapping by words or bytes according to alignment: elements are swapped as wholes.
