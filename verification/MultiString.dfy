// Strings in a list of pages: the list holds the length and then the numbers of
// the pages, each of them full but the last, which is padded with zeros.
module MultiString {
  import opened Bytes
  import opened Chunks
  import opened PageNumbers
  import opened Lex
  import opened ListStore
  import opened PaddedText
  import opened UnrolledList
  import opened Wrappers

  type Strings = map<nat, seq<byte>>

  /** The pages a list names after its first element. */
  ghost function PagesNamed(nums: seq<nat>, strings: Strings): (ps: seq<seq<byte>>)
    requires nums != []
    ensures |ps| == |nums| - 1
    ensures forall j :: 0 <= j < |ps| && nums[j + 1] in strings ==> ps[j] == strings[nums[j + 1]]
  {
    seq(|nums| - 1, j requires 0 <= j < |nums| - 1 => if nums[j + 1] in strings then strings[nums[j + 1]] else [])
  }

  ghost predicate Named(nums: seq<nat>, strings: Strings) {
    && nums != []
    && (forall j :: 1 <= j < |nums| ==> nums[j] in strings)
    && forall i, j :: 1 <= i < j < |nums| ==> nums[i] != nums[j]
  }

  /** The pages a list names hold `text`. */
  ghost predicate Holding(nums: seq<nat>, strings: Strings, pageSize: nat, text: seq<byte>) {
    Named(nums, strings) && Paged(PagesNamed(nums, strings), pageSize, text)
  }

  /** And none of them has room left. */
  ghost predicate NoRoom(nums: seq<nat>, strings: Strings, text: seq<byte>) {
    nums != [] && Flat(PagesNamed(nums, strings)) == text
  }

  /** The list and the pages it names hold `text`. */
  ghost predicate Stores(nums: seq<nat>, strings: Strings, pageSize: nat, text: seq<byte>) {
    Holding(nums, strings, pageSize, text) && nums[0] == |text|
  }

  /** A range as a caller gives it, negative positions counting from the end. */
  function NormalStart(total: nat, start: int): (r: nat)
    ensures r <= total
  {
    var s := if start < 0 then start + total else start;
    if s < 0 then 0 else if s >= total then total else s
  }

  function NormalStop(total: nat, stop: int): (r: int)
    ensures -1 <= r < total
  {
    var s := if stop < 0 then stop + total else stop;
    if total == 0 then -1 else if s < 0 then 0 else if s >= total then total - 1 else s
  }

  /** What a range of `text` is. */
  ghost function Range(text: seq<byte>, start: int, stop: int): seq<byte> {
    var s, e := NormalStart(|text|, start), NormalStop(|text|, stop);
    if e < s then [] else text[s..e + 1]
  }

  /** The bytes whose positions lie between the two, read plainly. */
  ghost function IdealRange(text: seq<byte>, start: int, stop: int): seq<byte> {
    var a := if start < 0 then start + |text| else start;
    var b := if stop < 0 then stop + |text| else stop;
    var from, to := if a < 0 then 0 else a, if b < |text| then b + 1 else |text|;
    if to <= from then [] else text[from..to]
  }

  /** A stop before the first byte is taken for the first byte: the two differ
      exactly when the start is, or is taken for, the first byte as well. */
  lemma RangeIsIdeal(text: seq<byte>, start: int, stop: int)
    ensures Range(text, start, stop) == IdealRange(text, start, stop)
      <==> !(text != [] && stop < -|text| && (start == 0 || start <= -|text|))
    ensures Range(text, start, stop) != IdealRange(text, start, stop) ==>
      text != [] && Range(text, start, stop) == [text[0]] && IdealRange(text, start, stop) == []
  {
    if text != [] && stop < -|text| && (start == 0 || start <= -|text|) {
      assert |Range(text, start, stop)| == 1 && IdealRange(text, start, stop) == [];
    }
  }

  /** The first byte of any text, where there should be none. */
  lemma RangeBeforeStart(text: seq<byte>)
    requires text != []
    ensures Range(text, 0, -|text| - 1) == [text[0]] != IdealRange(text, 0, -|text| - 1)
  {
    assert NormalStop(|text|, -|text| - 1) == 0;
  }

  // ---- One list operation at a time

  lemma OnePageMore(nums: seq<nat>, strings: Strings, size: nat, text: seq<byte>, y: nat, page: seq<byte>, n: nat)
    requires Holding(nums, strings, size, text) && NoRoom(nums, strings, text) && y !in strings
    requires |page| == size && 0 < n <= size && AllZero(page[n..])
    ensures Holding(nums + [y], strings[y := page], size, text + page[..n])
    ensures n == size ==> NoRoom(nums + [y], strings[y := page], text + page[..n])
  {
    var ps := PagesNamed(nums, strings);
    PageMore(ps, size, text, page, n);
    assert PagesNamed(nums + [y], strings[y := page]) == ps + [page];
  }

  lemma LastPageFilled(nums: seq<nat>, strings: Strings, size: nat, text: seq<byte>, data: seq<byte>)
    requires Holding(nums, strings, size, text) && |text| % size > 0 && |data| <= size - |text| % size
    ensures |nums| > 1 && nums[|nums| - 1] in strings && |strings[nums[|nums| - 1]]| == size
    ensures var r, was := |text| % size, strings[nums[|nums| - 1]];
      var t := strings[nums[|nums| - 1] := was[..r] + data + was[r + |data|..]];
      && Holding(nums, t, size, text + data)
      && (|data| == size - |text| % size ==> NoRoom(nums, t, text + data))
  {
    var ps := PagesNamed(nums, strings);
    RoomLeft(ps, size, text);
    var k := |ps| - 1;
    assert ps[k] == strings[nums[|nums| - 1]];
    var r, was := |text| % size, ps[k];
    var page := was[..r] + data + was[r + |data|..];
    PageFilled(ps, size, text, data, page);
    assert PagesNamed(nums, strings[nums[|nums| - 1] := page]) == ps[k := page];
  }

  lemma LengthReplaced(nums: seq<nat>, strings: Strings, size: nat, text: seq<byte>, len: nat)
    requires Holding(nums, strings, size, text)
    ensures RemoveAt(InsertAt(nums, 0, len), 1) == nums[0 := len]
    ensures Holding(nums[0 := len], strings, size, text)
    ensures NoRoom(nums, strings, text) ==> NoRoom(nums[0 := len], strings, text)
  {
    assert PagesNamed(nums[0 := len], strings) == PagesNamed(nums, strings);
  }

  class MultiString {
    const pageSize: nat
    const list: UnrolledList<nat>
    var strings: Strings
    ghost var text: seq<byte>

    ghost predicate Valid()
      reads this, list
    {
      list.Valid() && Stores(list.Contents(), strings, pageSize, text)
    }

    /** The list names `len`, the stored length, and then pages that hold the text. */
    ghost predicate Keeps(len: nat)
      reads this, list
    {
      && list.Valid() && Holding(list.Contents(), strings, pageSize, text)
      && list.Contents() != [] && list.Contents()[0] == len
    }

    /** And the last of them has no room left. */
    ghost predicate Full(len: nat)
      reads this, list
    {
      Keeps(len) && NoRoom(list.Contents(), strings, text)
    }

    /** Stores a new string: its length first, then its pages. */
    constructor (size: nat, maxNodeSize: nat, data: seq<byte>)
      requires size >= 1 && maxNodeSize >= 1
      ensures Valid() && text == data && pageSize == size && fresh(list)
    {
      pageSize, strings, text := size, map[], [];
      list := new UnrolledList<nat>(maxNodeSize, 1);
      new;
      var z := FreshPage(list.nodes.Keys);
      AtTheEnd([], |data|);
      var ok := list.Add(|data|, -1, z);
      assert list.Contents() == [|data|];
      assert PagesNamed(list.Contents(), strings) == [];
      AppendPages(data, |data|);
    }

    /** A new page at the end, with data and zeros. */
    method AddPage(data: seq<byte>, ghost len: nat)
      requires Full(len) && 0 < |data| <= pageSize
      modifies this`strings, this`text, list
      ensures Keeps(len) && (|data| == pageSize ==> Full(len)) && text == old(text) + data
    {
      var y := FreshPage(strings.Keys);
      var page := data + ZeroBytes(pageSize - |data|);
      OnePageMore(list.Contents(), strings, pageSize, text, y, page, |data|);
      assert page[..|data|] == data;
      hide Holding, NoRoom, UnrolledList.Valid;
      var z := FreshPage(list.nodes.Keys);
      AtTheEnd(list.Contents(), y);
      var ok := list.Add(y, -1, z);
      strings := strings[y := page];
      text := text + data;
    }

    /** Copies data into new pages behind full ones. */
    method AppendPages(data: seq<byte>, ghost len: nat)
      requires if data == [] then Keeps(len) else Full(len)
      modifies this`strings, this`text, list
      ensures Keeps(len) && text == old(text) + data
    {
      var pos := 0;
      ghost var was := text;
      assert pageSize >= 1 && Keeps(len);
      hide Keeps, Full, UnrolledList.Valid, UnrolledList.Contents;
      while pos < |data|
        invariant 0 <= pos <= |data| && text == was + data[..pos]
        invariant Keeps(len) && (pos < |data| ==> Full(len))
      {
        var toCopy := if pos + pageSize > |data| then |data| - pos else pageSize;
        AddPage(data[pos..pos + toCopy], len);
        JoinMore(was, data, pos, toCopy);
        pos := pos + toCopy;
      }
      assert data[..|data|] == data;
    }

    /** Replaces the stored length: the new one goes in front, the old one out. */
    method SetLength(len: nat)
      requires Valid()
      modifies list
      ensures list.Valid() && Holding(list.Contents(), strings, pageSize, text)
      ensures list.Contents() == old(list.Contents())[0 := len]
      ensures old(NoRoom(list.Contents(), strings, text)) ==> NoRoom(list.Contents(), strings, text)
    {
      LengthReplaced(list.Contents(), strings, pageSize, text, len);
      hide Holding, NoRoom;
      var z := FreshPage(list.nodes.Keys);
      var ok := list.Add(len, 0, z);
      var r := list.Remove(1);
    }

    /** Fills the last page with as much of the data as it has left. */
    method FillLast(data: seq<byte>, used: nat, ghost len: nat) returns (rest: seq<byte>)
      requires Keeps(len) && pageSize > 0 && used == |text| % pageSize > 0
      modifies this`strings, this`text
      ensures Keeps(len) && (rest != [] ==> Full(len)) && text + rest == old(text) + data
    {
      hide NoRoom, Flat, Equal, AllZero;
      var last := list.Get(-1);
      var cpSize := pageSize - used;
      if cpSize > |data| {
        cpSize := |data|;
      }
      LastPageFilled(list.Contents(), strings, pageSize, text, data[..cpSize]);
      var page := strings[last.value];
      strings := strings[last.value := page[..used] + data[..cpSize] + page[used + cpSize..]];
      text := text + data[..cpSize];
      rest := data[cpSize..];
      assert data[..cpSize] + rest == data;
    }

    /** Grows the string: first into what its last page has left, then into new
        pages. */
    method Append(data: seq<byte>) returns (newLength: nat)
      requires Valid()
      modifies this`strings, this`text, list
      ensures Valid() && text == old(text) + data && newLength == |text|
    {
      var size := list.Get(0);
      newLength := size.value + |data|;
      FullPages(list.Contents(), strings, pageSize, text);
      SetLength(newLength);
      var used := size.value % pageSize;
      var rest := data;
      hide NoRoom, Holding, UnrolledList.Valid;
      if used > 0 {
        rest := FillLast(data, used, newLength);
      }
      if |rest| > 0 {
        AppendPages(rest, newLength);
      }
    }

    /** Reads a range, page by page from the one its first byte is on. */
    method GetRange(start: int, stop: int) returns (data: seq<byte>)
      requires Valid()
      ensures data == Range(text, start, stop)
    {
      var total := list.Get(0);
      if total.value == 0 {
        return [];
      }
      var from, to := NormalStart(total.value, start), NormalStop(total.value, stop);
      if to < from {
        return [];
      }
      data := ReadPages(from, to - from + 1);
    }

    /** The page the list names at position `i`. */
    method ReadPage(i: nat, ghost nums: seq<nat>) returns (page: seq<byte>)
      requires list.Valid() && list.Contents() == nums && Holding(nums, strings, pageSize, text) && 1 <= i < list.size
      ensures i <= |PagesNamed(nums, strings)| && page == PagesNamed(nums, strings)[i - 1]
    {
      hide UnrolledList.Valid, UnrolledList.Contents, Paged;
      var num := list.Get(i);
      page := strings[num.value];
    }

    method ReadPages(from: nat, size: nat) returns (data: seq<byte>)
      requires Valid() && from + size <= |text| && size > 0
      ensures data == text[from..from + size]
    {
      hide PagesNamed, Flat;
      ghost var ps := PagesNamed(list.Contents(), strings);
      data := [];
      var i: nat, pageStart: nat := from / pageSize + 1, from % pageSize;
      FirstPage(ps, pageSize, text, from, size);
      ghost var nums := list.Contents();
      assert list.size == |ps| + 1 && Holding(nums, strings, pageSize, text) && Paged(ps, pageSize, text);
      while i < list.size
        invariant 1 <= i <= |ps| + 1 && ReadTo(ps, from, size, data, i - 1, pageStart)
        invariant list.Valid() && list.Contents() == nums
      {
        var page := ReadPage(i, nums);
        var n := ReadStep(ps, pageSize, text, from, size, data, i - 1, pageStart);
        data := data + page[pageStart..pageStart + n];
        pageStart := 0;
        i := i + 1;
      }
      AllOfText(ps, pageSize, text, from, size, data, pageStart);
    }

    /** Compares the pages one list node names with what follows in `str`. */
    method ComparePages(nums: seq<nat>, from: nat, str: seq<byte>, pos0: nat, ghost c: nat)
      returns (decided: bool, cmp: int, pos: nat)
      requires Valid() && from <= |nums|
      requires var ps := PagesNamed(list.Contents(), strings);
        && c + (|nums| - from) <= |ps| && AgreeTo(ps, str, pos0, c)
        && forall i :: from <= i < |nums| ==> nums[i] in strings && strings[nums[i]] == ps[c + (i - from)]
      ensures decided ==> cmp == LexCmp(text, str) && from < |nums|
      ensures !decided ==> cmp == 0 && AgreeTo(PagesNamed(list.Contents(), strings), str, pos, c + (|nums| - from))
    {
      hide AgreeTo, Paged, UnrolledList.Valid, UnrolledList.Contents, Named;
      ghost var ps := PagesNamed(list.Contents(), strings);
      pos := pos0;
      var i := from;
      while i < |nums|
        invariant from <= i <= |nums| && AgreeTo(ps, str, pos, c + (i - from))
      {
        AgreeBounds(ps, str, pos, c + (i - from));
        var page := strings[nums[i]];
        var len := if pageSize < |str| - pos then pageSize else |str| - pos;
        AgreeStep(ps, pageSize, text, str, pos, c + (i - from));
        if len == 0 {
          return true, 1, pos;
        }
        cmp := BytesCmp(page, str, pos, len);
        if cmp != 0 {
          return true, cmp, pos;
        }
        pos := pos + len;
        i := i + 1;
      }
      return false, 0, pos;
    }

    /** What one list node adds to a comparison. */
    method CompareNode(node: nat, first: bool, str: seq<byte>, pos0: nat, stored0: nat, cmp0: int, ghost k: nat)
      returns (decided: bool, cmp: int, pos: nat, stored: nat)
      requires Valid() && k < |list.pages| == |list.chunks| && node == list.pages[k] && (first <==> k == 0)
      requires pos0 <= |str| && (pos0 == |str| ==> first) && (first ==> pos0 == 0)
      requires NamesBefore(list.chunks, k) <= |PagesNamed(list.Contents(), strings)|
      requires AgreeTo(PagesNamed(list.Contents(), strings), str, pos0, NamesBefore(list.chunks, k))
      requires if first then cmp0 == 0 else stored0 == |text| && (cmp0 == 0 || text == [])
      ensures stored == |text| && NamesBefore(list.chunks, k + 1) <= |PagesNamed(list.Contents(), strings)|
      ensures decided ==> cmp == LexCmp(text, str)
      ensures !decided ==> pos < |str| && (cmp == 0 || text == [])
      ensures !decided ==> AgreeTo(PagesNamed(list.Contents(), strings), str, pos, NamesBefore(list.chunks, k + 1))
    {
      hide PagesNamed, LexCmp, LinksAt, Paged, Offset, Flat, Equal, Covers, Distinct;
      ghost var nums, ps := list.Contents(), PagesNamed(list.Contents(), strings);
      NodeAt(list.nodes, list.pages, list.left, list.right, list.chunks, k);
      NodeNames(nums, strings, list.chunks, list.max, k);
      AllPagesOf(ps, pageSize, text);
      var elements := list.nodes[node].elements;
      stored, cmp := stored0, cmp0;
      if first {
        stored := elements[0];
        if stored == 0 {
          cmp := if |str| == 0 then 0 else -1;
        }
      }
      var from := if first then 1 else 0;
      var c;
      decided, c, pos := ComparePages(elements, from, str, pos0, NamesBefore(list.chunks, k));
      if from < |elements| {
        cmp := c;
      }
      if decided {
        return;
      }
      AgreeBounds(ps, str, pos, NamesBefore(list.chunks, k + 1));
      if cmp == 0 && |str| == pos && stored != |str| {
        cmp := if stored > |str| then 1 else -1;
      }
      if |str| == pos {
        decided := true;
        AgreeAll(ps, pageSize, text, str, NamesBefore(list.chunks, k + 1));
      }
    }

    /** Compares the string with `str`, node by node of its list. */
    method CompareTo(str: seq<byte>) returns (cmp: int)
      requires Valid()
      ensures cmp == LexCmp(text, str)
      ensures cmp == (if text == str then 0 else if ComesBefore(text, str) then -1 else 1)
      ensures text != str ==> (ComesBefore(text, str) <==> !ComesBefore(str, text))
    {
      hide AgreeTo, Stores, UnrolledList.Valid, UnrolledList.Contents, NamesBefore, LexCmp, ComesBefore;
      LexIsByteOrder(text, str);
      FirstNode(str);
      var node, pos: nat, first, stored: nat := list.left, 0, true, 0;
      ghost var k: nat := 0;
      cmp := 0;
      while true
        invariant k <= |list.pages| == |list.chunks| && node == (if k < |list.pages| then list.pages[k] else 0)
        invariant (first <==> k == 0) && pos <= |str| && (pos == |str| ==> first) && (first ==> pos == 0)
        invariant if first then cmp == 0 else stored == |text| && (cmp == 0 || text == [])
        invariant NamesBefore(list.chunks, k) <= |PagesNamed(list.Contents(), strings)|
        invariant AgreeTo(PagesNamed(list.Contents(), strings), str, pos, NamesBefore(list.chunks, k))
        decreases |list.pages| - k
      {
        if node == 0 {
          AtListEnd(k);
          AllNamed(list.Contents(), strings, list.chunks, pageSize, text, str, pos);
          cmp := if |str| == 0 then 0 else -1;
          return;
        }
        var decided;
        decided, cmp, pos, stored := CompareNode(node, first, str, pos, stored, cmp, k);
        if decided {
          return;
        }
        AtListEnd(k);
        node, first, k := list.nodes[node].right, false, k + 1;
      }
    }

    /** A comparison starts at the first node, with nothing compared. */
    lemma FirstNode(str: seq<byte>)
      requires Valid()
      ensures |list.pages| == |list.chunks| > 0 && list.left == list.pages[0] && NamesBefore(list.chunks, 0) == 0
      ensures AgreeTo(PagesNamed(list.Contents(), strings), str, 0, 0)
    {
      AgreeNone(PagesNamed(list.Contents(), strings), str);
      NodeAt(list.nodes, list.pages, list.left, list.right, list.chunks, 0);
      assert NamesBefore(list.chunks, 0) == 0;
    }

    /** What `Valid` says of the chain around node `k`. */
    lemma AtListEnd(k: nat)
      requires Valid() && k <= |list.pages|
      ensures |list.pages| == |list.chunks| > 0 && list.Contents() == Flat(list.chunks)
      ensures Stores(list.Contents(), strings, pageSize, text)
      ensures k < |list.pages| ==> list.pages[k] != 0 && list.pages[k] in list.nodes
      ensures k < |list.pages| ==>
        list.nodes[list.pages[k]].right == (if k + 1 < |list.pages| then list.pages[k + 1] else 0)
    {
      if k < |list.pages| {
        NodeAt(list.nodes, list.pages, list.left, list.right, list.chunks, k);
      }
    }
  }

  /** Only a text that ends within a page leaves room. */
  lemma FullPages(nums: seq<nat>, strings: Strings, size: nat, text: seq<byte>)
    requires Holding(nums, strings, size, text)
    ensures size >= 1 && (|text| % size == 0 ==> NoRoom(nums, strings, text))
  {
    RoomLeft(PagesNamed(nums, strings), size, text);
  }

  /** `data` are the bytes of the pages before `k` and of `pageStart` bytes of
      page `k`, from byte `from` on and `size` at most. */
  ghost predicate ReadTo(ps: seq<seq<byte>>, from: nat, size: nat, data: seq<byte>, k: nat, pageStart: nat) {
    && k <= |ps| && |data| <= size && from + size <= |Flat(ps)| && data == Flat(ps)[from..from + |data|]
    && from + |data| <= Offset(ps, k) + pageStart
    && (|data| < size ==> from + |data| == Offset(ps, k) + pageStart)
    && (k < |ps| ==> pageStart < |ps[k]|) && (k == |ps| ==> pageStart == 0)
  }

  lemma FirstPage(ps: seq<seq<byte>>, size: nat, text: seq<byte>, from: nat, n: nat)
    requires Paged(ps, size, text) && from + n <= |text| && n > 0
    ensures from / size < |ps| && ReadTo(ps, from, n, [], from / size, from % size)
  {
    hide Flat, ReadTo, AllZero, Equal;
    EqualLength(ps, size);
    PageHolds(from, size, |ps|);
    StartReading(ps, size, text, from, n, from / size, from % size);
  }

  lemma PageHolds(from: nat, size: nat, pages: nat)
    requires size >= 1 && from < size * pages
    ensures from / size < pages && size * (from / size) + from % size == from
  {
    var k := from / size;
    assert from == k * size + from % size;
    assert (k - pages) * size == k * size - pages * size;
    MultipleIsFar(k - pages, size);
  }

  lemma StartReading(ps: seq<seq<byte>>, size: nat, text: seq<byte>, from: nat, n: nat, k: nat, r: nat)
    requires Paged(ps, size, text) && from + n <= |text| && k < |ps| && r < size && size * k + r == from
    ensures ReadTo(ps, from, n, [], k, r)
  {
    hide Flat;
    EqualOffset(ps, size, k);
    assert Flat(ps)[from..from] == [];
  }

  /** Bytes of one page, as bytes of all of them. */
  lemma PageSlice(ps: seq<seq<byte>>, k: nat, a: nat, n: nat)
    requires k < |ps| && a + n <= |ps[k]|
    ensures Offset(ps, k + 1) == Offset(ps, k) + |ps[k]|
    ensures Offset(ps, k) + a + n <= |Flat(ps)|
    ensures Flat(ps)[Offset(ps, k) + a..Offset(ps, k) + a + n] == ps[k][a..a + n]
  {
    hide Flat, Offset;
    OffsetNext(ps, k);
    var at := Offset(ps, k) + a;
    var part, same := Flat(ps)[at..at + n], ps[k][a..a + n];
    forall j | 0 <= j < n ensures part[j] == same[j] {
      FlatAt(ps, k, a + j);
    }
  }

  lemma JoinMore(was: seq<byte>, data: seq<byte>, pos: nat, n: nat)
    requires pos + n <= |data|
    ensures was + data[..pos] + data[pos..pos + n] == was + data[..pos + n]
  {}

  lemma Adjacent(s: seq<byte>, a: nat, b: nat, c: nat)
    requires a <= b <= c <= |s|
    ensures s[a..b] + s[b..c] == s[a..c]
  {}

  /** How much of a page is read. */
  method ReadStep(ghost ps: seq<seq<byte>>, pageSize: nat, ghost text: seq<byte>, ghost from: nat, size: nat,
                  data: seq<byte>, ghost k: nat, pageStart: nat) returns (n: nat)
    requires Paged(ps, pageSize, text) && ReadTo(ps, from, size, data, k, pageStart) && k < |ps|
    ensures pageStart + n <= |ps[k]|
    ensures ReadTo(ps, from, size, data + ps[k][pageStart..pageStart + n], k + 1, 0)
  {
    hide Flat, Offset, AllZero;
    assert |ps[k]| == pageSize > pageStart && |data| <= size;
    n := pageSize - pageStart;
    if |data| + n > size {
      n := size - |data|;
    }
    PageSlice(ps, k, pageStart, n);
    if n > 0 {
      Adjacent(Flat(ps), from, from + |data|, from + |data| + n);
    } else {
      assert data + ps[k][pageStart..pageStart + n] == data;
    }
  }

  lemma AllOfText(ps: seq<seq<byte>>, pageSize: nat, text: seq<byte>, from: nat, size: nat, data: seq<byte>,
                  pageStart: nat)
    requires Paged(ps, pageSize, text) && from + size <= |text| && ReadTo(ps, from, size, data, |ps|, pageStart)
    ensures data == text[from..from + size]
  {
    assert ps[..|ps|] == ps;
    assert Flat(ps)[..|text|][from..from + size] == Flat(ps)[from..from + size];
  }

  /** The pages before `c` agree with `str` as far as both go. */
  ghost predicate AgreeTo(ps: seq<seq<byte>>, str: seq<byte>, pos: nat, c: nat) {
    && c <= |ps| && pos <= |str| && pos <= Offset(ps, c) <= |Flat(ps)| && Flat(ps)[..pos] == str[..pos]
    && (pos < |str| ==> pos == Offset(ps, c))
  }

  /** The first `len` bytes of a page against those of `str` from `pos` on. */
  function BytesCmp(page: seq<byte>, str: seq<byte>, pos: nat, len: nat): int
    requires len <= |page| && pos + len <= |str|
  {
    LexCmp(page[..len], str[pos..pos + len])
  }

  lemma AgreeNone(ps: seq<seq<byte>>, str: seq<byte>)
    ensures AgreeTo(ps, str, 0, 0)
  {}

  lemma AgreeBounds(ps: seq<seq<byte>>, str: seq<byte>, pos: nat, c: nat)
    requires AgreeTo(ps, str, pos, c)
    ensures pos <= |str| && c <= |ps|
  {}

  /** One more page: it settles the comparison, or agrees as well. */
  lemma AgreeStep(ps: seq<seq<byte>>, size: nat, text: seq<byte>, str: seq<byte>, pos: nat, c: nat)
    requires Paged(ps, size, text) && AgreeTo(ps, str, pos, c) && c < |ps|
    ensures |ps[c]| == size && size >= 1 && pos <= |str|
    ensures var len := if size < |str| - pos then size else |str| - pos;
      && (len == 0 ==> LexCmp(text, str) == 1)
      && (len > 0 && BytesCmp(ps[c], str, pos, len) != 0 ==> LexCmp(text, str) == BytesCmp(ps[c], str, pos, len))
      && (len > 0 && BytesCmp(ps[c], str, pos, len) == 0 ==> AgreeTo(ps, str, pos + len, c + 1))
  {
    var len := if size < |str| - pos then size else |str| - pos;
    assert |ps[c]| == size && size >= 1;
    hide Flat, LexCmp, Paged, AgreeTo, BytesCmp;
    if len == 0 {
      EndStep(ps, size, text, str, c);
    } else if BytesCmp(ps[c], str, pos, len) != 0 {
      DifferStep(ps, size, text, str, pos, c, len);
    } else {
      AgreeMore(ps, str, pos, c, len);
    }
  }

  lemma EndStep(ps: seq<seq<byte>>, size: nat, text: seq<byte>, str: seq<byte>, c: nat)
    requires Paged(ps, size, text) && AgreeTo(ps, str, |str|, c) && c < |ps|
    ensures LexCmp(text, str) == 1
  {
    AgreeFacts(ps, size, text, str, |str|, c, 0);
    hide Flat, LexCmp, Paged, AgreeTo;
    LengthSettles(Flat(ps), |text|, str);
  }

  lemma DifferStep(ps: seq<seq<byte>>, size: nat, text: seq<byte>, str: seq<byte>, pos: nat, c: nat, len: nat)
    requires Paged(ps, size, text) && AgreeTo(ps, str, pos, c) && c < |ps| && |ps[c]| == size
    requires 0 < len <= size && pos + len <= |str| && BytesCmp(ps[c], str, pos, len) != 0
    ensures LexCmp(text, str) == BytesCmp(ps[c], str, pos, len)
  {
    hide Flat, AllZero;
    AgreeFacts(ps, size, text, str, pos, c, len);
    PageSlice(ps, c, 0, len);
    var all := Flat(ps);
    assert all[pos..pos + len] == ps[c][..len];
    DifferenceSettles(all, |text|, str, pos, len);
  }

  lemma AgreeFacts(ps: seq<seq<byte>>, size: nat, text: seq<byte>, str: seq<byte>, pos: nat, c: nat, len: nat)
    requires Paged(ps, size, text) && AgreeTo(ps, str, pos, c) && c < |ps| && pos + len <= |str| && len <= size
    ensures var all := Flat(ps);
      && Offset(ps, c) < |text| <= |all| && all[..|text|] == text && AllZero(all[|text|..])
      && pos <= Offset(ps, c) && all[..pos] == str[..pos] && (len > 0 ==> pos == Offset(ps, c))
      && Offset(ps, c + 1) <= |all|
    ensures pos == |str| ==> Flat(ps)[..|str|] == str
  {
    BytesBefore(ps, size, text, c);
    assert str[..|str|] == str;
  }

  lemma AgreeMore(ps: seq<seq<byte>>, str: seq<byte>, pos: nat, c: nat, len: nat)
    requires AgreeTo(ps, str, pos, c) && c < |ps| && 0 < len <= |ps[c]| && pos + len <= |str|
    requires len < |ps[c]| ==> pos + len == |str|
    requires BytesCmp(ps[c], str, pos, len) == 0
    ensures AgreeTo(ps, str, pos + len, c + 1)
  {
    LexEqual(ps[c][..len], str[pos..pos + len]);
    PageSlice(ps, c, 0, len);
    hide Flat, LexCmp;
    Adjacent(Flat(ps), 0, pos, pos + len);
    Adjacent(str, 0, pos, pos + len);
    OffsetNext(ps, c);
  }

  /** There is text on every page. */
  lemma BytesBefore(ps: seq<seq<byte>>, size: nat, text: seq<byte>, c: nat)
    requires Paged(ps, size, text) && c < |ps|
    ensures Offset(ps, c) < |text| && Offset(ps, c) + size == Offset(ps, c + 1) <= |Flat(ps)|
  {
    OffsetNext(ps, c);
  }

  /** How many pages the first `k` nodes of the list name, the first element
      being the length. */
  ghost function NamesBefore(chunks: seq<seq<nat>>, k: nat): nat
    requires k <= |chunks|
  {
    if Offset(chunks, k) == 0 then 0 else Offset(chunks, k) - 1
  }

  /** The pages one node names. */
  lemma NodeNames(nums: seq<nat>, strings: Strings, chunks: seq<seq<nat>>, max: nat, k: nat)
    requires Named(nums, strings) && nums == Flat(chunks) && Balanced(chunks, max) && k < |chunks|
    ensures var from := if k == 0 then 1 else 0;
      && from <= |chunks[k]| && (k == 0 ==> chunks[k][0] == nums[0])
      && NamesBefore(chunks, k + 1) == NamesBefore(chunks, k) + (|chunks[k]| - from) <= |PagesNamed(nums, strings)|
      && forall i :: from <= i < |chunks[k]| ==>
           chunks[k][i] in strings && strings[chunks[k][i]]
                == PagesNamed(nums, strings)[NamesBefore(chunks, k) + (i - from)]
  {
    hide Balanced, Offset, Flat;
    NodeStart(nums, chunks, max, k);
    var at, from := Offset(chunks, k), if k == 0 then 1 else 0;
    forall i | from <= i < |chunks[k]|
      ensures chunks[k][i] in strings && strings[chunks[k][i]] == PagesNamed(nums, strings)[at + i - 1]
    {
      FlatAt(chunks, k, i);
      assert nums[at + i] == chunks[k][i];
    }
    if k == 0 {
      FlatAt(chunks, 0, 0);
    }
  }

  /** The first node starts with the length; the others have names before them. */
  lemma NodeStart(nums: seq<nat>, chunks: seq<seq<nat>>, max: nat, k: nat)
    requires nums != [] && nums == Flat(chunks) && Balanced(chunks, max) && k < |chunks|
    ensures Offset(chunks, k + 1) == Offset(chunks, k) + |chunks[k]| <= |nums|
    ensures if k == 0 then Offset(chunks, k) == 0 && |chunks[k]| >= 1 else Offset(chunks, k) >= 1
  {
    FirstNotEmpty(chunks, max);
    hide Flat, Offset, Balanced;
    OffsetNext(chunks, k);
    OffsetNext(chunks, 0);
    if k > 0 {
      OffsetGrows(chunks, 1, k);
    }
  }

  lemma FirstNotEmpty<T>(cs: seq<seq<T>>, max: nat)
    requires Balanced(cs, max) && Flat(cs) != []
    ensures cs != [] && cs[0] != []
  {
    if |cs| == 1 {
      assert cs == [cs[0]];
      FlatOne(cs[0]);
    }
  }

  lemma OffsetGrows<T>(cs: seq<seq<T>>, j: nat, k: nat)
    requires j <= k <= |cs|
    ensures Offset(cs, j) <= Offset(cs, k)
  {
    FlatSplit(cs[..k], j);
    assert cs[..k][..j] == cs[..j];
  }

  lemma AllPagesOf(ps: seq<seq<byte>>, size: nat, text: seq<byte>)
    requires Paged(ps, size, text)
    ensures |text| <= |Flat(ps)| && Flat(ps)[..|text|] == text
  {}

  /** The list has ended and `str` has not: it is the longer one. */
  lemma AllNamed(nums: seq<nat>, strings: Strings, chunks: seq<seq<nat>>, size: nat, text: seq<byte>,
                 str: seq<byte>, pos: nat)
    requires Stores(nums, strings, size, text) && nums == Flat(chunks)
    requires NamesBefore(chunks, |chunks|) <= |PagesNamed(nums, strings)|
    requires AgreeTo(PagesNamed(nums, strings), str, pos, NamesBefore(chunks, |chunks|)) && pos < |str|
    ensures LexCmp(text, str) == -1
  {
    var ps := PagesNamed(nums, strings);
    assert chunks[..|chunks|] == chunks && ps[..|ps|] == ps;
    assert Flat(ps) == Flat(ps)[..pos] && text == Flat(ps)[..|text|];
    PagesRunOut(Flat(ps), |text|, str);
  }

  /** All of `str` agreed: the stored length settles it. */
  lemma AgreeAll(ps: seq<seq<byte>>, size: nat, text: seq<byte>, str: seq<byte>, c: nat)
    requires Paged(ps, size, text) && AgreeTo(ps, str, |str|, c)
    ensures LexCmp(text, str) == if |text| < |str| then -1 else if |text| > |str| then 1 else 0
  {
    assert str[..|str|] == str;
    LengthSettles(Flat(ps), |text|, str);
  }

  lemma AtTheEnd(s: seq<nat>, y: nat)
    ensures Normal(-1, |s|, 1) == Some(|s|) && InsertAt(s, |s|, y) == s + [y]
  {}
}
