// Writing into the middle of a stored string, and past its end.
module SetRange {
  import opened Bytes
  import opened Chunks
  import opened MultiString
  import opened PaddedText
  import opened PageNumbers
  import opened UnrolledList
  import opened Wrappers

  function Min(a: nat, b: nat): nat {
    if a < b then a else b
  }

  /** `bytes` written over `text` from `at` on. */
  ghost function Over(text: seq<byte>, at: nat, bytes: seq<byte>): (r: seq<byte>)
    requires at + |bytes| <= |text|
    ensures |r| == |text|
  {
    text[..at] + bytes + text[at + |bytes|..]
  }

  /** What writing `data` at `at` should give: a gap before it is zeros. */
  ghost function Ideal(text: seq<byte>, at: nat, data: seq<byte>): seq<byte> {
    if |text| <= at then text + ZeroBytes(at - |text|) + data
    else text[..at] + data + if at + |data| < |text| then text[at + |data|..] else []
  }

  /** How many bytes the pages of a text of `n` bytes hold. */
  function Room(n: nat, size: nat): (room: nat)
    requires size >= 1
    ensures n <= room
  {
    if n % size == 0 then n else n - n % size + size
  }

  /** The text fills a page or more, but not all of its pages, and the data starts
      within it and ends behind it. */
  predicate Spoils(n: nat, size: nat, at: nat, m: nat)
    requires size >= 1
  {
    size <= n && at < n < at + m && n % size != 0
  }

  /** What the code gives then: what the last page took beyond the old end is
      followed by as many zeros. */
  ghost function Spoilt(text: seq<byte>, size: nat, at: nat, data: seq<byte>): seq<byte>
    requires size >= 1 && Spoils(|text|, size, at, |data|)
  {
    var end := Min(at + |data|, Room(|text|, size));
    text[..at] + data[..end - at] + ZeroBytes(end - |text|) + data[end - at..]
  }

  ghost function Result(text: seq<byte>, size: nat, at: nat, data: seq<byte>): seq<byte>
    requires size >= 1
  {
    if Spoils(|text|, size, at, |data|) then Spoilt(text, size, at, data) else Ideal(text, at, data)
  }

  /** The code does what it should exactly when that is not so. */
  lemma ResultIsIdeal(text: seq<byte>, size: nat, at: nat, data: seq<byte>)
    requires size >= 1
    ensures Result(text, size, at, data) == Ideal(text, at, data) <==> !Spoils(|text|, size, at, |data|)
  {
    if Spoils(|text|, size, at, |data|) {
      assert Room(|text|, size) > |text|;
      assert |Spoilt(text, size, at, data)| > |Ideal(text, at, data)|;
    }
  }

  /** A text of 1500 bytes on pages of 1024, of which 200 bytes are written from
      byte 1400 on: there are a hundred zeros too many. */
  lemma HundredZeros(text: seq<byte>, data: seq<byte>)
    requires |text| == 1500 && |data| == 200
    ensures Ideal(text, 1400, data) == text[..1400] + data
    ensures Result(text, 1024, 1400, data) == text[..1400] + data + ZeroBytes(100)
  {
    assert Room(1500, 1024) == 2048;
    assert data[..200] == data && data[200..] == [];
  }

  // ---- Pages

  lemma RoomOfPages(nums: seq<nat>, strings: Strings, size: nat, text: seq<byte>)
    requires Holding(nums, strings, size, text)
    ensures size >= 1 && |nums| >= 1 && (|nums| - 1) * size == Room(|text|, size) == |Flat(PagesNamed(nums, strings))|
  {
    var ps := PagesNamed(nums, strings);
    RoomLeft(ps, size, text);
    EqualLength(ps, size);
    assert size * |ps| == |ps| * size;
  }

  /** Padding can be taken for zeros of the text. */
  lemma PaddingIsText(nums: seq<nat>, strings: Strings, size: nat, text: seq<byte>, len: nat)
    requires Holding(nums, strings, size, text) && |text| <= len <= Room(|text|, size)
    ensures Holding(nums, strings, size, text + ZeroBytes(len - |text|))
  {
    hide Flat, Equal;
    RoomOfPages(nums, strings, size, text);
    var all, longer := Flat(PagesNamed(nums, strings)), text + ZeroBytes(len - |text|);
    assert all[|text|..len] == ZeroBytes(len - |text|) by {
      assert forall i :: 0 <= i < len - |text| ==> all[|text|..][i] == all[|text| + i];
    }
    assert all[..len] == all[..|text|] + all[|text|..len];
    assert forall i :: 0 <= i < |all| - len ==> all[len..][i] == all[|text|..][i + len - |text|];
  }

  lemma FlatOver(ps: seq<seq<byte>>, size: nat, k: nat, a: nat, bytes: seq<byte>)
    requires Equal(ps, size) && k < |ps| && a + |bytes| <= size
    ensures |ps[k]| == size && size * k + a + |bytes| <= |Flat(ps)|
    ensures Equal(ps[k := Over(ps[k], a, bytes)], size)
    ensures Flat(ps[k := Over(ps[k], a, bytes)]) == Over(Flat(ps), size * k + a, bytes)
  {
    hide Flat;
    var page := Over(ps[k], a, bytes);
    var front, back := ps[..k], ps[k + 1..];
    assert ps == front + [ps[k]] + back && ps[k := page] == front + [page] + back;
    FlatOfThree(front, ps[k], back);
    FlatOfThree(front, page, back);
    EqualLength(front, size);
    OverInside(Flat(front), ps[k], Flat(back), a, bytes);
  }

  lemma FlatOfThree(front: seq<seq<byte>>, page: seq<byte>, back: seq<seq<byte>>)
    ensures Flat(front + [page] + back) == Flat(front) + page + Flat(back)
  {
    FlatJoin(front + [page], back);
    FlatJoin(front, [page]);
    FlatOne(page);
  }

  lemma OverIs(text: seq<byte>, at: nat, bytes: seq<byte>)
    requires at + |bytes| <= |text|
    ensures Over(text, at, bytes) == text[..at] + bytes + text[at + |bytes|..]
  {}

  lemma OverInside(x: seq<byte>, y: seq<byte>, z: seq<byte>, a: nat, bytes: seq<byte>)
    requires a + |bytes| <= |y|
    ensures Over(x + y + z, |x| + a, bytes) == x + Over(y, a, bytes) + z
  {
    var s := x + y + z;
    assert s[..|x| + a] == x + y[..a];
    assert s[|x| + a + |bytes|..] == y[a + |bytes|..] + z;
  }

  lemma OverPrefix(all: seq<byte>, n: nat, p: nat, bytes: seq<byte>)
    requires p + |bytes| <= n <= |all|
    ensures Over(all, p, bytes)[..n] == Over(all[..n], p, bytes) && Over(all, p, bytes)[n..] == all[n..]
  {}

  /** Bytes of a page are bytes of the text. */
  lemma PageOver(nums: seq<nat>, strings: Strings, size: nat, text: seq<byte>, i: nat, a: nat, bytes: seq<byte>)
    requires Holding(nums, strings, size, text) && 1 <= i < |nums|
    requires a + |bytes| <= size && (i - 1) * size + a + |bytes| <= |text|
    ensures nums[i] in strings && |strings[nums[i]]| == size
    ensures Holding(nums, strings[nums[i] := Over(strings[nums[i]], a, bytes)], size,
                    Over(text, (i - 1) * size + a, bytes))
  {
    hide Flat, Over;
    var ps, p := PagesNamed(nums, strings), (i - 1) * size + a;
    assert ps[i - 1] == strings[nums[i]];
    FlatOver(ps, size, i - 1, a, bytes);
    assert size * (i - 1) == (i - 1) * size;
    OverPrefix(Flat(ps), |text|, p, bytes);
    var page := Over(ps[i - 1], a, bytes);
    assert PagesNamed(nums, strings[nums[i] := page]) == ps[i - 1 := page];
  }

  // ---- The operation

  /** Takes the first element out and puts another in front. */
  method ReplaceFirst(list: UnrolledList<nat>, e: nat)
    requires list.Valid() && list.size > 1
    modifies list
    ensures list.Valid() && list.Contents() == old(list.Contents())[0 := e]
  {
    hide *;
    ghost var was := list.Contents();
    FirstOut(was, e);
    var r := list.Remove(0);
    var z := FreshPage(list.nodes.Keys);
    var ok := list.Add(e, 0, z);
  }

  lemma FirstOut(s: seq<nat>, e: nat)
    requires |s| > 1
    ensures Normal(0, |s|, 0) == Some(0) && Normal(0, |s| - 1, 1) == Some(0)
    ensures |RemoveAt(s, 0)| == |s| - 1 && InsertAt(RemoveAt(s, 0), 0, e) == s[0 := e]
  {}

  /** The stored length becomes a greater one that the pages have room for. */
  method Extend(s: MultiString, len: nat)
    requires s.Valid() && s.list.size > 1 && |s.text| <= len <= Room(|s.text|, s.pageSize)
    modifies s`text, s.list
    ensures s.Valid() && s.text == old(s.text) + ZeroBytes(len - |old(s.text)|)
    ensures s.list.size == old(s.list.size)
  {
    hide Holding, UnrolledList.Valid, UnrolledList.Contents, ZeroBytes;
    ghost var nums := s.list.Contents();
    PaddingIsText(nums, s.strings, s.pageSize, s.text, len);
    LengthReplaced(nums, s.strings, s.pageSize, s.text + ZeroBytes(len - |s.text|), len);
    ReplaceFirst(s.list, len);
    s.text := s.text + ZeroBytes(len - |s.text|);
  }

  /** Bytes written into one page. */
  method OverPage(s: MultiString, i: nat, a: nat, bytes: seq<byte>)
    requires s.Valid() && 1 <= i < s.list.size
    requires a + |bytes| <= s.pageSize && (i - 1) * s.pageSize + a + |bytes| <= |s.text|
    modifies s`strings, s`text
    ensures s.Valid() && s.text == Over(old(s.text), (i - 1) * s.pageSize + a, bytes)
  {
    hide Holding, Over, UnrolledList.Valid, UnrolledList.Contents;
    ghost var nums := s.list.Contents();
    var num := s.list.Get(i);
    PageOver(nums, s.strings, s.pageSize, s.text, i, a, bytes);
    var page := s.strings[num.value];
    OverIs(page, a, bytes);
    s.strings := s.strings[num.value := page[..a] + bytes + page[a + |bytes|..]];
    s.text := Over(s.text, (i - 1) * s.pageSize + a, bytes);
  }

  /** The length the code takes the text to have, `n` before, once `done` bytes from
      `at` on are written: it looks at places within a page. */
  function Reckoned(n: nat, size: nat, at: nat, done: nat): nat {
    if size <= n || done == 0 || at + done <= n then n else at + done
  }

  /** What the text is once `done` bytes of the data are written. */
  ghost predicate WrittenTo(was: seq<byte>, now: seq<byte>, at: nat, data: seq<byte>, done: nat) {
    done <= |data| && at + done <= |was| && now == Over(was, at, data[..done])
  }

  lemma NothingWritten(was: seq<byte>, at: nat, data: seq<byte>)
    requires at <= |was|
    ensures WrittenTo(was, was, at, data, 0)
  {
    assert was[..at] + data[..0] + was[at..] == was;
  }

  lemma MoreWritten(was: seq<byte>, now: seq<byte>, at: nat, data: seq<byte>, done: nat, chunk: nat)
    requires WrittenTo(was, now, at, data, done) && done + chunk <= |data| && at + done + chunk <= |was|
    ensures |now| == |was|
    ensures WrittenTo(was, Over(now, at + done, data[done..done + chunk]), at, data, done + chunk)
  {
    var bytes := data[done..done + chunk];
    assert now[..at + done] == was[..at] + data[..done];
    assert now[at + done + chunk..] == was[at + done + chunk..];
    assert data[..done + chunk] == data[..done] + bytes;
  }

  /** The next byte to write, byte `at + done` of the text, is at `start` on the page
      the list names at `i`; there are `pages` of them. */
  ghost predicate Placed(n: nat, size: nat, at: nat, m: nat, pages: nat, i: nat, start: nat, done: nat) {
    && 1 <= size && at < n && pages * size == Room(n, size) && 1 <= i <= pages + 1 && start < size
    && done <= m && at + done <= pages * size && (i == pages + 1 ==> start == 0)
    && (done < m ==> (i - 1) * size + start == at + done)
  }

  lemma PlacedFirst(n: nat, size: nat, at: nat, m: nat, pages: nat)
    requires 1 <= size && at < n && pages * size == Room(n, size)
    ensures Placed(n, size, at, m, pages, at / size + 1, at % size, 0)
  {
    hide Room, Placed;
    EitherWay(pages, size);
    EitherWay(at / size, size);
    PageHolds(at, size, pages);
    PlacedThere(n, size, at, m, pages, at / size, at % size);
  }

  lemma EitherWay(a: nat, b: nat)
    ensures a * b == b * a
  {}

  lemma PlacedThere(n: nat, size: nat, at: nat, m: nat, pages: nat, q: nat, r: nat)
    requires 1 <= size && at < n && pages * size == Room(n, size) && q < pages && r < size && q * size + r == at
    ensures Placed(n, size, at, m, pages, q + 1, r, 0)
  {
    hide Room;
  }

  /** As much of the page as is left, or of the data. */
  lemma PlacedNext(n: nat, size: nat, at: nat, m: nat, pages: nat, i: nat, start: nat, done: nat)
    requires Placed(n, size, at, m, pages, i, start, done) && done < m && i <= pages
    ensures var chunk := Min(size - start, m - done);
      && done + chunk <= m && at + done + chunk <= Min(at + m, Room(n, size))
      && Placed(n, size, at, m, pages, i + 1, 0, done + chunk)
      && Reckoned(n, size, at, done + chunk)
           == if Reckoned(n, size, at, done) < chunk + start then chunk + start else Reckoned(n, size, at, done)
  {
    PlaceBounds(i, pages, size);
    if n < size {
      OnePage(n, size, pages);
    }
  }

  lemma PlaceBounds(i: nat, pages: nat, size: nat)
    requires 1 <= i <= pages
    ensures (i - 1) * size + size == i * size <= pages * size && (i == 1 ==> (i - 1) * size == 0)
  {
    assert (pages - i) * size >= 0;
    assert pages * size == i * size + (pages - i) * size;
  }

  lemma OnePage(n: nat, size: nat, pages: nat)
    requires 0 < n < size && pages * size == Room(n, size)
    ensures pages == 1
  {
    assert n % size == n;
    assert (pages - 1) * size == 0;
    MultipleIsFar(pages - 1, size);
  }

  lemma PlacedLast(n: nat, size: nat, at: nat, m: nat, pages: nat, i: nat, start: nat, done: nat)
    requires Placed(n, size, at, m, pages, i, start, done) && (done == m || i == pages + 1)
    ensures at + done == Min(at + m, Room(n, size))
  {}

  /** Writes data into the pages there are, from byte `at` on. */
  method WritePages(s: MultiString, data: seq<byte>, at: nat, n: nat) returns (done: nat, length: nat)
    requires s.Valid() && at < n <= |s.text| && Room(|s.text|, s.pageSize) == Room(n, s.pageSize)
    requires Min(at + |data|, Room(n, s.pageSize)) <= |s.text|
    modifies s`strings, s`text
    ensures s.Valid() && at + done == Min(at + |data|, Room(n, s.pageSize))
    ensures WrittenTo(old(s.text), s.text, at, data, done)
    ensures length == Reckoned(n, s.pageSize, at, done)
  {
    hide Over, WrittenTo, MultiString.Valid, Room, Reckoned, Placed;
    SizeOfPages(s);
    ghost var was, pages := s.text, s.list.size - 1;
    NothingWritten(was, at, data);
    PlacedFirst(n, s.pageSize, at, |data|, pages);
    NothingReckoned(n, s.pageSize, at);
    var i: nat, start: nat := at / s.pageSize + 1, at % s.pageSize;
    done, length := 0, n;
    while done < |data| && i < s.list.size
      invariant s.Valid() && Placed(n, s.pageSize, at, |data|, pages, i, start, done)
      invariant WrittenTo(was, s.text, at, data, done)
      invariant length == Reckoned(n, s.pageSize, at, done)
      decreases s.list.size - i
    {
      PlaceIs(n, s.pageSize, at, |data|, pages, i, start, done);
      PlacedNext(n, s.pageSize, at, |data|, pages, i, start, done);
      var chunk := Min(s.pageSize - start, |data| - done);
      MoreWritten(was, s.text, at, data, done, chunk);
      OverPage(s, i, start, data[done..done + chunk]);
      if length < chunk + start {
        length := chunk + start;
      }
      done := done + chunk;
      start := 0;
      i := i + 1;
    }
    PlaceRange(n, s.pageSize, at, |data|, pages, i, start, done);
    PlacedLast(n, s.pageSize, at, |data|, pages, i, start, done);
  }

  lemma PlaceRange(n: nat, size: nat, at: nat, m: nat, pages: nat, i: nat, start: nat, done: nat)
    requires Placed(n, size, at, m, pages, i, start, done)
    ensures 1 <= i <= pages + 1 && start < size && done <= m
  {}

  lemma PlaceIs(n: nat, size: nat, at: nat, m: nat, pages: nat, i: nat, start: nat, done: nat)
    requires Placed(n, size, at, m, pages, i, start, done) && done < m
    ensures i >= 1 && start < size && (i - 1) * size + start == at + done
  {}

  lemma NothingReckoned(n: nat, size: nat, at: nat)
    ensures Reckoned(n, size, at, 0) == n
  {}

  lemma SizeOfPages(s: MultiString)
    requires s.Valid()
    ensures s.pageSize >= 1 && s.list.size >= 1 && (s.list.size - 1) * s.pageSize == Room(|s.text|, s.pageSize)
  {
    RoomOfPages(s.list.Contents(), s.strings, s.pageSize, s.text);
  }

  /** What is appended in the end, if anything. */
  ghost function Appended(length: nat, end: nat, rest: seq<byte>): seq<byte> {
    if length < end then ZeroBytes(end - length) + rest else if length == end then rest else []
  }

  /** Writes what the pages have room for, the text made longer first where it has
      to be; `end` is behind what is written. */
  method WriteInside(s: MultiString, data: seq<byte>, at: nat, n: nat) returns (end: nat, length: nat)
    requires s.Valid() && at < n == |s.text|
    modifies s`strings, s`text, s.list
    ensures s.Valid() && s.pageSize >= 1 && at <= end <= at + |data|
    ensures s.text + Appended(length, end, data[end - at..]) == Result(old(s.text), s.pageSize, at, data)
    ensures Appended(length, end, data[end - at..]) == [] ==> length == |s.text|
  {
    hide MultiString.Valid, Room, Result, Reckoned, WrittenTo, ZeroBytes, Appended;
    ghost var was := s.text;
    SizeOfPages(s);
    var newSize := Min(at + |data|, (s.list.size - 1) * s.pageSize);
    SomePages(s);
    if newSize > n {
      Extend(s, newSize);
      SizeOfPages(s);
    }
    ghost var base := s.text;
    assert base == was + ZeroBytes(|base| - |was|);
    var done;
    done, length := WritePages(s, data, at, n);
    end := at + done;
    Middle(was, base, s.text, s.pageSize, at, data, done);
    LengthIs(was, base, s.text, s.pageSize, at, data, done);
  }

  lemma SomePages(s: MultiString)
    requires s.Valid() && s.text != []
    ensures s.list.size > 1
  {
    SizeOfPages(s);
    NoneTimes(s.list.size - 1, s.pageSize);
  }

  lemma NoneTimes(pages: nat, size: nat)
    ensures pages * size > 0 ==> pages > 0
  {}

  /** Appends what is left, if anything. */
  method AppendRest(s: MultiString, length: nat, end: nat, rest: seq<byte>) returns (newLength: Option<nat>)
    requires s.Valid()
    modifies s`strings, s`text, s.list
    ensures s.Valid() && s.text == old(s.text) + Appended(length, end, rest)
    ensures newLength == if Appended(length, end, rest) == [] then None else Some(|s.text|)
  {
    hide MultiString.Valid;
    newLength := None;
    if length < end {
      var n := s.Append(ZeroBytes(end - length) + rest);
      newLength := Some(n);
    } else if length == end && |rest| > 0 {
      var n := s.Append(rest);
      newLength := Some(n);
    }
  }

  /** Writes data at an offset: into the pages there are, and what is left behind
      them. The length is not reported where nothing was to be written. */
  method Write(s: MultiString, data: seq<byte>, offset: int) returns (ok: bool, newLength: Option<nat>)
    requires s.Valid()
    modifies s`strings, s`text, s.list
    ensures s.Valid() && (ok <==> offset >= 0)
    ensures !ok ==> s.text == old(s.text) && newLength == None
    ensures ok ==> s.pageSize >= 1 && s.text == Result(old(s.text), s.pageSize, offset, data)
    ensures ok ==> newLength == if offset == |old(s.text)| && data == [] then None else Some(|s.text|)
  {
    hide MultiString.Valid, Result, Appended;
    newLength := None;
    if offset < 0 {
      return false, None;
    }
    ok := true;
    SizeOfPages(s);
    var oldSize := StoredLength(s);
    if oldSize > offset {
      var end, length := WriteInside(s, data, offset, oldSize);
      newLength := AppendRest(s, length, end, data[end - offset..]);
      if newLength == None {
        newLength := Some(length);
      }
    } else {
      Behind(s.text, s.pageSize, offset, data);
      newLength := AppendRest(s, oldSize, offset, data);
    }
  }

  method StoredLength(s: MultiString) returns (n: nat)
    requires s.Valid()
    ensures n == |s.text|
  {
    var first := s.list.Get(0);
    n := first.value;
  }

  lemma Behind(was: seq<byte>, size: nat, at: nat, data: seq<byte>)
    requires size >= 1 && |was| <= at
    ensures was + Appended(|was|, at, data) == Result(was, size, at, data)
    ensures Appended(|was|, at, data) == [] <==> |was| == at && data == []
  {
    assert was + ZeroBytes(0) + data == was + data;
    assert was + (ZeroBytes(at - |was|) + data) == was + ZeroBytes(at - |was|) + data;
  }

  /** Writing within the pages, and then appending what is left. */
  lemma Middle(was: seq<byte>, base: seq<byte>, now: seq<byte>, size: nat, at: nat, data: seq<byte>, done: nat)
    requires size >= 1 && at < |was| && done <= |data| && at + done == Min(at + |data|, Room(|was|, size))
    requires base == was + ZeroBytes((if at + done > |was| then at + done else |was|) - |was|)
    requires WrittenTo(base, now, at, data, done)
    ensures now + Appended(Reckoned(|was|, size, at, done), at + done, data[done..]) == Result(was, size, at, data)
  {
    hide Room, ZeroBytes, WrittenTo, Appended, Result, Reckoned;
    RoomOfFull(|was|, size);
    if at + done <= |was| {
      Within(was, base, now, at, data, done);
      EndsWithin(was, now, size, at, data, done);
    } else {
      Beyond(was, base, now, at, data, done);
      EndsBeyond(was, now, size, at, data, done);
    }
  }

  lemma EndsWithin(was: seq<byte>, now: seq<byte>, size: nat, at: nat, data: seq<byte>, done: nat)
    requires size >= 1 && at < |was| && done <= |data| && at + done <= |was|
    requires done == |data| || at + done == Room(|was|, size)
    requires now == was[..at] + data[..done] + was[at + done..]
    ensures now + Appended(Reckoned(|was|, size, at, done), at + done, data[done..]) == Result(was, size, at, data)
  {
    hide ZeroBytes, Room;
    RoomOfFull(|was|, size);
    assert data == data[..done] + data[done..];
    if at + done == |was| {
      assert was[at + done..] == [];
      assert now + data[done..] == was[..at] + data;
    } else {
      assert data[..done] == data && now + [] == now;
    }
  }

  lemma EndsBeyond(was: seq<byte>, now: seq<byte>, size: nat, at: nat, data: seq<byte>, done: nat)
    requires size >= 1 && at < |was| < at + done && done <= |data| && at + done == Min(at + |data|, Room(|was|, size))
    requires now == was[..at] + data[..done] && |was| % size != 0
    ensures now + Appended(Reckoned(|was|, size, at, done), at + done, data[done..]) == Result(was, size, at, data)
  {
    hide ZeroBytes, Room;
    var gap, rest := ZeroBytes(at + done - |was|), data[done..];
    assert data == data[..done] + rest;
    if size <= |was| {
      assert now + (gap + rest) == now + gap + rest;
    } else {
      assert now + rest == was[..at] + data + [];
    }
  }

  lemma LengthIs(was: seq<byte>, base: seq<byte>, now: seq<byte>, size: nat, at: nat, data: seq<byte>, done: nat)
    requires size >= 1 && at < |was| && done <= |data| && WrittenTo(base, now, at, data, done)
    requires |base| == if at + done > |was| then at + done else |was|
    ensures var length := Reckoned(|was|, size, at, done);
      Appended(length, at + done, data[done..]) == [] ==> length == |now|
  {
    hide ZeroBytes;
  }

  lemma RoomOfFull(n: nat, size: nat)
    requires size >= 1
    ensures n % size == 0 <==> Room(n, size) == n
  {}

  /** The data written so far ends within the text. */
  lemma Within(was: seq<byte>, base: seq<byte>, now: seq<byte>, at: nat, data: seq<byte>, done: nat)
    requires at < |was| && done <= |data| && at + done <= |was| && base == was + ZeroBytes(0)
    requires WrittenTo(base, now, at, data, done)
    ensures now == was[..at] + data[..done] + was[at + done..]
  {
    assert base == was;
  }

  /** Or behind it. */
  lemma Beyond(was: seq<byte>, base: seq<byte>, now: seq<byte>, at: nat, data: seq<byte>, done: nat)
    requires at < |was| < at + done && done <= |data| && base == was + ZeroBytes(at + done - |was|)
    requires WrittenTo(base, now, at, data, done)
    ensures now == was[..at] + data[..done]
  {
    assert base[..at] == was[..at] && base[at + done..] == [];
  }
}
