// A byte string stored as equal pages, the last one padded with zeros, and what
// comparing those pages says about the string.
module PaddedText {
  import opened Bytes
  import opened Chunks
  import opened Lex

  ghost predicate AllZero(s: seq<byte>) {
    forall i :: 0 <= i < |s| ==> s[i] == 0
  }

  ghost predicate Equal<T>(cs: seq<seq<T>>, n: nat) {
    forall k :: 0 <= k < |cs| ==> |cs[k]| == n
  }

  /** `ps` are the fewest pages of `size` bytes that hold `text`. */
  ghost predicate Paged(ps: seq<seq<byte>>, size: nat, text: seq<byte>) {
    && size >= 1 && Equal(ps, size)
    && var all := Flat(ps);
    |text| <= |all| < |text| + size && all[..|text|] == text && AllZero(all[|text|..])
  }

  lemma {:induction false} EqualLength<T>(cs: seq<seq<T>>, n: nat)
    requires Equal(cs, n)
    ensures |Flat(cs)| == n * |cs|
  {
    if cs != [] {
      EqualLength(cs[1..], n);
    }
  }

  /** Where page `k` starts. */
  lemma EqualOffset<T>(cs: seq<seq<T>>, n: nat, k: nat)
    requires Equal(cs, n) && k <= |cs|
    ensures Offset(cs, k) == n * k
    ensures |Flat(cs)| == n * |cs|
  {
    EqualLength(cs[..k], n);
    EqualLength(cs, n);
  }

  /** How many bytes the last page has left. */
  lemma RoomLeft(ps: seq<seq<byte>>, size: nat, text: seq<byte>)
    requires Paged(ps, size, text)
    ensures |text| % size == 0 ==> Flat(ps) == text
    ensures |text| % size > 0 ==> ps != [] && |Flat(ps)| - |text| == size - |text| % size
  {
    hide Flat, Equal, AllZero;
    EqualLength(ps, size);
    var gap := |Flat(ps)| - |text|;
    var r := if gap == 0 then 0 else size - gap;
    var q := if gap == 0 then |ps| else |ps| - 1;
    assert size * |ps| == |ps| * size;
    if gap > 0 {
      assert (|ps| - 1) * size == |ps| * size - size;
    }
    Remainder(|text|, size, q, r);
    if gap == 0 {
      assert Flat(ps)[..|text|] == Flat(ps);
    }
  }

  lemma Remainder(v: nat, d: nat, q: int, r: nat)
    requires d > 0 && r < d && v == q * d + r
    ensures v % d == r
  {
    MultipleIsFar(q, d);
    Quotient(v, d, q, r);
  }

  /** Another page behind full ones. */
  lemma PageMore(ps: seq<seq<byte>>, size: nat, text: seq<byte>, page: seq<byte>, n: nat)
    requires Paged(ps, size, text) && Flat(ps) == text
    requires |page| == size && 0 < n <= size && AllZero(page[n..])
    ensures Paged(ps + [page], size, text + page[..n])
    ensures n == size ==> Flat(ps + [page]) == text + page[..n]
  {
    FlatJoin(ps, [page]);
    FlatOne(page);
  }

  /** More bytes in the last page. */
  lemma PageFilled(ps: seq<seq<byte>>, size: nat, text: seq<byte>, data: seq<byte>, page: seq<byte>)
    requires Paged(ps, size, text) && ps != [] && |text| % size > 0
    requires |data| <= size - |text| % size
    requires var r := |text| % size;
      page == ps[|ps| - 1][..r] + data + ps[|ps| - 1][r + |data|..]
    ensures Paged(ps[|ps| - 1 := page], size, text + data)
    ensures |data| == size - |text| % size ==> Flat(ps[|ps| - 1 := page]) == text + data
  {
    hide Flat;
    var k := |ps| - 1;
    var r := |text| % size;
    RoomLeft(ps, size, text);
    var front := ps[..k];
    assert ps == front + [ps[k]] && ps[k := page] == front + [page];
    FlatJoin(front, [ps[k]]);
    FlatJoin(front, [page]);
    FlatOne(ps[k]);
    FlatOne(page);
    assert |Flat(front)| + r == |text|;
    assert Flat(ps)[|text|..] == ps[k][r..];
    assert Flat(ps)[..|text|] == Flat(front) + ps[k][..r];
  }

  // ---- Comparing

  /** Zero padding is below anything it is compared with. */
  lemma {:induction false} PaddingBelow(z: seq<byte>, w: seq<byte>)
    requires AllZero(z) && |z| == |w|
    ensures LexCmp(z, w) <= 0
  {
    if z != [] {
      PaddingBelow(z[1..], w[1..]);
    }
  }

  /** A difference found with the padding is a difference without it. */
  lemma {:induction false} PaddedDiffers(text: seq<byte>, z: seq<byte>, w: seq<byte>, v: seq<byte>)
    requires AllZero(z) && |text| + |z| == |w| && LexCmp(text + z, w) != 0
    ensures LexCmp(text, w + v) == LexCmp(text + z, w)
  {
    if text == [] {
      assert text + z == z;
      PaddingBelow(z, w);
      LexEqual(z, w);
      assert w != [] || z == w;
    } else {
      assert (text + z)[1..] == text[1..] + z && (w + v)[1..] == w[1..] + v;
      if text[0] == w[0] {
        PaddedDiffers(text[1..], z, w[1..], v);
      }
    }
  }

  /** The first difference decides, whatever follows. */
  lemma {:induction false} PrefixDiffers(a: seq<byte>, w: seq<byte>, b: seq<byte>, v: seq<byte>)
    requires |a| == |w| && LexCmp(a, w) != 0
    ensures LexCmp(a + b, w + v) == LexCmp(a, w)
  {
    if a != [] {
      assert (a + b)[1..] == a[1..] + b && (w + v)[1..] == w[1..] + v;
      if a[0] == w[0] {
        PrefixDiffers(a[1..], w[1..], b, v);
      }
    }
  }

  /** Of two prefixes of the same bytes the shorter comes first. */
  lemma {:induction false} PrefixesCompare(all: seq<byte>, n: nat, m: nat)
    requires n <= |all| && m <= |all|
    ensures LexCmp(all[..n], all[..m]) == if n < m then -1 else if n > m then 1 else 0
  {
    if n > 0 && m > 0 {
      assert all[..n][1..] == all[1..][..n - 1] && all[..m][1..] == all[1..][..m - 1];
      PrefixesCompare(all[1..], n - 1, m - 1);
    }
  }

  /** Bytes up to `pos` agree, the next ones do not: that settles it. */
  lemma DifferenceSettles(all: seq<byte>, n: nat, str: seq<byte>, pos: nat, c: nat)
    requires n <= |all| && AllZero(all[n..]) && pos + c <= |all| && pos + c <= |str|
    requires all[..pos] == str[..pos] && LexCmp(all[pos..pos + c], str[pos..pos + c]) != 0
    ensures LexCmp(all[..n], str) == LexCmp(all[pos..pos + c], str[pos..pos + c])
  {
    hide LexCmp;
    var e := pos + c;
    assert all[..e] == all[..pos] + all[pos..e] && str[..e] == all[..pos] + str[pos..e];
    LexCommonPrefix(all[..pos], all[pos..e], str[pos..e]);
    assert str == str[..e] + str[e..];
    if n >= e {
      PrefixDiffers(all[..e], str[..e], all[e..n], str[e..]);
      assert all[..n] == all[..e] + all[e..n];
    } else {
      assert all[..e] == all[..n] + all[n..e];
      assert AllZero(all[n..e]) by {
        assert forall i :: 0 <= i < e - n ==> all[n..e][i] == all[n..][i];
      }
      PaddedDiffers(all[..n], all[n..e], str[..e], str[e..]);
    }
  }

  /** All of `str` agrees: the lengths settle it. */
  lemma LengthSettles(all: seq<byte>, n: nat, str: seq<byte>)
    requires n <= |all| && |str| <= |all| && all[..|str|] == str
    ensures LexCmp(all[..n], str) == if n < |str| then -1 else if n > |str| then 1 else 0
  {
    PrefixesCompare(all, n, |str|);
  }

  /** All pages agree and `str` goes on: it is the longer one. */
  lemma PagesRunOut(all: seq<byte>, n: nat, str: seq<byte>)
    requires n <= |all| < |str| && all == str[..|all|]
    ensures LexCmp(all[..n], str) == -1
  {
    PrefixesCompare(str, n, |str|);
    assert str[..n] == all[..n] && str[..|str|] == str;
  }
}
