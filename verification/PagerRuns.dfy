// Any run of calls to the pager: what its caller may conclude from the answers
// alone, and that the pager agrees.
module PagerRuns {
  import opened PageCache
  import P = Pager

  datatype Call<V> =
    | Alloc
    | Write(page: nat, obj: Page<V>)
    | Free(page: nat)
    | WriteHeader(dbs: seq<nat>)
    | Commit
    | Discard

  /** What a call came to. A page that is not live, nor the first free one, is not
      written, and only a live one is freed. */
  datatype Answer<V> = Given(page: nat) | Wrote(page: nat, obj: Page<V>) | Freed(page: nat) | Refused | Done

  predicate Answers<V(==)>(call: Call<V>, answer: Answer<V>) {
    match call
    case Alloc => answer.Given?
    case Write(page, obj) => answer == Wrote(page, obj) || answer.Refused?
    case Free(page) => answer == Freed(page) || answer.Refused?
    case _ => answer.Done?
  }

  /** The pages a caller has and what it last wrote to them, now and at the last
      commit. */
  datatype Account<V> = Account(live: set<nat>, view: Store<V>, savedLive: set<nat>, savedView: Store<V>)

  ghost function Booked<V>(a: Account<V>, call: Call<V>, answer: Answer<V>): Account<V> {
    match answer
    case Given(p) => a.(live := a.live + {p}, view := a.view - {p})
    case Wrote(p, obj) => a.(live := a.live + {p}, view := a.view[p := obj])
    case Freed(p) => a.(live := a.live - {p}, view := a.view - {p})
    case Refused => a
    case Done =>
      if call.Commit? then Account(a.live, a.view, a.live, a.view)
      else if call.Discard? then Account(a.savedLive, a.savedView, a.savedLive, a.savedView)
      else a
  }

  /** The account after a run. */
  ghost function AccountOf<V>(calls: seq<Call<V>>, answers: seq<Answer<V>>): Account<V>
    requires |calls| == |answers|
  {
    if calls == [] then Account({}, map[], {}, map[])
    else
      var n := |calls| - 1;
      Booked(AccountOf(calls[..n], answers[..n]), calls[n], answers[n])
  }

  /** A page is never given out while it is live, and a refusal is due. */
  ghost predicate Right<V>(a: Account<V>, call: Call<V>, answer: Answer<V>) {
    && Answers(call, answer)
    && (answer.Given? ==> answer.page != 0 && answer.page !in a.live)
    && (answer.Freed? ==> answer.page in a.live)
    && (answer.Refused? && (call.Write? || call.Free?) ==> call.page !in a.live)
  }

  ghost predicate AllRight<V>(calls: seq<Call<V>>, answers: seq<Answer<V>>) {
    |calls| == |answers|
    && forall i :: 0 <= i < |calls| ==> Right(AccountOf(calls[..i], answers[..i]), calls[i], answers[i])
  }

  /** What is on the account can be read. */
  ghost predicate Shows<V>(live: set<nat>, view: Store<V>, pages: Store<V>) {
    forall p :: p in view ==> p in live && p in pages && pages[p] == view[p]
  }

  ghost predicate Agrees<V>(a: Account<V>, live: set<nat>, pages: Store<V>, savedLive: set<nat>, store: Store<V>) {
    && a.live == live && 0 !in live && Shows(live, a.view, pages)
    && a.savedLive == savedLive && 0 !in savedLive && Shows(savedLive, a.savedView, store)
  }

  // ---- One call

  lemma NothingBooked<V>()
    ensures Agrees<V>(AccountOf([], []), {}, map[], {}, map[])
  {}

  lemma GivenAgrees<V>(a: Account<V>, live: set<nat>, v: Store<V>, savedLive: set<nat>, store: Store<V>, w: Store<V>,
                       p: nat)
    requires Agrees(a, live, v, savedLive, store) && P.SamePages(v, w) && p != 0
    ensures Agrees(Booked(a, Alloc, Given(p)), live + {p}, w, savedLive, store)
  {}

  lemma WroteAgrees<V>(a: Account<V>, live: set<nat>, v: Store<V>, savedLive: set<nat>, store: Store<V>, w: Store<V>,
                       p: nat, obj: Page<V>)
    requires Agrees(a, live, v, savedLive, store) && P.Overwritten(v, w, p, obj) && p != 0
    ensures Agrees(Booked(a, Write(p, obj), Wrote(p, obj)), live + {p}, w, savedLive, store)
  {}

  lemma FreedAgrees<V>(a: Account<V>, live: set<nat>, v: Store<V>, savedLive: set<nat>, store: Store<V>, w: Store<V>,
                       p: nat, link: Page<V>)
    requires Agrees(a, live, v, savedLive, store) && P.Overwritten(v, w, p, link)
    ensures Agrees(Booked(a, Free(p), Freed(p)), live - {p}, w, savedLive, store)
  {}

  lemma SameAgrees<V>(a: Account<V>, live: set<nat>, v: Store<V>, savedLive: set<nat>, store: Store<V>, w: Store<V>)
    requires Agrees(a, live, v, savedLive, store) && P.SamePages(v, w)
    ensures Agrees(a, live, w, savedLive, store)
  {}

  lemma BookedMore<V>(c: seq<Call<V>>, a: seq<Answer<V>>, call: Call<V>, answer: Answer<V>)
    requires |c| == |a|
    ensures AccountOf(c + [call], a + [answer]) == Booked(AccountOf(c, a), call, answer)
  {
    assert (c + [call])[..|c|] == c && (a + [answer])[..|a|] == a;
  }

  lemma RightMore<V>(c: seq<Call<V>>, a: seq<Answer<V>>, call: Call<V>, answer: Answer<V>)
    requires AllRight(c, a) && Right(AccountOf(c, a), call, answer)
    ensures AllRight(c + [call], a + [answer])
  {
    hide Right, AccountOf;
    var c', a' := c + [call], a + [answer];
    forall k | 0 <= k < |c'| ensures Right(AccountOf(c'[..k], a'[..k]), c'[k], a'[k]) {
      assert c'[..k] == c[..k] && a'[..k] == a[..k];
      if k == |c| {
        assert c[..k] == c && a[..k] == a;
      }
    }
  }

  lemma OneCallMore<V>(calls: seq<Call<V>>, answers: seq<Answer<V>>, i: nat, answer: Answer<V>)
    requires i < |calls| && |answers| == i && AllRight(calls[..i], answers)
    requires Right(AccountOf(calls[..i], answers), calls[i], answer)
    ensures AllRight(calls[..i + 1], answers + [answer])
    ensures AccountOf(calls[..i + 1], answers + [answer]) == Booked(AccountOf(calls[..i], answers), calls[i], answer)
  {
    hide Right, Booked, AccountOf, AllRight;
    assert calls[..i + 1] == calls[..i] + [calls[i]];
    RightMore(calls[..i], answers, calls[i], answer);
    BookedMore(calls[..i], answers, calls[i], answer);
  }

  // ---- A whole run

  /** The live pages of the last commit. */
  ghost function SavedLive<V>(pager: P.Pager<V>): set<nat>
    reads pager
  {
    P.LivePages(pager.initialFree, pager.initialNumberOfPages)
  }

  ghost predicate InStep<V>(pager: P.Pager<V>, a: Account<V>)
    reads pager
  {
    pager.Valid() && Agrees(a, pager.Live(), pager.Pages(), SavedLive(pager), pager.store)
  }

  lemma NoPagesYet()
    ensures P.LivePages([], 1) == {}
  {
    assert forall p :: p !in P.LivePages([], 1);
  }

  method Start<V>(dbs: seq<nat>) returns (pager: P.Pager<V>)
    ensures fresh(pager) && InStep(pager, AccountOf([], []))
  {
    hide P.Caches, P.FreeChain;
    pager := new P.Pager(dbs);
    NoPagesYet();
    NothingBooked<V>();
  }

  /** One call. `live` and `saved` are the caller's own books. */
  method Take<V>(pager: P.Pager<V>, call: Call<V>, live: set<nat>, ghost a: Account<V>) returns (answer: Answer<V>)
    requires InStep(pager, a) && live == a.live
    modifies pager
    ensures Right(a, call, answer) && InStep(pager, Booked(a, call, answer))
  {
    hide P.FreeChain, P.Caches, View, AsMap, Shows, P.SamePages, P.Overwritten, P.LivePages;
    ghost var was, v, s, store := pager.Live(), pager.Pages(), SavedLive(pager), pager.store;
    match call
    case Alloc =>
      var page := pager.AllocPageNumber();
      answer := Given(page);
      GivenAgrees(a, was, v, s, store, pager.Pages(), page);
    case Write(page, obj) =>
      if page == pager.nextEmpty || page in live {
        FirstFree(pager);
        pager.Write(page, obj);
        answer := Wrote(page, obj);
        WroteAgrees(a, was, v, s, store, pager.Pages(), page, obj);
      } else {
        answer := Refused;
      }
    case Free(page) =>
      if page in live {
        ghost var link := Long(pager.nextEmpty);
        pager.Delete(page);
        answer := Freed(page);
        FreedAgrees(a, was, v, s, store, pager.Pages(), page, link);
      } else {
        answer := Refused;
      }
    case WriteHeader(dbs) =>
      pager.WriteHeader(dbs);
      answer := Done;
      SameAgrees(a, was, v, s, store, pager.Pages());
    case Commit =>
      pager.Commit();
      answer := Done;
    case Discard =>
      pager.Discard();
      answer := Done;
  }

  lemma FirstFree<V>(pager: P.Pager<V>)
    requires pager.Valid()
    ensures pager.nextEmpty != 0
  {
    hide P.Caches;
    P.ChainEmpty(pager.Pages(), pager.free, pager.nextEmpty, pager.numberOfPages);
    if pager.free != [] {
      assert P.LinkAt(pager.Pages(), pager.free, 0, pager.numberOfPages);
    }
  }

  /** Any calls one after the other. By the answers alone the caller knows its
      pages and what they hold, now and after a discard; the free chain is all
      the other pages. */
  method Perform<V>(dbs: seq<nat>, calls: seq<Call<V>>) returns (pager: P.Pager<V>, answers: seq<Answer<V>>)
    ensures pager.Valid() && AllRight(calls, answers)
    ensures var a := AccountOf(calls, answers);
      && Shows(a.live, a.view, pager.Pages()) && Shows(a.savedLive, a.savedView, pager.store)
      && P.Members(pager.free) !! a.live && P.Members(pager.free) + a.live == P.Below(pager.numberOfPages)
      && |pager.free| + |a.live| == pager.numberOfPages - 1
  {
    hide Right, Booked, Agrees, AllRight, Shows, P.FreeChain, P.Caches;
    pager := Start(dbs);
    answers := [];
    var live, saved: set<nat> := {}, {};
    NothingWrong<V>();
    assert calls[..0] == [];
    for i := 0 to |calls|
      invariant |answers| == i && fresh(pager) && AllRight(calls[..i], answers)
      invariant live == AccountOf(calls[..i], answers).live && saved == AccountOf(calls[..i], answers).savedLive
      invariant InStep(pager, AccountOf(calls[..i], answers))
    {
      ghost var a := AccountOf(calls[..i], answers);
      var answer := Take(pager, calls[i], live, a);
      OneCallMore(calls, answers, i, answer);
      BookedLive(a, calls[i], answer);
      match answer {
        case Given(p) => live := live + {p};
        case Wrote(p, _) => live := live + {p};
        case Freed(p) => live := live - {p};
        case Refused =>
        case Done =>
          if calls[i].Commit? {
            saved := live;
          } else if calls[i].Discard? {
            live := saved;
          }
      }
      answers := answers + [answer];
    }
    assert calls[..|calls|] == calls;
    Settled(pager, AccountOf(calls, answers));
  }

  lemma NothingWrong<V>()
    ensures AllRight<V>([], []) && AccountOf<V>([], []).live == {} && AccountOf<V>([], []).savedLive == {}
  {}

  lemma BookedLive<V>(a: Account<V>, call: Call<V>, answer: Answer<V>)
    ensures var b := Booked(a, call, answer);
      match answer
      case Given(p) => b.live == a.live + {p} && b.savedLive == a.savedLive
      case Wrote(p, _) => b.live == a.live + {p} && b.savedLive == a.savedLive
      case Freed(p) => b.live == a.live - {p} && b.savedLive == a.savedLive
      case Refused => b == a
      case Done =>
        && b.live == (if call.Discard? then a.savedLive else a.live)
        && b.savedLive == (if call.Commit? then a.live else a.savedLive)
  {}

  lemma Settled<V>(pager: P.Pager<V>, a: Account<V>)
    requires InStep(pager, a)
    ensures pager.Valid() && Shows(a.live, a.view, pager.Pages()) && Shows(a.savedLive, a.savedView, pager.store)
    ensures P.Members(pager.free) !! a.live && P.Members(pager.free) + a.live == P.Below(pager.numberOfPages)
    ensures |pager.free| + |a.live| == pager.numberOfPages - 1
  {
    hide P.Caches, Shows, P.Members, P.LivePages;
    P.PagesSplit(pager.Pages(), pager.free, pager.nextEmpty, pager.numberOfPages);
  }
}
