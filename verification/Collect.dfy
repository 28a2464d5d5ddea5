/** Fetching every page of a listing (cmd/tamsctl/paginate.go, collectRemaining)
    from any server, and from a store that stands still. */
module Collect {
  import opened Base
  import opened Tables
  import opened Paging

  /** A reply: a failure, a body whose items do not parse, or a page. The token of
      the next page is absent at the end. */
  datatype Reply<T, K> = Failed | Garbled | Served(items: seq<T>, next: Option<K>)

  datatype CollectError<K> = FetchFailed | BadItems | NonAdvancing(token: K) | StoppedAtMaxPages

  /** The token in hand after the first page and n more. */
  function TokenAfter<T, K>(first: Option<K>, pages: seq<Reply<T, K>>): Option<K> {
    if pages == [] then first
    else if pages[|pages| - 1].Served? then pages[|pages| - 1].next else None
  }

  /** The last page named another token than the one it was asked for. */
  predicate Advances<T, K(==)>(first: Option<K>, pages: seq<Reply<T, K>>) {
    pages != [] ==> TokenAfter(first, pages[..|pages| - 1]) != TokenAfter(first, pages)
  }

  function AllItems<T, K>(first: seq<T>, pages: seq<Reply<T, K>>): seq<T> {
    if pages == [] then first
    else AllItems(first, pages[..|pages| - 1]) + if pages[|pages| - 1].Served? then pages[|pages| - 1].items else []
  }

  /** The server is one behaviour per call. The pages are what it served for the
      tokens it was sent, each token being the one the page before named. */
  predicate ServedBy<T(==), K(==)>(server: seq<K -> Reply<T, K>>, first: Option<K>, pages: seq<Reply<T, K>>) {
    && |pages| <= |server|
    && forall i :: 0 <= i < |pages| ==>
         && pages[i].Served? && TokenAfter(first, pages[..i]).Some?
         && server[i](TokenAfter(first, pages[..i]).value) == pages[i]
  }

  /** Follows the tokens and concatenates the items. A call past the last behaviour
      fails. Whatever the server does, the pages fetched are the ones it served
      along the tokens, there are fewer than maxPages of them when there is a
      maximum, and each way to end says exactly how it came about. */
  method CollectRemaining<T(==), K(==)>(first: Reply<T, K>, server: seq<K -> Reply<T, K>>, maxPages: int)
    returns (r: Result<seq<T>, CollectError<K>>, pages: seq<Reply<T, K>>)
    requires !first.Failed?
    ensures first.Garbled? ==> r == Err(BadItems) && pages == []
    ensures first.Served? ==>
      && ServedBy(server, first.next, pages)
      && (maxPages > 0 ==> 1 + |pages| <= maxPages)
      && var token := TokenAfter(first.next, pages);
         match r
         case Ok(all) => token.None? && all == AllItems(first.items, pages)
         case Err(NonAdvancing(t)) =>
           token == Some(t) && !Advances(first.next, pages)
         case Err(StoppedAtMaxPages) =>
           token.Some? && Advances(first.next, pages) && maxPages > 0 && 1 + |pages| == maxPages
         case Err(FetchFailed) =>
           && token.Some? && Advances(first.next, pages) && (|pages| == |server| || server[|pages|](token.value).Failed?)
           && (maxPages > 0 ==> 1 + |pages| < maxPages)
         case Err(BadItems) =>
           && token.Some? && Advances(first.next, pages) && |pages| < |server| && server[|pages|](token.value).Garbled?
           && (maxPages > 0 ==> 1 + |pages| < maxPages)
  {
    pages := [];
    if first.Garbled? { return Err(BadItems), pages; }
    var all := first.items;
    var prevToken: Option<K> := None;
    var token := first.next;
    while token.Some?
      invariant ServedBy(server, first.next, pages)
      invariant token == TokenAfter(first.next, pages) && all == AllItems(first.items, pages)
      invariant prevToken == if pages == [] then None else TokenAfter(first.next, pages[..|pages| - 1])
      invariant maxPages > 0 ==> 1 + |pages| <= maxPages
      decreases |server| - |pages|
    {
      if token == prevToken { return Err(NonAdvancing(token.value)), pages; }
      if maxPages > 0 && 1 + |pages| >= maxPages { return Err(StoppedAtMaxPages), pages; }
      if |pages| == |server| { return Err(FetchFailed), pages; }
      var page := server[|pages|](token.value);
      if page.Failed? { return Err(FetchFailed), pages; }
      if page.Garbled? { return Err(BadItems), pages; }
      all := all + page.items;
      assert (pages + [page])[..|pages|] == pages;
      assert forall i :: 0 <= i < |pages| ==> (pages + [page])[..i] == pages[..i];
      pages := pages + [page];
      prevToken, token := token, page.next;
    }
    return Ok(all), pages;
  }

  // ----- A store that stands still -----

  /** A page of a listing as a reply. */
  function ReplyOf(p: Page): Reply<Row, Key> { Served(p.items, p.next) }

  function PageReply(db: Db, q: ListQuery, w: Option<Window>, n: nat): Key -> Reply<Row, Key>
    requires n > 0
  {
    (k: Key) => ReplyOf(Cut(Listing(db.segments, q, w, Some(k)), n))
  }

  /** How many rows the first page and some more hold. */
  function Taken(all: nat, n: nat, pages: nat): (m: nat)
    requires n > 0
    ensures m <= all && (all > 0 ==> m > 0)
  {
    if pages == 0 then (if all <= n then all else n)
    else if Taken(all, n, pages - 1) + n <= all then Taken(all, n, pages - 1) + n else all
  }

  ghost predicate Standing(server: seq<Key -> Reply<Row, Key>>, db: Db, q: ListQuery, w: Option<Window>, n: nat)
    requires n > 0
  {
    forall i, k :: 0 <= i < |server| ==> server[i](k) == ReplyOf(Cut(Listing(db.segments, q, w, Some(k)), n))
  }

  /** After each page the items are a prefix of the listing, a page longer than
      before, and the token is the key of its last row while rows are left. */
  lemma {:induction false} PrefixServed(db: Db, q: ListQuery, w: Option<Window>, n: nat,
                                        server: seq<Key -> Reply<Row, Key>>, pages: seq<Reply<Row, Key>>)
    requires Ascending(db.segments, db.nextId) && n > 0 && Standing(server, db, q, w, n)
    requires ServedBy(server, Cut(Listing(db.segments, q, w, None), n).next, pages)
    ensures var all := Listing(db.segments, q, w, None);
            var m := Taken(|all|, n, |pages|);
            && AllItems(Cut(all, n).items, pages) == all[..m]
            && TokenAfter(Cut(all, n).next, pages) == if m < |all| then Some(KeyOf(all[m - 1])) else None
  {
    hide Listing, ServedBy, Taken, Cut;
    var all := Listing(db.segments, q, w, None);
    if pages == [] {
      FirstPrefix(all, n);
    } else {
      var j := |pages| - 1;
      FrontServed(server, Cut(all, n).next, pages);
      PrefixServed(db, q, w, n, server, pages[..j]);
      var m := Taken(|all|, n, j);
      ListingPast(db.segments, db.nextId, q, w, None, m - 1);
      assert pages[j] == ReplyOf(Cut(all[m..], n));
      NextPrefix(all, n, j);
    }
  }

  lemma FirstPrefix(all: seq<Row>, n: nat)
    requires n > 0
    ensures var m := Taken(|all|, n, 0);
            && Cut(all, n).items == all[..m]
            && Cut(all, n).next == if m < |all| then Some(KeyOf(all[m - 1])) else None
  {
    assert all[..|all|] == all;
  }

  lemma NextPrefix(all: seq<Row>, n: nat, j: nat)
    requires n > 0 && Taken(|all|, n, j) < |all|
    ensures var m, m' := Taken(|all|, n, j), Taken(|all|, n, j + 1);
            && m < m' && all[..m] + Cut(all[m..], n).items == all[..m']
            && Cut(all[m..], n).next == if m' < |all| then Some(KeyOf(all[m' - 1])) else None
  {
    var m := Taken(|all|, n, j);
    if |all[m..]| > n {
      assert all[..m] + all[m..][..n] == all[..m + n];
    } else {
      assert all[..m] + all[m..] == all && all[..|all|] == all;
    }
  }

  /** How many pages a listing fills; an empty one still takes the first. */
  function PagesNeeded(all: nat, n: nat): nat
    requires n > 0
  {
    if all <= n then 1 else 1 + PagesNeeded(all - n, n)
  }

  /** Collecting a whole standing listing gives every row once, in order, unless it
      takes more pages than the maximum. */
  method CollectListing(db: Db, q: ListQuery, w: Option<Window>, limit: int, maxPages: int)
    returns (r: Result<seq<Row>, CollectError<Key>>)
    requires Ascending(db.segments, db.nextId)
    ensures var all := Listing(db.segments, q, w, None);
            r == if maxPages > 0 && PagesNeeded(|all|, EffectiveLimit(limit)) > maxPages then Err(StoppedAtMaxPages) else Ok(all)
  {
    hide Listing, ServedBy, Taken, Cut, AllItems, TokenAfter, PagesNeeded, StrictlySorted;
    var n := EffectiveLimit(limit);
    var all := Listing(db.segments, q, w, None);
    var server := seq(|all|, i => PageReply(db, q, w, n));
    var first := ReplyOf(Cut(all, n));
    var pages;
    r, pages := CollectRemaining(first, server, maxPages);
    PrefixServed(db, q, w, n, server, pages);
    PageArithmetic(|all|, n, |pages|);
    assert all[..|all|] == all;
    if pages != [] {
      FrontServed(server, first.next, pages);
      PrefixServed(db, q, w, n, server, pages[..|pages| - 1]);
      TokensAdvance(db, q, w, n, |pages| - 1);
    }
  }

  /** Two pages of a standing listing never end on the same row. */
  lemma TokensAdvance(db: Db, q: ListQuery, w: Option<Window>, n: nat, j: nat)
    requires Ascending(db.segments, db.nextId) && n > 0
    ensures var all := Listing(db.segments, q, w, None);
            var m, m' := Taken(|all|, n, j), Taken(|all|, n, j + 1);
            m' < |all| ==> 0 < m < m' && KeyOf(all[m - 1]) != KeyOf(all[m' - 1])
  {
    hide Listing, Cut;
    ListingMembers(db, q, w, None);
    var all := Listing(db.segments, q, w, None);
  }

  /** The last page answers the token that the pages before it left in hand. */
  lemma FrontServed<T, K>(server: seq<K -> Reply<T, K>>, first: Option<K>, pages: seq<Reply<T, K>>)
    requires ServedBy(server, first, pages) && pages != []
    ensures var j := |pages| - 1;
            && ServedBy(server, first, pages[..j]) && TokenAfter(first, pages[..j]).Some?
            && j < |server| && pages[j].Served? && server[j](TokenAfter(first, pages[..j]).value) == pages[j]
  {
    var front := pages[..|pages| - 1];
    assert forall i :: 0 <= i < |front| ==> front[..i] == pages[..i];
  }

  lemma {:induction false} PageArithmetic(all: nat, n: nat, pages: nat)
    requires n > 0
    ensures Taken(all, n, pages) < all <==> 1 + pages < PagesNeeded(all, n)
    ensures Taken(all, n, pages) < all ==> 1 + pages <= all
  {
    if pages > 0 && all > n {
      PageArithmetic(all - n, n, pages - 1);
      TakenShift(all, n, pages);
    } else if pages > 0 {
      SmallTaken(all, n, pages);
    }
  }

  lemma {:induction false} TakenShift(all: nat, n: nat, pages: nat)
    requires n > 0 && all > n && pages > 0
    ensures Taken(all, n, pages) == n + Taken(all - n, n, pages - 1)
  {
    if pages == 1 {
    } else {
      TakenShift(all, n, pages - 1);
    }
  }

  lemma {:induction false} SmallTaken(all: nat, n: nat, pages: nat)
    requires n > 0 && all <= n
    ensures Taken(all, n, pages) == all
  {
    if pages == 0 {
    } else {
      SmallTaken(all, n, pages - 1);
    }
  }
}
