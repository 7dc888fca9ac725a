/** The event indexer: the page loop of `fetchEvents` and the persistent cursor. */
module Sync {
  import opened Common

  const PAGE_LIMIT: nat := 100
  const MAX_PAGES: nat := 50

  /** A position on the chain: a ledger and a transaction index within it. */
  datatype Cursor = Cursor(ledger: int, txIndex: int)

  predicate Before(a: Cursor, b: Cursor) {
    a.ledger < b.ledger || (a.ledger == b.ledger && a.txIndex < b.txIndex)
  }

  predicate NotAfter(a: Cursor, b: Cursor) {
    a == b || Before(a, b)
  }

  /** An event as the RPC returns it; every field may be missing. */
  datatype RpcEvent<P> = RpcEvent(ledger: Option<int>, txIndex: Option<int>, successful: Option<bool>, payload: P)

  /** `rpcEvent.ledger ?? seen.ledgerSequence` and `rpcEvent.txIndex ?? 0` */
  function KeyOf<P>(e: RpcEvent<P>, seen: Cursor): Cursor {
    Cursor(if e.ledger.Some? then e.ledger.value else seen.ledger,
           if e.txIndex.Some? then e.txIndex.value else 0)
  }

  /** The server during one poll: the page it returns for the k-th request, which starts at
      the given ledger. Any pages at all; a failed call is an empty page. */
  type Server<!P> = (nat, int) -> seq<RpcEvent<P>>

  /** The decoder `parseRpcEvent`; events it does not know give None. */
  type Decoder<!P, !E> = RpcEvent<P> -> Option<E>

  datatype Emitted<E> = Emitted(key: Cursor, event: E)

  /** How far a poll has come: the last key seen, whether any event was new, and what was
      emitted so far, with its keys. */
  datatype Scan<E> = Scan(seen: Cursor, sawEvents: bool, emitted: seq<Emitted<E>>)

  predicate Skips<P>(seen: Cursor, e: RpcEvent<P>) {
    e.successful == Some(false) || NotAfter(KeyOf(e, seen), seen)
  }

  function Absorb<P, E>(decode: Decoder<P, E>, s: Scan<E>, e: RpcEvent<P>): Scan<E> {
    if Skips(s.seen, e) then s
    else
      var key := KeyOf(e, s.seen);
      Scan(key, true, s.emitted + (match decode(e) case Some(event) => [Emitted(key, event)] case None => []))
  }

  function AbsorbPage<P, E>(decode: Decoder<P, E>, s: Scan<E>, page: seq<RpcEvent<P>>): Scan<E> {
    if page == [] then s
    else Absorb(decode, AbsorbPage(decode, s, page[..|page| - 1]), page[|page| - 1])
  }

  /** A poll from page `k` on: the scan at its end, and whether the server was drained. */
  function Pages<P, E>(serve: Server<P>, decode: Decoder<P, E>, s: Scan<E>, k: nat, start: int): (Scan<E>, bool)
    requires k <= MAX_PAGES
    decreases MAX_PAGES - k
  {
    if k == MAX_PAGES then (s, false)
    else
      var page := serve(k, start);
      if page == [] then (s, true)
      else
        var s' := AbsorbPage(decode, s, page);
        if |page| < PAGE_LIMIT then (s', true) else Pages(serve, decode, s', k + 1, s'.seen.ledger)
  }

  function NextCursor(cursor: Cursor, seen: Cursor, sawEvents: bool, drained: bool): Cursor {
    if drained && sawEvents then Cursor(seen.ledger + 1, 0)
    else if Before(cursor, seen) then seen
    else cursor
  }

  /** What one poll emits and where it leaves the cursor. */
  function Fetch<P, E>(serve: Server<P>, decode: Decoder<P, E>, cursor: Cursor): (seq<Emitted<E>>, Cursor) {
    var (s, drained) := Pages(serve, decode, Scan(cursor, false, []), 0, cursor.ledger);
    (s.emitted, NextCursor(cursor, s.seen, s.sawEvents, drained))
  }

  function Events<E>(emitted: seq<Emitted<E>>): seq<E> {
    seq(|emitted|, i requires 0 <= i < |emitted| => emitted[i].event)
  }

  class IndexerSync {
    var cursor: Cursor
    const contractIds: seq<string>
    var warnedNoContracts: bool

    /** `configured` is what the configuration lists, used when no contracts are given. */
    constructor (initial: Option<Cursor>, contractIds: seq<string>, configured: seq<string>)
      ensures cursor == (if initial.Some? then initial.value else Cursor(1, 0))
      ensures this.contractIds == (if contractIds != [] then contractIds else configured) && !warnedNoContracts
    {
      cursor := if initial.Some? then initial.value else Cursor(1, 0);
      this.contractIds := if |contractIds| > 0 then contractIds else configured;
      warnedNoContracts := false;
    }

    /** One poll. Without configured contracts it does nothing. */
    method FetchEvents<P, E>(serve: Server<P>, decode: Decoder<P, E>) returns (events: seq<E>)
      modifies this
      ensures contractIds == [] ==> events == [] && cursor == old(cursor) && warnedNoContracts
      ensures contractIds != [] ==>
                events == Events(Fetch(serve, decode, old(cursor)).0) && cursor == Fetch(serve, decode, old(cursor)).1
                && warnedNoContracts == old(warnedNoContracts)
    {
      if |contractIds| == 0 {
        warnedNoContracts := true;
        return [];
      }
      events := [];
      ghost var emitted: seq<Emitted<E>> := [];
      var seen := cursor;
      var startLedger := cursor.ledger;
      var pageCount := 0;
      var drained := false;
      var sawEvents := false;
      while pageCount < MAX_PAGES
        invariant pageCount <= MAX_PAGES && !drained
        invariant events == Events(emitted)
        invariant cursor == old(cursor) && warnedNoContracts == old(warnedNoContracts)
        invariant Pages(serve, decode, Scan(seen, sawEvents, emitted), pageCount, startLedger)
                  == Pages(serve, decode, Scan(old(cursor), false, []), 0, old(cursor).ledger)
        decreases MAX_PAGES - pageCount
      {
        var page := serve(pageCount, startLedger);
        if |page| == 0 {
          drained := true;
          break;
        }
        ghost var before := Scan(seen, sawEvents, emitted);
        for i := 0 to |page|
          invariant Scan(seen, sawEvents, emitted) == AbsorbPage(decode, before, page[..i])
          invariant events == Events(emitted)
        {
          var rpcEvent := page[i];
          assert page[..i + 1][..i] == page[..i];
          if rpcEvent.successful == Some(false) { continue; }
          var evLedger := if rpcEvent.ledger.Some? then rpcEvent.ledger.value else seen.ledger;
          var evTxIndex := if rpcEvent.txIndex.Some? then rpcEvent.txIndex.value else 0;
          if evLedger < seen.ledger || (evLedger == seen.ledger && evTxIndex <= seen.txIndex) {
            continue;
          }
          sawEvents := true;
          var parsed := decode(rpcEvent);
          if parsed.Some? {
            events := events + [parsed.value];
            emitted := emitted + [Emitted(Cursor(evLedger, evTxIndex), parsed.value)];
          }
          if evLedger > seen.ledger || (evLedger == seen.ledger && evTxIndex > seen.txIndex) {
            seen := Cursor(evLedger, evTxIndex);
          }
        }
        assert page[..|page|] == page;
        if |page| < PAGE_LIMIT {
          drained := true;
          break;
        }
        startLedger := seen.ledger;
        pageCount := pageCount + 1;
      }
      if drained && sawEvents {
        cursor := Cursor(seen.ledger + 1, 0);
      } else if seen.ledger > cursor.ledger || (seen.ledger == cursor.ledger && seen.txIndex > cursor.txIndex) {
        cursor := seen;
      }
    }
  }

  // ---------- Runs ----------

  /** The state of the indexer: its cursor, and everything delivered so far. */
  datatype Progress<E> = Progress(cursor: Cursor, delivered: seq<Emitted<E>>)

  function Poll<P, E>(serve: Server<P>, decode: Decoder<P, E>, p: Progress<E>): Progress<E> {
    var (emitted, cursor) := Fetch(serve, decode, p.cursor);
    Progress(cursor, p.delivered + emitted)
  }

  function Polls<P, E>(servers: seq<Server<P>>, decode: Decoder<P, E>, p: Progress<E>): Progress<E> {
    if servers == [] then p
    else Poll(servers[|servers| - 1], decode, Polls(servers[..|servers| - 1], decode, p))
  }

  // ---------- At most once, against any server ----------

  /** Keys strictly increase, start after `from`, and do not run past `to`. */
  ghost predicate StrictlyBetween<E>(from: Cursor, emitted: seq<Emitted<E>>, to: Cursor) {
    && NotAfter(from, to)
    && (forall i, j | 0 <= i < j < |emitted| :: Before(emitted[i].key, emitted[j].key))
    && (forall i | 0 <= i < |emitted| :: Before(from, emitted[i].key) && NotAfter(emitted[i].key, to))
  }

  lemma {:induction false} PageIncreases<P, E>(decode: Decoder<P, E>, from: Cursor, s: Scan<E>, page: seq<RpcEvent<P>>)
    requires StrictlyBetween(from, s.emitted, s.seen)
    ensures var s' := AbsorbPage(decode, s, page);
            StrictlyBetween(from, s'.emitted, s'.seen) && NotAfter(s.seen, s'.seen) && s.emitted <= s'.emitted
            && (s.sawEvents ==> s'.sawEvents)
    decreases |page|
  {
    if page != [] {
      PageIncreases(decode, from, s, page[..|page| - 1]);
    }
  }

  lemma {:induction false} PagesIncrease<P, E>(serve: Server<P>, decode: Decoder<P, E>, from: Cursor, s: Scan<E>,
                                               k: nat, start: int)
    requires k <= MAX_PAGES && StrictlyBetween(from, s.emitted, s.seen)
    ensures var s' := Pages(serve, decode, s, k, start).0; StrictlyBetween(from, s'.emitted, s'.seen)
    decreases MAX_PAGES - k
  {
    if k < MAX_PAGES && serve(k, start) != [] {
      var page := serve(k, start);
      PageIncreases(decode, from, s, page);
      if |page| >= PAGE_LIMIT {
        var s' := AbsorbPage(decode, s, page);
        PagesIncrease(serve, decode, from, s', k + 1, s'.seen.ledger);
      }
    }
  }

  /** Whatever the server returns, one poll emits strictly increasing keys beyond the old
      cursor and not beyond the new one; in particular the cursor never moves back. */
  lemma PollIncreases<P, E>(serve: Server<P>, decode: Decoder<P, E>, cursor: Cursor)
    ensures StrictlyBetween(cursor, Fetch(serve, decode, cursor).0, Fetch(serve, decode, cursor).1)
  {
    PagesIncrease(serve, decode, cursor, Scan(cursor, false, []), 0, cursor.ledger);
  }

  /** Over any number of polls of any servers no key is delivered twice, and the cursor only
      moves forward. */
  lemma {:induction false} AtMostOnce<P, E>(servers: seq<Server<P>>, decode: Decoder<P, E>, p: Progress<E>,
                                            from: Cursor)
    requires StrictlyBetween(from, p.delivered, p.cursor)
    ensures var p' := Polls(servers, decode, p);
            StrictlyBetween(from, p'.delivered, p'.cursor) && NotAfter(p.cursor, p'.cursor)
    decreases |servers|
  {
    if servers != [] {
      var n := |servers| - 1;
      AtMostOnce(servers[..n], decode, p, from);
      PollIncreases(servers[n], decode, Polls(servers[..n], decode, p).cursor);
    }
  }

  // ---------- What is delivered, against any server ----------

  /** `e` may be delivered under `key`: it does not belong to a failed call, and the key is its
      own, where a missing transaction index counts as 0. */
  predicate MayBeDelivered<P>(e: RpcEvent<P>, key: Cursor) {
    && e.successful != Some(false)
    && (e.ledger.Some? ==> key.ledger == e.ledger.value)
    && key.txIndex == (if e.txIndex.Some? then e.txIndex.value else 0)
  }

  ghost predicate IsServed<P>(serve: Server<P>, e: RpcEvent<P>) {
    exists k: nat, start: int :: k < 50 && e in serve(k, start)
  }

  /** `x` is what a served event decodes to that may be delivered under the key of `x`. */
  ghost predicate IsFromServer<P, E>(serve: Server<P>, decode: Decoder<P, E>, x: Emitted<E>) {
    exists k: nat, start: int, i: nat | k < 50 && i < |serve(k, start)| ::
      MayBeDelivered(serve(k, start)[i], x.key) && decode(serve(k, start)[i]) == Some(x.event)
  }

  ghost predicate AllServed<P, E>(serve: Server<P>, decode: Decoder<P, E>, emitted: seq<Emitted<E>>) {
    forall i | 0 <= i < |emitted| :: IsFromServer(serve, decode, emitted[i])
  }

  lemma {:induction false} PageIsServed<P, E>(serve: Server<P>, decode: Decoder<P, E>, s: Scan<E>,
                                              page: seq<RpcEvent<P>>)
    requires AllServed(serve, decode, s.emitted) && forall e | e in page :: IsServed(serve, e)
    ensures AllServed(serve, decode, AbsorbPage(decode, s, page).emitted)
    decreases |page|
  {
    if page != [] {
      var front, last := page[..|page| - 1], page[|page| - 1];
      PageIsServed(serve, decode, s, front);
      EventIsServed(serve, decode, AbsorbPage(decode, s, front), last);
    }
  }

  lemma EventIsServed<P, E>(serve: Server<P>, decode: Decoder<P, E>, s: Scan<E>, e: RpcEvent<P>)
    requires AllServed(serve, decode, s.emitted) && IsServed(serve, e)
    ensures AllServed(serve, decode, Absorb(decode, s, e).emitted)
  {
    var s' := Absorb(decode, s, e);
    if |s'.emitted| > |s.emitted| {
      var x := s'.emitted[|s.emitted|];
      var k: nat, start: int :| k < 50 && e in serve(k, start);
      var i: nat :| i < |serve(k, start)| && serve(k, start)[i] == e;
      assert MayBeDelivered(serve(k, start)[i], x.key) && decode(serve(k, start)[i]) == Some(x.event);
      assert IsFromServer(serve, decode, x);
    }
  }

  lemma {:induction false} PagesAreServed<P, E>(serve: Server<P>, decode: Decoder<P, E>, s: Scan<E>, k: nat, start: int)
    requires k <= MAX_PAGES && AllServed(serve, decode, s.emitted)
    ensures AllServed(serve, decode, Pages(serve, decode, s, k, start).0.emitted)
    decreases MAX_PAGES - k
  {
    if k < MAX_PAGES && serve(k, start) != [] {
      PageIsServed(serve, decode, s, serve(k, start));
      var s' := AbsorbPage(decode, s, serve(k, start));
      PagesAreServed(serve, decode, s', k + 1, s'.seen.ledger);
    }
  }

  /** Whatever the server returns, a poll emits nothing that it did not serve, and nothing of a
      failed call. */
  lemma OnlyServedEventsAreEmitted<P, E>(serve: Server<P>, decode: Decoder<P, E>, cursor: Cursor)
    ensures AllServed(serve, decode, Fetch(serve, decode, cursor).0)
  {
    PagesAreServed(serve, decode, Scan(cursor, false, []), 0, cursor.ledger);
  }

  lemma {:induction false} FailedPageIsSkipped<P, E>(decode: Decoder<P, E>, s: Scan<E>, page: seq<RpcEvent<P>>)
    requires forall e | e in page :: e.successful == Some(false)
    ensures AbsorbPage(decode, s, page) == s
    decreases |page|
  {
    if page != [] {
      FailedPageIsSkipped(decode, s, page[..|page| - 1]);
    }
  }

  lemma {:induction false} FailedPagesAreSkipped<P, E>(serve: Server<P>, decode: Decoder<P, E>, s: Scan<E>, k: nat)
    requires k <= MAX_PAGES && forall e | IsServed(serve, e) :: e.successful == Some(false)
    ensures Pages(serve, decode, s, k, s.seen.ledger).0 == s
    decreases MAX_PAGES - k
  {
    if k < MAX_PAGES {
      var page := serve(k, s.seen.ledger);
      forall e | e in page ensures e.successful == Some(false) {
        assert IsServed(serve, e);
      }
      FailedPageIsSkipped(decode, s, page);
      FailedPagesAreSkipped(serve, decode, s, k + 1);
    }
  }

  /** A poll that is served events of failed calls only emits nothing and keeps the cursor. */
  lemma FailedCallsChangeNothing<P, E>(serve: Server<P>, decode: Decoder<P, E>, cursor: Cursor)
    requires forall e | IsServed(serve, e) :: e.successful == Some(false)
    ensures Fetch(serve, decode, cursor) == ([], cursor)
  {
    FailedPagesAreSkipped(serve, decode, Scan(cursor, false, []), 0);
  }

  /** A poll that is served a single event takes it if and only if its call did not fail and it
      lies beyond the cursor, where a missing ledger counts as the cursor's and a missing
      transaction index as 0. Having taken it, the cursor moves on to the next ledger. */
  lemma OneEventPoll<P, E>(serve: Server<P>, decode: Decoder<P, E>, cursor: Cursor, e: RpcEvent<P>)
    requires serve(0, cursor.ledger) == [e]
    ensures var ledger := if e.ledger.Some? then e.ledger.value else cursor.ledger;
            var txIndex := if e.txIndex.Some? then e.txIndex.value else 0;
            Fetch(serve, decode, cursor) ==
            if e.successful != Some(false)
               && (ledger > cursor.ledger || (ledger == cursor.ledger && txIndex > cursor.txIndex))
            then (match decode(e) case Some(event) => [Emitted(Cursor(ledger, txIndex), event)] case None => [],
                  Cursor(ledger + 1, 0))
            else ([], cursor)
  {
    assert [e][..0] == [];
    var s: Scan<E> := Scan(cursor, false, []);
    assert AbsorbPage(decode, s, [e]) == Absorb(decode, s, e);
    assert Pages(serve, decode, s, 0, cursor.ledger) == (Absorb(decode, s, e), true);
    if decode(e).Some? {
      assert [] + [Emitted(KeyOf(e, cursor), decode(e).value)] == [Emitted(KeyOf(e, cursor), decode(e).value)];
    }
  }

  /** A poll makes at most fifty requests: what the server would answer later has no effect. */
  lemma FiftyRequestsAtMost<P, E>(a: Server<P>, b: Server<P>, decode: Decoder<P, E>, cursor: Cursor)
    requires forall k: nat, start: int | k < 50 :: a(k, start) == b(k, start)
    ensures Fetch(a, decode, cursor) == Fetch(b, decode, cursor)
  {
    SamePages(a, b, decode, Scan(cursor, false, []), 0, cursor.ledger);
  }

  lemma {:induction false} SamePages<P, E>(a: Server<P>, b: Server<P>, decode: Decoder<P, E>, s: Scan<E>, k: nat,
                                           start: int)
    requires k <= MAX_PAGES && forall k: nat, start: int | k < 50 :: a(k, start) == b(k, start)
    ensures Pages(a, decode, s, k, start) == Pages(b, decode, s, k, start)
    decreases MAX_PAGES - k
  {
    if k < MAX_PAGES && a(k, start) != [] && |a(k, start)| >= PAGE_LIMIT {
      var s' := AbsorbPage(decode, s, a(k, start));
      SamePages(a, b, decode, s', k + 1, s'.seen.ledger);
    }
  }

  /** Fifty full pages end a poll without catching up: then the cursor stays, or it is the key of
      a served event, so that the next poll resumes right behind it. */
  lemma LimitedPollResumes<P, E>(serve: Server<P>, decode: Decoder<P, E>, cursor: Cursor)
    requires forall k: nat, start: int | k < 50 :: |serve(k, start)| >= 100
    ensures var cursor' := Fetch(serve, decode, cursor).1;
            IsCursorOrServed(serve, cursor, cursor')
  {
    FullPagesAreTaken(serve, decode, cursor, Scan(cursor, false, []), 0);
  }

  lemma {:induction false} FullPagesAreTaken<P, E>(serve: Server<P>, decode: Decoder<P, E>, cursor: Cursor, s: Scan<E>,
                                                   k: nat)
    requires forall k: nat, start: int | k < 50 :: |serve(k, start)| >= 100
    requires k <= MAX_PAGES && IsCursorOrServed(serve, cursor, s.seen)
    ensures !Pages(serve, decode, s, k, s.seen.ledger).1
    ensures IsCursorOrServed(serve, cursor, Pages(serve, decode, s, k, s.seen.ledger).0.seen)
    decreases MAX_PAGES - k
  {
    if k < MAX_PAGES {
      var page := serve(k, s.seen.ledger);
      PageSeenIsServed(serve, decode, cursor, s, page);
      FullPagesAreTaken(serve, decode, cursor, AbsorbPage(decode, s, page), k + 1);
    }
  }

  ghost predicate IsCursorOrServed<P>(serve: Server<P>, cursor: Cursor, seen: Cursor) {
    seen == cursor
    || exists k: nat, start: int, i: nat | k < 50 && i < |serve(k, start)| :: MayBeDelivered(serve(k, start)[i], seen)
  }

  lemma {:induction false} PageSeenIsServed<P, E>(serve: Server<P>, decode: Decoder<P, E>, cursor: Cursor, s: Scan<E>,
                                                  page: seq<RpcEvent<P>>)
    requires IsCursorOrServed(serve, cursor, s.seen) && forall e | e in page :: IsServed(serve, e)
    ensures IsCursorOrServed(serve, cursor, AbsorbPage(decode, s, page).seen)
    decreases |page|
  {
    if page != [] {
      var front, last := page[..|page| - 1], page[|page| - 1];
      PageSeenIsServed(serve, decode, cursor, s, front);
      assert last in page;
      var before := AbsorbPage(decode, s, front);
      if !Skips(before.seen, last) {
        var k: nat, start: int :| k < 50 && last in serve(k, start);
        var i: nat :| i < |serve(k, start)| && serve(k, start)[i] == last;
        assert MayBeDelivered(serve(k, start)[i], KeyOf(last, before.seen));
      }
    }
  }
}
