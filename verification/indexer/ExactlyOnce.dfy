/** Delivery against a server that pages faithfully through a growing chain. The indexer
    takes one event of each transaction, the first that does not belong to a failed call: the
    polls deliver exactly what those events decode to, in order, each once. Nothing is lost
    if and only if no other event of a transaction can be decoded, and delivery goes on as
    long as every page reaches an event of a successful call in a later ledger. */
module ExactlyOnce {
  import opened Common
  import opened Sync

  // ---------- The chain ----------

  predicate Complete<P>(e: RpcEvent<P>) {
    e.ledger.Some? && e.txIndex.Some? && e.txIndex.value >= 1
  }

  /** The key of a complete event. */
  function At<P>(e: RpcEvent<P>): Cursor {
    if e.ledger.Some? && e.txIndex.Some? then Cursor(e.ledger.value, e.txIndex.value) else Cursor(0, 0)
  }

  predicate Failed<P>(e: RpcEvent<P>) {
    e.successful == Some(false)
  }

  /** All events there will ever be, in order: complete, with keys that never decrease (the
      events of one transaction share theirs). */
  ghost predicate ValidChain<P>(chain: seq<RpcEvent<P>>) {
    && (forall i | 0 <= i < |chain| :: Complete(chain[i]))
    && (forall i, j | 0 <= i < j < |chain| :: NotAfter(At(chain[i]), At(chain[j])))
  }

  type Chain<P> = chain: seq<RpcEvent<P>> | ValidChain(chain) witness []

  /** Every stretch of 100 events, one page, reaches an event of a successful call in a later
      ledger than its first. Without failed calls that means fewer than 100 events a ledger. */
  ghost predicate Dense<P>(chain: seq<RpcEvent<P>>) {
    forall i: nat | i + 99 < |chain| :: ReachesLater(chain, i)
  }

  predicate ReachesLater<P>(chain: seq<RpcEvent<P>>, i: nat)
    requires i + 99 < |chain|
  {
    exists k | i < k <= i + 99 :: !Failed(chain[k]) && At(chain[i]).ledger < At(chain[k]).ledger
  }

  /** Event `i` is the first of its transaction that does not belong to a failed call. */
  predicate IsFirst<P>(chain: seq<RpcEvent<P>>, i: nat)
    requires i < |chain|
  {
    !Failed(chain[i]) && forall j | 0 <= j < i && At(chain[j]) == At(chain[i]) :: Failed(chain[j])
  }

  predicate AllFailed<P>(chain: seq<RpcEvent<P>>, from: nat, end: nat) {
    forall i | from <= i < end && i < |chain| :: Failed(chain[i])
  }

  /** The first `n` events end at the end of a ledger. */
  ghost predicate EndsLedger<P>(chain: seq<RpcEvent<P>>, n: nat) {
    n <= |chain| && (0 < n < |chain| ==> At(chain[n - 1]).ledger < At(chain[n]).ledger)
  }

  /** How many events come before ledger `l`. */
  function CountBefore<P>(chain: seq<RpcEvent<P>>, l: int): (n: nat)
    ensures n <= |chain|
  {
    if chain == [] then 0
    else if At(chain[|chain| - 1]).ledger < l then |chain|
    else CountBefore(chain[..|chain| - 1], l)
  }

  /** How many events are at or before a cursor. */
  function Position<P>(chain: seq<RpcEvent<P>>, c: Cursor): (n: nat)
    ensures n <= |chain|
  {
    if chain == [] then 0
    else if NotAfter(At(chain[|chain| - 1]), c) then |chain|
    else Position(chain[..|chain| - 1], c)
  }

  lemma {:induction false} CountBeforeAt<P>(chain: Chain<P>, l: int, i: nat)
    requires i < |chain|
    ensures i < CountBefore(chain, l) <==> At(chain[i]).ledger < l
  {
    var n := |chain| - 1;
    if i < n {
      assert NotAfter(At(chain[i]), At(chain[n]));
      if At(chain[n]).ledger >= l {
        CountBeforeAt(chain[..n], l, i);
      }
    }
  }

  lemma {:induction false} PositionAt<P>(chain: Chain<P>, c: Cursor, i: nat)
    requires i < |chain|
    ensures i < Position(chain, c) <==> NotAfter(At(chain[i]), c)
    ensures i >= Position(chain, c) <==> Before(c, At(chain[i]))
  {
    var n := |chain| - 1;
    if i < n {
      assert NotAfter(At(chain[i]), At(chain[n]));
      if Before(c, At(chain[n])) {
        PositionAt(chain[..n], c, i);
      }
    }
  }

  lemma PositionIs<P>(chain: Chain<P>, c: Cursor, n: nat)
    requires n <= |chain|
    requires n > 0 ==> NotAfter(At(chain[n - 1]), c)
    requires n < |chain| ==> Before(c, At(chain[n]))
    ensures Position(chain, c) == n
  {
    if n > 0 { PositionAt(chain, c, n - 1); }
    if n < |chain| { PositionAt(chain, c, n); }
  }

  // ---------- The faithful server ----------

  /** The page a faithful server returns when the first `n` events are visible. */
  function PageOf<P>(chain: seq<RpcEvent<P>>, n: nat, start: int): seq<RpcEvent<P>>
    requires n <= |chain|
  {
    var first := CountBefore(chain[..n], start);
    chain[first..if first + PAGE_LIMIT <= n then first + PAGE_LIMIT else n]
  }

  /** During one poll the k-th request sees the first `views[k]` events. The chain only
      grows, by whole ledgers. */
  ghost predicate Faithful<P>(chain: seq<RpcEvent<P>>, serve: Server<P>, views: seq<nat>) {
    && |views| == MAX_PAGES
    && (forall k | 0 <= k < MAX_PAGES :: EndsLedger(chain, views[k]))
    && (forall k, l | 0 <= k < l < MAX_PAGES :: views[k] <= views[l])
    && (forall k: nat, start: int | k < MAX_PAGES :: serve(k, start) == PageOf(chain, views[k], start))
  }

  /** A server that always shows the first `n` events is faithful. */
  lemma StillServerIsFaithful<P>(chain: seq<RpcEvent<P>>, n: nat)
    requires EndsLedger(chain, n)
    ensures Faithful(chain, (k, start) => PageOf(chain, n, start), seq(MAX_PAGES, _ => n))
  {
  }

  /** `emitted`, followed by what the first events of their transactions from index `from` to
      before `end` decode to. */
  function Extended<P, E>(decode: Decoder<P, E>, chain: seq<RpcEvent<P>>, emitted: seq<Emitted<E>>, from: nat, end: nat)
    : seq<Emitted<E>>
    requires end <= |chain|
  {
    if end <= from then emitted
    else
      var last := chain[end - 1];
      Extended(decode, chain, emitted, from, end - 1)
      + (if !IsFirst(chain, end - 1) then []
         else match decode(last) case Some(event) => [Emitted(At(last), event)] case None => [])
  }

  /** What a stretch of the chain is delivered as. */
  function Decoded<P, E>(decode: Decoder<P, E>, chain: seq<RpcEvent<P>>, from: nat, end: nat): seq<Emitted<E>>
    requires end <= |chain|
  {
    Extended(decode, chain, [], from, end)
  }

  lemma {:induction false} ExtendedTwice<P, E>(decode: Decoder<P, E>, chain: seq<RpcEvent<P>>, emitted: seq<Emitted<E>>,
                                               a: nat, b: nat, c: nat)
    requires a <= b <= c <= |chain|
    ensures Extended(decode, chain, Extended(decode, chain, emitted, a, b), b, c)
            == Extended(decode, chain, emitted, a, c)
    decreases c
  {
    if b < c {
      ExtendedTwice(decode, chain, emitted, a, b, c - 1);
    }
  }

  lemma {:induction false} ExtendedAppends<P, E>(decode: Decoder<P, E>, chain: seq<RpcEvent<P>>,
                                                 emitted: seq<Emitted<E>>, a: nat, b: nat)
    requires b <= |chain|
    ensures Extended(decode, chain, emitted, a, b) == emitted + Decoded(decode, chain, a, b)
    decreases b
  {
    if a < b {
      ExtendedAppends(decode, chain, emitted, a, b - 1);
    }
  }

  lemma {:induction false} FailedAddNothing<P, E>(decode: Decoder<P, E>, chain: seq<RpcEvent<P>>,
                                                  emitted: seq<Emitted<E>>, a: nat, b: nat, c: nat)
    requires b <= c <= |chain| && AllFailed(chain, b, c)
    ensures Extended(decode, chain, emitted, a, c) == Extended(decode, chain, emitted, a, b)
    decreases c
  {
    if b < c {
      assert Failed(chain[c - 1]);
      FailedAddNothing(decode, chain, emitted, a, b, c - 1);
    }
  }

  // ---------- One page ----------

  /** A page that overlaps what was already seen: the old events are skipped, the new ones
      absorbed in order. */
  lemma {:induction false} AbsorbStretch<P, E>(decode: Decoder<P, E>, chain: Chain<P>, s: Scan<E>, a: nat,
                                               b: nat)
    requires a <= b <= |chain| && a <= Position(chain, s.seen)
    ensures AbsorbPage(decode, s, chain[a..b]) == Stretched(decode, chain, s, Position(chain, s.seen), b)
    decreases b
  {
    if a == b {
      AbsorbNothing(decode, chain, s, a);
    } else {
      AbsorbStretch(decode, chain, s, a, b - 1);
      StretchGrows(decode, chain, s, a, b, AbsorbPage(decode, s, chain[a..b - 1]));
    }
  }

  lemma StretchGrows<P, E>(decode: Decoder<P, E>, chain: Chain<P>, s: Scan<E>, a: nat, b: nat, before: Scan<E>)
    requires a < b <= |chain| && before == AbsorbPage(decode, s, chain[a..b - 1])
    requires before == Stretched(decode, chain, s, Position(chain, s.seen), b - 1)
    ensures AbsorbPage(decode, s, chain[a..b]) == Stretched(decode, chain, s, Position(chain, s.seen), b)
  {
    AbsorbLast(decode, s, chain, a, b, before);
    NextStretch(decode, chain, s, b, before);
  }

  lemma NextStretch<P, E>(decode: Decoder<P, E>, chain: Chain<P>, s: Scan<E>, b: nat, before: Scan<E>)
    requires 0 < b <= |chain| && before == Stretched(decode, chain, s, Position(chain, s.seen), b - 1)
    ensures Absorb(decode, before, chain[b - 1]) == Stretched(decode, chain, s, Position(chain, s.seen), b)
  {
    PositionAround(chain, s.seen, b - 1);
    AbsorbNext(decode, chain, s, Position(chain, s.seen), b - 1, before);
  }

  lemma AbsorbNothing<P, E>(decode: Decoder<P, E>, chain: seq<RpcEvent<P>>, s: Scan<E>, a: nat)
    requires a <= |chain| && a <= Position(chain, s.seen)
    ensures AbsorbPage(decode, s, chain[a..a]) == Stretched(decode, chain, s, Position(chain, s.seen), a)
  {
  }

  lemma AbsorbLast<P, E>(decode: Decoder<P, E>, s: Scan<E>, chain: seq<RpcEvent<P>>, a: nat, b: nat, before: Scan<E>)
    requires a < b <= |chain| && before == AbsorbPage(decode, s, chain[a..b - 1])
    ensures AbsorbPage(decode, s, chain[a..b]) == Absorb(decode, before, chain[b - 1])
  {
    assert chain[a..b][..b - a - 1] == chain[a..b - 1];
  }

  /** The scan after the events up to `b`, if it had seen the first `p`. */
  function Stretched<P, E>(decode: Decoder<P, E>, chain: seq<RpcEvent<P>>, s: Scan<E>, p: nat, b: nat): Scan<E>
    requires b <= |chain|
  {
    if b <= p then s
    else if Failed(chain[b - 1]) then Stretched(decode, chain, s, p, b - 1)
    else Scan(At(chain[b - 1]), true, Extended(decode, chain, s.emitted, p, b))
  }

  /** The index behind the last event of a successful call from `p` on; `p` if there is none. */
  function BehindLast<P>(chain: seq<RpcEvent<P>>, p: nat, b: nat): nat
    requires b <= |chain|
  {
    if b <= p then p else if Failed(chain[b - 1]) then BehindLast(chain, p, b - 1) else b
  }

  lemma {:induction false} StretchedUpTo<P, E>(decode: Decoder<P, E>, chain: seq<RpcEvent<P>>, s: Scan<E>, p: nat,
                                               b: nat)
    requires p <= b <= |chain|
    ensures var j := BehindLast(chain, p, b);
            && p <= j <= b && AllFailed(chain, j, b)
            && Extended(decode, chain, s.emitted, p, b) == Extended(decode, chain, s.emitted, p, j)
            && if j == p then Stretched(decode, chain, s, p, b) == s
               else !Failed(chain[j - 1])
                    && Stretched(decode, chain, s, p, b)
                       == Scan(At(chain[j - 1]), true, Extended(decode, chain, s.emitted, p, j))
    decreases b
  {
    if p < b && Failed(chain[b - 1]) {
      StretchedUpTo(decode, chain, s, p, b - 1);
    }
  }

  lemma PositionAround<P>(chain: Chain<P>, seen: Cursor, i: nat)
    requires i < |chain|
    ensures if i < Position(chain, seen) then NotAfter(At(chain[i]), seen) else Before(seen, At(chain[i]))
    ensures forall k | 0 <= k < Position(chain, seen) :: NotAfter(At(chain[k]), seen)
  {
    PositionAt(chain, seen, i);
    forall k | 0 <= k < Position(chain, seen) ensures NotAfter(At(chain[k]), seen) {
      PositionAt(chain, seen, k);
    }
  }

  /** The scan `before` has just taken everything up to event `i`. */
  lemma AbsorbNext<P, E>(decode: Decoder<P, E>, chain: Chain<P>, s: Scan<E>, p: nat, i: nat, before: Scan<E>)
    requires i < |chain| && before == Stretched(decode, chain, s, p, i) && p <= |chain|
    requires forall k | 0 <= k < p :: NotAfter(At(chain[k]), s.seen)
    requires if i < p then NotAfter(At(chain[i]), s.seen) else Before(s.seen, At(chain[i]))
    ensures Absorb(decode, before, chain[i]) == Stretched(decode, chain, s, p, i + 1)
  {
    var e := chain[i];
    assert Complete(e) && KeyOf(e, before.seen) == At(e);
    if i < p || Failed(e) {
      assert Skips(before.seen, e);
    } else {
      StretchedUpTo(decode, chain, s, p, i);
      NewOrOld(chain, s.seen, p, i);
      assert before.emitted == Extended(decode, chain, s.emitted, p, i);
      assert Skips(before.seen, e) <==> !IsFirst(chain, i);
    }
  }

  /** An event of a successful call is the first of its transaction exactly if it lies beyond
      what was taken before it. */
  lemma NewOrOld<P>(chain: Chain<P>, seen: Cursor, p: nat, i: nat)
    requires p <= i < |chain| && !Failed(chain[i]) && Before(seen, At(chain[i]))
    requires forall k | 0 <= k < p :: NotAfter(At(chain[k]), seen)
    requires var j := BehindLast(chain, p, i);
             p <= j <= i && AllFailed(chain, j, i) && (j > p ==> !Failed(chain[j - 1]))
    ensures var j := BehindLast(chain, p, i);
            && (j == p ==> IsFirst(chain, i))
            && (j > p ==> NotAfter(At(chain[j - 1]), At(chain[i]))
                          && (IsFirst(chain, i) <==> At(chain[j - 1]) != At(chain[i])))
  {
    var j := BehindLast(chain, p, i);
    if j > p {
      assert NotAfter(At(chain[j - 1]), At(chain[i]));
      if At(chain[j - 1]) != At(chain[i]) {
        forall k | 0 <= k < i ensures At(chain[k]) == At(chain[i]) ==> Failed(chain[k]) {
          if k < j - 1 {
            assert NotAfter(At(chain[k]), At(chain[j - 1]));
          }
        }
      }
    }
  }

  /** Where the page for `start == seen.ledger` lies: it starts at or before the position of
      `seen`, and not before its ledger. */
  lemma PageReaches<P>(chain: Chain<P>, seen: Cursor, n: nat)
    requires n <= |chain|
    ensures var first := CountBefore(chain[..n], seen.ledger);
            && first <= n && first <= Position(chain, seen)
            && (first < n ==> seen.ledger <= At(chain[first]).ledger)
  {
    var view, p := chain[..n], Position(chain, seen);
    var first := CountBefore(view, seen.ledger);
    if p < n {
      CountBeforeAt(view, seen.ledger, p);
      PositionAt(chain, seen, p);
    }
    if first < n {
      CountBeforeAt(view, seen.ledger, first);
    }
  }

  lemma DensePageIsNew<P>(chain: Chain<P>, seen: Cursor, first: nat)
    requires Dense(chain) && first + 99 < |chain| && seen.ledger <= At(chain[first]).ledger
    ensures !AllFailed(chain, Position(chain, seen), first + 100)
  {
    assert ReachesLater(chain, first);
    var k :| first < k <= first + 99 && !Failed(chain[k]) && At(chain[first]).ledger < At(chain[k]).ledger;
    PositionAt(chain, seen, k);
  }

  // ---------- One poll ----------

  /** Where a scan stands on the chain. */
  ghost predicate OnChain<P, E>(chain: seq<RpcEvent<P>>, s: Scan<E>, visible: nat) {
    s.sawEvents ==> 0 < Position(chain, s.seen) <= visible && s.seen == At(chain[Position(chain, s.seen) - 1])
  }

  /** What the pages of a poll from scan `s` on achieve. */
  ghost predicate PollOutcome<P, E>(decode: Decoder<P, E>, chain: seq<RpcEvent<P>>, s: Scan<E>, s': Scan<E>,
                                    drained: bool, visible: nat, pagesLeft: nat) {
    var p, p' := Position(chain, s.seen), Position(chain, s'.seen);
    && p <= p'
    && p' <= |chain| && s'.emitted == Extended(decode, chain, s.emitted, p, p')
    && (!s'.sawEvents ==> s' == s)
    && (s'.sawEvents ==> 0 < p' && s'.seen == At(chain[p' - 1]))
    && (drained ==> AllFailed(chain, p', visible))
    && (drained && s'.sawEvents ==> RestOfLedgerFailed(chain, p', s'.seen.ledger))
    && (!drained && Dense(chain) ==> p + pagesLeft <= p')
  }

  predicate RestOfLedgerFailed<P>(chain: seq<RpcEvent<P>>, from: nat, ledger: int) {
    forall i | from <= i < |chain| && At(chain[i]).ledger <= ledger :: Failed(chain[i])
  }

  /** What the request after `k` others sees. */
  function Visible(views: seq<nat>, k: nat): nat
    requires |views| == MAX_PAGES
  {
    views[if k < MAX_PAGES then k else MAX_PAGES - 1]
  }

  /** The outcome of a poll from its request `k` on. */
  ghost predicate PagesExact<P, E>(chain: seq<RpcEvent<P>>, serve: Server<P>, decode: Decoder<P, E>, views: seq<nat>,
                                   s: Scan<E>, k: nat)
    requires |views| == MAX_PAGES && k <= MAX_PAGES
  {
    var result := Pages(serve, decode, s, k, s.seen.ledger);
    PollOutcome(decode, chain, s, result.0, result.1, Visible(views, k), MAX_PAGES - k)
  }

  lemma {:induction false} PagesAreExact<P, E>(chain: Chain<P>, serve: Server<P>, decode: Decoder<P, E>,
                                               views: seq<nat>, s: Scan<E>, k: nat)
    requires Faithful(chain, serve, views) && k <= MAX_PAGES
    requires OnChain(chain, s, Visible(views, k))
    ensures PagesExact(chain, serve, decode, views, s, k)
    decreases MAX_PAGES - k
  {
    if k == MAX_PAGES {
      NoStep(chain, serve, decode, views, s);
    } else {
      ServedPage(chain, serve, views, s.seen.ledger, k);
      if |serve(k, s.seen.ledger)| < PAGE_LIMIT {
        LastStep(chain, serve, decode, views, s, k);
      } else {
        FullPage(decode, chain, s, views[k], Visible(views, k + 1));
        var s' := AbsorbPage(decode, s, serve(k, s.seen.ledger));
        PagesAreExact(chain, serve, decode, views, s', k + 1);
        FullStep(chain, serve, decode, views, s, k);
      }
    }
  }

  lemma ServedPage<P>(chain: seq<RpcEvent<P>>, serve: Server<P>, views: seq<nat>, start: int, k: nat)
    requires Faithful(chain, serve, views) && k < MAX_PAGES
    ensures EndsLedger(chain, views[k]) && Visible(views, k) <= Visible(views, k + 1)
    ensures serve(k, start) == PageOf(chain, views[k], start)
  {
  }

  lemma NoStep<P, E>(chain: seq<RpcEvent<P>>, serve: Server<P>, decode: Decoder<P, E>, views: seq<nat>, s: Scan<E>)
    requires |views| == MAX_PAGES && OnChain(chain, s, Visible(views, MAX_PAGES))
    ensures PagesExact(chain, serve, decode, views, s, MAX_PAGES)
  {
  }

  lemma LastStep<P, E>(chain: Chain<P>, serve: Server<P>, decode: Decoder<P, E>, views: seq<nat>, s: Scan<E>,
                       k: nat)
    requires |views| == MAX_PAGES && k < MAX_PAGES
    requires EndsLedger(chain, views[k]) && OnChain(chain, s, views[k])
    requires serve(k, s.seen.ledger) == PageOf(chain, views[k], s.seen.ledger) && |serve(k, s.seen.ledger)| < PAGE_LIMIT
    ensures PagesExact(chain, serve, decode, views, s, k)
  {
    LastPage(decode, chain, s, views[k], MAX_PAGES - k);
  }

  lemma FullStep<P, E>(chain: seq<RpcEvent<P>>, serve: Server<P>, decode: Decoder<P, E>, views: seq<nat>, s: Scan<E>,
                       k: nat)
    requires |views| == MAX_PAGES && k < MAX_PAGES && Visible(views, k) <= Visible(views, k + 1)
    requires |serve(k, s.seen.ledger)| >= PAGE_LIMIT
    requires Moved(decode, chain, s, AbsorbPage(decode, s, serve(k, s.seen.ledger)))
    requires PagesExact(chain, serve, decode, views, AbsorbPage(decode, s, serve(k, s.seen.ledger)), k + 1)
    ensures PagesExact(chain, serve, decode, views, s, k)
  {
    var s' := AbsorbPage(decode, s, serve(k, s.seen.ledger));
    var result := Pages(serve, decode, s', k + 1, s'.seen.ledger);
    assert result == Pages(serve, decode, s, k, s.seen.ledger);
    OutcomesCompose(decode, chain, s, s', result.0, result.1, Visible(views, k), Visible(views, k + 1),
                    MAX_PAGES - k - 1);
  }

  /** A page that is not full shows everything visible; the poll ends on a ledger boundary. */
  lemma LastPage<P, E>(decode: Decoder<P, E>, chain: Chain<P>, s: Scan<E>, n: nat, pagesLeft: nat)
    requires EndsLedger(chain, n) && OnChain(chain, s, n)
    requires |PageOf(chain, n, s.seen.ledger)| < PAGE_LIMIT
    ensures PollOutcome(decode, chain, s, AbsorbPage(decode, s, PageOf(chain, n, s.seen.ledger)), true, n, pagesLeft)
  {
    var p, first := Position(chain, s.seen), CountBefore(chain[..n], s.seen.ledger);
    PageReaches(chain, s.seen, n);
    assert PageOf(chain, n, s.seen.ledger) == chain[first..n];
    AbsorbStretch(decode, chain, s, first, n);
    if n >= p {
      StretchMoves(decode, chain, s, n, n);
      LedgerIsDone(chain, Stretched(decode, chain, s, p, n), n);
    }
  }

  /** Behind the last event seen, the rest of its ledger is visible with it. */
  lemma LedgerIsDone<P, E>(chain: Chain<P>, s: Scan<E>, n: nat)
    requires EndsLedger(chain, n) && OnChain(chain, s, n) && AllFailed(chain, Position(chain, s.seen), n)
    ensures s.sawEvents ==> RestOfLedgerFailed(chain, Position(chain, s.seen), s.seen.ledger)
  {
    var p := Position(chain, s.seen);
    if s.sawEvents {
      assert p < n ==> NotAfter(At(chain[p - 1]), At(chain[n - 1]));
      forall i | n <= i < |chain| ensures s.seen.ledger < At(chain[i]).ledger {
        assert n < i ==> NotAfter(At(chain[n]), At(chain[i]));
      }
    }
  }

  /** `s'` stands on the chain beyond `s`, and delivered just what lies between. */
  ghost predicate Advanced<P, E>(decode: Decoder<P, E>, chain: seq<RpcEvent<P>>, s: Scan<E>, s': Scan<E>) {
    var p, p' := Position(chain, s.seen), Position(chain, s'.seen);
    && p < p' && s'.sawEvents && s'.seen == At(chain[p' - 1])
    && s'.emitted == Extended(decode, chain, s.emitted, p, p')
  }

  /** Nothing was new, or the scan moved on; and on a dense chain it moved on. */
  ghost predicate Moved<P, E>(decode: Decoder<P, E>, chain: seq<RpcEvent<P>>, s: Scan<E>, s': Scan<E>) {
    if s' == s then !Dense(chain) else Advanced(decode, chain, s, s')
  }

  lemma FullPage<P, E>(decode: Decoder<P, E>, chain: Chain<P>, s: Scan<E>, n: nat, later: nat)
    requires EndsLedger(chain, n) && n <= later && OnChain(chain, s, n)
    requires |PageOf(chain, n, s.seen.ledger)| >= PAGE_LIMIT
    ensures var s' := AbsorbPage(decode, s, PageOf(chain, n, s.seen.ledger));
            Moved(decode, chain, s, s') && OnChain(chain, s', later)
  {
    var p, first := Position(chain, s.seen), CountBefore(chain[..n], s.seen.ledger);
    var end := first + PAGE_LIMIT;
    PageReaches(chain, s.seen, n);
    AbsorbStretch(decode, chain, s, first, end);
    FullStretch(decode, chain, s, first, n);
  }

  lemma FullStretch<P, E>(decode: Decoder<P, E>, chain: Chain<P>, s: Scan<E>, first: nat, n: nat)
    requires EndsLedger(chain, n) && OnChain(chain, s, n) && first + 100 <= n
    requires s.seen.ledger <= At(chain[first]).ledger
    ensures var s' := Stretched(decode, chain, s, Position(chain, s.seen), first + 100);
            Moved(decode, chain, s, s') && OnChain(chain, s', n)
  {
    if Position(chain, s.seen) <= first + 100 {
      StretchMoves(decode, chain, s, first + 100, n);
    }
    if Dense(chain) {
      DensePageIsNew(chain, s.seen, first);
    }
  }

  /** Having taken the events up to `end`, the scan stands where it stood, or behind the
      transaction of the last event that was new; what follows up to `end` belongs to failed
      calls. */
  lemma StretchMoves<P, E>(decode: Decoder<P, E>, chain: Chain<P>, s: Scan<E>, end: nat, visible: nat)
    requires EndsLedger(chain, visible) && Position(chain, s.seen) <= end <= visible && OnChain(chain, s, visible)
    ensures var s' := Stretched(decode, chain, s, Position(chain, s.seen), end);
            && (s' == s || Advanced(decode, chain, s, s')) && OnChain(chain, s', visible)
            && AllFailed(chain, Position(chain, s'.seen), end)
  {
    var p := Position(chain, s.seen);
    var j := BehindLast(chain, p, end);
    StretchedUpTo(decode, chain, s, p, end);
    if j > p {
      StandsBehind(decode, chain, s, j, end, visible);
    }
  }

  lemma StandsBehind<P, E>(decode: Decoder<P, E>, chain: Chain<P>, s: Scan<E>, j: nat, end: nat, visible: nat)
    requires EndsLedger(chain, visible) && Position(chain, s.seen) < j <= end <= visible
    requires !Failed(chain[j - 1]) && AllFailed(chain, j, end)
    ensures var p := Position(chain, s.seen);
            var s' := Scan(At(chain[j - 1]), true, Extended(decode, chain, s.emitted, p, j));
            Advanced(decode, chain, s, s') && OnChain(chain, s', visible)
            && AllFailed(chain, Position(chain, s'.seen), end)
  {
    ReachedPosition(chain, j, visible);
    RestOfTransaction(decode, chain, s.emitted, Position(chain, s.seen), j, Position(chain, At(chain[j - 1])));
  }

  /** Having seen event `n - 1`, the scan is past the rest of its transaction, which is visible
      with it. */
  lemma ReachedPosition<P>(chain: Chain<P>, n: nat, visible: nat)
    requires 0 < n <= visible && EndsLedger(chain, visible)
    ensures n <= Position(chain, At(chain[n - 1])) <= visible
    ensures forall k | n <= k < Position(chain, At(chain[n - 1])) :: At(chain[k]) == At(chain[n - 1])
  {
    var seen := At(chain[n - 1]);
    PositionAt(chain, seen, n - 1);
    if visible < |chain| {
      assert NotAfter(seen, At(chain[visible - 1]));
      PositionAt(chain, seen, visible);
    }
    forall k | n <= k < Position(chain, seen) ensures At(chain[k]) == seen {
      PositionAt(chain, seen, k);
      assert NotAfter(seen, At(chain[k]));
    }
  }

  lemma {:induction false} RestOfTransaction<P, E>(decode: Decoder<P, E>, chain: seq<RpcEvent<P>>,
                                                   emitted: seq<Emitted<E>>, a: nat, n: nat, m: nat)
    requires 0 < n <= m <= |chain| && !Failed(chain[n - 1])
    requires forall k | n <= k < m :: At(chain[k]) == At(chain[n - 1])
    ensures Extended(decode, chain, emitted, a, m) == Extended(decode, chain, emitted, a, n)
    decreases m
  {
    if n < m {
      assert At(chain[m - 1]) == At(chain[n - 1]);
      assert !IsFirst(chain, m - 1);
      RestOfTransaction(decode, chain, emitted, a, n, m - 1);
    }
  }

  lemma OutcomesCompose<P, E>(decode: Decoder<P, E>, chain: seq<RpcEvent<P>>, s: Scan<E>, s': Scan<E>, s2: Scan<E>,
                              drained: bool, visible: nat, later: nat, pagesLeft: nat)
    requires visible <= later && Moved(decode, chain, s, s')
    requires PollOutcome(decode, chain, s', s2, drained, later, pagesLeft)
    ensures PollOutcome(decode, chain, s, s2, drained, visible, pagesLeft + 1)
  {
    if s' != s {
      ExtendedTwice(decode, chain, s.emitted, Position(chain, s.seen), Position(chain, s'.seen),
                    Position(chain, s2.seen));
    }
  }

  /** One poll of a faithful server delivers exactly what the first events of the transactions
      between the positions of the old and the new cursor decode to. On a dense chain it
      catches up with everything visible when it started, or moves on by at least one event a
      page, 50 in all. */
  lemma PollIsExact<P, E>(chain: Chain<P>, serve: Server<P>, decode: Decoder<P, E>, views: seq<nat>,
                          cursor: Cursor)
    requires Faithful(chain, serve, views)
    ensures var (emitted, cursor') := Fetch(serve, decode, cursor);
            var p, p' := Position(chain, cursor), Position(chain, cursor');
            && p <= p' && emitted == Decoded(decode, chain, p, p')
            && (Dense(chain) ==> AllFailed(chain, p', views[0]) || p + 50 <= p')
  {
    var s := Scan(cursor, false, []);
    PagesAreExact<P, E>(chain, serve, decode, views, s, 0);
    var result := Pages<P, E>(serve, decode, s, 0, cursor.ledger);
    CursorPosition(decode, chain, s, result.0, result.1, views[0], MAX_PAGES);
    FailedAddNothing<P, E>(decode, chain, [], Position(chain, cursor), Position(chain, result.0.seen),
                           Position(chain, Fetch<P, E>(serve, decode, cursor).1));
  }

  /** The new cursor stands where the scan ended, or behind events of failed calls after it. */
  lemma CursorPosition<P, E>(decode: Decoder<P, E>, chain: Chain<P>, s: Scan<E>, s': Scan<E>, drained: bool,
                             visible: nat, pagesLeft: nat)
    requires !s.sawEvents && PollOutcome(decode, chain, s, s', drained, visible, pagesLeft)
    ensures var c := NextCursor(s.seen, s'.seen, s'.sawEvents, drained);
            && Position(chain, s'.seen) <= Position(chain, c)
            && AllFailed(chain, Position(chain, s'.seen), Position(chain, c))
  {
    var p' := Position(chain, s'.seen);
    if drained && s'.sawEvents {
      var c := Cursor(s'.seen.ledger + 1, 0);
      PositionAt(chain, c, p' - 1);
      forall i | p' <= i < Position(chain, c) ensures Failed(chain[i]) {
        PositionAt(chain, c, i);
        assert Complete(chain[i]);
      }
    } else if s'.sawEvents {
      PositionAt(chain, s.seen, p' - 1);
    }
  }

  // ---------- All polls ----------

  ghost predicate AllFaithful<P>(chain: seq<RpcEvent<P>>, servers: seq<Server<P>>, views: seq<seq<nat>>) {
    |views| == |servers| && forall i | 0 <= i < |servers| :: Faithful(chain, servers[i], views[i])
  }

  /** Over all polls, what has been delivered is exactly what the first events of the
      transactions between the initial and the current cursor decode to, in chain order:
      none of them lost, none repeated. And on a dense chain delivery advances: whatever was
      visible throughout is reached at the rate of at least one event a page, 50 a poll. */
  lemma {:induction false} ExactlyOnceDelivery<P, E>(chain: Chain<P>, servers: seq<Server<P>>,
                                                     views: seq<seq<nat>>, decode: Decoder<P, E>, start: Progress<E>,
                                                     visible: nat)
    requires AllFaithful(chain, servers, views)
    requires forall i | 0 <= i < |servers| :: visible <= views[i][0]
    ensures var end := Polls(servers, decode, start);
            var p, p' := Position(chain, start.cursor), Position(chain, end.cursor);
            && p <= p' && end.delivered == start.delivered + Decoded(decode, chain, p, p')
            && (Dense(chain) && servers != [] ==> AllFailed(chain, p', visible) || p + 50 * |servers| <= p')
    decreases |servers|
  {
    var p := Position(chain, start.cursor);
    if servers != [] {
      var n := |servers| - 1;
      ExactlyOnceDelivery(chain, servers[..n], views[..n], decode, start, visible);
      var mid := Polls(servers[..n], decode, start);
      PollIsExact(chain, servers[n], decode, views[n], mid.cursor);
      var pm, p' := Position(chain, mid.cursor), Position(chain, Polls(servers, decode, start).cursor);
      ExtendedAppends(decode, chain, start.delivered, p, pm);
      ExtendedAppends(decode, chain, mid.delivered, pm, p');
      ExtendedTwice(decode, chain, start.delivered, p, pm, p');
      ExtendedAppends(decode, chain, start.delivered, p, p');
    }
  }

  /** Nothing is left behind on a dense chain: after enough polls everything that the first event of a
      transaction decodes to has been delivered, if that event was visible from the start and
      lies beyond the initial cursor. */
  lemma EventuallyDelivered<P, E>(chain: Chain<P>, servers: seq<Server<P>>, views: seq<seq<nat>>,
                                  decode: Decoder<P, E>, start: Progress<E>, visible: nat, i: nat)
    requires AllFaithful(chain, servers, views)
    requires visible <= |chain| && forall k | 0 <= k < |servers| :: visible <= views[k][0]
    requires Dense(chain) && servers != [] && 50 * |servers| >= visible
    requires Position(chain, start.cursor) <= i < visible && decode(chain[i]).Some? && IsFirst(chain, i)
    ensures Emitted(At(chain[i]), decode(chain[i]).value) in Polls(servers, decode, start).delivered
  {
    ExactlyOnceDelivery(chain, servers, views, decode, start, visible);
    var p, p' := Position(chain, start.cursor), Position(chain, Polls(servers, decode, start).cursor);
    DecodedContains(decode, chain, p, p', i);
  }

  lemma {:induction false} DecodedContains<P, E>(decode: Decoder<P, E>, chain: seq<RpcEvent<P>>, from: nat, end: nat,
                                                 i: nat)
    requires from <= i < end <= |chain| && decode(chain[i]).Some? && IsFirst(chain, i)
    ensures Emitted(At(chain[i]), decode(chain[i]).value) in Decoded(decode, chain, from, end)
    decreases end
  {
    if i < end - 1 {
      DecodedContains(decode, chain, from, end - 1, i);
    }
  }

  // ---------- When delivery stalls ----------

  /** A poll whose first page is full delivers nothing and leaves the cursor where it is if and
      only if no event of that page is both of a successful call and beyond the cursor. The
      next poll gets the same page, so that the indexer is stuck for good. */
  lemma PollStallsIff<P, E>(chain: Chain<P>, serve: Server<P>, decode: Decoder<P, E>, views: seq<nat>, cursor: Cursor)
    requires Faithful(chain, serve, views) && |PageOf(chain, views[0], cursor.ledger)| >= 100
    ensures Fetch<P, E>(serve, decode, cursor) == ([], cursor)
            <==> forall e | e in PageOf(chain, views[0], cursor.ledger) ::
                   e.successful == Some(false) || NotAfter(At(e), cursor)
  {
    var p, first := Position(chain, cursor), CountBefore(chain[..views[0]], cursor.ledger);
    var page := PageOf(chain, views[0], cursor.ledger);
    var s: Scan<E> := Scan(cursor, false, []);
    PageReaches(chain, cursor, views[0]);
    PageIsNewIff(chain, cursor, first, page);
    AbsorbStretch<P, E>(decode, chain, s, first, first + 100);
    if AllFailed(chain, p, first + 100) {
      NothingNew<P, E>(decode, chain, s, p, first + 100);
      StuckPages<P, E>(chain, serve, decode, views, s, 0);
    } else {
      NewPageMoves<P, E>(chain, serve, decode, views, s);
    }
  }

  lemma PageIsNewIff<P>(chain: Chain<P>, cursor: Cursor, first: nat, page: seq<RpcEvent<P>>)
    requires first + 100 <= |chain| && page == chain[first..first + 100] && first <= Position(chain, cursor)
    ensures AllFailed(chain, Position(chain, cursor), first + 100)
            <==> forall e | e in page :: Failed(e) || NotAfter(At(e), cursor)
  {
    var p := Position(chain, cursor);
    if AllFailed(chain, p, first + 100) {
      forall e | e in page ensures Failed(e) || NotAfter(At(e), cursor) {
        var k :| 0 <= k < 100 && page[k] == e;
        assert page[k] == chain[first + k];
        PositionAt(chain, cursor, first + k);
      }
    }
    if forall e | e in page :: Failed(e) || NotAfter(At(e), cursor) {
      forall i | p <= i < first + 100 ensures Failed(chain[i]) {
        assert page[i - first] == chain[i];
        PositionAt(chain, cursor, i);
      }
    }
  }

  lemma NothingNew<P, E>(decode: Decoder<P, E>, chain: seq<RpcEvent<P>>, s: Scan<E>, p: nat, b: nat)
    requires b <= |chain| && AllFailed(chain, p, b)
    ensures Stretched(decode, chain, s, p, b) == s
  {
    if p <= b {
      StretchedUpTo(decode, chain, s, p, b);
    }
  }

  lemma {:induction false} StuckPages<P, E>(chain: Chain<P>, serve: Server<P>, decode: Decoder<P, E>, views: seq<nat>,
                                            s: Scan<E>, k: nat)
    requires Faithful(chain, serve, views) && |PageOf(chain, views[0], s.seen.ledger)| >= 100 && k <= MAX_PAGES
    requires AbsorbPage(decode, s, PageOf(chain, views[0], s.seen.ledger)) == s
    ensures Pages(serve, decode, s, k, s.seen.ledger) == (s, false)
    decreases MAX_PAGES - k
  {
    if k < MAX_PAGES {
      SamePage(chain, serve, views, s.seen.ledger, k);
      StuckPages(chain, serve, decode, views, s, k + 1);
    }
  }

  lemma SamePage<P>(chain: Chain<P>, serve: Server<P>, views: seq<nat>, start: int, k: nat)
    requires Faithful(chain, serve, views) && |PageOf(chain, views[0], start)| >= 100 && k < MAX_PAGES
    ensures serve(k, start) == PageOf(chain, views[0], start)
  {
    assert k > 0 ==> views[0] <= views[k];
    SameStart(chain, views[0], views[k], start);
  }

  /** The chain grows behind the start of a page that exists. */
  lemma SameStart<P>(chain: Chain<P>, a: nat, b: nat, start: int)
    requires a <= b <= |chain| && CountBefore(chain[..a], start) < a
    ensures CountBefore(chain[..b], start) == CountBefore(chain[..a], start)
  {
    var first := CountBefore(chain[..a], start);
    CountBeforeAt(chain[..a], start, first);
    if first > 0 {
      CountBeforeAt(chain[..a], start, first - 1);
    }
    CountIs(chain[..b], start, first);
  }

  lemma CountIs<P>(chain: Chain<P>, l: int, n: nat)
    requires n < |chain| && At(chain[n]).ledger >= l && (n > 0 ==> At(chain[n - 1]).ledger < l)
    ensures CountBefore(chain, l) == n
  {
    CountBeforeAt(chain, l, n);
    if n > 0 {
      CountBeforeAt(chain, l, n - 1);
    }
  }

  lemma NewPageMoves<P, E>(chain: Chain<P>, serve: Server<P>, decode: Decoder<P, E>, views: seq<nat>, s: Scan<E>)
    requires Faithful(chain, serve, views) && !s.sawEvents && s.emitted == []
    requires |PageOf(chain, views[0], s.seen.ledger)| >= 100
    requires var first := CountBefore(chain[..views[0]], s.seen.ledger);
             !AllFailed(chain, Position(chain, s.seen), first + 100)
    ensures Fetch(serve, decode, s.seen).1 != s.seen
  {
    var first := CountBefore(chain[..views[0]], s.seen.ledger);
    PageReaches(chain, s.seen, views[0]);
    AbsorbStretch(decode, chain, s, first, first + 100);
    StretchMoves(decode, chain, s, first + 100, views[0]);
    var s' := AbsorbPage(decode, s, PageOf(chain, views[0], s.seen.ledger));
    assert Advanced(decode, chain, s, s');
    PagesAreExact(chain, serve, decode, views, s', 1);
    var result := Pages(serve, decode, s', 1, s'.seen.ledger);
    assert result == Pages(serve, decode, s, 0, s.seen.ledger);
    OneMorePage(decode, chain, s, s', result.0, result.1, Visible(views, 1));
    CursorPosition(decode, chain, s, result.0, result.1, 0, 0);
  }

  lemma OneMorePage<P, E>(decode: Decoder<P, E>, chain: Chain<P>, s: Scan<E>, s': Scan<E>, s2: Scan<E>, drained: bool,
                          visible: nat)
    requires Advanced(decode, chain, s, s') && PollOutcome(decode, chain, s', s2, drained, visible, MAX_PAGES - 1)
    ensures PollOutcome(decode, chain, s, s2, drained, 0, 0) && Position(chain, s.seen) < Position(chain, s2.seen)
  {
    OutcomesCompose(decode, chain, s, s', s2, drained, 0, visible, MAX_PAGES - 1);
  }

  // ---------- When nothing is lost ----------

  /** What every event of a successful call in a stretch of the chain decodes to. */
  function AllDecoded<P, E>(decode: Decoder<P, E>, chain: seq<RpcEvent<P>>, from: nat, end: nat): seq<Emitted<E>>
    requires end <= |chain|
  {
    if end <= from then []
    else
      var last := chain[end - 1];
      AllDecoded(decode, chain, from, end - 1)
      + (if Failed(last) then []
         else match decode(last) case Some(event) => [Emitted(At(last), event)] case None => [])
  }

  /** Only the first event of a transaction can be decoded, failed calls aside. */
  ghost predicate OnlyFirstsDecode<P, E>(decode: Decoder<P, E>, chain: seq<RpcEvent<P>>, from: nat, end: nat)
    requires end <= |chain|
  {
    forall i | from <= i < end && !Failed(chain[i]) && decode(chain[i]).Some? :: IsFirst(chain, i)
  }

  lemma {:induction false} FirstsAreAllIff<P, E>(decode: Decoder<P, E>, chain: seq<RpcEvent<P>>, from: nat, end: nat)
    requires end <= |chain|
    ensures |Decoded(decode, chain, from, end)| <= |AllDecoded(decode, chain, from, end)|
    ensures |Decoded(decode, chain, from, end)| == |AllDecoded(decode, chain, from, end)|
            <==> OnlyFirstsDecode(decode, chain, from, end)
    ensures OnlyFirstsDecode(decode, chain, from, end) ==>
              Decoded(decode, chain, from, end) == AllDecoded(decode, chain, from, end)
    decreases end
  {
    if from < end {
      FirstsAreAllIff(decode, chain, from, end - 1);
    }
  }

  /** Every decodable event of a successful call between the initial and the current cursor has
      been delivered, in order and once, if and only if among them only first events of a
      transaction can be decoded. */
  lemma NothingLostIffOnlyFirstsDecode<P, E>(chain: Chain<P>, servers: seq<Server<P>>, views: seq<seq<nat>>,
                                             decode: Decoder<P, E>, start: Progress<E>)
    requires AllFaithful(chain, servers, views)
    ensures var end := Polls(servers, decode, start);
            var p, p' := Position(chain, start.cursor), Position(chain, end.cursor);
            end.delivered == start.delivered + AllDecoded(decode, chain, p, p')
            <==> OnlyFirstsDecode(decode, chain, p, p')
  {
    ExactlyOnceDelivery(chain, servers, views, decode, start, 0);
    var p, p' := Position(chain, start.cursor), Position(chain, Polls(servers, decode, start).cursor);
    FirstsAreAllIff(decode, chain, p, p');
  }

  /** Two events of one transaction, as `bridge_in` publishes them: the registry's, which the
      decoder does not know, and the bridge's, which it does. */
  const TWO_EVENTS: seq<RpcEvent<bool>> :=
    [RpcEvent(Some(7), Some(1), Some(true), false), RpcEvent(Some(7), Some(1), Some(true), true)]

  function BridgeEvent(e: RpcEvent<bool>): Option<bool> {
    if e.payload then Some(true) else None
  }

  /** The second event is lost: it can be decoded, but no sequence of polls from ledger 1
      delivers anything, while the first poll that sees the transaction moves past it. */
  lemma SecondEventIsLost(servers: seq<Server<bool>>, views: seq<seq<nat>>)
    requires AllFaithful(TWO_EVENTS, servers, views)
    ensures ValidChain(TWO_EVENTS) && BridgeEvent(TWO_EVENTS[1]) == Some(true)
    ensures Polls(servers, BridgeEvent, Progress(Cursor(1, 0), [])).delivered == []
    ensures servers != [] && (forall i | 0 <= i < |views| :: views[i][0] == 2) ==>
              NotAfter(At(TWO_EVENTS[1]), Polls(servers, BridgeEvent, Progress(Cursor(1, 0), [])).cursor)
  {
    var start: Progress<bool> := Progress(Cursor(1, 0), []);
    var p, end := Position(TWO_EVENTS, start.cursor), Polls(servers, BridgeEvent, start);
    ExactlyOnceDelivery(TWO_EVENTS, servers, views, BridgeEvent, start, 0);
    NothingDecoded(p, Position(TWO_EVENTS, end.cursor));
    if servers != [] && forall i | 0 <= i < |views| :: views[i][0] == 2 {
      TransactionIsPassed(servers, views, start);
    }
  }

  lemma TransactionIsPassed(servers: seq<Server<bool>>, views: seq<seq<nat>>, start: Progress<bool>)
    requires AllFaithful(TWO_EVENTS, servers, views) && servers != []
    requires forall i | 0 <= i < |views| :: views[i][0] == 2
    ensures NotAfter(At(TWO_EVENTS[1]), Polls(servers, BridgeEvent, start).cursor)
  {
    ExactlyOnceDelivery(TWO_EVENTS, servers, views, BridgeEvent, start, 2);
    assert MAX_PAGES * |servers| >= MAX_PAGES;
    PositionAt(TWO_EVENTS, Polls(servers, BridgeEvent, start).cursor, 1);
  }

  lemma NothingDecoded(from: nat, end: nat)
    requires end <= |TWO_EVENTS|
    ensures Decoded(BridgeEvent, TWO_EVENTS, from, end) == []
    decreases end
  {
    if from < end {
      NothingDecoded(from, end - 1);
      assert end == 2 ==> !IsFirst(TWO_EVENTS, 1);
    }
  }

  /** A hundred events of failed calls in ledger 7, and one the decoder knows in ledger 8. */
  const FAILED_LEDGER: seq<RpcEvent<bool>> :=
    seq(100, i => RpcEvent(Some(7), Some(i + 1), Some(false), true)) + [RpcEvent(Some(8), Some(1), Some(true), true)]

  /** The event behind them is never delivered: from ledger 1 on, every poll that sees all of
      them leaves the indexer where it is. */
  lemma {:induction false} StuckForGood(servers: seq<Server<bool>>, views: seq<seq<nat>>)
    requires AllFaithful(FAILED_LEDGER, servers, views)
    requires forall i | 0 <= i < |views| :: views[i][0] == 101
    ensures ValidChain(FAILED_LEDGER) && IsFirst(FAILED_LEDGER, 100)
    ensures BridgeEvent(FAILED_LEDGER[100]) == Some(true)
    ensures Polls(servers, BridgeEvent, Progress(Cursor(1, 0), [])) == Progress(Cursor(1, 0), [])
    decreases |servers|
  {
    FailedLedgerIsValid();
    if servers != [] {
      var n := |servers| - 1;
      StuckForGood(servers[..n], views[..n]);
      FailedPage();
      PollStallsIff(FAILED_LEDGER, servers[n], BridgeEvent, views[n], Cursor(1, 0));
      assert Fetch(servers[n], BridgeEvent, Cursor(1, 0)) == ([], Cursor(1, 0));
    }
  }

  lemma FailedLedgerIsValid()
    ensures |FAILED_LEDGER| == 101 && ValidChain(FAILED_LEDGER) && IsFirst(FAILED_LEDGER, 100)
    ensures forall i | 0 <= i < 100 :: Failed(FAILED_LEDGER[i])
  {
  }

  lemma FailedPage()
    ensures |FAILED_LEDGER| == 101 && |PageOf(FAILED_LEDGER, 101, 1)| == 100
    ensures forall e | e in PageOf(FAILED_LEDGER, 101, 1) :: e.successful == Some(false)
  {
    FailedLedgerIsValid();
    assert FAILED_LEDGER[..101] == FAILED_LEDGER;
    if CountBefore(FAILED_LEDGER, 1) > 0 {
      CountBeforeAt(FAILED_LEDGER, 1, 0);
    }
    assert PageOf(FAILED_LEDGER, 101, 1) == FAILED_LEDGER[0..100];
  }
}
