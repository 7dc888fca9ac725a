/** The Scope 3 summary: three breakdowns of the retirements, accumulated in one pass into
    insertion-ordered maps and sorted by descending tonnes. Tonnes are exact numbers. */
module Summary {
  datatype Row = Row(creditId: int, methodology: string, geography: string, vintageYear: int, tonnes: real)

  datatype Group = Group(tonnes: real, retirements: nat)
  datatype Entry<K> = Entry(key: K, tonnes: real, retirements: nat)

  datatype Report = Report(
    totalTonnes: real, totalRetirements: nat, totalCredits: nat,
    byMethodology: seq<Entry<string>>, byGeography: seq<Entry<string>>, byVintage: seq<Entry<int>>)

  /** `value || 'UNKNOWN'` */
  function OrUnknown(s: string): string { if s == "" then "UNKNOWN" else s }

  // ---------- Insertion-ordered maps ----------

  /** A JavaScript `Map`: its keys in the order they were first set, and their values. */
  datatype Groups<K(==)> = Groups(keys: seq<K>, groups: map<K, Group>)

  function Accumulated<K>(g: Groups<K>, key: K, tonnes: real): Groups<K> {
    var current := if key in g.groups then g.groups[key] else Group(0.0, 0);
    Groups(if key in g.groups then g.keys else g.keys + [key],
           g.groups[key := Group(current.tonnes + tonnes, current.retirements + 1)])
  }

  function Grouped<K>(rows: seq<Row>, keyOf: Row -> K): Groups<K> {
    if rows == [] then Groups([], map[])
    else
      var last := rows[|rows| - 1];
      Accumulated(Grouped(rows[..|rows| - 1], keyOf), keyOf(last), last.tonnes)
  }

  /** Every key is listed once, and exactly the listed keys have a value. */
  ghost predicate KeysListed<K>(g: Groups<K>) {
    && (forall i, j | 0 <= i < j < |g.keys| :: g.keys[i] != g.keys[j])
    && (forall k | k in g.keys :: k in g.groups)
    && (forall k | k in g.groups :: k in g.keys)
  }

  class GroupMap<K(==)> {
    var keys: seq<K>
    var groups: map<K, Group>

    function Contents(): Groups<K>
      reads this
    {
      Groups(keys, groups)
    }

    constructor ()
      ensures Contents() == Groups([], map[])
    {
      keys, groups := [], map[];
    }

    method Accumulate(key: K, tonnes: real)
      modifies this
      ensures Contents() == Accumulated(old(Contents()), key, tonnes)
    {
      var current := if key in groups then groups[key] else Group(0.0, 0);
      current := current.(tonnes := current.tonnes + tonnes);
      current := current.(retirements := current.retirements + 1);
      if key !in groups {
        keys := keys + [key];
      }
      groups := groups[key := current];
    }
  }

  // ---------- Sorting ----------

  function EntriesOf<K>(g: Groups<K>): seq<Entry<K>>
    requires KeysListed(g)
  {
    seq(|g.keys|, i requires 0 <= i < |g.keys| =>
      assert g.keys[i] in g.keys; Entry(g.keys[i], g.groups[g.keys[i]].tonnes, g.groups[g.keys[i]].retirements))
  }

  /** Puts `e` after every entry with at least as many tonnes. */
  function Insert<K>(sorted: seq<Entry<K>>, e: Entry<K>): seq<Entry<K>> {
    if sorted == [] then [e]
    else
      var last := sorted[|sorted| - 1];
      if last.tonnes >= e.tonnes then sorted + [e] else Insert(sorted[..|sorted| - 1], e) + [last]
  }

  /** The library's stable sort by `b.tonnes - a.tonnes`. */
  function SortDescending<K>(entries: seq<Entry<K>>): seq<Entry<K>> {
    if entries == [] then []
    else Insert(SortDescending(entries[..|entries| - 1]), entries[|entries| - 1])
  }

  /** `x` stands before `y` in `entries`. */
  ghost predicate Before<K>(entries: seq<Entry<K>>, x: Entry<K>, y: Entry<K>) {
    exists i, j | 0 <= i < j < |entries| :: entries[i] == x && entries[j] == y
  }

  /** Descending by tonnes, ties in the order of the original list. */
  ghost predicate SortedFrom<K>(entries: seq<Entry<K>>, sorted: seq<Entry<K>>) {
    forall i, j | 0 <= i < j < |sorted| ::
      sorted[i].tonnes > sorted[j].tonnes
      || (sorted[i].tonnes == sorted[j].tonnes && Before(entries, sorted[i], sorted[j]))
  }

  lemma {:induction false} InsertContents<K>(sorted: seq<Entry<K>>, e: Entry<K>)
    ensures multiset(Insert(sorted, e)) == multiset(sorted) + multiset{e}
    decreases |sorted|
  {
    if sorted != [] {
      var front, last := sorted[..|sorted| - 1], sorted[|sorted| - 1];
      assert sorted == front + [last];
      InsertContents(front, e);
    }
  }

  lemma {:induction false} InsertKeepsOrder<K>(entries: seq<Entry<K>>, sorted: seq<Entry<K>>, e: Entry<K>)
    requires SortedFrom(entries, sorted)
    requires forall i | 0 <= i < |sorted| :: sorted[i].tonnes < e.tonnes || Before(entries, sorted[i], e)
    ensures SortedFrom(entries, Insert(sorted, e))
    ensures forall i | 0 <= i < |Insert(sorted, e)| :: Insert(sorted, e)[i] == e || Insert(sorted, e)[i] in sorted
    decreases |sorted|
  {
    if sorted != [] {
      var front, last := sorted[..|sorted| - 1], sorted[|sorted| - 1];
      InsertKeepsOrder(entries, front, e);
      if last.tonnes < e.tonnes {
        var result := Insert(front, e);
        forall i | 0 <= i < |result| ensures result[i].tonnes > last.tonnes
                                             || (result[i].tonnes == last.tonnes && Before(entries, result[i], last)) {
          if result[i] != e {
            var k :| 0 <= k < |front| && front[k] == result[i];
            assert sorted[k] == result[i];
          }
        }
      } else {
        SortedTail(entries, sorted, e);
      }
    }
  }

  /** If the last entry has at least as many tonnes as `e`, so has every entry. */
  lemma SortedTail<K>(entries: seq<Entry<K>>, sorted: seq<Entry<K>>, e: Entry<K>)
    requires SortedFrom(entries, sorted) && sorted != [] && sorted[|sorted| - 1].tonnes >= e.tonnes
    ensures forall i | 0 <= i < |sorted| :: sorted[i].tonnes >= e.tonnes
  {
  }

  /** The sort loses and invents nothing, orders by descending tonnes, and keeps ties in
      their original order. */
  lemma {:induction false} SortIsStable<K>(entries: seq<Entry<K>>)
    ensures multiset(SortDescending(entries)) == multiset(entries)
    ensures SortedFrom(entries, SortDescending(entries))
    decreases |entries|
  {
    if entries != [] {
      var front, last := entries[..|entries| - 1], entries[|entries| - 1];
      SortIsStable(front);
      var sorted := SortDescending(front);
      assert entries == front + [last];
      InsertContents(sorted, last);
      BeforeGrows(front, last, sorted);
      InsertKeepsOrder(entries, sorted, last);
    }
  }

  lemma BeforeGrows<K>(front: seq<Entry<K>>, last: Entry<K>, sorted: seq<Entry<K>>)
    requires SortedFrom(front, sorted) && multiset(sorted) == multiset(front)
    ensures SortedFrom(front + [last], sorted)
    ensures forall i | 0 <= i < |sorted| :: Before(front + [last], sorted[i], last)
  {
    var entries := front + [last];
    forall x, y | Before(front, x, y) ensures Before(entries, x, y) {
      var i, j :| 0 <= i < j < |front| && front[i] == x && front[j] == y;
      assert entries[i] == x && entries[j] == y;
    }
    forall i | 0 <= i < |sorted| ensures Before(entries, sorted[i], last) {
      assert sorted[i] in multiset(sorted);
      assert sorted[i] in multiset(front);
      var k :| 0 <= k < |front| && front[k] == sorted[i];
      assert entries[k] == sorted[i] && entries[|front|] == last;
    }
  }

  // ---------- The naive group-by ----------

  /** The tonnes of all rows that map to `key`, added up. */
  function SumFor<K(==)>(rows: seq<Row>, keyOf: Row -> K, key: K): real {
    if rows == [] then 0.0
    else SumFor(rows[..|rows| - 1], keyOf, key)
         + (if keyOf(rows[|rows| - 1]) == key then rows[|rows| - 1].tonnes else 0.0)
  }

  function CountFor<K(==)>(rows: seq<Row>, keyOf: Row -> K, key: K): nat {
    if rows == [] then 0
    else CountFor(rows[..|rows| - 1], keyOf, key) + (if keyOf(rows[|rows| - 1]) == key then 1 else 0)
  }

  function TotalTonnes(rows: seq<Row>): real {
    if rows == [] then 0.0 else TotalTonnes(rows[..|rows| - 1]) + rows[|rows| - 1].tonnes
  }

  function EntryTonnes<K>(entries: seq<Entry<K>>): real {
    if entries == [] then 0.0 else EntryTonnes(entries[..|entries| - 1]) + entries[|entries| - 1].tonnes
  }

  function EntryRetirements<K>(entries: seq<Entry<K>>): nat {
    if entries == [] then 0 else EntryRetirements(entries[..|entries| - 1]) + entries[|entries| - 1].retirements
  }

  lemma {:induction false} GroupedKeys<K>(rows: seq<Row>, keyOf: Row -> K)
    ensures KeysListed(Grouped(rows, keyOf))
  {
    if rows != [] {
      GroupedKeys(rows[..|rows| - 1], keyOf);
    }
  }

  /** The accumulated map holds, for exactly the keys that occur, their naive sum and count. */
  lemma {:induction false} GroupedIsNaive<K>(rows: seq<Row>, keyOf: Row -> K, k: K)
    ensures var g := Grouped(rows, keyOf).groups;
            && (k in g <==> CountFor(rows, keyOf, k) > 0)
            && (k in g ==> g[k] == Group(SumFor(rows, keyOf, k), CountFor(rows, keyOf, k)))
            && (k !in g ==> SumFor(rows, keyOf, k) == 0.0)
  {
    if rows != [] {
      GroupedIsNaive(rows[..|rows| - 1], keyOf, k);
    }
  }

  lemma {:induction false} KeyOccurs<K>(rows: seq<Row>, keyOf: Row -> K, k: K)
    ensures CountFor(rows, keyOf, k) > 0 <==> exists r | r in rows :: keyOf(r) == k
  {
    if rows != [] {
      var front, last := rows[..|rows| - 1], rows[|rows| - 1];
      assert rows == front + [last];
      KeyOccurs(front, keyOf, k);
      assert last in rows;
    }
  }

  /** Adding to one key adds to the totals over all keys. */
  lemma {:induction false} EntriesSnoc<K>(entries: seq<Entry<K>>, e: Entry<K>)
    ensures EntryTonnes(entries + [e]) == EntryTonnes(entries) + e.tonnes
    ensures EntryRetirements(entries + [e]) == EntryRetirements(entries) + e.retirements
  {
    assert (entries + [e])[..|entries|] == entries;
  }

  lemma {:induction false} EntriesUpdate<K>(entries: seq<Entry<K>>, i: nat, e: Entry<K>)
    requires i < |entries|
    ensures EntryTonnes(entries[i := e]) == EntryTonnes(entries) - entries[i].tonnes + e.tonnes
    ensures EntryRetirements(entries[i := e]) == EntryRetirements(entries) - entries[i].retirements + e.retirements
    decreases |entries|
  {
    var n := |entries| - 1;
    if i == n {
      assert entries[i := e][..n] == entries[..n];
    } else {
      assert entries[i := e][..n] == entries[..n][i := e];
      EntriesUpdate(entries[..n], i, e);
    }
  }

  lemma {:induction false} GroupedTotals<K>(rows: seq<Row>, keyOf: Row -> K)
    requires KeysListed(Grouped(rows, keyOf))
    ensures EntryTonnes(EntriesOf(Grouped(rows, keyOf))) == TotalTonnes(rows)
    ensures EntryRetirements(EntriesOf(Grouped(rows, keyOf))) == |rows|
    decreases |rows|
  {
    if rows != [] {
      var front, last := rows[..|rows| - 1], rows[|rows| - 1];
      GroupedKeys(front, keyOf);
      GroupedTotals(front, keyOf);
      AccumulatedTotals(Grouped(front, keyOf), keyOf(last), last.tonnes);
    }
  }

  lemma AccumulatedTotals<K>(g: Groups<K>, key: K, tonnes: real)
    requires KeysListed(g) && KeysListed(Accumulated(g, key, tonnes))
    ensures EntryTonnes(EntriesOf(Accumulated(g, key, tonnes))) == EntryTonnes(EntriesOf(g)) + tonnes
    ensures EntryRetirements(EntriesOf(Accumulated(g, key, tonnes))) == EntryRetirements(EntriesOf(g)) + 1
  {
    var g' := Accumulated(g, key, tonnes);
    var e := Entry(key, g'.groups[key].tonnes, g'.groups[key].retirements);
    if key in g.groups {
      var i :| 0 <= i < |g.keys| && g.keys[i] == key;
      assert EntriesOf(g') == EntriesOf(g)[i := e];
      EntriesUpdate(EntriesOf(g), i, e);
    } else {
      assert EntriesOf(g') == EntriesOf(g) + [e];
      EntriesSnoc(EntriesOf(g), e);
    }
  }

  // ---------- The summary ----------

  predicate HasKey<K(==)>(entries: seq<Entry<K>>, k: K) {
    exists i | 0 <= i < |entries| :: entries[i].key == k
  }

  /** A breakdown is the naive group-by: distinct keys, exactly those that occur, each with
      the sum and count of exactly its rows; most tonnes first, ties in the order in which
      the keys first occur. */
  ghost predicate IsBreakdown<K>(rows: seq<Row>, keyOf: Row -> K, entries: seq<Entry<K>>) {
    && (forall i, j | 0 <= i < j < |entries| :: entries[i].key != entries[j].key)
    && (forall r | r in rows :: HasKey(entries, keyOf(r)))
    && (forall i | 0 <= i < |entries| :: exists r | r in rows :: keyOf(r) == entries[i].key)
    && (forall i | 0 <= i < |entries| ::
          entries[i].tonnes == SumFor(rows, keyOf, entries[i].key)
          && entries[i].retirements == CountFor(rows, keyOf, entries[i].key))
    && SortedFrom(EntriesInOrder(rows, keyOf), entries)
    && EntryTonnes(entries) == TotalTonnes(rows)
    && EntryRetirements(entries) == |rows|
  }

  /** The distinct keys of the rows in the order of their first occurrence, with their sums. */
  function EntriesInOrder<K(==)>(rows: seq<Row>, keyOf: Row -> K): seq<Entry<K>> {
    var keys := KeysInOrder(rows, keyOf);
    seq(|keys|, i requires 0 <= i < |keys| =>
      Entry(keys[i], SumFor(rows, keyOf, keys[i]), CountFor(rows, keyOf, keys[i])))
  }

  function KeysInOrder<K(==)>(rows: seq<Row>, keyOf: Row -> K): seq<K> {
    if rows == [] then []
    else
      var front, key := KeysInOrder(rows[..|rows| - 1], keyOf), keyOf(rows[|rows| - 1]);
      if key in front then front else front + [key]
  }

  lemma {:induction false} GroupedKeysInOrder<K>(rows: seq<Row>, keyOf: Row -> K)
    ensures Grouped(rows, keyOf).keys == KeysInOrder(rows, keyOf)
  {
    if rows != [] {
      GroupedKeysInOrder(rows[..|rows| - 1], keyOf);
      GroupedKeys(rows[..|rows| - 1], keyOf);
    }
  }

  function Breakdown<K(==)>(rows: seq<Row>, keyOf: Row -> K): seq<Entry<K>>
    requires KeysListed(Grouped(rows, keyOf))
  {
    SortDescending(EntriesOf(Grouped(rows, keyOf)))
  }

  lemma {:induction false} SumsPermute<K>(a: seq<Entry<K>>, b: seq<Entry<K>>)
    requires multiset(a) == multiset(b)
    ensures EntryTonnes(a) == EntryTonnes(b) && EntryRetirements(a) == EntryRetirements(b)
    decreases |a|
  {
    assert |a| == |multiset(a)| == |multiset(b)| == |b|;
    if a != [] {
      var front, x := a[..|a| - 1], a[|a| - 1];
      assert a == front + [x];
      assert x in multiset(a);
      var k :| 0 <= k < |b| && b[k] == x;
      var rest := b[..k] + b[k + 1..];
      RemoveEntry(b, k);
      RemoveFromMultiset(b, k);
      assert multiset(front) == multiset(a) - multiset{x};
      SumsPermute(front, rest);
    }
  }

  lemma RemoveFromMultiset<K>(b: seq<Entry<K>>, k: nat)
    requires k < |b|
    ensures multiset(b[..k] + b[k + 1..]) == multiset(b) - multiset{b[k]}
  {
    assert b == b[..k] + [b[k]] + b[k + 1..];
  }

  lemma {:induction false} RemoveEntry<K>(b: seq<Entry<K>>, k: nat)
    requires k < |b|
    ensures EntryTonnes(b) == EntryTonnes(b[..k] + b[k + 1..]) + b[k].tonnes
    ensures EntryRetirements(b) == EntryRetirements(b[..k] + b[k + 1..]) + b[k].retirements
    decreases |b|
  {
    var n := |b| - 1;
    if k == n {
      assert b[..k] + b[k + 1..] == b[..n];
    } else {
      var front := b[..n];
      var rest := front[..k] + front[k + 1..];
      RemoveEntry(front, k);
      assert b[..k] + b[k + 1..] == rest + [b[n]];
      EntriesSnoc(rest, b[n]);
    }
  }

  lemma BreakdownIsGroupBy<K>(rows: seq<Row>, keyOf: Row -> K)
    ensures KeysListed(Grouped(rows, keyOf)) && IsBreakdown(rows, keyOf, Breakdown(rows, keyOf))
  {
    GroupedKeys(rows, keyOf);
    GroupedTotals(rows, keyOf);
    var entries := EntriesOf(Grouped(rows, keyOf));
    var sorted := SortDescending(entries);
    InOrder(rows, keyOf);
    SortIsStable(entries);
    SumsPermute(entries, sorted);
    PermutedKeys(entries, sorted);
    EntriesAreNaive(rows, keyOf, sorted);
  }

  lemma InOrder<K>(rows: seq<Row>, keyOf: Row -> K)
    requires KeysListed(Grouped(rows, keyOf))
    ensures EntriesOf(Grouped(rows, keyOf)) == EntriesInOrder(rows, keyOf)
  {
    GroupedKeysInOrder(rows, keyOf);
    var g := Grouped(rows, keyOf);
    forall i | 0 <= i < |g.keys| ensures EntriesOf(g)[i] == EntriesInOrder(rows, keyOf)[i] {
      assert g.keys[i] in g.keys;
      GroupedIsNaive(rows, keyOf, g.keys[i]);
    }
  }

  lemma EntriesAreNaive<K>(rows: seq<Row>, keyOf: Row -> K, sorted: seq<Entry<K>>)
    requires KeysListed(Grouped(rows, keyOf)) && multiset(sorted) == multiset(EntriesOf(Grouped(rows, keyOf)))
    ensures forall r | r in rows :: HasKey(sorted, keyOf(r))
    ensures forall i | 0 <= i < |sorted| ::
              && sorted[i].tonnes == SumFor(rows, keyOf, sorted[i].key)
              && sorted[i].retirements == CountFor(rows, keyOf, sorted[i].key)
              && exists r | r in rows :: keyOf(r) == sorted[i].key
  {
    var g := Grouped(rows, keyOf);
    var entries := EntriesOf(g);
    forall r | r in rows ensures HasKey(sorted, keyOf(r)) {
      KeyOccurs(rows, keyOf, keyOf(r));
      GroupedIsNaive(rows, keyOf, keyOf(r));
      var i :| 0 <= i < |g.keys| && g.keys[i] == keyOf(r);
      assert entries[i] in multiset(entries);
      assert entries[i] in multiset(sorted);
    }
    forall i | 0 <= i < |sorted|
      ensures sorted[i].tonnes == SumFor(rows, keyOf, sorted[i].key)
      ensures sorted[i].retirements == CountFor(rows, keyOf, sorted[i].key)
      ensures exists r | r in rows :: keyOf(r) == sorted[i].key
    {
      assert sorted[i] in multiset(sorted);
      assert sorted[i] in multiset(entries);
      var j :| 0 <= j < |entries| && entries[j] == sorted[i];
      assert g.keys[j] in g.keys;
      GroupedIsNaive(rows, keyOf, sorted[i].key);
      KeyOccurs(rows, keyOf, sorted[i].key);
    }
  }

  lemma PermutedKeys<K>(a: seq<Entry<K>>, b: seq<Entry<K>>)
    requires multiset(a) == multiset(b) && forall i, j | 0 <= i < j < |a| :: a[i].key != a[j].key
    ensures forall i, j | 0 <= i < j < |b| :: b[i].key != b[j].key
  {
    forall i, j | 0 <= i < j < |b| ensures b[i].key != b[j].key {
      if b[i].key == b[j].key {
        assert b[i] in multiset(b) && b[j] in multiset(b);
        assert b[i] in multiset(a) && b[j] in multiset(a);
        TwiceInMultiset(b, i, j);
        OnceInDistinct(a, b[i]);
        assert false;
      }
    }
  }

  lemma TwiceInMultiset<K>(b: seq<Entry<K>>, i: nat, j: nat)
    requires i < j < |b| && b[i] == b[j]
    ensures multiset(b)[b[i]] >= 2
  {
    assert b == b[..i] + [b[i]] + b[i + 1..j] + [b[j]] + b[j + 1..];
  }

  lemma {:induction false} OnceInDistinct<K>(a: seq<Entry<K>>, e: Entry<K>)
    requires forall i, j | 0 <= i < j < |a| :: a[i].key != a[j].key
    ensures multiset(a)[e] <= 1
    decreases |a|
  {
    if a != [] {
      var front, last := a[..|a| - 1], a[|a| - 1];
      assert a == front + [last];
      OnceInDistinct(front, e);
      assert last in multiset(front) ==> last in front;
    }
  }

  function CreditIds(rows: seq<Row>): set<int> {
    set i | 0 <= i < |rows| :: rows[i].creditId
  }

  /** One pass over the rows fills three maps and the totals; the report is the naive
      group-by in each breakdown. */
  method BuildSummary(rows: seq<Row>) returns (report: Report)
    ensures report.totalTonnes == TotalTonnes(rows)
    ensures report.totalRetirements == |rows|
    ensures report.totalCredits == |CreditIds(rows)|
    ensures IsBreakdown(rows, (r: Row) => if r.methodology == "" then "UNKNOWN"
                        else r.methodology, report.byMethodology)
    ensures IsBreakdown(rows, (r: Row) => if r.geography == "" then "UNKNOWN" else r.geography, report.byGeography)
    ensures IsBreakdown(rows, (r: Row) => r.vintageYear, report.byVintage)
  {
    var methodologyOf := (r: Row) => if r.methodology == "" then "UNKNOWN" else r.methodology;
    var geographyOf := (r: Row) => if r.geography == "" then "UNKNOWN" else r.geography;
    var vintageOf := (r: Row) => r.vintageYear;
    var byMethodology := new GroupMap<string>();
    var byGeography := new GroupMap<string>();
    var byVintage := new GroupMap<int>();
    var total := 0.0;
    var uniqueCredits: set<int> := {};
    for n := 0 to |rows|
      invariant total == TotalTonnes(rows[..n])
      invariant uniqueCredits == CreditIds(rows[..n])
      invariant byMethodology.Contents() == Grouped(rows[..n], methodologyOf)
      invariant byGeography.Contents() == Grouped(rows[..n], geographyOf)
      invariant byVintage.Contents() == Grouped(rows[..n], vintageOf)
    {
      var row := rows[n];
      assert rows[..n + 1][..n] == rows[..n];
      total := total + row.tonnes;
      CreditIdsSnoc(rows, n);
      uniqueCredits := uniqueCredits + {row.creditId};
      byMethodology.Accumulate(OrUnknown(row.methodology), row.tonnes);
      byGeography.Accumulate(OrUnknown(row.geography), row.tonnes);
      byVintage.Accumulate(row.vintageYear, row.tonnes);
    }
    assert rows[..|rows|] == rows;
    BreakdownIsGroupBy(rows, methodologyOf);
    BreakdownIsGroupBy(rows, geographyOf);
    BreakdownIsGroupBy(rows, vintageOf);
    report := Report(total, |rows|, |uniqueCredits|,
      SortDescending(EntriesOf(byMethodology.Contents())),
      SortDescending(EntriesOf(byGeography.Contents())),
      SortDescending(EntriesOf(byVintage.Contents())));
  }

  lemma CreditIdsSnoc(rows: seq<Row>, n: nat)
    requires n < |rows|
    ensures CreditIds(rows[..n + 1]) == CreditIds(rows[..n]) + {rows[n].creditId}
  {
    var a, b := rows[..n], rows[..n + 1];
    forall id ensures id in CreditIds(b) <==> id in CreditIds(a) + {rows[n].creditId} {
      if id in CreditIds(a) {
        var i :| 0 <= i < |a| && a[i].creditId == id;
        assert b[i].creditId == id;
      }
      assert b[n] == rows[n];
      if id in CreditIds(b) {
        var i :| 0 <= i < |b| && b[i].creditId == id;
        assert i < n ==> a[i].creditId == id;
      }
    }
  }
}
