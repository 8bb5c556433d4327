/**
 * `getStats`: the summary the service computes over the `event_logs` table —
 * totals, per-status counts, counts grouped by source, the ten most frequent
 * event types, the count since midnight and the mean processing time.
 */
module AuditStats {
  import opened Wrappers
  import opened Sequences
  import opened EventLogEntity
  import opened AuditQueries

  /** The two columns the statistics group by. */
  datatype Dimension = SourceDim | TypeDim

  function KeyOf(e: EventLog, d: Dimension): string
  {
    match d
    case SourceDim => e.source
    case TypeDim => e.eventType
  }

  /** The where-clause `key = k` on dimension `d`. */
  function KeyIs(d: Dimension, k: string): Criterion
  {
    match d
    case SourceDim => SourceIs(k)
    case TypeDim => TypeIs(k)
  }

  /** The values of column `d`, one per row, in table order. */
  function Column(t: seq<EventLog>, d: Dimension): (ks: seq<string>)
    ensures |ks| == |t|
    ensures forall i :: 0 <= i < |t| ==> ks[i] == KeyOf(t[i], d)
  {
    if t == [] then [] else Column(t[..|t| - 1], d) + [KeyOf(t[|t| - 1], d)]
  }

  /** How often a key occurs in a column is the size of the matching `count({ where })`. */
  lemma {:induction false} ColumnCount(t: seq<EventLog>, d: Dimension, k: string)
    ensures multiset(Column(t, d))[k] == |Select(t, KeyIs(d, k))|
  {
    if t != [] {
      var init, last := t[..|t| - 1], t[|t| - 1];
      ColumnCount(init, d, k);
      assert Column(t, d) == Column(init, d) + [KeyOf(last, d)];
      assert Matches(last, KeyIs(d, k)) <==> KeyOf(last, d) == k;
    }
  }

  /** One row of a `GROUP BY key` with `COUNT(*)`. */
  datatype Group = Group(key: string, count: nat)

  function Count(g: Group): int
  {
    g.count
  }

  function Keys(gs: seq<Group>): (ks: seq<string>)
    ensures |ks| == |gs|
    ensures forall i :: 0 <= i < |gs| ==> ks[i] == gs[i].key
  {
    if gs == [] then [] else [gs[0].key] + Keys(gs[1..])
  }

  function TotalCount(gs: seq<Group>): nat
  {
    if gs == [] then 0 else gs[0].count + TotalCount(gs[1..])
  }

  predicate NoDuplicates(u: seq<string>)
  {
    forall i, j :: 0 <= i < j < |u| ==> u[i] != u[j]
  }

  /** The keys of `ks`, each once, in order of first occurrence. */
  function Distinct(ks: seq<string>): (u: seq<string>)
    ensures forall k :: k in u <==> k in ks
    ensures NoDuplicates(u)
  {
    if ks == [] then []
    else
      var u, k := Distinct(ks[..|ks| - 1]), ks[|ks| - 1];
      assert forall x :: x in ks <==> x in ks[..|ks| - 1] || x == k;
      if k in u then u else u + [k]
  }

  /** The group rows for keys `u`, each with its number of occurrences in `m`. */
  function Groups(m: multiset<string>, u: seq<string>): (gs: seq<Group>)
    ensures |gs| == |u|
    ensures forall i :: 0 <= i < |u| ==> gs[i] == Group(u[i], m[u[i]])
  {
    if u == [] then [] else [Group(u[0], m[u[0]])] + Groups(m, u[1..])
  }

  lemma {:induction false} TotalCountConcat(a: seq<Group>, b: seq<Group>)
    ensures TotalCount(a + b) == TotalCount(a) + TotalCount(b)
  {
    if a == [] {
      assert a + b == b;
    } else {
      TotalCountConcat(a[1..], b);
      assert (a + b)[0] == a[0];
      assert (a + b)[1..] == a[1..] + b;
    }
  }

  /** One more occurrence of `k` adds one to the total exactly when `k` is among the keys. */
  lemma {:induction false} GroupsAddOne(m: multiset<string>, k: string, u: seq<string>)
    requires NoDuplicates(u)
    ensures TotalCount(Groups(m + multiset{k}, u)) == TotalCount(Groups(m, u)) + if k in u then 1 else 0
  {
    if u != [] {
      GroupsAddOne(m, k, u[1..]);
      assert u == [u[0]] + u[1..];
      assert k in u <==> k == u[0] || k in u[1..];
      assert k == u[0] ==> k !in u[1..];
    }
  }

  /**
   * The counts of a `GROUP BY` add up to the number of rows: every row falls in
   * exactly one group.
   */
  lemma {:induction false} GroupsCoverAll(ks: seq<string>)
    ensures TotalCount(Groups(multiset(ks), Distinct(ks))) == |ks|
  {
    if ks != [] {
      var init, k := ks[..|ks| - 1], ks[|ks| - 1];
      assert ks == init + [k];
      var u := Distinct(init);
      GroupsCoverAll(init);
      GroupsAddOne(multiset(init), k, u);
      if k !in u {
        var m := multiset(ks);
        assert Groups(m, u + [k]) == Groups(m, u) + [Group(k, m[k])];
        TotalCountConcat(Groups(m, u), [Group(k, m[k])]);
        assert multiset(init)[k] == 0;
      }
    }
  }

  /** `SELECT key, COUNT(*) ... GROUP BY key` over the column values `ks`. */
  function GroupBy(ks: seq<string>): (gs: seq<Group>)
    ensures forall k :: k in Keys(gs) <==> k in ks
    ensures NoDuplicates(Keys(gs))
    ensures |gs| == |Distinct(ks)|
    ensures forall g :: g in gs ==> g.count == multiset(ks)[g.key] > 0
    ensures TotalCount(gs) == |ks|
  {
    GroupsCoverAll(ks);
    var u := Distinct(ks);
    var gs := Groups(multiset(ks), u);
    assert Keys(gs) == u;
    assert forall g :: g in gs ==> g.key in u;
    gs
  }

  /** `by_source`: each source once, with the number of rows from it; the counts sum to the table size. */
  function BySource(t: seq<EventLog>): (r: seq<Group>)
    ensures forall e :: e in t ==> e.source in Keys(r)
    ensures NoDuplicates(Keys(r))
    ensures forall g :: g in r ==> 0 < g.count == |Select(t, SourceIs(g.key))|
    ensures TotalCount(r) == |t|
  {
    var r := GroupBy(Column(t, SourceDim));
    forall g | g in r
      ensures 0 < g.count == |Select(t, SourceIs(g.key))|
    {
      ColumnCount(t, SourceDim, g.key);
    }
    assert forall e :: e in t ==> e.source in Column(t, SourceDim);
    r
  }

  /** How many rows `by_type` keeps. */
  const TopTypes: nat := 10

  /** The `n` groups with the highest counts, highest first: `ORDER BY count DESC LIMIT n`. */
  function Top(gs: seq<Group>, n: nat): (r: seq<Group>)
    ensures |r| == Min(n, |gs|)
    ensures SortedDesc(r, Count)
    ensures multiset(r) <= multiset(gs)
    ensures forall g :: g in r ==> g in gs
    ensures forall x, y :: x in gs && x !in r && y in r ==> x.count <= y.count
    ensures NoDuplicates(Keys(gs)) ==> NoDuplicates(Keys(r))
  {
    var s := SortDesc(gs, Count);
    TopFacts(gs, s, n);
    Page(s, n, 0)
  }

  lemma TopFacts(gs: seq<Group>, s: seq<Group>, n: nat)
    requires s == SortDesc(gs, Count)
    ensures SortedDesc(Page(s, n, 0), Count)
    ensures multiset(Page(s, n, 0)) <= multiset(gs)
    ensures forall g :: g in Page(s, n, 0) ==> g in gs
    ensures forall x, y :: x in gs && x !in Page(s, n, 0) && y in Page(s, n, 0) ==> x.count <= y.count
    ensures NoDuplicates(Keys(gs)) ==> NoDuplicates(Keys(Page(s, n, 0)))
  {
    var r := Page(s, n, 0);
    PageSorted(s, Count, n, 0);
    PageSubMultiset(s, n, 0);
    if NoDuplicates(Keys(gs)) {
      SubKeysUnique(r, gs);
    }
    forall g | g in r
      ensures g in gs
    {
      assert g in multiset(r);
      assert g in multiset(s);
    }
    PrefixKeepsLargest(s, Count, n);
    forall x | x in gs
      ensures x in s
    {
      assert x in multiset(gs);
    }
  }

  /** In groups with distinct keys, no group occurs twice. */
  lemma {:induction false} KeysOnce(gs: seq<Group>, g: Group)
    requires NoDuplicates(Keys(gs))
    ensures multiset(gs)[g] <= 1
  {
    if gs != [] {
      var rest := gs[1..];
      assert gs == [gs[0]] + rest;
      forall i, j | 0 <= i < j < |rest|
        ensures Keys(rest)[i] != Keys(rest)[j]
      {
        assert Keys(gs)[i + 1] != Keys(gs)[j + 1];
      }
      KeysOnce(rest, g);
      forall i | 0 <= i < |rest|
        ensures rest[i] != gs[0]
      {
        assert Keys(gs)[0] != Keys(gs)[i + 1];
      }
    }
  }

  /** A row at two positions occurs at least twice. */
  lemma Repeated<T>(s: seq<T>, i: nat, j: nat)
    requires i < j < |s|
    ensures s[i] == s[j] ==> multiset(s)[s[i]] >= 2
  {
    assert s == s[..j] + s[j..];
    assert s[i] == s[..j][i] && s[j] == s[j..][0];
  }

  /** Any selection of groups with distinct keys has distinct keys. */
  lemma SubKeysUnique(r: seq<Group>, gs: seq<Group>)
    requires NoDuplicates(Keys(gs)) && multiset(r) <= multiset(gs)
    ensures NoDuplicates(Keys(r))
  {
    forall i, j | 0 <= i < j < |r|
      ensures Keys(r)[i] != Keys(r)[j]
    {
      assert r[i] in multiset(gs) && r[j] in multiset(gs);
      var a :| 0 <= a < |gs| && gs[a] == r[i];
      var b :| 0 <= b < |gs| && gs[b] == r[j];
      assert Keys(gs)[a] == r[i].key && Keys(gs)[b] == r[j].key;
      KeysOnce(gs, r[i]);
      Repeated(r, i, j);
    }
  }

  /**
   * `by_type`: the ten most frequent event types with their counts, most
   * frequent first; a type left out occurs no more often than any type kept.
   */
  function ByType(t: seq<EventLog>): (r: seq<Group>)
    ensures |r| == Min(TopTypes, |Distinct(Column(t, TypeDim))|)
    ensures NoDuplicates(Keys(r))
    ensures SortedDesc(r, Count)
    ensures forall g :: g in r ==> 0 < g.count == |Select(t, TypeIs(g.key))|
    ensures forall e, g :: e in t && e.eventType !in Keys(r) && g in r ==> |Select(t, TypeIs(e.eventType))| <= g.count
  {
    var gs := GroupBy(Column(t, TypeDim));
    var r := Top(gs, TopTypes);
    forall g | g in r
      ensures 0 < g.count == |Select(t, TypeIs(g.key))|
    {
      ColumnCount(t, TypeDim, g.key);
    }
    forall e, g | e in t && e.eventType !in Keys(r) && g in r
      ensures |Select(t, TypeIs(e.eventType))| <= g.count
    {
      assert e.eventType in Column(t, TypeDim);
      LeftOutType(t, e.eventType, g);
    }
    r
  }

  /** A group whose key `Top` left out counts no more than any group it kept. */
  lemma LeftOutGroup(gs: seq<Group>, n: nat, k: string, g: Group) returns (x: Group)
    requires k in Keys(gs) && k !in Keys(Top(gs, n)) && g in Top(gs, n)
    ensures x in gs && x.key == k && x.count <= g.count
  {
    var r := Top(gs, n);
    var i :| 0 <= i < |gs| && Keys(gs)[i] == k;
    x := gs[i];
    forall j | 0 <= j < |r|
      ensures r[j].key != k
    {
      assert Keys(r)[j] == r[j].key;
    }
  }

  lemma LeftOutType(t: seq<EventLog>, k: string, g: Group)
    requires k in Column(t, TypeDim)
    requires k !in Keys(Top(GroupBy(Column(t, TypeDim)), TopTypes))
    requires g in Top(GroupBy(Column(t, TypeDim)), TopTypes)
    ensures |Select(t, TypeIs(k))| <= g.count
  {
    var x := LeftOutGroup(GroupBy(Column(t, TypeDim)), TopTypes, k, g);
    ColumnCount(t, TypeDim, k);
  }

  /** Every row has exactly one of the three statuses. */
  lemma {:induction false} StatusesPartition(t: seq<EventLog>)
    ensures |Select(t, StatusIs(Success))| + |Select(t, StatusIs(Error))| + |Select(t, StatusIs(Pending))| == |t|
  {
    if t != [] {
      StatusesPartition(t[..|t| - 1]);
    }
  }

  /** The `processing_time_ms` values that are set, in table order. */
  function ProcessingTimes(t: seq<EventLog>): (xs: seq<int>)
    ensures |xs| == |Select(t, ProcessingTimeSet)|
  {
    var s := Select(t, ProcessingTimeSet);
    assert forall i :: 0 <= i < |s| ==> s[i] in s;
    seq(|s|, i requires 0 <= i < |s| => s[i].processingTimeMs.value)
  }

  function Sum(xs: seq<int>): int
  {
    if xs == [] then 0 else Sum(xs[..|xs| - 1]) + xs[|xs| - 1]
  }

  lemma {:induction false} SumBounds(xs: seq<int>, lo: int, hi: int)
    requires forall i :: 0 <= i < |xs| ==> lo <= xs[i] <= hi
    ensures lo * |xs| <= Sum(xs) <= hi * |xs|
  {
    if xs != [] {
      var init := xs[..|xs| - 1];
      SumBounds(init, lo, hi);
      assert lo * |xs| == lo * |init| + lo;
      assert hi * |xs| == hi * |init| + hi;
    }
  }

  /**
   * `avg_processing_time_ms`: the mean of the set values, or 0 when no row
   * has one (`AVG` over no rows is NULL, which `|| 0` turns into 0).
   */
  function AvgProcessingTime(t: seq<EventLog>): (avg: real)
    ensures |Select(t, ProcessingTimeSet)| == 0 ==> avg == 0.0
  {
    var xs := ProcessingTimes(t);
    if |xs| == 0 then 0.0 else Sum(xs) as real / |xs| as real
  }

  lemma DivBounds(s: int, n: int, lo: int, hi: int)
    requires n > 0
    requires lo * n <= s <= hi * n
    ensures lo as real <= s as real / n as real <= hi as real
  {
    var q := s as real / n as real;
    assert q * n as real == s as real;
    assert (lo * n) as real == lo as real * n as real;
    assert (hi * n) as real == hi as real * n as real;
  }

  /** The mean lies between the smallest and the largest processing time recorded. */
  lemma AvgWithinBounds(t: seq<EventLog>, lo: int, hi: int)
    requires forall e :: e in t && e.processingTimeMs.Some? ==> lo <= e.processingTimeMs.value <= hi
    requires |Select(t, ProcessingTimeSet)| > 0
    ensures lo as real <= AvgProcessingTime(t) <= hi as real
  {
    var xs := ProcessingTimes(t);
    var sel := Select(t, ProcessingTimeSet);
    forall i | 0 <= i < |xs|
      ensures lo <= xs[i] <= hi
    {
      assert sel[i] in sel;
    }
    SumBounds(xs, lo, hi);
    DivBounds(Sum(xs), |xs|, lo, hi);
  }

  /** The `getStats` result. */
  datatype Stats = Stats(
    total: nat,
    success: nat,
    error: nat,
    pending: nat,
    bySource: seq<Group>,
    byType: seq<Group>,
    today: nat,
    avgProcessingTimeMs: real)

  /** getStats, with the start of the current day passed in as `midnight`. */
  function GetStats(t: seq<EventLog>, midnight: Millis): (s: Stats)
    ensures s.total == |t|
    ensures s.success + s.error + s.pending == s.total
    ensures TotalCount(s.bySource) == s.total
    ensures |s.byType| <= TopTypes
    ensures s.today <= s.total
  {
    StatusesPartition(t);
    Stats(|t|,
      |Select(t, StatusIs(Success))|, |Select(t, StatusIs(Error))|, |Select(t, StatusIs(Pending))|,
      BySource(t), ByType(t),
      TodayCount(t, midnight),
      AvgProcessingTime(t))
  }

  /** `today`: the rows created at or after the start of the current day. */
  function TodayCount(t: seq<EventLog>, midnight: Millis): (n: nat)
    ensures n <= |t|
    ensures n == |t| - |Select(t, Before(midnight))|
  {
    SplitAt(t, midnight);
    |Select(t, AtOrAfter(midnight))|
  }

  /** Cleaning out rows older than a cutoff at or before midnight leaves today's count alone. */
  lemma TodayUnaffectedByCleanup(t: seq<EventLog>, cutoff: Millis, midnight: Millis)
    requires cutoff <= midnight
    ensures TodayCount(Select(t, AtOrAfter(cutoff)), midnight) == TodayCount(t, midnight)
  {
    SelectNarrower(t, AtOrAfter(cutoff), AtOrAfter(midnight));
  }
}
