/**
 * The read side of `AuditService`: every listing is a where-clause over the
 * `event_logs` table, ordered newest first and, for some, cut to a page.
 * The table is the sequence of its rows in insertion order.
 */
module AuditQueries {
  import opened Wrappers
  import opened Sequences
  import opened EventLogEntity

  /** The where-clauses the service issues. */
  datatype Criterion =
    | SourceIs(source: string)
    | TypeIs(eventType: string)
    | StatusIs(status: Status)
    | ContactIs(contactId: string)
    | DealIs(dealId: string)
    | PhoneIs(phone: string)
    | Between(start: Millis, end: Millis)
    | AtOrAfter(instant: Millis)
    | Before(instant: Millis)
    | ProcessingTimeSet

  /** SQL semantics: a key compared with a NULL column never matches; `BETWEEN` is inclusive. */
  predicate Matches(e: EventLog, c: Criterion)
  {
    match c
    case SourceIs(s) => e.source == s
    case TypeIs(t) => e.eventType == t
    case StatusIs(st) => e.status == st
    case ContactIs(id) => e.bitrixContactId == Some(id)
    case DealIs(id) => e.bitrixDealId == Some(id)
    case PhoneIs(p) => e.customerPhone == Some(p)
    case Between(a, b) => a <= e.timestamp <= b
    case AtOrAfter(m) => e.timestamp >= m
    case Before(m) => e.timestamp < m
    case ProcessingTimeSet => e.processingTimeMs.Some?
  }

  /** Ids strictly increase along the table, as an auto-increment key does in insertion order. */
  ghost predicate IdsIncreasing(t: seq<EventLog>)
  {
    forall i, j :: 0 <= i < j < |t| ==> t[i].id < t[j].id
  }

  /** The rows of `t` that satisfy `c`, in table order. */
  function Select(t: seq<EventLog>, c: Criterion): (r: seq<EventLog>)
    ensures |r| <= |t|
    ensures forall e :: e in r <==> e in t && Matches(e, c)
    ensures multiset(r) <= multiset(t)
  {
    if t == [] then []
    else
      var init, last := t[..|t| - 1], t[|t| - 1];
      assert t == init + [last];
      Select(init, c) + if Matches(last, c) then [last] else []
  }

  /** A selection keeps the table order, so ids still increase along it. */
  lemma {:induction false} SelectKeepsIdOrder(t: seq<EventLog>, c: Criterion)
    requires IdsIncreasing(t)
    ensures IdsIncreasing(Select(t, c))
  {
    if t != [] {
      var init, last := t[..|t| - 1], t[|t| - 1];
      assert IdsIncreasing(init);
      SelectKeepsIdOrder(init, c);
      var r := Select(init, c);
      forall e | e in r
        ensures e.id < last.id
      {
        var i :| 0 <= i < |init| && init[i] == e;
        assert t[i] == e;
      }
      if Matches(last, c) {
        AppendKeepsIdOrder(r, last);
      }
    }
  }

  lemma AppendKeepsIdOrder(r: seq<EventLog>, last: EventLog)
    requires IdsIncreasing(r)
    requires forall e :: e in r ==> e.id < last.id
    ensures IdsIncreasing(r + [last])
  {
    var s := r + [last];
    forall i, j | 0 <= i < j < |s|
      ensures s[i].id < s[j].id
    {
      assert s[i] == r[i] && s[i] in r;
      if j < |r| {
        assert s[j] == r[j];
      }
    }
  }

  /** Selecting on a narrower criterion from an already-selected table changes nothing. */
  lemma {:induction false} SelectNarrower(t: seq<EventLog>, wide: Criterion, narrow: Criterion)
    requires forall e :: Matches(e, narrow) ==> Matches(e, wide)
    ensures Select(Select(t, wide), narrow) == Select(t, narrow)
  {
    if t != [] {
      var init, last := t[..|t| - 1], t[|t| - 1];
      assert t == init + [last];
      SelectNarrower(init, wide, narrow);
      SelectAppend(init, last, wide);
      SelectAppend(init, last, narrow);
      if Matches(last, wide) {
        SelectAppend(Select(init, wide), last, narrow);
      } else {
        assert !Matches(last, narrow);
        assert Select(t, wide) == Select(init, wide) + [];
        assert Select(init, wide) + [] == Select(init, wide);
        assert Select(init, narrow) + [] == Select(init, narrow);
      }
    }
  }

  /** Appending one row grows a selection by that row exactly when it matches. */
  lemma SelectAppend(t: seq<EventLog>, e: EventLog, c: Criterion)
    ensures Select(t + [e], c) == Select(t, c) + if Matches(e, c) then [e] else []
  {
    assert (t + [e])[..|t|] == t;
  }

  /** A criterion and its complement split the table: `Before(m)` against `AtOrAfter(m)`. */
  lemma {:induction false} SplitAt(t: seq<EventLog>, m: Millis)
    ensures |Select(t, Before(m))| + |Select(t, AtOrAfter(m))| == |t|
  {
    if t != [] {
      SplitAt(t[..|t| - 1], m);
    }
  }

  function Timestamp(e: EventLog): Millis
  {
    e.timestamp
  }

  /** Most recent first: `ORDER BY timestamp DESC`, ties in any order. */
  ghost predicate NewestFirst(s: seq<EventLog>)
  {
    SortedDesc(s, Timestamp)
  }

  /** The rows matching `c`, newest first. */
  function Ordered(t: seq<EventLog>, c: Criterion): (r: seq<EventLog>)
    ensures NewestFirst(r)
    ensures multiset(r) == multiset(Select(t, c))
  {
    SortDesc(Select(t, c), Timestamp)
  }

  /**
   * `r` answers "the newest `limit` rows matching `c`": as many as exist up to
   * `limit`, newest first, each a matching row of `t`, and no matching row
   * left out is newer than a row returned.
   */
  ghost predicate NewestMatches(t: seq<EventLog>, c: Criterion, limit: nat, r: seq<EventLog>)
  {
    && |r| == (if limit == 0 then |Select(t, c)| else Min(limit, |Select(t, c)|))
    && NewestFirst(r)
    && multiset(r) <= multiset(Select(t, c))
    && (forall e :: e in r ==> e in t && Matches(e, c))
    && (forall x, y :: x in t && Matches(x, c) && x !in r && y in r ==> x.timestamp <= y.timestamp)
  }

  /** `r` is the whole history of rows matching `c`, newest first. */
  ghost predicate History(t: seq<EventLog>, c: Criterion, r: seq<EventLog>)
  {
    && NewestFirst(r)
    && multiset(r) == multiset(Select(t, c))
    && (forall e :: e in r <==> e in t && Matches(e, c))
  }

  /** Default page size of the capped listings. */
  const DefaultLimit: nat := 100

  /**
   * The cap a `take: limit` puts on a query over `n` rows. TypeORM applies
   * `take` only when it is truthy, so a limit of 0 caps nothing.
   */
  function Take(limit: nat, n: nat): nat
  {
    if limit == 0 then n else limit
  }

  /** `find({ where: c, order: { timestamp: 'DESC' }, take: limit })`. */
  function Latest(t: seq<EventLog>, c: Criterion, limit: nat): (r: seq<EventLog>)
    ensures NewestMatches(t, c, limit, r)
  {
    LatestIsNewest(t, c, limit);
    Page(Ordered(t, c), Take(limit, |t|), 0)
  }

  lemma LatestIsNewest(t: seq<EventLog>, c: Criterion, limit: nat)
    ensures NewestMatches(t, c, limit, Page(Ordered(t, c), Take(limit, |t|), 0))
  {
    LatestCount(t, c, limit);
    NewestPrefix(t, c, Take(limit, |t|));
  }

  /** The first `k` matching rows, newest first, are the newest `k` matches. */
  lemma NewestPrefix(t: seq<EventLog>, c: Criterion, k: nat)
    ensures NewestFirst(Page(Ordered(t, c), k, 0))
    ensures multiset(Page(Ordered(t, c), k, 0)) <= multiset(Select(t, c))
    ensures forall e :: e in Page(Ordered(t, c), k, 0) ==> e in t && Matches(e, c)
    ensures forall x, y :: x in t && Matches(x, c) && x !in Page(Ordered(t, c), k, 0) && y in Page(Ordered(t, c), k, 0) ==>
      x.timestamp <= y.timestamp
  {
    var s := Ordered(t, c);
    var r := Page(s, k, 0);
    PageSorted(s, Timestamp, k, 0);
    PageSubMultiset(s, k, 0);
    forall e | e in r
      ensures e in t && Matches(e, c)
    {
      assert e in multiset(Select(t, c));
    }
    PrefixKeepsLargest(s, Timestamp, k);
    forall x, y | x in t && Matches(x, c) && x !in r && y in r
      ensures x.timestamp <= y.timestamp
    {
      assert x in multiset(s);
    }
  }

  /** The capped listing returns as many rows as match, up to a non-zero limit. */
  lemma LatestCount(t: seq<EventLog>, c: Criterion, limit: nat)
    ensures |Page(Ordered(t, c), Take(limit, |t|), 0)| ==
      if limit == 0 then |Select(t, c)| else Min(limit, |Select(t, c)|)
  {
    assert |Ordered(t, c)| == |Select(t, c)| <= |t|;
  }

  /** `find({ where: c, order: { timestamp: 'DESC' } })`. */
  function AllOf(t: seq<EventLog>, c: Criterion): (r: seq<EventLog>)
    ensures History(t, c, r)
  {
    var r := Ordered(t, c);
    assert forall e :: e in r <==> e in multiset(Select(t, c));
    r
  }

  /** getAllEvents(limit, offset): the page at `offset` of the whole table, newest first. */
  function GetAllEvents(t: seq<EventLog>, limit: nat := DefaultLimit, offset: nat := 0): (r: seq<EventLog>)
    ensures |r| == if offset > |t| then 0 else if limit == 0 then |t| - offset else Min(limit, |t| - offset)
    ensures NewestFirst(r)
    ensures multiset(r) <= multiset(t)
  {
    var s := SortDesc(t, Timestamp);
    var k := Take(limit, |t|);
    PageSorted(s, Timestamp, k, offset);
    PageSubMultiset(s, k, offset);
    Page(s, k, offset)
  }

  /**
   * A first page that caps nothing (a limit of 0, or one at least as large as
   * the table) lists every row exactly once.
   */
  lemma FullPageIsTable(t: seq<EventLog>, limit: nat)
    requires limit == 0 || limit >= |t|
    ensures multiset(GetAllEvents(t, limit, 0)) == multiset(t)
  {
    var s := SortDesc(t, Timestamp);
    assert Page(s, Take(limit, |t|), 0) == s;
  }

  /**
   * Paging through getAllEvents loses and repeats nothing: two consecutive
   * pages are one larger page, so every row on a later page is no newer than
   * every row on an earlier one. Pages of size 0 are not pages: they cap
   * nothing.
   */
  lemma ConsecutiveEventPages(t: seq<EventLog>, a: nat, b: nat, offset: nat)
    requires a > 0 && b > 0
    ensures GetAllEvents(t, a, offset) + GetAllEvents(t, b, offset + a) == GetAllEvents(t, a + b, offset)
    ensures forall x, y :: x in GetAllEvents(t, a, offset) && y in GetAllEvents(t, b, offset + a) ==>
      x.timestamp >= y.timestamp
  {
    var s := SortDesc(t, Timestamp);
    ConsecutivePages(s, a, b, offset);
    PagesOrdered(GetAllEvents(t, a, offset), GetAllEvents(t, b, offset + a));
  }

  /** Two pages that join into one newest-first page are ordered against each other. */
  lemma PagesOrdered(p: seq<EventLog>, q: seq<EventLog>)
    requires NewestFirst(p + q)
    ensures forall x, y :: x in p && y in q ==> x.timestamp >= y.timestamp
  {
    forall x, y | x in p && y in q
      ensures x.timestamp >= y.timestamp
    {
      var i :| 0 <= i < |p| && p[i] == x;
      var j :| 0 <= j < |q| && q[j] == y;
      assert (p + q)[i] == x && (p + q)[|p| + j] == y;
    }
  }

  /** The first page of getAllEvents is the newest `limit` rows of the table. */
  lemma FirstPageIsNewest(t: seq<EventLog>, limit: nat)
    ensures forall x, y :: x in t && x !in GetAllEvents(t, limit, 0) && y in GetAllEvents(t, limit, 0) ==>
      x.timestamp <= y.timestamp
  {
    var s := SortDesc(t, Timestamp);
    PrefixKeepsLargest(s, Timestamp, Take(limit, |t|));
    assert forall x :: x in t ==> x in multiset(s);
  }

  /** getEventsBySource(source, limit). */
  function GetEventsBySource(t: seq<EventLog>, source: string, limit: nat := DefaultLimit): (r: seq<EventLog>)
    ensures NewestMatches(t, SourceIs(source), limit, r)
    ensures forall e :: e in r ==> e.source == source
  {
    Latest(t, SourceIs(source), limit)
  }

  /** getEventsByType(eventType, limit). */
  function GetEventsByType(t: seq<EventLog>, eventType: string, limit: nat := DefaultLimit): (r: seq<EventLog>)
    ensures NewestMatches(t, TypeIs(eventType), limit, r)
    ensures forall e :: e in r ==> e.eventType == eventType
  {
    Latest(t, TypeIs(eventType), limit)
  }

  /** getFailedEvents(limit): the newest rows whose status is `error`. */
  function GetFailedEvents(t: seq<EventLog>, limit: nat := DefaultLimit): (r: seq<EventLog>)
    ensures NewestMatches(t, StatusIs(Error), limit, r)
    ensures forall e :: e in r ==> e.status == Error
  {
    Latest(t, StatusIs(Error), limit)
  }

  /** getEventsByContactId(contactId): the contact's whole history, no cap. */
  function GetEventsByContactId(t: seq<EventLog>, contactId: string): (r: seq<EventLog>)
    ensures History(t, ContactIs(contactId), r)
    ensures forall e :: e in r <==> e in t && e.bitrixContactId == Some(contactId)
  {
    AllOf(t, ContactIs(contactId))
  }

  /** getEventsByDealId(dealId): the deal's whole history, no cap. */
  function GetEventsByDealId(t: seq<EventLog>, dealId: string): (r: seq<EventLog>)
    ensures History(t, DealIs(dealId), r)
    ensures forall e :: e in r <==> e in t && e.bitrixDealId == Some(dealId)
  {
    AllOf(t, DealIs(dealId))
  }

  /** getEventsByPhone(phone): the customer's whole history, no cap. */
  function GetEventsByPhone(t: seq<EventLog>, phone: string): (r: seq<EventLog>)
    ensures History(t, PhoneIs(phone), r)
    ensures forall e :: e in r <==> e in t && e.customerPhone == Some(phone)
  {
    AllOf(t, PhoneIs(phone))
  }

  /** getEventsByDateRange(start, end): both bounds inclusive. */
  function GetEventsByDateRange(t: seq<EventLog>, start: Millis, end: Millis): (r: seq<EventLog>)
    ensures History(t, Between(start, end), r)
    ensures forall e :: e in r <==> e in t && start <= e.timestamp <= end
  {
    var r := AllOf(t, Between(start, end));
    assert forall e :: e in r <==> e in t && Matches(e, Between(start, end));
    r
  }
}
