/**
 * `AuditService` as the owner of the `event_logs` table: `logEvent` appends a
 * row, `cleanOldEvents` deletes the rows older than a retention window. The
 * read-only queries are the functions of `AuditQueries` and `AuditStats`,
 * applied to `events`.
 */
module AuditStore {
  import opened Wrappers
  import opened EventLogEntity
  import opened AuditQueries

  /** Default retention window of `cleanOldEvents`, in days. */
  const DefaultDaysToKeep: int := 90

  const DayMillis: int := 86_400_000

  /** Why `save` fails; `logEvent` rethrows it unchanged. */
  datatype SaveError =
    | StorageFault      // the database is unavailable or reports an I/O fault
    | AmountOutOfRange  // `amount` does not fit the decimal(10, 2) column

  /** The instant `daysToKeep` whole days before `now`. */
  function Cutoff(now: Millis, daysToKeep: int): (c: Millis)
    ensures daysToKeep >= 0 ==> c <= now
  {
    now - daysToKeep * DayMillis
  }

  /** The table after `DELETE ... WHERE timestamp < cutoff`. */
  function Prune(t: seq<EventLog>, cutoff: Millis): (r: seq<EventLog>)
    ensures forall e :: e in r <==> e in t && e.timestamp >= cutoff
    ensures |t| - |r| == |Select(t, Before(cutoff))|
  {
    SplitAt(t, cutoff);
    Select(t, AtOrAfter(cutoff))
  }

  /** Deleting with the same cutoff a second time deletes nothing. */
  lemma PruneIdempotent(t: seq<EventLog>, cutoff: Millis)
    ensures Prune(Prune(t, cutoff), cutoff) == Prune(t, cutoff)
    ensures |Select(Prune(t, cutoff), Before(cutoff))| == 0
  {
    SelectNarrower(t, AtOrAfter(cutoff), AtOrAfter(cutoff));
  }

  /**
   * The table invariant: ids are positive, below the next id to assign and
   * strictly increasing in insertion order (so no two rows share one), and
   * every amount fits its column.
   */
  ghost predicate WellFormedTable(t: seq<EventLog>, nextId: nat)
  {
    && IdsIncreasing(t)
    && (forall e :: e in t ==> 1 <= e.id < nextId)
    && (forall e :: e in t ==> AmountFits(e.amount))
  }

  class AuditService {
    /** The rows of `event_logs`, in insertion order. */
    var events: seq<EventLog>
    /** The next value of the auto-increment primary key. */
    var nextId: nat

    ghost predicate Valid()
      reads this
    {
      nextId >= 1 && WellFormedTable(events, nextId)
    }

    constructor ()
      ensures Valid()
      ensures events == [] && nextId == 1
    {
      events, nextId := [], 1;
    }

    /**
     * logEvent(d): builds the row from `d` (payload serialized when present
     * and truthy), saves it with the next id and `now` as its creation time,
     * and returns the saved row. A failed save is rethrown and appends nothing.
     * `storageFault` says whether the database fails this save.
     */
    method LogEvent(d: EventInput, now: Millis, serialize: Json -> string, storageFault: bool)
      returns (r: Result<EventLog, SaveError>)
      requires Valid()
      modifies this
      ensures Valid()
      ensures r.Ok? <==> !storageFault && AmountFits(d.amount)
      ensures r.Err? ==> r.error == (if storageFault then StorageFault else AmountOutOfRange)
      ensures r.Err? ==> events == old(events) && nextId == old(nextId)
      ensures r.Ok? ==> r.value == Create(d, old(nextId), now, serialize)
      ensures r.Ok? ==> events == old(events) + [r.value] && nextId == old(nextId) + 1
      ensures r.Ok? ==> forall e :: e in old(events) ==> e.id < r.value.id
    {
      if storageFault {
        return Err(StorageFault);
      }
      if !AmountFits(d.amount) {
        return Err(AmountOutOfRange);
      }
      var saved := Create(d, nextId, now, serialize);
      events := events + [saved];
      nextId := nextId + 1;
      r := Ok(saved);
    }

    /**
     * cleanOldEvents(daysToKeep): deletes every row created strictly before
     * `daysToKeep` days ahead of `now` and returns how many it deleted.
     */
    method CleanOldEvents(now: Millis, daysToKeep: int := DefaultDaysToKeep) returns (removed: nat)
      requires Valid()
      modifies this
      ensures Valid()
      ensures events == Prune(old(events), Cutoff(now, daysToKeep))
      ensures forall e :: e in events <==> e in old(events) && e.timestamp >= Cutoff(now, daysToKeep)
      ensures removed == |old(events)| - |events| == |Select(old(events), Before(Cutoff(now, daysToKeep)))|
      ensures nextId == old(nextId)
    {
      var kept := Prune(events, Cutoff(now, daysToKeep));
      SelectKeepsIdOrder(events, AtOrAfter(Cutoff(now, daysToKeep)));
      removed := |events| - |kept|;
      events := kept;
    }
  }
}
