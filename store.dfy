/**
 * What the two importers share: the per-row outcome, the run counters, and
 * the database session a run writes through (pending changes that a commit
 * keeps and a rollback discards).
 */
module Store {
  import opened Wrappers

  /** What one CSV row did to the store. */
  datatype Outcome = Created | Updated | Skipped | Failed

  /** The run counters `created`, `updated`, `skipped` and `failed`. */
  datatype Counts = Counts(created: nat, updated: nat, skipped: nat, failed: nat) {
    function Total(): nat {
      created + updated + skipped + failed
    }

    /** Count one row: exactly one counter goes up by one. */
    function Tally(o: Outcome): (c: Counts)
      ensures c.Total() == Total() + 1
      ensures c.created == created + (if o == Created then 1 else 0)
      ensures c.updated == updated + (if o == Updated then 1 else 0)
      ensures c.skipped == skipped + (if o == Skipped then 1 else 0)
      ensures c.failed == failed + (if o == Failed then 1 else 0)
    {
      match o
      case Created => this.(created := created + 1)
      case Updated => this.(updated := updated + 1)
      case Skipped => this.(skipped := skipped + 1)
      case Failed => this.(failed := failed + 1)
    }
  }

  const NoCounts := Counts(0, 0, 0, 0)

  /** A database session over one table keyed by name. `committed` is what
      the database holds; `pending` is what queries inside the session see,
      including rows added or changed since it was opened. */
  class Session<R> {
    var committed: map<string, R>
    var pending: map<string, R>

    constructor (stored: map<string, R>)
      ensures committed == stored && pending == stored
    {
      committed := stored;
      pending := stored;
    }

    /** `query(...).filter(name == name).one_or_none()`: the session's view,
        pending changes included. */
    function Find(name: string): (r: Option<R>)
      reads this
      ensures r.Some? <==> name in pending
      ensures r.Some? ==> r.value == pending[name]
    {
      if name in pending then Some(pending[name]) else None
    }

    /** `db.add(record)`, or the write-back of fields set on a loaded record. */
    method Put(name: string, record: R)
      modifies this
      ensures pending == old(pending)[name := record]
      ensures committed == old(committed)
    {
      pending := pending[name := record];
    }

    method Commit()
      modifies this
      ensures committed == old(pending) && pending == old(pending)
    {
      committed := pending;
    }

    method Rollback()
      modifies this
      ensures pending == old(committed) && committed == old(committed)
    {
      pending := committed;
    }
  }
}
