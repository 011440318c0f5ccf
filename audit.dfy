/**
 * Audit stamping done before every save: `DbContextExtension.AddAuditInfo`.
 *
 * The change tracker hands over one entry per tracked entity, each with its
 * persistence state. Entries whose entity is auditable and whose state is
 * Added, Modified or Deleted are stamped in place: Added entries get a new
 * creation time, and every stamped entry gets a new modification time. Each
 * assignment reads the wall clock afresh, so the clock is a parameter that
 * gives the k-th reading taken during one call.
 */
module AuditInfo {

  /** A UTC instant, counted in clock ticks. */
  type Instant = int

  /** The change tracker's persistence states. */
  datatype EntityState = Detached | Unchanged | Deleted | Modified | Added

  /** A tracked entity object. Only the two timestamps are written by stamping. */
  class Entity {
    /** Whether the entity's type implements the auditable contract. */
    const auditable: bool
    var createdDate: Instant
    var lastModifiedDate: Instant
    /** A field stamping must not touch (the soft-delete flag, for instance). */
    var isDeleted: bool

    constructor (auditable: bool, createdDate: Instant, lastModifiedDate: Instant, isDeleted: bool)
      ensures this.auditable == auditable && this.createdDate == createdDate
      ensures this.lastModifiedDate == lastModifiedDate && this.isDeleted == isDeleted
    {
      this.auditable := auditable;
      this.createdDate := createdDate;
      this.lastModifiedDate := lastModifiedDate;
      this.isDeleted := isDeleted;
    }

    /** The entity's fields as a value. */
    function Value(): EntityValue
      reads this
    {
      EntityValue(auditable, createdDate, lastModifiedDate, isDeleted)
    }
  }

  /** One change-tracker entry: the entity and its state. */
  datatype EntityEntry = EntityEntry(entity: Entity, state: EntityState)

  // ---------------------------------------------------------------------------
  // The specification, over values
  // ---------------------------------------------------------------------------

  datatype EntityValue = EntityValue(auditable: bool, createdDate: Instant, lastModifiedDate: Instant, isDeleted: bool)

  /** An entry seen as a value: its state and its entity's fields. */
  datatype TrackedValue = Tracked(state: EntityState, entity: EntityValue)

  /** The entries the stamping loop visits: auditable, and Added, Modified or Deleted. */
  predicate Selected(t: TrackedValue)
  {
    t.entity.auditable && (t.state == Added || t.state == Modified || t.state == Deleted)
  }

  /** How many clock readings stamping one entry takes: one per assignment. */
  function Cost(t: TrackedValue): nat
  {
    if !Selected(t) then 0 else if t.state == Added then 2 else 1
  }

  /** How many clock readings stamping the entries before position `i` takes. */
  function ReadingsBefore(ts: seq<TrackedValue>, i: nat): nat
    requires i <= |ts|
  {
    if i == 0 then 0 else ReadingsBefore(ts, i - 1) + Cost(ts[i - 1])
  }

  /** The readings before position `i` depend only on the entries before it. */
  lemma {:induction false} ReadingsBeforePrefix(ts: seq<TrackedValue>, m: nat, i: nat)
    requires i <= m <= |ts|
    ensures ReadingsBefore(ts[..m], i) == ReadingsBefore(ts, i)
  {
    if i > 0 {
      ReadingsBeforePrefix(ts, m, i - 1);
    }
  }

  /** Stamps one entry whose first clock reading is reading number `k`. */
  function StampOne(t: TrackedValue, clock: nat -> Instant, k: nat): (r: TrackedValue)
    ensures !Selected(t) ==> r == t
    ensures r.state == t.state && r.entity.auditable == t.entity.auditable && r.entity.isDeleted == t.entity.isDeleted
    ensures t.state != Added ==> r.entity.createdDate == t.entity.createdDate
    ensures Selected(t) && t.state == Added ==> r.entity.createdDate == clock(k)
    ensures Selected(t) ==> r.entity.lastModifiedDate == clock(k + Cost(t) - 1)
  {
    if !Selected(t) then t
    else if t.state == Added then
      t.(entity := t.entity.(createdDate := clock(k), lastModifiedDate := clock(k + 1)))
    else
      t.(entity := t.entity.(lastModifiedDate := clock(k)))
  }

  /** The effect of one call on a batch: entries are stamped in order, sharing one clock. */
  function StampAll(ts: seq<TrackedValue>, clock: nat -> Instant): (r: seq<TrackedValue>)
    ensures |r| == |ts|
  {
    if ts == [] then []
    else
      var front := ts[..|ts| - 1];
      StampAll(front, clock) + [StampOne(ts[|ts| - 1], clock, ReadingsBefore(ts, |ts| - 1))]
  }

  /** Entry `i` of a stamped batch is entry `i` stamped from reading number `ReadingsBefore(ts, i)` on. */
  lemma {:induction false} StampAllAt(ts: seq<TrackedValue>, clock: nat -> Instant, i: nat)
    requires i < |ts|
    ensures StampAll(ts, clock)[i] == StampOne(ts[i], clock, ReadingsBefore(ts, i))
  {
    var n := |ts| - 1;
    if i < n {
      StampAllAt(ts[..n], clock, i);
      ReadingsBeforePrefix(ts, n, i);
    }
  }

  /** Entries that are not auditable, or are Unchanged or Detached, come out exactly as they went in. */
  lemma UnselectedEntriesUnchanged(ts: seq<TrackedValue>, clock: nat -> Instant, i: nat)
    requires i < |ts| && !Selected(ts[i])
    ensures StampAll(ts, clock)[i] == ts[i]
  {
    StampAllAt(ts, clock, i);
  }

  /** An auditable Added entry gets its creation time from the first clock reading it takes. */
  lemma AddedEntryGetsCreatedDate(ts: seq<TrackedValue>, clock: nat -> Instant, i: nat)
    requires i < |ts| && ts[i].entity.auditable && ts[i].state == Added
    ensures StampAll(ts, clock)[i].entity.createdDate == clock(ReadingsBefore(ts, i))
  {
    StampAllAt(ts, clock, i);
  }

  /** An auditable Modified or Deleted entry keeps the creation time it had. */
  lemma ModifiedOrDeletedKeepsCreatedDate(ts: seq<TrackedValue>, clock: nat -> Instant, i: nat)
    requires i < |ts| && (ts[i].state == Modified || ts[i].state == Deleted)
    ensures StampAll(ts, clock)[i].entity.createdDate == ts[i].entity.createdDate
  {
    StampAllAt(ts, clock, i);
  }

  /**
   * Every stamped entry, Deleted ones included, gets its modification time from
   * a clock reading: the second for an Added entry, the only one otherwise.
   */
  lemma SelectedEntryGetsLastModifiedDate(ts: seq<TrackedValue>, clock: nat -> Instant, i: nat)
    requires i < |ts| && Selected(ts[i])
    ensures StampAll(ts, clock)[i].entity.lastModifiedDate
            == clock(ReadingsBefore(ts, i) + if ts[i].state == Added then 1 else 0)
  {
    StampAllAt(ts, clock, i);
  }

  /** Stamping changes no state, no auditable flag and no field besides the two timestamps. */
  lemma StampingChangesOnlyTimestamps(ts: seq<TrackedValue>, clock: nat -> Instant, i: nat)
    requires i < |ts|
    ensures StampAll(ts, clock)[i].state == ts[i].state
    ensures StampAll(ts, clock)[i].entity.auditable == ts[i].entity.auditable
    ensures StampAll(ts, clock)[i].entity.isDeleted == ts[i].entity.isDeleted
  {
    StampAllAt(ts, clock, i);
  }

  /** A batch with no auditable Added, Modified or Deleted entry is left as it is. */
  lemma {:induction false} StampingWithoutSelectedEntriesIsNoOp(ts: seq<TrackedValue>, clock: nat -> Instant)
    requires forall i :: 0 <= i < |ts| ==> !Selected(ts[i])
    ensures StampAll(ts, clock) == ts
  {
    if ts != [] {
      var front := ts[..|ts| - 1];
      StampingWithoutSelectedEntriesIsNoOp(front, clock);
      assert front + [ts[|ts| - 1]] == ts;
    }
  }

  /** Readings taken for earlier entries come before those taken for later ones. */
  lemma {:induction false} ReadingsGrow(ts: seq<TrackedValue>, i: nat, j: nat)
    requires i < j <= |ts|
    ensures ReadingsBefore(ts, i) + Cost(ts[i]) <= ReadingsBefore(ts, j)
  {
    if i < j - 1 {
      ReadingsGrow(ts, i, j - 1);
    }
  }

  /** A clock whose readings never go backwards. */
  ghost predicate Monotone(clock: nat -> Instant)
  {
    forall a: nat, b: nat :: a <= b ==> clock(a) <= clock(b)
  }

  /**
   * With a clock that never goes backwards, an Added entry's creation time is
   * not after its modification time, and entries stamped earlier in the batch
   * carry modification times not after those of entries stamped later.
   */
  lemma StampsFollowBatchOrder(ts: seq<TrackedValue>, clock: nat -> Instant, i: nat, j: nat)
    requires Monotone(clock)
    requires i < j < |ts| && Selected(ts[i]) && Selected(ts[j])
    ensures ts[i].state == Added ==>
              StampAll(ts, clock)[i].entity.createdDate <= StampAll(ts, clock)[i].entity.lastModifiedDate
    ensures StampAll(ts, clock)[i].entity.lastModifiedDate <= StampAll(ts, clock)[j].entity.lastModifiedDate
  {
    StampAllAt(ts, clock, i);
    StampAllAt(ts, clock, j);
    ReadingsGrow(ts, i, j);
  }

  /**
   * When every reading of the clock during the call gives the same instant
   * `now`, every stamp of the batch is `now`.
   */
  lemma SteadyClockStampsOneInstant(ts: seq<TrackedValue>, clock: nat -> Instant, now: Instant, i: nat)
    requires forall k: nat :: clock(k) == now
    requires i < |ts| && Selected(ts[i])
    ensures StampAll(ts, clock)[i].entity.lastModifiedDate == now
    ensures ts[i].state == Added ==> StampAll(ts, clock)[i].entity.createdDate == now
  {
    StampAllAt(ts, clock, i);
  }

  // ---------------------------------------------------------------------------
  // The stamping loop, over the tracked objects
  // ---------------------------------------------------------------------------

  /** The change tracker keeps one entry per entity object. */
  ghost predicate DistinctEntities(entries: seq<EntityEntry>)
  {
    forall i, j :: 0 <= i < j < |entries| ==> entries[i].entity != entries[j].entity
  }

  /** The entries as values, read from the current heap. */
  ghost function Snapshot(entries: seq<EntityEntry>): seq<TrackedValue>
    reads set i | 0 <= i < |entries| :: entries[i].entity
  {
    seq(|entries|, i requires 0 <= i < |entries| reads if 0 <= i < |entries| then {entries[i].entity} else {} =>
      Tracked(entries[i].state, entries[i].entity.Value()))
  }

  /**
   * One turn of the loop: stamps the entry whose value is `t`, starting at
   * reading `reading`, and returns the number of the next reading.
   */
  method StampEntry(entry: EntityEntry, clock: nat -> Instant, reading: nat, ghost t: TrackedValue) returns (next: nat)
    requires t == Tracked(entry.state, entry.entity.Value())
    modifies entry.entity
    ensures Tracked(entry.state, entry.entity.Value()) == StampOne(t, clock, reading)
    ensures next == reading + Cost(t)
  {
    next := reading;
    if entry.entity.auditable && (entry.state == Added || entry.state == Modified || entry.state == Deleted) {
      if entry.state == Added {
        entry.entity.createdDate := clock(next);
        next := next + 1;
      }
      entry.entity.lastModifiedDate := clock(next);
      next := next + 1;
    }
  }

  /**
   * Stamps the entries in place. Reading `k` of `clock` is the value of the
   * k-th `DateTime.UtcNow` evaluated during the call.
   */
  method AddAuditInfo(entries: seq<EntityEntry>, clock: nat -> Instant)
    requires DistinctEntities(entries)
    modifies set i | 0 <= i < |entries| :: entries[i].entity
    ensures Snapshot(entries) == StampAll(old(Snapshot(entries)), clock)
  {
    ghost var before := Snapshot(entries);
    ghost var after := StampAll(before, clock);
    var reading: nat := 0;
    for i := 0 to |entries|
      invariant reading == ReadingsBefore(before, i)
      invariant forall j :: 0 <= j < i ==> Tracked(entries[j].state, entries[j].entity.Value()) == after[j]
      invariant forall j :: i <= j < |entries| ==> entries[j].entity.Value() == before[j].entity
    {
      StampAllAt(before, clock, i);
      assert after[i] == StampOne(before[i], clock, reading);
      assert ReadingsBefore(before, i + 1) == reading + Cost(before[i]);
      var entity := entries[i].entity;
      label BeforeStamp:
      reading := StampEntry(entries[i], clock, reading, before[i]);
      forall j | 0 <= j < |entries| && j != i
        ensures entries[j].entity.Value() == old@BeforeStamp(entries[j].entity.Value())
      {
        assert entries[j].entity != entity;
        assert unchanged@BeforeStamp(entries[j].entity);
      }
    }
    assert Snapshot(entries) == after;
  }
}
