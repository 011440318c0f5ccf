# Persistence helpers of ResearchHive, modelled in Dafny

This project models `DbContextExtension`, the static class that ResearchHive's
Entity Framework context uses for three jobs:

- **Audit stamping** (`AddAuditInfo`, run before every save). The change
  tracker's entries are visited in order. An entry is stamped when its entity
  is auditable and its state is Added, Modified or Deleted. An Added entry gets
  a new `CreatedDate`. Every stamped entry gets a new `LastModifiedDate`. Each
  assignment reads `DateTime.UtcNow` afresh.
- **Soft-delete filters** (`ConfigureDeletableEntities`, `GetIsDeletedRestriction`).
  Every entity type of the model that implements `ISoftDelete` gets the query
  filter `it => EF.Property<bool>(it, "IsDeleted") == false`. Other types' filters
  are left alone.
- **Configuration discovery** (`ApplyAllConfigurations`). The context
  assembly's types are visited in order. A type is a candidate when it has an
  interface whose simple name is "IEntityTypeConfiguration`1". For each
  candidate, generic argument 0 of its first such interface is the target
  entity type. The candidate is default-constructed and passed to
  `ApplyConfiguration`.

Files:

- `common.dfy` (module `Common`): `Option` and type names.
- `audit.dfy` (module `AuditInfo`): the tracked `Entity` class and the
  `AddAuditInfo` loop over entries. `StampAll` is its specification over
  values, and the lemmas about `StampAll` state what stamping promises.
- `softdelete.dfy` (module `SoftDelete`): rows, the `IsDeleted` predicate,
  the filter map after attachment, default reads, and lemmas about them.
- `discovery.dfy` (module `Discovery`): type descriptors, the discovery
  pipeline as the function `Discover`, and lemmas about it.
- `modelbuilder.dfy` (module `ModelBuilding`): the `ModelBuilder` class. Its
  two methods update its filter map and its log of applied configurations in
  place. Each method is proved equal to the matching specification function.

Modelling decisions:

- The clock is a parameter `clock: nat -> Instant`. `clock(k)` is the k-th
  `DateTime.UtcNow` read during one call. An Added entry reads the clock
  twice: first for `CreatedDate`, then for `LastModifiedDate`. The code reads
  the clock once per assignment, so it does not promise that all stamps in a
  batch share one instant, and the model makes no such promise either.
  `SteadyClockStampsOneInstant` shows that when every reading gives the same
  instant `now`, every stamp of the batch is `now`.
- The LINQ pipeline of `ApplyAllConfigurations` is lazy. `ToList` forces it
  one type at a time: find the interface, read generic argument 0,
  construct the candidate, then invoke `ApplyConfiguration`. So when a
  candidate fails, the candidates before it have already been applied to the
  builder, and they stay there after the failure. `Discovery` records the
  applications made and the error that stopped them.
- A query filter is a Dafny predicate over rows, not an expression tree. A
  row maps property names to values. `GetIsDeletedRestriction` returns the
  same predicate, `NotDeleted`, for every type. In the source only the
  lambda's parameter type depends on the type.

## Model

| member | source | states |
|---|---|---|
| AuditInfo.AddAuditInfo | ResearchHive/Context/DbContextExtension.cs:15-30 | stamping the entries in place leaves them equal to `StampAll` of their previous values, read one clock reading per assignment; requires one entry per entity object |
| AuditInfo.StampEntry | ResearchHive/Context/DbContextExtension.cs:20-29 | one loop turn: the entry becomes its stamped value, and the clock readings it took are counted |
| AuditInfo.StampOne | ResearchHive/Context/DbContextExtension.cs:20-29 | one entry's stamping: an unselected entry is unchanged; state, auditable flag and `IsDeleted` are kept; a non-Added entry keeps `CreatedDate`; a selected entry's `LastModifiedDate` is the last clock reading it takes (the second for Added, the only one otherwise). `StampAllAt` and the lemmas below lift this to the batch |
| AuditInfo.StampAll | ResearchHive/Context/DbContextExtension.cs:15-30 | the batch stamped in order has one entry per entry of the tracker; its meaning is given by `StampAllAt`, `StampingChangesOnlyTimestamps`, `StampsFollowBatchOrder` and the other stamping lemmas, and `AddAuditInfo` is proved equal to it |
| AuditInfo.StampAllAt | ResearchHive/Context/DbContextExtension.cs:20-29 | entry i of a stamped batch is entry i stamped from reading number `ReadingsBefore(ts, i)` on: the sequential loop equals a per-entry definition |
| AuditInfo.ReadingsBeforePrefix | ResearchHive/Context/DbContextExtension.cs:20-29 | the clock readings taken before entry i depend only on the entries before i |
| AuditInfo.UnselectedEntriesUnchanged | ResearchHive/Context/DbContextExtension.cs:17-18 | an entry that is not auditable, or is Unchanged or Detached, comes out exactly as it went in |
| AuditInfo.AddedEntryGetsCreatedDate | ResearchHive/Context/DbContextExtension.cs:22-24 | an auditable Added entry gets `CreatedDate` from the first clock reading it takes |
| AuditInfo.ModifiedOrDeletedKeepsCreatedDate | ResearchHive/Context/DbContextExtension.cs:22-26 | a Modified or Deleted entry keeps its `CreatedDate` |
| AuditInfo.SelectedEntryGetsLastModifiedDate | ResearchHive/Context/DbContextExtension.cs:20-29 | every stamped entry, Deleted ones included, gets `LastModifiedDate` from a clock reading: the second for Added, the only one otherwise |
| AuditInfo.StampingChangesOnlyTimestamps | ResearchHive/Context/DbContextExtension.cs:15-30 | stamping changes no entry state, no auditable flag and no field besides the two timestamps |
| AuditInfo.StampingWithoutSelectedEntriesIsNoOp | ResearchHive/Context/DbContextExtension.cs:15-30 | a batch with no auditable Added, Modified or Deleted entry is left unchanged |
| AuditInfo.ReadingsGrow | ResearchHive/Context/DbContextExtension.cs:20-29 | all clock readings for an earlier entry come before those for a later entry |
| AuditInfo.StampsFollowBatchOrder | ResearchHive/Context/DbContextExtension.cs:20-29 | with a clock that never goes backwards, an Added entry's `CreatedDate` is not after its `LastModifiedDate`, and earlier entries' `LastModifiedDate` is not after later ones' |
| AuditInfo.SteadyClockStampsOneInstant | ResearchHive/Context/DbContextExtension.cs:22-28 | when every reading gives the same instant `now`, every stamped timestamp of the batch is `now` |
| SoftDelete.GetIsDeletedRestriction | ResearchHive/Context/DbContextExtension.cs:68-83 | the synthesised filter admits a row exactly when its `IsDeleted` property holds the boolean false |
| SoftDelete.WithSoftDeleteFilters | ResearchHive/Context/DbContextExtension.cs:57-65 | the filter map after attachment has exactly the old keys plus the names of the soft-deletable types; which filter each key holds is stated by `SoftDeleteFiltersAt`, and `AttachingFiltersIsIdempotent` shows a second attachment changes nothing |
| SoftDelete.SoftDeleteFiltersAt | ResearchHive/Context/DbContextExtension.cs:57-65 | after attachment, exactly the soft-deletable types carry the `IsDeleted` filter; every other type keeps the filter it had, or stays without one |
| SoftDelete.OtherFiltersUnchanged | ResearchHive/Context/DbContextExtension.cs:57-65 | types that are not visited keep their filters |
| SoftDelete.AttachingFiltersIsIdempotent | ResearchHive/Context/DbContextExtension.cs:61-63 | attaching again yields the same filter map, because attachment is a per-type assignment |
| SoftDelete.DefaultReadHidesDeletedRows | ResearchHive/Context/DbContextExtension.cs:59-83 | a default read of a soft-deletable type drops every row with `IsDeleted` true and keeps every row with `IsDeleted` false, in stored order |
| SoftDelete.DefaultReadOfOtherTypesUnfiltered | ResearchHive/Context/DbContextExtension.cs:59-64 | a type that is not soft-deletable and had no filter is read unfiltered |
| ModelBuilding.ModelBuilder.ConfigureDeletableEntities | ResearchHive/Context/DbContextExtension.cs:55-66 | the in-place loop leaves the filter map equal to `WithSoftDeleteFilters` of the old map over the model's entity types; nothing else changes |
| ModelBuilding.ModelBuilder.ApplyAllConfigurations | ResearchHive/Context/DbContextExtension.cs:35-53 | the builder's log grows by exactly the applications of `Discover`, and the returned error is the failure of `Discover` |
| Discovery.FirstConfigurationInterface | ResearchHive/Context/DbContextExtension.cs:46-47 | finds the first interface named "IEntityTypeConfiguration`1" by ordinal comparison, and none exactly when no interface has that name |
| Discovery.StepOf | ResearchHive/Context/DbContextExtension.cs:45-51 | one type's turn through the pipeline: it is skipped exactly when it is not a candidate; a candidate whose first configuration interface has no generic argument fails with `MissingGenericArgument`; one with an argument but no default constructor fails with `NoDefaultConstructor`; one with both is applied; a failure names the type; an application carries the type, which has a default constructor |
| Discovery.Discover | ResearchHive/Context/DbContextExtension.cs:43-52 | the pipeline applies at most one configuration per type, and a failing type is not applied; `SuccessAppliesEveryCandidate`, `FailureNamesFirstBadCandidate` and `OnlyCandidatesMatter` state what it applies and when it stops |
| Discovery.Candidates | ResearchHive/Context/DbContextExtension.cs:45-48 | the types kept by the `Where` step are exactly the types that have a configuration interface |
| Discovery.Binding | ResearchHive/Context/DbContextExtension.cs:46-51 | an application targets generic argument 0 of the FIRST configuration interface of the candidate (the one `FirstConfigurationInterface` finds) and carries the candidate itself |
| Discovery.OnlyCandidatesMatter | ResearchHive/Context/DbContextExtension.cs:45-48 | types without a configuration interface play no part in discovery |
| Discovery.NoCandidatesAppliesNothing | ResearchHive/Context/DbContextExtension.cs:43-52 | an assembly without candidates applies nothing and does not fail |
| Discovery.SuccessIffEveryCandidateApplicable | ResearchHive/Context/DbContextExtension.cs:43-52 | discovery reports no failure exactly when every candidate can be bound and constructed |
| Discovery.SuccessAppliesInOrder | ResearchHive/Context/DbContextExtension.cs:43-52 | a successful discovery applies one configuration per candidate, each the candidate's binding, in type order |
| Discovery.SuccessAppliesEveryCandidate | ResearchHive/Context/DbContextExtension.cs:43-52 | discovery succeeds exactly when every candidate can be bound and constructed, and then applies one configuration per candidate, in type order |
| Discovery.FailureNamesFirstBadCandidate | ResearchHive/Context/DbContextExtension.cs:49-52 | a failure reports the error of the first candidate that cannot be bound or constructed, after applying exactly the candidates before it, in order |
| Discovery.UnconstructibleCandidateFails | ResearchHive/Context/DbContextExtension.cs:49 | a candidate without a default constructor makes discovery fail and is never skipped silently |

## Left out

- The real clock: `DateTime.UtcNow` is the parameter `clock`, whose k-th reading is the k-th evaluation during one call.
- The change tracker: `ChangeTracker.Entries()` is the `entries` argument. `AddAuditInfo` requires one entry per entity object, as Entity Framework's identity resolution guarantees.
- The timestamp fields of non-auditable entities: the code writes the timestamps only through `IAuditableEntity`. In the model every entity has the fields, and stamping leaves them alone when the entity is not auditable.
- Reflection: the lookup of `ApplyConfiguration` (lines 38-41) and the `MakeGenericMethod`/`Invoke` call (line 51) are the recorded `Application` values. `Activator.CreateInstance` is the `hasDefaultConstructor` flag. Other failures of construction or invocation are not modelled, such as an abstract type, a throwing constructor, or a violated generic constraint.
- What `ApplyConfiguration` does to the model: the model does not say what a configuration configures. It makes no claim about two configurations that target the same entity type. It does not add the target type to the model's entity types.
- The order of `Assembly.GetTypes()` and of `Type.GetInterfaces()`: the model takes both as given sequences, so "first" in `FirstConfigurationInterface` means first in the order `GetInterfaces()` returns.
- `MissingGenericArgument`: a real interface named "IEntityTypeConfiguration`1" always has one generic argument. The model still reports the out-of-range read that the source would throw.
- The filter's expression tree, `EF.Property`'s lookup, and SQL translation: only the predicate's meaning is modelled. A soft-deletable type without a boolean `IsDeleted` column fails inside the library, not in this code; the model's predicate just rejects such a row.
- How the query layer applies a filter: `DefaultRead` states what a default read returns once a filter is attached.
- Concurrency: each helper runs single-threaded, once per build or per save.
- The user authentication repository, the response and request DTOs, controllers, password hashing and JWT issuance are not part of this model.
