/**
 * The model builder the two start-up helpers of `DbContextExtension` extend:
 * `ApplyAllConfigurations` appends to its log of applied configurations and
 * `ConfigureDeletableEntities` assigns query filters per entity type.
 */
module ModelBuilding {
  import opened Common
  import opened SoftDelete
  import opened Discovery

  class ModelBuilder {
    /** `Model.GetEntityTypes()`: the entity types the model holds, in order. */
    var entityTypes: seq<EntityType>
    /** The query filter attached to each entity type that has one. */
    var queryFilters: FilterMap
    /** Every `ApplyConfiguration` call made on this builder, in order. */
    var configurations: seq<Application>

    constructor (entityTypes: seq<EntityType>)
      ensures this.entityTypes == entityTypes && queryFilters == map[] && configurations == []
    {
      this.entityTypes := entityTypes;
      queryFilters := map[];
      configurations := [];
    }

    /**
     * Visits the model's entity types in order and attaches the `IsDeleted`
     * filter to each soft-deletable one; nothing else changes.
     */
    method ConfigureDeletableEntities()
      modifies this`queryFilters
      ensures queryFilters == WithSoftDeleteFilters(old(queryFilters), entityTypes)
    {
      ghost var initial := queryFilters;
      for i := 0 to |entityTypes|
        invariant queryFilters == WithSoftDeleteFilters(initial, entityTypes[..i])
      {
        assert entityTypes[..i + 1][..i] == entityTypes[..i];
        var entity := entityTypes[i];
        assert WithSoftDeleteFilters(initial, entityTypes[..i + 1])
               == if entity.softDelete then queryFilters[entity.clrType := GetIsDeletedRestriction(entity)] else queryFilters;
        if entity.softDelete {
          queryFilters := queryFilters[entity.clrType := GetIsDeletedRestriction(entity)];
        }
      }
      assert entityTypes[..|entityTypes|] == entityTypes;
    }

    /**
     * Runs discovery over the assembly's types in order, applying each
     * candidate's configuration as it is reached; returns the error that
     * stopped it, if any. Nothing besides the log of applications changes.
     */
    method ApplyAllConfigurations(assemblyTypes: seq<TypeDescriptor>) returns (error: Option<DiscoveryError>)
      modifies this`configurations
      ensures configurations == old(configurations) + Discover(assemblyTypes).applied
      ensures error == Discover(assemblyTypes).failure
    {
      ghost var initial := configurations;
      var i := 0;
      while i < |assemblyTypes|
        invariant i <= |assemblyTypes|
        invariant |initial| <= |configurations| && configurations[..|initial|] == initial
        invariant Discover(assemblyTypes)
                  == Discovery(configurations[|initial|..] + Discover(assemblyTypes[i..]).applied,
                               Discover(assemblyTypes[i..]).failure)
      {
        var t := assemblyTypes[i];
        ghost var d, d' := Discover(assemblyTypes[i..]), Discover(assemblyTypes[i + 1..]);
        assert assemblyTypes[i..][1..] == assemblyTypes[i + 1..];
        var found := FirstConfigurationInterface(t.interfaces);
        if found.Some? {
          var arguments := t.interfaces[found.value].genericArguments;
          if |arguments| == 0 {
            assert d == Discovery([], Some(MissingGenericArgument(t.name)));
            return Some(MissingGenericArgument(t.name));
          }
          if !t.hasDefaultConstructor {
            assert d == Discovery([], Some(NoDefaultConstructor(t.name)));
            return Some(NoDefaultConstructor(t.name));
          }
          var a := Application(arguments[0], t.name);
          assert d == Discovery([a] + d'.applied, d'.failure);
          ghost var logged := configurations[|initial|..];
          configurations := configurations + [a];
          assert configurations[|initial|..] == logged + [a];
          assert configurations[|initial|..] + d'.applied == logged + d.applied;
        } else {
          assert d == d';
        }
        i := i + 1;
      }
      error := None;
    }
  }
}
