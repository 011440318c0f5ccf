/**
 * Soft-delete query filters: `DbContextExtension.GetIsDeletedRestriction` and the
 * filter map that `ConfigureDeletableEntities` builds.
 *
 * A row is a bag of named property values. The filter synthesised for a
 * soft-deletable entity type reads the boolean property named `IsDeleted`
 * and admits the row when it is false. The query layer then applies a type's
 * filter to every default read of that type.
 */
module SoftDelete {
  import opened Common

  /** A column value of a row. */
  datatype Value = BoolValue(b: bool) | IntValue(i: int) | TextValue(s: string)

  /** A stored row, by property name. */
  type Row = map<string, Value>

  /** The property the filter reads. */
  const IsDeletedProperty: string := "IsDeleted"

  /** An entity type of the model; `softDelete` holds when `ISoftDelete` is assignable from it. */
  datatype EntityType = EntityType(clrType: TypeName, softDelete: bool)

  /** The query filters attached so far, by entity type. */
  type FilterMap = map<TypeName, Row -> bool>

  /** `EF.Property<bool>(row, name)`: the boolean value of a property, if the row has one. */
  function BoolProperty(row: Row, name: string): Option<bool>
  {
    if name in row && row[name].BoolValue? then Some(row[name].b) else None
  }

  /** The predicate `it => EF.Property<bool>(it, "IsDeleted") == false`. */
  predicate NotDeleted(row: Row)
  {
    BoolProperty(row, IsDeletedProperty) == Some(false)
  }

  /**
   * The filter synthesised for entity type `t`. Its parameter is typed by `t`;
   * its meaning is the same for every type.
   */
  function GetIsDeletedRestriction(t: EntityType): (filter: Row -> bool)
    ensures forall row :: filter(row) <==> IsDeletedProperty in row && row[IsDeletedProperty] == BoolValue(false)
  {
    NotDeleted
  }

  /**
   * The rows of `rows` that `filter` admits. The result keeps the input's
   * order and its repeats: it is an order-preserving filter.
   */
  function Where(rows: seq<Row>, filter: Row -> bool): (r: seq<Row>)
    ensures |r| <= |rows|
    ensures forall row :: row in r <==> row in rows && filter(row)
  {
    if rows == [] then []
    else if filter(rows[0]) then [rows[0]] + Where(rows[1..], filter)
    else Where(rows[1..], filter)
  }

  /** What a default read of entity type `t` returns from `rows`, given the attached filters. */
  function DefaultRead(filters: FilterMap, t: TypeName, rows: seq<Row>): seq<Row>
  {
    if t in filters then Where(rows, filters[t]) else rows
  }

  /**
   * The filter map after visiting `types` in order: each soft-deletable type's
   * filter is set, replacing any it had; every other entry stays.
   */
  function WithSoftDeleteFilters(filters: FilterMap, types: seq<EntityType>): (r: FilterMap)
    ensures r.Keys == filters.Keys + SoftDeletableNames(types)
  {
    if types == [] then filters
    else
      var prev := WithSoftDeleteFilters(filters, types[..|types| - 1]);
      var t := types[|types| - 1];
      if t.softDelete then prev[t.clrType := GetIsDeletedRestriction(t)] else prev
  }

  /** The names of the soft-deletable types among `types`. */
  function SoftDeletableNames(types: seq<EntityType>): set<TypeName>
  {
    set t | t in types && t.softDelete :: t.clrType
  }

  /** Whether some soft-deletable type among `types` has the name `n`. */
  ghost predicate HasSoftDeletable(types: seq<EntityType>, n: TypeName)
  {
    exists t :: t in types && t.softDelete && t.clrType == n
  }

  /**
   * Exactly the soft-deletable types get the `IsDeleted` filter; every other
   * type keeps the filter it had, or stays without one.
   */
  lemma {:induction false} SoftDeleteFiltersAt(filters: FilterMap, types: seq<EntityType>, n: TypeName)
    ensures HasSoftDeletable(types, n) ==>
              n in WithSoftDeleteFilters(filters, types) && WithSoftDeleteFilters(filters, types)[n] == NotDeleted
    ensures !HasSoftDeletable(types, n) ==>
              (n in WithSoftDeleteFilters(filters, types) <==> n in filters) &&
              (n in filters ==> WithSoftDeleteFilters(filters, types)[n] == filters[n])
  {
    if types != [] {
      var front := types[..|types| - 1];
      var t := types[|types| - 1];
      SoftDeleteFiltersAt(filters, front, n);
      assert types == front + [t];
      if HasSoftDeletable(types, n) && !(t.softDelete && t.clrType == n) {
        var u :| u in types && u.softDelete && u.clrType == n;
        assert u in front;
      }
      if HasSoftDeletable(front, n) {
        var u :| u in front && u.softDelete && u.clrType == n;
        assert u in types;
      }
    }
  }

  /** The filters of types not among `types` are unaffected. */
  lemma OtherFiltersUnchanged(filters: FilterMap, types: seq<EntityType>, n: TypeName)
    requires forall t :: t in types ==> t.clrType != n
    ensures n in WithSoftDeleteFilters(filters, types) <==> n in filters
    ensures n in filters ==> WithSoftDeleteFilters(filters, types)[n] == filters[n]
  {
    SoftDeleteFiltersAt(filters, types, n);
  }

  /** Attaching is a per-type assignment, so attaching again changes nothing. */
  lemma AttachingFiltersIsIdempotent(filters: FilterMap, types: seq<EntityType>)
    ensures WithSoftDeleteFilters(WithSoftDeleteFilters(filters, types), types)
            == WithSoftDeleteFilters(filters, types)
  {
    var once := WithSoftDeleteFilters(filters, types);
    var twice := WithSoftDeleteFilters(once, types);
    forall n | true
      ensures n in twice <==> n in once
      ensures n in once ==> twice[n] == once[n]
    {
      SoftDeleteFiltersAt(filters, types, n);
      SoftDeleteFiltersAt(once, types, n);
    }
    assert twice.Keys == once.Keys;
  }

  /**
   * After the filters are attached, a default read of a soft-deletable type
   * drops every row whose `IsDeleted` is true and keeps every row whose
   * `IsDeleted` is false, in the order they were stored.
   */
  lemma DefaultReadHidesDeletedRows(filters: FilterMap, types: seq<EntityType>, t: EntityType, rows: seq<Row>)
    requires t in types && t.softDelete
    ensures forall row :: row in rows && IsDeletedProperty in row && row[IsDeletedProperty] == BoolValue(true) ==>
              row !in DefaultRead(WithSoftDeleteFilters(filters, types), t.clrType, rows)
    ensures forall row :: row in rows && IsDeletedProperty in row && row[IsDeletedProperty] == BoolValue(false) ==>
              row in DefaultRead(WithSoftDeleteFilters(filters, types), t.clrType, rows)
    ensures DefaultRead(WithSoftDeleteFilters(filters, types), t.clrType, rows) == Where(rows, NotDeleted)
  {
    SoftDeleteFiltersAt(filters, types, t.clrType);
  }

  /** A type that is not soft-deletable and had no filter is read unfiltered. */
  lemma DefaultReadOfOtherTypesUnfiltered(filters: FilterMap, types: seq<EntityType>, n: TypeName, rows: seq<Row>)
    requires !HasSoftDeletable(types, n) && n !in filters
    ensures DefaultRead(WithSoftDeleteFilters(filters, types), n, rows) == rows
  {
    SoftDeleteFiltersAt(filters, types, n);
  }
}
