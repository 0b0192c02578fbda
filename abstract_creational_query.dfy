/**
 * The state shared by INSERT and UPDATE statements: a table and an ordered values map.
 * The class below also stands for an UPDATE node, which adds nothing to this state that
 * the values container uses.
 */
module Creational {
  import opened Syntax
  import opened ValuesMap

  class CreationalQuery {
    /** The statement's table; None until one is set. */
    var table: Option<string>
    /** The stored values map. */
    var values: Entries

    /** Keys stay unique (a PHP array) and no null survives assignment. */
    ghost predicate Valid()
      reads this
    {
      DistinctKeys(values) && NoNulls(values)
    }

    /**
     * Sets the table only when one is given, and the values only when a non-empty map is
     * given; an absent or empty map leaves the map empty.
     */
    constructor (table: Option<string>, values: Option<Entries>)
      requires values.Some? ==> DistinctKeys(values.value)
      ensures Valid()
      ensures this.table == table
      ensures values.None? || values.value == [] ==> this.values == []
      ensures values.Some? && values.value != [] ==> this.values == DropNulls(values.value)
    {
      this.table := None;
      this.values := [];
      new;
      if table.Some? {
        this.table := table;
      }
      if values.Some? && values.value != [] {
        var self := SetValues(values.value);
      }
    }

    /**
     * Replaces the stored map by the non-null entries of m, in their order, and returns
     * this query for chaining.
     */
    method SetValues(m: Entries) returns (self: CreationalQuery)
      requires DistinctKeys(m)
      modifies this
      ensures self == this
      ensures Valid()
      ensures values == DropNulls(m)
      ensures table == old(table)
    {
      FilterDistinct(m, NotNull);
      values := DropNulls(m);
      self := this;
    }

    /** The stored entries that are not SQL function calls, in stored order. */
    method GetValues() returns (res: Entries)
      requires Valid()
      ensures res == WithoutFunctions(values)
    {
      res := [];
      var i := 0;
      while i < |values|
        invariant 0 <= i <= |values|
        invariant res == WithoutFunctions(values[..i])
      {
        FilterAppend(values[..i], values[i], NotFunction);
        assert values[..i + 1] == values[..i] + [values[i]];
        if !values[i].1.Func? {
          res := res + [values[i]];
        }
        i := i + 1;
      }
      assert values[..i] == values;
    }

    /** The stored map itself, functions included: unique keys and no null value. */
    function GetValuesWithFunctions(): (r: Entries)
      reads this
      requires Valid()
      ensures r == values
      ensures DistinctKeys(r) && NoNulls(r)
    {
      values
    }
  }

  // ---------------------------------------------------------------------------
  // What the two getters and setValues promise, stated on the map itself

  /**
   * setValues(m) stores exactly the non-null entries of m: no null survives, every non-null
   * entry of m does, keys and values are unchanged and their relative order is kept; and
   * no other sequence has all of these properties.
   */
  lemma StoredMapIsNonNullPart(m: Entries)
    requires DistinctKeys(m)
    ensures NoNulls(DropNulls(m)) && DistinctKeys(DropNulls(m))
    ensures forall e :: e in DropNulls(m) <==> e in m && !e.1.Null?
    ensures IsSubsequence(DropNulls(m), m)
    ensures forall k :: Lookup(DropNulls(m), k) == if Lookup(m, k) == Some(Null) then None else Lookup(m, k)
    ensures forall r :: IsSubsequence(r, m) && (forall e :: e in r <==> e in m && !e.1.Null?) ==> r == DropNulls(m)
  {
    FilterComplete(m, NotNull);
    FilterIsSubsequence(m, NotNull);
    FilterDistinct(m, NotNull);
    forall k ensures Lookup(DropNulls(m), k) == if Lookup(m, k) == Some(Null) then None else Lookup(m, k) {
      FilterLookup(m, NotNull, k);
    }
    forall r | IsSubsequence(r, m) && (forall e :: e in r <==> e in m && !e.1.Null?) ensures r == DropNulls(m) {
      FilterUnique(m, NotNull, r);
    }
  }

  /**
   * getValues returns exactly the stored entries that are not function calls, in stored
   * order: a sub-map of getValuesWithFunctions that agrees with it on every key it keeps.
   */
  lemma GetValuesIsLiteralPart(stored: Entries)
    requires DistinctKeys(stored) && NoNulls(stored)
    ensures forall e :: e in WithoutFunctions(stored) <==> e in stored && e.1.Lit?
    ensures IsSubsequence(WithoutFunctions(stored), stored)
    ensures forall k :: Lookup(WithoutFunctions(stored), k) ==
              if Lookup(stored, k).Some? && Lookup(stored, k).value.Func? then None else Lookup(stored, k)
  {
    FilterComplete(stored, NotFunction);
    FilterIsSubsequence(stored, NotFunction);
    forall e | e in stored ensures e.1 != Null {
      var i :| 0 <= i < |stored| && stored[i] == e;
    }
    forall k ensures Lookup(WithoutFunctions(stored), k) ==
              if Lookup(stored, k).Some? && Lookup(stored, k).value.Func? then None else Lookup(stored, k) {
      FilterLookup(stored, NotFunction, k);
    }
  }

  /**
   * The getter after setValues(m): exactly the literal entries of m, in order; neither a
   * null nor a function call ever reaches it.
   */
  lemma {:induction false} GetValuesAfterSetValues(m: Entries)
    ensures WithoutFunctions(DropNulls(m)) == Filter(m, IsLiteral)
  {
    FilterFilter(m, NotNull, NotFunction, IsLiteral);
  }

  /** setValues(getValuesWithFunctions()) leaves the stored map as it was. */
  lemma SetValuesIdempotent(stored: Entries)
    requires NoNulls(stored)
    ensures DropNulls(stored) == stored
  {
    FilterKeepsAll(stored, NotNull);
  }
}
