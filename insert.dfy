/**
 * The INSERT statement node: the values container of a creational query, the column list
 * derived from its keys, and the ON DUPLICATE KEY UPDATE clause kept as a second,
 * UPDATE-shaped query on the same table.
 */
module InsertStatement {
  import opened Syntax
  import opened ValuesMap
  import opened Creational

  /** One column per name, each owned by the given table, in the given order. */
  function CreateColumns(names: seq<string>, table: Option<string>): (cols: seq<Column>)
  {
    seq(|names|, i requires 0 <= i < |names| => Column(names[i], table))
  }

  /** A null for key k in the duplicate-key clause means `VALUES(k)` on this table. */
  function RewriteNull(e: Entry, table: Option<string>): (r: Entry)
  {
    if e.1.Null? then (e.0, Func(ValuesCall(Column(e.0, table)))) else e
  }

  /**
   * The duplicate-key map: same keys in the same order, every null replaced by the call
   * `VALUES(col)` naming its own column of the table, every other value untouched.
   */
  function RewriteNulls(m: Entries, table: Option<string>): (r: Entries)
    ensures Keys(r) == Keys(m)
    ensures NoNulls(r)
    ensures DistinctKeys(m) ==> DistinctKeys(r)
    ensures forall i :: 0 <= i < |m| && m[i].1.Null? ==>
              r[i].1 == Func(SqlFunction("VALUES", ColumnArg(Column(m[i].0, table))))
    ensures forall i :: 0 <= i < |m| && !m[i].1.Null? ==> r[i] == m[i]
  {
    seq(|m|, i requires 0 <= i < |m| => RewriteNull(m[i], table))
  }

  class Insert {
    /** The inherited creational part: the table and the values map. */
    const base: CreationalQuery
    /** The ON DUPLICATE KEY UPDATE clause, once one has been attached. */
    var onDup: CreationalQuery?

    ghost predicate Valid()
      reads this, base, onDup
    {
      base.Valid() && (onDup != null ==> onDup != base && onDup.Valid())
    }

    constructor (table: Option<string>, values: Option<Entries>)
      requires values.Some? ==> DistinctKeys(values.value)
      ensures Valid() && fresh(base) && onDup == null
      ensures base.table == table
      ensures values.None? || values.value == [] ==> base.values == []
      ensures values.Some? && values.value != [] ==> base.values == DropNulls(values.value)
    {
      base := new CreationalQuery(table, values);
      onDup := null;
    }

    /** The statement keyword. */
    function PartName(): (name: string)
      ensures name == "INSERT"
    {
      "INSERT"
    }

    /** One column per stored key, in map order, each owned by this statement's table. */
    function GetColumns(): (cols: seq<Column>)
      reads this, base
      ensures |cols| == |base.values|
      ensures forall i :: 0 <= i < |cols| ==>
                cols[i].name == base.values[i].0 && cols[i].table == base.table
    {
      CreateColumns(Keys(base.values), base.table)
    }

    /**
     * Attaches (or replaces) the duplicate-key clause: a fresh query on this table whose
     * map is m with every null rewritten to `VALUES(col)`. Nothing is dropped, and this
     * statement's own map is left alone.
     */
    method OnDuplicateKeyUpdate(m: Entries)
      requires Valid() && DistinctKeys(m)
      modifies this
      ensures Valid()
      ensures onDup != null && fresh(onDup)
      ensures onDup.table == base.table
      ensures onDup.values == RewriteNulls(m, base.table)
      ensures Keys(onDup.values) == Keys(m)
      ensures unchanged(base)
    {
      var vals := m;
      var i := 0;
      while i < |vals|
        invariant 0 <= i <= |vals| == |m|
        invariant forall j :: 0 <= j < i ==> vals[j] == RewriteNull(m[j], base.table)
        invariant forall j :: i <= j < |m| ==> vals[j] == m[j]
      {
        if vals[i].1.Null? {
          vals := vals[i := (vals[i].0, Func(ValuesCall(Column(vals[i].0, base.table))))];
        }
        i := i + 1;
      }
      assert vals == RewriteNulls(m, base.table);
      SetValuesIdempotent(vals);
      onDup := new CreationalQuery(base.table, Some(vals));
    }

    /** The attached clause, if any; it is always a well-formed query. */
    function GetOnDuplicateKeyUpdate(): (u: CreationalQuery?)
      reads this, base, onDup
      requires Valid()
      ensures u == onDup
      ensures u != null ==> u != base && u.Valid()
    {
      onDup
    }

    /**
     * The clause's literal entries (every `VALUES(col)` rewrite and every other call
     * excluded). None stands for the call on an Insert with no clause attached.
     */
    method GetOnDuplicateKeyUpdateValues() returns (r: Option<Entries>)
      requires Valid()
      ensures r.None? <==> onDup == null
      ensures onDup != null ==> r == Some(WithoutFunctions(onDup.values))
    {
      if onDup == null {
        r := None;
      } else {
        var vs := onDup.GetValues();
        r := Some(vs);
      }
    }

    /** The clause's whole map. None stands for the call on an Insert with no clause. */
    function GetOnDuplicateKeyUpdateValuesWithFunctions(): (r: Option<Entries>)
      reads this, base, onDup
      requires Valid()
      ensures r.None? <==> onDup == null
      ensures onDup != null ==> r == Some(onDup.values)
      ensures r.Some? ==> NoNulls(r.value) && DistinctKeys(r.value)
    {
      if onDup == null then None else Some(onDup.GetValuesWithFunctions())
    }
  }

  // ---------------------------------------------------------------------------
  // The two null policies side by side

  /**
   * The asymmetry between the two ways a map is stored: for a key whose value is null,
   * setValues drops the key, whereas the duplicate-key clause keeps it as `VALUES(col)`;
   * that rewrite then stays out of the literal-only getter.
   */
  lemma NullPolicies(m: Entries, table: Option<string>, k: string)
    requires DistinctKeys(m)
    requires Lookup(m, k) == Some(Null)
    ensures Lookup(DropNulls(m), k) == None
    ensures Lookup(DropNulls(RewriteNulls(m, table)), k) == Some(Func(ValuesCall(Column(k, table))))
    ensures Lookup(WithoutFunctions(DropNulls(RewriteNulls(m, table))), k) == None
  {
    var r := RewriteNulls(m, table);
    FilterLookup(m, NotNull, k);
    RewriteNullsLookup(m, table, k);
    SetValuesIdempotent(r);
    FilterLookup(r, NotFunction, k);
  }

  /** Seen as a map, the rewrite changes exactly the null keys, each into `VALUES(k)`. */
  lemma {:induction false} RewriteNullsLookup(m: Entries, table: Option<string>, k: string)
    ensures Lookup(RewriteNulls(m, table), k) ==
              match Lookup(m, k)
              case None => None
              case Some(v) => Some(if v.Null? then Func(ValuesCall(Column(k, table))) else v)
  {
    if m != [] {
      assert RewriteNulls(m, table)[1..] == RewriteNulls(m[1..], table);
      RewriteNullsLookup(m[1..], table, k);
    }
  }

  /** The duplicate-key map keeps every key of m: the null filter that follows drops nothing. */
  lemma DuplicateKeyMapKeepsEveryKey(m: Entries, table: Option<string>)
    ensures Keys(DropNulls(RewriteNulls(m, table))) == Keys(m)
    ensures |DropNulls(RewriteNulls(m, table))| == |m|
  {
    SetValuesIdempotent(RewriteNulls(m, table));
  }
}
