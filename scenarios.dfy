/**
 * The library's own test scenarios for the values container, replayed on the model: the
 * methods build Insert nodes through the verified contracts, and the lemmas compute what
 * the stored maps and the getters hold for the tests' inputs.
 */
module Scenarios {
  import opened Syntax
  import opened ValuesMap
  import opened Creational
  import opened InsertStatement

  const Now: Value := Func(SqlFunction("NOW", LiteralArg(StrLit(""))))

  function MixedValues(): (m: Entries)
  {
    [("id", Lit(IntLit(1))), ("created_at", Now), ("updated_at", Now), ("is_admin", Lit(BoolLit(true)))]
  }

  function NowClause(): (m: Entries)
  {
    [("updated_at", Now)]
  }

  function NullClause(): (m: Entries)
  {
    [("updated_at", Now), ("is_admin", Null), ("count", Lit(IntLit(100)))]
  }

  /** NOW() entries are stored but left out of getValues: only id and is_admin remain. */
  lemma MixedValuesGetValues()
    ensures DropNulls(MixedValues()) == MixedValues()
    ensures WithoutFunctions(DropNulls(MixedValues())) == [("id", Lit(IntLit(1))), ("is_admin", Lit(BoolLit(true)))]
  {
  }

  /** The test's map is a PHP array: its four keys differ. */
  lemma MixedValuesDistinct()
    ensures DistinctKeys(MixedValues())
  {
    var m := MixedValues();
    forall i, j | 0 <= i < j < |m| ensures m[i].0 != m[j].0 {
      assert m[i].0[0] != m[j].0[0] || m[i].0[1] != m[j].0[1];
    }
  }

  /** An Insert on user with keys id, role lists the columns user.id, user.role. */
  method TableAndValuesForInsert() returns (cols: seq<Column>)
    ensures cols == [Column("id", Some("user")), Column("role", Some("user"))]
  {
    var values: Entries := [("id", Lit(IntLit(1))), ("role", Lit(StrLit("admin")))];
    SetValuesIdempotent(values);
    var ins := new Insert(Some("user"), Some(values));
    cols := ins.GetColumns();
  }

  /**
   * A null in the duplicate-key map becomes VALUES(user.is_admin), which is no literal to
   * bind; plain setValues drops the same null entry.
   */
  lemma DuplicateKeyWithNull()
    ensures RewriteNulls(NullClause(), Some("user")) ==
              [("updated_at", Now),
               ("is_admin", Func(SqlFunction("VALUES", ColumnArg(Column("is_admin", Some("user")))))),
               ("count", Lit(IntLit(100)))]
    ensures WithoutFunctions(RewriteNulls(NullClause(), Some("user"))) == [("count", Lit(IntLit(100)))]
    ensures DropNulls(NullClause()) == [("updated_at", Now), ("count", Lit(IntLit(100)))]
  {
    var m := NullClause();
    var clause := RewriteNulls(m, Some("user"));
    assert |clause| == 3 && clause[0] == m[0] && clause[2] == m[2];
    assert WithoutFunctions(clause[2..]) == clause[2..];
    assert WithoutFunctions(clause[1..]) == clause[2..];
    assert DropNulls(m[2..]) == m[2..];
    assert DropNulls(m[1..]) == m[2..];
  }

  /** A clause without nulls is stored as given. */
  lemma NowClauseKept()
    ensures RewriteNulls(NowClause(), Some("user")) == NowClause()
  {
    assert RewriteNulls(NowClause(), Some("user"))[0] == NowClause()[0];
  }

  /**
   * Insert on user, setValues with two NOW() entries, then a clause {updated_at: NOW()}:
   * getValues still yields only id and is_admin, and the clause keeps its function.
   */
  method ValuesOnDuplicateKeyUpdate() returns (literals: Entries, clause: Option<Entries>)
    ensures literals == [("id", Lit(IntLit(1))), ("is_admin", Lit(BoolLit(true)))]
    ensures clause == Some([("updated_at", Now)])
  {
    MixedValuesDistinct();
    MixedValuesGetValues();
    NowClauseKept();
    var ins := new Insert(Some("user"), None);
    var self := ins.base.SetValues(MixedValues());
    ins.OnDuplicateKeyUpdate(NowClause());
    literals := ins.base.GetValues();
    clause := ins.GetOnDuplicateKeyUpdateValuesWithFunctions();
  }

  /**
   * Insert on user, then a clause {updated_at: NOW(), is_admin: null, count: 100}: the
   * clause holds VALUES(user.is_admin) under is_admin, and only count is a literal to bind.
   */
  method ValuesOnDuplicateKeyUpdateWithNull() returns (clause: Option<Entries>, literals: Option<Entries>)
    ensures clause == Some([("updated_at", Now),
                            ("is_admin", Func(SqlFunction("VALUES", ColumnArg(Column("is_admin", Some("user")))))),
                            ("count", Lit(IntLit(100)))])
    ensures literals == Some([("count", Lit(IntLit(100)))])
  {
    var ins := new Insert(Some("user"), None);
    DuplicateKeyWithNull();
    ins.OnDuplicateKeyUpdate(NullClause());
    clause := ins.GetOnDuplicateKeyUpdateValuesWithFunctions();
    literals := ins.GetOnDuplicateKeyUpdateValues();
  }
}
