/**
 * DbOp: the static facade over the current executor. It starts on the base
 * executor, can be switched to the executor the registry picks for a driver
 * and version, and forwards every call with its missing arguments filled in.
 * The search argument lists and their defaults are shared with the
 * connection-managing facade (AbstractBizDb).
 */
module DbOp {
  import opened Common
  import opened Jdbc
  import opened ResultRows
  import DbOpBase
  import DbOpOracle
  import DbOpMgr

  // ===========================================================================
  // Search argument lists

  /** The full argument list a search hands the executor, after conn and table. */
  datatype Query = Query(cols: Option<seq<string>>, cond: Option<string>, condValues: Option<seq<Value>>,
                         start: int, max: int, orderBy: Option<string>, groupBy: Option<string>, bAsc: bool)

  /** The argument lists of the searchAsMapList / searchAsArrayList overloads, after conn (or pool) and table. */
  datatype SearchArgs =
    | ByTable
    | ByCols(cols: Option<seq<string>>)
    | ByCond(cols: Option<seq<string>>, cond: Option<string>)
    | ByCondValues(cols: Option<seq<string>>, cond: Option<string>, condValues: Option<seq<Value>>)
    | Ordered(cols: Option<seq<string>>, cond: Option<string>, orderBy: Option<string>, bAsc: bool)
    | Paged(cols: Option<seq<string>>, cond: Option<string>, start: int, max: int,
            orderBy: Option<string>, bAsc: bool)
    | PagedBound(cols: Option<seq<string>>, cond: Option<string>, condValues: Option<seq<Value>>,
                 start: int, max: int, orderBy: Option<string>, bAsc: bool)
    | Full(cols: Option<seq<string>>, cond: Option<string>, condValues: Option<seq<Value>>,
           start: int, max: int, orderBy: Option<string>, groupBy: Option<string>, bAsc: bool)

  /** The overloads that take a start/max window from the caller. */
  predicate HasWindow(a: SearchArgs) {
    a.Paged? || a.PagedBound? || a.Full?
  }

  /** The overloads that take an ordering from the caller. */
  predicate HasOrder(a: SearchArgs) {
    a.Ordered? || HasWindow(a)
  }

  /** The overloads that take condition values from the caller. */
  predicate HasCondValues(a: SearchArgs) {
    a.ByCondValues? || a.PagedBound? || a.Full?
  }

  /**
   * The defaults the short overloads fill in: no columns, condition or
   * condition values (null), the window 0 .. DEFAULT_MAX, no ordering or
   * grouping, descending flag false. Whatever the caller gave is forwarded
   * unchanged.
   */
  function Expand(a: SearchArgs, defaultMax: int): (q: Query)
    ensures HasWindow(a) ==> q.start == a.start && q.max == a.max
    ensures !HasWindow(a) ==> q.start == 0 && q.max == defaultMax
    ensures HasOrder(a) ==> q.orderBy == a.orderBy && q.bAsc == a.bAsc
    ensures !HasOrder(a) ==> q.orderBy.None? && !q.bAsc
    ensures HasCondValues(a) ==> q.condValues == a.condValues
    ensures !HasCondValues(a) ==> q.condValues.None?
    ensures a.Full? ==> q.groupBy == a.groupBy
    ensures !a.Full? ==> q.groupBy.None?
    ensures a.ByTable? ==> q.cols.None? && q.cond.None?
    ensures a.ByCols? ==> q.cols == a.cols && q.cond.None?
    ensures !a.ByTable? && !a.ByCols? ==> q.cols == a.cols && q.cond == a.cond
  {
    match a
    case ByTable => Query(None, None, None, 0, defaultMax, None, None, false)
    case ByCols(cols) => Query(cols, None, None, 0, defaultMax, None, None, false)
    case ByCond(cols, cond) => Query(cols, cond, None, 0, defaultMax, None, None, false)
    case ByCondValues(cols, cond, vs) => Query(cols, cond, vs, 0, defaultMax, None, None, false)
    case Ordered(cols, cond, orderBy, bAsc) => Query(cols, cond, None, 0, defaultMax, orderBy, None, bAsc)
    case Paged(cols, cond, start, max, orderBy, bAsc) => Query(cols, cond, None, start, max, orderBy, None, bAsc)
    case PagedBound(cols, cond, vs, start, max, orderBy, bAsc) => Query(cols, cond, vs, start, max, orderBy, None, bAsc)
    case Full(cols, cond, vs, start, max, orderBy, groupBy, bAsc) => Query(cols, cond, vs, start, max, orderBy, groupBy, bAsc)
  }

  /** The full overload is the identity: every argument list is some full argument list. */
  lemma FullOverloadCoversAll(a: SearchArgs, defaultMax: int)
    ensures var q := Expand(a, defaultMax);
            Expand(Full(q.cols, q.cond, q.condValues, q.start, q.max, q.orderBy, q.groupBy, q.bAsc), 0) == q
  {
  }

  // ===========================================================================
  // Executor dispatch

  /** Executors whose behaviour is part of this model: the base executor and the Oracle dialect. */
  predicate Modelled(op: DbOpMgr.Executor) {
    op.Baseline? || op.Oracle?
  }

  /**
   * A search on the given executor. The Oracle dialect overrides search only;
   * the base executor handles it otherwise. `cur` is what the server answered
   * to the statement the executor sent.
   */
  method Run(op: DbOpMgr.Executor, conn: Option<Connection>, table: Option<string>, q: Query, bMap: bool,
             cur: Cursor)
    returns (r: Result<DbOpBase.Exec<seq<Record>>>)
    requires Modelled(op) && WellFormed(cur)
    ensures r.Err? <==> conn.None? || table.None?
    ensures r.Err? ==> r.error == IllegalArgument("search")
    ensures r.Ok? && op.Baseline? ==>
              r.value.stmt.sql == DbOpBase.SelectSql(q.cols, table.value, q.cond, q.groupBy, q.orderBy, q.bAsc)
    ensures r.Ok? && op.Oracle? ==>
              r.value.stmt.sql == DbOpOracle.PagedSql(q.cols, table.value, q.cond, q.groupBy, q.orderBy, q.bAsc,
                                                       q.start, q.max)
    ensures r.Ok? ==> r.value.stmt.binds == CondBinds(q.condValues)
    ensures r.Ok? ==> r.value.value == WindowRecords(cur, if op.Oracle? then 0 else q.start, q.max, bMap, false)
  {
    if op.Oracle? {
      r := DbOpOracle.Search(conn, table, q.cols, q.cond, q.condValues, q.start, q.max, q.orderBy, q.groupBy,
                             q.bAsc, bMap, cur);
    } else {
      r := DbOpBase.Search(conn, table, q.cols, q.cond, q.condValues, q.start, q.max, q.orderBy, q.groupBy,
                           q.bAsc, bMap, false, cur);
    }
  }

  // ===========================================================================
  // The facade

  /** The static state: the current executor and the IDbOp default window size. */
  datatype Facade = Facade(op: DbOpMgr.Executor, defaultMax: int)

  /** The facade as loaded: the base executor. */
  function Initial(defaultMax: int): (f: Facade)
    ensures f.op == DbOpMgr.Baseline && f.defaultMax == defaultMax
  {
    Facade(DbOpMgr.Baseline, defaultMax)
  }

  /**
   * enableOptimize: switch to the executor the registry gives for the driver
   * and version. The registry never answers null, so the switch always
   * happens; an unknown driver switches back to the base executor.
   */
  function EnableOptimize(f: Facade, reg: DbOpMgr.Registry, driver: Option<string>, version: int,
                          mysqlRegs: seq<DbOpMgr.Registration>): (out: (DbOpMgr.Registry, Facade))
    ensures out.0.init && out.1.defaultMax == f.defaultMax
    ensures var id := DbOpMgr.GetId(driver, version);
            if id in out.0.regs && out.0.regs[id].Some? then out.1.op == out.0.regs[id].value
            else out.1.op == DbOpMgr.Baseline
  {
    var (reg', op) := DbOpMgr.GetDbOp(reg, driver, version, mysqlRegs);
    (reg', f.(op := op))
  }

  /**
   * Enabling optimisation for an Oracle driver version on a fresh registry
   * selects the Oracle dialect, whatever the facade ran on before, as long as
   * the MySQL dialect does not claim the same id.
   */
  lemma EnableOracleSelectsOracle(f: Facade, reg: DbOpMgr.Registry, version: int,
                                  mysqlRegs: seq<DbOpMgr.Registration>)
    requires !reg.init && version in DbOpOracle.ORACLE_VERSIONS
    requires forall j :: 0 <= j < |mysqlRegs| ==>
               DbOpMgr.IdOf(mysqlRegs[j]) != DbOpMgr.GetId(Some(DbOpOracle.ORACLE_DRIVER), version)
    ensures EnableOptimize(f, reg, Some(DbOpOracle.ORACLE_DRIVER), version, mysqlRegs).1.op == DbOpMgr.Oracle
  {
    DbOpMgr.OracleVersionsResolveToOracle(reg, version, mysqlRegs);
  }

  /** Enabling optimisation for a driver nobody registered drops a previously selected dialect. */
  lemma EnableUnknownResetsToBase(f: Facade, reg: DbOpMgr.Registry, driver: Option<string>, version: int,
                                  mysqlRegs: seq<DbOpMgr.Registration>)
    requires DbOpMgr.GetId(driver, version) !in reg.regs
    requires forall j :: 0 <= j < |DbOpMgr.OracleRegistrations() + mysqlRegs| ==>
               DbOpMgr.IdOf((DbOpMgr.OracleRegistrations() + mysqlRegs)[j]) != DbOpMgr.GetId(driver, version)
    ensures EnableOptimize(f, reg, driver, version, mysqlRegs).1 == Initial(f.defaultMax)
  {
    DbOpMgr.UnregisteredFallsBack(reg, driver, version, mysqlRegs);
  }

  /**
   * insert(conn, table, dataMap[, isAutoGenKey]): the short form passes
   * isAutoGenKey false; neither passes a column list, so a key request is
   * always the primary key (Oracle) or the driver's generated keys.
   */
  function Insert(f: Facade, conn: Option<Connection>, table: Option<string>, data: Option<seq<DbOpBase.Field>>,
                  isAutoGenKey: bool, pkColumns: seq<string>, genKey: Option<Cell>): (r: Result<DbOpBase.Exec<int>>)
    requires Modelled(f.op)
    requires genKey.Some? ==> genKey.value.SqlNull? || genKey.value.Number?
    ensures r.Err? <==> conn.None? || table.None? || data.None?
    ensures r.Err? ==> r.error == IllegalArgument("insert")
    ensures r.Ok? ==> r.value.stmt.sql == DbOpBase.InsertSql(table.value, DbOpBase.Names(data.value))
    ensures r.Ok? && !isAutoGenKey ==> r.value.stmt.keys == NoKeys && r.value.value == 0
    ensures r.Ok? && isAutoGenKey ==>
              !r.value.stmt.keys.ReturnColumns? &&
              (r.value.stmt.keys.ReturnPrimaryKey? <==> DbOpBase.IsOracleProduct(conn.value))
  {
    DbOpBase.Insert(conn, table, data, None, isAutoGenKey, pkColumns, genKey)
  }

  /**
   * update(conn, table, dataMap, condition[, condValues]): the short form
   * passes null condition values, so only the data values are bound.
   */
  function Update(f: Facade, conn: Option<Connection>, table: Option<string>, data: Option<seq<DbOpBase.Field>>,
                  cond: Option<string>, condValues: Option<seq<Value>>): (r: Result<Statement>)
    requires Modelled(f.op)
    ensures r.Err? <==> conn.None? || table.None? || data.None?
    ensures r.Ok? ==> r.value.sql == DbOpBase.UpdateSql(table.value, DbOpBase.Names(data.value), cond)
    ensures r.Ok? && condValues.None? ==> r.value.binds == SetValues(DbOpBase.Values(data.value))
  {
    var r := DbOpBase.Update(conn, table, data, cond, condValues);
    if r.Ok? && condValues.None? then
      assert forall i :: 0 <= i < |data.value| ==> r.value.binds[i] == SetValues(DbOpBase.Values(data.value))[i];
      r
    else r
  }

  /** update(conn, table, name, value, condition): one column, every argument required. */
  function UpdateField(f: Facade, conn: Option<Connection>, table: Option<string>, name: Option<string>,
                       value: Value, cond: Option<string>): (r: Result<Statement>)
    requires Modelled(f.op)
    ensures r.Err? <==> conn.None? || table.None? || name.None? || value == VNull || cond.None?
    ensures r.Ok? ==> r == Update(f, conn, table, Some([DbOpBase.Field(name.value, value)]), cond, None)
  {
    DbOpBase.UpdateField(conn, table, name, value, cond)
  }

  /**
   * delete(conn, table, condition[, condValues]): the short form passes null
   * condition values and binds nothing.
   */
  function Delete(f: Facade, conn: Option<Connection>, table: Option<string>, cond: Option<string>,
                  condValues: Option<seq<Value>>): (r: Result<Statement>)
    requires Modelled(f.op)
    ensures r.Err? <==> conn.None? || table.None?
    ensures r.Ok? ==> r.value.sql == "delete from " + table.value + DbOpBase.WhereIfPresent(cond)
    ensures r.Ok? && condValues.None? ==> r.value.binds == []
  {
    DbOpBase.Delete(conn, table, cond, condValues)
  }

  /**
   * getOneRowAsMap / getOneRowAsArray(conn, table, cols, condition[, condValues],
   * mustUnique): mustUnique is passed through; the map form yields a map
   * record and the array form an array record.
   */
  function GetOneRow(f: Facade, conn: Option<Connection>, table: Option<string>, cols: Option<seq<string>>,
                     cond: Option<string>, condValues: Option<seq<Value>>, mustUnique: bool, bMap: bool,
                     cur: Cursor): (r: Result<DbOpBase.Exec<Record>>)
    requires Modelled(f.op) && WellFormed(cur)
    ensures r.Err? <==> conn.None? || table.None? || |cur.rows| == 0 || (mustUnique && |cur.rows| >= 2)
    ensures r.Ok? ==> (r.value.value.MapRecord? <==> bMap)
    ensures r.Ok? && condValues.None? ==> r.value.stmt.binds == []
    ensures r.Ok? ==> WindowRecords(cur, 0, 1, bMap, false) == [r.value.value]
  {
    DbOpBase.GetOneRow(conn, table, cols, cond, condValues, mustUnique, bMap, cur)
  }

  /** getCount(conn, table, condition, condValues, distinct). */
  function GetCount(f: Facade, conn: Option<Connection>, table: Option<string>, cond: Option<string>,
                    condValues: Option<seq<Value>>, distinct: Option<string>, cur: Cursor): (r: Result<DbOpBase.Exec<int>>)
    requires Modelled(f.op) && DbOpBase.IntShaped(cur)
    ensures r.Err? <==> conn.None? || table.None?
    ensures r.Ok? ==> IsInt32(r.value.value) && (|cur.rows| == 0 ==> r.value.value == 0)
    ensures r.Ok? ==> r.value.stmt.sql == DbOpBase.CountSql(table.value, distinct, cond)
  {
    DbOpBase.GetCount(conn, table, cond, condValues, distinct, cur)
  }

  /**
   * searchAsMapList / searchAsArrayList: the overload's arguments, with its
   * defaults filled in, handed to the current executor; `bMap` picks the map
   * form.
   */
  method Search(f: Facade, conn: Option<Connection>, table: Option<string>, a: SearchArgs, bMap: bool, cur: Cursor)
    returns (r: Result<DbOpBase.Exec<seq<Record>>>)
    requires Modelled(f.op) && WellFormed(cur)
    ensures r.Err? <==> conn.None? || table.None?
    ensures r.Ok? ==> forall i :: 0 <= i < |r.value.value| ==> (r.value.value[i].MapRecord? <==> bMap)
    ensures r.Ok? && !HasWindow(a) && f.op.Baseline? ==> r.value.value == WindowRecords(cur, 0, f.defaultMax, bMap, false)
    ensures r.Ok? && !HasCondValues(a) ==> r.value.stmt.binds == []
    ensures r.Ok? && f.op.Baseline? ==> r.value.value == WindowRecords(cur, Expand(a, f.defaultMax).start,
                                                                        Expand(a, f.defaultMax).max, bMap, false)
    ensures r.Ok? && f.op.Oracle? ==> r.value.value == WindowRecords(cur, 0, Expand(a, f.defaultMax).max, bMap, false)
    ensures r.Ok? && f.op.Oracle? ==>
              var q := Expand(a, f.defaultMax);
              r.value.stmt.sql == DbOpOracle.PagedSql(q.cols, table.value, q.cond, q.groupBy, q.orderBy, q.bAsc,
                                                       q.start, q.max)
  {
    r := Run(f.op, conn, table, Expand(a, f.defaultMax), bMap, cur);
  }

  /**
   * The short overloads on the Oracle dialect ask the server for the first
   * DEFAULT_MAX rows of the plain SELECT and get back the records the base
   * executor reads from the same data: switching executors does not change
   * what they return.
   */
  lemma ShortSearchSameOnOracle(a: SearchArgs, defaultMax: int, inner: Cursor, bMap: bool)
    requires !HasWindow(a) && defaultMax >= 0 && WellFormed(inner)
    ensures var q := Expand(a, defaultMax);
            WindowRecords(DbOpOracle.RownumEnvelope(inner, q.start, q.max), 0, q.max, bMap, false)
            == WindowRecords(inner, q.start, q.max, bMap, false)
  {
    DbOpOracle.NoOffsetMatchesBaseline(inner, 0, defaultMax, bMap, false);
  }

  /** The statement the Oracle dialect sends for searchAsMapList(conn, table). */
  lemma WholeTableOnOracle(table: string, defaultMax: int)
    ensures var q := Expand(ByTable, defaultMax);
            DbOpOracle.PagedSql(q.cols, table, q.cond, q.groupBy, q.orderBy, q.bAsc, q.start, q.max)
            == "select * from ( " + ("select * from " + table) + " ) where rownum <= " + IntToString(defaultMax)
  {
    var q := Expand(ByTable, defaultMax);
    assert DbOpBase.SelectSql(q.cols, table, q.cond, q.groupBy, q.orderBy, q.bAsc) == "select * from " + table;
    assert DbOpOracle.PagingPrefix(0) == "select * from ( ";
    assert DbOpOracle.PagingSuffix(0, defaultMax) == " ) where rownum <= " + IntToString(defaultMax);
  }
}
