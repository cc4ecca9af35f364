/**
 * AbstractBizDb: the per-database facade. Each call borrows a connection from
 * the facade's named pool (auto-commit off for writes, on for reads), hands it
 * to the current executor, and releases it whatever happened: a write's
 * connection is committed before it is closed. A Trip is what the caller
 * gets back together with what happened to the borrowed connection.
 */
module AbstractBizDb {
  import opened Common
  import opened Jdbc
  import opened ResultRows
  import DbOpBase
  import DbOpMgr
  import DbcpManager
  import DbOp
  import SqlUtil

  /** The facade's state: its executor, the pool it borrows from, and IDbOp.DEFAULT_MAX. */
  datatype Biz = Biz(op: DbOpMgr.Executor, pool: string, defaultMax: int)

  /** A borrowed connection and the auto-commit mode it was set to. */
  datatype Lease = Lease(conn: Connection, autoCommit: bool)

  /** What the facade does to a borrowed connection when it releases it. */
  datatype ConnAction = Commit | Close

  /** A call's result and the actions taken on its connection, in order. */
  datatype Trip<T> = Trip(result: Result<T>, acts: seq<ConnAction>)

  // ===========================================================================
  // Connection lifecycle

  /**
   * getConn: borrow from the pool and set the auto-commit mode. `phys` is the
   * connection the pool hands out. A pool never configured fails (the failure
   * is rethrown with a message naming the pool).
   */
  function GetConn(st: DbcpManager.Dbcp, pool: string, autoCommit: bool, phys: Connection): (r: Result<Lease>)
    requires DbcpManager.Valid(st)
    ensures r.Err? <==> pool !in st.configured
    ensures r.Err? ==> r.error == PoolNotConfigured(pool)
    ensures r.Ok? ==> r.value.conn == phys && r.value.autoCommit == autoCommit
  {
    var borrowed :- DbcpManager.GetConnection(st, pool);
    Ok(Lease(phys, autoCommit))
  }

  /**
   * closeConn: nothing for a null connection; otherwise commit when
   * auto-commit is off, then close. Failures of either are logged and
   * swallowed, so close is always attempted and closeConn never throws.
   */
  function CloseConn(lease: Option<Lease>): (acts: seq<ConnAction>)
    ensures lease.None? ==> acts == []
    ensures lease.Some? ==> |acts| > 0 && acts[|acts| - 1] == Close && Close !in acts[..|acts| - 1]
    ensures lease.Some? ==> (Commit in acts <==> !lease.value.autoCommit)
  {
    if lease.None? then []
    else if !lease.value.autoCommit then [Commit, Close]
    else [Close]
  }

  /**
   * The try/finally around every forwarded call: a failed borrow is the
   * result and nothing is released; otherwise the call's result, and the
   * connection is released.
   */
  function Borrow<T>(lease: Result<Lease>, body: Result<T>): (t: Trip<T>)
    ensures lease.Err? ==> t == Trip(Err(lease.error), [])
    ensures lease.Ok? ==> t == Trip(body, CloseConn(Some(lease.value)))
  {
    if lease.Err? then Trip(Err(lease.error), []) else Trip(body, CloseConn(Some(lease.value)))
  }

  /**
   * The lifecycle every forwarded call follows: an unconfigured pool fails
   * before anything runs; otherwise the connection is released in the given
   * mode.
   */
  predicate Lifecycle<T>(t: Trip<T>, st: DbcpManager.Dbcp, pool: string, phys: Connection, autoCommit: bool) {
    if pool in st.configured then t.acts == CloseConn(Some(Lease(phys, autoCommit)))
    else t == Trip(Err(PoolNotConfigured(pool)), [])
  }

  /** Writes commit before they close; reads only close. */
  lemma WritesCommitReadsOnlyClose(phys: Connection)
    ensures CloseConn(Some(Lease(phys, false))) == [Commit, Close]
    ensures CloseConn(Some(Lease(phys, true))) == [Close]
  {
    assert Commit in CloseConn(Some(Lease(phys, false)));
  }

  /** enableOptimize: as for the static facade, the registry's executor always replaces the current one. */
  function EnableOptimize(b: Biz, reg: DbOpMgr.Registry, driver: Option<string>, version: int,
                          mysqlRegs: seq<DbOpMgr.Registration>): (out: (DbOpMgr.Registry, Biz))
    ensures out.1.pool == b.pool && out.1.defaultMax == b.defaultMax
    ensures var f := DbOp.EnableOptimize(DbOp.Facade(b.op, b.defaultMax), reg, driver, version, mysqlRegs);
            out.0 == f.0 && out.1.op == f.1.op
  {
    var (reg', op) := DbOpMgr.GetDbOp(reg, driver, version, mysqlRegs);
    (reg', b.(op := op))
  }

  /** getListFromFields: null stays null, otherwise the same names in the same order. */
  method GetListFromFields(fields: Option<seq<string>>) returns (r: Option<seq<string>>)
    ensures r == fields
  {
    if fields.None? {
      return None;
    }
    var list: seq<string> := [];
    var i := 0;
    while i < |fields.value|
      invariant 0 <= i <= |fields.value|
      invariant list == fields.value[..i]
    {
      list := list + [fields.value[i]];
      i := i + 1;
    }
    assert list == fields.value;
    return Some(list);
  }

  // ===========================================================================
  // Writes: auto-commit off

  /**
   * insert(table, dataMap[, isAutoGenKey][, colList]): the short forms pass
   * isAutoGenKey false and no column list. The executor always receives a
   * connection, so only a null table or map is refused.
   */
  function Insert(b: Biz, st: DbcpManager.Dbcp, phys: Connection, table: Option<string>,
                  data: Option<seq<DbOpBase.Field>>, colList: Option<seq<string>>, isAutoGenKey: bool,
                  pkColumns: seq<string>, genKey: Option<Cell>): (t: Trip<DbOpBase.Exec<int>>)
    requires DbcpManager.Valid(st) && DbOp.Modelled(b.op)
    requires genKey.Some? ==> genKey.value.SqlNull? || genKey.value.Number?
    ensures Lifecycle(t, st, b.pool, phys, false)
    ensures b.pool in st.configured ==> (t.result.Err? <==> table.None? || data.None?)
    ensures t.result.Ok? ==> t.result.value.stmt.sql == DbOpBase.InsertSql(table.value, DbOpBase.Names(data.value))
    ensures t.result.Ok? ==> t.result.value.stmt.keys == DbOpBase.KeyRequestFor(phys, colList, isAutoGenKey, pkColumns)
  {
    Borrow(GetConn(st, b.pool, false, phys), DbOpBase.Insert(Some(phys), table, data, colList, isAutoGenKey, pkColumns, genKey))
  }

  /** insertIfNotExists(table, dataMap, cond, condValues). */
  function InsertIfNotExists(b: Biz, st: DbcpManager.Dbcp, phys: Connection, table: Option<string>,
                             data: Option<seq<DbOpBase.Field>>, cond: Option<string>, condValues: Option<seq<Value>>,
                             countCur: Cursor, pkColumns: seq<string>, genKey: Option<Cell>): (t: Trip<DbOpBase.Exec<int>>)
    requires DbcpManager.Valid(st) && DbOp.Modelled(b.op) && DbOpBase.IntShaped(countCur)
    requires genKey.Some? ==> genKey.value.SqlNull? || genKey.value.Number?
    ensures Lifecycle(t, st, b.pool, phys, false)
    ensures b.pool in st.configured ==>
              (t.result == Err(AlreadyExists) <==>
               cond.Some? && table.Some? && |countCur.rows| > 0 && GetInt(countCur.rows[0][0]) > 0)
    ensures t.result.Ok? ==> t.result.value.stmt.keys != NoKeys
  {
    Borrow(GetConn(st, b.pool, false, phys),
           DbOpBase.InsertIfNotExists(Some(phys), table, data, cond, condValues, countCur, pkColumns, genKey))
  }

  /** update(table, dataMap, condition[, condValues]): the short form passes null condition values. */
  function Update(b: Biz, st: DbcpManager.Dbcp, phys: Connection, table: Option<string>,
                  data: Option<seq<DbOpBase.Field>>, cond: Option<string>, condValues: Option<seq<Value>>)
    : (t: Trip<Statement>)
    requires DbcpManager.Valid(st) && DbOp.Modelled(b.op)
    ensures Lifecycle(t, st, b.pool, phys, false)
    ensures b.pool in st.configured ==> (t.result.Err? <==> table.None? || data.None?)
    ensures t.result.Ok? ==> t.result.value.sql == DbOpBase.UpdateSql(table.value, DbOpBase.Names(data.value), cond)
    ensures t.result.Ok? && condValues.None? ==> |t.result.value.binds| == |data.value|
  {
    Borrow(GetConn(st, b.pool, false, phys), DbOpBase.Update(Some(phys), table, data, cond, condValues))
  }

  /** update(table, name, value, condition). */
  function UpdateField(b: Biz, st: DbcpManager.Dbcp, phys: Connection, table: Option<string>, name: Option<string>,
                       value: Value, cond: Option<string>): (t: Trip<Statement>)
    requires DbcpManager.Valid(st) && DbOp.Modelled(b.op)
    ensures Lifecycle(t, st, b.pool, phys, false)
    ensures b.pool in st.configured ==>
              (t.result.Err? <==> table.None? || name.None? || value == VNull || cond.None?)
    ensures t.result.Ok? ==> t.result.value.binds == [BindOf(value)]
  {
    Borrow(GetConn(st, b.pool, false, phys), DbOpBase.UpdateField(Some(phys), table, name, value, cond))
  }

  /** delete(table, condition[, condValues]): the short form passes null condition values. */
  function Delete(b: Biz, st: DbcpManager.Dbcp, phys: Connection, table: Option<string>, cond: Option<string>,
                  condValues: Option<seq<Value>>): (t: Trip<Statement>)
    requires DbcpManager.Valid(st) && DbOp.Modelled(b.op)
    ensures Lifecycle(t, st, b.pool, phys, false)
    ensures b.pool in st.configured ==> (t.result.Err? <==> table.None?)
    ensures t.result.Ok? && condValues.None? ==> t.result.value.binds == []
  {
    Borrow(GetConn(st, b.pool, false, phys), DbOpBase.Delete(Some(phys), table, cond, condValues))
  }

  /**
   * execSQL(sqls): the executor's batched loop as written. Every statement
   * runs once, in order, except the last 30 of a list whose length is a
   * positive multiple of 30.
   */
  function ExecSql(b: Biz, st: DbcpManager.Dbcp, phys: Connection, sqls: Option<seq<string>>)
    : (t: Trip<seq<seq<string>>>)
    requires DbcpManager.Valid(st) && DbOp.Modelled(b.op)
    ensures Lifecycle(t, st, b.pool, phys, false)
    ensures b.pool in st.configured ==> (t.result.Err? <==> sqls.None?)
    ensures t.result.Ok? ==>
              Concat(t.result.value) ==
              sqls.value[..|sqls.value| - (if |sqls.value| > 0 && |sqls.value| % 30 == 0 then 30 else 0)]
  {
    Borrow(GetConn(st, b.pool, false, phys), DbOpBase.ExecSqlAsWritten(Some(phys), sqls))
  }

  /** Corrected execSQL: the facade over the intended batching, every statement once, in order. */
  function ExecSqlCorrected(b: Biz, st: DbcpManager.Dbcp, phys: Connection, sqls: Option<seq<string>>)
    : (t: Trip<seq<seq<string>>>)
    requires DbcpManager.Valid(st) && DbOp.Modelled(b.op)
    ensures Lifecycle(t, st, b.pool, phys, false)
    ensures b.pool in st.configured ==> (t.result.Err? <==> sqls.None?)
    ensures t.result.Ok? ==> Concat(t.result.value) == sqls.value
  {
    Borrow(GetConn(st, b.pool, false, phys), DbOpBase.ExecSql(Some(phys), sqls))
  }

  /** Off positive multiples of 30 the facade as written and the corrected one agree. */
  lemma ExecSqlAgreesOffMultiples(b: Biz, st: DbcpManager.Dbcp, phys: Connection, sqls: Option<seq<string>>)
    requires DbcpManager.Valid(st) && DbOp.Modelled(b.op)
    requires sqls.Some? ==> |sqls.value| % 30 != 0
    ensures ExecSql(b, st, phys, sqls) == ExecSqlCorrected(b, st, phys, sqls)
  {
    if sqls.Some? {
      DbOpBase.AsWrittenAgreesOffMultiples(sqls.value);
    }
  }

  // ===========================================================================
  // Reads: auto-commit on

  /**
   * searchAsMapList / searchAsArrayList: the overload's arguments with their
   * defaults, on a connection in auto-commit mode.
   */
  method Search(b: Biz, st: DbcpManager.Dbcp, phys: Connection, table: Option<string>, a: DbOp.SearchArgs,
                bMap: bool, cur: Cursor)
    returns (t: Trip<DbOpBase.Exec<seq<Record>>>)
    requires DbcpManager.Valid(st) && DbOp.Modelled(b.op) && WellFormed(cur)
    ensures Lifecycle(t, st, b.pool, phys, true)
    ensures b.pool in st.configured ==> (t.result.Err? <==> table.None?)
    ensures b.pool in st.configured && table.None? ==> t.result == Err(IllegalArgument("search"))
    ensures t.result.Ok? && !DbOp.HasWindow(a) ==> t.result.value.value == WindowRecords(cur, 0, b.defaultMax, bMap, false)
    ensures t.result.Ok? && b.op.Baseline? ==>
              var q := DbOp.Expand(a, b.defaultMax);
              t.result.value.value == WindowRecords(cur, q.start, q.max, bMap, false)
    ensures t.result.Ok? ==> forall i :: 0 <= i < |t.result.value.value| ==> (t.result.value.value[i].MapRecord? <==> bMap)
  {
    var lease := GetConn(st, b.pool, true, phys);
    if lease.Err? {
      return Trip(Err(lease.error), []);
    }
    var r := DbOp.Run(b.op, Some(phys), table, DbOp.Expand(a, b.defaultMax), bMap, cur);
    t := Trip(r, CloseConn(Some(lease.value)));
  }

  /**
   * getOneRowAsMap(table, cols, condition[, condValues, mustUnique]): the short
   * form passes null condition values and mustUnique true.
   */
  function GetOneRowAsMap(b: Biz, st: DbcpManager.Dbcp, phys: Connection, table: Option<string>,
                          cols: Option<seq<string>>, cond: Option<string>, condValues: Option<seq<Value>>,
                          mustUnique: bool, cur: Cursor): (t: Trip<DbOpBase.Exec<Record>>)
    requires DbcpManager.Valid(st) && DbOp.Modelled(b.op) && WellFormed(cur)
    ensures Lifecycle(t, st, b.pool, phys, true)
    ensures b.pool in st.configured ==>
              (t.result.Err? <==> table.None? || |cur.rows| == 0 || (mustUnique && |cur.rows| >= 2))
    ensures t.result.Ok? ==> t.result.value.value.MapRecord? && WindowRecords(cur, 0, 1, true, false) == [t.result.value.value]
  {
    Borrow(GetConn(st, b.pool, true, phys), DbOpBase.GetOneRow(Some(phys), table, cols, cond, condValues, mustUnique, true, cur))
  }

  /**
   * getOneRowAsArray(table, cols, condition[, condValues]): mustUnique is
   * always true, so a second row fails.
   */
  function GetOneRowAsArray(b: Biz, st: DbcpManager.Dbcp, phys: Connection, table: Option<string>,
                            cols: Option<seq<string>>, cond: Option<string>, condValues: Option<seq<Value>>,
                            cur: Cursor): (t: Trip<DbOpBase.Exec<Record>>)
    requires DbcpManager.Valid(st) && DbOp.Modelled(b.op) && WellFormed(cur)
    ensures Lifecycle(t, st, b.pool, phys, true)
    ensures b.pool in st.configured ==> (t.result.Err? <==> table.None? || |cur.rows| != 1)
    ensures t.result.Ok? ==> t.result.value.value.ArrayRecord? && WindowRecords(cur, 0, 1, false, false) == [t.result.value.value]
  {
    Borrow(GetConn(st, b.pool, true, phys), DbOpBase.GetOneRow(Some(phys), table, cols, cond, condValues, true, false, cur))
  }

  /**
   * getOneRowAsArray(table, cols, condition, condValues, mustUnique) as
   * written: the flag is accepted and dropped; the call is the four-argument
   * form.
   */
  function GetOneRowAsArrayAsWritten(b: Biz, st: DbcpManager.Dbcp, phys: Connection, table: Option<string>,
                                     cols: Option<seq<string>>, cond: Option<string>, condValues: Option<seq<Value>>,
                                     mustUnique: bool, cur: Cursor): (t: Trip<DbOpBase.Exec<Record>>)
    requires DbcpManager.Valid(st) && DbOp.Modelled(b.op) && WellFormed(cur)
    ensures Lifecycle(t, st, b.pool, phys, true)
    ensures b.pool in st.configured ==> (t.result.Err? <==> table.None? || |cur.rows| != 1)
    ensures t.result.Ok? ==> t.result.value.value.ArrayRecord?
  {
    Borrow(GetConn(st, b.pool, true, phys), DbOpBase.GetOneRow(Some(phys), table, cols, cond, condValues, true, false, cur))
  }

  /** getOneRowAsArray with the flag passed on, as the map form does. */
  function GetOneRowAsArrayFlagged(b: Biz, st: DbcpManager.Dbcp, phys: Connection, table: Option<string>,
                                   cols: Option<seq<string>>, cond: Option<string>, condValues: Option<seq<Value>>,
                                   mustUnique: bool, cur: Cursor): (t: Trip<DbOpBase.Exec<Record>>)
    requires DbcpManager.Valid(st) && DbOp.Modelled(b.op) && WellFormed(cur)
    ensures Lifecycle(t, st, b.pool, phys, true)
    ensures b.pool in st.configured ==>
              (t.result.Err? <==> table.None? || |cur.rows| == 0 || (mustUnique && |cur.rows| >= 2))
    ensures t.result.Ok? ==> t.result.value.value.ArrayRecord? && WindowRecords(cur, 0, 1, false, false) == [t.result.value.value]
  {
    Borrow(GetConn(st, b.pool, true, phys), DbOpBase.GetOneRow(Some(phys), table, cols, cond, condValues, mustUnique, false, cur))
  }

  /**
   * As written, asking for a non-unique row through the five-argument array
   * form still fails when the condition matches two rows.
   */
  lemma ArrayFormIgnoresMustUnique(b: Biz, st: DbcpManager.Dbcp, phys: Connection, table: string,
                                   cols: Option<seq<string>>, cond: Option<string>, cur: Cursor)
    requires DbcpManager.Valid(st) && DbOp.Modelled(b.op) && WellFormed(cur)
    requires b.pool in st.configured && |cur.rows| >= 2
    ensures GetOneRowAsArrayAsWritten(b, st, phys, Some(table), cols, cond, None, false, cur).result
            == Err(RowNotUnique(DbOpBase.SelectSql(cols, table, cond, None, None, true)))
    ensures GetOneRowAsArrayFlagged(b, st, phys, Some(table), cols, cond, None, false, cur).result.Ok?
  {
  }

  /** The array and map forms agree on which calls succeed once the flag is passed on. */
  lemma FlaggedArrayMatchesMap(b: Biz, st: DbcpManager.Dbcp, phys: Connection, table: Option<string>,
                               cols: Option<seq<string>>, cond: Option<string>, condValues: Option<seq<Value>>,
                               mustUnique: bool, cur: Cursor)
    requires DbcpManager.Valid(st) && DbOp.Modelled(b.op) && WellFormed(cur)
    ensures var m := GetOneRowAsMap(b, st, phys, table, cols, cond, condValues, mustUnique, cur);
            var a := GetOneRowAsArrayFlagged(b, st, phys, table, cols, cond, condValues, mustUnique, cur);
            m.acts == a.acts && (m.result.Ok? <==> a.result.Ok?) &&
            (m.result.Err? ==> a.result == m.result)
  {
  }

  /** getCount(table[, condition[, condValues[, distinct]]]): missing arguments are null. */
  function GetCount(b: Biz, st: DbcpManager.Dbcp, phys: Connection, table: Option<string>, cond: Option<string>,
                    condValues: Option<seq<Value>>, distinct: Option<string>, cur: Cursor): (t: Trip<DbOpBase.Exec<int>>)
    requires DbcpManager.Valid(st) && DbOp.Modelled(b.op) && DbOpBase.IntShaped(cur)
    ensures Lifecycle(t, st, b.pool, phys, true)
    ensures b.pool in st.configured ==> (t.result.Err? <==> table.None?)
    ensures t.result.Ok? ==> IsInt32(t.result.value.value) && (|cur.rows| == 0 ==> t.result.value.value == 0)
    ensures t.result.Ok? ==> t.result.value.stmt.binds == CondBinds(condValues)
  {
    Borrow(GetConn(st, b.pool, true, phys), DbOpBase.GetCount(Some(phys), table, cond, condValues, distinct, cur))
  }

  /** getCount(table, condition, value): the one value becomes a one-element value list. */
  function GetCountOf(b: Biz, st: DbcpManager.Dbcp, phys: Connection, table: Option<string>, cond: Option<string>,
                      value: Value, cur: Cursor): (t: Trip<DbOpBase.Exec<int>>)
    requires DbcpManager.Valid(st) && DbOp.Modelled(b.op) && DbOpBase.IntShaped(cur)
    ensures Lifecycle(t, st, b.pool, phys, true)
    ensures t.result.Ok? ==> t.result.value.stmt.binds == [BindOf(value)]
  {
    GetCount(b, st, phys, table, cond, Some([value]), None, cur)
  }

  /** getMaxInt(table, col[, condition[, condValues]]). */
  function MaxInt(b: Biz, st: DbcpManager.Dbcp, phys: Connection, table: Option<string>, col: Option<string>,
                  cond: Option<string>, condValues: Option<seq<Value>>, cur: Cursor): (t: Trip<DbOpBase.Exec<Value>>)
    requires DbcpManager.Valid(st) && DbOp.Modelled(b.op)
    requires forall i :: 0 <= i < |cur.rows| ==> |cur.rows[i]| > 0
    ensures Lifecycle(t, st, b.pool, phys, true)
    ensures b.pool in st.configured ==> (t.result.Err? <==> table.None?)
    ensures t.result.Ok? ==> StartsWith(t.result.value.stmt.sql, "select max(")
  {
    Borrow(GetConn(st, b.pool, true, phys), DbOpBase.GetMax(Some(phys), table, col, cond, condValues, cur))
  }

  /** getMinInt(table, col, condition, condValues). */
  function MinInt(b: Biz, st: DbcpManager.Dbcp, phys: Connection, table: Option<string>, col: Option<string>,
                  cond: Option<string>, condValues: Option<seq<Value>>, cur: Cursor): (t: Trip<DbOpBase.Exec<Value>>)
    requires DbcpManager.Valid(st) && DbOp.Modelled(b.op)
    requires forall i :: 0 <= i < |cur.rows| ==> |cur.rows[i]| > 0
    ensures Lifecycle(t, st, b.pool, phys, true)
    ensures b.pool in st.configured ==> (t.result.Err? <==> table.None?)
    ensures t.result.Ok? ==> StartsWith(t.result.value.stmt.sql, "select min(")
  {
    Borrow(GetConn(st, b.pool, true, phys), DbOpBase.GetMin(Some(phys), table, col, cond, condValues, cur))
  }

  /** getMinInt(table, col[, condition]) as written: it calls getMaxInt. */
  function MinIntShortAsWritten(b: Biz, st: DbcpManager.Dbcp, phys: Connection, table: Option<string>,
                                col: Option<string>, cond: Option<string>, cur: Cursor): (t: Trip<DbOpBase.Exec<Value>>)
    requires DbcpManager.Valid(st) && DbOp.Modelled(b.op)
    requires forall i :: 0 <= i < |cur.rows| ==> |cur.rows[i]| > 0
    ensures Lifecycle(t, st, b.pool, phys, true)
    ensures b.pool in st.configured ==> (t.result.Err? <==> table.None?)
    ensures t.result.Ok? ==> StartsWith(t.result.value.stmt.sql, "select max(") && t.result.value.stmt.binds == []
  {
    MaxInt(b, st, phys, table, col, cond, None, cur)
  }

  /** getMinInt(table, col[, condition]) delegating to the four-argument getMinInt. */
  function MinIntShort(b: Biz, st: DbcpManager.Dbcp, phys: Connection, table: Option<string>,
                       col: Option<string>, cond: Option<string>, cur: Cursor): (t: Trip<DbOpBase.Exec<Value>>)
    requires DbcpManager.Valid(st) && DbOp.Modelled(b.op)
    requires forall i :: 0 <= i < |cur.rows| ==> |cur.rows[i]| > 0
    ensures Lifecycle(t, st, b.pool, phys, true)
    ensures b.pool in st.configured ==> (t.result.Err? <==> table.None?)
    ensures t.result.Ok? ==> StartsWith(t.result.value.stmt.sql, "select min(") && t.result.value.stmt.binds == []
  {
    MinInt(b, st, phys, table, col, cond, None, cur)
  }

  /**
   * The short getMinInt as written asks for the maximum: on any table it
   * could read, its statement is the getMaxInt statement and not a min query.
   */
  lemma ShortMinIntAsksForMax(b: Biz, st: DbcpManager.Dbcp, phys: Connection, table: string,
                              col: Option<string>, cond: Option<string>, cur: Cursor)
    requires DbcpManager.Valid(st) && DbOp.Modelled(b.op) && b.pool in st.configured
    requires forall i :: 0 <= i < |cur.rows| ==> |cur.rows[i]| > 0
    ensures var w := MinIntShortAsWritten(b, st, phys, Some(table), col, cond, cur).result;
            w.Ok? && StartsWith(w.value.stmt.sql, "select max(") && !StartsWith(w.value.stmt.sql, "select min(")
    ensures var c := MinIntShort(b, st, phys, Some(table), col, cond, cur).result;
            c.Ok? && StartsWith(c.value.stmt.sql, "select min(")
  {
    var w := MinIntShortAsWritten(b, st, phys, Some(table), col, cond, cur).result;
    assert w.value.stmt.sql[8] == 'a';
  }

  // ===========================================================================
  // Lookups built on the array search

  /**
   * The condition getObjectFromID builds: `fieldID = param`, and
   * ` AND otherCond` whenever otherCond is non-null, even when empty.
   */
  function ObjectCondition(fieldId: string, param: string, otherCond: Option<string>): (c: string)
    ensures StartsWith(c, fieldId + SqlUtil.EQ + param)
    ensures otherCond.None? ==> c == fieldId + SqlUtil.EQ + param
    ensures otherCond.Some? ==> c[|fieldId + SqlUtil.EQ + param|..] == SqlUtil.AND + otherCond.value
  {
    var c := fieldId + SqlUtil.EQ + param;
    if otherCond.Some? then c + SqlUtil.AND + otherCond.value else c
  }

  /**
   * The condition getValue builds: `field='value'` for strings, `field=value`
   * otherwise, and ` and otherCond` only for a non-null, non-empty otherCond.
   */
  function ValueCondition(field: string, value: string, ifString: bool, otherCond: Option<string>): (c: string)
    ensures StartsWith(c, field + "=")
    ensures otherCond.None? || |otherCond.value| == 0 ==>
              c[|field| + 1..] == (if ifString then "'" + value + "'" else value)
  {
    var base := field + "=" + (if ifString then "'" + value + "'" else value);
    if otherCond.Some? && |otherCond.value| > 0 then base + " and " + otherCond.value else base
  }

  /**
   * An empty extra condition: getValue drops it, getObjectFromID appends a
   * dangling ` AND `.
   */
  lemma EmptyOtherCondition(fieldId: string, param: string, field: string, value: string, ifString: bool)
    ensures ValueCondition(field, value, ifString, Some("")) == ValueCondition(field, value, ifString, None)
    ensures ObjectCondition(fieldId, param, Some("")) != ObjectCondition(fieldId, param, None)
  {
    assert |ObjectCondition(fieldId, param, Some(""))| > |ObjectCondition(fieldId, param, None)|;
  }

  /**
   * The statement the base executor sends for getObjectFromID: one column,
   * the condition after a lower-case where, joined by the shared separators.
   */
  lemma ObjectLookupSql(table: string, fieldObject: string, fieldId: string, param: string)
    ensures DbOpBase.SelectSql(Some([fieldObject]), table, Some(ObjectCondition(fieldId, param, None)), None, None, false)
            == "select " + fieldObject + " from " + table + " where " + fieldId + SqlUtil.EQ + param
  {
    assert Join([fieldObject], ',') == fieldObject;
    assert |ObjectCondition(fieldId, param, None)| > 0;
  }

  /**
   * getObjectFromID(table, fieldID, fieldObject, param[, otherCond]): search
   * for column fieldObject where fieldID equals the param's text; null when
   * nothing matches, else column 0 of the first record. `param` is the text
   * the parameter prints as.
   */
  method GetObjectFromId(b: Biz, st: DbcpManager.Dbcp, phys: Connection, table: Option<string>, fieldId: string,
                         fieldObject: string, param: string, otherCond: Option<string>, cur: Cursor)
    returns (t: Trip<Value>)
    requires DbcpManager.Valid(st) && DbOp.Modelled(b.op) && WellFormed(cur)
    ensures Lifecycle(t, st, b.pool, phys, true)
    ensures b.pool in st.configured && table.Some? && (|cur.rows| == 0 || b.defaultMax == 0) ==> t.result == Ok(VNull)
    ensures b.pool in st.configured && table.Some? && |cur.rows| > 0 && b.defaultMax != 0 ==>
              if |cur.columns| == 0 then t.result == Err(IndexOutOfBounds)
              else t.result == Ok(RowValues(cur, cur.rows[0])[0])
    ensures b.pool in st.configured && table.None? ==> t.result == Err(IllegalArgument("search"))
  {
    var cond := ObjectCondition(fieldId, param, otherCond);
    var s := Search(b, st, phys, table, DbOp.ByCond(Some([fieldObject]), Some(cond)), false, cur);
    if s.result.Err? {
      return Trip(Err(s.result.error), s.acts);
    }
    var recs := s.result.value.value;
    if |recs| == 0 {
      return Trip(Ok(VNull), s.acts);
    }
    var oneRec := recs[0].values;
    if |oneRec| == 0 {
      return Trip(Err(IndexOutOfBounds), s.acts);
    }
    return Trip(Ok(oneRec[0]), s.acts);
  }

  /**
   * getValue(findValue, field, table, ifString[, otherCond]): whether any row
   * matches. A null field fails before anything is borrowed; every failure
   * after that is logged and answers false.
   */
  method GetValue(b: Biz, st: DbcpManager.Dbcp, phys: Connection, findValue: Option<string>, field: Option<string>,
                  table: Option<string>, ifString: bool, otherCond: Option<string>, cur: Cursor)
    returns (t: Trip<bool>)
    requires DbcpManager.Valid(st) && DbOp.Modelled(b.op) && WellFormed(cur)
    ensures field.None? ==> t == Trip(Err(NullPointer), [])
    ensures field.Some? ==> t.result.Ok?
    ensures field.Some? ==>
              (t.result.value <==> b.pool in st.configured && table.Some? && |Window(cur.rows, 0, b.defaultMax)| > 0)
    ensures field.Some? ==> t.acts == if b.pool in st.configured then CloseConn(Some(Lease(phys, true))) else []
  {
    if field.None? {
      return Trip(Err(NullPointer), []);
    }
    var cond := ValueCondition(field.value, TextOf(findValue), ifString, otherCond);
    var s := Search(b, st, phys, table, DbOp.ByCond(Some([field.value]), Some(cond)), false, cur);
    if s.result.Ok? && |s.result.value.value| >= 1 {
      return Trip(Ok(true), s.acts);
    }
    return Trip(Ok(false), s.acts);
  }
}
