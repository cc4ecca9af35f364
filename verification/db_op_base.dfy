/**
 * DbOpBase: the dialect-agnostic executor. Every operation checks its required
 * arguments, builds SQL text and a positional bind list, and (for reads) turns
 * the cursor the driver answered with into records. The cursor is an argument:
 * the model says what the executor does with whatever the database returned.
 */
module DbOpBase {
  import opened Common
  import opened Jdbc
  import opened ResultRows
  import SqlUtil

  /** One entry of a column-to-value map, in the map's iteration order. */
  datatype Field = Field(name: string, value: Value)

  /** The statement an operation prepared and what it returned. */
  datatype Exec<T> = Exec(stmt: Statement, value: T)

  function Names(data: seq<Field>): (ns: seq<string>)
    ensures |ns| == |data|
    ensures forall i :: 0 <= i < |data| ==> ns[i] == data[i].name
  {
    seq(|data|, i requires 0 <= i < |data| => data[i].name)
  }

  function Values(data: seq<Field>): (vs: seq<Value>)
    ensures |vs| == |data|
    ensures forall i :: 0 <= i < |data| ==> vs[i] == data[i].value
  {
    seq(|data|, i requires 0 <= i < |data| => data[i].value)
  }

  /** No placeholder character inside any of the strings. */
  predicate NoMarks(parts: seq<string>) {
    forall i :: 0 <= i < |parts| ==> '?' !in parts[i]
  }

  // ===========================================================================
  // Clause builders

  /** `" where " + condition` whenever the condition is non-null (update, delete, max, min). */
  function WhereIfPresent(cond: Option<string>): string {
    if cond.Some? then " where " + cond.value else ""
  }

  /** `" where " + condition` only for a non-null, non-empty condition (getOneRow, search). */
  function WhereIfNotEmpty(cond: Option<string>): string {
    if cond.Some? && |cond.value| > 0 then " where " + cond.value else ""
  }

  /** The two guards disagree exactly on the empty condition, which the first leaves dangling. */
  lemma WhereGuardsDiffer(cond: Option<string>)
    ensures WhereIfPresent(cond) != WhereIfNotEmpty(cond) <==> cond == Some("")
    ensures cond == Some("") ==> WhereIfPresent(cond) == " where "
  {
  }

  /** The selected column list: `*` for null, else the names comma-separated. */
  function Projection(cols: Option<seq<string>>): string {
    if cols.Some? then Join(cols.value, ',') else "*"
  }

  /** The SELECT the baseline getOneRow and search issue. */
  function SelectSql(cols: Option<seq<string>>, table: string, cond: Option<string>,
                     groupBy: Option<string>, orderBy: Option<string>, bAsc: bool): string
  {
    "select " + Projection(cols) + " from " + table + WhereIfNotEmpty(cond)
    + (if groupBy.Some? then " group by " + groupBy.value else "")
    + (if orderBy.Some? then " order by " + orderBy.value + (if bAsc then "" else " desc") else "")
  }

  // ===========================================================================
  // Insert

  function Placeholders(n: nat): (ps: seq<string>)
    ensures |ps| == n
    ensures forall i :: 0 <= i < n ==> ps[i] == "?"
  {
    seq(n, _ => "?")
  }

  function InsertSql(table: string, names: seq<string>): string {
    "insert into " + table + " (" + Join(names, ',') + ") values (" + Join(Placeholders(|names|), ',') + ")"
  }

  /** The connection's product name, lower-cased, mentions oracle. */
  predicate IsOracleProduct(conn: Connection) {
    Contains(ToLower(conn.productName), "oracle")
  }

  /**
   * getLegalUserName: the schema the primary-key lookup uses. A missing user
   * means the "public" schema; Oracle folds the user to upper case.
   */
  function LegalUserName(user: Option<string>, dbType: string): (r: string)
    ensures user.None? ==> r == "public"
    ensures user.Some? && dbType != "oracle" ==> r == user.value
    ensures user.Some? && dbType == "oracle" ==>
              |r| == |user.value| &&
              forall i :: 0 <= i < |r| ==> !IsAsciiLower(r[i]) && LowerChar(r[i]) == LowerChar(user.value[i])
  {
    if user.None? then "public"
    else if dbType == "oracle" then ToUpper(user.value)
    else user.value
  }

  /** Upper-casing a character depends only on its lower-case form. */
  lemma UpperThroughLower(c: char)
    ensures UpperChar(c) == UpperChar(LowerChar(c))
  {
  }

  /** On Oracle the schema name ignores the case of the user's ASCII letters. */
  lemma OracleUserNameIgnoresCase(u: string, v: string)
    requires |u| == |v| && forall i :: 0 <= i < |u| ==> LowerChar(u[i]) == LowerChar(v[i])
    ensures LegalUserName(Some(u), "oracle") == LegalUserName(Some(v), "oracle")
  {
    var a, b := LegalUserName(Some(u), "oracle"), LegalUserName(Some(v), "oracle");
    forall i | 0 <= i < |u|
      ensures a[i] == b[i]
    {
      UpperThroughLower(u[i]);
      UpperThroughLower(v[i]);
    }
  }

  /** Folding an Oracle user name twice is folding it once. */
  lemma OracleUserNameIdempotent(u: string)
    ensures var once := LegalUserName(Some(u), "oracle");
            LegalUserName(Some(once), "oracle") == once
  {
    var once := LegalUserName(Some(u), "oracle");
    var twice := LegalUserName(Some(once), "oracle");
    forall i | 0 <= i < |once|
      ensures twice[i] == once[i]
    {
      assert !IsAsciiLower(once[i]);
    }
  }

  /**
   * getTableId: the primary-key column reported for the table in the legal
   * user's schema. The lookup loop keeps the last row, so the answer is the
   * last reported column, or null when none is reported.
   */
  function TableId(pkColumns: seq<string>): (id: Option<string>)
    ensures id.None? <==> |pkColumns| == 0
    ensures id.Some? ==> id.value in pkColumns && id.value == pkColumns[|pkColumns| - 1]
  {
    if |pkColumns| == 0 then None else Some(pkColumns[|pkColumns| - 1])
  }

  /**
   * Each reported row overwrites the answer: more rows decide it whenever they
   * report anything, and leave it alone otherwise.
   */
  lemma TableIdLastRowWins(a: seq<string>, b: seq<string>)
    ensures |b| > 0 ==> TableId(a + b) == TableId(b)
    ensures |b| == 0 ==> TableId(a + b) == TableId(a)
  {
    if |b| == 0 {
      assert a + b == a;
    }
  }

  /** How insert prepares its statement with respect to generated keys. */
  function KeyRequestFor(conn: Connection, colList: Option<seq<string>>, isAutoGenKey: bool,
                         pkColumns: seq<string>): (k: KeyRequest)
    ensures k.NoKeys? <==> !isAutoGenKey
    ensures isAutoGenKey && colList.Some? ==> k == ReturnColumns(colList.value)
    ensures isAutoGenKey && colList.None? ==>
              (k.ReturnPrimaryKey? <==> IsOracleProduct(conn)) &&
              (k.ReturnPrimaryKey? ==> k.col == TableId(pkColumns)) &&
              (!k.ReturnPrimaryKey? ==> k == ReturnGeneratedKeys)
  {
    if !isAutoGenKey then NoKeys
    else if colList.Some? then ReturnColumns(colList.value)
    else if IsOracleProduct(conn) then ReturnPrimaryKey(TableId(pkColumns))
    else ReturnGeneratedKeys
  }

  /**
   * insert(conn, table, dataMap, colList, isAutoGenKey). `pkColumns` is what
   * the metadata reports as the table's primary key; `genKey` is column 1 of
   * the first generated-key row, None when there is no such row. The result is
   * that key read with getInt, or 0.
   */
  function Insert(conn: Option<Connection>, table: Option<string>, data: Option<seq<Field>>,
                  colList: Option<seq<string>>, isAutoGenKey: bool,
                  pkColumns: seq<string>, genKey: Option<Cell>): (r: Result<Exec<int>>)
    requires genKey.Some? ==> genKey.value.SqlNull? || genKey.value.Number?
    ensures r.Err? <==> conn.None? || table.None? || data.None?
    ensures r.Err? ==> r.error == IllegalArgument("insert")
    ensures r.Ok? ==> r.value.stmt.sql == InsertSql(table.value, Names(data.value))
    ensures r.Ok? ==> |r.value.stmt.binds| == |data.value|
    ensures r.Ok? ==> forall i :: 0 <= i < |data.value| ==> BoundValue(r.value.stmt.binds[i]) == data.value[i].value
    ensures r.Ok? ==> r.value.stmt.keys == KeyRequestFor(conn.value, colList, isAutoGenKey, pkColumns)
    ensures r.Ok? ==> IsInt32(r.value.value)
    ensures r.Ok? && (!isAutoGenKey || genKey.None?) ==> r.value.value == 0
    ensures r.Ok? && isAutoGenKey && genKey.Some? ==> r.value.value == GetInt(genKey.value)
  {
    if conn.None? || table.None? || data.None? then Err(IllegalArgument("insert"))
    else
      var stmt := Statement(InsertSql(table.value, Names(data.value)), SetValues(Values(data.value)),
                            KeyRequestFor(conn.value, colList, isAutoGenKey, pkColumns));
      Ok(Exec(stmt, if isAutoGenKey && genKey.Some? then GetInt(genKey.value) else 0))
  }

  /**
   * The insert statement reads back as its column list and as many `?` marks
   * as there are columns: column i of the list receives bind i.
   */
  lemma InsertColumnsMeetMarks(table: string, data: seq<Field>)
    requires |data| > 0
    requires forall i :: 0 <= i < |data| ==> ',' !in data[i].name
    ensures exists cols, marks ::
              InsertSql(table, Names(data)) == "insert into " + table + " (" + cols + ") values (" + marks + ")" &&
              Split(cols, ',') == Names(data) && Split(marks, ',') == Placeholders(|data|)
  {
    var cols, marks := Join(Names(data), ','), Join(Placeholders(|data|), ',');
    SplitJoin(Names(data), ',');
    SplitJoin(Placeholders(|data|), ',');
    assert InsertSql(table, Names(data)) == "insert into " + table + " (" + cols + ") values (" + marks + ")";
  }

  lemma CountMarksPlaceholders(n: nat)
    ensures CountCharAll(Placeholders(n), '?') == n
  {
    if n > 0 {
      assert Placeholders(n)[1..] == Placeholders(n - 1);
      CountMarksPlaceholders(n - 1);
    }
  }

  /** Without `?` in the table or column names, the statement has one mark per bind. */
  lemma InsertMarksMatchBinds(table: string, data: seq<Field>)
    requires '?' !in table && NoMarks(Names(data))
    ensures CountChar(InsertSql(table, Names(data)), '?') == |data|
  {
    CountCharJoin(Names(data), ',', '?');
    CountMarksNone(Names(data));
    CountCharJoin(Placeholders(|data|), ',', '?');
    CountMarksPlaceholders(|data|);
    InsertShapeMarks(table, Join(Names(data), ','), Join(Placeholders(|data|), ','));
  }

  lemma InsertShapeMarks(table: string, cols: string, marks: string)
    requires '?' !in table
    ensures CountChar("insert into " + table + " (" + cols + ") values (" + marks + ")", '?')
            == CountChar(cols, '?') + CountChar(marks, '?')
  {
    var p1 := "insert into " + table;
    var p2 := p1 + " (" + cols;
    var p3 := p2 + ") values (" + marks;
    CountCharAbsent(table, '?');
    AppendCount("", "insert into ", table);
    assert "" + "insert into " + table == p1;
    AppendCount(p1, " (", cols);
    AppendCount(p2, ") values (", marks);
    AppendCount(p3, ")", "");
    assert p3 + ")" + "" == p3 + ")";
  }

  /** Appending a mark-free literal and then `t` adds the marks of `t`. */
  lemma AppendCount(s: string, lit: string, t: string)
    requires '?' !in lit
    ensures CountChar(s + lit + t, '?') == CountChar(s, '?') + CountChar(t, '?')
  {
    CountCharAbsent(lit, '?');
    CountCharAppend(s, lit, '?');
    CountCharAppend(s + lit, t, '?');
  }

  lemma {:induction false} CountMarksNone(parts: seq<string>)
    requires NoMarks(parts)
    ensures CountCharAll(parts, '?') == 0
  {
    if |parts| > 0 {
      CountCharAbsent(parts[0], '?');
      CountMarksNone(parts[1..]);
    }
  }

  // ===========================================================================
  // Update and delete

  function SetItems(names: seq<string>): (items: seq<string>)
    ensures |items| == |names|
    ensures forall i :: 0 <= i < |names| ==> items[i] == names[i] + "=?"
  {
    seq(|names|, i requires 0 <= i < |names| => names[i] + "=?")
  }

  function UpdateSql(table: string, names: seq<string>, cond: Option<string>): string {
    "update " + table + " set " + Join(SetItems(names), ',') + WhereIfPresent(cond)
  }

  /**
   * update(conn, table, dataMap, condition, condValues): one `name=?` per map
   * entry; the condition values are bound after the data values, and only when
   * there is a condition to hold their marks.
   */
  function Update(conn: Option<Connection>, table: Option<string>, data: Option<seq<Field>>,
                  cond: Option<string>, condValues: Option<seq<Value>>): (r: Result<Statement>)
    ensures r.Err? <==> conn.None? || table.None? || data.None?
    ensures r.Err? ==> r.error == IllegalArgument("update")
    ensures r.Ok? ==> r.value.sql == UpdateSql(table.value, Names(data.value), cond) && r.value.keys == NoKeys
    ensures r.Ok? ==> |r.value.binds| == |data.value| + (if cond.Some? && condValues.Some? then |condValues.value| else 0)
    ensures r.Ok? ==> forall i :: 0 <= i < |data.value| ==> BoundValue(r.value.binds[i]) == data.value[i].value
    ensures r.Ok? && cond.Some? && condValues.Some? ==>
              forall j :: 0 <= j < |condValues.value| ==>
                BoundValue(r.value.binds[|data.value| + j]) == condValues.value[j]
  {
    if conn.None? || table.None? || data.None? then Err(IllegalArgument("update"))
    else
      var extra := if cond.Some? && condValues.Some? then condValues.value else [];
      var vals := Values(data.value) + extra;
      assert forall i :: 0 <= i < |data.value| ==> vals[i] == data.value[i].value;
      assert forall j :: 0 <= j < |extra| ==> vals[|data.value| + j] == extra[j];
      Ok(Statement(UpdateSql(table.value, Names(data.value), cond), SetValues(vals), NoKeys))
  }

  lemma {:induction false} CountMarksSetItems(names: seq<string>)
    requires NoMarks(names)
    ensures CountCharAll(SetItems(names), '?') == |names|
  {
    if |names| > 0 {
      assert SetItems(names)[1..] == SetItems(names[1..]);
      CountCharAbsent(names[0], '?');
      CountCharAppend(names[0], "=?", '?');
      CountMarksSetItems(names[1..]);
    }
  }

  /**
   * When the caller's condition holds one mark per condition value (or there
   * is no condition) and no name holds a mark, the update has exactly one mark
   * per bind.
   */
  lemma UpdateMarksMatchBinds(table: string, data: seq<Field>, cond: Option<string>, condValues: Option<seq<Value>>)
    requires '?' !in table && NoMarks(Names(data))
    requires cond.Some? ==> CountChar(cond.value, '?') == (if condValues.Some? then |condValues.value| else 0)
    ensures var r := Update(Some(Connection("", None)), Some(table), Some(data), cond, condValues);
            r.Ok? && CountChar(r.value.sql, '?') == |r.value.binds|
  {
    var set_ := Join(SetItems(Names(data)), ',');
    CountCharJoin(SetItems(Names(data)), ',', '?');
    CountMarksSetItems(Names(data));
    CountCharAbsent(table, '?');
    AppendCount("", "update ", table);
    assert "" + "update " + table == "update " + table;
    AppendCount("update " + table, " set ", set_);
    if cond.Some? {
      AppendCount("update " + table + " set " + set_, " where ", cond.value);
      assert UpdateSql(table, Names(data), cond) == "update " + table + " set " + set_ + " where " + cond.value;
    } else {
      assert UpdateSql(table, Names(data), cond) == "update " + table + " set " + set_;
    }
  }

  /**
   * update(conn, table, name, value, condition): every argument is required,
   * and the statement is the multi-column update of a one-entry map with the
   * condition and no condition values.
   */
  function UpdateField(conn: Option<Connection>, table: Option<string>, name: Option<string>,
                       value: Value, cond: Option<string>): (r: Result<Statement>)
    ensures r.Err? <==> conn.None? || table.None? || name.None? || value == VNull || cond.None?
    ensures r.Err? ==> r.error == IllegalArgument("update")
    ensures r.Ok? ==> r == Update(conn, table, Some([Field(name.value, value)]), cond, None)
    ensures r.Ok? ==> r.value.binds == [BindOf(value)]
  {
    if conn.None? || table.None? || name.None? || value == VNull || cond.None? then Err(IllegalArgument("update"))
    else
      var r := Ok(Statement("update " + table.value + " set " + name.value + "=?" + " where " + cond.value,
                            SetValues([value]), NoKeys));
      assert SetItems(Names([Field(name.value, value)])) == [name.value + "=?"];
      assert Join([name.value + "=?"], ',') == name.value + "=?";
      assert Values([Field(name.value, value)]) + [] == [value];
      assert r.value.sql == UpdateSql(table.value, [name.value], cond);
      r
  }

  /**
   * delete(conn, table, condition, condValues): the condition values are bound
   * whenever they are non-null, even without a condition.
   */
  function Delete(conn: Option<Connection>, table: Option<string>, cond: Option<string>,
                  condValues: Option<seq<Value>>): (r: Result<Statement>)
    ensures r.Err? <==> conn.None? || table.None?
    ensures r.Err? ==> r.error == IllegalArgument("delete")
    ensures r.Ok? ==> r.value.sql == "delete from " + table.value + WhereIfPresent(cond) && r.value.keys == NoKeys
    ensures r.Ok? ==> |r.value.binds| == (if condValues.Some? then |condValues.value| else 0)
    ensures r.Ok? && condValues.Some? ==>
              forall j :: 0 <= j < |condValues.value| ==> BoundValue(r.value.binds[j]) == condValues.value[j]
  {
    if conn.None? || table.None? then Err(IllegalArgument("delete"))
    else Ok(Statement("delete from " + table.value + WhereIfPresent(cond), CondBinds(condValues), NoKeys))
  }

  /**
   * Condition values without a condition: update drops them, delete still binds
   * them to a statement that has no condition to receive them.
   */
  lemma CondValuesWithoutCondition(conn: Connection, table: string, data: seq<Field>, condValues: seq<Value>)
    requires '?' !in table
    ensures Update(Some(conn), Some(table), Some(data), None, Some(condValues)).value.binds == SetValues(Values(data))
    ensures var d := Delete(Some(conn), Some(table), None, Some(condValues));
            |d.value.binds| == |condValues| && CountChar(d.value.sql, '?') == 0
  {
    assert Values(data) + [] == Values(data);
    CountCharAbsent(table, '?');
    AppendCount("", "delete from ", table);
    assert "" + "delete from " + table == "delete from " + table + WhereIfPresent(None);
  }

  // ===========================================================================
  // Reads

  /**
   * getOneRow: the first row of the answer, as a name-keyed map or an array.
   * No row fails; with mustUnique a second row fails too.
   */
  function GetOneRow(conn: Option<Connection>, table: Option<string>, cols: Option<seq<string>>,
                     cond: Option<string>, condValues: Option<seq<Value>>, mustUnique: bool,
                     bMap: bool, cur: Cursor): (r: Result<Exec<Record>>)
    requires WellFormed(cur)
    ensures conn.None? || table.None? <==> r == Err(IllegalArgument("getOneRow"))
    ensures conn.Some? && table.Some? ==>
              var sql := SelectSql(cols, table.value, cond, None, None, true);
              (r == Err(RowNotFound(sql)) <==> |cur.rows| == 0) &&
              (r == Err(RowNotUnique(sql)) <==> mustUnique && |cur.rows| >= 2)
    ensures r.Ok? ==> 0 < |cur.rows| && (mustUnique ==> |cur.rows| == 1)
    ensures r.Ok? ==> r.value.stmt == Statement(SelectSql(cols, table.value, cond, None, None, true), CondBinds(condValues), NoKeys)
    ensures r.Ok? ==> r.value.value == ConvertRow(cur, cur.rows[0], bMap, false)
  {
    if conn.None? || table.None? then Err(IllegalArgument("getOneRow"))
    else
      var sql := SelectSql(cols, table.value, cond, None, None, true);
      if |cur.rows| == 0 then Err(RowNotFound(sql))
      else if mustUnique && |cur.rows| >= 2 then Err(RowNotUnique(sql))
      else Ok(Exec(Statement(sql, CondBinds(condValues), NoKeys), ConvertRow(cur, cur.rows[0], bMap, false)))
  }

  /**
   * search / searchInLabel: the SELECT with optional grouping and ordering,
   * then the fetch loop over the answer. Records are keyed by column name, or
   * by column label when `byLabel`.
   */
  method Search(conn: Option<Connection>, table: Option<string>, cols: Option<seq<string>>,
                cond: Option<string>, condValues: Option<seq<Value>>, start: int, max: int,
                orderBy: Option<string>, groupBy: Option<string>, bAsc: bool, bMap: bool,
                byLabel: bool, cur: Cursor)
    returns (r: Result<Exec<seq<Record>>>)
    requires WellFormed(cur)
    ensures r.Err? <==> conn.None? || table.None?
    ensures r.Err? ==> r.error == IllegalArgument("search")
    ensures r.Ok? ==> r.value.stmt == Statement(SelectSql(cols, table.value, cond, groupBy, orderBy, bAsc),
                                                 CondBinds(condValues), NoKeys)
    ensures r.Ok? ==> r.value.value == WindowRecords(cur, start, max, bMap, byLabel)
  {
    if conn.None? || table.None? {
      return Err(IllegalArgument("search"));
    }
    var stmt := Statement(SelectSql(cols, table.value, cond, groupBy, orderBy, bAsc), CondBinds(condValues), NoKeys);
    var recs := FetchRows(cur, start, max, 0, bMap, byLabel);
    return Ok(Exec(stmt, recs));
  }

  /** The single-row fetch reads the record a one-row search from the top would. */
  lemma GetOneRowIsFirstOfSearch(conn: Connection, table: string, cols: Option<seq<string>>,
                                 cond: Option<string>, condValues: Option<seq<Value>>, mustUnique: bool,
                                 bMap: bool, cur: Cursor)
    requires WellFormed(cur)
    requires GetOneRow(Some(conn), Some(table), cols, cond, condValues, mustUnique, bMap, cur).Ok?
    ensures WindowRecords(cur, 0, 1, bMap, false) ==
              [GetOneRow(Some(conn), Some(table), cols, cond, condValues, mustUnique, bMap, cur).value.value]
  {
  }

  /**
   * When names and labels are each free of duplicates, a label-keyed record
   * holds under label j exactly what the name-keyed record holds under name j.
   */
  lemma LabelRecordMatchesNameRecord(c: Cursor, row: seq<Cell>, j: nat)
    requires RowFits(c.columns, row) && j < |c.columns|
    requires ColumnKeys(c.columns, false)[j] !in ColumnKeys(c.columns, false)[j + 1..]
    requires ColumnKeys(c.columns, true)[j] !in ColumnKeys(c.columns, true)[j + 1..]
    ensures c.columns[j].name in ConvertRow(c, row, true, false).fields
    ensures c.columns[j].columnLabel in ConvertRow(c, row, true, true).fields
    ensures ConvertRow(c, row, true, true).fields[c.columns[j].columnLabel]
            == ConvertRow(c, row, true, false).fields[c.columns[j].name]
            == RowValues(c, row)[j]
  {
    LastIndexOfUnrepeated(ColumnKeys(c.columns, false), j);
    LastIndexOfUnrepeated(ColumnKeys(c.columns, true), j);
  }

  /** Array records do not depend on the keying: searchInLabel and search agree. */
  lemma ArraySearchIgnoresLabels(c: Cursor, start: int, max: int)
    requires WellFormed(c)
    ensures WindowRecords(c, start, max, false, true) == WindowRecords(c, start, max, false, false)
  {
  }

  // ===========================================================================
  // Aggregates

  /** The answer to a single-value query: column 1 of each row is an int or NULL. */
  predicate IntShaped(cur: Cursor) {
    forall i :: 0 <= i < |cur.rows| ==> |cur.rows[i]| > 0 && (cur.rows[i][0].SqlNull? || cur.rows[i][0].Number?)
  }

  /** `EmptyUtils.isNotEmpty` on a string: non-null and of positive length. */
  predicate IsNotEmpty(s: Option<string>) {
    s.Some? && |s.value| > 0
  }

  function CountSql(table: string, distinct: Option<string>, cond: Option<string>): string {
    (if distinct.None? then "select count(*) from " + table
     else "select count(distinct " + distinct.value + ") from " + table)
    + (if IsNotEmpty(cond) then SqlUtil.WHERE + cond.value else "")
  }

  /**
   * getCount: `count(*)` or `count(distinct d)`, filtered by a non-empty
   * condition; no answer row counts as 0, otherwise column 1 read with getInt.
   */
  function GetCount(conn: Option<Connection>, table: Option<string>, cond: Option<string>,
                    condValues: Option<seq<Value>>, distinct: Option<string>, cur: Cursor): (r: Result<Exec<int>>)
    requires IntShaped(cur)
    ensures r.Err? <==> conn.None? || table.None?
    ensures r.Err? ==> r.error == IllegalArgument("getCount")
    ensures r.Ok? ==> r.value.stmt == Statement(CountSql(table.value, distinct, cond), CondBinds(condValues), NoKeys)
    ensures r.Ok? ==> IsInt32(r.value.value)
    ensures r.Ok? && |cur.rows| == 0 ==> r.value.value == 0
    ensures r.Ok? && |cur.rows| > 0 ==> r.value.value == GetInt(cur.rows[0][0])
  {
    if conn.None? || table.None? then Err(IllegalArgument("getCount"))
    else
      var n := if |cur.rows| == 0 then 0 else GetInt(cur.rows[0][0]);
      Ok(Exec(Statement(CountSql(table.value, distinct, cond), CondBinds(condValues), NoKeys), n))
  }

  /** The count filters on exactly the conditions the search filters on, spelled in upper case. */
  lemma CountFiltersLikeSearch(table: string, cols: Option<seq<string>>, cond: Option<string>)
    ensures IsNotEmpty(cond) <==> WhereIfNotEmpty(cond) != ""
    ensures IsNotEmpty(cond) ==>
              CountSql(table, None, cond) == "select count(*) from " + table + SqlUtil.WHERE + cond.value &&
              SelectSql(cols, table, cond, None, None, true)
                == "select " + Projection(cols) + " from " + table + " where " + cond.value
  {
  }

  /**
   * getMax / getMin: `select fn(col) from table`, the condition added whenever
   * non-null; no answer row is null, otherwise column 1 as the driver's object.
   * Both report a failed argument check under the name getCount.
   */
  function Aggregate(fn: string, conn: Option<Connection>, table: Option<string>, col: Option<string>,
                     cond: Option<string>, condValues: Option<seq<Value>>, cur: Cursor): (r: Result<Exec<Value>>)
    requires forall i :: 0 <= i < |cur.rows| ==> |cur.rows[i]| > 0
    ensures r.Err? <==> conn.None? || table.None?
    ensures r.Err? ==> r.error == IllegalArgument("getCount")
    ensures r.Ok? ==> r.value.stmt == Statement("select " + fn + "(" + TextOf(col) + ") from " + table.value + WhereIfPresent(cond),
                                                 CondBinds(condValues), NoKeys)
    ensures r.Ok? ==> (r.value.value == VNull <==> |cur.rows| == 0 || cur.rows[0][0].SqlNull?)
    ensures r.Ok? && |cur.rows| > 0 && !cur.rows[0][0].SqlNull? ==> r.value.value == VNative(cur.rows[0][0])
  {
    if conn.None? || table.None? then Err(IllegalArgument("getCount"))
    else
      var stmt := Statement("select " + fn + "(" + TextOf(col) + ") from " + table.value + WhereIfPresent(cond),
                            CondBinds(condValues), NoKeys);
      Ok(Exec(stmt, if |cur.rows| == 0 then VNull else GetObject(cur.rows[0][0])))
  }

  function GetMax(conn: Option<Connection>, table: Option<string>, col: Option<string>,
                  cond: Option<string>, condValues: Option<seq<Value>>, cur: Cursor): (r: Result<Exec<Value>>)
    requires forall i :: 0 <= i < |cur.rows| ==> |cur.rows[i]| > 0
    ensures r.Err? <==> conn.None? || table.None?
    ensures r.Ok? ==> StartsWith(r.value.stmt.sql, "select max(") && r.value.stmt.binds == CondBinds(condValues)
    ensures r.Ok? ==> (r.value.value == VNull <==> |cur.rows| == 0 || cur.rows[0][0].SqlNull?)
  {
    Aggregate("max", conn, table, col, cond, condValues, cur)
  }

  function GetMin(conn: Option<Connection>, table: Option<string>, col: Option<string>,
                  cond: Option<string>, condValues: Option<seq<Value>>, cur: Cursor): (r: Result<Exec<Value>>)
    requires forall i :: 0 <= i < |cur.rows| ==> |cur.rows[i]| > 0
    ensures r.Err? <==> conn.None? || table.None?
    ensures r.Ok? ==> StartsWith(r.value.stmt.sql, "select min(") && r.value.stmt.binds == CondBinds(condValues)
    ensures r.Ok? ==> (r.value.value == VNull <==> |cur.rows| == 0 || cur.rows[0][0].SqlNull?)
  {
    Aggregate("min", conn, table, col, cond, condValues, cur)
  }

  /**
   * getMax and getMin filter exactly like delete: the same `where` text after
   * the table, and the same binds.
   */
  lemma AggregateFiltersLikeDelete(conn: Connection, table: string, col: Option<string>, cond: Option<string>,
                                   condValues: Option<seq<Value>>, cur: Cursor)
    requires forall i :: 0 <= i < |cur.rows| ==> |cur.rows[i]| > 0
    ensures var d := Delete(Some(conn), Some(table), cond, condValues).value;
            var mx := GetMax(Some(conn), Some(table), col, cond, condValues, cur).value.stmt;
            var mn := GetMin(Some(conn), Some(table), col, cond, condValues, cur).value.stmt;
            var filter := d.sql[|"delete from " + table|..];
            mx.sql == "select max(" + TextOf(col) + ") from " + table + filter && mx.binds == d.binds &&
            mn.sql == "select min(" + TextOf(col) + ") from " + table + filter && mn.binds == d.binds
  {
    var head := "delete from " + table;
    var w := WhereIfPresent(cond);
    DropHead(head, w);
    assert "select " + "max" + "(" == "select max(" by {}
    assert "select " + "min" + "(" == "select min(" by {}
  }

  lemma SelectHead(fn: string, col: string, table: string, filter: string)
    ensures "select " + fn + "(" + col + ") from " + table + filter
         == ("select " + fn) + ("(" + col + ") from " + table + filter)
  {
  }

  /** Cutting a head off what it heads leaves the rest. */
  lemma DropHead(h: string, w: string)
    ensures (h + w)[|h|..] == w
  {
  }

  /** getMin is getMax with `min` in place of `max`: same binds, same answer from the same cursor. */
  lemma MinMirrorsMax(conn: Option<Connection>, table: Option<string>, col: Option<string>, cond: Option<string>,
                      condValues: Option<seq<Value>>, cur: Cursor)
    requires forall i :: 0 <= i < |cur.rows| ==> |cur.rows[i]| > 0
    ensures var mx := GetMax(conn, table, col, cond, condValues, cur);
            var mn := GetMin(conn, table, col, cond, condValues, cur);
            mx.Ok? == mn.Ok? &&
            (mx.Ok? ==> mn.value.value == mx.value.value && mn.value.stmt.binds == mx.value.stmt.binds &&
                        mn.value.stmt.sql == "select min" + mx.value.stmt.sql[|"select max"|..])
  {
    if conn.Some? && table.Some? {
      var rest := "(" + TextOf(col) + ") from " + table.value + WhereIfPresent(cond);
      SelectHead("max", TextOf(col), table.value, WhereIfPresent(cond));
      SelectHead("min", TextOf(col), table.value, WhereIfPresent(cond));
      assert "select " + "max" == "select max" by {}
      assert "select " + "min" == "select min" by {}
      DropHead("select max", rest);
    }
  }

  // ===========================================================================
  // Batched execution (execSQL)

  /** Statements per batch. */
  const LINE_PER_TIME: nat := 30

  /** The loop count: one batch per 30 statements, plus one for a partial batch. */
  function BatchCount(n: nat): (k: nat)
    ensures k * LINE_PER_TIME >= n && (k > 0 ==> (k - 1) * LINE_PER_TIME < n)
  {
    n / LINE_PER_TIME + (if n % LINE_PER_TIME > 0 then 1 else 0)
  }

  /**
   * The batches as the loop cuts them: batch i is
   * `copyOfRange(sqls, 30 i, 30 i + (i == loopTime - 1 ? remainder : 30))`.
   */
  function BatchesAsWritten(sqls: seq<string>): (bs: seq<seq<string>>)
    ensures |bs| == BatchCount(|sqls|)
  {
    var n := |sqls|;
    var k := BatchCount(n);
    var rem := n % LINE_PER_TIME;
    seq(k, i requires 0 <= i < k =>
          sqls[LINE_PER_TIME * i .. LINE_PER_TIME * i + (if i == k - 1 then rem else LINE_PER_TIME)])
  }

  /** The batches as intended: a last batch is short only when there is a remainder. */
  function Batches(sqls: seq<string>): (bs: seq<seq<string>>)
    ensures |bs| == BatchCount(|sqls|)
    ensures forall i :: 0 <= i < |bs| ==> 0 < |bs[i]| <= LINE_PER_TIME
    ensures forall i :: 0 <= i < |bs| - 1 ==> bs[i] == sqls[LINE_PER_TIME * i .. LINE_PER_TIME * (i + 1)]
  {
    var n := |sqls|;
    var k := BatchCount(n);
    var rem := n % LINE_PER_TIME;
    seq(k, i requires 0 <= i < k =>
          sqls[LINE_PER_TIME * i .. LINE_PER_TIME * i + (if i == k - 1 && rem > 0 then rem else LINE_PER_TIME)])
  }

  /** The last intended batch runs to the end of the list. */
  lemma LastBatch(sqls: seq<string>)
    requires |sqls| > 0
    ensures var k := BatchCount(|sqls|);
            Batches(sqls)[k - 1] == sqls[LINE_PER_TIME * (k - 1)..]
  {
  }

  /** All but the last intended batch are the intended batches of the statements before the last batch. */
  lemma BatchesPrefix(sqls: seq<string>)
    requires |sqls| > 0
    ensures var k := BatchCount(|sqls|);
            Batches(sqls)[..k - 1] == Batches(sqls[..LINE_PER_TIME * (k - 1)])
  {
    var k := BatchCount(|sqls|);
    var m := LINE_PER_TIME * (k - 1);
    var pre := sqls[..m];
    var bs := Batches(sqls);
    assert BatchCount(m) == k - 1;
    forall i | 0 <= i < k - 1
      ensures bs[i] == Batches(pre)[i]
    {
      assert bs[i] == sqls[LINE_PER_TIME * i .. LINE_PER_TIME * (i + 1)];
      assert LINE_PER_TIME * (i + 1) <= m;
      assert pre[LINE_PER_TIME * i .. LINE_PER_TIME * (i + 1)] == sqls[LINE_PER_TIME * i .. LINE_PER_TIME * (i + 1)];
      if i < k - 2 {
        assert Batches(pre)[i] == pre[LINE_PER_TIME * i .. LINE_PER_TIME * (i + 1)];
      } else {
        LastBatch(pre);
        assert LINE_PER_TIME * (i + 1) == m;
        assert Batches(pre)[i] == pre[LINE_PER_TIME * i..];
      }
    }
  }

  /** Run in order, the intended batches execute every statement exactly once, in order. */
  lemma {:induction false} BatchesCover(sqls: seq<string>)
    ensures Concat(Batches(sqls)) == sqls
    decreases |sqls|
  {
    var k := BatchCount(|sqls|);
    if k > 0 {
      var m := LINE_PER_TIME * (k - 1);
      var pre := sqls[..m];
      var bs := Batches(sqls);
      assert Concat(bs[..k - 1]) == pre by {
        BatchesPrefix(sqls);
        BatchesCover(pre);
      }
      assert bs[k - 1] == sqls[m..] by {
        LastBatch(sqls);
      }
      assert Concat(bs) == Concat(bs[..k - 1]) + bs[k - 1] by {
        assert bs == bs[..k - 1] + [bs[k - 1]];
        ConcatSnoc(bs[..k - 1], bs[k - 1]);
      }
      assert pre + sqls[m..] == sqls;
    }
  }

  /** Off multiples of 30 the loop cuts the intended batches. */
  lemma AsWrittenAgreesOffMultiples(sqls: seq<string>)
    requires |sqls| % LINE_PER_TIME != 0
    ensures BatchesAsWritten(sqls) == Batches(sqls)
  {
  }

  /**
   * On a positive multiple of 30 the loop's last batch is empty: the last 30
   * statements are never executed.
   */
  lemma AsWrittenDropsLastBatch(sqls: seq<string>)
    requires |sqls| > 0 && |sqls| % LINE_PER_TIME == 0
    ensures var k := BatchCount(|sqls|);
            BatchesAsWritten(sqls)[k - 1] == [] &&
            BatchesAsWritten(sqls)[..k - 1] == Batches(sqls)[..k - 1] &&
            |Batches(sqls)[k - 1]| == LINE_PER_TIME
  {
  }

  /** Thirty statements: the loop runs once, with an empty batch. */
  lemma ThirtyStatementsRunNothing(sqls: seq<string>)
    requires |sqls| == 30
    ensures Concat(BatchesAsWritten(sqls)) == []
    ensures Concat(Batches(sqls)) == sqls
  {
    var none: seq<seq<string>> := [];
    assert BatchesAsWritten(sqls) == none + [[]];
    assert sqls[0..30] == sqls;
    assert Batches(sqls) == none + [sqls];
    ConcatSnoc(none, []);
    ConcatSnoc(none, sqls);
  }

  /** How many trailing statements the loop never runs: the last 30 on a positive multiple of 30, else none. */
  function DroppedAsWritten(n: nat): (d: nat)
    ensures d <= n
    ensures d > 0 <==> n > 0 && n % LINE_PER_TIME == 0
  {
    if n > 0 && n % LINE_PER_TIME == 0 then LINE_PER_TIME else 0
  }

  /**
   * Run in order, the loop's batches execute exactly the statements before the
   * dropped tail, each once and in order.
   */
  lemma AsWrittenRunsPrefix(sqls: seq<string>)
    ensures Concat(BatchesAsWritten(sqls)) == sqls[..|sqls| - DroppedAsWritten(|sqls|)]
  {
    var n := |sqls|;
    if n % LINE_PER_TIME != 0 {
      AsWrittenAgreesOffMultiples(sqls);
      BatchesCover(sqls);
      assert sqls[..n] == sqls;
    } else if n > 0 {
      var k := BatchCount(n);
      var bw := BatchesAsWritten(sqls);
      var m := LINE_PER_TIME * (k - 1);
      AsWrittenDropsLastBatch(sqls);
      assert bw == bw[..k - 1] + [[]];
      ConcatSnoc(bw[..k - 1], []);
      BatchesPrefix(sqls);
      BatchesCover(sqls[..m]);
      assert m == n - LINE_PER_TIME;
    }
  }

  /** execSQL as written: the statement batches handed to executeBatch, in order. */
  function ExecSqlAsWritten(conn: Option<Connection>, sqls: Option<seq<string>>): (r: Result<seq<seq<string>>>)
    ensures r.Err? <==> conn.None? || sqls.None?
    ensures r.Err? ==> r.error == NullPointer
    ensures r.Ok? ==> |r.value| == BatchCount(|sqls.value|)
    ensures r.Ok? ==> forall i :: 0 <= i < |r.value| ==> |r.value[i]| <= LINE_PER_TIME
    ensures r.Ok? ==> Concat(r.value) == sqls.value[..|sqls.value| - DroppedAsWritten(|sqls.value|)]
  {
    if conn.None? || sqls.None? then Err(NullPointer)
    else
      AsWrittenRunsPrefix(sqls.value);
      Ok(BatchesAsWritten(sqls.value))
  }

  /** execSQL as intended: every statement runs once, in order, at most 30 per batch. */
  function ExecSql(conn: Option<Connection>, sqls: Option<seq<string>>): (r: Result<seq<seq<string>>>)
    ensures r.Err? <==> conn.None? || sqls.None?
    ensures r.Err? ==> r.error == NullPointer
    ensures r.Ok? ==> Concat(r.value) == sqls.value
    ensures r.Ok? ==> forall i :: 0 <= i < |r.value| ==> 0 < |r.value[i]| <= LINE_PER_TIME
  {
    if conn.None? || sqls.None? then Err(NullPointer)
    else
      BatchesCover(sqls.value);
      Ok(Batches(sqls.value))
  }

  // ===========================================================================
  // insertIfNotExists

  /**
   * insertIfNotExists: with a condition, count the matching rows first and
   * refuse when there are any; then insert asking for the generated key.
   */
  function InsertIfNotExists(conn: Option<Connection>, table: Option<string>, data: Option<seq<Field>>,
                             cond: Option<string>, condValues: Option<seq<Value>>, countCur: Cursor,
                             pkColumns: seq<string>, genKey: Option<Cell>): (r: Result<Exec<int>>)
    requires IntShaped(countCur)
    requires genKey.Some? ==> genKey.value.SqlNull? || genKey.value.Number?
    ensures r == Err(AlreadyExists) <==>
              cond.Some? && conn.Some? && table.Some? && |countCur.rows| > 0 && GetInt(countCur.rows[0][0]) > 0
    ensures cond.Some? && (conn.None? || table.None?) ==> r == Err(IllegalArgument("getCount"))
    ensures r.Ok? ==> conn.Some? && table.Some? && data.Some?
    ensures r.Ok? ==> r.value.stmt.sql == InsertSql(table.value, Names(data.value))
    ensures r.Ok? ==> r.value.stmt.keys != NoKeys && r.value.stmt.keys == KeyRequestFor(conn.value, None, true, pkColumns)
    ensures cond.None? || (r.Ok? || r.error != AlreadyExists) ==>
              r == Err(IllegalArgument("getCount")) || r == Insert(conn, table, data, None, true, pkColumns, genKey)
  {
    if cond.Some? then
      match GetCount(conn, table, cond, condValues, None, countCur)
      case Err(e) => Err(e)
      case Ok(count) =>
        if count.value > 0 then Err(AlreadyExists)
        else Insert(conn, table, data, None, true, pkColumns, genKey)
    else Insert(conn, table, data, None, true, pkColumns, genKey)
  }
}
