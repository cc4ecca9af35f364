/**
 * DbOpOracle: the Oracle dialect. It inherits every operation of the base
 * executor and overrides only search, which pushes the start/max window into
 * the statement with ROWNUM paging and then reads the whole answer from its
 * start.
 */
module DbOpOracle {
  import opened Common
  import opened Jdbc
  import opened ResultRows
  import opened DbOpBase

  const ORACLE_DRIVER: string := "oracle.jdbc.driver.OracleDriver"

  /** The driver versions the dialect registers itself under, all for ORACLE_DRIVER. */
  const ORACLE_VERSIONS: seq<int> := [0, 8, 9, 10]

  /** The text put before the baseline SELECT. */
  function PagingPrefix(start: int): string {
    if start > 0 then "select * from ( select row_.*, rownum rownum_ from ( " else "select * from ( "
  }

  /**
   * The text put after it. The upper bound `start + max` is Java int
   * arithmetic and wraps on overflow.
   */
  function PagingSuffix(start: int, max: int): string {
    if start > 0 then " ) row_ where rownum <= " + IntToString(ToInt32(start + max)) + ") where rownum_ > " + IntToString(start)
    else " ) where rownum <= " + IntToString(max)
  }

  /** The paged statement: the baseline SELECT, verbatim, inside the ROWNUM envelope. */
  function PagedSql(cols: Option<seq<string>>, table: string, cond: Option<string>,
                    groupBy: Option<string>, orderBy: Option<string>, bAsc: bool, start: int, max: int): (sql: string)
    ensures var p, inner := |PagingPrefix(start)|, SelectSql(cols, table, cond, groupBy, orderBy, bAsc);
            p + |inner| <= |sql| && sql[..p] == PagingPrefix(start) && sql[p..p + |inner|] == inner &&
            sql[p + |inner|..] == PagingSuffix(start, max)
  {
    var inner := SelectSql(cols, table, cond, groupBy, orderBy, bAsc);
    SlicesOfConcat(PagingPrefix(start), inner, PagingSuffix(start, max));
    PagingPrefix(start) + inner + PagingSuffix(start, max)
  }

  lemma SlicesOfConcat(a: string, b: string, c: string)
    ensures (a + b + c)[..|a|] == a && (a + b + c)[|a|..|a| + |b|] == b && (a + b + c)[|a| + |b|..] == c
  {
  }

  /**
   * search, Oracle override: the window is already applied by the server, so
   * the fetch loop starts its counter at `start` and skips nothing.
   */
  method Search(conn: Option<Connection>, table: Option<string>, cols: Option<seq<string>>,
                cond: Option<string>, condValues: Option<seq<Value>>, start: int, max: int,
                orderBy: Option<string>, groupBy: Option<string>, bAsc: bool, bMap: bool,
                cur: Cursor)
    returns (r: Result<Exec<seq<Record>>>)
    requires WellFormed(cur)
    ensures r.Err? <==> conn.None? || table.None?
    ensures r.Err? ==> r.error == IllegalArgument("search")
    ensures r.Ok? ==> r.value.stmt == Statement(PagedSql(cols, table.value, cond, groupBy, orderBy, bAsc, start, max),
                                                 CondBinds(condValues), NoKeys)
    ensures r.Ok? ==> r.value.value == WindowRecords(cur, 0, max, bMap, false)
  {
    if conn.None? || table.None? {
      return Err(IllegalArgument("search"));
    }
    var stmt := Statement(PagedSql(cols, table.value, cond, groupBy, orderBy, bAsc, start, max),
                          CondBinds(condValues), NoKeys);
    var recs := FetchRows(cur, start, max, start, bMap, false);
    return Ok(Exec(stmt, recs));
  }

  // ===========================================================================
  // What the server answers to the envelope

  /** The `rownum rownum_` column the envelope adds when start > 0 (a NUMBER without precision). */
  const ROWNUM_COLUMN: Column := Column("ROWNUM_", "ROWNUM_", Numeric, 0)

  function Min(a: int, b: int): int {
    if a <= b then a else b
  }

  /**
   * Oracle's answer to the paged statement, given its answer `inner` to the
   * baseline SELECT. ROWNUM numbers the inner rows from 1. With start > 0 the
   * rows numbered start+1 .. ToInt32(start+max) come back with their number
   * appended; otherwise the first `max` rows come back unchanged.
   */
  function RownumEnvelope(inner: Cursor, start: int, max: int): (c: Cursor)
    requires WellFormed(inner)
    ensures WellFormed(c)
    ensures start > 0 ==> c.columns == inner.columns + [ROWNUM_COLUMN]
    ensures start <= 0 ==> c.columns == inner.columns
    ensures c.metaPackage == inner.metaPackage
  {
    var n := |inner.rows|;
    if start > 0 then
      var hi := Min(ToInt32(start + max), n);
      var count := if hi > start then hi - start else 0;
      var rows := seq(count, i requires 0 <= i < count => inner.rows[start + i] + [Number(start + i + 1, 0)]);
      RownumRowsFit(inner.columns);
      Cursor(inner.columns + [ROWNUM_COLUMN], inner.metaPackage, rows)
    else
      var count := if max < 0 then 0 else Min(max, n);
      Cursor(inner.columns, inner.metaPackage, inner.rows[..count])
  }

  lemma RownumRowsFit(columns: seq<Column>)
    ensures forall row: seq<Cell>, k: int ::
              RowFits(columns, row) ==> RowFits(columns + [ROWNUM_COLUMN], row + [Number(k, 0)])
  {
    forall row: seq<Cell>, k: int | RowFits(columns, row)
      ensures RowFits(columns + [ROWNUM_COLUMN], row + [Number(k, 0)])
    {
      var cs, r := columns + [ROWNUM_COLUMN], row + [Number(k, 0)];
      forall j | 0 <= j < |r|
        ensures Conforms(cs[j].sqlType, r[j])
      {
        if j < |row| {
          assert cs[j] == columns[j] && r[j] == row[j];
        }
      }
    }
  }

  /** The values of an enveloped row: the inner row's values, then its number. */
  lemma EnvelopeRowValues(inner: Cursor, env: Cursor, row: seq<Cell>, k: int)
    requires env.columns == inner.columns + [ROWNUM_COLUMN] && env.metaPackage == inner.metaPackage
    requires RowFits(inner.columns, row) && RowFits(env.columns, row + [Number(k, 0)]) && IsInt32(k)
    ensures RowValues(env, row + [Number(k, 0)]) == RowValues(inner, row) + [VInt(k)]
  {
    var a, b := RowValues(env, row + [Number(k, 0)]), RowValues(inner, row) + [VInt(k)];
    forall j | 0 <= j < |a|
      ensures a[j] == b[j]
    {
      if j < |row| {
        assert env.columns[j] == inner.columns[j];
      } else {
        RownumReadsAsInt(inner.metaPackage, k);
      }
    }
  }

  /** A row converts the same way under any cursor with the same metadata. */
  lemma ConvertRowDependsOnMetadata(c1: Cursor, c2: Cursor, row: seq<Cell>, bMap: bool, byLabel: bool)
    requires c1.columns == c2.columns && c1.metaPackage == c2.metaPackage
    requires RowFits(c1.columns, row)
    ensures ConvertRow(c1, row, bMap, byLabel) == ConvertRow(c2, row, bMap, byLabel)
  {
    assert RowValues(c1, row) == RowValues(c2, row);
  }

  /**
   * Without an offset and with a non-negative max, the Oracle override returns
   * exactly the records the baseline search returns for the same answer.
   */
  lemma NoOffsetMatchesBaseline(inner: Cursor, start: int, max: int, bMap: bool, byLabel: bool)
    requires WellFormed(inner) && start <= 0 && max >= 0
    ensures WindowRecords(RownumEnvelope(inner, start, max), 0, max, bMap, byLabel)
            == WindowRecords(inner, start, max, bMap, byLabel)
  {
    var env := RownumEnvelope(inner, start, max);
    var a := WindowRecords(env, 0, max, bMap, byLabel);
    var b := WindowRecords(inner, start, max, bMap, byLabel);
    assert |a| == |b|;
    forall i | 0 <= i < |a|
      ensures a[i] == b[i]
    {
      assert env.rows[i] == inner.rows[i];
      ConvertRowDependsOnMetadata(env, inner, inner.rows[i], bMap, byLabel);
    }
  }

  /** The value the driver gives for the appended row number. */
  lemma RownumReadsAsInt(mp: string, k: int)
    requires IsInt32(k)
    ensures GetRsObj(ROWNUM_COLUMN, mp, Number(k, 0)) == VInt(k)
  {
  }

  /**
   * With an offset and no overflow, the envelope holds as many rows as the
   * baseline window, each the inner row at the same window position plus its
   * 1-based number.
   */
  lemma OffsetEnvelopeRows(inner: Cursor, start: int, max: int)
    requires WellFormed(inner) && start > 0 && max >= 0 && IsInt32(start + max)
    ensures var env := RownumEnvelope(inner, start, max);
            |env.rows| == |Window(inner.rows, start, max)| <= max &&
            forall i :: 0 <= i < |env.rows| ==>
              start + i < |inner.rows| && env.rows[i] == inner.rows[start + i] + [Number(start + i + 1, 0)]
  {
    assert ToInt32(start + max) == start + max;
  }

  /**
   * With an offset, a non-negative max and no overflow in start + max, each
   * array record of the Oracle override is the baseline's record at the same
   * position followed by its 1-based row number.
   */
  lemma OffsetMatchesBaselinePlusRownum(inner: Cursor, start: int, max: int)
    requires WellFormed(inner) && start > 0 && max >= 0 && IsInt32(start + max)
    ensures var ora := WindowRecords(RownumEnvelope(inner, start, max), 0, max, false, false);
            var base := WindowRecords(inner, start, max, false, false);
            |ora| == |base| &&
            forall i :: 0 <= i < |ora| ==> ora[i].values == base[i].values + [VInt(start + i + 1)]
  {
    var env := RownumEnvelope(inner, start, max);
    OffsetEnvelopeRows(inner, start, max);
    var ora := WindowRecords(env, 0, max, false, false);
    var base := WindowRecords(inner, start, max, false, false);
    forall i | 0 <= i < |ora|
      ensures ora[i].values == base[i].values + [VInt(start + i + 1)]
    {
      OffsetRecordAt(inner, start, max, i);
    }
  }

  /** One position of the offset window: the envelope's record is the baseline's plus the row number. */
  lemma OffsetRecordAt(inner: Cursor, start: int, max: int, i: int)
    requires WellFormed(inner) && start > 0 && max >= 0 && IsInt32(start + max)
    requires 0 <= i < |Window(inner.rows, start, max)|
    ensures var env := RownumEnvelope(inner, start, max);
            0 <= i < |Window(env.rows, 0, max)| &&
            WindowRecords(env, 0, max, false, false)[i].values
              == WindowRecords(inner, start, max, false, false)[i].values + [VInt(start + i + 1)]
  {
    var env := RownumEnvelope(inner, start, max);
    OffsetEnvelopeRows(inner, start, max);
    assert Window(env.rows, 0, max) == env.rows;
    var row := inner.rows[start + i];
    assert Window(inner.rows, start, max)[i] == row;
    EnvelopeRowValues(inner, env, row, start + i + 1);
  }

  /**
   * A negative max: the baseline returns every row after the offset, the
   * Oracle envelope (rownum <= a negative bound) returns none.
   */
  lemma NegativeMaxDiverges(inner: Cursor, start: int, max: int, bMap: bool, byLabel: bool)
    requires WellFormed(inner) && start <= 0 && max < 0
    ensures WindowRecords(RownumEnvelope(inner, start, max), 0, max, bMap, byLabel) == []
    ensures |WindowRecords(inner, start, max, bMap, byLabel)| == |inner.rows|
  {
  }

  /**
   * An offset whose sum with max overflows: the bound wraps negative and the
   * Oracle envelope returns nothing, while the baseline still windows the rows.
   */
  lemma OverflowingBoundReturnsNothing(inner: Cursor, start: int, max: int, bMap: bool, byLabel: bool)
    requires WellFormed(inner) && IsInt32(start) && IsInt32(max) && start > 0 && max > 0 && start + max > INT_MAX
    ensures WindowRecords(RownumEnvelope(inner, start, max), 0, max, bMap, byLabel) == []
  {
    assert ToInt32(start + max) == start + max - TWO_32;
  }
}
