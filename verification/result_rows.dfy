/**
 * The statement-level helpers of the base executor (DbOpBase): how values are
 * bound to a prepared statement, how a fetched cell becomes a Java value, how
 * a row becomes a record, and the start/max fetch loop every search runs.
 */
module ResultRows {
  import opened Common
  import opened Jdbc

  // ===========================================================================
  // Binding values (preparedStatementSetValues)

  function BindOf(v: Value): Bind {
    if v.VDate? then BindTimestamp(v.millis) else BindObject(v)
  }

  /** The Java object a bind hands to the driver, read back. */
  function BoundValue(b: Bind): Value {
    match b
    case BindTimestamp(ms) => VDate(ms)
    case BindObject(v) => v
  }

  /**
   * Position i+1 receives values[i]: a Date as a Timestamp of the same
   * instant, anything else as itself.
   */
  function SetValues(values: seq<Value>): (binds: seq<Bind>)
    ensures |binds| == |values|
    ensures forall i :: 0 <= i < |values| ==> BoundValue(binds[i]) == values[i]
    ensures forall i :: 0 <= i < |values| ==> (binds[i].BindTimestamp? <==> values[i].VDate?)
  {
    seq(|values|, i requires 0 <= i < |values| => BindOf(values[i]))
  }

  /** The binds of a condition's value list, which is applied only when non-null. */
  function CondBinds(condValues: Option<seq<Value>>): seq<Bind> {
    if condValues.Some? then SetValues(condValues.value) else []
  }

  // ===========================================================================
  // Value coercion (getRsObj)

  const ORACLE_META_PACKAGE: string := "oracle.jdbc.driver"

  /** Integer division by ten, rounded toward zero (Java's `/`). */
  function Quot10(x: int): (q: int)
    ensures x >= 0 ==> 0 <= q <= x
    ensures x <= 0 ==> x <= q <= 0
  {
    if x >= 0 then x / 10 else -((-x) / 10)
  }

  function Pow10(n: nat): (p: nat)
    ensures p >= 1
  {
    if n == 0 then 1 else 10 * Pow10(n - 1)
  }

  /** Euclidean quotient and remainder are unique. */
  lemma DivUnique(u: int, d: int, q: int, r: int)
    requires d > 0 && 0 <= r < d && u == d * q + r
    ensures u / d == q
  {
    var q0, r0 := u / d, u % d;
    MulSub(d, q, q0);
    MulSign(d, q - q0);
  }

  lemma MulSub(d: int, x: int, y: int)
    ensures d * (x - y) == d * x - d * y
  {
  }

  lemma MulSign(d: int, x: int)
    requires d > 0
    ensures x >= 1 ==> d * x >= d
    ensures x <= -1 ==> d * x <= -d
  {
  }

  lemma MulAssocAdd(a: int, b: int, q: int, r: int)
    ensures a * (b * q + r) == (a * b) * q + a * r
  {
  }

  lemma RemainderFits(a: int, b: int, r2: int, r: int)
    requires 0 <= r2 < b && 0 <= r < a
    ensures 0 <= a * r2 + r < a * b
  {
    assert a * r2 <= a * (b - 1);
  }

  /** Dividing by a, then by b, is dividing by a * b. */
  lemma DivDiv(u: nat, a: nat, b: nat)
    requires a > 0 && b > 0
    ensures (u / a) / b == u / (a * b)
  {
    var q, r := u / a, u % a;
    var q2, r2 := q / b, q % b;
    MulAssocAdd(a, b, q2, r2);
    RemainderFits(a, b, r2, r);
    DivUnique(u, a * b, q2, a * r2 + r);
  }

  /**
   * The integer part of `unscaled / 10^scale`, rounded toward zero like
   * BigDecimal.intValue: one truncating division by ten per decimal place.
   */
  function TruncDecimal(unscaled: int, scale: nat): (t: int)
    ensures unscaled >= 0 ==> t == unscaled / Pow10(scale)
    ensures unscaled <= 0 ==> t == -((-unscaled) / Pow10(scale))
    ensures unscaled >= 0 ==> 0 <= t <= unscaled
    ensures unscaled <= 0 ==> unscaled <= t <= 0
    decreases scale
  {
    if scale == 0 then unscaled
    else
      DivDiv(if unscaled >= 0 then unscaled else -unscaled, 10, Pow10(scale - 1));
      TruncDecimal(Quot10(unscaled), scale - 1)
  }

  /** The quotient brackets the dividend. */
  lemma QuotBrackets(m: nat, p: nat)
    requires p > 0
    ensures (m / p) * p <= m < (m / p + 1) * p
  {
  }

  lemma NegMul(x: int, p: int)
    ensures (-x) * p == -(x * p) && (-x - 1) * p == -((x + 1) * p)
  {
  }

  /**
   * The quotient read as bounds: the magnitude of the integer part times
   * 10^scale never passes the unscaled value, and one more step would.
   */
  lemma TruncDecimalBrackets(unscaled: int, scale: nat)
    ensures var t, p := TruncDecimal(unscaled, scale), Pow10(scale);
            (unscaled >= 0 ==> t * p <= unscaled < (t + 1) * p) &&
            (unscaled <= 0 ==> (t - 1) * p < unscaled <= t * p)
  {
    var p := Pow10(scale);
    var m := if unscaled >= 0 then unscaled else -unscaled;
    QuotBrackets(m, p);
    NegMul(m / p, p);
  }

  /** `rs.getInt`: the value narrowed to 32 bits, and 0 for SQL NULL. */
  function GetInt(c: Cell): (i: int)
    requires c.SqlNull? || c.Number?
    ensures IsInt32(i)
    ensures c.SqlNull? ==> i == 0
    ensures c.Number? && IsInt32(TruncDecimal(c.unscaled, c.scale)) ==> i == TruncDecimal(c.unscaled, c.scale)
  {
    if c.SqlNull? then 0 else ToInt32(TruncDecimal(c.unscaled, c.scale))
  }

  /** `rs.getObject`: SQL NULL is null, anything else the driver's own object. */
  function GetObject(c: Cell): (v: Value)
    ensures v == VNull <==> c.SqlNull?
  {
    if c.SqlNull? then VNull else VNative(c)
  }

  /**
   * getRsObj: the normalized value of one cell, by the column's type category.
   * NUMERIC(1) reads as a boolean only under the Oracle metadata class; BIGINT
   * is read with getInt and no null check.
   */
  function GetRsObj(col: Column, metaPackage: string, c: Cell): (v: Value)
    requires Conforms(col.sqlType, c)
    ensures v == VNull <==> c.SqlNull? && col.sqlType != BigInt
    ensures v.VBool? <==>
              col.sqlType == Numeric && col.precision == 1 && metaPackage == ORACLE_META_PACKAGE && c.Number?
    ensures v.VBool? ==> v.b == (c.unscaled != 0)
    ensures v.VInt? ==> IsInt32(v.i)
    ensures col.sqlType == BigInt && c.SqlNull? ==> v == VInt(0)
    ensures (CategoryOf(col.sqlType) in {NumericCat, BigIntCat, DecimalCat} && c.Number? && !v.VBool?
             && IsInt32(TruncDecimal(c.unscaled, c.scale))) ==> v == VInt(TruncDecimal(c.unscaled, c.scale))
    ensures CategoryOf(col.sqlType) == BinaryCat && c.Bytes? ==> v == VDecoded(c.data)
    ensures CategoryOf(col.sqlType) == ClobCat && c.ClobText? ==> v == VText(c.text)
    ensures CategoryOf(col.sqlType) == InstantCat && c.Instant? ==> v == VDate(c.millis)
    ensures CategoryOf(col.sqlType) == PassCat ==> v == GetObject(c)
  {
    match CategoryOf(col.sqlType)
    case BinaryCat => if c.Bytes? then VDecoded(c.data) else VNull
    case ClobCat => if c.ClobText? then VText(c.text) else VNull
    case NumericCat =>
      if c.SqlNull? then VNull
      else if col.precision == 1 && metaPackage == ORACLE_META_PACKAGE then VBool(c.unscaled != 0)
      else VInt(GetInt(c))
    case BigIntCat => VInt(GetInt(c))
    case DecimalCat => if c.SqlNull? then VNull else VInt(ToInt32(TruncDecimal(c.unscaled, c.scale)))
    case InstantCat => if c.Instant? then VDate(c.millis) else VNull
    case PassCat => GetObject(c)
  }

  /**
   * A number read through getInt or intValue is the quotient of its unscaled
   * value by 10^scale, rounded toward zero, whenever that fits 32 bits.
   */
  lemma NumberReadsAsQuotient(col: Column, metaPackage: string, c: Cell)
    requires Conforms(col.sqlType, c) && c.Number?
    requires CategoryOf(col.sqlType) in {NumericCat, BigIntCat, DecimalCat}
    requires !(col.sqlType == Numeric && col.precision == 1 && metaPackage == ORACLE_META_PACKAGE)
    ensures var p := Pow10(c.scale);
            (c.unscaled >= 0 && IsInt32(c.unscaled / p) ==> GetRsObj(col, metaPackage, c) == VInt(c.unscaled / p)) &&
            (c.unscaled <= 0 && IsInt32(-((-c.unscaled) / p)) ==>
               GetRsObj(col, metaPackage, c) == VInt(-((-c.unscaled) / p)))
  {
  }

  /** DECIMAL 12.75 reads as 12 and -12.75 as -12. */
  lemma DecimalTruncatesTowardZero(col: Column, metaPackage: string)
    requires col.sqlType == Decimal
    ensures GetRsObj(col, metaPackage, Number(1275, 2)) == VInt(12)
    ensures GetRsObj(col, metaPackage, Number(-1275, 2)) == VInt(-12)
  {
    assert Pow10(2) == 100;
  }

  // ===========================================================================
  // Rows to records

  /** The map key of a column: its name, or its display label for searchInLabel. */
  function ColumnKey(col: Column, byLabel: bool): string {
    if byLabel then col.columnLabel else col.name
  }

  function ColumnKeys(columns: seq<Column>, byLabel: bool): (keys: seq<string>)
    ensures |keys| == |columns|
    ensures forall j :: 0 <= j < |columns| ==> keys[j] == ColumnKey(columns[j], byLabel)
  {
    seq(|columns|, j requires 0 <= j < |columns| => ColumnKey(columns[j], byLabel))
  }

  /** The coerced values of one row, column by column. */
  function RowValues(c: Cursor, row: seq<Cell>): (vs: seq<Value>)
    requires RowFits(c.columns, row)
    ensures |vs| == |c.columns|
    ensures forall j :: 0 <= j < |row| ==> vs[j] == GetRsObj(c.columns[j], c.metaPackage, row[j])
  {
    seq(|row|, j requires 0 <= j < |row| => GetRsObj(c.columns[j], c.metaPackage, row[j]))
  }

  /** The index of the last occurrence of `k` in `keys`. */
  function LastIndex(keys: seq<string>, k: string): (j: nat)
    requires k in keys
    ensures j < |keys| && keys[j] == k
    ensures k !in keys[j + 1..]
  {
    var n := |keys| - 1;
    if keys[n] == k then n
    else
      assert keys == keys[..n] + [keys[n]];
      var j := LastIndex(keys[..n], k);
      assert keys[j + 1..] == keys[..n][j + 1..] + [keys[n]];
      j
  }

  /** With no duplicate after position j, the last occurrence of keys[j] is j. */
  lemma LastIndexOfUnrepeated(keys: seq<string>, j: nat)
    requires j < |keys| && keys[j] !in keys[j + 1..]
    ensures LastIndex(keys, keys[j]) == j
  {
    var l := LastIndex(keys, keys[j]);
    forall i | j < i < |keys|
      ensures keys[i] != keys[j]
    {
      assert keys[i] == keys[j + 1..][i - j - 1];
    }
    forall i | l < i < |keys|
      ensures keys[i] != keys[l]
    {
      assert keys[i] == keys[l + 1..][i - l - 1];
    }
  }

  /**
   * A HashMap filled by `put(keys[j], vals[j])` for j = 0, 1, ...: exactly the
   * keys are present, and each keeps the value of its last put.
   */
  function PutAll(keys: seq<string>, vals: seq<Value>): (m: map<string, Value>)
    requires |keys| == |vals|
    ensures forall k :: k in m <==> k in keys
    ensures forall k :: k in m ==> m[k] == vals[LastIndex(keys, k)]
  {
    if |keys| == 0 then map[]
    else
      var n := |keys| - 1;
      assert keys == keys[..n] + [keys[n]];
      PutAll(keys[..n], vals[..n])[keys[n] := vals[n]]
  }

  /** One fetched row as a map keyed by column name (or label) or as an array. */
  function ConvertRow(c: Cursor, row: seq<Cell>, bMap: bool, byLabel: bool): (r: Record)
    requires RowFits(c.columns, row)
    ensures r.MapRecord? <==> bMap
    ensures bMap ==> forall k :: k in r.fields <==> k in ColumnKeys(c.columns, byLabel)
    ensures bMap ==> forall k :: k in r.fields ==>
                       r.fields[k] == RowValues(c, row)[LastIndex(ColumnKeys(c.columns, byLabel), k)]
    ensures !bMap ==> r.values == RowValues(c, row)
  {
    if bMap then MapRecord(PutAll(ColumnKeys(c.columns, byLabel), RowValues(c, row)))
    else ArrayRecord(RowValues(c, row))
  }

  // ===========================================================================
  // The start/max window

  /** How many leading rows a window skips. */
  function Skip(start: int): nat {
    if start > 0 then start else 0
  }

  /**
   * The rows `start+1 .. start+max` (1-based) of a cursor: the first
   * max(start, 0) rows dropped, then at most `max` kept when max >= 0, all of
   * the rest when max < 0.
   */
  function Window<T>(rows: seq<T>, start: int, max: int): (w: seq<T>)
    ensures var avail := if Skip(start) <= |rows| then |rows| - Skip(start) else 0;
            |w| == if 0 <= max < avail then max else avail
    ensures forall i :: 0 <= i < |w| ==> Skip(start) + i < |rows| && w[i] == rows[Skip(start) + i]
    ensures max == 0 ==> w == []
    ensures max < 0 && Skip(start) <= |rows| ==> w == rows[Skip(start)..]
  {
    var s := Skip(start);
    var rest := if s <= |rows| then rows[s..] else [];
    if 0 <= max < |rest| then rest[..max] else rest
  }

  /** The records a search returns for a window of a cursor. */
  function WindowRecords(c: Cursor, start: int, max: int, bMap: bool, byLabel: bool): (recs: seq<Record>)
    requires WellFormed(c)
    ensures |recs| == |Window(c.rows, start, max)|
    ensures forall i :: 0 <= i < |recs| ==>
              RowFits(c.columns, Window(c.rows, start, max)[i]) &&
              recs[i] == ConvertRow(c, Window(c.rows, start, max)[i], bMap, byLabel)
  {
    var w := Window(c.rows, start, max);
    seq(|w|, i requires 0 <= i < |w| => ConvertRow(c, w[i], bMap, byLabel))
  }

  /**
   * The fetch loop of search, searchInLabel and the Oracle override, run over
   * a cursor: row by row, it stops once `max` rows are kept, keeps a row once
   * its start counter has reached `start`, and otherwise advances the counter.
   * The counter begins at `counter0` (0 in the baseline, start in the Oracle
   * override), so the loop returns the window that skips start - counter0 rows.
   */
  method FetchRows(c: Cursor, start: int, max: int, counter0: int, bMap: bool, byLabel: bool)
    returns (ret: seq<Record>)
    requires WellFormed(c)
    ensures ret == WindowRecords(c, start - counter0, max, bMap, byLabel)
  {
    var skip := Skip(start - counter0);
    var taken: seq<seq<Cell>> := [];
    var startCounter := counter0;
    var fetchCount := 0;
    var idx := 0;
    while idx < |c.rows|
      invariant 0 <= idx <= |c.rows|
      invariant startCounter == counter0 + (if idx < skip then idx else skip)
      invariant taken == if idx <= skip then [] else c.rows[skip..idx]
      invariant fetchCount == |taken|
      invariant max >= 0 ==> fetchCount <= max
    {
      if fetchCount == max {
        break;
      }
      if startCounter >= start {
        taken := taken + [c.rows[idx]];
        fetchCount := fetchCount + 1;
      } else {
        startCounter := startCounter + 1;
      }
      idx := idx + 1;
    }
    assert taken == Window(c.rows, start - counter0, max);
    ret := seq(|taken|, i requires 0 <= i < |taken| => ConvertRow(c, taken[i], bMap, byLabel));
  }
}
