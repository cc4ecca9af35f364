/**
 * The JDBC objects the executors touch, as plain values: a result cursor is a
 * sequence of rows plus per-column metadata, a connection is only what the
 * executors ask of it, and every Java object a caller passes in or gets back
 * is one of a closed set of value kinds.
 */
module Jdbc {
  import opened Common

  /** java.sql.Types codes the coercion switch names, plus any code it does not name. */
  datatype SqlType =
    | LongVarBinary | VarBinary | Binary | Blob
    | Clob
    | Numeric | BigInt | Decimal
    | Date | Timestamp
    | Array | Bit | Boolean | Char | Datalink | Distinct | Double | Float | Integer
    | JavaObject | LongNVarChar | NChar | VarChar | LongVarChar | NClob | Null | NVarChar
    | Other | Real | Ref | RowId | SmallInt | SqlXml | Struct | Time | TinyInt
    | Unlisted(code: int)

  /** The branch of the coercion switch a column type falls into. */
  datatype Category = BinaryCat | ClobCat | NumericCat | BigIntCat | DecimalCat | InstantCat | PassCat

  function CategoryOf(t: SqlType): (k: Category)
    ensures k == BinaryCat <==> t in {LongVarBinary, VarBinary, Binary, Blob}
    ensures k == InstantCat <==> t in {Date, Timestamp}
    ensures k == ClobCat <==> t == Clob
  {
    match t
    case LongVarBinary | VarBinary | Binary | Blob => BinaryCat
    case Clob => ClobCat
    case Numeric => NumericCat
    case BigInt => BigIntCat
    case Decimal => DecimalCat
    case Date | Timestamp => InstantCat
    case _ => PassCat
  }

  /**
   * One cell as the driver holds it. Numbers are exact decimals
   * `unscaled / 10^scale`; an Opaque cell is any other driver object
   * (String, Double, Time, ...), identified only by a tag.
   */
  datatype Cell =
    | SqlNull
    | Bytes(data: seq<bv8>)
    | ClobText(text: string)
    | Number(unscaled: int, scale: nat)
    | Instant(millis: int)
    | Opaque(tag: string)

  /** The driver's contract: the accessor the switch calls finds the kind of cell it expects. */
  predicate Conforms(t: SqlType, c: Cell) {
    match CategoryOf(t)
    case BinaryCat => c.SqlNull? || c.Bytes?
    case ClobCat => c.SqlNull? || c.ClobText?
    case NumericCat | BigIntCat | DecimalCat => c.SqlNull? || c.Number?
    case InstantCat => c.SqlNull? || c.Instant?
    case PassCat => true
  }

  datatype Column = Column(name: string, columnLabel: string, sqlType: SqlType, precision: int)

  /**
   * A result set: column metadata, the package name of the metadata class
   * (the coercion consults it), and the rows in cursor order.
   */
  datatype Cursor = Cursor(columns: seq<Column>, metaPackage: string, rows: seq<seq<Cell>>)

  predicate RowFits(columns: seq<Column>, row: seq<Cell>) {
    |row| == |columns| && forall j :: 0 <= j < |row| ==> Conforms(columns[j].sqlType, row[j])
  }

  predicate WellFormed(c: Cursor) {
    forall i :: 0 <= i < |c.rows| ==> RowFits(c.columns, c.rows[i])
  }

  /**
   * A Java object handed to or returned by the layer. VDecoded is
   * `new String(bytes)` with the platform charset, whose decoding is not
   * modelled; VNative is a driver object passed through unchanged.
   */
  datatype Value =
    | VNull
    | VText(text: string)
    | VDecoded(data: seq<bv8>)
    | VInt(i: int)
    | VBool(b: bool)
    | VDate(millis: int)
    | VNative(cell: Cell)

  /** What one `setXXX(position, ...)` call on a prepared statement receives. */
  datatype Bind = BindTimestamp(millis: int) | BindObject(v: Value)

  /** How the insert statement was prepared with respect to generated keys. */
  datatype KeyRequest =
    | NoKeys                      // prepareStatement(sql)
    | ReturnColumns(cols: seq<string>)  // prepareStatement(sql, colList)
    | ReturnPrimaryKey(col: Option<string>)  // prepareStatement(sql, {primary key column found for the table})
    | ReturnGeneratedKeys         // prepareStatement(sql, RETURN_GENERATED_KEYS)

  /** A prepared statement: its text, the value at each position 1..n, its key request. */
  datatype Statement = Statement(sql: string, binds: seq<Bind>, keys: KeyRequest)

  /** The part of a connection the executors read: product and user name from its metadata. */
  datatype Connection = Connection(productName: string, userName: Option<string>)

  /** A fetched row as a column-keyed map or a positional array. */
  datatype Record = MapRecord(fields: map<string, Value>) | ArrayRecord(values: seq<Value>)
}
