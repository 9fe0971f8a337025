/** What the model takes from SQLite, as plain data: the values a cursor
    returns, the rows of PRAGMA table_info, one catalog table with its
    creation statement and rows, and the outcome of executing a statement. */
module Engine {
  import opened Text

  /** One cell as sqlite3 returns it, keeping its storage class. */
  datatype Value =
    | Integer(i: int)
    | Real(r: real)
    | TextValue(t: string)
    | Null
    | Blob(bytes: seq<bv8>)

  type Row = seq<Value>

  /** One row of `PRAGMA table_info(t)`: (cid, name, type, notnull, dflt_value, pk). */
  datatype Column = Column(
    cid: int,
    name: string,
    declaredType: string,
    notNull: int,
    defaultValue: Option<string>,
    pk: int)

  /** One table of sqlite_master (type = 'table') as the catalog lists it:
      its name, its creation statement verbatim, its columns, and its rows in
      the order a plain `SELECT *` returns them. */
  datatype CatalogTable = CatalogTable(
    name: string,
    createSql: string,
    columns: seq<Column>,
    rows: seq<Row>)

  /** What happened when a statement was run on a database file: the connect,
      execute or fetch raised (with the exception's text), or it ran, giving
      the cursor's description (None for a statement without a result set)
      and every row fetched. */
  datatype Outcome =
    | Failed(message: string)
    | Ran(description: Option<seq<string>>, rows: seq<Row>)
}
