/**
  Configuration values and the connection opener of the transfer tool.

  Opening a connection and asking the schema catalog whether a table exists
  are calls into the database driver; both appear here as oracle parameters.
 */
module Connection {
  import opened Wrappers

  /** One side of the transfer: a connection string and a table name. */
  datatype DB = DB(db: string, table: string)

  /** The whole configuration: both sides and the optional dump filter. */
  datatype Config = Config(source: DB, destination: DB, condition: string)

  /** Why opening a side can fail; each of these ends the process in the tool. */
  datatype OpenError =
    | ConnectFailed    // the driver could not connect
    | ExistsQueryFailed // the schema-catalog query itself failed
    | TableMissing     // the catalog says the table does not exist

  /**
    Connects to `dbConfig.db` and hands out the connection only when the
    catalog confirms that `dbConfig.table` exists. `connect` answers `None`
    when connecting fails; `tableExists` answers `None` when its query fails.
   */
  function OpenDB<C>(dbConfig: DB, connect: string -> Option<C>,
                     tableExists: (C, string) -> Option<bool>): (r: Result<C, OpenError>)
    ensures r.Success? <==>
              && connect(dbConfig.db).Some?
              && tableExists(connect(dbConfig.db).value, dbConfig.table) == Some(true)
    ensures r.Success? ==> connect(dbConfig.db) == Some(r.value)
    ensures r == Failure(ConnectFailed) <==> connect(dbConfig.db).None?
    ensures r == Failure(TableMissing) <==>
              && connect(dbConfig.db).Some?
              && tableExists(connect(dbConfig.db).value, dbConfig.table) == Some(false)
  {
    match connect(dbConfig.db)
    case None => Failure(ConnectFailed)
    case Some(conn) =>
      match tableExists(conn, dbConfig.table)
      case None => Failure(ExistsQueryFailed)
      case Some(present) =>
        if present then Success(conn) else Failure(TableMissing)
  }
}
