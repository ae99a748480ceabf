/**
  The five commands of the tool (test, dump, load, transfer,
  transfer-names), as the statements each one issues against which side.

  Connecting, the catalog lookup, creating or opening the dump file,
  resolving its absolute path, executing a bulk-copy statement and reading
  the source table are outside calls; an `Env` and a `Cursor` supply their
  answers. A fatal condition, which makes the tool exit with status 1, is a
  `Failure`.
 */
module Commands {
  import opened Wrappers
  import opened Connection
  import opened CopyQueries
  import opened NameTransfer
  import opened SourceRead
  import NameTransferProps

  datatype Side = SourceSide | DestinationSide

  /** A statement sent to one side's connection. */
  datatype Statement = Statement(side: Side, sql: string)

  /** Conditions under which a command stops the process. */
  datatype Fatal =
    | OpenFailed(side: Side, reason: OpenError) // a side could not be opened
    | FileFailed                                 // the dump file could not be created or opened
    | CopyFailed(side: Side)                     // a bulk-copy statement was rejected
    | ReadFailed(readError: ReadError)           // the source rows could not be read

  /**
    Answers of the outside calls: connecting, the table-existence query,
    whether the dump file can be created and whether it can be opened, the
    absolute path of a file (`None` when it cannot be resolved), and whether
    a statement executes without error on a side.
   */
  datatype Env<!C> = Env(
    connect: string -> Option<C>,
    tableExists: (C, string) -> Option<bool>,
    canCreate: string -> bool,
    canOpen: string -> bool,
    absPath: string -> Option<string>,
    exec: (Side, string) -> bool)

  /** The dump file the dump and transfer commands write. */
  function DumpCommandFile(config: Config): string
  {
    DumpFileName(config.source.table)
  }

  /** The dump file the load command reads. */
  function LoadCommandFile(config: Config): string
  {
    DumpFileName(config.destination.table)
  }

  /** The export of the configured source table into `path`. */
  function DumpStatement(config: Config, path: string): string
  {
    DumpQuery(config, config.source.table, path, config.condition)
  }

  /** The import of `path` into the configured destination table. */
  function LoadStatement(config: Config, path: string): string
  {
    LoadQuery(config.destination.table, path)
  }

  /**
    A separate load reads the file a separate dump wrote exactly when the
    source and destination tables have the same name.
   */
  lemma LoadReadsDumpedFile(config: Config)
    ensures LoadCommandFile(config) == DumpCommandFile(config) <==> config.source.table == config.destination.table
  {
  }

  function OpenSide<C>(config: Config, env: Env<C>, side: Side): Result<C, OpenError>
  {
    OpenDB(if side == SourceSide then config.source else config.destination, env.connect, env.tableExists)
  }

  /** `test`: opens the source, then the destination, and issues nothing. */
  function TestCommand<C>(config: Config, env: Env<C>): (r: Result<seq<Statement>, Fatal>)
    ensures r.Success? <==> OpenSide(config, env, SourceSide).Success? && OpenSide(config, env, DestinationSide).Success?
    ensures r.Success? ==> r.value == []
    ensures OpenSide(config, env, SourceSide).Failure? ==>
              r == Failure(OpenFailed(SourceSide, OpenSide(config, env, SourceSide).error))
  {
    match OpenSide(config, env, SourceSide)
    case Failure(e) => Failure(OpenFailed(SourceSide, e))
    case Success(_) =>
      match OpenSide(config, env, DestinationSide)
      case Failure(e) => Failure(OpenFailed(DestinationSide, e))
      case Success(_) => Success([])
  }

  /**
    `dump`: opens the source, creates the dump file and exports the
    (filtered) source table into it. When the absolute path cannot be
    resolved, the command returns without exporting anything and without
    a fatal error.
   */
  function DumpCommand<C>(config: Config, env: Env<C>): (r: Result<seq<Statement>, Fatal>)
    ensures r.Failure? <==>
              || OpenSide(config, env, SourceSide).Failure?
              || !env.canCreate(DumpCommandFile(config))
              || (&& env.absPath(DumpCommandFile(config)).Some?
                  && !env.exec(SourceSide, DumpStatement(config, env.absPath(DumpCommandFile(config)).value)))
    ensures r.Failure? && OpenSide(config, env, SourceSide).Success? && env.canCreate(DumpCommandFile(config)) ==>
              r == Failure(CopyFailed(SourceSide))
    ensures r.Success? ==> |r.value| <= 1
    ensures r.Success? && r.value == [] <==> r.Success? && env.absPath(DumpCommandFile(config)).None?
    ensures r.Success? && |r.value| == 1 ==>
              var path := env.absPath(DumpCommandFile(config)).value;
              && r.value[0] == Statement(SourceSide, DumpStatement(config, path))
              && r.value[0].side == SourceSide
              && ('\'' !in path ==>
                    ParseDumpQuery(r.value[0].sql)
                    == Some(DumpParts(Selection(config.source.table, config.condition), path)))
  {
    match OpenSide(config, env, SourceSide)
    case Failure(e) => Failure(OpenFailed(SourceSide, e))
    case Success(_) =>
      var filename := DumpCommandFile(config);
      if !env.canCreate(filename) then Failure(FileFailed)
      else
        match env.absPath(filename)
        case None => Success([])
        case Some(path) =>
          var q := DumpStatement(config, path);
          if env.exec(SourceSide, q) then Success([Statement(SourceSide, q)]) else Failure(CopyFailed(SourceSide))
  }

  /**
    `load`: opens the destination, opens the dump file named after the
    DESTINATION table and imports it.
   */
  function LoadCommand<C>(config: Config, env: Env<C>): (r: Result<seq<Statement>, Fatal>)
    ensures r.Failure? <==>
              || OpenSide(config, env, DestinationSide).Failure?
              || !env.canOpen(LoadCommandFile(config))
              || (&& env.absPath(LoadCommandFile(config)).Some?
                  && !env.exec(DestinationSide, LoadStatement(config, env.absPath(LoadCommandFile(config)).value)))
    ensures r.Failure? && OpenSide(config, env, DestinationSide).Success? && env.canOpen(LoadCommandFile(config)) ==>
              r == Failure(CopyFailed(DestinationSide))
    ensures r.Success? ==> |r.value| <= 1
    ensures r.Success? && r.value == [] <==> r.Success? && env.absPath(LoadCommandFile(config)).None?
    ensures r.Success? && |r.value| == 1 ==>
              var path := env.absPath(LoadCommandFile(config)).value;
              && r.value[0] == Statement(DestinationSide, LoadStatement(config, path))
              && r.value[0].side == DestinationSide
              && ('\'' !in path ==>
                    ParseLoadQuery(r.value[0].sql) == Some(LoadParts(config.destination.table, path)))
  {
    match OpenSide(config, env, DestinationSide)
    case Failure(e) => Failure(OpenFailed(DestinationSide, e))
    case Success(_) =>
      var filename := LoadCommandFile(config);
      if !env.canOpen(filename) then Failure(FileFailed)
      else
        match env.absPath(filename)
        case None => Success([])
        case Some(path) =>
          var q := LoadStatement(config, path);
          if env.exec(DestinationSide, q) then Success([Statement(DestinationSide, q)])
          else Failure(CopyFailed(DestinationSide))
  }

  /**
    `transfer`: opens both sides, creates the dump file named after the
    SOURCE table, exports into it and, once the export has succeeded,
    imports the same path into the destination table.
   */
  function TransferCommand<C>(config: Config, env: Env<C>): (r: Result<seq<Statement>, Fatal>)
    ensures r.Failure? <==>
              || OpenSide(config, env, SourceSide).Failure?
              || OpenSide(config, env, DestinationSide).Failure?
              || !env.canCreate(DumpCommandFile(config))
              || (&& env.absPath(DumpCommandFile(config)).Some?
                  && (var path := env.absPath(DumpCommandFile(config)).value;
                      || !env.exec(SourceSide, DumpStatement(config, path))
                      || !env.exec(DestinationSide, LoadStatement(config, path))))
    // the import is only attempted after the export has succeeded
    ensures r == Failure(CopyFailed(DestinationSide)) ==>
              && env.absPath(DumpCommandFile(config)).Some?
              && env.exec(SourceSide, DumpStatement(config, env.absPath(DumpCommandFile(config)).value))
    ensures r.Success? ==> |r.value| == 0 || |r.value| == 2
    ensures r.Success? && r.value == [] <==> r.Success? && env.absPath(DumpCommandFile(config)).None?
    // within one transfer the import reads exactly the path the export wrote
    ensures r.Success? && |r.value| == 2 ==>
              var path := env.absPath(DumpCommandFile(config)).value;
              && r.value[0] == Statement(SourceSide, DumpStatement(config, path))
              && r.value[1] == Statement(DestinationSide, LoadStatement(config, path))
              && r.value[0].side == SourceSide
              && r.value[1].side == DestinationSide
              && ('\'' !in path ==>
                    && ParseDumpQuery(r.value[0].sql)
                       == Some(DumpParts(Selection(config.source.table, config.condition), path))
                    && ParseLoadQuery(r.value[1].sql) == Some(LoadParts(config.destination.table, path)))
  {
    match OpenSide(config, env, SourceSide)
    case Failure(e) => Failure(OpenFailed(SourceSide, e))
    case Success(_) =>
      match OpenSide(config, env, DestinationSide)
      case Failure(e) => Failure(OpenFailed(DestinationSide, e))
      case Success(_) =>
        var filename := DumpCommandFile(config);
        if !env.canCreate(filename) then Failure(FileFailed)
        else
          match env.absPath(filename)
          case None => Success([])
          case Some(path) =>
            var dq, lq := DumpStatement(config, path), LoadStatement(config, path);
            if !env.exec(SourceSide, dq) then Failure(CopyFailed(SourceSide))
            else if !env.exec(DestinationSide, lq) then Failure(CopyFailed(DestinationSide))
            else Success([Statement(SourceSide, dq), Statement(DestinationSide, lq)])
  }

  /**
    When both tables share a name and the dump file can be opened, a
    successful transfer issues exactly what a dump followed by a load
    would issue.
   */
  lemma TransferIsDumpThenLoad<C>(config: Config, env: Env<C>)
    requires config.source.table == config.destination.table
    requires env.canOpen(LoadCommandFile(config))
    ensures TransferCommand(config, env).Success? ==>
              && DumpCommand(config, env).Success?
              && LoadCommand(config, env).Success?
              && TransferCommand(config, env).value == DumpCommand(config, env).value + LoadCommand(config, env).value
  {
  }

  /**
    `transfer-names`: opens both sides, reads every source row (a failed
    read is fatal) and runs the reconciler against the current destination
    table `dest`, with `faults[i]` the database's answer for row `i`.
   */
  function TransferNamesCommand<C, Hash(==), Time, Meta>(
    config: Config, env: Env<C>, cursor: Cursor<NameRow<Hash, Time, Meta>>,
    dest: Table<Hash, Time, Meta>, faults: seq<Fault>): (r: Result<Run<Hash, Time, Meta>, Fatal>)
    requires ReadSourceRows(cursor).Success? ==> |faults| == |ReadSourceRows(cursor).value|
    ensures r.Failure? <==>
              || OpenSide(config, env, SourceSide).Failure?
              || OpenSide(config, env, DestinationSide).Failure?
              || ReadSourceRows(cursor).Failure?
    // a run only starts on a source read to its end, and is the reconciler over the rows read
    ensures r.Success? ==> !cursor.iterationError && |r.value.log| == |cursor.scans|
    ensures r.Success? ==> r.value == Reconcile(dest, ReadSourceRows(cursor).value, faults)
    ensures r.Success? ==> forall j :: |dest| <= j < |r.value.table| ==> r.value.table[j] in ReadSourceRows(cursor).value
    ensures r.Success? ==> dest <= r.value.table
    ensures r.Success? && UniqueKeys(dest) ==> UniqueKeys(r.value.table)
  {
    match OpenSide(config, env, SourceSide)
    case Failure(e) => Failure(OpenFailed(SourceSide, e))
    case Success(_) =>
      match OpenSide(config, env, DestinationSide)
      case Failure(e) => Failure(OpenFailed(DestinationSide, e))
      case Success(_) =>
        match ReadSourceRows(cursor)
        case Failure(e) => Failure(ReadFailed(e))
        case Success(rows) =>
          assert UniqueKeys(dest) ==> UniqueKeys(Reconcile(dest, rows, faults).table) by {
            if UniqueKeys(dest) {
              NameTransferProps.ReconcileKeepsUniqueKeys(dest, rows, faults);
            }
          }
          Success(Reconcile(dest, rows, faults))
  }

  /**
    A failure-free transfer-names run leaves the destination as it was,
    followed by each row read whose key is in neither the destination nor an
    earlier row read.
   */
  lemma TransferNamesAppendsMissing<C, Hash, Time, Meta>(
    config: Config, env: Env<C>, cursor: Cursor<NameRow<Hash, Time, Meta>>,
    dest: Table<Hash, Time, Meta>, faults: seq<Fault>)
    requires ReadSourceRows(cursor).Success? ==> |faults| == |ReadSourceRows(cursor).value|
    requires AllHealthy(faults)
    ensures TransferNamesCommand(config, env, cursor, dest, faults).Success? ==>
              TransferNamesCommand(config, env, cursor, dest, faults).value.table
              == dest + NameTransferProps.Missing(dest, ReadSourceRows(cursor).value)
  {
    if TransferNamesCommand(config, env, cursor, dest, faults).Success? {
      NameTransferProps.HealthyRunAppendsMissing(dest, ReadSourceRows(cursor).value, faults);
    }
  }
}
