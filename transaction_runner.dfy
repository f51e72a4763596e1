// The transaction runner every consistency transaction extends: the
// storage backend is classified once, from the data source's type, and each
// run goes through the SQL query-runner protocol or the document store's
// transaction callback. The transaction bodies are the Store methods; here a
// body is represented by the outcome it produces.

module TransactionRunner {
  import opened Model

  /** The two kinds of backend a transaction can run on. */
  datatype DatabaseKind = Sql | Mongo

  /** The data source types the constructor accepts as SQL. */
  const SqlTypes: seq<string> := ["postgres", "sqlite", "mysql", "sqljs", "better-sqlite3"]

  /** The constructor's classification of a data source type. */
  function Classify(sourceType: string): (r: Result<DatabaseKind>)
    ensures r == Ok(Sql) <==> sourceType in SqlTypes
    ensures r == Ok(Mongo) <==> sourceType == "mongodb"
    ensures r.Err? <==> sourceType !in SqlTypes && sourceType != "mongodb"
    ensures r.Err? ==> r.error == UnsupportedDatabaseConnection
  {
    if sourceType in SqlTypes then Ok(Sql)
    else if sourceType == "mongodb" then Ok(Mongo)
    else Err(UnsupportedDatabaseConnection)
  }

  /** What happens to a query runner, in order. */
  datatype Event =
    | Connected
    | Started
    | Executed
    | Committed
    | RolledBack
    | Released
    | MongoSession   // the document store's transaction wraps the body

  /** A query runner: whether it is connected, whether a transaction is
      open on it, whether it was released, and what was done to it. */
  class QueryRunner {
    var connected: bool
    var inTransaction: bool
    var released: bool
    var log: seq<Event>

    constructor()
      ensures !connected && !inTransaction && !released && log == []
    {
      connected, inTransaction, released, log := false, false, false, [];
    }

    method Connect()
      modifies this
      requires !released
      ensures connected && inTransaction == old(inTransaction) && !released
      ensures log == old(log) + [Connected]
    {
      connected := true;
      log := log + [Connected];
    }

    method StartTransaction()
      modifies this
      requires connected && !inTransaction && !released
      ensures connected && inTransaction && !released
      ensures log == old(log) + [Started]
    {
      inTransaction := true;
      log := log + [Started];
    }

    method CommitTransaction()
      modifies this
      requires connected && inTransaction && !released
      ensures connected && !inTransaction && !released
      ensures log == old(log) + [Committed]
    {
      inTransaction := false;
      log := log + [Committed];
    }

    method RollbackTransaction()
      modifies this
      requires connected && inTransaction && !released
      ensures connected && !inTransaction && !released
      ensures log == old(log) + [RolledBack]
    {
      inTransaction := false;
      log := log + [RolledBack];
    }

    method Release()
      modifies this
      requires !released
      ensures released && connected == old(connected) && inTransaction == old(inTransaction)
      ensures log == old(log) + [Released]
    {
      released := true;
      log := log + [Released];
    }

    /** Runs the body on the open transaction; its outcome is given. */
    method Execute<T>(outcome: Result<T>) returns (r: Result<T>)
      modifies this
      requires connected && inTransaction && !released
      ensures connected && inTransaction && !released
      ensures log == old(log) + [Executed] && r == outcome
    {
      log := log + [Executed];
      r := outcome;
    }
  }

  /** The event sequence of one SQL run: connect, start, run the body, then
      commit after success or roll back after failure, and release. */
  function SqlProtocol<T>(outcome: Result<T>): (log: seq<Event>)
  {
    [Connected, Started, Executed] + [if outcome.Ok? then Committed else RolledBack] + [Released]
  }

  /** The protocol releases the runner exactly once, last; it commits
      exactly the bodies that succeed and rolls back exactly the others. */
  lemma SqlProtocolShape<T>(outcome: Result<T>)
    ensures var log := SqlProtocol(outcome);
      multiset(log)[Released] == 1 && log[|log| - 1] == Released &&
      log[..3] == [Connected, Started, Executed] &&
      (multiset(log)[Committed] == 1 <==> outcome.Ok?) &&
      (multiset(log)[Committed] == 0 <==> outcome.Err?) &&
      (multiset(log)[RolledBack] == 1 <==> outcome.Err?) &&
      (multiset(log)[RolledBack] == 0 <==> outcome.Ok?)
  {
    var e := if outcome.Ok? then Committed else RolledBack;
    assert SqlProtocol(outcome) == [Connected, Started, Executed, e, Released];
  }

  /** A primary transaction: the backend kind the constructor settled on. */
  class PrimaryTransaction {
    const kind: DatabaseKind

    constructor(kind: DatabaseKind)
      ensures this.kind == kind
    {
      this.kind := kind;
    }

    /** runSqlTransaction: connect and start before the body runs; commit
        and return its result when it succeeds; otherwise roll back and
        rethrow the same error; release in every case. */
    method RunSql<T>(runner: QueryRunner, outcome: Result<T>) returns (r: Result<T>)
      modifies runner
      requires !runner.connected && !runner.inTransaction && !runner.released
      ensures runner.log == old(runner.log) + SqlProtocol(outcome)
      ensures runner.released && !runner.inTransaction
      ensures r == outcome
    {
      runner.Connect();
      runner.StartTransaction();
      var res := runner.Execute(outcome);
      if res.Ok? {
        runner.CommitTransaction();
        r := res;
      } else {
        runner.RollbackTransaction();
        r := Err(res.error);
      }
      runner.Release();
    }

    /** runMongoTransaction: the body runs inside the document store's
        transaction with that transaction's manager; its outcome is the
        run's. */
    method RunMongo<T>(runner: QueryRunner, outcome: Result<T>) returns (r: Result<T>)
      modifies runner
      ensures runner.log == old(runner.log) + [MongoSession]
      ensures runner.connected == old(runner.connected) && runner.released == old(runner.released)
      ensures r == outcome
    {
      runner.log := runner.log + [MongoSession];
      r := outcome;
    }

    /** run: dispatch on the backend kind. */
    method Run<T>(runner: QueryRunner, outcome: Result<T>) returns (r: Result<T>)
      modifies runner
      requires kind == Sql ==> !runner.connected && !runner.inTransaction && !runner.released
      ensures kind == Sql ==> runner.log == old(runner.log) + SqlProtocol(outcome)
      ensures kind == Mongo ==> runner.log == old(runner.log) + [MongoSession]
      ensures r == outcome
    {
      match kind
      case Sql => r := RunSql(runner, outcome);
      case Mongo => r := RunMongo(runner, outcome);
    }
  }

  /** The constructor: a transaction for a supported data source type, and
      the unsupported-connection error for any other. */
  method NewTransaction(sourceType: string) returns (r: Result<PrimaryTransaction>)
    ensures r.Err? <==> Classify(sourceType).Err?
    ensures r.Err? ==> r.error == UnsupportedDatabaseConnection
    ensures r.Ok? ==> fresh(r.value) && r.value.kind == Classify(sourceType).value
  {
    var kind := Classify(sourceType);
    if kind.Err? {
      return Err(kind.error);
    }
    var t := new PrimaryTransaction(kind.value);
    return Ok(t);
  }
}
