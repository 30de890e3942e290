/** The DataSource the repositories are given, the database behind it, and
    the transaction manager bound to it: a connection pool, Spring's
    transaction synchronisation (one connection per open transaction) and
    commit/rollback, reduced to a snapshot of the member table. */
module Database {
  import opened Wrappers
  import opened MemberTable

  /** Where the driver fails, if at all, during one repository call:
      obtaining the connection, or preparing and executing the statement. */
  datatype Fault = NoFault | ConnectFault(e: SqlException) | ExecuteFault(e: SqlException)

  class DataSource {
    /** the member table as a connection sees it, writes of the open transaction included */
    var table: Table
    /** the table as it was when the open transaction began; None when none is open */
    var snapshot: Option<Table>

    ghost var taken: nat     // physical connections handed out by the pool
    ghost var returned: nat  // physical connections given back to the pool
    ghost var acquired: nat  // connections obtained by repository code
    ghost var released: nat  // connections released by repository code
    ghost var commits: nat
    ghost var rollbacks: nat

    /** Inside a transaction exactly one physical connection is out, shared
        by every repository call; outside, one per connection that
        repository code holds. */
    ghost predicate Valid()
      reads this
    {
      && released <= acquired
      && taken == returned + (if snapshot.Some? then 1 else acquired - released)
    }

    /** Valid, and no repository call holds a connection */
    ghost predicate Idle()
      reads this
    {
      Valid() && acquired == released
    }

    predicate InTransaction()
      reads this
    {
      snapshot.Some?
    }

    constructor (initial: Table)
      ensures Idle() && !InTransaction() && table == initial
      ensures taken == returned == acquired == released == commits == rollbacks == 0
    {
      table := initial;
      snapshot := None;
      taken, returned, acquired, released := 0, 0, 0, 0;
      commits, rollbacks := 0, 0;
    }

    /** `dataSource.getConnection()`: a fresh connection from the pool, or
        the SQLException of a ConnectFault */
    method GetConnection(fault: Fault) returns (connected: bool)
      requires Valid() && !InTransaction()
      modifies this`taken, this`acquired
      ensures Valid()
      ensures connected == !fault.ConnectFault?
      ensures acquired == old(acquired) + (if connected then 1 else 0)
      ensures taken == old(taken) + (if connected then 1 else 0)
    {
      connected := !fault.ConnectFault?;
      if connected {
        taken, acquired := taken + 1, acquired + 1;
      }
    }

    /** `JdbcUtils.closeConnection(con)` for a connection from GetConnection:
        it goes back to the pool */
    method CloseConnection()
      requires Valid() && !InTransaction() && released < acquired
      modifies this`returned, this`released
      ensures Valid()
      ensures released == old(released) + 1 && returned == old(returned) + 1
    {
      returned, released := returned + 1, released + 1;
    }

    /** `DataSourceUtils.getConnection(dataSource)`: the open transaction's
        connection, which cannot fail, or else a fresh one from the pool */
    method GetBoundConnection(fault: Fault) returns (connected: bool)
      requires Valid()
      modifies this`taken, this`acquired
      ensures Valid()
      ensures connected == (InTransaction() || !fault.ConnectFault?)
      ensures acquired == old(acquired) + (if connected then 1 else 0)
      ensures taken == old(taken) + (if connected && !InTransaction() then 1 else 0)
    {
      connected := InTransaction() || !fault.ConnectFault?;
      if connected {
        acquired := acquired + 1;
        if !InTransaction() {
          taken := taken + 1;
        }
      }
    }

    /** `DataSourceUtils.releaseConnection(con, dataSource)`: a transaction's
        connection stays with the transaction, any other goes back to the pool */
    method ReleaseBoundConnection()
      requires Valid() && released < acquired
      modifies this`returned, this`released
      ensures Valid()
      ensures released == old(released) + 1
      ensures returned == old(returned) + (if InTransaction() then 0 else 1)
    {
      released := released + 1;
      if !InTransaction() {
        returned := returned + 1;
      }
    }

    /** A statement that changed the table, run on a connection the caller holds */
    method Write(t: Table)
      requires released < acquired
      modifies this`table
      ensures table == t
    {
      table := t;
    }

    /** `transactionManager.getTransaction(...)`: takes a connection from the
        pool, binds it to the transaction and remembers the table for a rollback */
    method Begin()
      requires Idle() && !InTransaction()
      modifies this`snapshot, this`taken
      ensures Idle() && snapshot == Some(table)
      ensures taken == old(taken) + 1
    {
      snapshot := Some(table);
      taken := taken + 1;
    }

    /** `transactionManager.commit(status)`: the writes stay, the connection goes back */
    method Commit()
      requires Idle() && InTransaction()
      modifies this`snapshot, this`returned, this`commits
      ensures Idle() && !InTransaction()
      ensures returned == old(returned) + 1 && commits == old(commits) + 1
    {
      snapshot := None;
      returned, commits := returned + 1, commits + 1;
    }

    /** `transactionManager.rollback(status)`: the table returns to what it
        was when the transaction began, the connection goes back */
    method Rollback()
      requires Idle() && InTransaction()
      modifies this`table, this`snapshot, this`returned, this`rollbacks
      ensures Idle() && !InTransaction()
      ensures table == old(snapshot).value
      ensures returned == old(returned) + 1 && rollbacks == old(rollbacks) + 1
    {
      table := snapshot.value;
      snapshot := None;
      returned, rollbacks := returned + 1, rollbacks + 1;
    }
  }

  /** What every repository method guarantees about connections: it obtains
      at most one, releases what it obtained on every exit path, and leaves
      the transaction and everything else about the data source as it was. */
  twostate predicate ReleasedOnEveryPath(ds: DataSource, connected: bool)
    reads ds
  {
    && ds.Idle()
    && ds.snapshot == old(ds.snapshot)
    && ds.acquired == old(ds.acquired) + (if connected then 1 else 0)
    && ds.commits == old(ds.commits) && ds.rollbacks == old(ds.rollbacks)
  }
}
