# Member transfer over JDBC, modelled in Dafny

This project models the account-transfer workflow of a JDBC teaching
application and the member store it runs against. The store is a single
table `member(member_id, money)`. Two repositories work on it:

- `MemberRepositoryV1` takes a fresh connection per call and rethrows
  `SQLException` as it is.
- `MemberRepositoryV4_2` takes the connection bound to the open transaction
  and translates every `SQLException` into Spring's `DataAccessException`.

Two services move money between members:

- `MemberServiceV3_1` calls the transaction manager itself, and wraps any
  failure in `IllegalStateException`.
- `MemberServiceV4` relies on `@Transactional` and lets the failure through
  unchanged.

Both run the same `bizLogic`. It reads both members, writes the sender's
balance, validates the receiver (the id `"ex"` is refused), and then writes
the receiver's balance.

Modules:

- `JavaInt`: Java's 32-bit `int` and its wrap-around.
- `MemberTable`: the table, the four SQL statements, the exception kinds,
  and the exception translator.
- `Database`: the `DataSource` class. It holds the table, the open
  transaction as a snapshot of the table (commit keeps the table, rollback
  restores the snapshot), ghost counters for pool connections and for the
  connections repository code obtains and releases, and counters of commits
  and rollbacks.
- `RepositoryV1`, `RepositoryV4_2`: the repository classes. Their methods
  acquire a connection, run the statement and release the connection on
  every path.
- `Transfer`: `validation`, `bizLogic` (an imperative method proved against
  the pure `BizLogicEffect`), and the lemmas about balances.
- `Ledger`: the sum of all balances.
- `ServiceV3_1`, `ServiceV4`: the two `accountTransfer` methods, each with
  its effect function and its lemmas.

Failures of the database driver are inputs. A `Fault` says whether getting
the connection or executing the statement throws an `SQLException`. A
`Faults` value says this for each of the four repository calls in `bizLogic`.

The model follows the code on these points:

- `validation` throws `IllegalStateException` for the id `"ex"`
  (`IllegalState(None)`).
- V1 rethrows a duplicate id as the raw `SQLException`. V4_2 translates it
  into the translator's duplicate-key `DataAccessException`.
- `update` and `delete` of an absent id are silent no-ops.
- A transfer to `"ex"` reaches validation only when a member `"ex"` exists.
  Otherwise `findById` fails first with `NoSuchElementException`.
- `money` is Java `int`. `old - money` and `old + money` wrap modulo 2^32
  (`JavaInt.Wrap`). The sum of the two balances is therefore kept modulo
  2^32 always, and kept exactly whenever neither new balance overflows.
  Both can overflow, in opposite directions, and the sum still be exact.

## Model

| member | source | states |
|---|---|---|
| JavaInt.Wrap | src/main/java/hello/jdbc/service/MemberServiceV4.java:39-41 | Java's int result of `+`/`-`: equal to the mathematical value when it fits in 32 bits, and the same value modulo 2^32 always |
| MemberTable.Translate | src/main/java/hello/jdbc/repository/MemberRepositoryV4_2.java:54-55 | the translated error keeps the SQLException as its cause; it is the duplicate-key kind exactly for a primary-key violation |
| MemberTable.Insert | src/main/java/hello/jdbc/repository/MemberRepositoryV1.java:25-38 | the insert succeeds exactly when the id is new, and adds exactly that id; otherwise it is the duplicate-key SQLException |
| MemberTable.Select | src/main/java/hello/jdbc/repository/MemberRepositoryV1.java:50-71 | a row is found exactly when the id is in the table, and it carries that id |
| MemberTable.SetMoney | src/main/java/hello/jdbc/repository/MemberRepositoryV1.java:82-92 | the update never adds or removes a member id |
| MemberTable.Remove | src/main/java/hello/jdbc/repository/MemberRepositoryV1.java:103-112 | the delete removes exactly the given id |
| MemberTable.SaveThenFind | src/test/java/hello/jdbc/repository/MemberRepositoryV1Test.java:39-47 | finding a member just saved returns a member equal to the one saved |
| MemberTable.UpdateThenFind | src/test/java/hello/jdbc/repository/MemberRepositoryV1Test.java:50-52 | after an update, find returns the new money, and every other id is found as before |
| MemberTable.UpdateAbsentIsNoOp | src/main/java/hello/jdbc/repository/MemberRepositoryV1.java:92 | an update of an absent id leaves the table unchanged (no error) |
| MemberTable.DeleteThenFind | src/test/java/hello/jdbc/repository/MemberRepositoryV1Test.java:55-57 | after a delete, the id is not found, and every other id is found as before |
| MemberTable.SaveUpdateDeleteRestores | src/test/java/hello/jdbc/repository/MemberRepositoryV1Test.java:37-57 | save, update and delete of a new member give back exactly the table before |
| Database.DataSource.GetConnection | src/main/java/hello/jdbc/repository/MemberRepositoryV1.java:157-161 | a connection is obtained unless the connect fails; each one is a new pool connection |
| Database.DataSource.CloseConnection | src/main/java/hello/jdbc/repository/MemberRepositoryV1.java:125-129 | closing releases the held connection back to the pool, once |
| Database.DataSource.GetBoundConnection | src/main/java/hello/jdbc/repository/MemberRepositoryV4_2.java:185-191 | in a transaction the bound connection is reused (no new pool connection, cannot fail); outside one a pool connection is taken |
| Database.DataSource.ReleaseBoundConnection | src/main/java/hello/jdbc/repository/MemberRepositoryV4_2.java:151-156 | releasing keeps a transaction's connection with the transaction and returns any other to the pool |
| Database.DataSource.Write | src/main/java/hello/jdbc/repository/MemberRepositoryV1.java:92 | a statement changes the table only while its caller holds a connection |
| Database.DataSource.Begin | src/main/java/hello/jdbc/service/MemberServiceV3_1.java:30 | beginning takes one pool connection and records the table for a rollback |
| Database.DataSource.Commit | src/main/java/hello/jdbc/service/MemberServiceV3_1.java:39 | commit keeps the writes, closes the transaction and returns its connection |
| Database.DataSource.Rollback | src/main/java/hello/jdbc/service/MemberServiceV3_1.java:41 | rollback restores the table recorded at begin, closes the transaction and returns its connection |
| RepositoryV1.MemberRepositoryV1.Save | src/main/java/hello/jdbc/repository/MemberRepositoryV1.java:24-47 | returns exactly the member given, and the table gains it, exactly when there is no fault and the id is new; otherwise the table is unchanged and the SQLException is rethrown as it is; the connection is released on every path |
| RepositoryV1.MemberRepositoryV1.FindById | src/main/java/hello/jdbc/repository/MemberRepositoryV1.java:49-79 | returns the stored row when present; NoSuchElementException when absent; the SQLException unchanged on a fault; the table is untouched and the connection released |
| RepositoryV1.MemberRepositoryV1.Update | src/main/java/hello/jdbc/repository/MemberRepositoryV1.java:81-100 | sets the id's money (no-op for an absent id, not an error) unless a fault rethrows its SQLException; the connection is released |
| RepositoryV1.MemberRepositoryV1.Delete | src/main/java/hello/jdbc/repository/MemberRepositoryV1.java:102-122 | removes the id (absent id not an error) unless a fault rethrows its SQLException; the connection is released |
| RepositoryV1.CrudScenario | src/test/java/hello/jdbc/repository/MemberRepositoryV1Test.java:37-57 | the CRUD test through the repository's contracts: find after save gives the saved member, find after update gives 20000, find after delete throws NoSuchElementException, and the table ends as it began |
| RepositoryV4_2.DriverFailure | src/main/java/hello/jdbc/repository/MemberRepositoryV4_2.java:114-115 | a driver failure always reaches the caller as a DataAccessException carrying the SQLException; it is the cannot-get-connection kind exactly when the connect failed |
| RepositoryV4_2.SaveResult | src/main/java/hello/jdbc/repository/MemberRepositoryV4_2.java:38-63 | save succeeds exactly when the statement runs and the id is new, after which the table is the old one plus exactly that member, found as saved; every failure is a DataAccessException, a duplicate id the duplicate-key kind |
| RepositoryV4_2.FindByIdResult | src/main/java/hello/jdbc/repository/MemberRepositoryV4_2.java:66-98 | returns the stored id and money exactly when the statement runs and the id is present; NoSuchElementException exactly when the statement runs and the id is absent; every other failure is a DataAccessException |
| RepositoryV4_2.UpdateResult | src/main/java/hello/jdbc/repository/MemberRepositoryV4_2.java:101-123 | succeeds exactly when the statement runs (zero rows is not an error), setting the id's money and no other; failures are DataAccessExceptions |
| RepositoryV4_2.DeleteResult | src/main/java/hello/jdbc/repository/MemberRepositoryV4_2.java:126-148 | succeeds exactly when the statement runs (zero rows is not an error), removing only the id; failures are DataAccessExceptions |
| RepositoryV4_2.MemberRepositoryV4_2.Save | src/main/java/hello/jdbc/repository/MemberRepositoryV4_2.java:37-63 | returns the member given and stores it as SaveResult says, or throws its failure with the table unchanged; the connection is released on every path, and no new pool connection is taken inside a transaction |
| RepositoryV4_2.MemberRepositoryV4_2.FindById | src/main/java/hello/jdbc/repository/MemberRepositoryV4_2.java:65-98 | returns or throws as FindByIdResult says, with the table untouched; the connection is released on every path, and the transaction's connection is shared |
| RepositoryV4_2.MemberRepositoryV4_2.Update | src/main/java/hello/jdbc/repository/MemberRepositoryV4_2.java:100-123 | changes the table as UpdateResult says or throws with the table unchanged; the connection is released on every path, and the transaction's connection is shared |
| RepositoryV4_2.MemberRepositoryV4_2.Delete | src/main/java/hello/jdbc/repository/MemberRepositoryV4_2.java:125-148 | changes the table as DeleteResult says or throws with the table unchanged; the connection is released on every path, and the transaction's connection is shared |
| Transfer.Validation | src/main/java/hello/jdbc/service/MemberServiceV3_1.java:66-70 | throws IllegalStateException exactly for the member id "ex" |
| Transfer.BizLogic | src/main/java/hello/jdbc/service/MemberServiceV4.java:35-42 | the four repository calls, with early exit on the first exception, give exactly BizLogicEffect's outcome and table; all four share the transaction's connection (no pool connection taken or returned) and release what they take |
| Transfer.Moved | src/main/java/hello/jdbc/service/MemberServiceV4.java:36-41 | after both writes the receiver has its old balance plus money, a distinct sender its old balance minus money, and every other member is unchanged |
| Transfer.BizLogicCompletes | src/main/java/hello/jdbc/service/MemberServiceV3_1.java:46-53 | with both members present, no fault and a receiver other than "ex", bizLogic returns normally and leaves exactly the Moved table |
| Transfer.BizLogicBlocked | src/main/java/hello/jdbc/service/MemberServiceV3_1.java:50-51 | a transfer to "ex" throws IllegalStateException after the sender's write, which is still in the table |
| Transfer.BizLogicMissingMember | src/main/java/hello/jdbc/service/MemberServiceV3_1.java:47-48 | a missing sender (else receiver) throws NoSuchElementException for that id before any write |
| Transfer.BizLogicFailures | src/main/java/hello/jdbc/service/MemberServiceV4.java:35-48 | bizLogic throws only NoSuchElementException for one of the ids, validation's IllegalStateException, or a DataAccessException whose cause is one of the injected SQLExceptions |
| Transfer.BizLogicFrame | src/main/java/hello/jdbc/service/MemberServiceV3_1.java:46-53 | bizLogic adds and removes no member, and writes none but the two ids |
| Transfer.MovedKeepsPairSum | src/main/java/hello/jdbc/service/MemberServiceV4.java:39-41 | between distinct members the two balances keep their sum modulo 2^32 always, and exactly whenever neither new balance overflows |
| Transfer.PairSumExactDespiteOverflow | src/main/java/hello/jdbc/service/MemberServiceV4.java:39-41 | the no-overflow condition is sufficient, not necessary: from MinInt and MaxInt with money 1 both writes wrap, to MaxInt and MinInt, and the sum is unchanged |
| Transfer.MovedKeepsTotal | src/main/java/hello/jdbc/service/MemberServiceV4.java:39-41 | between distinct members, without overflow, the money of all members together is unchanged |
| Transfer.MovedToSelfCreatesMoney | src/main/java/hello/jdbc/service/MemberServiceV4.java:36-41 | from a member to itself only that balance changes, and it ends at old + money (not old); without overflow the total grows by money |
| ServiceV4.MemberServiceV4.AccountTransfer | src/main/java/hello/jdbc/service/MemberServiceV4.java:27-33 | one transaction per call on one pool connection, returned at the end; commit exactly on normal return, rollback exactly on an exception; outcome and table as AccountTransferEffect |
| ServiceV4.TransferCommits | src/main/java/hello/jdbc/service/MemberServiceV4.java:35-42 | both members present, receiver not "ex" (fromId == toId included): the transfer commits exactly the Moved table, whose balances, pair sum and total the Transfer lemmas state |
| ServiceV4.TransferToBlockedRollsBack | src/main/java/hello/jdbc/service/MemberServiceV4.java:39-40 | a transfer to "ex" throws IllegalStateException and the table is exactly as before the call |
| ServiceV4.TransferMissingMember | src/main/java/hello/jdbc/service/MemberServiceV4.java:36-37 | a missing id throws NoSuchElementException and the table is as before |
| ServiceV4.TransferFailurePropagates | src/main/java/hello/jdbc/service/MemberServiceV4.java:31-33 | on any failure the table is as before and the caller sees bizLogic's exception itself, not wrapped |
| ServiceV4.TransferFrame | src/main/java/hello/jdbc/service/MemberServiceV4.java:35-42 | no member other than fromId and toId is added, removed or changed |
| ServiceV4.TutorialScenario | src/main/java/hello/jdbc/service/MemberServiceV4.java:31-48 | memberA and memberB at 10000: 2000 from A to B gives 8000 and 12000; then 1000 from A to "ex" fails and A keeps 8000 |
| ServiceV3_1.MemberServiceV3_1.AccountTransfer | src/main/java/hello/jdbc/service/MemberServiceV3_1.java:27-44 | begins one transaction on one pool connection, returned at the end; commit exactly on success, rollback exactly on an exception, which is rethrown wrapped; outcome and table as AccountTransferEffect |
| ServiceV3_1.TransferCommits | src/main/java/hello/jdbc/service/MemberServiceV3_1.java:46-53 | both members present, receiver not "ex" (fromId == toId included): the transfer commits exactly the Moved table, whose balances, pair sum and total the Transfer lemmas state |
| ServiceV3_1.TransferToBlockedRollsBack | src/main/java/hello/jdbc/service/MemberServiceV3_1.java:40-42 | a transfer to "ex" is rolled back to the table before the call and throws IllegalStateException wrapping validation's IllegalStateException |
| ServiceV3_1.TransferMissingMember | src/main/java/hello/jdbc/service/MemberServiceV3_1.java:47-48 | a missing id leaves the table as before and throws IllegalStateException caused by NoSuchElementException for that id |
| ServiceV3_1.TransferFailureWrapped | src/main/java/hello/jdbc/service/MemberServiceV3_1.java:40-42 | on any failure the table is as before and the caller sees an IllegalStateException whose cause is bizLogic's exception |
| ServiceV3_1.TransferFrame | src/main/java/hello/jdbc/service/MemberServiceV3_1.java:46-53 | no member other than fromId and toId is added, removed or changed |

## Left out

- MemberRepositoryV3, the repository MemberServiceV3_1 is written against, is not part of this model. ServiceV3_1 runs over the transaction-bound repository of MemberRepositoryV4_2. So the cause it wraps is the translated DataAccessException where V3 would pass the raw SQLException.
- RepositoryV1.MemberRepositoryV1.Save: requires that no transaction is open. V1 takes a connection of its own, and how its writes interleave with another connection's open transaction is the database's isolation, which is not modelled.
- RepositoryV1.MemberRepositoryV1.FindById: requires that no transaction is open, for the same reason.
- RepositoryV1.MemberRepositoryV1.Update: requires that no transaction is open, for the same reason.
- RepositoryV1.MemberRepositoryV1.Delete: requires that no transaction is open, for the same reason.
- Database.DataSource.Begin: requires that no transaction is open. The source never nests transfers, so a transaction joining an outer one is not modelled.
- Failures of beginning, committing or rolling back a transaction are not modelled: the transaction manager's internals are not part of this model.
- JDBC driver objects are not modelled: `PreparedStatement`, `ResultSet`, parameter binding and SQL text. So the order in which `close` releases the result set, then the statement, then the connection is not modelled either. Connection release itself is modelled by the ghost counters.
- The exception translator's error-code table is reduced to one distinction: a primary-key violation versus any other error.
- `MyDuplicateKeyException`, thrown by no core file, is not modelled apart: `DuplicateKey` stands for the translator's duplicate-key `DataAccessException`.
- In a transaction, a `ConnectFault` has no effect. DataSourceUtils hands out the bound connection without asking the pool.
- Logging, pool sizing, acquisition timeouts, and concurrent transfers are not modelled. Concurrent transfers rely on the database's isolation.
- `@Transactional` rolls back only on unchecked exceptions. Every exception bizLogic can throw under V4 is unchecked, so the model rolls back on every failure.
- MemberRepositoryV5 is not part of this model: its behaviour lives in JdbcTemplate. Neither are the connection test, the unchecked-exception demonstration or the connection constants.
