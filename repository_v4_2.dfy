/** MemberRepositoryV4_2: the same CRUD, on the connection bound to the open
    transaction (DataSourceUtils), with every SQLException handed to the
    exception translator and thrown as a DataAccessException. */
module RepositoryV4_2 {
  import opened Wrappers
  import opened JavaInt
  import opened MemberTable
  import opened Database

  /** Whether getConnection hands out a connection: inside a transaction the
      bound one, which cannot fail; outside it one from the pool. */
  predicate Connects(fault: Fault, inTransaction: bool) {
    inTransaction || !fault.ConnectFault?
  }

  /** What a call throws when the statement does not complete: DataSourceUtils
      wraps a failed connect in CannotGetJdbcConnectionException, which the
      `catch (SQLException e)` does not see; an SQLException from the
      statement goes through the translator. */
  function DriverFailure(fault: Fault, inTransaction: bool): (f: Failure)
    requires !fault.NoFault?
    ensures f.DataAccess? && f.error.cause == fault.e
    ensures f.error.CannotGetConnection? <==> !Connects(fault, inTransaction)
  {
    if !Connects(fault, inTransaction) then DataAccess(CannotGetConnection(fault.e))
    else DataAccess(Translate(fault.e))
  }

  /** The effective fault: inside a transaction a ConnectFault never happens */
  predicate Completes(fault: Fault, inTransaction: bool) {
    fault.NoFault? || (fault.ConnectFault? && inTransaction)
  }

  /** save: the new table, or what is thrown */
  function SaveResult(t: Table, member: Member, fault: Fault, inTransaction: bool): (r: Result<Table, Failure>)
    ensures r.Ok? <==> Completes(fault, inTransaction) && member.memberId !in t
    ensures r.Ok? ==> r.value == t[member.memberId := member.money]
    ensures r.Ok? ==> Select(r.value, member.memberId) == Some(member)
    ensures r.Err? ==> r.error.DataAccess?
    ensures r.Err? && Completes(fault, inTransaction) ==> r.error == DataAccess(DuplicateKey(DuplicateKeyViolation))
  {
    if !Completes(fault, inTransaction) then Err(DriverFailure(fault, inTransaction))
    else match Insert(t, member)
      case Ok(t') => Ok(t')
      case Err(e) => Err(DataAccess(Translate(e)))
  }

  /** findById: the stored member, or what is thrown. NoSuchElementException
      is not an SQLException and leaves untranslated. */
  function FindByIdResult(t: Table, memberId: string, fault: Fault, inTransaction: bool): (r: Result<Member, Failure>)
    ensures r.Ok? <==> Completes(fault, inTransaction) && memberId in t
    ensures r.Ok? ==> r.value == Member(memberId, t[memberId])
    ensures r.Err? ==> (r.error == NoSuchElement(memberId) <==> Completes(fault, inTransaction))
    ensures r.Err? && !r.error.NoSuchElement? ==> r.error.DataAccess?
  {
    if !Completes(fault, inTransaction) then Err(DriverFailure(fault, inTransaction))
    else match Select(t, memberId)
      case Some(m) => Ok(m)
      case None => Err(NoSuchElement(memberId))
  }

  /** update: the new table, or what is thrown; no matching row is only logged */
  function UpdateResult(t: Table, memberId: string, money: Int32, fault: Fault, inTransaction: bool): (r: Result<Table, Failure>)
    ensures r.Ok? <==> Completes(fault, inTransaction)
    ensures r.Ok? ==> r.value.Keys == t.Keys
    ensures r.Ok? && memberId in t ==> r.value[memberId] == money
    ensures r.Ok? ==> forall k :: k in t && k != memberId ==> r.value[k] == t[k]
    ensures r.Err? ==> r.error.DataAccess?
  {
    if !Completes(fault, inTransaction) then Err(DriverFailure(fault, inTransaction))
    else Ok(SetMoney(t, memberId, money))
  }

  /** delete: the new table, or what is thrown; no matching row is only logged */
  function DeleteResult(t: Table, memberId: string, fault: Fault, inTransaction: bool): (r: Result<Table, Failure>)
    ensures r.Ok? <==> Completes(fault, inTransaction)
    ensures r.Ok? ==> r.value.Keys == t.Keys - {memberId}
    ensures r.Ok? ==> forall k :: k in r.value ==> r.value[k] == t[k]
    ensures r.Err? ==> r.error.DataAccess?
  {
    if !Completes(fault, inTransaction) then Err(DriverFailure(fault, inTransaction))
    else Ok(Remove(t, memberId))
  }

  class MemberRepositoryV4_2 {
    const dataSource: DataSource

    constructor (dataSource: DataSource)
      ensures this.dataSource == dataSource
    {
      this.dataSource := dataSource;
    }

    method Save(member: Member, fault: Fault) returns (r: Result<Member, Failure>)
      requires dataSource.Idle()
      modifies dataSource
      ensures ReleasedOnEveryPath(dataSource, Connects(fault, old(dataSource.InTransaction())))
      ensures dataSource.taken == old(dataSource.taken)
                                 + (if Connects(fault, false) && !dataSource.InTransaction() then 1 else 0)
      ensures match SaveResult(old(dataSource.table), member, fault, dataSource.InTransaction())
              case Ok(t) => r == Ok(member) && dataSource.table == t
              case Err(e) => r == Err(e) && dataSource.table == old(dataSource.table)
    {
      var connected := dataSource.GetBoundConnection(fault);
      if !connected {
        return Err(DataAccess(CannotGetConnection(fault.e)));
      }
      if fault.ExecuteFault? {
        r := Err(DataAccess(Translate(fault.e)));
      } else {
        match Insert(dataSource.table, member)
        case Ok(t) =>
          dataSource.Write(t);
          r := Ok(member);
        case Err(e) =>
          r := Err(DataAccess(Translate(e)));
      }
      dataSource.ReleaseBoundConnection();
    }

    method FindById(memberId: string, fault: Fault) returns (r: Result<Member, Failure>)
      requires dataSource.Idle()
      modifies dataSource
      ensures ReleasedOnEveryPath(dataSource, Connects(fault, old(dataSource.InTransaction())))
      ensures dataSource.taken == old(dataSource.taken)
                                 + (if Connects(fault, false) && !dataSource.InTransaction() then 1 else 0)
      ensures dataSource.table == old(dataSource.table)
      ensures r == FindByIdResult(dataSource.table, memberId, fault, dataSource.InTransaction())
    {
      var connected := dataSource.GetBoundConnection(fault);
      if !connected {
        return Err(DataAccess(CannotGetConnection(fault.e)));
      }
      if fault.ExecuteFault? {
        r := Err(DataAccess(Translate(fault.e)));
      } else {
        match Select(dataSource.table, memberId)
        case Some(m) =>
          r := Ok(m);
        case None =>
          r := Err(NoSuchElement(memberId));
      }
      dataSource.ReleaseBoundConnection();
    }

    method Update(memberId: string, money: Int32, fault: Fault) returns (r: Outcome<Failure>)
      requires dataSource.Idle()
      modifies dataSource
      ensures ReleasedOnEveryPath(dataSource, Connects(fault, old(dataSource.InTransaction())))
      ensures dataSource.taken == old(dataSource.taken)
                                 + (if Connects(fault, false) && !dataSource.InTransaction() then 1 else 0)
      ensures match UpdateResult(old(dataSource.table), memberId, money, fault, dataSource.InTransaction())
              case Ok(t) => r == Pass && dataSource.table == t
              case Err(e) => r == Fail(e) && dataSource.table == old(dataSource.table)
    {
      var connected := dataSource.GetBoundConnection(fault);
      if !connected {
        return Fail(DataAccess(CannotGetConnection(fault.e)));
      }
      if fault.ExecuteFault? {
        r := Fail(DataAccess(Translate(fault.e)));
      } else {
        dataSource.Write(SetMoney(dataSource.table, memberId, money));
        r := Pass;
      }
      dataSource.ReleaseBoundConnection();
    }

    method Delete(memberId: string, fault: Fault) returns (r: Outcome<Failure>)
      requires dataSource.Idle()
      modifies dataSource
      ensures ReleasedOnEveryPath(dataSource, Connects(fault, old(dataSource.InTransaction())))
      ensures dataSource.taken == old(dataSource.taken)
                                 + (if Connects(fault, false) && !dataSource.InTransaction() then 1 else 0)
      ensures match DeleteResult(old(dataSource.table), memberId, fault, dataSource.InTransaction())
              case Ok(t) => r == Pass && dataSource.table == t
              case Err(e) => r == Fail(e) && dataSource.table == old(dataSource.table)
    {
      var connected := dataSource.GetBoundConnection(fault);
      if !connected {
        return Fail(DataAccess(CannotGetConnection(fault.e)));
      }
      if fault.ExecuteFault? {
        r := Fail(DataAccess(Translate(fault.e)));
      } else {
        dataSource.Write(Remove(dataSource.table, memberId));
        r := Pass;
      }
      dataSource.ReleaseBoundConnection();
    }
  }
}
