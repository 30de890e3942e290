/** MemberRepositoryV1: CRUD on the member table, each call on a connection of
    its own taken from the DataSource, a failing SQLException rethrown as it
    is, and the connection closed in `finally`. */
module RepositoryV1 {
  import opened Wrappers
  import opened JavaInt
  import opened MemberTable
  import opened Database

  class MemberRepositoryV1 {
    const dataSource: DataSource

    constructor (dataSource: DataSource)
      ensures this.dataSource == dataSource
    {
      this.dataSource := dataSource;
    }

    /** The `insert`; returns the member it was given. A duplicate id is the
        constraint's SQLException. */
    method Save(member: Member, fault: Fault) returns (r: Result<Member, Failure>)
      requires dataSource.Idle() && !dataSource.InTransaction()
      modifies dataSource
      ensures ReleasedOnEveryPath(dataSource, !fault.ConnectFault?)
      ensures r.Ok? <==> fault.NoFault? && member.memberId !in old(dataSource.table)
      ensures r.Ok? ==> r.value == member
      ensures r.Ok? ==> dataSource.table == old(dataSource.table)[member.memberId := member.money]
      ensures r.Err? ==> dataSource.table == old(dataSource.table)
      ensures r.Err? ==> r.error == Sql(if fault.NoFault? then DuplicateKeyViolation else fault.e)
    {
      var connected := dataSource.GetConnection(fault);
      if !connected {
        // con is still null, so close(con, pstmt, null) has nothing to release
        return Err(Sql(fault.e));
      }
      if fault.ExecuteFault? {
        r := Err(Sql(fault.e));
      } else {
        match Insert(dataSource.table, member)
        case Ok(t) =>
          dataSource.Write(t);
          r := Ok(member);
        case Err(e) =>
          r := Err(Sql(e));
      }
      dataSource.CloseConnection();
    }

    /** The `select`: the stored row as a Member, or NoSuchElementException
        when no row matches. */
    method FindById(memberId: string, fault: Fault) returns (r: Result<Member, Failure>)
      requires dataSource.Idle() && !dataSource.InTransaction()
      modifies dataSource
      ensures ReleasedOnEveryPath(dataSource, !fault.ConnectFault?)
      ensures dataSource.table == old(dataSource.table)
      ensures r.Ok? <==> fault.NoFault? && memberId in dataSource.table
      ensures r.Ok? ==> r.value == Member(memberId, dataSource.table[memberId])
      ensures r.Err? ==> r.error == if fault.NoFault? then NoSuchElement(memberId) else Sql(fault.e)
    {
      var connected := dataSource.GetConnection(fault);
      if !connected {
        return Err(Sql(fault.e));
      }
      if fault.ExecuteFault? {
        r := Err(Sql(fault.e));
      } else {
        match Select(dataSource.table, memberId)
        case Some(m) =>
          r := Ok(m);
        case None =>
          r := Err(NoSuchElement(memberId));
      }
      dataSource.CloseConnection();
    }

    /** The `update`; the affected-row count is not looked at, so an absent
        id is not an error. */
    method Update(memberId: string, money: Int32, fault: Fault) returns (r: Outcome<Failure>)
      requires dataSource.Idle() && !dataSource.InTransaction()
      modifies dataSource
      ensures ReleasedOnEveryPath(dataSource, !fault.ConnectFault?)
      ensures r == if fault.NoFault? then Pass else Fail(Sql(fault.e))
      ensures dataSource.table == if r.Pass? then SetMoney(old(dataSource.table), memberId, money)
                                  else old(dataSource.table)
    {
      var connected := dataSource.GetConnection(fault);
      if !connected {
        return Fail(Sql(fault.e));
      }
      if fault.ExecuteFault? {
        r := Fail(Sql(fault.e));
      } else {
        dataSource.Write(SetMoney(dataSource.table, memberId, money));
        r := Pass;
      }
      dataSource.CloseConnection();
    }

    /** The `delete`; removing an absent id is not an error either. */
    method Delete(memberId: string, fault: Fault) returns (r: Outcome<Failure>)
      requires dataSource.Idle() && !dataSource.InTransaction()
      modifies dataSource
      ensures ReleasedOnEveryPath(dataSource, !fault.ConnectFault?)
      ensures r == if fault.NoFault? then Pass else Fail(Sql(fault.e))
      ensures dataSource.table == if r.Pass? then Remove(old(dataSource.table), memberId)
                                  else old(dataSource.table)
    {
      var connected := dataSource.GetConnection(fault);
      if !connected {
        return Fail(Sql(fault.e));
      }
      if fault.ExecuteFault? {
        r := Fail(Sql(fault.e));
      } else {
        dataSource.Write(Remove(dataSource.table, memberId));
        r := Pass;
      }
      dataSource.CloseConnection();
    }
  }

  /** The repository's CRUD test: save, find, update, find, delete, find. */
  method CrudScenario(repository: MemberRepositoryV1)
    returns (found: Result<Member, Failure>, updated: Result<Member, Failure>, deleted: Result<Member, Failure>)
    requires repository.dataSource.Idle() && !repository.dataSource.InTransaction()
    requires "memberV100" !in repository.dataSource.table
    modifies repository.dataSource
    ensures found == Ok(Member("memberV100", 10000))
    ensures updated.Ok? && updated.value.money == 20000
    ensures deleted == Err(NoSuchElement("memberV100"))
    ensures repository.dataSource.table == old(repository.dataSource.table)
    ensures repository.dataSource.Idle() && !repository.dataSource.InTransaction()
  {
    var member := Member("memberV100", 10000);
    var saved := repository.Save(member, NoFault);
    found := repository.FindById(member.memberId, NoFault);
    var _ := repository.Update(member.memberId, 20000, NoFault);
    updated := repository.FindById(member.memberId, NoFault);
    var _ := repository.Delete(member.memberId, NoFault);
    deleted := repository.FindById(member.memberId, NoFault);
    SaveUpdateDeleteRestores(old(repository.dataSource.table), member, 20000);
  }
}
