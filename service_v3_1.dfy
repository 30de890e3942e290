/** MemberServiceV3_1: accountTransfer with the transaction manager called
    by hand. It begins a transaction, runs bizLogic, commits on a normal
    return, and on any exception rolls back and throws an
    IllegalStateException wrapping it. */
module ServiceV3_1 {
  import opened Wrappers
  import opened JavaInt
  import opened MemberTable
  import opened Database
  import opened RepositoryV4_2
  import opened Transfer

  /** accountTransfer as the caller sees it: the outcome and the table after
      the commit or the rollback */
  function AccountTransferEffect(t: Table, fromId: string, toId: string, money: Int32, faults: Faults): (Outcome<Failure>, Table)
  {
    var (o, t') := BizLogicEffect(t, fromId, toId, money, faults);
    if o.Pass? then (Pass, t') else (Fail(IllegalState(Some(o.error))), t)
  }

  class MemberServiceV3_1 {
    /** the transaction manager, modelled by the data source it manages */
    const transactionManager: DataSource
    const memberRepository: MemberRepositoryV4_2

    constructor (transactionManager: DataSource, memberRepository: MemberRepositoryV4_2)
      requires memberRepository.dataSource == transactionManager
      ensures this.transactionManager == transactionManager
      ensures this.memberRepository == memberRepository
      ensures memberRepository.dataSource == transactionManager
    {
      this.transactionManager := transactionManager;
      this.memberRepository := memberRepository;
    }

    /** `accountTransfer(fromId, toId, money)`: exactly one of commit and
        rollback, one connection for all of it, given back at the end. */
    method AccountTransfer(fromId: string, toId: string, money: Int32, faults: Faults) returns (r: Outcome<Failure>)
      requires memberRepository.dataSource == transactionManager
      requires transactionManager.Idle() && !transactionManager.InTransaction()
      modifies transactionManager
      ensures transactionManager.Idle() && !transactionManager.InTransaction()
      ensures (r, transactionManager.table)
              == AccountTransferEffect(old(transactionManager.table), fromId, toId, money, faults)
      ensures transactionManager.commits == old(transactionManager.commits) + (if r.Pass? then 1 else 0)
      ensures transactionManager.rollbacks == old(transactionManager.rollbacks) + (if r.Fail? then 1 else 0)
      ensures transactionManager.taken == old(transactionManager.taken) + 1
      ensures transactionManager.returned == old(transactionManager.returned) + 1
    {
      transactionManager.Begin();
      var outcome := BizLogic(memberRepository, fromId, toId, money, faults);
      if outcome.Pass? {
        transactionManager.Commit();
        r := Pass;
      } else {
        transactionManager.Rollback();
        r := Fail(IllegalState(Some(outcome.error)));
      }
    }
  }

  /** With both members present and a receiver other than "ex", the transfer
      commits the table bizLogic leaves: Moved, whose balances, pair sum and
      total the Transfer lemmas describe (including fromId == toId). */
  lemma TransferCommits(t: Table, fromId: string, toId: string, money: Int32)
    requires fromId in t && toId in t && toId != BlockedId
    ensures AccountTransferEffect(t, fromId, toId, money, NoFaults) == (Pass, Moved(t, fromId, toId, money))
  {
    BizLogicCompletes(t, fromId, toId, money);
  }

  /** A transfer to "ex" is rolled back, so the sender's write is undone, and
      the caller gets validation's exception wrapped once more. */
  lemma TransferToBlockedRollsBack(t: Table, fromId: string, money: Int32)
    requires fromId in t && BlockedId in t
    ensures AccountTransferEffect(t, fromId, BlockedId, money, NoFaults)
            == (Fail(IllegalState(Some(IllegalState(None)))), t)
  {
    BizLogicBlocked(t, fromId, money);
  }

  /** A missing member aborts before any write, with the table as it was and
      the NoSuchElementException as the cause. */
  lemma TransferMissingMember(t: Table, fromId: string, toId: string, money: Int32)
    requires fromId !in t || toId !in t
    ensures AccountTransferEffect(t, fromId, toId, money, NoFaults)
            == (Fail(IllegalState(Some(NoSuchElement(if fromId !in t then fromId else toId)))), t)
  {
    BizLogicMissingMember(t, fromId, toId, money);
  }

  /** Whatever fails, the table is as before the call and the caller gets an
      IllegalStateException whose cause is bizLogic's own exception. */
  lemma {:induction false} TransferFailureWrapped(t: Table, fromId: string, toId: string, money: Int32, faults: Faults)
    ensures var (o, t') := AccountTransferEffect(t, fromId, toId, money, faults);
      o.Fail? ==>
        && t' == t
        && o.error.IllegalState? && o.error.cause.Some?
        && var cause := o.error.cause.value;
           || cause == NoSuchElement(fromId)
           || cause == NoSuchElement(toId)
           || cause == IllegalState(None)
           || (cause.DataAccess? && cause.error.cause in Raised(faults))
  {
    BizLogicFailures(t, fromId, toId, money, faults);
  }

  /** Committed or not, no member other than the two is touched. */
  lemma {:induction false} TransferFrame(t: Table, fromId: string, toId: string, money: Int32, faults: Faults)
    ensures var t' := AccountTransferEffect(t, fromId, toId, money, faults).1;
      && t'.Keys == t.Keys
      && forall k :: k in t && k != fromId && k != toId ==> t'[k] == t[k]
  {
    BizLogicFrame(t, fromId, toId, money, faults);
  }
}
