/** MemberServiceV4: accountTransfer under @Transactional. The transaction
    proxy begins a transaction, runs bizLogic, commits on a normal return and
    rolls back on a runtime exception, which it lets through unchanged. */
module ServiceV4 {
  import opened Wrappers
  import opened JavaInt
  import opened MemberTable
  import opened Database
  import opened RepositoryV4_2
  import opened Transfer

  /** accountTransfer as the caller sees it: the outcome and the table after
      the commit or the rollback */
  function AccountTransferEffect(t: Table, fromId: string, toId: string, money: Int32, faults: Faults): (Outcome<Failure>, Table)
  {
    var (o, t') := BizLogicEffect(t, fromId, toId, money, faults);
    if o.Pass? then (Pass, t') else (o, t)
  }

  class MemberServiceV4 {
    const memberRepository: MemberRepositoryV4_2

    constructor (memberRepository: MemberRepositoryV4_2)
      ensures this.memberRepository == memberRepository
    {
      this.memberRepository := memberRepository;
    }

    /** `accountTransfer(fromId, toId, money)` together with its transaction
        proxy: exactly one of commit and rollback, one connection for all of
        it, given back at the end. */
    method AccountTransfer(fromId: string, toId: string, money: Int32, faults: Faults) returns (r: Outcome<Failure>)
      requires memberRepository.dataSource.Idle() && !memberRepository.dataSource.InTransaction()
      modifies memberRepository.dataSource
      ensures memberRepository.dataSource.Idle() && !memberRepository.dataSource.InTransaction()
      ensures (r, memberRepository.dataSource.table)
              == AccountTransferEffect(old(memberRepository.dataSource.table), fromId, toId, money, faults)
      ensures memberRepository.dataSource.commits == old(memberRepository.dataSource.commits) + (if r.Pass? then 1 else 0)
      ensures memberRepository.dataSource.rollbacks == old(memberRepository.dataSource.rollbacks) + (if r.Fail? then 1 else 0)
      ensures memberRepository.dataSource.taken == old(memberRepository.dataSource.taken) + 1
      ensures memberRepository.dataSource.returned == old(memberRepository.dataSource.returned) + 1
    {
      var dataSource := memberRepository.dataSource;
      dataSource.Begin();
      r := BizLogic(memberRepository, fromId, toId, money, faults);
      if r.Pass? {
        dataSource.Commit();
      } else {
        dataSource.Rollback();
      }
    }
  }

  /** With both members present and a receiver other than "ex", the transfer
      commits the table bizLogic leaves: Moved, whose balances, pair sum and
      total the Transfer lemmas describe (including fromId == toId). */
  lemma TransferCommits(t: Table, fromId: string, toId: string, money: Int32)
    requires fromId in t && toId in t && toId != BlockedId
    ensures AccountTransferEffect(t, fromId, toId, money, NoFaults) == (Pass, Moved(t, fromId, toId, money))
  {
    BizLogicCompletes(t, fromId, toId, money);
  }

  /** A transfer to "ex" throws validation's IllegalStateException, and the
      rollback undoes the sender's write. */
  lemma TransferToBlockedRollsBack(t: Table, fromId: string, money: Int32)
    requires fromId in t && BlockedId in t
    ensures AccountTransferEffect(t, fromId, BlockedId, money, NoFaults) == (Fail(IllegalState(None)), t)
  {
    BizLogicBlocked(t, fromId, money);
  }

  /** A missing member aborts with NoSuchElementException and the table as it was. */
  lemma TransferMissingMember(t: Table, fromId: string, toId: string, money: Int32)
    requires fromId !in t || toId !in t
    ensures AccountTransferEffect(t, fromId, toId, money, NoFaults)
            == (Fail(NoSuchElement(if fromId !in t then fromId else toId)), t)
  {
    BizLogicMissingMember(t, fromId, toId, money);
  }

  /** Whatever fails, the caller gets bizLogic's own exception, not wrapped,
      and the table as it was before the call. */
  lemma {:induction false} TransferFailurePropagates(t: Table, fromId: string, toId: string, money: Int32, faults: Faults)
    ensures var (o, t') := AccountTransferEffect(t, fromId, toId, money, faults);
      o.Fail? ==>
        && t' == t
        && (|| o.error == NoSuchElement(fromId)
            || o.error == NoSuchElement(toId)
            || o.error == IllegalState(None)
            || (o.error.DataAccess? && o.error.error.cause in Raised(faults)))
  {
    BizLogicFailures(t, fromId, toId, money, faults);
  }

  /** Committed or not, no member other than the two is touched. */
  lemma {:induction false} TransferFrame(t: Table, fromId: string, toId: string, money: Int32, faults: Faults)
    ensures var t' := AccountTransferEffect(t, fromId, toId, money, faults).1;
      && t'.Keys == t.Keys
      && forall k :: k in t && k != fromId && k != toId ==> t'[k] == t[k]
  {
    BizLogicFrame(t, fromId, toId, money, faults);
  }

  /** memberA and memberB start at 10000 each: 2000 from A to B leaves 8000
      and 12000; then 1000 from A to "ex" fails and A still has 8000. */
  lemma TutorialScenario(exMoney: Int32)
    ensures var t0 := map["memberA" := 10000, "memberB" := 10000, BlockedId := exMoney];
      var (o1, t1) := AccountTransferEffect(t0, "memberA", "memberB", 2000, NoFaults);
      var (o2, t2) := AccountTransferEffect(t1, "memberA", BlockedId, 1000, NoFaults);
      && o1 == Pass && t1["memberA"] == 8000 && t1["memberB"] == 12000
      && o2 == Fail(IllegalState(None)) && t2 == t1 && t2["memberA"] == 8000
  {
    var t0: Table := map["memberA" := 10000, "memberB" := 10000, BlockedId := exMoney];
    TransferCommits(t0, "memberA", "memberB", 2000);
    var t1 := AccountTransferEffect(t0, "memberA", "memberB", 2000, NoFaults).1;
    TransferToBlockedRollsBack(t1, "memberA", 1000);
  }
}
