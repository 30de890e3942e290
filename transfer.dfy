/** bizLogic and validation, the same in MemberServiceV3_1 and
    MemberServiceV4: read both members, write the sender's new balance,
    validate the receiver, write the receiver's new balance. */
module Transfer {
  import opened Wrappers
  import opened JavaInt
  import opened MemberTable
  import opened Database
  import opened RepositoryV4_2
  import opened Ledger

  /** the member id whose transfers fail on purpose */
  const BlockedId: string := "ex"

  /** `validation(toMember)`: an IllegalStateException for the blocked id */
  function Validation(toMember: Member): (r: Outcome<Failure>)
    ensures r.Fail? <==> toMember.memberId == BlockedId
    ensures r.Fail? ==> r.error == IllegalState(None)
  {
    if toMember.memberId == BlockedId then Fail(IllegalState(None)) else Pass
  }

  /** Where the driver fails in each of bizLogic's four repository calls. */
  datatype Faults = Faults(findFrom: Fault, findTo: Fault, updateFrom: Fault, updateTo: Fault)

  const NoFaults := Faults(NoFault, NoFault, NoFault, NoFault)

  /** the SQLExceptions the driver throws inside a transaction, where only
      the statements can fail */
  function Raised(faults: Faults): set<SqlException> {
    set f | f in [faults.findFrom, faults.findTo, faults.updateFrom, faults.updateTo] && f.ExecuteFault? :: f.e
  }

  /** bizLogic run inside a transaction: its outcome, and the table the
      transaction's connection sees when it returns or throws. */
  function BizLogicEffect(t: Table, fromId: string, toId: string, money: Int32, faults: Faults): (Outcome<Failure>, Table)
  {
    match FindByIdResult(t, fromId, faults.findFrom, true)
    case Err(e) => (Fail(e), t)
    case Ok(fromMember) =>
      match FindByIdResult(t, toId, faults.findTo, true)
      case Err(e) => (Fail(e), t)
      case Ok(toMember) =>
        match UpdateResult(t, fromId, Wrap(fromMember.money - money), faults.updateFrom, true)
        case Err(e) => (Fail(e), t)
        case Ok(t1) =>
          if Validation(toMember).Fail? then (Validation(toMember), t1)
          else match UpdateResult(t1, toId, Wrap(toMember.money + money), faults.updateTo, true)
            case Err(e) => (Fail(e), t1)
            case Ok(t2) => (Pass, t2)
  }

  /** `bizLogic(fromId, toId, money)` on a repository whose data source has a
      transaction open; all four calls share the transaction's connection. */
  method BizLogic(repository: MemberRepositoryV4_2, fromId: string, toId: string, money: Int32, faults: Faults)
    returns (r: Outcome<Failure>)
    requires repository.dataSource.Idle() && repository.dataSource.InTransaction()
    modifies repository.dataSource
    ensures repository.dataSource.Idle()
    ensures repository.dataSource.snapshot == old(repository.dataSource.snapshot)
    ensures repository.dataSource.taken == old(repository.dataSource.taken)
    ensures repository.dataSource.returned == old(repository.dataSource.returned)
    ensures repository.dataSource.commits == old(repository.dataSource.commits)
    ensures repository.dataSource.rollbacks == old(repository.dataSource.rollbacks)
    ensures (r, repository.dataSource.table) == BizLogicEffect(old(repository.dataSource.table), fromId, toId, money, faults)
  {
    var fromMember := repository.FindById(fromId, faults.findFrom);
    if fromMember.Err? {
      return Fail(fromMember.error);
    }
    var toMember := repository.FindById(toId, faults.findTo);
    if toMember.Err? {
      return Fail(toMember.error);
    }
    r := repository.Update(fromId, Wrap(fromMember.value.money - money), faults.updateFrom);
    if r.Fail? {
      return;
    }
    r := Validation(toMember.value);
    if r.Fail? {
      return;
    }
    r := repository.Update(toId, Wrap(toMember.value.money + money), faults.updateTo);
  }

  /** The table a completed transfer leaves: the sender's new balance is
      computed from the balance read first, the receiver's from the balance
      read second, and the receiver's is written last. */
  function Moved(t: Table, fromId: string, toId: string, money: Int32): (t': Table)
    requires fromId in t && toId in t
    ensures t'.Keys == t.Keys
    ensures t'[toId] == Wrap(t[toId] + money)
    ensures fromId != toId ==> t'[fromId] == Wrap(t[fromId] - money)
    ensures forall k :: k in t && k != fromId && k != toId ==> t'[k] == t[k]
  {
    t[fromId := Wrap(t[fromId] - money)][toId := Wrap(t[toId] + money)]
  }

  /** With both members present and no failure, bizLogic completes, and the
      table is Moved: both members were read before either write. */
  lemma BizLogicCompletes(t: Table, fromId: string, toId: string, money: Int32)
    requires fromId in t && toId in t && toId != BlockedId
    ensures BizLogicEffect(t, fromId, toId, money, NoFaults) == (Pass, Moved(t, fromId, toId, money))
  {
    var t1 := SetMoney(t, fromId, Wrap(t[fromId] - money));
    assert SetMoney(t1, toId, Wrap(t[toId] + money)) == Moved(t, fromId, toId, money);
  }

  /** A transfer to the blocked id throws from validation, after the sender's
      write. */
  lemma BizLogicBlocked(t: Table, fromId: string, money: Int32)
    requires fromId in t && BlockedId in t
    ensures BizLogicEffect(t, fromId, BlockedId, money, NoFaults).0 == Fail(IllegalState(None))
    ensures BizLogicEffect(t, fromId, BlockedId, money, NoFaults).1 == t[fromId := Wrap(t[fromId] - money)]
  {
  }

  /** A missing member is reported by findById before anything is written. */
  lemma BizLogicMissingMember(t: Table, fromId: string, toId: string, money: Int32)
    requires fromId !in t || toId !in t
    ensures BizLogicEffect(t, fromId, toId, money, NoFaults)
            == (Fail(NoSuchElement(if fromId !in t then fromId else toId)), t)
  {
  }

  /** What bizLogic throws: NoSuchElementException for one of the two ids, a
      DataAccessException carrying one of the injected SQLExceptions, or
      validation's IllegalStateException; never an SQLException. */
  lemma {:induction false} BizLogicFailures(t: Table, fromId: string, toId: string, money: Int32, faults: Faults)
    ensures var (o, _) := BizLogicEffect(t, fromId, toId, money, faults);
      o.Fail? ==>
        || o.error == NoSuchElement(fromId)
        || o.error == NoSuchElement(toId)
        || o.error == IllegalState(None)
        || (o.error.DataAccess? && o.error.error.cause in Raised(faults))
  {
  }

  /** bizLogic writes no member other than the two it is given, and adds or
      removes none. */
  lemma {:induction false} BizLogicFrame(t: Table, fromId: string, toId: string, money: Int32, faults: Faults)
    ensures var t' := BizLogicEffect(t, fromId, toId, money, faults).1;
      && t'.Keys == t.Keys
      && forall k :: k in t && k != fromId && k != toId ==> t'[k] == t[k]
  {
  }

  /** Between two distinct members the two balances keep their sum: always
      modulo 2^32, and exactly whenever neither new balance overflows. */
  lemma MovedKeepsPairSum(t: Table, fromId: string, toId: string, money: Int32)
    requires fromId in t && toId in t && fromId != toId
    ensures var t' := Moved(t, fromId, toId, money);
      && Congruent(t'[fromId] as int + t'[toId], t[fromId] as int + t[toId])
      && (InRange(t[fromId] - money) && InRange(t[toId] + money) ==>
            t'[fromId] as int + t'[toId] == t[fromId] as int + t[toId])
  {
    CongruentSum(Wrap(t[fromId] - money), t[fromId] - money, Wrap(t[toId] + money), t[toId] + money);
  }

  /** The converse does not hold: both writes can wrap, in opposite
      directions, and the pair's sum still comes out exact. */
  lemma PairSumExactDespiteOverflow()
    ensures var t := map["from" := MinInt, "to" := MaxInt];
      var t' := Moved(t, "from", "to", 1);
      && !InRange(t["from"] - 1) && !InRange(t["to"] + 1)
      && t'["from"] == MaxInt && t'["to"] == MinInt
      && t'["from"] as int + t'["to"] == t["from"] as int + t["to"]
  {
  }

  /** Between two distinct members the money of all members together is
      unchanged when neither new balance overflows. */
  lemma MovedKeepsTotal(t: Table, fromId: string, toId: string, money: Int32)
    requires fromId in t && toId in t && fromId != toId
    requires InRange(t[fromId] - money) && InRange(t[toId] + money)
    ensures Total(Moved(t, fromId, toId, money)) == Total(t)
  {
    var t1 := t[fromId := Wrap(t[fromId] - money)];
    TotalUpdate(t, fromId, t[fromId] - money);
    TotalUpdate(t1, toId, t[toId] + money);
  }

  /** A transfer from a member to itself does not cancel out: the account
      ends at its old balance plus money, and the total grows by money. */
  lemma MovedToSelfCreatesMoney(t: Table, memberId: string, money: Int32)
    requires memberId in t
    ensures Moved(t, memberId, memberId, money) == t[memberId := Wrap(t[memberId] + money)]
    ensures InRange(t[memberId] + money) ==> Total(Moved(t, memberId, memberId, money)) == Total(t) + money
  {
    TotalUpdate(t, memberId, Wrap(t[memberId] + money));
  }
}
