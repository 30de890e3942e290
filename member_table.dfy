/** The `member(member_id, money)` table, the four SQL statements the
    repositories issue against it, and the exceptions a caller can see. */
module MemberTable {
  import opened Wrappers
  import opened JavaInt

  /** `member_id` (the primary key) to `money` */
  type Table = map<string, Int32>

  /** hello.jdbc.domain.Member; equal when both fields are, as Lombok's @Data makes it */
  datatype Member = Member(memberId: string, money: Int32)

  /** What the JDBC driver reports as an SQLException: the primary-key
      constraint violated by an insert, or any other database error with its
      vendor error code. */
  datatype SqlException = DuplicateKeyViolation | OtherSqlError(errorCode: int)

  /** Spring's unchecked DataAccessException family, as the exception
      translator of MemberRepositoryV4_2 returns it: DuplicateKey is the
      translator's DuplicateKeyException for a primary-key violation. */
  datatype DataAccessError =
    | DuplicateKey(cause: SqlException)
    | CannotGetConnection(cause: SqlException)
    | DataAccessFailure(cause: SqlException)

  /** The exceptions that leave a repository or a service. */
  datatype Failure =
    | Sql(e: SqlException)                 // java.sql.SQLException, checked
    | NoSuchElement(memberId: string)      // java.util.NoSuchElementException
    | DataAccess(error: DataAccessError)   // org.springframework.dao.DataAccessException
    | IllegalState(cause: Option<Failure>) // java.lang.IllegalStateException, maybe wrapping a cause

  /** The exception translator: SQLErrorCodeSQLExceptionTranslator.translate
      reduced to the one distinction this code relies on. */
  function Translate(e: SqlException): (r: DataAccessError)
    ensures r.cause == e
    ensures r.DuplicateKey? <==> e == DuplicateKeyViolation
    ensures !r.CannotGetConnection?
  {
    if e == DuplicateKeyViolation then DuplicateKey(e) else DataAccessFailure(e)
  }

  /** `insert into member(member_id, money) values(?, ?)` */
  function Insert(t: Table, m: Member): (r: Result<Table, SqlException>)
    ensures r.Ok? <==> m.memberId !in t
    ensures r.Err? ==> r.error == DuplicateKeyViolation
    ensures r.Ok? ==> r.value.Keys == t.Keys + {m.memberId}
  {
    if m.memberId in t then Err(DuplicateKeyViolation) else Ok(t[m.memberId := m.money])
  }

  /** `select * from member where member_id = ?`, read through one `rs.next()` */
  function Select(t: Table, memberId: string): (r: Option<Member>)
    ensures r.Some? <==> memberId in t
    ensures r.Some? ==> r.value.memberId == memberId
  {
    if memberId in t then Some(Member(memberId, t[memberId])) else None
  }

  /** `update member set money = ? where member_id = ?`: no row matches an
      absent id, and the table stays as it is */
  function SetMoney(t: Table, memberId: string, money: Int32): (r: Table)
    ensures r.Keys == t.Keys
  {
    if memberId in t then t[memberId := money] else t
  }

  /** `delete from member where member_id = ?` */
  function Remove(t: Table, memberId: string): (r: Table)
    ensures r.Keys == t.Keys - {memberId}
  {
    t - {memberId}
  }

  /** A saved member is found again, equal to what was saved. */
  lemma SaveThenFind(t: Table, m: Member)
    requires m.memberId !in t
    ensures Insert(t, m).Ok?
    ensures Select(Insert(t, m).value, m.memberId) == Some(m)
  {
  }

  /** After an update the member has the new money, and no other row changes. */
  lemma UpdateThenFind(t: Table, memberId: string, money: Int32)
    requires memberId in t
    ensures Select(SetMoney(t, memberId, money), memberId) == Some(Member(memberId, money))
    ensures forall k :: k != memberId ==> Select(SetMoney(t, memberId, money), k) == Select(t, k)
  {
  }

  /** An update of an absent id changes nothing and is not an error. */
  lemma UpdateAbsentIsNoOp(t: Table, memberId: string, money: Int32)
    requires memberId !in t
    ensures SetMoney(t, memberId, money) == t
  {
  }

  /** A deleted member is not found any more, and no other row changes. */
  lemma DeleteThenFind(t: Table, memberId: string)
    ensures Select(Remove(t, memberId), memberId) == None
    ensures forall k :: k != memberId ==> Select(Remove(t, memberId), k) == Select(t, k)
  {
  }

  /** save, update and delete of a new member leave the table as it was. */
  lemma SaveUpdateDeleteRestores(t: Table, m: Member, money: Int32)
    requires m.memberId !in t
    ensures Insert(t, m).Ok?
    ensures Remove(SetMoney(Insert(t, m).value, m.memberId, money), m.memberId) == t
  {
    var t3 := Remove(SetMoney(Insert(t, m).value, m.memberId, money), m.memberId);
    assert forall k :: k in t3 <==> k in t;
  }
}
