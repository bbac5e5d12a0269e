/**
 * PhutilMySQLDatabaseConnection: the connection it holds, the result of
 * the last query, and the retry loop of `executeRawQuery`. Every `mysql_*`
 * call is a reply the model receives as a parameter.
 */
module MysqlConnection {
  import opened Php
  import opened MysqlEscape

  /** A MySQL link and a query result, as opaque handles. */
  type Link = nat
  type ResultSet = nat

  /** The three exception classes `throwQueryException` chooses from. */
  datatype FailureKind = ConnectionLost | Recoverable | Generic

  /** What the connection throws. */
  datatype QueryException =
    | ConnectionFailed                                    // PhutilQueryConnectionException: no link at all
    | QueryFailure(kind: FailureKind, message: string)    // thrown by throwQueryException

  /** What `mysql_connect` and `mysql_select_db` answer. */
  datatype ConnectReply =
    | Refused                                  // mysql_connect gave no link
    | SelectFailed(errno: int, error: string)  // the link cannot use the configured database
    | Connected(link: Link)

  /** What `mysql_query` answers. */
  datatype QueryReply = Rows(result: ResultSet) | Failed(errno: int, error: string)

  /** The replies one pass of the retry loop receives; `connect` is used only when no link is held. */
  datatype Attempt = Attempt(connect: ConnectReply, query: QueryReply)

  /** `throwQueryException`: the class picked by the error number, the message `#errno: error`. */
  function ThrowQueryException(errno: int, error: string): QueryException
  {
    var message := "#" + CodeAndText(errno, error);
    if errno == 2013 || errno == 2006 then QueryFailure(ConnectionLost, message)
    else if errno == 1213 || errno == 1205 then QueryFailure(Recoverable, message)
    else QueryFailure(Generic, message)
  }

  /** Only `PhutilQueryConnectionLostException` is caught by the retry loop. */
  predicate IsLost(e: QueryException)
  {
    e.QueryFailure? && e.kind == ConnectionLost
  }

  /**
   * The class is connection-lost exactly for 2013 and 2006, recoverable
   * exactly for 1213 and 1205, generic otherwise; the message starts with
   * `#` and reads back as the number and the error text.
   */
  lemma ThrowQueryExceptionKinds(errno: int, error: string)
    ensures var e := ThrowQueryException(errno, error);
      && e.QueryFailure?
      && (e.kind == ConnectionLost <==> errno == 2013 || errno == 2006)
      && (e.kind == Recoverable <==> errno == 1213 || errno == 1205)
      && (e.kind == Generic <==> !(errno in {2013, 2006, 1213, 1205}))
      && e.message[0] == '#'
      && ParseCodeAndText(e.message[1..]) == Some((errno, error))
  {
    var e := ThrowQueryException(errno, error);
    assert e.message[1..] == CodeAndText(errno, error);
    CodeAndTextRoundTrip(errno, error);
  }

  /** `establishConnection`: the link it leaves in place and what it throws, if anything. */
  function Establish(reply: ConnectReply): (Option<Link>, Option<QueryException>)
  {
    match reply
    case Refused => (None, Some(ConnectionFailed))
    case SelectFailed(errno, error) => (None, Some(ThrowQueryException(errno, error)))
    case Connected(link) => (Some(link), None)
  }

  /** The outcome of the `try` block of one pass of the retry loop. */
  datatype Outcome =
    | Stored(link: Link, result: ResultSet)
    | Raised(connection: Option<Link>, error: QueryException)

  /** One pass: connect if no link is held, then query; a failed query throws. */
  function Try(connection: Option<Link>, a: Attempt): Outcome
  {
    var (conn, thrown) := if connection.Some? then (connection, None) else Establish(a.connect);
    if thrown.Some? then Raised(conn, thrown.value)
    else
      match a.query
      case Rows(result) => Stored(conn.value, result)
      case Failed(errno, error) => Raised(conn, ThrowQueryException(errno, error))
  }

  /** What pass `k` of the retry loop does when it starts holding a given link. */
  type Passes = (Option<Link>, nat) -> Outcome

  /** The passes of `executeRawQuery` when pass `k` receives the replies `server(k)`. */
  function ServerPasses(server: nat -> Attempt): Passes
  {
    (connection: Option<Link>, k: nat) => Try(connection, server(k))
  }

  /** Where the retry loop ends: the link, the stored result, the exception, the passes made. */
  datatype Run = Run(connection: Option<Link>, lastResult: Option<ResultSet>, thrown: Option<QueryException>, attempts: nat)

  /**
   * The retry loop from pass `attempt` on, with `retries` passes left: a
   * result ends it; a lost connection is retried with no link unless no
   * pass is left or a transaction is open; anything else is thrown.
   */
  function Retry(connection: Option<Link>, insideTransaction: bool, pass: Passes, attempt: nat, retries: nat): Run
    decreases retries
  {
    if retries == 0 then Run(connection, None, None, attempt)
    else
      match pass(connection, attempt)
      case Stored(link, result) => Run(Some(link), Some(result), None, attempt + 1)
      case Raised(conn, e) =>
        if IsLost(e) && retries - 1 != 0 && !insideTransaction then
          Retry(None, insideTransaction, pass, attempt + 1, retries - 1)
        else Run(conn, None, Some(e), attempt + 1)
  }

  /**
   * With at least one pass left the loop makes at least one and at most
   * `retries` passes, only one inside a transaction, and ends with exactly
   * one of a stored result and an exception: it never falls out of the
   * loop empty-handed.
   */
  lemma {:induction false} RetryEnds(connection: Option<Link>, inTx: bool, pass: Passes, attempt: nat, retries: nat)
    requires retries >= 1
    ensures var run := Retry(connection, inTx, pass, attempt, retries);
      && attempt < run.attempts <= attempt + retries
      && (inTx ==> run.attempts == attempt + 1)
      && (run.lastResult.Some? <==> run.thrown.None?)
    decreases retries
  {
    match pass(connection, attempt)
    case Stored(_, _) =>
    case Raised(_, e) =>
      if IsLost(e) && retries - 1 != 0 && !inTx {
        RetryEnds(None, inTx, pass, attempt + 1, retries - 1);
      }
  }

  /** The link held before pass `k` of a loop started at pass `attempt`: a retry always starts without one. */
  function HeldBefore(connection: Option<Link>, attempt: nat, k: nat): Option<Link>
  {
    if k == attempt then connection else None
  }

  /** Pass `k` of a loop started at pass `attempt` with `connection` threw a lost connection. */
  predicate LostAt(connection: Option<Link>, pass: Passes, attempt: nat, k: nat)
  {
    var outcome := pass(HeldBefore(connection, attempt, k), k);
    outcome.Raised? && IsLost(outcome.error)
  }

  /** Every pass but the last threw a lost connection: nothing else is retried. */
  lemma {:induction false} RetryOnlyLost(connection: Option<Link>, inTx: bool, pass: Passes, attempt: nat, retries: nat)
    requires retries >= 1
    ensures var run := Retry(connection, inTx, pass, attempt, retries);
      forall k :: attempt <= k < run.attempts - 1 ==> LostAt(connection, pass, attempt, k)
    decreases retries
  {
    var run := Retry(connection, inTx, pass, attempt, retries);
    match pass(connection, attempt)
    case Stored(_, _) =>
    case Raised(_, e) =>
      if IsLost(e) && retries - 1 != 0 && !inTx {
        RetryOnlyLost(None, inTx, pass, attempt + 1, retries - 1);
        forall k | attempt <= k < run.attempts - 1 ensures LostAt(connection, pass, attempt, k) {
          if k > attempt {
            assert LostAt(None, pass, attempt + 1, k);
            assert HeldBefore(connection, attempt, k) == HeldBefore(None, attempt + 1, k);
          }
        }
      }
  }

  /**
   * `run` ends as pass outcome `last` says: a stored result is kept with
   * the link it came from; an exception is thrown with the link held at
   * that moment, and a lost connection only when `lostThrown` allows it.
   */
  predicate EndsWith(run: Run, last: Outcome, lostThrown: bool)
  {
    match last
    case Stored(link, result) => run.connection == Some(link) && run.lastResult == Some(result)
    case Raised(conn, e) => run.connection == conn && run.thrown == Some(e) && (IsLost(e) ==> lostThrown)
  }

  /** The last pass decides the end; a lost connection is thrown only when no pass is left or a transaction is open. */
  lemma {:induction false} RetryLastPass(connection: Option<Link>, inTx: bool, pass: Passes, attempt: nat, retries: nat)
    requires retries >= 1
    ensures var run := Retry(connection, inTx, pass, attempt, retries);
      && run.attempts >= 1
      && EndsWith(run, pass(HeldBefore(connection, attempt, run.attempts - 1), run.attempts - 1),
                  run.attempts == attempt + retries || inTx)
    decreases retries
  {
    var run := Retry(connection, inTx, pass, attempt, retries);
    RetryEnds(connection, inTx, pass, attempt, retries);
    var first := pass(connection, attempt);
    if first.Raised? && IsLost(first.error) && retries - 1 != 0 && !inTx {
      RetryLastPass(None, inTx, pass, attempt + 1, retries - 1);
      RetryEnds(None, inTx, pass, attempt + 1, retries - 1);
      assert HeldBefore(connection, attempt, run.attempts - 1) == HeldBefore(None, attempt + 1, run.attempts - 1);
    } else {
      assert HeldBefore(connection, attempt, run.attempts - 1) == connection;
    }
  }

  class PhutilMySQLDatabaseConnection {
    var configuration: map<string, string>
    /** The link, once established; reset before each connect and after a lost connection. */
    var connection: Option<Link>
    var lastResult: Option<ResultSet>
    /** `isInsideTransaction()` of the parent class. */
    var insideTransaction: bool

    /** `new PhutilMySQLDatabaseConnection($configuration)`: no link, no result yet. */
    constructor (configuration: map<string, string>)
      ensures this.configuration == configuration
      ensures connection == None && lastResult == None && !insideTransaction
    {
      this.configuration := configuration;
      connection := None;
      lastResult := None;
      insideTransaction := false;
    }

    /**
     * `establishConnection()`: forget the old link, then keep the new one
     * if connecting and selecting the database both succeed; otherwise
     * return what is thrown and hold no link.
     */
    method EstablishConnection(reply: ConnectReply) returns (thrown: Option<QueryException>)
      modifies this`connection
      ensures (connection, thrown) == Establish(reply)
    {
      connection := None;
      match reply
      case Refused =>
        thrown := Some(ConnectionFailed);
      case SelectFailed(errno, error) =>
        thrown := Some(ThrowQueryException(errno, error));
      case Connected(link) =>
        thrown := None;
        connection := Some(link);
    }

    /** `requireConnection()`: the link, or the exception "Connection is required.". */
    function RequireConnection(): (r: Result<Link, string>)
      reads this
      ensures r.Ok? <==> connection.Some?
      ensures r.Ok? ==> r.value == connection.value
      ensures r.Err? ==> r.error == "Connection is required."
    {
      if connection.None? then Err("Connection is required.") else Ok(connection.value)
    }

    /**
     * `escapeString($string)`: connect first when no link is held, then
     * `mysql_real_escape_string`, given here as `realEscape`.
     */
    method EscapeString(value: string, reply: ConnectReply, realEscape: string -> string)
      returns (r: Result<string, QueryException>)
      modifies this`connection
      ensures old(connection).Some? ==> connection == old(connection) && r == Ok(realEscape(value))
      ensures old(connection).None? ==>
        && connection == Establish(reply).0
        && (Establish(reply).1.Some? ==> r == Err(Establish(reply).1.value))
        && (Establish(reply).1.None? ==> r == Ok(realEscape(value)))
    {
      if connection.None? {
        var thrown := EstablishConnection(reply);
        if thrown.Some? {
          return Err(thrown.value);
        }
      }
      r := Ok(realEscape(value));
    }

    /** `escapeStringForLikeClause($value)`: the escaped string, then the LIKE rewrite. */
    method EscapeStringForLikeClause(value: string, reply: ConnectReply, realEscape: string -> string)
      returns (r: Result<string, QueryException>)
      modifies this`connection
      ensures old(connection).Some? ==> connection == old(connection) && r == Ok(EscapeForLike(realEscape(value)))
      ensures old(connection).None? ==>
        && connection == Establish(reply).0
        && (Establish(reply).1.Some? ==> r == Err(Establish(reply).1.value))
        && (Establish(reply).1.None? ==> r == Ok(EscapeForLike(realEscape(value))))
    {
      var escaped := EscapeString(value, reply, realEscape);
      match escaped
      case Err(e) =>
        r := Err(e);
      case Ok(s) =>
        r := Ok(EscapeForLike(s));
    }

    /**
     * `executeRawQuery($raw_query)`: clear the last result, then up to
     * three passes, pass `i` receiving the replies `server(i)`; ends as
     * `Retry` from pass 0 with three passes says.
     */
    method ExecuteRawQuery(server: nat -> Attempt) returns (thrown: Option<QueryException>)
      modifies this`connection, this`lastResult
      ensures var run := Retry(old(connection), insideTransaction, ServerPasses(server), 0, 3);
        connection == run.connection && lastResult == run.lastResult && thrown == run.thrown
      ensures lastResult.Some? <==> thrown.None?
    {
      ghost var goal := Retry(connection, insideTransaction, ServerPasses(server), 0, 3);
      RetryEnds(connection, insideTransaction, ServerPasses(server), 0, 3);
      lastResult := None;
      thrown := None;
      var retries := 3;
      var attempt := 0;
      while retries != 0
        invariant retries <= 3 && attempt + retries == 3
        invariant lastResult == None && thrown == None
        invariant Retry(connection, insideTransaction, ServerPasses(server), attempt, retries) == goal
      {
        retries := retries - 1;
        var replies := server(attempt);
        ghost var outcome := ServerPasses(server)(connection, attempt);
        assert outcome == Try(connection, replies);
        var error: Option<QueryException> := None;
        if connection.None? {
          error := EstablishConnection(replies.connect);
        }
        if error.None? {
          match replies.query
          case Rows(result) =>
            lastResult := Some(result);
            return;
          case Failed(errno, message) =>
            error := Some(ThrowQueryException(errno, message));
        }
        assert outcome == Raised(connection, error.value);
        attempt := attempt + 1;
        if !IsLost(error.value) || retries == 0 || insideTransaction {
          thrown := error;
          return;
        }
        connection := None;
      }
    }
  }
}
