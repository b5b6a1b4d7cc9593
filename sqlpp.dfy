/** The `DB` wrapper: a statement cache keyed by the transformed query, the
    row-accumulation loop `parse`, and the Exec/QueryRow/Query paths that fall
    back to running the query directly when MySQL refuses to prepare it.

    The database behind the wrapper is a `Conn`: it records every call made
    on it in `log`, and answers each call through an oracle that is given the
    number of calls made before it. Everything the model says about the
    database is therefore a statement about that log. */
module Sqlpp {
  import opened Base
  import opened MySql
  import opened Transform

  const ErrNilRows: Error := Error("sqlpp: nil rows")
  const ErrNilScanner: Error := Error("sqlpp: nil scanner")

  /** A prepared statement handle; handles are told apart by `id`. */
  datatype Stmt = Stmt(id: nat)

  /** A cache entry: a prepared statement, or the error of a query that
      cannot be prepared at all, kept so that it is not prepared again. */
  datatype Entry = Prepared(stmt: Stmt) | Sticky(err: Error)

  /** The `sql.Result` of an exec. */
  datatype Summary = Summary(lastInsertId: int, rowsAffected: int)

  /** A call on the database. */
  datatype Call<V> =
    | PrepareCall(query: string)
    | StmtExec(stmt: Stmt, args: Slice<Arg<V>>)
    | StmtQueryRow(stmt: Stmt, args: Slice<Arg<V>>)
    | StmtQuery(stmt: Stmt, args: Slice<Arg<V>>)
    | DirectExec(query: string, args: Slice<Arg<V>>)
    | DirectQueryRow(query: string, args: Slice<Arg<V>>)
    | DirectQuery(query: string, args: Slice<Arg<V>>)
    | StmtClose(stmt: Stmt)
    | DBClose

  // ----- the database -----

  /** The `*sql.DB` behind the wrapper, with rows of type `R`. */
  class Conn<V, R> {
    /** The database's answers; each is given the number of earlier calls. */
    const prepareAnswer: (nat, string) -> Option<Error>
    const execAnswer: (nat, Call<V>) -> Result<Summary, Error>
    const queryRowAnswer: (nat, Call<V>) -> Option<Error>
    const queryAnswer: (nat, Call<V>) -> Result<seq<R>, Error>
    const closeAnswer: nat -> Option<Error>

    /** Every call made so far, oldest first. */
    var log: seq<Call<V>>
    /** The id of the next statement the database prepares. */
    var nextStmt: nat

    constructor (prepareAnswer: (nat, string) -> Option<Error>,
                 execAnswer: (nat, Call<V>) -> Result<Summary, Error>,
                 queryRowAnswer: (nat, Call<V>) -> Option<Error>,
                 queryAnswer: (nat, Call<V>) -> Result<seq<R>, Error>,
                 closeAnswer: nat -> Option<Error>)
      ensures this.prepareAnswer == prepareAnswer && this.execAnswer == execAnswer
      ensures this.queryRowAnswer == queryRowAnswer && this.queryAnswer == queryAnswer
      ensures this.closeAnswer == closeAnswer
      ensures log == [] && nextStmt == 0
    {
      this.prepareAnswer := prepareAnswer;
      this.execAnswer := execAnswer;
      this.queryRowAnswer := queryRowAnswer;
      this.queryAnswer := queryAnswer;
      this.closeAnswer := closeAnswer;
      log := [];
      nextStmt := 0;
    }

    /** `PrepareContext`: a new handle, or the database's error. */
    method Prepare(query: string) returns (res: Result<Stmt, Error>)
      modifies this
      ensures log == old(log) + [PrepareCall(query)]
      ensures match prepareAnswer(|old(log)|, query)
        case Some(e) => res == Err(e) && nextStmt == old(nextStmt)
        case None => res == Ok(Stmt(old(nextStmt))) && nextStmt == old(nextStmt) + 1
    {
      var answer := prepareAnswer(|log|, query);
      log := log + [PrepareCall(query)];
      match answer {
        case Some(e) =>
          res := Err(e);
        case None =>
          res := Ok(Stmt(nextStmt));
          nextStmt := nextStmt + 1;
      }
    }

    /** `ExecContext` on a statement (`StmtExec`) or on the database (`DirectExec`). */
    method Exec(c: Call<V>) returns (res: Result<Summary, Error>)
      modifies this`log
      ensures log == old(log) + [c] && res == execAnswer(|old(log)|, c)
    {
      res := execAnswer(|log|, c);
      log := log + [c];
    }

    /** `QueryRowContext(...).Scan(...)`: only the error of the scan. */
    method QueryRow(c: Call<V>) returns (err: Option<Error>)
      modifies this`log
      ensures log == old(log) + [c] && err == queryRowAnswer(|old(log)|, c)
    {
      err := queryRowAnswer(|log|, c);
      log := log + [c];
    }

    /** `QueryContext`: the fresh rows of the answer, or the error. */
    method Query(c: Call<V>) returns (rows: Rows?<R>, err: Option<Error>)
      modifies this`log
      ensures log == old(log) + [c]
      ensures match queryAnswer(|old(log)|, c)
        case Ok(data) => err == None && rows != null && fresh(rows) &&
          rows.remaining == data && !rows.closed
        case Err(e) => err == Some(e) && rows == null
    {
      var answer := queryAnswer(|log|, c);
      log := log + [c];
      match answer {
        case Ok(data) =>
          rows := new Rows(data);
          err := None;
        case Err(e) =>
          rows := null;
          err := Some(e);
      }
    }

    /** `Stmt.Close`; its error is never looked at. */
    method CloseStmt(s: Stmt)
      modifies this`log
      ensures log == old(log) + [StmtClose(s)]
    {
      log := log + [StmtClose(s)];
    }

    /** `DB.Close`. */
    method CloseDB() returns (err: Option<Error>)
      modifies this`log
      ensures log == old(log) + [DBClose] && err == closeAnswer(|old(log)|)
    {
      err := closeAnswer(|log|);
      log := log + [DBClose];
    }
  }

  /** A `*sql.Rows`: the rows not yet read, the row read last, and whether
      the rows are closed. */
  class Rows<R> {
    var remaining: seq<R>
    var current: Option<R>
    var closed: bool

    constructor (data: seq<R>)
      ensures remaining == data && current == None && !closed
    {
      remaining := data;
      current := None;
      closed := false;
    }

    /** The rows a reader still gets: none once the rows are closed. */
    ghost function Pending(): seq<R>
      reads this
    {
      if closed then [] else remaining
    }

    /** `Rows.Next`: moves to the next row; when there is none the rows close
        themselves, as `database/sql` does. */
    method Next() returns (more: bool)
      modifies this
      ensures more == (old(Pending()) != [])
      ensures more ==> current == Some(old(remaining)[0]) && remaining == old(remaining)[1..] && !closed
      ensures !more ==> closed && remaining == old(remaining) && current == old(current)
    {
      if closed || remaining == [] {
        closed := true;
        more := false;
      } else {
        current := Some(remaining[0]);
        remaining := remaining[1..];
        more := true;
      }
    }

    /** `Rows.Close`. */
    method Close()
      modifies this`closed
      ensures closed
    {
      closed := true;
    }
  }

  // ----- parse -----

  /** Scanning every row in order: the scanned values, or the first error. */
  function ScanAll<R, T>(rows: seq<R>, scan: R -> Result<T, Error>): Result<seq<T>, Error>
  {
    if rows == [] then Ok([])
    else match scan(rows[0])
      case Err(e) => Err(e)
      case Ok(t) =>
        match ScanAll(rows[1..], scan)
        case Err(e) => Err(e)
        case Ok(ts) => Ok([t] + ts)
  }

  /** When every row scans, the results are the scanned rows, one per row,
      in row order. */
  lemma {:induction false} ScanAllSucceeds<R, T>(rows: seq<R>, scan: R -> Result<T, Error>)
    requires forall i :: 0 <= i < |rows| ==> scan(rows[i]).Ok?
    ensures ScanAll(rows, scan).Ok?
    ensures |ScanAll(rows, scan).value| == |rows|
    ensures forall i :: 0 <= i < |rows| ==> ScanAll(rows, scan).value[i] == scan(rows[i]).value
  {
    if rows != [] {
      assert scan(rows[0]).Ok?;
      ScanAllSucceeds(rows[1..], scan);
      var ts := ScanAll(rows[1..], scan).value;
      forall i | 0 <= i < |rows| ensures ScanAll(rows, scan).value[i] == scan(rows[i]).value {
        if i > 0 {
          assert rows[1..][i - 1] == rows[i];
        }
      }
    }
  }

  /** When row `i` is the first that does not scan, the outcome is its error. */
  lemma {:induction false} ScanAllFails<R, T>(rows: seq<R>, scan: R -> Result<T, Error>, i: nat)
    requires i < |rows| && scan(rows[i]).Err?
    requires forall j :: 0 <= j < i ==> scan(rows[j]).Ok?
    ensures ScanAll(rows, scan) == Err(scan(rows[i]).error)
  {
    if i > 0 {
      assert scan(rows[0]).Ok?;
      forall j | 0 <= j < i - 1 ensures scan(rows[1..][j]).Ok? {
        assert rows[1..][j] == rows[j + 1];
      }
      ScanAllFails(rows[1..], scan, i - 1);
    }
  }

  /** What `parse` returns for the pending rows (`None` for nil rows) and the
      scanner (`None` for a nil scanner). */
  function ParseResult<R, T>(rows: Option<seq<R>>, scanner: Option<R -> Result<T, Error>>): (Slice<T>, Option<Error>)
  {
    if rows.None? then (Nil, Some(ErrNilRows))
    else if scanner.None? then (Nil, Some(ErrNilScanner))
    else match ScanAll(rows.value, scanner.value)
      case Ok(ts) => (Slice(ts), None)
      case Err(e) => (Nil, Some(e))
  }

  /** Nil rows are reported before a nil scanner; otherwise exactly one of the
      results and the error is there, and never a partial list of results. */
  lemma ParseResultCases<R, T>(rows: Option<seq<R>>, scanner: Option<R -> Result<T, Error>>)
    ensures rows.None? ==> ParseResult(rows, scanner) == (Nil, Some(ErrNilRows))
    ensures rows.Some? && scanner.None? ==> ParseResult(rows, scanner) == (Nil, Some(ErrNilScanner))
    ensures ParseResult(rows, scanner).0.Nil? <==> ParseResult(rows, scanner).1.Some?
  {
  }

  /** `parse`: scans the rows one after the other with the scanner. On a scan
      error the rows are closed and no results are returned; otherwise the
      rows end closed by `Next` and the results are in row order. */
  method Parse<R, T>(rows: Rows?<R>, scanner: Option<R -> Result<T, Error>>)
    returns (results: Slice<T>, err: Option<Error>)
    modifies rows
    ensures (results, err) == ParseResult(if rows == null then None else Some(old(rows.Pending())), scanner)
    ensures rows != null && scanner.None? ==> unchanged(rows)
    ensures rows != null && scanner.Some? ==> rows.closed
  {
    if rows == null {
      return Nil, Some(ErrNilRows);
    } else if scanner.None? {
      return Nil, Some(ErrNilScanner);
    }
    var scan := scanner.value;
    ghost var rs := rows.Pending();
    ghost var k := 0;
    var acc: seq<T> := [];
    var more := rows.Next();
    while more
      invariant 0 <= k <= |rs| && |acc| == k
      invariant forall i :: 0 <= i < k ==> scan(rs[i]) == Ok(acc[i])
      invariant more ==> k < |rs| && rows.current == Some(rs[k]) && !rows.closed && rows.remaining == rs[k + 1..]
      invariant !more ==> k == |rs| && rows.closed
      decreases |rs| - k
    {
      var scanned := scan(rows.current.value);
      match scanned {
        case Err(e) =>
          rows.Close();
          ScanAllFails(rs, scan, k);
          return Nil, Some(e);
        case Ok(t) =>
          acc := acc + [t];
          k := k + 1;
          more := rows.Next();
      }
    }
    ScanAllSucceeds(rs, scan);
    assert ScanAll(rs, scan).value == acc;
    results, err := Slice(acc), None;
  }

  // ----- prepare -----

  /** The cache invariant: sticky entries hold MySQL's "cannot prepare"
      errors, and the cached statements are distinct handles the database
      has handed out. */
  ghost predicate CacheInvariant(m: map<string, Entry>, next: nat) {
    (forall k :: k in m && m[k].Sticky? ==> IsPrepareNotSupported(Some(m[k].err))) &&
    (forall k :: k in m && m[k].Prepared? ==> m[k].stmt.id < next) &&
    (forall k1, k2 :: k1 in m && k2 in m && k1 != k2 && m[k1].Prepared? && m[k2].Prepared? ==>
      m[k1].stmt != m[k2].stmt)
  }

  /** One `prepare` as a value: the statement or error it returns, the calls
      it makes, and the cache and next handle afterwards. */
  datatype Prep<V> = Prep(stmt: Option<Stmt>, err: Option<Error>, calls: seq<Call<V>>,
                          stmts: map<string, Entry>, next: nat)

  /** `prepare` for the transformed query `q` on cache `m`, when the database
      would answer `answer` to preparing it. */
  function PrepareStep<V>(m: map<string, Entry>, q: string, next: nat, answer: Option<Error>): (r: Prep<V>)
    ensures r.stmt.Some? != r.err.Some?
  {
    if q in m then
      match m[q]
      case Prepared(s) => Prep(Some(s), None, [], m, next)
      case Sticky(e) => Prep(None, Some(e), [], m, next)
    else
      match answer
      case None => Prep(Some(Stmt(next)), None, [PrepareCall(q)], m[q := Prepared(Stmt(next))], next + 1)
      case Some(e) =>
        Prep(None, answer, [PrepareCall(q)], if IsPrepareNotSupported(answer) then m[q := Sticky(e)] else m, next)
  }

  /** A cached statement or a sticky error is returned without any call on
      the database and without touching the cache. */
  lemma PrepareHit<V>(m: map<string, Entry>, q: string, next: nat, answer: Option<Error>)
    requires q in m
    ensures var r := PrepareStep<V>(m, q, next, answer);
      r.calls == [] && r.stmts == m && r.next == next &&
      (m[q].Prepared? ==> r.stmt == Some(m[q].stmt)) &&
      (m[q].Sticky? ==> r.err == Some(m[q].err))
  {
  }

  /** A miss prepares exactly once; success stores the new handle, the
      "cannot prepare" error is stored as sticky, and any other error leaves
      the cache as it was. */
  lemma PrepareMiss<V>(m: map<string, Entry>, q: string, next: nat, answer: Option<Error>)
    requires q !in m
    ensures var r := PrepareStep<V>(m, q, next, answer);
      r.calls == [PrepareCall(q)] &&
      (answer.None? ==> r.stmt == Some(Stmt(next)) && r.stmts == m[q := Prepared(Stmt(next))]) &&
      (answer.Some? ==>
        r.err == answer &&
        (q in r.stmts <==> IsPrepareNotSupported(answer)) &&
        (IsPrepareNotSupported(answer) ==> r.stmts[q] == Sticky(answer.value)))
  {
  }

  /** No entry but the one for `q` ever changes. */
  lemma PrepareOnlyThisKey<V>(m: map<string, Entry>, q: string, next: nat, answer: Option<Error>, k: string)
    requires k != q
    ensures var r := PrepareStep<V>(m, q, next, answer);
      (k in r.stmts <==> k in m) && (k in m ==> r.stmts[k] == m[k])
  {
  }

  /** `prepare` keeps the cache invariant. */
  lemma PrepareKeepsInvariant<V>(m: map<string, Entry>, q: string, next: nat, answer: Option<Error>)
    requires CacheInvariant(m, next)
    ensures var r := PrepareStep<V>(m, q, next, answer);
      CacheInvariant(r.stmts, r.next)
  {
    var r := PrepareStep<V>(m, q, next, answer);
    if q !in m && answer.None? {
      assert forall k :: k in m && m[k].Prepared? ==> m[k].stmt != Stmt(next);
    }
  }

  /** Preparing the same query twice: after a success or a sticky error the
      second call makes no call on the database and returns the same; after
      any other error it asks the database again. */
  lemma PrepareTwice<V>(m: map<string, Entry>, q: string, next: nat, a1: Option<Error>, a2: Option<Error>)
    requires q !in m
    ensures var r1 := PrepareStep<V>(m, q, next, a1);
      var r2 := PrepareStep<V>(r1.stmts, q, r1.next, a2);
      (r2.calls == [] <==> a1.None? || IsPrepareNotSupported(a1)) &&
      (r2.calls == [] ==> r2.stmt == r1.stmt && r2.err == r1.err)
  {
  }

  /** Which way a wrapper goes after `prepare`. */
  datatype Route = ViaStmt(stmt: Stmt) | Direct | Fail(err: Error)

  /** The wrappers' decision: the statement when there is no error, a direct
      run for the "cannot prepare" error only, and the error itself for any
      other failure. */
  function RouteOf(stmt: Option<Stmt>, err: Option<Error>): (r: Route)
    requires err.None? ==> stmt.Some?
    ensures r.ViaStmt? <==> err.None?
    ensures r.ViaStmt? ==> stmt == Some(r.stmt)
    ensures r.Direct? <==> IsPrepareNotSupported(err)
    ensures r.Fail? <==> err.Some? && !IsPrepareNotSupported(err)
    ensures r.Fail? ==> err == Some(r.err)
  {
    if err.Some? then
      if IsPrepareNotSupported(err) then Direct else Fail(err.value)
    else ViaStmt(stmt.value)
  }

  // ----- the wrapper -----

  /** The sqlpp `DB`: the database, the dialect and the statement cache. */
  class DB<V, R> {
    const conn: Conn<V, R>
    const postgres: bool
    /** The cache, by transformed query. */
    var stmts: map<string, Entry>

    ghost predicate Valid()
      reads this, conn
    {
      CacheInvariant(stmts, conn.nextStmt)
    }

    /** The `prepare` of the current state for the transformed query `q`. */
    ghost function Step(q: string): Prep<V>
      reads this, conn
    {
      PrepareStep(stmts, q, conn.nextStmt, conn.prepareAnswer(|conn.log|, q))
    }

    /** `NewMySQL`. */
    constructor MySQL(conn: Conn<V, R>)
      ensures this.conn == conn && !postgres && stmts == map[] && Valid()
    {
      this.conn := conn;
      postgres := false;
      stmts := map[];
    }

    /** `NewPostgreSQL`. */
    constructor PostgreSQL(conn: Conn<V, R>)
      ensures this.conn == conn && postgres && stmts == map[] && Valid()
    {
      this.conn := conn;
      postgres := true;
      stmts := map[];
    }

    /** `prepare`: transforms the query and looks the result up in the cache;
        on a miss asks the database once and caches the statement, or the
        error when it is the "cannot prepare" kind. */
    method Prepare(query: string, args: Slice<Arg<V>>)
      returns (stmt: Option<Stmt>, q: string, a: Slice<Arg<V>>, err: Option<Error>)
      requires Valid()
      modifies this`stmts, conn
      ensures Valid()
      ensures (q, a) == TransformSpec(query, args, postgres)
      ensures var p := old(Step(q));
        stmt == p.stmt && err == p.err && stmts == p.stmts &&
        conn.log == old(conn.log) + p.calls && conn.nextStmt == p.next
    {
      q, a := Transform.Transform(query, args, postgres);
      PrepareKeepsInvariant<V>(stmts, q, conn.nextStmt, conn.prepareAnswer(|conn.log|, q));
      if q in stmts {
        match stmts[q] {
          case Prepared(s) =>
            return Some(s), q, a, None;
          case Sticky(e) =>
            return None, q, a, Some(e);
        }
      }
      var res := conn.Prepare(q);
      match res {
        case Err(e) =>
          if IsPrepareNotSupported(Some(e)) {
            stmts := stmts[q := Sticky(e)];
          }
          return None, q, a, Some(e);
        case Ok(s) =>
          stmts := stmts[q := Prepared(s)];
          return Some(s), q, a, None;
      }
    }

    /** `Exec`/`ExecContext`. */
    method Exec(query: string, args: Slice<Arg<V>>) returns (res: Result<Summary, Error>)
      requires Valid()
      modifies this`stmts, conn
      ensures Valid()
      ensures var (q, a) := TransformSpec(query, args, postgres);
        var p := old(Step(q));
        var n := |old(conn.log)| + |p.calls|;
        stmts == p.stmts && conn.nextStmt == p.next &&
        match RouteOf(p.stmt, p.err)
        case ViaStmt(s) =>
          conn.log == old(conn.log) + p.calls + [StmtExec(s, a)] && res == conn.execAnswer(n, StmtExec(s, a))
        case Direct =>
          conn.log == old(conn.log) + p.calls + [DirectExec(q, a)] && res == conn.execAnswer(n, DirectExec(q, a))
        case Fail(e) =>
          conn.log == old(conn.log) + p.calls && res == Err(e)
    {
      var stmt, q, a, err := Prepare(query, args);
      if err.Some? {
        if IsPrepareNotSupported(err) {
          res := conn.Exec(DirectExec(q, a));
          return;
        }
        return Err(err.value);
      }
      res := conn.Exec(StmtExec(stmt.value, a));
    }

    /** `QueryRow`/`QueryRowContext`: the error of scanning the single row. */
    method QueryRow(query: string, args: Slice<Arg<V>>) returns (err: Option<Error>)
      requires Valid()
      modifies this`stmts, conn
      ensures Valid()
      ensures var (q, a) := TransformSpec(query, args, postgres);
        var p := old(Step(q));
        var n := |old(conn.log)| + |p.calls|;
        stmts == p.stmts && conn.nextStmt == p.next &&
        match RouteOf(p.stmt, p.err)
        case ViaStmt(s) =>
          conn.log == old(conn.log) + p.calls + [StmtQueryRow(s, a)] && err == conn.queryRowAnswer(n, StmtQueryRow(s, a))
        case Direct =>
          conn.log == old(conn.log) + p.calls + [DirectQueryRow(q, a)] && err == conn.queryRowAnswer(n, DirectQueryRow(q, a))
        case Fail(e) =>
          conn.log == old(conn.log) + p.calls && err == Some(e)
    {
      var stmt, q, a;
      stmt, q, a, err := Prepare(query, args);
      if err.Some? {
        if IsPrepareNotSupported(err) {
          err := conn.QueryRow(DirectQueryRow(q, a));
        }
        return;
      }
      err := conn.QueryRow(StmtQueryRow(stmt.value, a));
    }

    /** `Query`/`QueryContext`: the query's rows parsed with `scan`. */
    method Query<T>(query: string, args: Slice<Arg<V>>, scan: Option<R -> Result<T, Error>>)
      returns (results: Slice<T>, err: Option<Error>, ghost rows: Rows?<R>)
      requires Valid()
      modifies this`stmts, conn
      ensures Valid()
      ensures rows != null ==> fresh(rows) && (scan.Some? ==> rows.closed)
      ensures err.None? ==> rows != null && rows.closed
      ensures var (q, a) := TransformSpec(query, args, postgres);
        var p := old(Step(q));
        var n := |old(conn.log)| + |p.calls|;
        stmts == p.stmts && conn.nextStmt == p.next &&
        match RouteOf(p.stmt, p.err)
        case ViaStmt(s) =>
          conn.log == old(conn.log) + p.calls + [StmtQuery(s, a)] &&
          (results, err) == QueryResult(conn.queryAnswer(n, StmtQuery(s, a)), scan)
        case Direct =>
          conn.log == old(conn.log) + p.calls + [DirectQuery(q, a)] &&
          (results, err) == QueryResult(conn.queryAnswer(n, DirectQuery(q, a)), scan)
        case Fail(e) =>
          conn.log == old(conn.log) + p.calls && results == Nil && err == Some(e)
    {
      var stmt, q, a;
      stmt, q, a, err := Prepare(query, args);
      var r: Rows?<R>;
      rows := null;
      if err.Some? {
        if IsPrepareNotSupported(err) {
          r, err := conn.Query(DirectQuery(q, a));
        } else {
          return Nil, err, rows;
        }
      } else {
        r, err := conn.Query(StmtQuery(stmt.value, a));
      }
      if err.Some? {
        return Nil, err, rows;
      }
      rows := r;
      results, err := Parse(r, scan);
    }

    /** `Close`: closes every cached statement once, in some order, skips the
        sticky errors, empties the cache and then closes the database. */
    method Close() returns (err: Option<Error>, ghost order: seq<string>)
      requires Valid()
      modifies this`stmts, conn`log
      ensures Valid() && stmts == map[]
      ensures IsOrder(order, old(stmts))
      ensures conn.log == old(conn.log) + CloseCalls(order, old(stmts)) + [DBClose]
      ensures err == conn.closeAnswer(|old(conn.log)| + |CloseCalls<V>(order, old(stmts))|)
      ensures forall k :: k in old(stmts) && old(stmts)[k].Prepared? ==>
        multiset(conn.log[|old(conn.log)|..])[StmtClose(old(stmts)[k].stmt)] == 1
    {
      ghost var m, log0 := stmts, conn.log;
      order := CloseCached(conn, stmts);
      CloseClosesEachOnce<V>(order, m, conn.nextStmt);
      CloseLogCount<V>(log0, CloseCalls<V>(order, m), m);
      stmts := map[];
      err := conn.CloseDB();
    }
  }

  /** The range over the cache in `Close`: every cached statement of `m` is
      closed, in some order of the keys; sticky errors are skipped. */
  method CloseCached<V, R>(conn: Conn<V, R>, m: map<string, Entry>) returns (ghost order: seq<string>)
    modifies conn`log
    ensures IsOrder(order, m)
    ensures conn.log == old(conn.log) + CloseCalls(order, m)
  {
    var keys := m.Keys;
    order := [];
    while keys != {}
      invariant Visited(order, keys, m)
      invariant conn.log == old(conn.log) + CloseCalls(order, m)
      decreases |keys|
    {
      var k :| k in keys;
      ghost var before := conn.log;
      match m[k] {
        case Prepared(s) => conn.CloseStmt(s);
        case Sticky(_) =>
      }
      assert conn.log == before + CloseCall<V>(k, m);
      CloseLogStep<V>(old(conn.log), order, k, m);
      VisitStep(order, keys, k, m);
      order := order + [k];
      keys := keys - {k};
    }
    VisitDone(order, m);
  }

  /** Part way through the close loop: `order` holds the keys visited so
      far, each once, and `keys` the ones still to visit. */
  ghost predicate Visited(order: seq<string>, keys: set<string>, m: map<string, Entry>) {
    |order| + |keys| == |m.Keys| &&
    (forall k :: k in m <==> k in order || k in keys) &&
    (forall k :: k in keys ==> k !in order) &&
    (forall i, j :: 0 <= i < j < |order| ==> order[i] != order[j])
  }

  /** Visiting one more key keeps `Visited`. */
  lemma VisitStep(order: seq<string>, keys: set<string>, k: string, m: map<string, Entry>)
    requires Visited(order, keys, m) && k in keys
    ensures Visited(order + [k], keys - {k}, m)
  {
    var o := order + [k];
    forall i, j | 0 <= i < j < |o| ensures o[i] != o[j] {
      if j == |order| {
        assert o[i] == order[i] && order[i] in order;
      } else {
        assert o[i] == order[i] && o[j] == order[j];
      }
    }
    forall x ensures x in m <==> x in o || x in keys - {k} {
      assert x in o <==> x in order || x == k;
    }
  }

  /** Once no key is left, `order` lists all of them. */
  lemma VisitDone(order: seq<string>, m: map<string, Entry>)
    requires Visited(order, {}, m)
    ensures IsOrder(order, m)
  {
  }

  /** The result of `Query` once the database answered the query. */
  function QueryResult<R, T>(answer: Result<seq<R>, Error>, scan: Option<R -> Result<T, Error>>): (Slice<T>, Option<Error>)
  {
    match answer
    case Ok(data) => ParseResult(Some(data), scan)
    case Err(e) => (Nil, Some(e))
  }

  // ----- close -----

  /** `order` lists every key of `m` exactly once. */
  ghost predicate IsOrder(order: seq<string>, m: map<string, Entry>) {
    |order| == |m.Keys| &&
    (forall k :: k in order <==> k in m) &&
    (forall i, j :: 0 <= i < j < |order| ==> order[i] != order[j])
  }

  /** The calls `Close` makes for the keys `order`: a close for each cached
      statement, nothing for a sticky error. */
  function CloseCalls<V>(order: seq<string>, m: map<string, Entry>): seq<Call<V>>
  {
    if order == [] then []
    else CloseCall(order[0], m) + CloseCalls(order[1..], m)
  }

  function CloseCall<V>(k: string, m: map<string, Entry>): seq<Call<V>>
  {
    if k in m && m[k].Prepared? then [StmtClose(m[k].stmt)] else []
  }

  /** The log after closing one more key. */
  lemma CloseLogStep<V>(base: seq<Call<V>>, order: seq<string>, k: string, m: map<string, Entry>)
    ensures base + CloseCalls<V>(order, m) + CloseCall<V>(k, m) == base + CloseCalls<V>(order + [k], m)
  {
    CloseCallsAppend<V>(order, k, m);
    Assoc(base, CloseCalls<V>(order, m), CloseCall<V>(k, m));
  }

  lemma {:induction false} CloseCallsAppend<V>(order: seq<string>, k: string, m: map<string, Entry>)
    ensures CloseCalls<V>(order + [k], m) == CloseCalls<V>(order, m) + CloseCall<V>(k, m)
  {
    if order == [] {
      assert order + [k] == [k];
      assert CloseCalls<V>([k][1..], m) == [];
    } else {
      assert (order + [k])[1..] == order[1..] + [k];
      CloseCallsAppend<V>(order[1..], k, m);
      Assoc(CloseCall<V>(order[0], m), CloseCalls<V>(order[1..], m), CloseCall<V>(k, m));
    }
  }

  /** Only cached statements are closed. */
  lemma {:induction false} CloseCallsOnlyCached<V>(order: seq<string>, m: map<string, Entry>)
    ensures forall c :: c in CloseCalls<V>(order, m) ==> c.StmtClose? && Prepared(c.stmt) in m.Values
  {
    if order != [] {
      CloseCallsOnlyCached<V>(order[1..], m);
      var k := order[0];
      if k in m && m[k].Prepared? {
        assert m[k] in m.Values;
      }
    }
  }

  /** For distinct keys of a cache whose statements are distinct, each cached
      statement is closed once if its key is listed and not at all otherwise. */
  lemma {:induction false} CloseCallsCount<V>(order: seq<string>, m: map<string, Entry>, next: nat, k: string)
    requires CacheInvariant(m, next)
    requires forall i, j :: 0 <= i < j < |order| ==> order[i] != order[j]
    requires k in m && m[k].Prepared?
    ensures multiset(CloseCalls<V>(order, m))[StmtClose(m[k].stmt)] == if k in order then 1 else 0
  {
    if order != [] {
      var h := order[0];
      var c: Call<V> := StmtClose(m[k].stmt);
      forall i, j | 0 <= i < j < |order[1..]| ensures order[1..][i] != order[1..][j] {
        assert order[1..][i] == order[i + 1] && order[1..][j] == order[j + 1];
      }
      CloseCallsCount<V>(order[1..], m, next, k);
      assert multiset(CloseCall<V>(h, m))[c] == if h == k then 1 else 0;
      assert k in order <==> h == k || k in order[1..];
      if h == k {
        assert k !in order[1..] by {
          forall i | 0 <= i < |order[1..]| ensures order[1..][i] != k {
            assert order[1..][i] == order[i + 1];
          }
        }
      }
    }
  }

  /** `Close` closes each cached statement exactly once and nothing else. */
  /** The closes `Close` logs, read back from the whole log. */
  lemma CloseLogCount<V>(log0: seq<Call<V>>, calls: seq<Call<V>>, m: map<string, Entry>)
    requires forall k :: k in m && m[k].Prepared? ==> multiset(calls)[StmtClose(m[k].stmt)] == 1
    ensures forall k :: k in m && m[k].Prepared? ==>
      multiset((log0 + calls + [DBClose])[|log0|..])[StmtClose(m[k].stmt)] == 1
  {
    assert (log0 + calls + [DBClose])[|log0|..] == calls + [DBClose];
  }

  lemma CloseClosesEachOnce<V>(order: seq<string>, m: map<string, Entry>, next: nat)
    requires CacheInvariant(m, next) && IsOrder(order, m)
    ensures forall k :: k in m && m[k].Prepared? ==> multiset(CloseCalls<V>(order, m))[StmtClose(m[k].stmt)] == 1
    ensures forall c :: c in CloseCalls<V>(order, m) ==> c.StmtClose? && Prepared(c.stmt) in m.Values
  {
    forall k | k in m && m[k].Prepared?
      ensures multiset(CloseCalls<V>(order, m))[StmtClose(m[k].stmt)] == 1
    {
      CloseCallsCount<V>(order, m, next, k);
    }
    CloseCallsOnlyCached<V>(order, m);
  }
}
