/**
 * The loader in `main` of tosqlite.py: CSV records from stdin become the
 * table `ted` (the first record is the column list; the model's store, which
 * accepts every statement, takes the next one as well when that record
 * joins to ""), inserts are committed in batches of 1000, and then the
 * `;`-separated statements of a script are executed and committed.  The
 * SQLite connection is a `Store` that records, in order, what is done to it.
 */
module Loader {
  import opened Text

  /** The statements the loader hands to `execute`. */
  datatype Sql =
    | CreateTable(columns: string)                   // "create table ted ({})"
    | InsertInto(columns: string, placeholders: nat) // "insert into ted ({}) values (?,...)"
    | Statement(text: string)                        // one statement of the script

  /** What is done to the connection. */
  datatype Action =
    | CreateFunction(name: string, arity: nat)
    | Execute(sql: Sql, params: seq<string>)
    | Commit
    | FetchOne
    | Close

  /** The SQLite connection and its cursor, as the sequence of actions done
      to them. */
  class Store {
    var log: seq<Action>

    /** `sqlite3.connect` on a file just removed: nothing done yet. */
    constructor ()
      ensures log == []
    {
      log := [];
    }

    method CreateFunctionOn(name: string, arity: nat)
      modifies this
      ensures log == old(log) + [CreateFunction(name, arity)]
    {
      log := log + [CreateFunction(name, arity)];
    }

    method ExecuteOn(sql: Sql, params: seq<string>)
      modifies this
      ensures log == old(log) + [Execute(sql, params)]
    {
      log := log + [Execute(sql, params)];
    }

    method CommitOn()
      modifies this
      ensures log == old(log) + [Commit]
    {
      log := log + [Commit];
    }

    method FetchOneOn()
      modifies this
      ensures log == old(log) + [FetchOne]
    {
      log := log + [FetchOne];
    }

    method CloseOn()
      modifies this
      ensures log == old(log) + [Close]
    {
      log := log + [Close];
    }
  }

  const BatchSize: nat := 1000
  const ScoreFunction: string := "edist"

  /** The loop's variables between records.  `headers` is "" both before
      the first assignment (None) and after an empty one: `not headers`
      treats the two alike.  `width` is `len(rec)` of the record the insert
      statement was built from. */
  datatype LoadState = LoadState(headers: string, width: nat, count: nat)

  const Initial := LoadState("", 0, 0)

  /** `','.join(rec)`. */
  function HeaderText(rec: seq<string>): (h: string)
    ensures h == "" <==> rec == [] || rec == [""]
  {
    var h := JoinWith(rec, ',');
    assert |rec| >= 2 ==> |h| >= 1;
    h
  }

  /** One pass of the loop: while no header is set the record becomes the
      header (create table, commit); after that it is inserted, with a
      commit after every 1000th insert. */
  function Step(st: LoadState, rec: seq<string>): (r: (LoadState, seq<Action>))
    ensures st.headers != "" ==> r.0.headers == st.headers && r.0.width == st.width
    ensures st.count <= r.0.count <= st.count + 1
    ensures 1 <= |r.1| <= 2
  {
    if st.headers == "" then
      var h := HeaderText(rec);
      (LoadState(h, |rec|, st.count), [Execute(CreateTable(h), []), Commit])
    else
      var n := st.count + 1;
      (LoadState(st.headers, st.width, n),
       [Execute(InsertInto(st.headers, st.width), rec)] + (if n % BatchSize == 0 then [Commit] else []))
  }

  /** The loop over all records: the final variables and the actions, in order. */
  function Run(records: seq<seq<string>>): (LoadState, seq<Action>)
  {
    if records == [] then (Initial, [])
    else
      var prev := Run(records[..|records| - 1]);
      var next := Step(prev.0, records[|records| - 1]);
      (next.0, prev.1 + next.1)
  }

  /** The whole load, with the final commit. */
  function LoadLog(records: seq<seq<string>>): seq<Action> {
    Run(records).1 + [Commit]
  }

  /** `main`'s loop over the CSV records and the commit after it. */
  method Load(store: Store, records: seq<seq<string>>) returns (count: nat)
    modifies store
    ensures store.log == old(store.log) + LoadLog(records)
    ensures count == Run(records).0.count
  {
    var st := Initial;
    for i := 0 to |records|
      invariant store.log == old(store.log) + Run(records[..i]).1
      invariant Run(records[..i]).0 == st
    {
      RunSnoc(records, i);
      AppendAssoc(old(store.log), Run(records[..i]).1, Step(st, records[i]).1);
      st := LoadRecord(store, st, records[i]);
    }
    assert records[..|records|] == records;
    store.CommitOn();
    count := st.count;
  }

  /** The body of the loop for one record. */
  method LoadRecord(store: Store, st: LoadState, rec: seq<string>) returns (next: LoadState)
    modifies store
    ensures store.log == old(store.log) + Step(st, rec).1
    ensures next == Step(st, rec).0
  {
    var headers, width, count := st.headers, st.width, st.count;
    if headers == "" {
      headers := HeaderText(rec);
      store.ExecuteOn(CreateTable(headers), []);
      store.CommitOn();
      return LoadState(headers, |rec|, count);
    }
    store.ExecuteOn(InsertInto(headers, width), rec);
    count := count + 1;
    if count % BatchSize == 0 {
      store.CommitOn();
    }
    next := LoadState(headers, width, count);
  }

  lemma AppendAssoc<T>(a: seq<T>, b: seq<T>, c: seq<T>)
    ensures a + b + c == a + (b + c)
  {
  }

  /** One more record: one more step of the loop. */
  lemma RunSnoc(records: seq<seq<string>>, i: nat)
    requires i < |records|
    ensures var prev := Run(records[..i]);
            var next := Step(prev.0, records[i]);
            Run(records[..i + 1]) == (next.0, prev.1 + next.1)
  {
    assert records[..i + 1][..i] == records[..i];
  }

  /** The statements of the script: the pieces of the stripped text between
      `;`s, skipping the empty ones.  Pieces are not stripped themselves. */
  function Statements(pieces: seq<string>): (stmts: seq<string>)
    ensures forall k :: 0 <= k < |stmts| ==> stmts[k] != "" && stmts[k] in pieces
  {
    if pieces == [] then []
    else
      var n := |pieces| - 1;
      Statements(pieces[..n]) + (if pieces[n] == "" then [] else [pieces[n]])
  }

  function ScriptStatements(script: string): seq<string> {
    Statements(Split(Strip(script), ';'))
  }

  /** Every statement executed, in order, then one commit. */
  function ScriptLog(script: string): seq<Action> {
    Executes(ScriptStatements(script)) + [Commit]
  }

  /** One `execute` per statement, in order. */
  function Executes(stmts: seq<string>): (acts: seq<Action>)
    ensures |acts| == |stmts|
  {
    if stmts == [] then []
    else
      var n := |stmts| - 1;
      Executes(stmts[..n]) + [Execute(Statement(stmts[n]), [])]
  }

  /** The loop over the pieces: `if not cmd: continue`, else `execute`. */
  method ExecutePieces(store: Store, pieces: seq<string>)
    modifies store
    ensures store.log == old(store.log) + Executes(Statements(pieces))
  {
    ghost var done: seq<string> := [];
    for i := 0 to |pieces|
      invariant done == Statements(pieces[..i])
      invariant store.log == old(store.log) + Executes(done)
    {
      assert pieces[..i + 1][..i] == pieces[..i];
      var cmd := pieces[i];
      if cmd == "" {
        continue;
      }
      store.ExecuteOn(Statement(cmd), []);
      assert (done + [cmd])[..|done|] == done;
      done := done + [cmd];
    }
    assert pieces[..|pieces|] == pieces;
  }

  /** Reading the script, splitting at `;` and executing the non-empty
      pieces, then committing. */
  method RunScript(store: Store, script: string)
    modifies store
    ensures store.log == old(store.log) + ScriptLog(script)
  {
    var sql := Strip(script);
    ExecutePieces(store, Split(sql, ';'));
    store.CommitOn();
  }

  /** The statement run after the script, whose result is only logged. */
  const CountQuery: string := "select count(*) from matching_speakers"

  /** `main` on a fresh database: register `edist`, load the records, run
      the script, then the count query. */
  method Ingest(store: Store, records: seq<seq<string>>, script: string) returns (count: nat)
    modifies store
    ensures store.log == old(store.log) + [CreateFunction(ScoreFunction, 2)] + LoadLog(records)
                         + ScriptLog(script) + [Execute(Statement(CountQuery), []), FetchOne, Close]
    ensures count == Run(records).0.count
  {
    store.CreateFunctionOn(ScoreFunction, 2);
    count := Load(store, records);
    RunScript(store, script);
    store.ExecuteOn(Statement(CountQuery), []);
    store.FetchOneOn();
    store.CloseOn();
  }

  // ---------------------------------------------------------------------
  // Properties of the load

  /** `','.join(rec)` is empty exactly for an empty record and for a record
      of one empty field: only those leave `headers` falsy. */
  lemma HeaderTextEmpty(rec: seq<string>)
    ensures HeaderText(rec) == "" <==> rec == [] || rec == [""]
  {
    if |rec| >= 2 {
      assert |HeaderText(rec)| >= 1;
    }
  }

  /** The position of the header record: the first whose joined text is not
      empty, or |records| when there is none. */
  function HeaderIndex(records: seq<seq<string>>): (h: nat)
    ensures h <= |records|
    ensures forall i :: 0 <= i < h ==> HeaderText(records[i]) == ""
    ensures h < |records| ==> HeaderText(records[h]) != ""
  {
    if records == [] then 0
    else if HeaderText(records[0]) != "" then 0
    else 1 + HeaderIndex(records[1..])
  }

  /** The position of the header record in a prefix. */
  lemma {:induction false} HeaderIndexPrefix(records: seq<seq<string>>, n: nat)
    requires n <= |records|
    ensures HeaderIndex(records[..n]) == if HeaderIndex(records) < n then HeaderIndex(records) else n
  {
    var h, hn := HeaderIndex(records), HeaderIndex(records[..n]);
    if hn < n {
      assert records[..n][hn] == records[hn];
    }
    if h < n {
      assert records[..n][h] == records[h];
    }
  }

  /** After the loop: with no header record the table was never given
      columns and nothing was inserted; otherwise the columns are the header
      record joined with commas, the insert has one placeholder per header
      field, and every later record was counted. */
  lemma {:induction false} LoadFinalState(records: seq<seq<string>>)
    ensures var h, st := HeaderIndex(records), Run(records).0;
            && (h == |records| ==> st.headers == "" && st.count == 0)
            && (h < |records| ==>
                  st == LoadState(HeaderText(records[h]), |records[h]|, |records| - h - 1))
  {
    if records != [] {
      var n := |records| - 1;
      LoadFinalState(records[..n]);
      HeaderIndexPrefix(records, n);
    }
  }

  /** The rows handed to the insert statements, in order. */
  function InsertedRows(acts: seq<Action>): seq<seq<string>> {
    if acts == [] then []
    else
      var n := |acts| - 1;
      InsertedRows(acts[..n])
      + (if acts[n].Execute? && acts[n].sql.InsertInto? then [acts[n].params] else [])
  }

  /** Every insert uses `sql`. */
  predicate InsertsUse(acts: seq<Action>, sql: Sql) {
    forall k :: 0 <= k < |acts| && acts[k].Execute? && acts[k].sql.InsertInto? ==> acts[k].sql == sql
  }

  lemma {:induction false} InsertedRowsConcat(a: seq<Action>, b: seq<Action>)
    ensures InsertedRows(a + b) == InsertedRows(a) + InsertedRows(b)
    decreases |b|
  {
    if b != [] {
      var n := |b| - 1;
      assert (a + b)[..|a| + n] == a + b[..n];
      assert (a + b)[|a| + n] == b[n];
      InsertedRowsConcat(a, b[..n]);
    } else {
      assert a + b == a;
    }
  }

  /** Exactly the records after the header record are inserted, in input
      order; none when there is no header record. */
  lemma {:induction false} LoadInserts(records: seq<seq<string>>)
    ensures var h := HeaderIndex(records);
            InsertedRows(Run(records).1) == if h < |records| then records[h + 1..] else []
  {
    if records != [] {
      var n := |records| - 1;
      var init := records[..n];
      LoadInserts(init);
      LoadFinalState(init);
      HeaderIndexPrefix(records, n);
      InsertsLast(records);
      var h := HeaderIndex(records);
      if h < n {
        assert init[h] == records[h];
        SliceLast(records, h + 1);
      }
    }
  }

  /** The last record adds itself to the inserted rows exactly when a
      header was set before it. */
  lemma InsertsLast(records: seq<seq<string>>)
    requires records != []
    ensures var init, last := records[..|records| - 1], records[|records| - 1];
            InsertedRows(Run(records).1)
            == InsertedRows(Run(init).1) + if Run(init).0.headers == "" then [] else [last]
  {
    var init, last := records[..|records| - 1], records[|records| - 1];
    RunLast(records);
    InsertedRowsConcat(Run(init).1, Step(Run(init).0, last).1);
    StepInserts(Run(init).0, last);
  }

  lemma SliceLast<T>(s: seq<T>, k: nat)
    requires k < |s|
    ensures s[k..] == s[..|s| - 1][k..] + [s[|s| - 1]]
  {
  }

  lemma {:induction false} InsertsUseConcat(a: seq<Action>, b: seq<Action>, sql: Sql)
    requires InsertsUse(a, sql) && InsertsUse(b, sql)
    ensures InsertsUse(a + b, sql)
  {
    forall k | 0 <= k < |a + b| && (a + b)[k].Execute? && (a + b)[k].sql.InsertInto?
      ensures (a + b)[k].sql == sql
    {
      if k < |a| {
        assert (a + b)[k] == a[k];
      } else {
        assert (a + b)[k] == b[k - |a|];
      }
    }
  }

  /** Actions without inserts use any insert statement, vacuously. */
  lemma {:induction false} NoInsertsUse(acts: seq<Action>, sql: Sql)
    requires InsertedRows(acts) == []
    ensures InsertsUse(acts, sql)
  {
    if acts != [] {
      var n := |acts| - 1;
      NoInsertsUse(acts[..n], sql);
      forall k | 0 <= k < |acts| && acts[k].Execute? && acts[k].sql.InsertInto?
        ensures acts[k].sql == sql
      {
        if k < n {
          assert acts[..n][k] == acts[k];
        }
      }
    }
  }

  /** Every insert uses the statement built from the header record: its
      joined fields as columns, one placeholder per field. */
  lemma {:induction false} LoadInsertStatement(records: seq<seq<string>>)
    requires HeaderIndex(records) < |records|
    ensures var h := HeaderIndex(records);
            InsertsUse(Run(records).1, InsertInto(HeaderText(records[h]), |records[h]|))
  {
    var n := |records| - 1;
    var init := records[..n];
    var h := HeaderIndex(records);
    var sql := InsertInto(HeaderText(records[h]), |records[h]|);
    LoadFinalState(init);
    HeaderIndexPrefix(records, n);
    RunLast(records);
    var more := Step(Run(init).0, records[n]).1;
    StepInserts(Run(init).0, records[n]);
    if h < n {
      assert init[h] == records[h];
      LoadInsertStatement(init);
    } else {
      LoadInserts(init);
      NoInsertsUse(Run(init).1, sql);
      NoInsertsUse(more, sql);
    }
    InsertsUseConcat(Run(init).1, more, sql);
  }

  /** What one pass of the loop inserts: nothing while no header is set,
      else the record itself. */
  lemma StepInserts(st: LoadState, rec: seq<string>)
    ensures InsertedRows(Step(st, rec).1) == if st.headers == "" then [] else [rec]
    ensures InsertsUse(Step(st, rec).1, InsertInto(st.headers, st.width))
  {
    var more := Step(st, rec).1;
    assert more[..1][..0] == [] && more[..0] == [];
    var first := if st.headers == "" then [] else [rec];
    assert InsertedRows(more[..1]) == first;
    if |more| == 2 {
      assert more[..|more| - 1] == more[..1];
      assert InsertedRows(more) == InsertedRows(more[..1]);
    }
  }

  /** Inserts done since the last commit. */
  function Pending(acts: seq<Action>): nat {
    if acts == [] then 0
    else
      var n := |acts| - 1;
      match acts[n]
      case Commit => 0
      case Execute(sql, _) => if sql.InsertInto? then Pending(acts[..n]) + 1 else Pending(acts[..n])
      case CreateFunction(_, _) => Pending(acts[..n])
      case FetchOne => Pending(acts[..n])
      case Close => Pending(acts[..n])
  }

  /** How one pass of the loop changes the uncommitted inserts. */
  lemma StepPending(acts: seq<Action>, st: LoadState, rec: seq<string>)
    ensures Pending(acts + Step(st, rec).1)
            == if st.headers == "" || (st.count + 1) % BatchSize == 0 then 0 else Pending(acts) + 1
  {
    var more := Step(st, rec).1;
    var all := acts + more;
    if st.headers == "" {
      assert all[..|all| - 1] == acts + [more[0]];
    } else if (st.count + 1) % BatchSize != 0 {
      assert all[..|all| - 1] == acts;
    }
  }

  /** The last pass of the loop. */
  lemma RunLast(records: seq<seq<string>>)
    requires records != []
    ensures var init, last := records[..|records| - 1], records[|records| - 1];
            && Run(records).0 == Step(Run(init).0, last).0
            && Run(records).1 == Run(init).1 + Step(Run(init).0, last).1
  {
  }

  lemma ModStep(c: nat)
    ensures (c + 1) % BatchSize == if c % BatchSize == BatchSize - 1 then 0 else c % BatchSize + 1
  {
  }

  /** The batch invariant of the loop: the uncommitted inserts are
      `count % 1000`, and nothing is counted before the header. */
  predicate Batched(acts: seq<Action>, st: LoadState) {
    Pending(acts) == st.count % BatchSize && (st.headers == "" ==> st.count == 0)
  }

  lemma StepBatched(acts: seq<Action>, st: LoadState, rec: seq<string>)
    requires Batched(acts, st)
    ensures Batched(acts + Step(st, rec).1, Step(st, rec).0)
  {
    StepPending(acts, st, rec);
    ModStep(st.count);
  }

  /** Inserts are committed in batches: after any number of records fewer
      than 1000 inserts are uncommitted, exactly `count % 1000` of them, and
      the final commit leaves none. */
  lemma {:induction false} BatchCommits(records: seq<seq<string>>)
    ensures Pending(Run(records).1) == Run(records).0.count % BatchSize < BatchSize
    ensures Run(records).0.headers == "" ==> Run(records).0.count == 0
    ensures Pending(LoadLog(records)) == 0
  {
    if records != [] {
      var init, last := records[..|records| - 1], records[|records| - 1];
      BatchCommits(init);
      RunLast(records);
      StepBatched(Run(init).1, Run(init).0, last);
    }
  }

  // ---------------------------------------------------------------------
  // Properties of the script runner

  /** The statements are exactly the non-empty pieces, in order. */
  lemma {:induction false} StatementsComplete(pieces: seq<string>, k: nat)
    requires k < |pieces| && pieces[k] != ""
    ensures pieces[k] in Statements(pieces)
  {
    var n := |pieces| - 1;
    if k < n {
      StatementsComplete(pieces[..n], k);
    }
  }

  /** The pieces of the stripped script join back to it with `;`; every
      statement executed is a non-empty piece without `;`; every non-empty
      piece is executed. */
  lemma ScriptStatementsArePieces(script: string)
    ensures var pieces := Split(Strip(script), ';');
            && JoinWith(pieces, ';') == Strip(script)
            && (forall k :: 0 <= k < |ScriptStatements(script)| ==>
                  ScriptStatements(script)[k] != "" && ';' !in ScriptStatements(script)[k])
            && (forall k :: 0 <= k < |pieces| && pieces[k] != "" ==> pieces[k] in ScriptStatements(script))
  {
    var pieces := Split(Strip(script), ';');
    JoinSplit(Strip(script), ';');
    forall k | 0 <= k < |pieces| && pieces[k] != "" ensures pieces[k] in ScriptStatements(script) {
      StatementsComplete(pieces, k);
    }
    forall k | 0 <= k < |ScriptStatements(script)| ensures ';' !in ScriptStatements(script)[k] {
      var j :| 0 <= j < |pieces| && pieces[j] == ScriptStatements(script)[k];
    }
  }

  /** A non-blank script without `;` runs as one statement, its stripped
      text. */
  lemma ScriptSingle(script: string)
    requires ';' !in Strip(script) && Strip(script) != ""
    ensures ScriptStatements(script) == [Strip(script)]
  {
    var p := Strip(script);
    SplitNoSep(p, ';');
    assert [p][..0] == [];
    assert Statements([p]) == [p];
  }
}
