/** The repository database both servers share (a `.omi` SQLite file): a
    blob table keyed by content hash, a commit table that only grows, and a
    table of file rows, each naming the commit it belongs to. The rows of a
    commit are the whole tree at that commit; the latest commit is the one
    with the largest id. */
module RepoTables {
  import opened Bytes
  import opened Wrappers

  /** A file row as `SELECT filename, hash, datetime` returns it. */
  datatype Entry = Entry(filename: string, hash: string, datetime: string)

  /** A row of `files`: an entry and its `commit_id` (0 stands for NULL,
      which no commit id equals). */
  datatype FileRow = FileRow(entry: Entry, commit: nat)

  datatype CommitRow = CommitRow(message: string, datetime: string, user: string)

  /** The three tables. Commit ids are SQLite rowids: commits are never
      deleted, so the commit at position i has id i + 1. */
  datatype Tables = Tables(blobs: map<string, seq<byte>>, commits: seq<CommitRow>, files: seq<FileRow>)

  /** `SELECT id FROM commits ORDER BY id DESC LIMIT 1`. */
  function Head(t: Tables): (id: Option<nat>)
    ensures id.None? <==> t.commits == []
    ensures id.Some? ==> id.value == |t.commits| >= 1
  {
    if t.commits == [] then None else Some(|t.commits|)
  }

  /** The rows of commit `id`, in insertion order. */
  function RowsOf(files: seq<FileRow>, id: nat): (rows: seq<Entry>)
    ensures |rows| <= |files|
  {
    if files == [] then []
    else
      var last := files[|files| - 1];
      RowsOf(files[..|files| - 1], id) + (if last.commit == id then [last.entry] else [])
  }

  /** The rows `AND filename != name` keeps. */
  function Without(rows: seq<Entry>, name: string): seq<Entry>
  {
    if rows == [] then []
    else
      var last := rows[|rows| - 1];
      Without(rows[..|rows| - 1], name) + (if last.filename != name then [last] else [])
  }

  /** `Without` keeps exactly the rows with another name. */
  lemma {:induction false} WithoutMembers(rows: seq<Entry>, name: string)
    ensures forall e :: e in Without(rows, name) <==> e in rows && e.filename != name
  {
    if rows != [] {
      WithoutMembers(rows[..|rows| - 1], name);
      assert rows == rows[..|rows| - 1] + [rows[|rows| - 1]];
    }
  }

  /** The tree of the latest commit; empty when there is no commit. */
  function HeadRows(t: Tables): seq<Entry>
  {
    match Head(t)
    case None => []
    case Some(id) => RowsOf(t.files, id)
  }

  /** The rows of the latest commit that a write to `filename` carries into
      the new commit. */
  function Carried(t: Tables, filename: string): seq<Entry>
  {
    Without(HeadRows(t), filename)
  }

  /** Entries stamped with one commit id. */
  function Stamp(rows: seq<Entry>, id: nat): (r: seq<FileRow>)
    ensures |r| == |rows|
    ensures forall i :: 0 <= i < |r| ==> r[i] == FileRow(rows[i], id)
  {
    if rows == [] then [] else Stamp(rows[..|rows| - 1], id) + [FileRow(rows[|rows| - 1], id)]
  }

  /** Every row names an existing commit or NULL: what all writers keep. */
  predicate WellFormed(t: Tables)
  {
    forall i :: 0 <= i < |t.files| ==> t.files[i].commit <= |t.commits|
  }

  /** Every blob is stored under the hash of its bytes and every row names
      a stored blob. */
  predicate Consistent(t: Tables, hashOf: seq<byte> -> string)
  {
    (forall h :: h in t.blobs ==> hashOf(t.blobs[h]) == h)
    && (forall i :: 0 <= i < |t.files| ==> t.files[i].entry.hash in t.blobs)
  }

  /** The local database of the C and Python clients: the same three
      tables and a staging table of rows waiting for the next commit. */
  datatype Workspace = Workspace(repo: Tables, staging: seq<Entry>)

  /** The write statements the servers issue. */
  datatype Stmt =
    | InsertBlob(hash: string, data: seq<byte>)
    | InsertBlobOrIgnore(hash: string, data: seq<byte>)
    | InsertCommit(commit: CommitRow)
    | InsertFile(entry: Entry, commitId: nat)
      /** commit_id given as `(SELECT id FROM commits ORDER BY id DESC LIMIT 1)` */
    | InsertFileAtHead(entry: Entry)

  /** One statement; None when it violates the blob table's primary key. */
  function Apply(t: Tables, s: Stmt): (r: Option<Tables>)
    ensures r.None? <==> s.InsertBlob? && s.hash in t.blobs
  {
    match s
    case InsertBlob(h, d) => if h in t.blobs then None else Some(t.(blobs := t.blobs[h := d]))
    case InsertBlobOrIgnore(h, d) => Some(if h in t.blobs then t else t.(blobs := t.blobs[h := d]))
    case InsertCommit(c) => Some(t.(commits := t.commits + [c]))
    case InsertFile(e, id) => Some(t.(files := t.files + [FileRow(e, id)]))
    case InsertFileAtHead(e) =>
      Some(t.(files := t.files + [FileRow(e, match Head(t) case None => 0 case Some(id) => id)]))
  }

  /** Statements in order; None as soon as one fails. */
  function Run(t: Tables, script: seq<Stmt>): Option<Tables>
  {
    if script == [] then Some(t)
    else
      match Run(t, script[..|script| - 1])
      case None => None
      case Some(u) => Apply(u, script[|script| - 1])
  }

  /** The number of statements that complete when the statement with index
      `failAt` (if any) fails, out of n. */
  function Completed(failAt: Option<nat>, n: nat): (k: nat)
    ensures k <= n
    ensures k == n <==> failAt.None? || failAt.value >= n
  {
    if failAt.Some? && failAt.value < n then failAt.value else n
  }

  lemma RunStep(t: Tables, script: seq<Stmt>, k: nat, u: Tables)
    requires k < |script| && Run(t, script[..k]) == Some(u)
    ensures Run(t, script[..k + 1]) == Apply(u, script[k])
  {
    assert script[..k + 1][..k] == script[..k];
  }

  lemma {:induction false} RunConcat(t: Tables, a: seq<Stmt>, b: seq<Stmt>)
    ensures Run(t, a + b) == match Run(t, a) case None => None case Some(u) => Run(u, b)
  {
    if b != [] {
      assert (a + b)[..|a + b| - 1] == a + b[..|b| - 1];
      RunConcat(t, a, b[..|b| - 1]);
    } else {
      assert a + b == a;
    }
  }

  /** Once a prefix of a script has run, the rest runs from its result. */
  lemma RunAfter(t: Tables, a: seq<Stmt>, b: seq<Stmt>, u: Tables)
    requires Run(t, a) == Some(u)
    ensures Run(t, a + b) == Run(u, b)
  {
    RunConcat(t, a, b);
  }

  lemma {:induction false} RowsOfAppend(files: seq<FileRow>, more: seq<FileRow>, id: nat)
    ensures RowsOf(files + more, id) == RowsOf(files, id) + RowsOf(more, id)
  {
    if more == [] {
      assert files + more == files;
    } else {
      assert (files + more)[..|files + more| - 1] == files + more[..|more| - 1];
      RowsOfAppend(files, more[..|more| - 1], id);
    }
  }

  /** Rows stamped with `id` are exactly the stamped entries under `id` and
      nothing under any other id. */
  lemma {:induction false} RowsOfStamp(rows: seq<Entry>, id: nat, other: nat)
    ensures RowsOf(Stamp(rows, id), id) == rows
    ensures other != id ==> RowsOf(Stamp(rows, id), other) == []
  {
    if rows != [] {
      var s := Stamp(rows, id);
      assert s[..|s| - 1] == Stamp(rows[..|rows| - 1], id);
      RowsOfStamp(rows[..|rows| - 1], id, other);
      assert rows == rows[..|rows| - 1] + [rows[|rows| - 1]];
    }
  }

  /** A commit id beyond every row's has no rows. */
  lemma {:induction false} RowsOfFresh(files: seq<FileRow>, id: nat)
    requires forall i :: 0 <= i < |files| ==> files[i].commit < id
    ensures RowsOf(files, id) == []
  {
    if files != [] {
      RowsOfFresh(files[..|files| - 1], id);
    }
  }

  /** The `INSERT INTO files` statements that copy rows into commit `id`,
      one per row, in the order they were read. */
  function Reinsert(rows: seq<Entry>, id: nat): (r: seq<Stmt>)
    ensures |r| == |rows|
    ensures forall i :: 0 <= i < |r| ==> r[i] == InsertFile(rows[i], id)
  {
    if rows == [] then [] else Reinsert(rows[..|rows| - 1], id) + [InsertFile(rows[|rows| - 1], id)]
  }

  /** The same copies with the commit id taken by the latest-id subquery. */
  function ReinsertAtHead(rows: seq<Entry>): (r: seq<Stmt>)
    ensures |r| == |rows|
    ensures forall i :: 0 <= i < |r| ==> r[i] == InsertFileAtHead(rows[i])
  {
    if rows == [] then [] else ReinsertAtHead(rows[..|rows| - 1]) + [InsertFileAtHead(rows[|rows| - 1])]
  }

  /** Either way of copying rows appends them, stamped with the latest
      commit's id, and changes nothing else. */
  lemma {:induction false} RunReinsert(t: Tables, rows: seq<Entry>, atHead: bool)
    requires t.commits != []
    ensures Run(t, if atHead then ReinsertAtHead(rows) else Reinsert(rows, |t.commits|))
         == Some(t.(files := t.files + Stamp(rows, |t.commits|)))
  {
    var script := if atHead then ReinsertAtHead(rows) else Reinsert(rows, |t.commits|);
    if rows == [] {
      assert t.files + Stamp(rows, |t.commits|) == t.files;
    } else {
      var init := rows[..|rows| - 1];
      assert script[..|script| - 1] == if atHead then ReinsertAtHead(init) else Reinsert(init, |t.commits|);
      RunReinsert(t, init, atHead);
      var last := FileRow(rows[|rows| - 1], |t.commits|);
      assert Stamp(rows, |t.commits|) == Stamp(init, |t.commits|) + [last];
      assert t.files + Stamp(init, |t.commits|) + [last] == t.files + Stamp(rows, |t.commits|);
    }
  }

  /** The tables once `content` is stored under `hash`, unless a blob
      already has that hash. */
  function WithBlob(t: Tables, hash: string, content: seq<byte>): Tables
  {
    t.(blobs := if hash in t.blobs then t.blobs else t.blobs[hash := content])
  }

  /** The tables with one more commit `c` whose rows are `rows`. */
  function Filed(t: Tables, c: CommitRow, rows: seq<Entry>): Tables
  {
    Tables(t.blobs, t.commits + [c], t.files + Stamp(rows, |t.commits| + 1))
  }

  /** A commit insert followed by copies of `rows` under its id, by either
      way of naming the id, files the rows under the new commit. */
  lemma RunCommit(t: Tables, pre: seq<Stmt>, u: Tables, c: CommitRow, rows: seq<Entry>, atHead: bool)
    requires Run(t, pre) == Some(u)
    ensures Run(t, pre + ([InsertCommit(c)] + if atHead then ReinsertAtHead(rows) else Reinsert(rows, |u.commits| + 1)))
         == Some(Filed(u, c, rows))
  {
    var copies := if atHead then ReinsertAtHead(rows) else Reinsert(rows, |u.commits| + 1);
    var u1 := u.(commits := u.commits + [c]);
    var u2 := u1.(files := u1.files + Stamp(rows, |u1.commits|));
    assert Run(u, [InsertCommit(c)]) == Some(u1) by {
      assert [InsertCommit(c)][..0] == [];
    }
    RunReinsert(u1, rows, atHead);
    assert Run(u1, copies) == Some(u2);
    RunAfter(u, [InsertCommit(c)], copies, u1);
    assert Run(u, [InsertCommit(c)] + copies) == Some(u2);
    RunAfter(t, pre, [InsertCommit(c)] + copies, u);
    assert u2 == Filed(u, c, rows);
  }

  /** The new commit holds exactly `rows`, is the latest, and every other
      commit keeps its rows. */
  lemma FiledRows(t: Tables, c: CommitRow, rows: seq<Entry>)
    requires WellFormed(t)
    ensures HeadRows(Filed(t, c, rows)) == rows
    ensures forall id :: id != |t.commits| + 1 ==> RowsOf(Filed(t, c, rows).files, id) == RowsOf(t.files, id)
    ensures WellFormed(Filed(t, c, rows))
  {
    FiledHead(t, c, rows);
    FiledOthers(t, c, rows);
    FiledWellFormed(t, c, rows);
  }

  lemma FiledHead(t: Tables, c: CommitRow, rows: seq<Entry>)
    requires WellFormed(t)
    ensures HeadRows(Filed(t, c, rows)) == rows
  {
    var id := |t.commits| + 1;
    var more := Stamp(rows, id);
    assert Filed(t, c, rows).files == t.files + more;
    RowsOfAppend(t.files, more, id);
    RowsOfStamp(rows, id, id);
    RowsOfFresh(t.files, id);
  }

  lemma FiledOthers(t: Tables, c: CommitRow, rows: seq<Entry>)
    ensures forall id :: id != |t.commits| + 1 ==> RowsOf(Filed(t, c, rows).files, id) == RowsOf(t.files, id)
  {
    var id := |t.commits| + 1;
    var more := Stamp(rows, id);
    forall other: nat | other != id
      ensures RowsOf(t.files + more, other) == RowsOf(t.files, other)
    {
      RowsOfAppend(t.files, more, other);
      RowsOfStamp(rows, id, other);
    }
  }

  lemma FiledWellFormed(t: Tables, c: CommitRow, rows: seq<Entry>)
    requires WellFormed(t)
    ensures WellFormed(Filed(t, c, rows))
  {
    var u := Filed(t, c, rows);
    forall i | 0 <= i < |u.files|
      ensures u.files[i].commit <= |u.commits|
    {
      if i >= |t.files| {
        assert u.files[i] == FileRow(rows[i - |t.files|], |t.commits| + 1);
      }
    }
  }

  /** The tables `createEmptyRepository` leaves in a new repository file:
      one commit, "Initial commit", and no blob and no row. */
  function Created(datetime: string, user: string): (t: Tables)
    ensures Head(t) == Some(1) && t.commits[0] == CommitRow("Initial commit", datetime, user)
    ensures HeadRows(t) == [] && t.blobs == map[]
    ensures WellFormed(t) && forall hashOf: seq<byte> -> string :: Consistent(t, hashOf)
  {
    Tables(map[], [CommitRow("Initial commit", datetime, user)], [])
  }

  /** `getFileContent` of either server: the stored bytes, or no value
      (which both then use as empty content) when no blob has the hash. */
  function Stored(t: Tables, hash: string): seq<byte>
  {
    if hash in t.blobs then t.blobs[hash] else []
  }

  /** The rows of commit `id` are exactly the entries stored with that
      commit id. */
  lemma {:induction false} RowsOfMembers(files: seq<FileRow>, id: nat)
    ensures forall e :: e in RowsOf(files, id) <==> exists i :: 0 <= i < |files| && files[i] == FileRow(e, id)
  {
    if files != [] {
      var init := files[..|files| - 1];
      var n := |files| - 1;
      RowsOfMembers(init, id);
      assert forall i :: 0 <= i < |init| ==> files[i] == init[i];
      forall e | exists i :: 0 <= i < |files| && files[i] == FileRow(e, id)
        ensures e in RowsOf(files, id)
      {
        var i :| 0 <= i < |files| && files[i] == FileRow(e, id);
        if i < n {
          assert init[i] == FileRow(e, id);
        }
      }
    }
  }

  /** In consistent tables every row of the latest commit names a stored
      blob. */
  lemma HeadRowsStored(t: Tables, hashOf: seq<byte> -> string)
    requires Consistent(t, hashOf)
    ensures forall e :: e in HeadRows(t) ==> e.hash in t.blobs
  {
    if t.commits != [] {
      RowsOfMembers(t.files, |t.commits|);
    }
  }

  /** Storing bytes under their own hash keeps the tables consistent. */
  lemma WithBlobConsistent(t: Tables, hashOf: seq<byte> -> string, content: seq<byte>)
    requires Consistent(t, hashOf)
    ensures Consistent(WithBlob(t, hashOf(content), content), hashOf)
    ensures hashOf(content) in WithBlob(t, hashOf(content), content).blobs
  {
  }

  /** A commit whose rows all name stored blobs keeps the tables
      consistent. */
  lemma FiledConsistent(t: Tables, hashOf: seq<byte> -> string, c: CommitRow, rows: seq<Entry>)
    requires Consistent(t, hashOf)
    requires forall e :: e in rows ==> e.hash in t.blobs
    ensures Consistent(Filed(t, c, rows), hashOf)
  {
    var u := Filed(t, c, rows);
    var more := Stamp(rows, |t.commits| + 1);
    forall i | 0 <= i < |u.files|
      ensures u.files[i].entry.hash in u.blobs
    {
      if i >= |t.files| {
        assert u.files[i] == more[i - |t.files|];
        assert rows[i - |t.files|] in rows;
      }
    }
  }

  /** The database as one object, as each request opens it. */
  class RepoDb {
    var blobs: map<string, seq<byte>>
    var commits: seq<CommitRow>
    var files: seq<FileRow>

    function State(): Tables
      reads this
    {
      Tables(blobs, commits, files)
    }

    /** A freshly created repository: the three tables, empty. */
    constructor ()
      ensures State() == Tables(map[], [], [])
    {
      blobs, commits, files := map[], [], [];
    }

    method LatestCommitId() returns (id: Option<nat>)
      ensures id == Head(State())
    {
      id := if commits == [] then None else Some(|commits|);
    }

    /** `SELECT COUNT(*) FROM blobs WHERE hash = ?` (the hash is the key). */
    method BlobCount(hash: string) returns (n: nat)
      ensures n == 0 <==> hash !in State().blobs
      ensures n <= 1
    {
      n := if hash in blobs then 1 else 0;
    }

    /** `SELECT data FROM blobs WHERE hash = ?`. */
    method BlobData(hash: string) returns (data: Option<seq<byte>>)
      ensures data.Some? <==> hash in State().blobs
      ensures data.Some? ==> data.value == State().blobs[hash]
    {
      data := if hash in blobs then Some(blobs[hash]) else None;
    }

    /** `SELECT filename, hash, datetime FROM files WHERE commit_id = ? AND
        filename != ?`. */
    method SelectRows(id: nat, except: string) returns (rows: seq<Entry>)
      ensures rows == Without(RowsOf(State().files, id), except)
      ensures forall e :: e in rows <==>
        e.filename != except && exists i :: 0 <= i < |files| && files[i] == FileRow(e, id)
    {
      rows := Without(RowsOf(files, id), except);
      RowsOfMembers(files, id);
      WithoutMembers(RowsOf(files, id), except);
    }

    /** One statement in autocommit mode; `fault` stands for a failure of
        the engine itself (a locked or unwritable file). A failed statement
        changes nothing. */
    method Exec(s: Stmt, fault: bool) returns (ok: bool)
      modifies this
      ensures ok <==> !fault && Apply(old(State()), s).Some?
      ensures State() == if ok then Apply(old(State()), s).value else old(State())
    {
      var r := Apply(State(), s);
      if fault || r.None? {
        return false;
      }
      blobs, commits, files := r.value.blobs, r.value.commits, r.value.files;
      ok := true;
    }

    /** A `BEGIN; ... COMMIT;` script: every statement or none. The sqlite3
        shell stops at the first failing statement, so COMMIT is never
        reached and the open transaction is rolled back. */
    method RunScript(script: seq<Stmt>, fault: bool) returns (ok: bool)
      modifies this
      ensures ok <==> !fault && Run(old(State()), script).Some?
      ensures State() == if ok then Run(old(State()), script).value else old(State())
    {
      var t := State();
      var i := 0;
      ok := true;
      while i < |script| && ok
        invariant 0 <= i <= |script|
        invariant ok ==> Run(old(State()), script[..i]) == Some(t)
        invariant !ok ==> Run(old(State()), script).None?
        invariant State() == old(State())
        decreases |script| - i, ok
      {
        var r := Apply(t, script[i]);
        RunStep(old(State()), script, i, t);
        if r.None? {
          ok := false;
          RunFails(old(State()), script, i + 1);
        } else {
          t := r.value;
          i := i + 1;
        }
      }
      if ok {
        assert script[..i] == script;
      }
      if fault || !ok {
        return false;
      }
      blobs, commits, files := t.blobs, t.commits, t.files;
    }
  }

  /** Once a prefix fails, the whole script fails. */
  lemma {:induction false} RunFails(t: Tables, script: seq<Stmt>, k: nat)
    requires k <= |script| && Run(t, script[..k]).None?
    ensures Run(t, script).None?
    decreases |script| - k
  {
    if k < |script| {
      assert script[..k + 1][..k] == script[..k];
      RunFails(t, script, k + 1);
    } else {
      assert script[..k] == script;
    }
  }
}
