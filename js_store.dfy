/** The Node server's writes (public/server.js `commitFileToRepo`,
    `deleteFileFromRepo`). Each reads the latest commit's rows with two
    queries, then sends one `BEGIN; ... COMMIT;` script whose file rows name
    their commit by the subquery `(SELECT id FROM commits ORDER BY id DESC
    LIMIT 1)`. The SQL text is modelled by the statements it spells; every
    value is quoted with `escapeSqliteString`, which reads back unchanged
    (JsGate.EscapedLiteralReadsBack). */
module JsStore {
  import opened Bytes
  import opened Wrappers
  import opened RepoTables
  import PhpStore

  /** `username || 'system'`. */
  function CommitUser(username: string): (u: string)
    ensures u != ""
    ensures username != "" ==> u == username
  {
    if username == "" then "system" else username
  }

  /** The script `commitFileToRepo` sends, given the rows it read. */
  function CommitScript(read: seq<Entry>, filename: string, hash: string, content: seq<byte>,
                        message: string, datetime: string, username: string): seq<Stmt>
  {
    [InsertBlobOrIgnore(hash, content), InsertCommit(CommitRow(message, datetime, CommitUser(username)))]
    + ReinsertAtHead(read)
    + [InsertFileAtHead(Entry(filename, hash, datetime))]
  }

  /** The script `deleteFileFromRepo` sends, given the rows it read. */
  function DeleteScript(read: seq<Entry>, message: string, datetime: string, username: string): seq<Stmt>
  {
    [InsertCommit(CommitRow(message, datetime, CommitUser(username)))] + ReinsertAtHead(read)
  }

  /** The two reads: the latest id, then its rows not named `filename`;
      nothing when there is no commit. */
  method ReadCarried(db: RepoDb, filename: string) returns (existing: seq<Entry>)
    ensures existing == Carried(db.State(), filename)
  {
    var latest := db.LatestCommitId();
    existing := [];
    if latest.Some? {
      existing := db.SelectRows(latest.value, filename);
    }
  }

  /** The `preserveFilesSql +=` loop: one insert per row read. */
  method PreserveStatements(existing: seq<Entry>) returns (preserve: seq<Stmt>)
    ensures |preserve| == |existing|
    ensures forall i :: 0 <= i < |existing| ==> preserve[i] == InsertFileAtHead(existing[i])
  {
    preserve := [];
    for i := 0 to |existing|
      invariant preserve == ReinsertAtHead(existing[..i])
    {
      assert existing[..i + 1][..i] == existing[..i];
      preserve := preserve + [InsertFileAtHead(existing[i])];
    }
    assert existing[..|existing|] == existing;
  }

  /** `commitFileToRepo`: the script runs whole or not at all (`fault`
      stands for the engine failing, which rolls the transaction back). */
  method CommitFileToRepo(db: RepoDb, filename: string, content: seq<byte>, hashOf: seq<byte> -> string,
                          username: string, message: string, datetime: string, fault: bool) returns (ok: bool)
    modifies db
    ensures ok <==> !fault
    ensures var script := CommitScript(Carried(old(db.State()), filename), filename, hashOf(content), content,
                                       message, datetime, username);
      if ok then Run(old(db.State()), script) == Some(db.State()) else db.State() == old(db.State())
  {
    var hash := hashOf(content);
    var existing := ReadCarried(db, filename);
    var preserve := PreserveStatements(existing);
    var script := [InsertBlobOrIgnore(hash, content), InsertCommit(CommitRow(message, datetime, CommitUser(username)))]
      + preserve + [InsertFileAtHead(Entry(filename, hash, datetime))];
    assert preserve == ReinsertAtHead(existing);
    CommitScriptOutcome(db.State(), existing, filename, hash, content, message, datetime, username);
    ok := db.RunScript(script, fault);
  }

  /** `deleteFileFromRepo`, likewise all or nothing. */
  method DeleteFileFromRepo(db: RepoDb, filename: string, username: string, message: string,
                            datetime: string, fault: bool) returns (ok: bool)
    modifies db
    ensures ok <==> !fault
    ensures var script := DeleteScript(Carried(old(db.State()), filename), message, datetime, username);
      if ok then Run(old(db.State()), script) == Some(db.State()) else db.State() == old(db.State())
  {
    var existing := ReadCarried(db, filename);
    var preserve := PreserveStatements(existing);
    var script := [InsertCommit(CommitRow(message, datetime, CommitUser(username)))] + preserve;
    assert preserve == ReinsertAtHead(existing);
    DeleteScriptOutcome(db.State(), existing, message, datetime, username);
    ok := db.RunScript(script, fault);
  }

  /** Run on any tables, the commit script never fails: the blob is stored
      if its hash is new, and one commit holds the rows read and the new
      row. */
  lemma CommitScriptOutcome(t: Tables, read: seq<Entry>, filename: string, hash: string, content: seq<byte>,
                            message: string, datetime: string, username: string)
    ensures Run(t, CommitScript(read, filename, hash, content, message, datetime, username))
         == Some(Filed(WithBlob(t, hash, content), CommitRow(message, datetime, CommitUser(username)),
                       read + [Entry(filename, hash, datetime)]))
  {
    var c := CommitRow(message, datetime, CommitUser(username));
    var all := read + [Entry(filename, hash, datetime)];
    assert all[..|all| - 1] == read;
    var pre := [InsertBlobOrIgnore(hash, content)];
    assert Run(t, pre) == Some(WithBlob(t, hash, content)) by {
      assert pre[..0] == [];
    }
    RunCommit(t, pre, WithBlob(t, hash, content), c, all, true);
    assert CommitScript(read, filename, hash, content, message, datetime, username)
        == pre + ([InsertCommit(c)] + ReinsertAtHead(all));
  }

  /** Run on any tables, the delete script never fails and adds one commit
      holding the rows read. */
  lemma DeleteScriptOutcome(t: Tables, read: seq<Entry>, message: string, datetime: string, username: string)
    ensures Run(t, DeleteScript(read, message, datetime, username))
         == Some(Filed(t, CommitRow(message, datetime, CommitUser(username)), read))
  {
    assert Run(t, []) == Some(t);
    RunCommit(t, [], t, CommitRow(message, datetime, CommitUser(username)), read, true);
    assert [] + DeleteScript(read, message, datetime, username) == DeleteScript(read, message, datetime, username);
  }

  /** The new latest commit holds exactly the rows read plus the new row,
      whatever the tables hold when the script runs: a commit made by
      someone else between the reads and the script is not carried forward
      (the reads are outside the transaction). */
  lemma CommitHead(t: Tables, read: seq<Entry>, filename: string, hash: string, content: seq<byte>,
                   message: string, datetime: string, username: string)
    requires WellFormed(t)
    ensures var r := Run(t, CommitScript(read, filename, hash, content, message, datetime, username));
      r.Some? && var u := r.value;
      && HeadRows(u) == read + [Entry(filename, hash, datetime)]
      && |u.commits| == |t.commits| + 1
      && u.commits[|t.commits|].user == CommitUser(username)
      && (forall id :: id != |u.commits| ==> RowsOf(u.files, id) == RowsOf(t.files, id))
      && hash in u.blobs
      && (forall h :: h in t.blobs ==> h in u.blobs && u.blobs[h] == t.blobs[h])
      && WellFormed(u)
  {
    CommitScriptOutcome(t, read, filename, hash, content, message, datetime, username);
    FiledRows(WithBlob(t, hash, content), CommitRow(message, datetime, CommitUser(username)),
              read + [Entry(filename, hash, datetime)]);
  }

  /** The new latest commit holds exactly the rows read. */
  lemma DeleteHead(t: Tables, read: seq<Entry>, message: string, datetime: string, username: string)
    requires WellFormed(t)
    ensures var r := Run(t, DeleteScript(read, message, datetime, username));
      r.Some? && var u := r.value;
      && HeadRows(u) == read
      && |u.commits| == |t.commits| + 1
      && (forall id :: id != |u.commits| ==> RowsOf(u.files, id) == RowsOf(t.files, id))
      && u.blobs == t.blobs
      && WellFormed(u)
  {
    DeleteScriptOutcome(t, read, message, datetime, username);
    FiledRows(t, CommitRow(message, datetime, CommitUser(username)), read);
  }

  /** When every row read names a stored blob (as rows read from these or
      earlier tables do, since blobs are never removed), the commit script
      keeps the tables consistent. */
  lemma CommitKeepsConsistent(t: Tables, read: seq<Entry>, filename: string, content: seq<byte>,
                              hashOf: seq<byte> -> string, message: string, datetime: string, username: string)
    requires Consistent(t, hashOf)
    requires forall e :: e in read ==> e.hash in t.blobs
    ensures var r := Run(t, CommitScript(read, filename, hashOf(content), content, message, datetime, username));
      r.Some? && Consistent(r.value, hashOf)
  {
    var hash := hashOf(content);
    CommitScriptOutcome(t, read, filename, hash, content, message, datetime, username);
    WithBlobConsistent(t, hashOf, content);
    FiledConsistent(WithBlob(t, hash, content), hashOf, CommitRow(message, datetime, CommitUser(username)),
                    read + [Entry(filename, hash, datetime)]);
  }

  lemma DeleteKeepsConsistent(t: Tables, read: seq<Entry>, hashOf: seq<byte> -> string,
                              message: string, datetime: string, username: string)
    requires Consistent(t, hashOf)
    requires forall e :: e in read ==> e.hash in t.blobs
    ensures var r := Run(t, DeleteScript(read, message, datetime, username));
      r.Some? && Consistent(r.value, hashOf)
  {
    DeleteScriptOutcome(t, read, message, datetime, username);
    FiledConsistent(t, hashOf, CommitRow(message, datetime, CommitUser(username)), read);
  }

  /** With the reads taken from the same tables, a signed-in user and the
      message the PHP server builds, the two servers leave the same tables
      behind when nothing fails. */
  lemma CommitAgreesWithPhp(t: Tables, verb: string, filename: string, hash: string, content: seq<byte>,
                            datetime: string, user: string)
    requires user != ""
    ensures Run(t, CommitScript(Carried(t, filename), filename, hash, content, verb + filename, datetime, user))
         == Run(t, PhpStore.WritePlan(t, verb, filename, hash, content, datetime, user))
  {
    CommitScriptOutcome(t, Carried(t, filename), filename, hash, content, verb + filename, datetime, user);
    PhpStore.WriteOutcome(t, verb, filename, hash, content, datetime, user);
  }

  lemma DeleteAgreesWithPhp(t: Tables, filename: string, datetime: string, user: string)
    requires user != ""
    ensures Run(t, DeleteScript(Carried(t, filename), "Deleted: " + filename, datetime, user))
         == Run(t, PhpStore.DeletePlan(t, filename, datetime, user))
  {
    DeleteScriptOutcome(t, Carried(t, filename), "Deleted: " + filename, datetime, user);
    PhpStore.DeleteOutcome(t, filename, datetime, user);
  }
}
