/** The PHP server's writes (public/index.php `commitFile`, `uploadFile`,
    `deleteFile`). Each opens the database in autocommit mode and issues its
    statements one by one, so a failure part-way leaves the statements
    before it in place. The content hash, the clock and the signed-in user
    are parameters. */
module PhpStore {
  import opened Bytes
  import opened Wrappers
  import opened RepoTables

  /** The blob insert, issued only when `SELECT COUNT(*)` found no blob. */
  function BlobPart(t: Tables, hash: string, content: seq<byte>): (r: seq<Stmt>)
    ensures |r| <= 1
  {
    if hash in t.blobs then [] else [InsertBlob(hash, content)]
  }

  /** The statements `commitFile` (verb "Edited: ") and `uploadFile` (verb
      "Uploaded: ") issue, from the tables as they were before the call:
      the new commit's id is `lastInsertId`, one past the latest. */
  function WritePlan(t: Tables, verb: string, filename: string, hash: string, content: seq<byte>,
                     datetime: string, user: string): seq<Stmt>
  {
    var id := |t.commits| + 1;
    BlobPart(t, hash, content)
    + [InsertCommit(CommitRow(verb + filename, datetime, user))]
    + Reinsert(Carried(t, filename), id)
    + [InsertFile(Entry(filename, hash, datetime), id)]
  }

  /** The statements `deleteFile` issues. */
  function DeletePlan(t: Tables, filename: string, datetime: string, user: string): seq<Stmt>
  {
    [InsertCommit(CommitRow("Deleted: " + filename, datetime, user))]
    + Reinsert(Carried(t, filename), |t.commits| + 1)
  }

  /** `commitFile`: true when every statement went through; otherwise false,
      with the statements before the failing one applied. `failAt` is the
      index of the statement the engine fails, if any. */
  method CommitFile(db: RepoDb, filename: string, content: seq<byte>, hashOf: seq<byte> -> string,
                    datetime: string, user: string, failAt: Option<nat>) returns (ok: bool)
    modifies db
    ensures var plan := WritePlan(old(db.State()), "Edited: ", filename, hashOf(content), content, datetime, user);
      (ok <==> Completed(failAt, |plan|) == |plan|)
      && Run(old(db.State()), plan[..Completed(failAt, |plan|)]) == Some(db.State())
  {
    ok := WriteFile(db, "Edited: ", filename, content, hashOf, datetime, user, failAt);
  }

  /** `uploadFile`: the same statements as `commitFile` under another
      commit message. */
  method UploadFile(db: RepoDb, filename: string, content: seq<byte>, hashOf: seq<byte> -> string,
                    datetime: string, user: string, failAt: Option<nat>) returns (ok: bool)
    modifies db
    ensures var plan := WritePlan(old(db.State()), "Uploaded: ", filename, hashOf(content), content, datetime, user);
      (ok <==> Completed(failAt, |plan|) == |plan|)
      && Run(old(db.State()), plan[..Completed(failAt, |plan|)]) == Some(db.State())
  {
    ok := WriteFile(db, "Uploaded: ", filename, content, hashOf, datetime, user, failAt);
  }

  method WriteFile(db: RepoDb, verb: string, filename: string, content: seq<byte>, hashOf: seq<byte> -> string,
                   datetime: string, user: string, failAt: Option<nat>) returns (ok: bool)
    modifies db
    ensures var plan := WritePlan(old(db.State()), verb, filename, hashOf(content), content, datetime, user);
      (ok <==> Completed(failAt, |plan|) == |plan|)
      && Run(old(db.State()), plan[..Completed(failAt, |plan|)]) == Some(db.State())
  {
    ghost var t0 := db.State();
    var hash := hashOf(content);
    ghost var plan := WritePlan(t0, verb, filename, hash, content, datetime, user);
    WritePlanShape(t0, verb, filename, hash, content, datetime, user);
    var n := db.BlobCount(hash);
    var k := 0;
    assert plan[..0] == [];
    ok := true;
    if n == 0 {
      ok := Step(db, t0, plan, 0, InsertBlob(hash, content), failAt);
      k := 1;
    }
    if ok {
      var latest := db.LatestCommitId();
      ok := WriteTail(db, t0, plan, k, latest, CommitRow(verb + filename, datetime, user),
                      Entry(filename, hash, datetime), failAt);
    }
  }

  /** The statements after the blob check: the commit, the carried rows and
      the new row, all under the id of the new commit. */
  method WriteTail(db: RepoDb, ghost t0: Tables, ghost plan: seq<Stmt>, k: nat, latest: Option<nat>,
                   commit: CommitRow, entry: Entry, failAt: Option<nat>) returns (ok: bool)
    requires latest == Head(t0) && db.State().commits == t0.commits && db.State().files == t0.files
    requires var rows := Carried(t0, entry.filename);
      && |plan| == k + 2 + |rows|
      && plan[k] == InsertCommit(commit)
      && plan[k + 1..k + 1 + |rows|] == Reinsert(rows, |t0.commits| + 1)
      && plan[k + 1 + |rows|] == InsertFile(entry, |t0.commits| + 1)
    requires Run(t0, plan[..k]) == Some(db.State()) && (failAt.Some? ==> failAt.value >= k)
    modifies db
    ensures (ok <==> Completed(failAt, |plan|) == |plan|)
      && Run(t0, plan[..Completed(failAt, |plan|)]) == Some(db.State())
  {
    ok := Step(db, t0, plan, k, InsertCommit(commit), failAt);
    if ok {
      var commitId := |db.commits|;
      var existing := SelectCarried(db, t0, latest, entry.filename);
      assert commitId == |t0.commits| + 1 && existing == Carried(t0, entry.filename);
      ok := CarryThenAdd(db, t0, plan, k + 1, existing, commitId, entry, failAt);
    }
  }

  /** `if ($latestCommit)`: the latest commit's rows but the target's, read
      after the new commit is inserted (it has no rows yet). */
  method SelectCarried(db: RepoDb, ghost t0: Tables, latest: Option<nat>, filename: string)
      returns (existing: seq<Entry>)
    requires latest == Head(t0) && db.State().files == t0.files
    ensures existing == Carried(t0, filename)
  {
    existing := [];
    if latest.Some? {
      existing := db.SelectRows(latest.value, filename);
    }
  }

  /** The carried rows, then the row of the written file, which closes the
      plan. */
  method CarryThenAdd(db: RepoDb, ghost t0: Tables, ghost plan: seq<Stmt>, k: nat, existing: seq<Entry>,
                      commitId: nat, entry: Entry, failAt: Option<nat>) returns (ok: bool)
    requires |plan| == k + |existing| + 1
    requires plan[k..k + |existing|] == Reinsert(existing, commitId)
    requires plan[k + |existing|] == InsertFile(entry, commitId)
    requires Run(t0, plan[..k]) == Some(db.State()) && (failAt.Some? ==> failAt.value >= k)
    modifies db
    ensures (ok <==> Completed(failAt, |plan|) == |plan|)
      && Run(t0, plan[..Completed(failAt, |plan|)]) == Some(db.State())
  {
    var next;
    ok, next := CarryRows(db, t0, plan, k, existing, commitId, failAt);
    if ok {
      ok := Step(db, t0, plan, next, InsertFile(entry, commitId), failAt);
      assert ok ==> plan[..next + 1] == plan;
    }
  }

  lemma WritePlanShape(t: Tables, verb: string, filename: string, hash: string, content: seq<byte>,
                       datetime: string, user: string)
    ensures var plan := WritePlan(t, verb, filename, hash, content, datetime, user);
      var a := |BlobPart(t, hash, content)|;
      var rows := Carried(t, filename);
      var id := |t.commits| + 1;
      && |plan| == a + 2 + |rows|
      && (a == 1 ==> plan[0] == InsertBlob(hash, content))
      && plan[a] == InsertCommit(CommitRow(verb + filename, datetime, user))
      && plan[a + 1..a + 1 + |rows|] == Reinsert(rows, id)
      && plan[a + 1 + |rows|] == InsertFile(Entry(filename, hash, datetime), id)
  {
  }

  /** The loop over `$existingFiles`: one `INSERT INTO files` per carried
      row, stopping at the first failure. */
  method CarryRows(db: RepoDb, ghost t0: Tables, ghost plan: seq<Stmt>, k0: nat, existing: seq<Entry>,
                   commitId: nat, failAt: Option<nat>) returns (ok: bool, k: nat)
    requires k0 + |existing| <= |plan|
    requires plan[k0..k0 + |existing|] == Reinsert(existing, commitId)
    requires Run(t0, plan[..k0]) == Some(db.State())
    requires failAt.Some? ==> failAt.value >= k0
    modifies db
    ensures ok ==> k == k0 + |existing| && Run(t0, plan[..k]) == Some(db.State())
    ensures ok ==> failAt.Some? ==> failAt.value >= k
    ensures ok ==> db.State().commits == old(db.State()).commits
    ensures !ok ==> k == Completed(failAt, |plan|) < |plan| && Run(t0, plan[..k]) == Some(db.State())
  {
    k := k0;
    var i := 0;
    ok := true;
    while i < |existing|
      invariant 0 <= i <= |existing| && k == k0 + i
      invariant failAt.Some? ==> failAt.value >= k
      invariant Run(t0, plan[..k]) == Some(db.State())
      invariant db.State().commits == old(db.State()).commits
    {
      assert plan[k] == plan[k0..k0 + |existing|][i];
      ok := Step(db, t0, plan, k, InsertFile(existing[i], commitId), failAt);
      if !ok {
        return;
      }
      k := k + 1;
      i := i + 1;
    }
  }

  /** Issues statement k of a plan whose first k statements are in place
      and cannot violate a key; it fails only where the engine fails. */
  method Step(db: RepoDb, ghost t0: Tables, ghost plan: seq<Stmt>, k: nat, s: Stmt, failAt: Option<nat>)
      returns (ok: bool)
    requires k < |plan| && plan[k] == s && Run(t0, plan[..k]) == Some(db.State())
    requires !s.InsertBlob? || s.hash !in db.State().blobs
    requires failAt.Some? ==> failAt.value >= k
    modifies db
    ensures ok <==> failAt != Some(k)
    ensures ok ==> Run(t0, plan[..k + 1]) == Some(db.State()) && (failAt.Some? ==> failAt.value >= k + 1)
    ensures ok ==> db.State() == Apply(old(db.State()), s).value
    ensures !ok ==> Run(t0, plan[..k]) == Some(db.State()) && Completed(failAt, |plan|) == k
  {
    ghost var before := db.State();
    ok := db.Exec(s, failAt == Some(k));
    RunStep(t0, plan, k, before);
  }

  lemma DeletePlanShape(t: Tables, filename: string, datetime: string, user: string)
    ensures var plan := DeletePlan(t, filename, datetime, user);
      var rows := Carried(t, filename);
      && |plan| == 1 + |rows|
      && plan[0] == InsertCommit(CommitRow("Deleted: " + filename, datetime, user))
      && plan[1..1 + |rows|] == Reinsert(rows, |t.commits| + 1)
  {
  }

  /** `deleteFile`: a new commit carrying every row but the deleted one. */
  method DeleteFile(db: RepoDb, filename: string, datetime: string, user: string, failAt: Option<nat>)
      returns (ok: bool)
    modifies db
    ensures var plan := DeletePlan(old(db.State()), filename, datetime, user);
      (ok <==> Completed(failAt, |plan|) == |plan|)
      && Run(old(db.State()), plan[..Completed(failAt, |plan|)]) == Some(db.State())
  {
    ghost var t0 := db.State();
    ghost var plan := DeletePlan(t0, filename, datetime, user);
    DeletePlanShape(t0, filename, datetime, user);
    var latest := db.LatestCommitId();
    assert plan[..0] == [];
    ok := Step(db, t0, plan, 0, InsertCommit(CommitRow("Deleted: " + filename, datetime, user)), failAt);
    if ok {
      ok := DeleteTail(db, t0, plan, latest, filename, failAt);
    }
  }

  /** The copies of the carried rows, which close a delete plan. */
  method DeleteTail(db: RepoDb, ghost t0: Tables, ghost plan: seq<Stmt>, latest: Option<nat>, filename: string,
                    failAt: Option<nat>) returns (ok: bool)
    requires latest == Head(t0) && db.State().files == t0.files && |db.State().commits| == |t0.commits| + 1
    requires |plan| == 1 + |Carried(t0, filename)|
    requires plan[1..1 + |Carried(t0, filename)|] == Reinsert(Carried(t0, filename), |t0.commits| + 1)
    requires Run(t0, plan[..1]) == Some(db.State()) && (failAt.Some? ==> failAt.value >= 1)
    modifies db
    ensures (ok <==> Completed(failAt, |plan|) == |plan|)
      && Run(t0, plan[..Completed(failAt, |plan|)]) == Some(db.State())
  {
    var commitId := |db.commits|;
    var existing := SelectCarried(db, t0, latest, filename);
    var k;
    ok, k := CarryRows(db, t0, plan, 1, existing, commitId, failAt);
    assert ok ==> plan[..k] == plan;
  }

  /** The tables after a complete write: the blob stored if its hash was
      new, and one commit holding the carried rows and the new row. */
  lemma WriteOutcome(t: Tables, verb: string, filename: string, hash: string,
                     content: seq<byte>, datetime: string, user: string)
    ensures Run(t, WritePlan(t, verb, filename, hash, content, datetime, user))
         == Some(Filed(WithBlob(t, hash, content), CommitRow(verb + filename, datetime, user),
                       Carried(t, filename) + [Entry(filename, hash, datetime)]))
  {
    var all := Carried(t, filename) + [Entry(filename, hash, datetime)];
    WritePlanSplit(t, verb, filename, hash, content, datetime, user);
    BlobPartRun(t, hash, content);
    RunCommit(t, BlobPart(t, hash, content), WithBlob(t, hash, content),
              CommitRow(verb + filename, datetime, user), all, false);
  }

  /** The row of the written file is one more copy under the new id. */
  lemma WritePlanSplit(t: Tables, verb: string, filename: string, hash: string,
                       content: seq<byte>, datetime: string, user: string)
    ensures WritePlan(t, verb, filename, hash, content, datetime, user)
         == BlobPart(t, hash, content)
            + ([InsertCommit(CommitRow(verb + filename, datetime, user))]
               + Reinsert(Carried(t, filename) + [Entry(filename, hash, datetime)], |t.commits| + 1))
  {
    var all := Carried(t, filename) + [Entry(filename, hash, datetime)];
    assert all[..|all| - 1] == Carried(t, filename);
  }

  lemma BlobPartRun(t: Tables, hash: string, content: seq<byte>)
    ensures Run(t, BlobPart(t, hash, content)) == Some(WithBlob(t, hash, content))
  {
    var b := BlobPart(t, hash, content);
    if b != [] {
      assert b[..0] == [];
    }
  }

  /** The tables after a complete delete: one commit holding the carried
      rows. */
  lemma DeleteOutcome(t: Tables, filename: string, datetime: string, user: string)
    ensures Run(t, DeletePlan(t, filename, datetime, user))
         == Some(Filed(t, CommitRow("Deleted: " + filename, datetime, user), Carried(t, filename)))
  {
    var c := CommitRow("Deleted: " + filename, datetime, user);
    var plan := [InsertCommit(c)] + Reinsert(Carried(t, filename), |t.commits| + 1);
    assert Run(t, []) == Some(t);
    RunCommit(t, [], t, c, Carried(t, filename), false);
    assert [] + plan == plan == DeletePlan(t, filename, datetime, user);
  }

  /** `commitFile` and `uploadFile`: the new latest commit holds the old
      latest commit's rows with every row named `filename` removed, each
      with its hash and datetime, plus one row for `filename`; the blob is
      stored only if its hash is new and an existing blob is never
      rewritten; the rows of every earlier commit stay as they were. */
  lemma WriteHead(t: Tables, verb: string, filename: string, content: seq<byte>, hashOf: seq<byte> -> string,
                  datetime: string, user: string)
    requires WellFormed(t)
    ensures var r := Run(t, WritePlan(t, verb, filename, hashOf(content), content, datetime, user));
      r.Some? && var u := r.value;
      && HeadRows(u) == Without(HeadRows(t), filename) + [Entry(filename, hashOf(content), datetime)]
      && |u.commits| == |t.commits| + 1
      && (forall id :: id != |u.commits| ==> RowsOf(u.files, id) == RowsOf(t.files, id))
      && hashOf(content) in u.blobs
      && u.blobs[hashOf(content)] == (if hashOf(content) in t.blobs then t.blobs[hashOf(content)] else content)
      && (forall h :: h in t.blobs ==> h in u.blobs && u.blobs[h] == t.blobs[h])
      && WellFormed(u)
  {
    var hash := hashOf(content);
    WriteOutcome(t, verb, filename, hash, content, datetime, user);
    FiledRows(WithBlob(t, hash, content), CommitRow(verb + filename, datetime, user),
              Carried(t, filename) + [Entry(filename, hash, datetime)]);
  }

  /** `deleteFile`: the new latest commit holds the old latest commit's
      rows minus those named `filename`; blobs and earlier commits stay. */
  lemma DeleteHead(t: Tables, filename: string, datetime: string, user: string)
    requires WellFormed(t)
    ensures var r := Run(t, DeletePlan(t, filename, datetime, user));
      r.Some? && var u := r.value;
      && HeadRows(u) == Without(HeadRows(t), filename)
      && |u.commits| == |t.commits| + 1
      && (forall id :: id != |u.commits| ==> RowsOf(u.files, id) == RowsOf(t.files, id))
      && u.blobs == t.blobs
      && WellFormed(u)
  {
    DeleteOutcome(t, filename, datetime, user);
    FiledRows(t, CommitRow("Deleted: " + filename, datetime, user), Carried(t, filename));
  }

  /** Writes keep every blob under the hash of its bytes and every row
      pointing at a stored blob. */
  lemma WriteKeepsConsistent(t: Tables, verb: string, filename: string, content: seq<byte>,
                             hashOf: seq<byte> -> string, datetime: string, user: string)
    requires Consistent(t, hashOf)
    ensures var r := Run(t, WritePlan(t, verb, filename, hashOf(content), content, datetime, user));
      r.Some? && Consistent(r.value, hashOf)
  {
    var hash := hashOf(content);
    var b := WithBlob(t, hash, content);
    var rows := Carried(t, filename) + [Entry(filename, hash, datetime)];
    WriteOutcome(t, verb, filename, hash, content, datetime, user);
    WithBlobConsistent(t, hashOf, content);
    HeadRowsStored(t, hashOf);
    WithoutMembers(HeadRows(t), filename);
    FiledConsistent(b, hashOf, CommitRow(verb + filename, datetime, user), rows);
  }

  lemma DeleteKeepsConsistent(t: Tables, filename: string, hashOf: seq<byte> -> string, datetime: string, user: string)
    requires Consistent(t, hashOf)
    ensures var r := Run(t, DeletePlan(t, filename, datetime, user));
      r.Some? && Consistent(r.value, hashOf)
  {
    DeleteOutcome(t, filename, datetime, user);
    HeadRowsStored(t, hashOf);
    WithoutMembers(HeadRows(t), filename);
    FiledConsistent(t, hashOf, CommitRow("Deleted: " + filename, datetime, user), Carried(t, filename));
  }

  /** No atomicity: when a write fails after the commit insert and the
      first j copies, the latest commit is the new one and holds just those
      j rows; the written file and every later row are missing from it
      (with j = 0 the repository looks empty). */
  lemma PartialWrite(t: Tables, verb: string, filename: string, hash: string, content: seq<byte>,
                     datetime: string, user: string, j: nat)
    requires WellFormed(t) && j <= |Carried(t, filename)|
    ensures var plan := WritePlan(t, verb, filename, hash, content, datetime, user);
      var k := |BlobPart(t, hash, content)| + 1 + j;
      k < |plan| && Run(t, plan[..k]).Some?
      && HeadRows(Run(t, plan[..k]).value) == Carried(t, filename)[..j]
  {
    var rows := Carried(t, filename)[..j];
    var c := CommitRow(verb + filename, datetime, user);
    PartialWriteRun(t, verb, filename, hash, content, datetime, user, j);
    FiledRows(WithBlob(t, hash, content), c, rows);
  }

  lemma PartialWriteRun(t: Tables, verb: string, filename: string, hash: string, content: seq<byte>,
                        datetime: string, user: string, j: nat)
    requires j <= |Carried(t, filename)|
    ensures var plan := WritePlan(t, verb, filename, hash, content, datetime, user);
      var k := |BlobPart(t, hash, content)| + 1 + j;
      k < |plan| && Run(t, plan[..k])
        == Some(Filed(WithBlob(t, hash, content), CommitRow(verb + filename, datetime, user), Carried(t, filename)[..j]))
  {
    var c := CommitRow(verb + filename, datetime, user);
    PartialPlanPrefix(t, verb, filename, hash, content, datetime, user, j);
    BlobPartRun(t, hash, content);
    RunCommit(t, BlobPart(t, hash, content), WithBlob(t, hash, content), c, Carried(t, filename)[..j], false);
  }

  /** The first statements of a write plan, up to the j-th copy. */
  lemma PartialPlanPrefix(t: Tables, verb: string, filename: string, hash: string, content: seq<byte>,
                          datetime: string, user: string, j: nat)
    requires j <= |Carried(t, filename)|
    ensures var plan := WritePlan(t, verb, filename, hash, content, datetime, user);
      var b := BlobPart(t, hash, content);
      |b| + 1 + j < |plan|
      && plan[..|b| + 1 + j] == b + ([InsertCommit(CommitRow(verb + filename, datetime, user))]
                                     + Reinsert(Carried(t, filename)[..j], |t.commits| + 1))
  {
    var b := BlobPart(t, hash, content);
    var c := CommitRow(verb + filename, datetime, user);
    var all := Carried(t, filename) + [Entry(filename, hash, datetime)];
    var id := |t.commits| + 1;
    WritePlanSplit(t, verb, filename, hash, content, datetime, user);
    PrefixOfConcat(b, [InsertCommit(c)], Reinsert(all, id), j);
    ReinsertPrefix(all, id, j);
    assert all[..j] == Carried(t, filename)[..j];
  }

  lemma PrefixOfConcat<T>(x: seq<T>, y: seq<T>, z: seq<T>, j: nat)
    requires j <= |z|
    ensures (x + (y + z))[..|x| + |y| + j] == x + (y + z[..j])
  {
  }

  lemma ReinsertPrefix(rows: seq<Entry>, id: nat, j: nat)
    requires j <= |rows|
    ensures Reinsert(rows, id)[..j] == Reinsert(rows[..j], id)
  {
  }
}
