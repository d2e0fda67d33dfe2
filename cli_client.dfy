/** The staging area of the C client (cli/omi.c): `add` hashes a file with
    the client's own SHA-256 and appends a staging row, `commit` turns every
    staging row into a row of one new commit and empties staging. Unlike the
    servers, a commit holds the staged rows only: nothing is carried over
    from the previous commit, and an empty staging table still makes an
    empty commit. The client checks only that the database opens and
    ignores every statement's result; `AddSteps` and `CommitSteps` say
    which statements took effect. */
module CliClient {
  import opened Text
  import opened Bytes
  import opened Wrappers
  import opened RepoTables
  import opened Fips180
  import CliSha256

  /** `basename_simple` on POSIX: what follows the last `/`. */
  function BaseNameSimple(path: string): (r: string)
    ensures EndsWith(path, r) && '/' !in r
  {
    AfterLast(path, '/')
  }

  /** `should_skip_file`: the name is `.omi` or contains `.omi`. */
  predicate ShouldSkipFile(path: string)
  {
    var base := BaseNameSimple(path);
    base == ".omi" || Contains(base, ".omi")
  }

  /** Which steps of `add_file_to_db` took effect. The source checks only
      `sqlite3_open`; it ignores whether each statement was prepared and
      whether its `sqlite3_step` succeeded (SQLITE_BUSY while another
      connection holds the lock, say), so either insert may be missing
      while the add still reports success. */
  datatype AddSteps = AddSteps(connected: bool, blobInserted: bool, staged: bool)

  /** The steps of an add that goes through. */
  const AllAddSteps := AddSteps(true, true, true)

  /** The tables after `add_file_to_db` has read the file and opened the
      database: the blob is inserted unless its hash is stored, and one
      more staging row is appended, each only if its statement took
      effect. */
  function AddAttempt(w: Workspace, filename: string, data: seq<byte>, now: string, hashOf: seq<byte> -> string,
                      steps: AddSteps): Workspace
  {
    Workspace(if steps.blobInserted then WithBlob(w.repo, hashOf(data), data) else w.repo,
              if steps.staged then w.staging + [Entry(filename, hashOf(data), now)] else w.staging)
  }

  /** An add whose statements all took effect. */
  function Added(w: Workspace, filename: string, data: seq<byte>, now: string, hashOf: seq<byte> -> string): Workspace
  {
    AddAttempt(w, filename, data, now, hashOf, AllAddSteps)
  }

  /** Which steps of `commit_files` took effect; the source checks only
      `sqlite3_open`. `committed`: the commit insert. `read`: how many
      staged rows the SELECT loop reads before a step that is not a row
      ends it. `failed`: the positions, among those rows, whose file
      insert did not take effect. `cleared`: the final
      `DELETE FROM staging`. A statement that cannot be prepared is a step
      that did not take effect. */
  datatype CommitSteps = CommitSteps(connected: bool, committed: bool, read: nat, failed: set<nat>, cleared: bool)

  /** The rows among `rows` whose insert took effect, in order. */
  function Surviving(rows: seq<Entry>, failed: set<nat>): seq<Entry>
    decreases |rows|
  {
    if rows == [] then []
    else Surviving(rows[..|rows| - 1], failed) + (if |rows| - 1 in failed then [] else [rows[|rows| - 1]])
  }

  /** The file rows the insert loop writes for `rows`: one under `id` per
      row whose insert took effect. */
  function LoopRows(rows: seq<Entry>, failed: set<nat>, id: nat): seq<FileRow>
    decreases |rows|
  {
    if rows == [] then []
    else LoopRows(rows[..|rows| - 1], failed, id) + (if |rows| - 1 in failed then [] else [FileRow(rows[|rows| - 1], id)])
  }

  /** The loop writes the surviving rows stamped with `id`. */
  lemma {:induction false} LoopRowsStamp(rows: seq<Entry>, failed: set<nat>, id: nat)
    ensures LoopRows(rows, failed, id) == Stamp(Surviving(rows, failed), id)
    decreases |rows|
  {
    if rows != [] {
      var front := rows[..|rows| - 1];
      LoopRowsStamp(front, failed, id);
      var kept := Surviving(front, failed);
      if |rows| - 1 !in failed {
        assert (kept + [rows[|rows| - 1]])[..|kept|] == kept;
      }
    }
  }

  /** The staged rows the SELECT loop reaches. */
  function ReadRows(staging: seq<Entry>, read: nat): seq<Entry>
  {
    if read < |staging| then staging[..read] else staging
  }

  /** `sqlite3_last_insert_rowid` after the commit insert: the new id, or
      0 on the fresh connection when the insert did not take effect. */
  function CommitId(w: Workspace, steps: CommitSteps): nat
  {
    if steps.committed then |w.repo.commits| + 1 else 0
  }

  /** The tables after `commit_files` has opened the database: one commit
      row if its insert took effect, the surviving staged rows filed under
      `CommitId`, and staging emptied if the delete took effect. */
  function CommitAttempt(w: Workspace, message: string, user: string, now: string, steps: CommitSteps): Workspace
  {
    var rows := Surviving(ReadRows(w.staging, steps.read), steps.failed);
    Workspace(if steps.committed then Filed(w.repo, CommitRow(message, now, user), rows)
              else w.repo.(files := w.repo.files + Stamp(rows, 0)),
              if steps.cleared then [] else w.staging)
  }

  /** `commit_files` when every step takes effect: one commit row, then the
      staged rows under its id. */
  function Committed(w: Workspace, message: string, user: string, now: string): Workspace
  {
    Workspace(Filed(w.repo, CommitRow(message, now, user), w.staging), [])
  }

  /** Every blob is stored under its hash, every row of a commit and of
      staging names a stored blob, and every row names an existing commit or
      id 0, which names none. */
  predicate Valid(w: Workspace, hashOf: seq<byte> -> string)
  {
    WellFormed(w.repo) && Consistent(w.repo, hashOf)
    && forall e :: e in w.staging ==> e.hash in w.repo.blobs
  }

  class CliDb {
    var blobs: map<string, seq<byte>>
    var commits: seq<CommitRow>
    var files: seq<FileRow>
    var staging: seq<Entry>

    function State(): Workspace
      reads this
    {
      Workspace(Tables(blobs, commits, files), staging)
    }

    /** `init_db` on a new database file: four empty tables. */
    constructor ()
      ensures State() == Workspace(Tables(map[], [], []), [])
    {
      blobs, commits, files, staging := map[], [], [], [];
    }

    /** `sha256_hex` into the 65-character buffer of `add_file_to_db`, read
        back as the text before its NUL. */
    static method HashText(data: seq<byte>) returns (hash: string)
      ensures hash == HexDigest(data)
    {
      var hashHex := new char[65];
      CliSha256.Sha256Hex(data, hashHex);
      hash := hashHex[..64];
    }

    /** `add_file_to_db`. `loaded` is what `load_file` read: no value when
        the file cannot be opened or read. An empty file is refused too.
        `steps` says which database steps took effect. */
    method AddFileToDb(filename: string, loaded: Option<seq<byte>>, now: string, steps: AddSteps) returns (ok: bool)
      modifies this
      ensures ok <==> loaded.Some? && loaded.value != [] && steps.connected
      ensures State() == if ok then AddAttempt(old(State()), filename, loaded.value, now, HexDigest, steps) else old(State())
    {
      if loaded.None? || loaded.value == [] {
        return false;
      }
      var data := loaded.value;
      var hash := HashText(data);
      if !steps.connected {
        return false;
      }
      if steps.blobInserted && hash !in blobs {
        blobs := blobs[hash := data];
      }
      if steps.staged {
        staging := staging + [Entry(filename, hash, now)];
      }
      ok := true;
    }

    /** The SELECT loop of `commit_files` over the rows it reads: each row
        whose insert takes effect is filed under `id`. */
    method FileStaged(rows: seq<Entry>, failed: set<nat>, id: nat)
      modifies this
      ensures files == old(files) + Stamp(Surviving(rows, failed), id)
      ensures blobs == old(blobs) && commits == old(commits) && staging == old(staging)
    {
      var i: nat := 0;
      while i < |rows|
        invariant 0 <= i <= |rows|
        invariant files == old(files) + LoopRows(rows[..i], failed, id)
        invariant blobs == old(blobs) && commits == old(commits) && staging == old(staging)
      {
        assert rows[..i + 1][..i] == rows[..i];
        if i !in failed {
          files := files + [FileRow(rows[i], id)];
        }
        i := i + 1;
      }
      assert rows[..i] == rows;
      LoopRowsStamp(rows, failed, id);
    }

    /** `commit_files`: the new commit's id is the last inserted rowid.
        `steps` says which database steps took effect; `ok` is false only
        when the database cannot be opened. */
    method CommitFiles(message: string, user: string, now: string, steps: CommitSteps) returns (ok: bool, commitId: nat)
      modifies this
      ensures ok == steps.connected
      ensures commitId == if ok then CommitId(old(State()), steps) else 0
      ensures State() == if ok then CommitAttempt(old(State()), message, user, now, steps) else old(State())
    {
      if !steps.connected {
        return false, 0;
      }
      ok := true;
      if steps.committed {
        commits := commits + [CommitRow(message, now, user)];
        commitId := |commits|;
      } else {
        commitId := 0;
      }
      FileStaged(ReadRows(staging, steps.read), steps.failed, commitId);
      ghost var v := CommitAttempt(old(State()), message, user, now, steps);
      assert v.repo.files == files && v.repo.commits == commits && v.repo.blobs == blobs;
      if steps.cleared {
        staging := [];
      }
    }
  }

  /** A file is skipped exactly when the part of its path after the last
      `/` contains `.omi`; in particular the repository database, whose
      name ends in `.omi`, is never staged by `add --all`. */
  lemma SkipMeans(dir: string, name: string)
    requires '/' !in name
    ensures ShouldSkipFile(dir + "/" + name) <==> Contains(name, ".omi")
    ensures ShouldSkipFile(dir + "/" + name + ".omi")
  {
    SkippedBase(dir, name);
    SkipIff(dir + "/" + name);
    assert dir + "/" + name + ".omi" == dir + "/" + (name + ".omi");
    SkippedBase(dir, name + ".omi");
    SkipIff(dir + "/" + name + ".omi");
    ContainsSuffix(name, ".omi");
  }

  /** The test comes down to whether the base contains `.omi`, since
      `.omi` contains itself. */
  lemma SkipIff(path: string)
    ensures ShouldSkipFile(path) <==> Contains(BaseNameSimple(path), ".omi")
  {
    var omi := ".omi";
    assert StartsWith(omi, omi);
  }

  /** The base of `dir/name` is `name`. */
  lemma SkippedBase(dir: string, name: string)
    requires '/' !in name
    ensures BaseNameSimple(dir + "/" + name) == name
  {
    AfterLastSeparator(dir, '/', name);
  }

  /** A string contains each of its suffixes. */
  lemma {:induction false} ContainsSuffix(a: string, b: string)
    ensures Contains(a + b, b)
    decreases |a|
  {
    if a == [] {
      assert (a + b)[..|b|] == b;
    } else {
      assert (a + b)[1..] == a[1..] + b;
      ContainsSuffix(a[1..], b);
    }
  }

  /** An add stores the blob under the hash of the bytes (an existing blob
      keeps its bytes) and appends exactly one staging row; the commit
      history is untouched. */
  lemma AddedSpec(w: Workspace, filename: string, data: seq<byte>, now: string, hashOf: seq<byte> -> string)
    ensures var v := Added(w, filename, data, now, hashOf);
      && hashOf(data) in v.repo.blobs
      && (forall h :: h in w.repo.blobs ==> h in v.repo.blobs && v.repo.blobs[h] == w.repo.blobs[h])
      && (hashOf(data) !in w.repo.blobs ==> v.repo.blobs[hashOf(data)] == data)
      && |v.staging| == |w.staging| + 1 && v.staging[..|w.staging|] == w.staging
      && v.staging[|w.staging|] == Entry(filename, hashOf(data), now)
      && v.repo.commits == w.repo.commits && v.repo.files == w.repo.files
  {
    var v := Added(w, filename, data, now, hashOf);
    assert v.staging[..|w.staging|] == w.staging;
  }

  /** Staging is append-only: adding the same file twice leaves two rows
      for it, and the next commit holds both. */
  lemma AddTwiceDuplicates(w: Workspace, filename: string, data: seq<byte>, first: string, second: string,
                           message: string, user: string, now: string, hashOf: seq<byte> -> string)
    requires WellFormed(w.repo)
    ensures var h := hashOf(data);
      var v := Committed(Added(Added(w, filename, data, first, hashOf), filename, data, second, hashOf), message, user, now);
      HeadRows(v.repo) == w.staging + [Entry(filename, h, first), Entry(filename, h, second)]
  {
    var h := hashOf(data);
    var u := Added(Added(w, filename, data, first, hashOf), filename, data, second, hashOf);
    assert u.staging == w.staging + [Entry(filename, h, first), Entry(filename, h, second)];
    FiledRows(u.repo, CommitRow(message, now, user), u.staging);
  }

  /** A commit always adds one commit, whose rows are exactly the staged
      rows with their staged datetimes, leaves every earlier commit and
      every blob as it was, and empties staging. */
  lemma CommittedSpec(w: Workspace, message: string, user: string, now: string)
    requires WellFormed(w.repo)
    ensures var v := Committed(w, message, user, now);
      && |v.repo.commits| == |w.repo.commits| + 1
      && v.repo.commits[|w.repo.commits|] == CommitRow(message, now, user)
      && HeadRows(v.repo) == w.staging
      && (forall id :: id != |v.repo.commits| ==> RowsOf(v.repo.files, id) == RowsOf(w.repo.files, id))
      && v.repo.blobs == w.repo.blobs
      && v.staging == []
      && WellFormed(v.repo)
  {
    FiledRows(w.repo, CommitRow(message, now, user), w.staging);
  }

  /** No carry-forward: a path of the previous commit that is not staged
      is absent from the new one, and an empty staging table makes an
      empty commit. */
  lemma CommitDropsUnstaged(w: Workspace, message: string, user: string, now: string, path: string)
    requires WellFormed(w.repo)
    requires forall e :: e in w.staging ==> e.filename != path
    ensures forall e :: e in HeadRows(Committed(w, message, user, now).repo) ==> e.filename != path
    ensures w.staging == [] ==> HeadRows(Committed(w, message, user, now).repo) == []
  {
    FiledRows(w.repo, CommitRow(message, now, user), w.staging);
  }

  /** Adds and commits keep the database valid. */
  lemma AddKeepsValid(w: Workspace, filename: string, data: seq<byte>, now: string, hashOf: seq<byte> -> string)
    requires Valid(w, hashOf)
    ensures Valid(Added(w, filename, data, now, hashOf), hashOf)
  {
    AddAttemptValid(w, filename, data, now, hashOf, AllAddSteps);
  }

  /** Since `add_file_to_db` ignores its step results, an add keeps the
      database valid exactly when the blob insert took effect, the staging
      insert did not, or the blob was already stored: a staging insert that
      goes through after a failed blob insert stages a row naming no
      stored blob, and the next commit files it. */
  lemma AddAttemptValid(w: Workspace, filename: string, data: seq<byte>, now: string, hashOf: seq<byte> -> string,
                        steps: AddSteps)
    requires Valid(w, hashOf)
    ensures Valid(AddAttempt(w, filename, data, now, hashOf, steps), hashOf)
        <==> steps.blobInserted || !steps.staged || hashOf(data) in w.repo.blobs
  {
    var v := AddAttempt(w, filename, data, now, hashOf, steps);
    var e := Entry(filename, hashOf(data), now);
    if steps.blobInserted {
      WithBlobConsistent(w.repo, hashOf, data);
    }
    if steps.blobInserted || !steps.staged || hashOf(data) in w.repo.blobs {
      assert WellFormed(v.repo) by {
        assert v.repo.files == w.repo.files && v.repo.commits == w.repo.commits;
      }
      forall x | x in v.staging
        ensures x.hash in v.repo.blobs
      {
        if x !in w.staging {
          assert x == e;
        }
      }
    } else {
      assert e in v.staging && e.hash !in v.repo.blobs;
    }
  }

  lemma CommitKeepsValid(w: Workspace, message: string, user: string, now: string, hashOf: seq<byte> -> string)
    requires Valid(w, hashOf)
    ensures Valid(Committed(w, message, user, now), hashOf)
  {
    FiledRows(w.repo, CommitRow(message, now, user), w.staging);
    FiledConsistent(w.repo, hashOf, CommitRow(message, now, user), w.staging);
  }

  /** The surviving rows are the rows at positions not in `failed`. */
  lemma {:induction false} SurvivingMembers(rows: seq<Entry>, failed: set<nat>)
    ensures forall e :: e in Surviving(rows, failed) <==> exists i :: 0 <= i < |rows| && i !in failed && rows[i] == e
    decreases |rows|
  {
    if rows != [] {
      var front := rows[..|rows| - 1];
      SurvivingMembers(front, failed);
      forall e | e in Surviving(rows, failed)
        ensures exists i :: 0 <= i < |rows| && i !in failed && rows[i] == e
      {
        if e in Surviving(front, failed) {
          var i :| 0 <= i < |front| && i !in failed && front[i] == e;
          assert rows[i] == e;
        } else {
          assert rows[|rows| - 1] == e;
        }
      }
      forall e | exists i :: 0 <= i < |rows| && i !in failed && rows[i] == e
        ensures e in Surviving(rows, failed)
      {
        var i :| 0 <= i < |rows| && i !in failed && rows[i] == e;
        if i < |front| {
          assert front[i] == e;
        }
      }
    }
  }

  /** With no failed insert, every row survives. */
  lemma {:induction false} SurvivingAll(rows: seq<Entry>)
    ensures Surviving(rows, {}) == rows
    decreases |rows|
  {
    if rows != [] {
      SurvivingAll(rows[..|rows| - 1]);
      assert rows == rows[..|rows| - 1] + [rows[|rows| - 1]];
    }
  }

  /** A commit whose steps all take effect is `Committed`. */
  lemma AllCommitSteps(w: Workspace, message: string, user: string, now: string, read: nat)
    requires read >= |w.staging|
    ensures CommitAttempt(w, message, user, now, CommitSteps(true, true, read, {}, true)) == Committed(w, message, user, now)
  {
    SurvivingAll(w.staging);
  }

  /** What any mix of step results leaves: the blobs stay; staging is
      emptied exactly when the delete took effect, so staged rows whose
      inserts failed are lost; with the commit insert, the new commit holds
      the surviving rows; without it, no commit is added, every commit keeps
      its rows, and the surviving rows are filed under id 0, which names no
      commit. */
  lemma CommitAttemptSpec(w: Workspace, message: string, user: string, now: string, steps: CommitSteps)
    requires WellFormed(w.repo)
    ensures var v := CommitAttempt(w, message, user, now, steps);
      var rows := Surviving(ReadRows(w.staging, steps.read), steps.failed);
      && v.repo.blobs == w.repo.blobs
      && v.staging == (if steps.cleared then [] else w.staging)
      && (steps.committed ==>
            && v.repo.commits == w.repo.commits + [CommitRow(message, now, user)]
            && HeadRows(v.repo) == rows
            && forall id :: id != |v.repo.commits| ==> RowsOf(v.repo.files, id) == RowsOf(w.repo.files, id))
      && (!steps.committed ==>
            && v.repo.commits == w.repo.commits
            && HeadRows(v.repo) == HeadRows(w.repo)
            && RowsOf(v.repo.files, 0) == RowsOf(w.repo.files, 0) + rows
            && forall id :: id != 0 ==> RowsOf(v.repo.files, id) == RowsOf(w.repo.files, id))
      && WellFormed(v.repo)
  {
    var rows := Surviving(ReadRows(w.staging, steps.read), steps.failed);
    if steps.committed {
      FiledRows(w.repo, CommitRow(message, now, user), rows);
    } else {
      var v := CommitAttempt(w, message, user, now, steps);
      var more := Stamp(rows, 0);
      assert v.repo.files == w.repo.files + more;
      forall id: nat
        ensures RowsOf(v.repo.files, id) == RowsOf(w.repo.files, id) + (if id == 0 then rows else [])
      {
        RowsOfAppend(w.repo.files, more, id);
        RowsOfStamp(rows, 0, id);
      }
      assert RowsOf(v.repo.files, 0) == RowsOf(w.repo.files, 0) + rows;
      assert WellFormed(v.repo) by {
        forall i | 0 <= i < |v.repo.files|
          ensures v.repo.files[i].commit <= |v.repo.commits|
        {
          if i >= |w.repo.files| {
            assert v.repo.files[i] == more[i - |w.repo.files|];
          }
        }
      }
    }
  }

  /** Every row a commit files comes from staging. */
  lemma SurvivingStaged(staging: seq<Entry>, read: nat, failed: set<nat>)
    ensures forall e :: e in Surviving(ReadRows(staging, read), failed) ==> e in staging
  {
    var rows := ReadRows(staging, read);
    SurvivingMembers(rows, failed);
    forall e | e in Surviving(rows, failed)
      ensures e in staging
    {
      var i :| 0 <= i < |rows| && i !in failed && rows[i] == e;
      assert staging[i] == e;
    }
  }

  /** Rows filed under id 0 that name stored blobs keep the tables
      consistent. */
  lemma OrphansConsistent(t: Tables, hashOf: seq<byte> -> string, rows: seq<Entry>)
    requires Consistent(t, hashOf)
    requires forall e :: e in rows ==> e.hash in t.blobs
    ensures Consistent(t.(files := t.files + Stamp(rows, 0)), hashOf)
  {
    var u := t.(files := t.files + Stamp(rows, 0));
    var more := Stamp(rows, 0);
    forall i | 0 <= i < |u.files|
      ensures u.files[i].entry.hash in u.blobs
    {
      if i >= |t.files| {
        assert u.files[i] == more[i - |t.files|];
        assert rows[i - |t.files|] in rows;
      }
    }
  }

  /** Unlike a failed add, a failed commit step never breaks validity: the
      rows it files come from staging, and id 0 names no commit. */
  lemma CommitAttemptKeepsValid(w: Workspace, message: string, user: string, now: string, steps: CommitSteps,
                                hashOf: seq<byte> -> string)
    requires Valid(w, hashOf)
    ensures Valid(CommitAttempt(w, message, user, now, steps), hashOf)
  {
    var rows := Surviving(ReadRows(w.staging, steps.read), steps.failed);
    CommitAttemptSpec(w, message, user, now, steps);
    SurvivingStaged(w.staging, steps.read, steps.failed);
    if steps.committed {
      FiledConsistent(w.repo, hashOf, CommitRow(message, now, user), rows);
    } else {
      OrphansConsistent(w.repo, hashOf, rows);
    }
  }
}
