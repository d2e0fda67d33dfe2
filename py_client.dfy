/** The staging area of the Python client (omi.py, `OmiRepository`). It
    shares the servers' three tables and adds a staging table keyed by file
    name. `_add_one_file` hashes the file and upserts its staging row but
    stores no blob; `commit` inserts a commit, then for every staged row
    stores a blob (re-reading the file) only when no blob has the hash, and
    adds the row under the new commit; everything becomes durable at the
    single `conn.commit()`. */
module PyClient {
  import opened Text
  import opened Bytes
  import opened Wrappers
  import opened RepoTables
  import opened Fips180

  /** `INSERT OR REPLACE INTO staging`: the row with the same file name, if
      any, is deleted and the new row goes last. */
  function Upsert(staging: seq<Entry>, e: Entry): seq<Entry>
  {
    Without(staging, e.filename) + [e]
  }

  /** The primary key of `staging`: no file name twice. */
  predicate Distinct(rows: seq<Entry>)
  {
    forall i, j :: 0 <= i < j < |rows| ==> rows[i].filename != rows[j].filename
  }

  /** `_add_one_file` on a regular file holding `data`. */
  function Added(w: Workspace, filename: string, data: seq<byte>, now: string, hashOf: seq<byte> -> string): Workspace
  {
    Workspace(w.repo, Upsert(w.staging, Entry(filename, hashOf(data), now)))
  }

  /** `_add_one_file` for each name in turn; `fs` gives the bytes of a
      regular file and no value for anything else. */
  function AddedAll(w: Workspace, names: seq<string>, fs: string -> Option<seq<byte>>, now: string,
                    hashOf: seq<byte> -> string): Workspace
  {
    if names == [] then w
    else
      var v := AddedAll(w, names[..|names| - 1], fs, now, hashOf);
      var n := names[|names| - 1];
      if fs(n).Some? then Added(v, n, fs(n).value, now, hashOf) else v
  }

  /** The names `add --all` passes on: regular files other than the
      database and `.omi`. */
  function Selected(listing: seq<string>, fs: string -> Option<seq<byte>>, dbName: string): (r: seq<string>)
    ensures forall n :: n in r <==> n in listing && fs(n).Some? && n != dbName && n != ".omi"
  {
    if listing == [] then []
    else
      var n := listing[|listing| - 1];
      Selected(listing[..|listing| - 1], fs, dbName)
      + if fs(n).Some? && n != dbName && n != ".omi" then [n] else []
  }

  /** `os.getenv("USER", "unknown")`. */
  function UserName(env: Option<string>): string
  {
    if env.Some? then env.value else "unknown"
  }

  /** `_commit_one_file`: when no blob has the staged hash, the file is
      read again (`read` is the file system at commit time; no value when
      the file is gone, which raises) and its bytes are stored under the
      staged hash; then the row is added under commit `id`. */
  function StoreOne(t: Tables, e: Entry, id: nat, read: string -> Option<seq<byte>>): Option<Tables>
  {
    if e.hash in t.blobs then Some(t.(files := t.files + [FileRow(e, id)]))
    else if read(e.filename).None? then None
    else Some(Tables(t.blobs[e.hash := read(e.filename).value], t.commits, t.files + [FileRow(e, id)]))
  }

  /** The loop of `commit` over the staged rows, in order. */
  function StoreAll(t: Tables, rows: seq<Entry>, id: nat, read: string -> Option<seq<byte>>): Option<Tables>
  {
    if rows == [] then Some(t)
    else
      var u := StoreAll(t, rows[..|rows| - 1], id, read);
      if u.None? then None else StoreOne(u.value, rows[|rows| - 1], id, read)
  }

  /** `commit`: no value when a file needed for a blob is gone, in which
      case the transaction is never committed. */
  function Committed(w: Workspace, message: string, user: string, now: string,
                     read: string -> Option<seq<byte>>): Option<Workspace>
  {
    var t := w.repo.(commits := w.repo.commits + [CommitRow(message, now, user)]);
    var u := StoreAll(t, w.staging, |t.commits|, read);
    if u.None? then None else Some(Workspace(u.value, []))
  }

  /** `_add_one_file` as it evidently should be: the bytes that were
      hashed are stored at once, unless a blob has the hash. */
  function AddedFixed(w: Workspace, filename: string, data: seq<byte>, now: string, hashOf: seq<byte> -> string): Workspace
  {
    Workspace(WithBlob(w.repo, hashOf(data), data), Upsert(w.staging, Entry(filename, hashOf(data), now)))
  }

  class PyRepo {
    var blobs: map<string, seq<byte>>
    var commits: seq<CommitRow>
    var files: seq<FileRow>
    var staging: seq<Entry>

    function State(): Workspace
      reads this
    {
      Workspace(Tables(blobs, commits, files), staging)
    }

    /** `init` on a new database file. */
    constructor ()
      ensures State() == Workspace(Tables(map[], [], []), [])
    {
      blobs, commits, files, staging := map[], [], [], [];
    }

    /** `_add_one_file`; `file` is the bytes of a regular file, no value
        when there is none. */
    method AddOneFile(filename: string, file: Option<seq<byte>>, now: string) returns (ok: bool)
      modifies this
      ensures ok <==> file.Some?
      ensures State() == if ok then Added(old(State()), filename, file.value, now, HexDigest) else old(State())
    {
      if file.None? {
        return false;
      }
      var hashValue := HexDigest(file.value);
      staging := Upsert(staging, Entry(filename, hashValue, now));
      ok := true;
    }

    /** `add_files`: `--all` walks the directory listing, any other
        pattern names one file. */
    method AddFiles(pattern: string, listing: seq<string>, fs: string -> Option<seq<byte>>, dbName: string,
                    now: string)
      modifies this
      ensures State() == if pattern == "--all" then AddedAll(old(State()), Selected(listing, fs, dbName), fs, now, HexDigest)
                         else AddedAll(old(State()), [pattern], fs, now, HexDigest)
    {
      if pattern == "--all" {
        AddAll(listing, fs, dbName, now);
      } else {
        var _ := AddOneFile(pattern, fs(pattern), now);
        assert [pattern][..0] == [];
      }
    }

    /** The loop of `add --all` over `os.listdir(".")`. */
    method AddAll(listing: seq<string>, fs: string -> Option<seq<byte>>, dbName: string, now: string)
      modifies this
      ensures State() == AddedAll(old(State()), Selected(listing, fs, dbName), fs, now, HexDigest)
    {
      ghost var chosen: seq<string> := [];
      for i := 0 to |listing|
        invariant chosen == Selected(listing[..i], fs, dbName)
        invariant State() == AddedAll(old(State()), chosen, fs, now, HexDigest)
      {
        var filename := listing[i];
        SelectedStep(listing, i, fs, dbName);
        if fs(filename).Some? && filename != dbName && filename != ".omi" {
          var _ := AddOneFile(filename, fs(filename), now);
          AddedAllStep(old(State()), chosen, filename, fs, now, HexDigest);
          chosen := chosen + [filename];
        }
      }
      assert listing[..|listing|] == listing;
    }

    /** `_commit_one_file` through the shared cursor. */
    method CommitOneFile(e: Entry, id: nat, read: string -> Option<seq<byte>>) returns (ok: bool)
      modifies this
      ensures ok <==> StoreOne(old(State()).repo, e, id, read).Some?
      ensures ok ==> State() == Workspace(StoreOne(old(State()).repo, e, id, read).value, old(staging))
    {
      var blobCount := if e.hash in blobs then 1 else 0;
      if blobCount == 0 {
        var data := read(e.filename);
        if data.None? {
          return false;
        }
        blobs := blobs[e.hash := data.value];
      }
      files := files + [FileRow(e, id)];
      ok := true;
    }

    /** `commit`. A file that is gone when its blob must be stored raises;
        the open transaction is then never committed, so nothing changes. */
    method Commit(message: string, userEnv: Option<string>, now: string, read: string -> Option<seq<byte>>)
      returns (ok: bool, commitId: nat)
      modifies this
      ensures var r := Committed(old(State()), message, UserName(userEnv), now, read);
        (ok <==> r.Some?) && State() == if ok then r.value else old(State())
      ensures ok ==> commitId == |old(commits)| + 1
    {
      var user := UserName(userEnv);
      var saved := State();
      commits := commits + [CommitRow(message, now, user)];
      commitId := |commits|;
      var stagedFiles := staging;
      var t := State().repo;
      ok := true;
      for i := 0 to |stagedFiles|
        invariant ok ==> StoreAll(t, stagedFiles[..i], commitId, read) == Some(State().repo)
        invariant ok ==> staging == stagedFiles
        invariant !ok ==> StoreAll(t, stagedFiles, commitId, read).None?
      {
        if ok {
          assert stagedFiles[..i + 1][..i] == stagedFiles[..i];
          ok := CommitOneFile(stagedFiles[i], commitId, read);
          if !ok {
            StoreAllFails(t, stagedFiles, commitId, read, i + 1);
          }
        }
      }
      if !ok {
        blobs, commits, files, staging := saved.repo.blobs, saved.repo.commits, saved.repo.files, saved.staging;
        return;
      }
      assert stagedFiles[..|stagedFiles|] == stagedFiles;
      staging := [];
    }

    /** `_add_one_file` storing the blob at once (see `AddedFixed`). */
    method AddOneFileFixed(filename: string, file: Option<seq<byte>>, now: string) returns (ok: bool)
      modifies this
      ensures ok <==> file.Some?
      ensures State() == if ok then AddedFixed(old(State()), filename, file.value, now, HexDigest) else old(State())
    {
      if file.None? {
        return false;
      }
      var hashValue := HexDigest(file.value);
      if hashValue !in blobs {
        blobs := blobs[hashValue := file.value];
      }
      staging := Upsert(staging, Entry(filename, hashValue, now));
      ok := true;
    }
  }

  lemma SelectedStep(listing: seq<string>, i: nat, fs: string -> Option<seq<byte>>, dbName: string)
    requires i < |listing|
    ensures var n := listing[i];
      Selected(listing[..i + 1], fs, dbName)
      == Selected(listing[..i], fs, dbName) + if fs(n).Some? && n != dbName && n != ".omi" then [n] else []
  {
    assert listing[..i + 1][..i] == listing[..i];
  }

  lemma AddedAllStep(w: Workspace, names: seq<string>, n: string, fs: string -> Option<seq<byte>>, now: string,
                     hashOf: seq<byte> -> string)
    requires fs(n).Some?
    ensures AddedAll(w, names + [n], fs, now, hashOf) == Added(AddedAll(w, names, fs, now, hashOf), n, fs(n).value, now, hashOf)
  {
    assert (names + [n])[..|names|] == names;
  }

  /** Once a prefix of the loop fails the whole loop fails. */
  lemma {:induction false} StoreAllFails(t: Tables, rows: seq<Entry>, id: nat, read: string -> Option<seq<byte>>, k: nat)
    requires k <= |rows| && StoreAll(t, rows[..k], id, read).None?
    ensures StoreAll(t, rows, id, read).None?
    decreases |rows| - k
  {
    if k < |rows| {
      assert rows[..k + 1][..k] == rows[..k];
      StoreAllFails(t, rows, id, read, k + 1);
    } else {
      assert rows[..k] == rows;
    }
  }

  /** Upserting keeps the names distinct, leaves exactly one row for the
      name (the new one) and every row for another name. */
  lemma UpsertSpec(rows: seq<Entry>, e: Entry)
    requires Distinct(rows)
    ensures Distinct(Upsert(rows, e))
    ensures e in Upsert(rows, e)
    ensures forall r :: r in Upsert(rows, e) && r.filename == e.filename ==> r == e
    ensures forall r :: r in rows && r.filename != e.filename ==> r in Upsert(rows, e)
  {
    WithoutMembers(rows, e.filename);
    WithoutDistinct(rows, e.filename);
  }

  lemma {:induction false} WithoutDistinct(rows: seq<Entry>, name: string)
    requires Distinct(rows)
    ensures Distinct(Without(rows, name))
  {
    if rows != [] {
      var init := rows[..|rows| - 1];
      assert Distinct(init) by {
        assert forall k :: 0 <= k < |init| ==> init[k] == rows[k];
      }
      WithoutDistinct(init, name);
      WithoutMembers(init, name);
      assert forall r :: r in init ==> r.filename != rows[|rows| - 1].filename;
    }
  }

  /** Adding the same file twice keeps one staged row for it, with the
      latest hash and datetime. */
  lemma AddTwiceKeepsLatest(w: Workspace, filename: string, first: seq<byte>, second: seq<byte>,
                            earlier: string, now: string, hashOf: seq<byte> -> string)
    requires Distinct(w.staging)
    ensures var v := Added(Added(w, filename, first, earlier, hashOf), filename, second, now, hashOf);
      Distinct(v.staging)
      && Entry(filename, hashOf(second), now) in v.staging
      && forall r :: r in v.staging && r.filename == filename ==> r == Entry(filename, hashOf(second), now)
  {
    var u := Added(w, filename, first, earlier, hashOf);
    UpsertSpec(w.staging, Entry(filename, hashOf(first), earlier));
    UpsertSpec(u.staging, Entry(filename, hashOf(second), now));
  }

  /** `add --all` never stages the database itself nor `.omi`, and stages
      nothing but regular files of the listing. */
  lemma {:induction false} AddAllSkips(w: Workspace, names: seq<string>, fs: string -> Option<seq<byte>>, now: string,
                                       hashOf: seq<byte> -> string)
    ensures forall r :: r in AddedAll(w, names, fs, now, hashOf).staging ==> r in w.staging || (r.filename in names && fs(r.filename).Some?)
  {
    if names != [] {
      var init := names[..|names| - 1];
      var n := names[|names| - 1];
      AddAllSkips(w, init, fs, now, hashOf);
      var v := AddedAll(w, init, fs, now, hashOf);
      if fs(n).Some? {
        WithoutMembers(v.staging, n);
      }
    }
  }

  lemma AddAllNeverDatabase(w: Workspace, listing: seq<string>, fs: string -> Option<seq<byte>>, dbName: string,
                            now: string, hashOf: seq<byte> -> string)
    ensures forall r :: r in AddedAll(w, Selected(listing, fs, dbName), fs, now, hashOf).staging ==>
                        r.filename == dbName || r.filename == ".omi" ==> r in w.staging
  {
    AddAllSkips(w, Selected(listing, fs, dbName), fs, now, hashOf);
  }

  /** One step keeps the commits, never rewrites a blob, stores the
      staged hash and appends the row under `id`. */
  lemma StoreOneSpec(t: Tables, e: Entry, id: nat, read: string -> Option<seq<byte>>)
    requires StoreOne(t, e, id, read).Some?
    ensures var u := StoreOne(t, e, id, read).value;
      && u.commits == t.commits
      && u.files == t.files + [FileRow(e, id)]
      && (forall h :: h in t.blobs ==> h in u.blobs && u.blobs[h] == t.blobs[h])
      && e.hash in u.blobs
  {
  }

  /** The loop keeps the commits, never rewrites a blob, stores every
      staged hash and appends the rows under `id`, in order. */
  lemma {:induction false} StoreAllSpec(t: Tables, rows: seq<Entry>, id: nat, read: string -> Option<seq<byte>>)
    requires StoreAll(t, rows, id, read).Some?
    ensures var u := StoreAll(t, rows, id, read).value;
      && u.commits == t.commits
      && u.files == t.files + Stamp(rows, id)
      && (forall h :: h in t.blobs ==> h in u.blobs && u.blobs[h] == t.blobs[h])
      && (forall e :: e in rows ==> e.hash in u.blobs)
  {
    if rows != [] {
      var init, last := rows[..|rows| - 1], rows[|rows| - 1];
      StoreAllSpec(t, init, id, read);
      var u0 := StoreAll(t, init, id, read).value;
      StoreOneSpec(u0, last, id, read);
      var u := StoreAll(t, rows, id, read).value;
      assert u == StoreOne(u0, last, id, read).value;
      assert Stamp(rows, id) == Stamp(init, id) + [FileRow(last, id)];
      assert u.files == (t.files + Stamp(init, id)) + [FileRow(last, id)];
      assert forall e :: e in rows ==> e in init || e == last by {
        assert rows == init + [last];
      }
    }
  }

  /** The loop goes through when every staged row's blob is present or its
      file can be read. */
  lemma {:induction false} StoreAllSucceeds(t: Tables, rows: seq<Entry>, id: nat, read: string -> Option<seq<byte>>)
    requires forall e :: e in rows ==> e.hash in t.blobs || read(e.filename).Some?
    ensures StoreAll(t, rows, id, read).Some?
  {
    if rows != [] {
      var init := rows[..|rows| - 1];
      assert forall e :: e in init ==> e in rows;
      StoreAllSucceeds(t, init, id, read);
      StoreAllSpec(t, init, id, read);
    }
  }

  /** A commit always adds one commit, even with nothing staged; its rows
      are exactly the staged rows; earlier commits and stored blobs stay as
      they were; staging is emptied. It fails only when a file whose blob
      is missing cannot be read again. */
  lemma CommittedSpec(w: Workspace, message: string, user: string, now: string, read: string -> Option<seq<byte>>)
    requires WellFormed(w.repo)
    ensures (forall e :: e in w.staging ==> e.hash in w.repo.blobs || read(e.filename).Some?)
            ==> Committed(w, message, user, now, read).Some?
    ensures Committed(w, message, user, now, read).Some? ==>
      var v := Committed(w, message, user, now, read).value;
      && v.repo.commits == w.repo.commits + [CommitRow(message, now, user)]
      && HeadRows(v.repo) == w.staging
      && (forall id :: id != |v.repo.commits| ==> RowsOf(v.repo.files, id) == RowsOf(w.repo.files, id))
      && (forall h :: h in w.repo.blobs ==> h in v.repo.blobs && v.repo.blobs[h] == w.repo.blobs[h])
      && v.staging == []
      && WellFormed(v.repo)
  {
    var c := CommitRow(message, now, user);
    var t := w.repo.(commits := w.repo.commits + [c]);
    var id := |t.commits|;
    if forall e :: e in w.staging ==> e.hash in w.repo.blobs || read(e.filename).Some? {
      StoreAllSucceeds(t, w.staging, id, read);
    }
    if StoreAll(t, w.staging, id, read).Some? {
      StoreAllSpec(t, w.staging, id, read);
      FiledRows(w.repo, c, w.staging);
      assert Filed(w.repo, c, w.staging).files == StoreAll(t, w.staging, id, read).value.files;
    }
  }

  /** As written, a file changed between `add` and `commit` is stored with
      its new bytes under the hash of its old bytes. */
  lemma StaleBlobStored(w: Workspace, filename: string, staged: seq<byte>, changed: seq<byte>,
                        earlier: string, message: string, user: string, now: string,
                        read: string -> Option<seq<byte>>, hashOf: seq<byte> -> string)
    requires w.staging == [] && hashOf(staged) !in w.repo.blobs && read(filename) == Some(changed)
    ensures var r := Committed(Added(w, filename, staged, earlier, hashOf), message, user, now, read);
      r.Some? && r.value.repo.blobs[hashOf(staged)] == changed
      && (hashOf(changed) != hashOf(staged) ==> !Consistent(r.value.repo, hashOf))
  {
    var h := hashOf(staged);
    var e := Entry(filename, h, earlier);
    var staging := Added(w, filename, staged, earlier, hashOf).staging;
    assert Without([], filename) == [];
    assert staging == [e];
    var t := w.repo.(commits := w.repo.commits + [CommitRow(message, now, user)]);
    assert [e][..0] == [];
    assert StoreAll(t, [e], |t.commits|, read) == StoreOne(t, e, |t.commits|, read);
    var u := StoreOne(t, e, |t.commits|, read).value;
    assert u.blobs == t.blobs[h := changed];
    if hashOf(changed) != h {
      assert h in u.blobs && hashOf(u.blobs[h]) != h;
    }
  }

  /** Every blob under its hash, every committed and staged row naming a
      stored blob, every row naming an existing commit, no name staged
      twice. */
  predicate Valid(w: Workspace, hashOf: seq<byte> -> string)
  {
    WellFormed(w.repo) && Consistent(w.repo, hashOf) && Distinct(w.staging)
    && forall e :: e in w.staging ==> e.hash in w.repo.blobs
  }

  /** With the blob stored at add time, the database stays valid, and a
      commit never needs the file again, so it always goes through and
      keeps the database valid whatever the file system then holds. */
  lemma FixedAddKeepsValid(w: Workspace, filename: string, data: seq<byte>, now: string, hashOf: seq<byte> -> string)
    requires Valid(w, hashOf)
    ensures Valid(AddedFixed(w, filename, data, now, hashOf), hashOf)
  {
    var e := Entry(filename, hashOf(data), now);
    var v := AddedFixed(w, filename, data, now, hashOf);
    WithBlobConsistent(w.repo, hashOf, data);
    UpsertSpec(w.staging, e);
    WithoutMembers(w.staging, filename);
    assert WellFormed(v.repo) by {
      assert v.repo.files == w.repo.files && v.repo.commits == w.repo.commits;
    }
    forall r | r in v.staging
      ensures r.hash in v.repo.blobs
    {
      if r != e {
        assert r in Without(w.staging, filename);
      }
    }
  }

  lemma FixedCommitKeepsValid(w: Workspace, message: string, user: string, now: string,
                              read: string -> Option<seq<byte>>, hashOf: seq<byte> -> string)
    requires Valid(w, hashOf)
    ensures Committed(w, message, user, now, read).Some?
    ensures Valid(Committed(w, message, user, now, read).value, hashOf)
  {
    var c := CommitRow(message, now, user);
    var t := w.repo.(commits := w.repo.commits + [c]);
    StoreAllSucceeds(t, w.staging, |t.commits|, read);
    StoreAllSpec(t, w.staging, |t.commits|, read);
    var u := StoreAll(t, w.staging, |t.commits|, read).value;
    assert u.blobs == w.repo.blobs by {
      StoreAllKeepsBlobs(t, w.staging, |t.commits|, read);
    }
    FiledRows(w.repo, c, w.staging);
    FiledConsistent(w.repo, hashOf, c, w.staging);
    assert u == Filed(w.repo, c, w.staging);
  }

  /** When every staged hash is stored the loop stores no blob. */
  lemma {:induction false} StoreAllKeepsBlobs(t: Tables, rows: seq<Entry>, id: nat, read: string -> Option<seq<byte>>)
    requires forall e :: e in rows ==> e.hash in t.blobs
    ensures StoreAll(t, rows, id, read).Some? && StoreAll(t, rows, id, read).value.blobs == t.blobs
  {
    if rows != [] {
      var init := rows[..|rows| - 1];
      assert forall e :: e in init ==> e in rows;
      StoreAllKeepsBlobs(t, init, id, read);
    }
  }
}
