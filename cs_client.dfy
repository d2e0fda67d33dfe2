/** The staging area of the C# client (omi.cs, `OmiRepository`). Its
    database differs from the servers': `files` is one current-state table
    keyed by path, `staging` is keyed by path too (so adding again replaces
    the staged hash), a commit row carries its own short hash and the
    comma-joined list of staged paths, and an empty staging table makes no
    commit at all. */
module CsClient {
  import opened Text
  import opened Bytes
  import opened Wrappers
  import opened Fips180

  /** A row of `files`: the hash and the commit time of the path. */
  datatype Tracked = Tracked(sha256: string, modified: string)

  /** A row of `commits`. */
  datatype CsCommit = CsCommit(hash: string, message: string, files: string, timestamp: string)

  /** A row of `staging`. */
  datatype Staged = Staged(path: string, sha256: string)

  datatype CsState = CsState(blobs: map<string, seq<byte>>, files: map<string, Tracked>,
                             commits: seq<CsCommit>, staging: seq<Staged>)

  function Paths(rows: seq<Staged>): (ps: seq<string>)
    ensures |ps| == |rows|
    ensures forall i :: 0 <= i < |rows| ==> ps[i] == rows[i].path
  {
    if rows == [] then [] else Paths(rows[..|rows| - 1]) + [rows[|rows| - 1].path]
  }

  /** The staged rows for other paths. */
  function Unstage(rows: seq<Staged>, path: string): seq<Staged>
  {
    if rows == [] then []
    else
      var last := rows[|rows| - 1];
      Unstage(rows[..|rows| - 1], path) + if last.path != path then [last] else []
  }

  /** `INSERT OR REPLACE INTO staging`: the row for the path, if any, is
      deleted and the new row goes last, as a fresh rowid does. */
  function Upsert(rows: seq<Staged>, s: Staged): seq<Staged>
  {
    Unstage(rows, s.path) + [s]
  }

  /** The primary key of `staging`: no path twice. */
  predicate Distinct(rows: seq<Staged>)
  {
    forall i, j :: 0 <= i < j < |rows| ==> rows[i].path != rows[j].path
  }

  /** `AddFile` once the file is read. */
  function Added(s: CsState, path: string, data: seq<byte>): CsState
  {
    var h := HexDigest(data);
    s.(blobs := if h in s.blobs then s.blobs else s.blobs[h := data], staging := Upsert(s.staging, Staged(path, h)))
  }

  /** The `files` table after the staged rows are written in order, each
      at time `ts`. */
  function Track(files: map<string, Tracked>, rows: seq<Staged>, ts: string): map<string, Tracked>
  {
    if rows == [] then files
    else
      var last := rows[|rows| - 1];
      Track(files, rows[..|rows| - 1], ts)[last.path := Tracked(last.sha256, ts)]
  }

  /** The first eight hex digits of SHA-256 over the UTF-8 bytes of the
      message followed by the decimal tick count. */
  function CommitHash(message: string, ticks: nat, utf8: string -> seq<byte>): string
  {
    HexDigest(utf8(message + Decimal(ticks)))[..8]
  }

  /** Some commit already has the hash. */
  predicate HashUsed(commits: seq<CsCommit>, hash: string)
  {
    exists i :: 0 <= i < |commits| && commits[i].hash == hash
  }

  /** The primary key of `commits`: no hash twice. */
  predicate HashesDistinct(commits: seq<CsCommit>)
  {
    forall i, j :: 0 <= i < j < |commits| ==> commits[i].hash != commits[j].hash
  }

  /** The line `Main` writes when the commit insert breaks the primary key
      of `commits`: `Error: ` and the message of System.Data.SQLite's
      exception, the result code's text and then SQLite's own message. */
  const DuplicateHashError := "Error: constraint failed\r\nUNIQUE constraint failed: commits.hash"

  /** `Commit` on a non-empty staging table. */
  function Committed(s: CsState, message: string, ts: string, ticks: nat, utf8: string -> seq<byte>): CsState
  {
    CsState(s.blobs, Track(s.files, s.staging, ts),
            s.commits + [CsCommit(CommitHash(message, ticks, utf8), message, Join(Paths(s.staging), ","), ts)], [])
  }

  class CsRepository {
    var blobs: map<string, seq<byte>>
    var files: map<string, Tracked>
    var commits: seq<CsCommit>
    var staging: seq<Staged>

    function State(): CsState
      reads this
    {
      CsState(blobs, files, commits, staging)
    }

    predicate Valid()
      reads this
    {
      Distinct(staging) && HashesDistinct(commits)
    }

    /** `Init` on a new database file. */
    constructor ()
      ensures State() == CsState(map[], map[], [], []) && Valid()
    {
      blobs, files, commits, staging := map[], map[], [], [];
    }

    /** `ComputeSHA256`: the library digest, then two lowercase digits per
        byte appended to a `StringBuilder`. */
    method ComputeSha256(data: seq<byte>) returns (hex: string)
      ensures hex == HexDigest(data)
    {
      var hash := Digest(data);
      var sb := "";
      for i := 0 to |hash|
        invariant sb == LowerHex(hash[..i])
      {
        assert hash[..i + 1][..i] == hash[..i];
        sb := sb + HexPair(hash[i]);
      }
      assert hash[..|hash|] == hash;
      hex := sb;
    }

    /** `AddFile`. `file` is the file's bytes, or no value when
        `File.Exists` is false. The result is the line written. */
    method AddFile(path: string, file: Option<seq<byte>>) returns (output: string)
      requires Valid()
      modifies this
      ensures Valid()
      ensures output == if file.None? then "File not found: " + path else "Added: " + path
      ensures State() == if file.None? then old(State()) else Added(old(State()), path, file.value)
    {
      if file.None? {
        return "File not found: " + path;
      }
      var fileData := file.value;
      var sha := ComputeSha256(fileData);
      if sha !in blobs {
        blobs := blobs[sha := fileData];
      }
      UpsertDistinct(staging, Staged(path, sha));
      staging := Upsert(staging, Staged(path, sha));
      output := "Added: " + path;
    }

    /** The `while (reader.Read())` loop of `Commit`: the staged rows
        into a dictionary, whose keys keep the order of the rows. */
    method ReadStaged() returns (stagedFiles: map<string, string>, keys: seq<string>)
      requires Valid()
      ensures keys == Paths(staging)
      ensures forall k :: 0 <= k < |staging| ==> staging[k].path in stagedFiles && stagedFiles[staging[k].path] == staging[k].sha256
    {
      stagedFiles, keys := map[], [];
      var rows := staging;
      var i := 0;
      while i < |rows|
        invariant 0 <= i <= |rows|
        invariant keys == Paths(rows[..i])
        invariant forall k :: 0 <= k < i ==> rows[k].path in stagedFiles && stagedFiles[rows[k].path] == rows[k].sha256
      {
        assert rows[..i + 1][..i] == rows[..i];
        assert forall k :: 0 <= k < i ==> rows[k].path != rows[i].path;
        stagedFiles := stagedFiles[rows[i].path := rows[i].sha256];
        keys := keys + [rows[i].path];
        i := i + 1;
      }
      assert rows[..i] == rows;
    }

    /** The `foreach` of `Commit`: `INSERT OR REPLACE INTO files` for every
        staged path, in order. */
    method WriteFiles(rows: seq<Staged>, keys: seq<string>, stagedFiles: map<string, string>, ts: string)
      requires keys == Paths(rows)
      requires forall k :: 0 <= k < |rows| ==> rows[k].path in stagedFiles && stagedFiles[rows[k].path] == rows[k].sha256
      modifies this
      ensures files == Track(old(files), rows, ts)
      ensures blobs == old(blobs) && commits == old(commits) && staging == old(staging)
    {
      var j := 0;
      while j < |keys|
        invariant 0 <= j <= |keys|
        invariant files == Track(old(files), rows[..j], ts)
        invariant blobs == old(blobs) && commits == old(commits) && staging == old(staging)
      {
        assert rows[..j + 1][..j] == rows[..j];
        files := files[keys[j] := Tracked(stagedFiles[keys[j]], ts)];
        j := j + 1;
      }
      assert rows[..j] == rows;
    }

    /** `Commit`. `ts` is `DateTime.UtcNow` as stored, `ticks` its tick
        count and `utf8` the `Encoding.UTF8` encoder. The result is the
        line written, by `Commit` or by the handler in `Main` when the
        commit insert throws because the short hash is already a key; that
        insert is the first write, so the failure changes nothing. */
    method Commit(message: string, ts: string, ticks: nat, utf8: string -> seq<byte>) returns (output: string)
      requires Valid()
      modifies this
      ensures Valid()
      ensures if old(staging) == [] then output == "Nothing to commit" && State() == old(State())
              else if HashUsed(old(commits), CommitHash(message, ticks, utf8))
              then output == DuplicateHashError && State() == old(State())
              else output == "Committed: " + CommitHash(message, ticks, utf8)
                   && State() == Committed(old(State()), message, ts, ticks, utf8)
    {
      var rows := staging;
      var stagedFiles, keys := ReadStaged();
      if |keys| == 0 {
        return "Nothing to commit";
      }
      var hashText := ComputeSha256(utf8(message + Decimal(ticks)));
      var commitHash := hashText[..8];
      if exists i | 0 <= i < |commits| :: commits[i].hash == commitHash {
        return DuplicateHashError;
      }
      CommitKeepsKey(State(), message, ts, ticks, utf8);
      commits := commits + [CsCommit(commitHash, message, Join(keys, ","), ts)];
      WriteFiles(rows, keys, stagedFiles, ts);
      staging := [];
      output := "Committed: " + commitHash;
    }
  }

  lemma {:induction false} UnstageMembers(rows: seq<Staged>, path: string)
    ensures forall r :: r in Unstage(rows, path) <==> r in rows && r.path != path
    ensures Distinct(rows) ==> Distinct(Unstage(rows, path))
  {
    if rows != [] {
      var init := rows[..|rows| - 1];
      UnstageMembers(init, path);
      assert rows == init + [rows[|rows| - 1]];
      if Distinct(rows) {
        assert Distinct(init);
      }
    }
  }

  /** Upserting keeps the paths distinct and leaves exactly one row for
      the path, the new one; every row for another path stays. */
  lemma UpsertDistinct(rows: seq<Staged>, s: Staged)
    requires Distinct(rows)
    ensures Distinct(Upsert(rows, s))
    ensures forall r :: r in Upsert(rows, s) && r.path == s.path ==> r == s
    ensures forall r :: r in rows && r.path != s.path ==> r in Upsert(rows, s)
  {
    UnstageMembers(rows, s.path);
  }

  /** Adding the same path twice leaves one staged row for it, with the
      latest hash. */
  lemma AddTwiceKeepsLatest(s: CsState, path: string, first: seq<byte>, second: seq<byte>)
    requires Distinct(s.staging)
    ensures var v := Added(Added(s, path, first), path, second);
      Distinct(v.staging)
      && Staged(path, HexDigest(second)) in v.staging
      && forall r :: r in v.staging && r.path == path ==> r.sha256 == HexDigest(second)
  {
    var u := Added(s, path, first);
    UpsertDistinct(s.staging, Staged(path, HexDigest(first)));
    UpsertDistinct(u.staging, Staged(path, HexDigest(second)));
  }

  /** After a commit every staged path is tracked with its staged hash and
      the commit time, every other path keeps its row, and no other path
      appears. */
  lemma TrackSpec(files: map<string, Tracked>, rows: seq<Staged>, ts: string)
    requires Distinct(rows)
    ensures forall p :: p in Track(files, rows, ts) <==> p in files || p in Paths(rows)
    ensures forall k :: 0 <= k < |rows| ==>
      rows[k].path in Track(files, rows, ts) && Track(files, rows, ts)[rows[k].path] == Tracked(rows[k].sha256, ts)
    ensures forall p :: p in files && p !in Paths(rows) ==> Track(files, rows, ts)[p] == files[p]
  {
    TrackOthers(files, rows, ts);
    TrackStaged(files, rows, ts);
  }

  lemma {:induction false} TrackOthers(files: map<string, Tracked>, rows: seq<Staged>, ts: string)
    ensures forall p :: p in Track(files, rows, ts) <==> p in files || p in Paths(rows)
    ensures forall p :: p in files && p !in Paths(rows) ==> Track(files, rows, ts)[p] == files[p]
  {
    if rows != [] {
      var init := rows[..|rows| - 1];
      TrackOthers(files, init, ts);
      assert Paths(rows) == Paths(init) + [rows[|rows| - 1].path];
    }
  }

  lemma {:induction false} TrackStaged(files: map<string, Tracked>, rows: seq<Staged>, ts: string)
    requires Distinct(rows)
    ensures forall k :: 0 <= k < |rows| ==>
      rows[k].path in Track(files, rows, ts) && Track(files, rows, ts)[rows[k].path] == Tracked(rows[k].sha256, ts)
  {
    if rows != [] {
      var n := |rows| - 1;
      var init := rows[..n];
      assert Distinct(init) by {
        assert forall k :: 0 <= k < n ==> init[k] == rows[k];
      }
      TrackStaged(files, init, ts);
      assert forall k :: 0 <= k < n ==> init[k] == rows[k] && rows[k].path != rows[n].path;
    }
  }

  /** The commit record: a short hash of eight hex digits and the staged
      paths, which splitting on commas gives back when no path holds a
      comma. */
  lemma CommitRecord(s: CsState, message: string, ts: string, ticks: nat, utf8: string -> seq<byte>)
    requires s.staging != []
    requires forall i :: 0 <= i < |s.staging| ==> ',' !in s.staging[i].path
    ensures var c := Committed(s, message, ts, ticks, utf8).commits[|s.commits|];
      && |c.hash| == 8 && IsLowerHex(c.hash)
      && Split(c.files, ',') == Paths(s.staging)
      && c.message == message && c.timestamp == ts
  {
    SplitJoin(Paths(s.staging), ',');
  }

  /** A commit that goes through keeps the commit hashes distinct, and a
      second commit whose short hash repeats the first one's is refused. */
  lemma CommitKeepsKey(s: CsState, message: string, ts: string, ticks: nat, utf8: string -> seq<byte>)
    requires HashesDistinct(s.commits) && !HashUsed(s.commits, CommitHash(message, ticks, utf8))
    ensures HashesDistinct(Committed(s, message, ts, ticks, utf8).commits)
    ensures HashUsed(Committed(s, message, ts, ticks, utf8).commits, CommitHash(message, ticks, utf8))
  {
    var c := Committed(s, message, ts, ticks, utf8).commits;
    assert c[|s.commits|].hash == CommitHash(message, ticks, utf8);
  }
}
