/** The form actions of the PHP directory page (public/index.php, the POST
    branch of a signed-in user): delete, rename, create directory, create
    file and upload. Each cleans its single-name fields, refuses an empty
    name, places the name under the browsed directory and calls the
    writes of PhpStore; the outcome is the page's success message (Ok) or
    error message (Err). */
module PhpActions {
  import opened Text
  import opened Bytes
  import opened Wrappers
  import opened RepoTables
  import opened PhpGate
  import opened PhpStore
  import opened Listing
  import opened Organize

  /** `delete_file`. */
  method DeleteAction(db: RepoDb, repoPath: string, targetField: string, datetime: string, user: string,
                      failAt: Option<nat>) returns (r: Result<string>)
    modifies db
    ensures var target := FormName(targetField);
      var plan := DeletePlan(old(db.State()), ChildPath(repoPath, target), datetime, user);
      var k := Completed(failAt, |plan|);
      if !Truthy(target) then r == Err("File name is required") && db.State() == old(db.State())
      else Run(old(db.State()), plan[..k]) == Some(db.State())
           && r == if k == |plan| then Ok("File '" + target + "' deleted") else Err("Failed to delete file")
  {
    var target := FormName(targetField);
    var targetPath := ChildPath(repoPath, target);
    if !Truthy(target) {
      r := Err("File name is required");
    } else {
      var ok := DeleteFile(db, targetPath, datetime, user, failAt);
      r := if ok then Ok("File '" + target + "' deleted") else Err("Failed to delete file");
    }
  }

  /** `create_file`: the posted content under the cleaned name. */
  method CreateFileAction(db: RepoDb, repoPath: string, nameField: string, content: seq<byte>,
                          hashOf: seq<byte> -> string, datetime: string, user: string, failAt: Option<nat>)
    returns (r: Result<string>)
    modifies db
    ensures var name := FormName(nameField);
      var plan := WritePlan(old(db.State()), "Edited: ", ChildPath(repoPath, name), hashOf(content), content, datetime, user);
      var k := Completed(failAt, |plan|);
      if !Truthy(name) then r == Err("File name is required") && db.State() == old(db.State())
      else Run(old(db.State()), plan[..k]) == Some(db.State())
           && r == if k == |plan| then Ok("File '" + name + "' created") else Err("Failed to create file")
  {
    var fileName := FormName(nameField);
    if !Truthy(fileName) {
      r := Err("File name is required");
    } else {
      var ok := CommitFile(db, ChildPath(repoPath, fileName), content, hashOf, datetime, user, failAt);
      r := if ok then Ok("File '" + fileName + "' created") else Err("Failed to create file");
    }
  }

  /** The marker row that stands for an empty directory. */
  function MarkerPath(repoPath: string, dirName: string): string
  {
    ChildPath(repoPath, dirName) + "/.omidir"
  }

  /** `create_dir`: an empty marker file inside the new directory. */
  method CreateDirAction(db: RepoDb, repoPath: string, dirField: string, hashOf: seq<byte> -> string,
                         datetime: string, user: string, failAt: Option<nat>) returns (r: Result<string>)
    modifies db
    ensures var name := FormName(dirField);
      var plan := WritePlan(old(db.State()), "Edited: ", MarkerPath(repoPath, name), hashOf([]), [], datetime, user);
      var k := Completed(failAt, |plan|);
      if !Truthy(name) then r == Err("Directory name is required") && db.State() == old(db.State())
      else Run(old(db.State()), plan[..k]) == Some(db.State())
           && r == if k == |plan| then Ok("Directory '" + name + "' created") else Err("Failed to create directory")
  {
    var dirName := FormName(dirField);
    if !Truthy(dirName) {
      r := Err("Directory name is required");
    } else {
      var ok := CommitFile(db, MarkerPath(repoPath, dirName), [], hashOf, datetime, user, failAt);
      r := if ok then Ok("Directory '" + dirName + "' created") else Err("Failed to create directory");
    }
  }

  /** The message for a failed upload (`UPLOAD_ERR_INI_SIZE` = 1,
      `UPLOAD_ERR_FORM_SIZE` = 2, `UPLOAD_ERR_PARTIAL` = 3,
      `UPLOAD_ERR_NO_FILE` = 4). */
  function UploadErrorText(code: nat): string
  {
    if code == 1 || code == 2 then "File is too large"
    else if code == 3 then "File upload was interrupted"
    else if code == 4 then "No file was selected"
    else "Upload failed with error code: " + Decimal(code)
  }

  /** The upload branch: error code 0 (`UPLOAD_ERR_OK`) stores the file
      under the cleaned basename of the client's file name. */
  method UploadAction(db: RepoDb, repoPath: string, errorCode: nat, clientName: string, content: seq<byte>,
                      hashOf: seq<byte> -> string, datetime: string, user: string, failAt: Option<nat>)
    returns (r: Result<string>)
    modifies db
    ensures var name := UploadName(clientName);
      var plan := WritePlan(old(db.State()), "Uploaded: ", ChildPath(repoPath, name), hashOf(content), content, datetime, user);
      var k := Completed(failAt, |plan|);
      if errorCode != 0 then r == Err(UploadErrorText(errorCode)) && db.State() == old(db.State())
      else if !Truthy(name) then r == Err("Invalid filename") && db.State() == old(db.State())
      else Run(old(db.State()), plan[..k]) == Some(db.State())
           && r == if k == |plan| then Ok("File '" + name + "' uploaded successfully") else Err("Failed to upload file to database")
  {
    if errorCode == 0 {
      var fileName := UploadName(clientName);
      if !Truthy(fileName) {
        r := Err("Invalid filename");
      } else {
        var ok := UploadFile(db, ChildPath(repoPath, fileName), content, hashOf, datetime, user, failAt);
        r := if ok then Ok("File '" + fileName + "' uploaded successfully") else Err("Failed to upload file to database");
      }
    } else {
      r := Err(UploadErrorText(errorCode));
    }
  }

  /** The `foreach ($files as $entry)` search, stopping at the first row
      with the target's name. */
  method FindHash(files: seq<Entry>, targetPath: string) returns (targetHash: Option<string>)
    ensures targetHash == match FirstNamed(files, targetPath) case None => None case Some(e) => Some(e.hash)
  {
    targetHash := None;
    var i := 0;
    while i < |files|
      invariant 0 <= i <= |files|
      invariant FirstNamed(files[i..], targetPath) == FirstNamed(files, targetPath)
      decreases |files| - i
    {
      assert files[i..][0] == files[i] && files[i..][1..] == files[i + 1..];
      if files[i].filename == targetPath {
        targetHash := Some(files[i].hash);
        break;
      }
      i := i + 1;
    }
  }

  /** What the found branch of `rename_file` leaves behind from tables
      `t`: `commitFile` of the stored content under the new path, stopped
      at statement `failCommit` if that is in range, and only if it went
      through, `deleteFile` of the old path, stopped at `failDelete`;
      `ok` is the value of the `&&`. */
  predicate RenameSteps(t: Tables, targetPath: string, newPath: string, hash: string, hashOf: seq<byte> -> string,
                        commitTime: string, deleteTime: string, user: string,
                        failCommit: Option<nat>, failDelete: Option<nat>, ok: bool, v: Tables)
  {
    var content := Stored(t, hash);
    var p1 := WritePlan(t, "Edited: ", newPath, hashOf(content), content, commitTime, user);
    var k1 := Completed(failCommit, |p1|);
    if k1 < |p1| then !ok && Run(t, p1[..k1]) == Some(v)
    else
      Run(t, p1).Some? && var u := Run(t, p1).value;
      var p2 := DeletePlan(u, targetPath, deleteTime, user);
      var k2 := Completed(failDelete, |p2|);
      (ok <==> k2 == |p2|) && Run(u, p2[..k2]) == Some(v)
  }

  method RenameFound(db: RepoDb, targetPath: string, newPath: string, hash: string, hashOf: seq<byte> -> string,
                     commitTime: string, deleteTime: string, user: string,
                     failCommit: Option<nat>, failDelete: Option<nat>) returns (ok: bool)
    modifies db
    ensures RenameSteps(old(db.State()), targetPath, newPath, hash, hashOf, commitTime, deleteTime, user,
                        failCommit, failDelete, ok, db.State())
  {
    var data := db.BlobData(hash);
    var fileContent := if data.Some? then data.value else [];
    ghost var t := db.State();
    ok := CommitFile(db, newPath, fileContent, hashOf, commitTime, user, failCommit);
    if ok {
      ghost var p1 := WritePlan(t, "Edited: ", newPath, hashOf(fileContent), fileContent, commitTime, user);
      assert p1[..|p1|] == p1;
      ok := DeleteFile(db, targetPath, deleteTime, user, failDelete);
    }
  }

  /** `rename_file`. The target is looked up among the rows `getLatestFiles`
      returned for the browsed directory before the action. */
  method RenameAction(db: RepoDb, repoPath: string, targetField: string, newField: string, hashOf: seq<byte> -> string,
                      commitTime: string, deleteTime: string, user: string,
                      failCommit: Option<nat>, failDelete: Option<nat>) returns (r: Result<string>)
    modifies db
    ensures var t := old(db.State());
      var target, newName := FormName(targetField), FormName(newField);
      var found := FirstNamed(LatestFilesPhp(t, repoPath), ChildPath(repoPath, target));
      if !Truthy(target) || !Truthy(newName) then
        r == Err("File name and new name are required") && db.State() == t
      else if found.None? || !Truthy(found.value.hash) then
        r == Err("File not found") && db.State() == t
      else
        RenameSteps(t, ChildPath(repoPath, target), ChildPath(repoPath, newName), found.value.hash, hashOf,
                    commitTime, deleteTime, user, failCommit, failDelete, r.Ok?, db.State())
        && r == if r.Ok? then Ok("File '" + target + "' renamed to '" + newName + "'") else Err("Failed to rename file")
  {
    var target := FormName(targetField);
    var newName := FormName(newField);
    if !Truthy(target) || !Truthy(newName) {
      r := Err("File name and new name are required");
    } else {
      var targetPath := ChildPath(repoPath, target);
      var newPath := ChildPath(repoPath, newName);
      var files := LatestFilesPhp(db.State(), repoPath);
      var targetHash := FindHash(files, targetPath);
      if targetHash.None? || !Truthy(targetHash.value) {
        r := Err("File not found");
      } else {
        var ok := RenameFound(db, targetPath, newPath, targetHash.value, hashOf, commitTime, deleteTime, user,
                              failCommit, failDelete);
        r := if ok then Ok("File '" + target + "' renamed to '" + newName + "'") else Err("Failed to rename file");
      }
    }
  }

  /** The corrected found branch: renaming a file to its own name keeps it
      (the delete is skipped). */
  method RenameFoundFixed(db: RepoDb, targetPath: string, newPath: string, hash: string, hashOf: seq<byte> -> string,
                          commitTime: string, deleteTime: string, user: string,
                          failCommit: Option<nat>, failDelete: Option<nat>) returns (ok: bool)
    modifies db
    ensures targetPath != newPath ==>
      RenameSteps(old(db.State()), targetPath, newPath, hash, hashOf, commitTime, deleteTime, user,
                  failCommit, failDelete, ok, db.State())
    ensures targetPath == newPath ==>
      var t := old(db.State());
      var content := Stored(t, hash);
      var p1 := WritePlan(t, "Edited: ", newPath, hashOf(content), content, commitTime, user);
      var k1 := Completed(failCommit, |p1|);
      (ok <==> k1 == |p1|) && Run(t, p1[..k1]) == Some(db.State())
  {
    if targetPath == newPath {
      var data := db.BlobData(hash);
      var fileContent := if data.Some? then data.value else [];
      ok := CommitFile(db, newPath, fileContent, hashOf, commitTime, user, failCommit);
    } else {
      ok := RenameFound(db, targetPath, newPath, hash, hashOf, commitTime, deleteTime, user, failCommit, failDelete);
    }
  }

  /** The rename looks the target up in the filtered listing, which finds
      the same row as the whole latest commit: "File not found" exactly
      when the latest commit has no row with the target path. */
  lemma RenameSearchesHead(t: Tables, repoPath: string, target: string)
    ensures FirstNamed(LatestFilesPhp(t, repoPath), ChildPath(repoPath, target))
         == FirstNamed(HeadRows(t), ChildPath(repoPath, target))
  {
    if Truthy(repoPath) {
      var p := ChildPath(repoPath, target);
      assert p[..|repoPath + "/"|] == repoPath + "/";
      StartsUnder(p, repoPath);
      FirstNamedUnder(HeadRows(t), repoPath, p);
    }
  }

  /** From consistent tables whose latest commit has `e` at the target
      path, a rename to another path that goes through makes two commits;
      the final latest commit has the new path with the old hash, no row
      at the old path, and every other row it had. */
  lemma RenameHead(t: Tables, e: Entry, newPath: string, hashOf: seq<byte> -> string,
                   commitTime: string, deleteTime: string, user: string)
    requires WellFormed(t) && Consistent(t, hashOf) && e in HeadRows(t) && e.filename != newPath
    ensures var content := Stored(t, e.hash);
      var r1 := Run(t, WritePlan(t, "Edited: ", newPath, hashOf(content), content, commitTime, user));
      r1.Some? && var u := r1.value;
      var r2 := Run(u, DeletePlan(u, e.filename, deleteTime, user));
      r2.Some? && var v := r2.value;
      && |v.commits| == |t.commits| + 2
      && Entry(newPath, e.hash, commitTime) in HeadRows(v)
      && (forall x :: x in HeadRows(v) ==> x.filename != e.filename)
      && (forall x :: x in HeadRows(t) && x.filename != e.filename && x.filename != newPath ==> x in HeadRows(v))
  {
    var content := Stored(t, e.hash);
    HeadRowsStored(t, hashOf);
    assert hashOf(content) == e.hash;
    WriteHead(t, "Edited: ", newPath, content, hashOf, commitTime, user);
    var u := Run(t, WritePlan(t, "Edited: ", newPath, e.hash, content, commitTime, user)).value;
    DeleteHead(u, e.filename, deleteTime, user);
    WithoutMembers(HeadRows(t), newPath);
    WithoutMembers(HeadRows(u), e.filename);
  }

  /** As written, renaming a file to its own name deletes it: the commit
      re-adds the row and the delete that follows removes it. */
  lemma RenameSameNameLoses(t: Tables, e: Entry, hashOf: seq<byte> -> string,
                            commitTime: string, deleteTime: string, user: string)
    requires WellFormed(t) && e in HeadRows(t)
    ensures var content := Stored(t, e.hash);
      var r1 := Run(t, WritePlan(t, "Edited: ", e.filename, hashOf(content), content, commitTime, user));
      r1.Some? && var u := r1.value;
      var r2 := Run(u, DeletePlan(u, e.filename, deleteTime, user));
      r2.Some? && var v := r2.value;
      forall x :: x in HeadRows(v) ==> x.filename != e.filename
  {
    var content := Stored(t, e.hash);
    WriteHead(t, "Edited: ", e.filename, content, hashOf, commitTime, user);
    var u := Run(t, WritePlan(t, "Edited: ", e.filename, hashOf(content), content, commitTime, user)).value;
    DeleteHead(u, e.filename, deleteTime, user);
    WithoutMembers(HeadRows(u), e.filename);
  }

  /** With the delete skipped for an unchanged name, a rename that goes
      through always leaves the new path holding the old hash, and the old
      path gone when it differs. */
  lemma RenameFixedHead(t: Tables, e: Entry, newPath: string, hashOf: seq<byte> -> string,
                        commitTime: string, deleteTime: string, user: string)
    requires WellFormed(t) && Consistent(t, hashOf) && e in HeadRows(t)
    ensures var content := Stored(t, e.hash);
      var r1 := Run(t, WritePlan(t, "Edited: ", newPath, hashOf(content), content, commitTime, user));
      r1.Some? && var u := r1.value;
      var r2 := Run(u, DeletePlan(u, e.filename, deleteTime, user));
      r2.Some? && var w := if e.filename == newPath then u else r2.value;
      && Entry(newPath, e.hash, commitTime) in HeadRows(w)
      && (e.filename != newPath ==> forall x :: x in HeadRows(w) ==> x.filename != e.filename)
  {
    var content := Stored(t, e.hash);
    HeadRowsStored(t, hashOf);
    assert hashOf(content) == e.hash;
    WriteHead(t, "Edited: ", newPath, content, hashOf, commitTime, user);
    var u := Run(t, WritePlan(t, "Edited: ", newPath, e.hash, content, commitTime, user)).value;
    DeleteHead(u, e.filename, deleteTime, user);
    WithoutMembers(HeadRows(u), e.filename);
    assert Entry(newPath, e.hash, commitTime) in HeadRows(u);
  }

  /** A directory made with `create_dir` shows up in the listing of the
      browsed directory, and its marker row is not listed as a file. */
  lemma CreateDirListed(t: Tables, repoPath: string, dirField: string, hashOf: seq<byte> -> string,
                        datetime: string, user: string)
    requires WellFormed(t) && Truthy(FormName(dirField))
    ensures var name := FormName(dirField);
      var marker := MarkerPath(repoPath, name);
      var r := Run(t, WritePlan(t, "Edited: ", marker, hashOf([]), [], datetime, user));
      r.Some? && var listing := OrganizedPhp(LatestFilesPhp(r.value, repoPath), repoPath);
      && MarkerPcre(marker)
      && name in Names(listing.dirs)
      && (forall x :: x in listing.files ==> x.filename != marker)
  {
    var name := FormName(dirField);
    var marker := MarkerPath(repoPath, name);
    var scoped := Truthy(repoPath);
    WriteHead(t, "Edited: ", marker, [], hashOf, datetime, user);
    var u := Run(t, WritePlan(t, "Edited: ", marker, hashOf([]), [], datetime, user)).value;
    var row := Entry(marker, hashOf([]), datetime);
    assert row in HeadRows(u);
    MarkerPathShape(repoPath, name);
    if scoped {
      StartsUnder(marker, repoPath);
    }
    LatestFilesSpec(u, repoPath);
    var files := LatestFilesPhp(u, repoPath);
    assert row in files;
    var i := IndexOf(files, row);
    BelowMeans(marker, repoPath, scoped, name);
    BelowRowListed(files, repoPath, scoped, true, {}, i, name);
  }

  /** The marker lies below the new directory, inside the browsed one. */
  lemma MarkerPathShape(repoPath: string, name: string)
    ensures var marker := MarkerPath(repoPath, name);
      && EndsWith(marker, "/.omidir")
      && StartsWith(marker, DirPath(repoPath, name, Truthy(repoPath)) + "/")
      && (Truthy(repoPath) ==> StartsWith(marker, repoPath + "/"))
  {
    MarkerBelow(ChildPath(repoPath, name));
    if Truthy(repoPath) {
      MarkerInside(repoPath, name);
    }
  }

  lemma MarkerBelow(d: string)
    ensures EndsWith(d + "/.omidir", "/.omidir") && StartsWith(d + "/.omidir", d + "/")
  {
    assert d + "/.omidir" == d + "/" + ".omidir";
    JoinShape(d, ".omidir");
  }

  lemma MarkerInside(repoPath: string, name: string)
    ensures StartsWith(repoPath + "/" + name + "/.omidir", repoPath + "/")
  {
    assert repoPath + "/" + name + "/.omidir" == repoPath + "/" + (name + "/.omidir");
    JoinShape(repoPath, name + "/.omidir");
  }
}
