/** The POST actions of the Node directory page (public/server.js, the
    browse branch of a signed-in user): delete, rename, create directory,
    create file and upload. Names are cleaned with `sanitizePathSegment`;
    delete and rename look the target up in the latest rows under the
    browsed directory, skipping directory markers; the writes are the
    all-or-nothing scripts of JsStore. The outcome is the page's message,
    Ok for success and Err for an error. */
module JsActions {
  import opened Text
  import opened Bytes
  import opened Wrappers
  import opened RepoTables
  import opened JsGate
  import opened JsStore
  import opened Listing
  import opened Organize

  /** `repoPath ? `${repoPath}/${name}` : name`. */
  function ChildPath(repoPath: string, name: string): string
  {
    if repoPath != "" then repoPath + "/" + name else name
  }

  /** `delete_file`. */
  method DeleteAction(db: RepoDb, repoPath: string, targetField: string, username: string, datetime: string,
                      fault: bool) returns (r: Result<string>)
    modifies db
    ensures var t := old(db.State());
      var name := SanitizePathSegment(targetField);
      var found := FindTargetJs(LatestFilesJs(t, repoPath), ChildPath(repoPath, name));
      if name == "" then r == Err("File name is required") && db.State() == t
      else if found.None? then r == Err("File not found") && db.State() == t
      else if fault then r == Err("Failed to delete file") && db.State() == t
      else
        r == Ok("File '" + name + "' deleted")
        && Run(t, DeleteScript(Carried(t, found.value.filename), "Deleted: " + BaseName(found.value.filename),
                              datetime, username)) == Some(db.State())
  {
    var targetName := SanitizePathSegment(targetField);
    if targetName == "" {
      r := Err("File name is required");
    } else {
      var targetPath := ChildPath(repoPath, targetName);
      var latestFiles := LatestFilesJs(db.State(), repoPath);
      var targetEntry := FindTargetJs(latestFiles, targetPath);
      if targetEntry.None? {
        r := Err("File not found");
      } else {
        var ok := DeleteFileFromRepo(db, targetEntry.value.filename, username,
                                     "Deleted: " + BaseName(targetEntry.value.filename), datetime, fault);
        r := if ok then Ok("File '" + targetName + "' deleted") else Err("Failed to delete file");
      }
    }
  }

  /** What the found branch of `rename_file` leaves behind from tables
      `t` for the row `e`: the commit of the stored content under the new
      path, then, if that went through, the delete of the old row; each
      script is all or nothing. */
  predicate RenameSteps(t: Tables, e: Entry, newPath: string, newName: string, hashOf: seq<byte> -> string,
                        username: string, commitTime: string, deleteTime: string,
                        faultCommit: bool, faultDelete: bool, v: Tables)
  {
    var content := Stored(t, e.hash);
    var s1 := CommitScript(Carried(t, newPath), newPath, hashOf(content), content,
                           "Renamed: " + BaseName(e.filename) + " -> " + newName, commitTime, username);
    if faultCommit then v == t
    else
      Run(t, s1).Some? && var u := Run(t, s1).value;
      if faultDelete then v == u
      else Run(u, DeleteScript(Carried(u, e.filename), "Deleted: " + BaseName(e.filename), deleteTime, username)) == Some(v)
  }

  method RenameFound(db: RepoDb, e: Entry, newPath: string, newName: string, hashOf: seq<byte> -> string,
                     username: string, commitTime: string, deleteTime: string,
                     faultCommit: bool, faultDelete: bool) returns (ok: bool)
    modifies db
    ensures ok <==> !faultCommit && !faultDelete
    ensures RenameSteps(old(db.State()), e, newPath, newName, hashOf, username, commitTime, deleteTime,
                        faultCommit, faultDelete, db.State())
  {
    var data := db.BlobData(e.hash);
    var fileContent := if data.Some? then data.value else [];
    ok := CommitFileToRepo(db, newPath, fileContent, hashOf, username,
                           "Renamed: " + BaseName(e.filename) + " -> " + newName, commitTime, faultCommit);
    if ok {
      ok := DeleteFileFromRepo(db, e.filename, username, "Deleted: " + BaseName(e.filename), deleteTime, faultDelete);
    }
  }

  /** `rename_file`. */
  method RenameAction(db: RepoDb, repoPath: string, targetField: string, newField: string, hashOf: seq<byte> -> string,
                      username: string, commitTime: string, deleteTime: string,
                      faultCommit: bool, faultDelete: bool) returns (r: Result<string>)
    modifies db
    ensures var t := old(db.State());
      var name, newName := SanitizePathSegment(targetField), SanitizePathSegment(newField);
      var found := FindTargetJs(LatestFilesJs(t, repoPath), ChildPath(repoPath, name));
      if name == "" || newName == "" then r == Err("File name and new name are required") && db.State() == t
      else if found.None? then r == Err("File not found") && db.State() == t
      else
        RenameSteps(t, found.value, ChildPath(repoPath, newName), newName, hashOf, username, commitTime, deleteTime,
                    faultCommit, faultDelete, db.State())
        && r == if !faultCommit && !faultDelete then Ok("File '" + name + "' renamed to '" + newName + "'")
                else Err("Failed to rename file")
  {
    var targetName := SanitizePathSegment(targetField);
    var newName := SanitizePathSegment(newField);
    if targetName == "" || newName == "" {
      r := Err("File name and new name are required");
    } else {
      var targetPath := ChildPath(repoPath, targetName);
      var newPath := ChildPath(repoPath, newName);
      var latestFiles := LatestFilesJs(db.State(), repoPath);
      var targetEntry := FindTargetJs(latestFiles, targetPath);
      if targetEntry.None? {
        r := Err("File not found");
      } else {
        var ok := RenameFound(db, targetEntry.value, newPath, newName, hashOf, username, commitTime, deleteTime,
                              faultCommit, faultDelete);
        r := if ok then Ok("File '" + targetName + "' renamed to '" + newName + "'") else Err("Failed to rename file");
      }
    }
  }

  /** The marker row that stands for an empty directory. */
  function MarkerPath(repoPath: string, dirName: string): string
  {
    ChildPath(repoPath, dirName) + "/.omidir"
  }

  /** `create_dir`. */
  method CreateDirAction(db: RepoDb, repoPath: string, dirField: string, hashOf: seq<byte> -> string,
                         username: string, datetime: string, fault: bool) returns (r: Result<string>)
    modifies db
    ensures var t := old(db.State());
      var name := SanitizePathSegment(dirField);
      var marker := MarkerPath(repoPath, name);
      if name == "" then r == Err("Directory name is required") && db.State() == t
      else if fault then r == Err("Failed to create directory") && db.State() == t
      else
        r == Ok("Directory '" + name + "' created")
        && Run(t, CommitScript(Carried(t, marker), marker, hashOf([]), [], "Create directory: " + name, datetime, username))
           == Some(db.State())
  {
    var dirName := SanitizePathSegment(dirField);
    if dirName == "" {
      r := Err("Directory name is required");
    } else {
      var markerPath := MarkerPath(repoPath, dirName);
      var ok := CommitFileToRepo(db, markerPath, [], hashOf, username, "Create directory: " + dirName, datetime, fault);
      r := if ok then Ok("Directory '" + dirName + "' created") else Err("Failed to create directory");
    }
  }

  /** `create_file`: the posted content under the cleaned name. */
  method CreateFileAction(db: RepoDb, repoPath: string, nameField: string, content: seq<byte>, hashOf: seq<byte> -> string,
                          username: string, datetime: string, fault: bool) returns (r: Result<string>)
    modifies db
    ensures var t := old(db.State());
      var name := SanitizePathSegment(nameField);
      var path := ChildPath(repoPath, name);
      if name == "" then r == Err("File name is required") && db.State() == t
      else if fault then r == Err("Failed to create file") && db.State() == t
      else
        r == Ok("File '" + name + "' created")
        && Run(t, CommitScript(Carried(t, path), path, hashOf(content), content, "Created file: " + name, datetime, username))
           == Some(db.State())
  {
    var fileName := SanitizePathSegment(nameField);
    if fileName == "" {
      r := Err("File name is required");
    } else {
      var fullPath := ChildPath(repoPath, fileName);
      var ok := CommitFileToRepo(db, fullPath, content, hashOf, username, "Created file: " + fileName, datetime, fault);
      r := if ok then Ok("File '" + fileName + "' created") else Err("Failed to create file");
    }
  }

  /** The upload branch. The parsed file's data is always a Buffer, which
      is truthy even when empty, so only the name is checked. */
  method UploadAction(db: RepoDb, repoPath: string, clientName: string, data: seq<byte>, hashOf: seq<byte> -> string,
                      username: string, datetime: string, fault: bool) returns (r: Result<string>)
    modifies db
    ensures var t := old(db.State());
      var name := SanitizePathSegment(clientName);
      var path := ChildPath(repoPath, name);
      if name == "" then r == Err("No file selected") && db.State() == t
      else if fault then r == Err("Failed to upload file") && db.State() == t
      else
        r == Ok("File '" + name + "' uploaded successfully")
        && Run(t, CommitScript(Carried(t, path), path, hashOf(data), data, "Uploaded: " + name, datetime, username))
           == Some(db.State())
  {
    var fileName := SanitizePathSegment(clientName);
    if fileName == "" {
      r := Err("No file selected");
    } else {
      var fullPath := ChildPath(repoPath, fileName);
      var ok := CommitFileToRepo(db, fullPath, data, hashOf, username, "Uploaded: " + fileName, datetime, fault);
      r := if ok then Ok("File '" + fileName + "' uploaded successfully") else Err("Failed to upload file");
    }
  }

  /** `rename_file` with the delete skipped when the new path is the old
      one; otherwise as written. */
  method RenameFoundFixed(db: RepoDb, e: Entry, newPath: string, newName: string, hashOf: seq<byte> -> string,
                          username: string, commitTime: string, deleteTime: string,
                          faultCommit: bool, faultDelete: bool) returns (ok: bool)
    modifies db
    ensures ok <==> !faultCommit && (e.filename == newPath || !faultDelete)
    ensures RenameSteps(old(db.State()), e, newPath, newName, hashOf, username, commitTime, deleteTime,
                        faultCommit, faultDelete || e.filename == newPath, db.State())
  {
    var data := db.BlobData(e.hash);
    var fileContent := if data.Some? then data.value else [];
    ok := CommitFileToRepo(db, newPath, fileContent, hashOf, username,
                           "Renamed: " + BaseName(e.filename) + " -> " + newName, commitTime, faultCommit);
    if ok && e.filename != newPath {
      ok := DeleteFileFromRepo(db, e.filename, username, "Deleted: " + BaseName(e.filename), deleteTime, faultDelete);
    }
  }

  /** The tables after the commit step of a rename. */
  lemma RenameCommitted(t: Tables, e: Entry, newPath: string, newName: string, hashOf: seq<byte> -> string,
                        username: string, commitTime: string)
    requires WellFormed(t) && Consistent(t, hashOf) && e in HeadRows(t)
    ensures var content := Stored(t, e.hash);
      var r := Run(t, CommitScript(Carried(t, newPath), newPath, hashOf(content), content,
                                   "Renamed: " + BaseName(e.filename) + " -> " + newName, commitTime, username));
      r.Some? && var u := r.value;
      && HeadRows(u) == Carried(t, newPath) + [Entry(newPath, e.hash, commitTime)]
      && |u.commits| == |t.commits| + 1
      && WellFormed(u)
  {
    var content := Stored(t, e.hash);
    HeadRowsStored(t, hashOf);
    CommitHead(t, Carried(t, newPath), newPath, hashOf(content), content,
               "Renamed: " + BaseName(e.filename) + " -> " + newName, commitTime, username);
  }

  /** A rename that goes through moves the row: two more commits, the new
      path holding the old hash, the old path gone, every other path kept. */
  lemma RenameHead(t: Tables, e: Entry, newPath: string, newName: string, hashOf: seq<byte> -> string,
                   username: string, commitTime: string, deleteTime: string, v: Tables)
    requires WellFormed(t) && Consistent(t, hashOf) && e in HeadRows(t) && e.filename != newPath
    requires RenameSteps(t, e, newPath, newName, hashOf, username, commitTime, deleteTime, false, false, v)
    ensures |v.commits| == |t.commits| + 2
    ensures Entry(newPath, e.hash, commitTime) in HeadRows(v)
    ensures forall x :: x in HeadRows(v) ==> x.filename != e.filename
    ensures forall x :: x in HeadRows(t) && x.filename != e.filename && x.filename != newPath ==> x in HeadRows(v)
  {
    var content := Stored(t, e.hash);
    RenameCommitted(t, e, newPath, newName, hashOf, username, commitTime);
    var u := Run(t, CommitScript(Carried(t, newPath), newPath, hashOf(content), content,
                                 "Renamed: " + BaseName(e.filename) + " -> " + newName, commitTime, username)).value;
    assert Run(u, DeleteScript(Carried(u, e.filename), "Deleted: " + BaseName(e.filename), deleteTime, username)) == Some(v);
    DeleteHead(u, Carried(u, e.filename), "Deleted: " + BaseName(e.filename), deleteTime, username);
    assert HeadRows(v) == Without(HeadRows(u), e.filename);
    WithoutMembers(HeadRows(t), newPath);
    WithoutMembers(HeadRows(u), e.filename);
    var moved := Entry(newPath, e.hash, commitTime);
    assert moved in HeadRows(u) by {
      assert HeadRows(u) == Carried(t, newPath) + [moved];
    }
  }

  /** As written, renaming a file to its own name deletes it, while the
      page reports the rename as done. */
  lemma RenameSameNameLoses(t: Tables, e: Entry, newName: string, hashOf: seq<byte> -> string,
                            username: string, commitTime: string, deleteTime: string, v: Tables)
    requires WellFormed(t) && e in HeadRows(t)
    requires RenameSteps(t, e, e.filename, newName, hashOf, username, commitTime, deleteTime, false, false, v)
    ensures forall x :: x in HeadRows(v) ==> x.filename != e.filename
  {
    var content := Stored(t, e.hash);
    var msg := "Renamed: " + BaseName(e.filename) + " -> " + newName;
    CommitHead(t, Carried(t, e.filename), e.filename, hashOf(content), content, msg, commitTime, username);
    var u := Run(t, CommitScript(Carried(t, e.filename), e.filename, hashOf(content), content, msg, commitTime, username)).value;
    DeleteHead(u, Carried(u, e.filename), "Deleted: " + BaseName(e.filename), deleteTime, username);
    WithoutMembers(HeadRows(u), e.filename);
  }

  /** With the delete skipped for an unchanged name, a rename that goes
      through always leaves the new path holding the old hash, and the old
      path gone when it differs. */
  lemma RenameFixedHead(t: Tables, e: Entry, newPath: string, newName: string, hashOf: seq<byte> -> string,
                        username: string, commitTime: string, deleteTime: string, v: Tables)
    requires WellFormed(t) && Consistent(t, hashOf) && e in HeadRows(t)
    requires RenameSteps(t, e, newPath, newName, hashOf, username, commitTime, deleteTime, false,
                         e.filename == newPath, v)
    ensures Entry(newPath, e.hash, commitTime) in HeadRows(v)
    ensures e.filename != newPath ==> forall x :: x in HeadRows(v) ==> x.filename != e.filename
  {
    if e.filename != newPath {
      RenameHead(t, e, newPath, newName, hashOf, username, commitTime, deleteTime, v);
    } else {
      RenameCommitted(t, e, newPath, newName, hashOf, username, commitTime);
    }
  }

  /** A directory made with `create_dir` shows up in the listing of the
      browsed directory unless its name is one `Object.prototype` answers
      for, and its marker row is never listed as a file. */
  lemma CreateDirListed(t: Tables, repoPath: string, dirField: string, hashOf: seq<byte> -> string,
                        username: string, datetime: string)
    requires WellFormed(t) && SanitizePathSegment(dirField) != ""
    ensures var name := SanitizePathSegment(dirField);
      var marker := MarkerPath(repoPath, name);
      var r := Run(t, CommitScript(Carried(t, marker), marker, hashOf([]), [], "Create directory: " + name,
                                   datetime, username));
      r.Some? && var listing := OrganizedJs(LatestFilesJs(r.value, repoPath), repoPath);
      && MarkerJs(marker)
      && (name in Names(listing.dirs) <==> name !in ObjectPrototypeNames)
      && (forall x :: x in listing.files ==> x.filename != marker)
  {
    var name := SanitizePathSegment(dirField);
    var marker := MarkerPath(repoPath, name);
    var scoped := repoPath != "";
    CommitHead(t, Carried(t, marker), marker, hashOf([]), [], "Create directory: " + name, datetime, username);
    var u := Run(t, CommitScript(Carried(t, marker), marker, hashOf([]), [], "Create directory: " + name,
                                 datetime, username)).value;
    var row := Entry(marker, hashOf([]), datetime);
    assert row in HeadRows(u);
    MarkerPathShape(repoPath, name);
    if scoped {
      StartsUnder(marker, repoPath);
    }
    LatestFilesSpec(u, repoPath);
    var files := LatestFilesJs(u, repoPath);
    assert row in files;
    var i := IndexOf(files, row);
    BelowMeans(marker, repoPath, scoped, name);
    BelowRowListed(files, repoPath, scoped, false, ObjectPrototypeNames, i, name);
  }

  /** The marker lies below the new directory, inside the browsed one. */
  lemma MarkerPathShape(repoPath: string, name: string)
    ensures var marker := MarkerPath(repoPath, name);
      && EndsWith(marker, "/.omidir")
      && StartsWith(marker, DirPath(repoPath, name, repoPath != "") + "/")
      && (repoPath != "" ==> StartsWith(marker, repoPath + "/"))
  {
    var d := DirPath(repoPath, name, repoPath != "");
    var marker := MarkerPath(repoPath, name);
    assert marker == (d + "/") + ".omidir";
    StartsWithConcat(d + "/", ".omidir");
    assert marker[|marker| - |"/.omidir"|..] == "/.omidir";
    if repoPath != "" {
      assert marker == (repoPath + "/") + (name + "/.omidir");
      StartsWithConcat(repoPath + "/", name + "/.omidir");
    }
  }
}
