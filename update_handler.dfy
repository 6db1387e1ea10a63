/**
 * The software-update handler as an object (SoftwareUpdateHandler.java):
 * what the DB upgrade and the jar handling change in the world is held in
 * fields that the methods update step by step, as the Java code writes to
 * JDBC, the backup directory, the global parameters and the jar folders.
 * Each method is proved to leave exactly the state, and return exactly the
 * outcome, that the matching function of `UpdateModel` gives.
 */
module UpdateHandler {
  import opened Wrappers
  import opened JavaText
  import opened UpdateModel

  class SoftwareUpdateHandler {
    /** Statements sent to `jdbcTemplate.execute`, in order. */
    var statementsSent: seq<string>
    /** Backup folders whose `db` directory was copied back. */
    var dbRestoredFrom: seq<string>
    /** Backup folders restored by `rollBackSetup`. */
    var appRestoredFrom: seq<string>
    /** The listing of the backup directory, `None` when it does not exist. */
    var backupFolders: Option<seq<string>>
    /** The SERVICES_VERSION_KEY global parameter. */
    var servicesVersion: Option<string>
    /** The `copyURLToFile` calls made, in order. */
    var downloads: seq<DownloadRequest>
    /** The jar files deleted, in order. */
    var deleted: seq<string>

    function Snapshot(): UpdateState
      reads this
    {
      UpdateState(statementsSent, dbRestoredFrom, appRestoredFrom, backupFolders, servicesVersion)
    }

    constructor (initial: UpdateState)
      ensures Snapshot() == initial && downloads == [] && deleted == []
    {
      statementsSent, dbRestoredFrom, appRestoredFrom := initial.statementsSent, initial.dbRestoredFrom, initial.appRestoredFrom;
      backupFolders, servicesVersion := initial.backupFolders, initial.servicesVersion;
      downloads, deleted := [], [];
    }

    /**
     * `runSqlFile`: join the lines, each followed by a newline and a space;
     * split on `;`; send every segment that does not trim to empty, stopping
     * at the first one JDBC rejects.
     */
    method RunSqlFile(lines: seq<string>, accepts: string -> bool) returns (ok: bool)
      modifies this
      ensures ok == RunSqlFileSpec(lines, accepts).0
      ensures statementsSent == old(statementsSent) + RunSqlFileSpec(lines, accepts).1
      ensures dbRestoredFrom == old(dbRestoredFrom) && appRestoredFrom == old(appRestoredFrom)
      ensures backupFolders == old(backupFolders) && servicesVersion == old(servicesVersion)
      ensures downloads == old(downloads) && deleted == old(deleted)
    {
      var sb := "";
      for i := 0 to |lines|
        invariant sb == SqlText(lines[..i])
      {
        assert lines[..i + 1][..i] == lines[..i];
        sb := sb + lines[i] + "\n ";
      }
      assert lines[..|lines|] == lines;
      ok := SendStatements(JavaSplit(sb, ';'), accepts);
    }

    /** The statement loop of `runSqlFile`. */
    method SendStatements(statements: seq<string>, accepts: string -> bool) returns (ok: bool)
      modifies this
      ensures ok == RunSegments(statements, accepts).0
      ensures statementsSent == old(statementsSent) + RunSegments(statements, accepts).1
      ensures dbRestoredFrom == old(dbRestoredFrom) && appRestoredFrom == old(appRestoredFrom)
      ensures backupFolders == old(backupFolders) && servicesVersion == old(servicesVersion)
      ensures downloads == old(downloads) && deleted == old(deleted)
    {
      ghost var total := RunSegments(statements, accepts);
      assert statements[0..] == statements;
      for k := 0 to |statements|
        invariant old(statementsSent) + total.1 == statementsSent + RunSegments(statements[k..], accepts).1
        invariant total.0 == RunSegments(statements[k..], accepts).0
        invariant dbRestoredFrom == old(dbRestoredFrom) && appRestoredFrom == old(appRestoredFrom)
        invariant backupFolders == old(backupFolders) && servicesVersion == old(servicesVersion)
        invariant downloads == old(downloads) && deleted == old(deleted)
      {
        assert statements[k..][0] == statements[k] && statements[k..][1..] == statements[k + 1..];
        var stat := statements[k];
        if !IsBlankSegment(stat) {
          ghost var rest := RunSegments(statements[k + 1..], accepts).1;
          assert statementsSent + ([stat] + rest) == (statementsSent + [stat]) + rest;
          statementsSent := statementsSent + [stat];
          if !accepts(stat) {
            return false;
          }
        }
      }
      assert statements[|statements|..] == [];
      assert statementsSent + [] == statementsSent;
      ok := true;
    }

    /** `execute(path)`: run the classpath script at `path`; a missing script counts as run. */
    method Execute(env: Environment, path: string) returns (ok: bool)
      modifies this
      ensures ok == ExecuteSpec(env, path).0
      ensures statementsSent == old(statementsSent) + ExecuteSpec(env, path).1
      ensures dbRestoredFrom == old(dbRestoredFrom) && appRestoredFrom == old(appRestoredFrom)
      ensures backupFolders == old(backupFolders) && servicesVersion == old(servicesVersion)
      ensures downloads == old(downloads) && deleted == old(deleted)
    {
      if path !in env.resources {
        return true;
      }
      ok := RunSqlFile(env.resources[path], env.jdbcAccepts);
    }

    /** `dbRollBackSetup(previousVersion)`: copy back the `db` directory of the first backup whose name contains the version. */
    method DbRollBackSetup(env: Environment, previousVersion: string)
      modifies this
      ensures Snapshot() == DbRollBackSpec(old(Snapshot()), env, previousVersion)
      ensures downloads == old(downloads) && deleted == old(deleted)
    {
      if backupFolders.None? {
        return;
      }
      var folders := backupFolders.value;
      for i := 0 to |folders|
        invariant FirstContaining(folders, previousVersion) == FirstContaining(folders[i..], previousVersion)
        invariant Snapshot() == old(Snapshot())
        invariant downloads == old(downloads) && deleted == old(deleted)
      {
        assert folders[i..][0] == folders[i] && folders[i..][1..] == folders[i + 1..];
        if Contains(folders[i], previousVersion) {
          if env.restoreDb(folders[i]) {
            dbRestoredFrom := dbRestoredFrom + [folders[i]];
          }
          return;
        }
      }
      assert folders[|folders|..] == [];
    }

    /**
     * `executeSQL(dbVersion, previousVersion)`: the execution script, else
     * the rollback script, else the DB backup of `previousVersion`; `false`
     * stands for the exception every failure ends in.
     */
    method ExecuteSql(env: Environment, dbVersion: string, previousVersion: string) returns (ok: bool)
      modifies this
      ensures (Snapshot(), ok) == ExecuteSqlSpec(old(Snapshot()), env, dbVersion, previousVersion)
      ensures downloads == old(downloads) && deleted == old(deleted)
    {
      var isExecutionSuccess := Execute(env, ScriptPath(dbVersion, EXECUTION_SQL_FILE));
      if !isExecutionSuccess {
        var isRollBackSuccess := Execute(env, ScriptPath(dbVersion, ROLLBACK_SQL_FILE));
        if !isRollBackSuccess {
          DbRollBackSetup(env, previousVersion);
        }
        return false;
      }
      ok := true;
    }

    /**
     * `rollback(response, previousVersion)`: the response codes it adds, after
     * restoring the first backup whose name contains the version.
     */
    method Rollback(env: Environment, previousVersion: string) returns (codes: seq<ResponseCode>)
      modifies this
      ensures (Snapshot(), codes) == RollbackSpec(old(Snapshot()), env, previousVersion)
      ensures downloads == old(downloads) && deleted == old(deleted)
    {
      ghost var st := Snapshot();
      codes := [];
      var isBackUpCompleted := false;
      if backupFolders.Some? {
        var folders := backupFolders.value;
        assert st.backupFolders == Some(folders);
        ghost var first := FirstContaining(folders, previousVersion);
        var i := 0;
        while i < |folders|
          invariant 0 <= i <= |folders|
          invariant first == FirstContaining(folders[i..], previousVersion)
          invariant Snapshot() == st && codes == [] && !isBackUpCompleted
          invariant downloads == old(downloads) && deleted == old(deleted)
        {
          assert folders[i..][0] == folders[i] && folders[i..][1..] == folders[i + 1..];
          if Contains(folders[i], previousVersion) {
            if env.restoreApp(folders[i]) {
              appRestoredFrom := appRestoredFrom + [folders[i]];
              isBackUpCompleted := true;
              codes := codes + [BackupPreviousSuccess];
            } else {
              codes := codes + [BackupPreviousFailure];
            }
            break;
          }
          i := i + 1;
        }
        // Which of the three outcomes of the search was reached.
        if i == |folders| {
          assert folders[i..] == [];
          assert first.None? && codes + [BackupPreviousFailure] == [BackupPreviousFailure] && Snapshot() == st;
          assert RollbackSpec(st, env, previousVersion) == (st, codes + [BackupPreviousFailure]);
        } else if env.restoreApp(folders[i]) {
          assert first == Some(folders[i]) && isBackUpCompleted && codes == [BackupPreviousSuccess];
          assert Snapshot() == st.(appRestoredFrom := st.appRestoredFrom + [folders[i]]);
          assert RollbackSpec(st, env, previousVersion) == (Snapshot(), codes);
        } else {
          assert first == Some(folders[i]) && !isBackUpCompleted && codes == [BackupPreviousFailure];
          assert Snapshot() == st && codes + [BackupPreviousFailure] == [BackupPreviousFailure, BackupPreviousFailure];
          assert RollbackSpec(st, env, previousVersion) == (st, codes + [BackupPreviousFailure]);
        }
      } else {
        assert codes + [BackupPreviousFailure] == [BackupPreviousFailure];
      }
      if !isBackUpCompleted {
        codes := codes + [BackupPreviousFailure];
      }
    }

    /** `backUpSetup(version)`: on success only the new backup folder is left in the backup directory. */
    method BackUpSetup(env: Environment, version: string) returns (ok: bool)
      modifies this
      ensures (Snapshot(), ok) == BackUpSpec(old(Snapshot()), env, version)
      ensures downloads == old(downloads) && deleted == old(deleted)
    {
      ok := env.backUp(version);
      if ok {
        backupFolders := Some([version + "_" + env.stamp + "Z"]);
      }
    }

    /**
     * `executeSqlFile(previousVersion, versionMappings)`: drop the versions
     * up to the previous one, apply the rest in order, and on the first
     * failure answer SQL_EXECUTION_FAILURE and roll back to the last applied
     * version.
     */
    method ExecuteSqlFile(env: Environment, previousVersion: string, versionMappings: seq<(string, VersionMapping)>)
      returns (response: ExecutionResponse)
      modifies this
      ensures (Snapshot(), response) == ExecuteSqlFileSpec(old(Snapshot()), env, previousVersion, versionMappings)
      ensures downloads == old(downloads) && deleted == old(deleted)
    {
      var mappings := versionMappings;
      var found := LookUp(mappings, previousVersion);
      if found.Some? {
        mappings := RemovePrior(mappings, found.value.releaseOrder);
      }
      response := ApplyMappings(env, previousVersion, mappings);
    }

    /** The version loop of `executeSqlFile`, starting from `previousVersion`. */
    method ApplyMappings(env: Environment, previousVersion: string, mappings: seq<(string, VersionMapping)>)
      returns (response: ExecutionResponse)
      modifies this
      ensures (Snapshot(), response) == ApplyVersions(old(Snapshot()), env, previousVersion, mappings)
      ensures downloads == old(downloads) && deleted == old(deleted)
    {
      var prev := previousVersion;
      for i := 0 to |mappings|
        invariant ApplyVersions(old(Snapshot()), env, previousVersion, mappings) == ApplyVersions(Snapshot(), env, prev, mappings[i..])
        invariant downloads == old(downloads) && deleted == old(deleted)
      {
        assert mappings[i..][0] == mappings[i] && mappings[i..][1..] == mappings[i + 1..];
        var (key, m) := mappings[i];
        var executed := ExecuteSql(env, m.dbVersion, prev);
        if !executed {
          var codes := Rollback(env, prev);
          return ExecutionResponse(None, [SqlExecutionFailure] + codes);
        }
        prev := key;
        var backedUp := BackUpSetup(env, key);
        if !backedUp {
          var codes := Rollback(env, prev);
          return ExecutionResponse(None, [SqlExecutionFailure] + codes);
        }
        servicesVersion := Some(key);
      }
      assert mappings[|mappings|..] == [];
      response := ExecutionResponse(Some(SqlExecutionSuccess), []);
    }

    /** `download(version, jarName, connectionTimeout, readTimeout)`: default the timeouts, then fetch into the jar's folder. */
    method Download(je: JarEnvironment, version: string, jarName: string,
                    connectionTimeout: Option<string>, readTimeout: Option<string>) returns (failure: Option<JavaException>)
      modifies this
      ensures failure == DownloadSpec(je, version, jarName, connectionTimeout, readTimeout).1
      ensures downloads == old(downloads) + DownloadSpec(je, version, jarName, connectionTimeout, readTimeout).0
      ensures Snapshot() == old(Snapshot()) && deleted == old(deleted)
    {
      var url := je.serverUrl + version + "/" + LIB_FOLDER + jarName;
      var ct := connectionTimeout;
      var rt := readTimeout;
      if ct.None? || ct.value == "null" || IsBlank(Trim(ct.value)) {
        ct := Some(DEFAULT_CONNECTION_TIMEOUT);
      }
      if rt.None? || rt.value == "null" || IsBlank(Trim(rt.value)) {
        rt := Some(DEFAULT_READ_TIMEOUT);
      }
      var connect := ParseInt(ct.value);
      if connect.None? {
        return Some(NumberFormat);
      }
      var read := ParseInt(rt.value);
      if read.None? {
        return Some(NumberFormat);
      }
      var req := DownloadRequest(url, JarFolder(jarName) + je.separator + jarName, connect.value, read.value);
      downloads := downloads + [req];
      failure := if je.fetch(req) then None else Some(IOFailure);
    }

    /**
     * `checkJars(version, jars)`: download every jar that is missing or has
     * a stale checksum, then the upgrade batch file for 1.2.0 versions; the
     * first exception ends the method.
     */
    method CheckJars(je: JarEnvironment, version: string, jars: seq<string>,
                     connectionTimeout: Option<string>, readTimeout: Option<string>) returns (failure: Option<JavaException>)
      modifies this
      ensures failure == CheckJarsSpec(je, version, jars, connectionTimeout, readTimeout).1
      ensures downloads == old(downloads) + CheckJarsSpec(je, version, jars, connectionTimeout, readTimeout).0
      ensures Snapshot() == old(Snapshot()) && deleted == old(deleted)
    {
      failure := DownloadJars(je, version, jars, connectionTimeout, readTimeout);
      if failure.None? && StartsWith(version, "1.2.0") {
        var bat := DownloadRequest(je.serverUrl + version + "/" + UPGRADE_BAT, UPGRADE_BAT, 50000, 0);
        assert bat == BatRequest(je, version);
        downloads := downloads + [bat];
        failure := if je.fetch(bat) then None else Some(IOFailure);
      }
    }

    /** The jar loop of `checkJars`. */
    method DownloadJars(je: JarEnvironment, version: string, jars: seq<string>,
                        connectionTimeout: Option<string>, readTimeout: Option<string>) returns (failure: Option<JavaException>)
      modifies this
      ensures failure == CheckJarLoop(je, version, jars, 0, Timeouts(connectionTimeout, readTimeout)).1
      ensures downloads == old(downloads) + CheckJarLoop(je, version, jars, 0, Timeouts(connectionTimeout, readTimeout)).0
      ensures Snapshot() == old(Snapshot()) && deleted == old(deleted)
    {
      ghost var t := Timeouts(connectionTimeout, readTimeout);
      ghost var total := CheckJarLoop(je, version, jars, 0, t);
      for i := 0 to |jars|
        invariant old(downloads) + total.0 == downloads + CheckJarLoop(je, version, jars, i, t).0
        invariant total.1 == CheckJarLoop(je, version, jars, i, t).1
        invariant Snapshot() == old(Snapshot()) && deleted == old(deleted)
      {
        ghost var before := downloads;
        failure := CheckJar(je, version, jars[i], connectionTimeout, readTimeout);
        if failure.Some? {
          CheckJarLoopStop(je, version, jars, i, t);
          return;
        }
        CheckJarLoopNext(je, version, jars, i, t, before);
      }
      assert downloads + [] == downloads;
      failure := None;
    }

    /** The body of the jar loop of `checkJars`: download the jar if it is missing or stale. */
    method CheckJar(je: JarEnvironment, version: string, jarName: string,
                    connectionTimeout: Option<string>, readTimeout: Option<string>) returns (failure: Option<JavaException>)
      modifies this
      ensures failure == JarStep(je, version, jarName, Timeouts(connectionTimeout, readTimeout)).1
      ensures downloads == old(downloads) + JarStep(je, version, jarName, Timeouts(connectionTimeout, readTimeout)).0
      ensures Snapshot() == old(Snapshot()) && deleted == old(deleted)
    {
      var jarInFolder := JarFolder(jarName) + jarName;
      if !je.fileExists(jarInFolder) || !je.checksumValid(jarInFolder) {
        failure := Download(je, version, jarName, connectionTimeout, readTimeout);
      } else {
        failure := None;
      }
    }

    /** `deleteJars(jars)`: delete every jar that exists in its folder; the first failed delete ends the method. */
    method DeleteJars(je: JarEnvironment, jars: seq<string>) returns (failure: Option<JavaException>)
      modifies this
      ensures failure == DeleteJarsSpec(je, jars).1
      ensures deleted == old(deleted) + DeleteJarsSpec(je, jars).0
      ensures Snapshot() == old(Snapshot()) && downloads == old(downloads)
    {
      ghost var done: seq<string> := [];
      assert jars[0..] == jars;
      assert done + DeleteJarsSpec(je, jars).0 == DeleteJarsSpec(je, jars).0;
      for i := 0 to |jars|
        invariant deleted == old(deleted) + done
        invariant DeleteJarsSpec(je, jars) == (done + DeleteJarsSpec(je, jars[i..]).0, DeleteJarsSpec(je, jars[i..]).1)
        invariant Snapshot() == old(Snapshot()) && downloads == old(downloads)
      {
        assert jars[i..][0] == jars[i] && jars[i..][1..] == jars[i + 1..];
        var deleteFile := JarFolder(jars[i]) + jars[i];
        if je.fileExists(deleteFile) {
          if !je.deletes(deleteFile) {
            assert done + [] == done;
            return Some(IOFailure);
          }
          ghost var rest := DeleteJarsSpec(je, jars[i + 1..]);
          assert done + ([deleteFile] + rest.0) == (done + [deleteFile]) + rest.0;
          assert (old(deleted) + done) + [deleteFile] == old(deleted) + (done + [deleteFile]);
          deleted := deleted + [deleteFile];
          done := done + [deleteFile];
        }
      }
      assert jars[|jars|..] == [];
      assert done + [] == done;
      failure := None;
    }
  }
}
