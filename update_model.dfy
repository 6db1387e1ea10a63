/**
 * Values and step functions of the registration client's software-update
 * handler (SoftwareUpdateHandler.java): the DB-upgrade sequencing of
 * `executeSqlFile` with its three-tier fallback and backup restore, the
 * statement splitting of the SQL script runner, the release-timestamp
 * slicing, the jar folder and download-timeout rules, and `hasUpdate`.
 *
 * The file system, the classpath, JDBC and the network are oracles in
 * `Environment` and `JarEnvironment`; what the handler changes in the world
 * is recorded in `UpdateState`.
 */
module UpdateModel {
  import opened Wrappers
  import opened JavaText

  // ---------------------------------------------------------------------
  // Data
  // ---------------------------------------------------------------------

  /** `VersionMappings`: the DB script folder of a release and its position in the release order. */
  datatype VersionMapping = VersionMapping(dbVersion: string, releaseOrder: int)

  /** The codes `executeSqlFile` puts in its response. */
  datatype ResponseCode = SqlExecutionSuccess | SqlExecutionFailure | BackupPreviousSuccess | BackupPreviousFailure

  /** `ResponseDTO`: the success response, if set, and the error responses in the order they were added. */
  datatype ExecutionResponse = ExecutionResponse(success: Option<ResponseCode>, errors: seq<ResponseCode>)

  /** The exceptions of the modelled code. */
  datatype JavaException = NullPointer | IndexOutOfBounds | NumberFormat | IOFailure

  /**
   * The world the DB upgrade runs against:
   *  - `resources`: the classpath SQL files by path, as their lines;
   *  - `jdbcAccepts`: whether `jdbcTemplate.execute` runs a statement without throwing;
   *  - `restoreApp`: whether `rollBackSetup` of a backup folder completes;
   *  - `restoreDb`: whether copying a backup folder's `db` directory back completes;
   *  - `backUp`: whether `backUpSetup` for a version completes;
   *  - `stamp`: the timestamp text `backUpSetup` puts in the folder name.
   */
  datatype Environment = Environment(
    resources: map<string, seq<string>>,
    jdbcAccepts: string -> bool,
    restoreApp: string -> bool,
    restoreDb: string -> bool,
    backUp: string -> bool,
    stamp: string)

  /**
   * What the DB upgrade leaves behind: the statements sent to JDBC, the
   * backup folders whose `db` directory was copied back, those restored by
   * `rollBackSetup`, the listing of the backup directory (`None` when it does
   * not exist), and the SERVICES_VERSION_KEY global parameter.
   */
  datatype UpdateState = UpdateState(
    statementsSent: seq<string>,
    dbRestoredFrom: seq<string>,
    appRestoredFrom: seq<string>,
    backupFolders: Option<seq<string>>,
    servicesVersion: Option<string>)

  const EXECUTION_SQL_FILE := "initial_db_scripts.sql"
  const ROLLBACK_SQL_FILE := "rollback_scripts.sql"

  /** The classpath path of one of a DB version's scripts. */
  function ScriptPath(dbVersion: string, file: string): string {
    "sql/" + dbVersion + "/" + file
  }

  /** The name `backUpSetup(version)` gives the backup folder it creates. */
  function BackupFolderName(version: string, stamp: string): string {
    version + "_" + stamp + "Z"
  }

  // ---------------------------------------------------------------------
  // runSqlFile and execute
  // ---------------------------------------------------------------------

  /** The text the reading loop of `runSqlFile` builds: every line followed by a newline and a space. */
  function SqlText(lines: seq<string>): string
    decreases |lines|
  {
    if lines == [] then "" else SqlText(lines[..|lines| - 1]) + lines[|lines| - 1] + "\n "
  }

  /** A segment `runSqlFile` skips: one that trims to the empty string. */
  predicate IsBlankSegment(stat: string) {
    Trim(stat) == ""
  }

  /** The segments that are not blank, in order. */
  function NonBlank(segs: seq<string>): (r: seq<string>)
    ensures |r| <= |segs|
    decreases |segs|
  {
    if segs == [] then []
    else (if IsBlankSegment(segs[0]) then [] else [segs[0]]) + NonBlank(segs[1..])
  }

  /**
   * The statement loop of `runSqlFile`: each non-blank segment is sent to
   * JDBC as it is, untrimmed; the first one JDBC rejects ends the loop.
   * Gives whether every statement ran and the statements sent.
   */
  function RunSegments(segs: seq<string>, accepts: string -> bool): (bool, seq<string>)
    decreases |segs|
  {
    if segs == [] then (true, [])
    else if IsBlankSegment(segs[0]) then RunSegments(segs[1..], accepts)
    else if !accepts(segs[0]) then (false, [segs[0]])
    else
      var (ok, sent) := RunSegments(segs[1..], accepts);
      (ok, [segs[0]] + sent)
  }

  /** `runSqlFile`: read the lines, split the text on `;`, run the segments. */
  function RunSqlFileSpec(lines: seq<string>, accepts: string -> bool): (bool, seq<string>) {
    RunSegments(JavaSplit(SqlText(lines), ';'), accepts)
  }

  /** `execute(path)`: a script missing from the classpath counts as run. */
  function ExecuteSpec(env: Environment, path: string): (bool, seq<string>) {
    if path !in env.resources then (true, []) else RunSqlFileSpec(env.resources[path], env.jdbcAccepts)
  }

  /** The execution script of a DB version runs without an exception. */
  predicate ScriptOk(env: Environment, dbVersion: string) {
    ExecuteSpec(env, ScriptPath(dbVersion, EXECUTION_SQL_FILE)).0
  }

  // ---------------------------------------------------------------------
  // Backup folders: dbRollBackSetup, rollback, backUpSetup
  // ---------------------------------------------------------------------

  /** The first folder whose name contains `version`, as the `break` loops pick it. */
  function FirstContaining(folders: seq<string>, version: string): (r: Option<string>)
    decreases |folders|
  {
    if folders == [] then None
    else if Contains(folders[0], version) then Some(folders[0])
    else FirstContaining(folders[1..], version)
  }

  /** `dbRollBackSetup(previousVersion)`: copy back the `db` directory of the first matching backup; failures are swallowed. */
  function DbRollBackSpec(st: UpdateState, env: Environment, previousVersion: string): UpdateState {
    if st.backupFolders.None? then st
    else
      match FirstContaining(st.backupFolders.value, previousVersion)
      case None => st
      case Some(f) => if env.restoreDb(f) then st.(dbRestoredFrom := st.dbRestoredFrom + [f]) else st
  }

  /**
   * `rollback(response, previousVersion)`: restore the first matching backup
   * and add BACKUP_PREVIOUS_SUCCESS; a restore that throws adds
   * BACKUP_PREVIOUS_FAILURE, and so does the final check of the flag, so a
   * failed restore adds it twice; no matching backup adds it once.
   */
  function RollbackSpec(st: UpdateState, env: Environment, previousVersion: string): (UpdateState, seq<ResponseCode>) {
    if st.backupFolders.None? then (st, [BackupPreviousFailure])
    else
      match FirstContaining(st.backupFolders.value, previousVersion)
      case None => (st, [BackupPreviousFailure])
      case Some(f) =>
        if env.restoreApp(f) then (st.(appRestoredFrom := st.appRestoredFrom + [f]), [BackupPreviousSuccess])
        else (st, [BackupPreviousFailure, BackupPreviousFailure])
  }

  /** `backUpSetup(version)`: on success the backup directory holds only the new folder. */
  function BackUpSpec(st: UpdateState, env: Environment, version: string): (UpdateState, bool) {
    if env.backUp(version) then (st.(backupFolders := Some([BackupFolderName(version, env.stamp)])), true)
    else (st, false)
  }

  // ---------------------------------------------------------------------
  // executeSQL
  // ---------------------------------------------------------------------

  /**
   * `executeSQL(dbVersion, previousVersion)`: run the execution script; if it
   * throws, run the rollback script; if that throws too, restore the DB from
   * the backup of `previousVersion`. Every failure ends in an exception
   * (`false` here).
   */
  function ExecuteSqlSpec(st: UpdateState, env: Environment, dbVersion: string, previousVersion: string): (UpdateState, bool) {
    var (ok1, sent1) := ExecuteSpec(env, ScriptPath(dbVersion, EXECUTION_SQL_FILE));
    var st1 := st.(statementsSent := st.statementsSent + sent1);
    if ok1 then (st1, true)
    else
      var (ok2, sent2) := ExecuteSpec(env, ScriptPath(dbVersion, ROLLBACK_SQL_FILE));
      var st2 := st1.(statementsSent := st1.statementsSent + sent2);
      if ok2 then (st2, false) else (DbRollBackSpec(st2, env, previousVersion), false)
  }

  // ---------------------------------------------------------------------
  // executeSqlFile
  // ---------------------------------------------------------------------

  /** `versionMappings.get(key)`, the map given as its entries in iteration order. */
  function LookUp(mappings: seq<(string, VersionMapping)>, key: string): Option<VersionMapping>
    decreases |mappings|
  {
    if mappings == [] then None
    else if mappings[0].0 == key then Some(mappings[0].1)
    else LookUp(mappings[1..], key)
  }

  /** `removeIf(releaseOrder <= order)`: the entries released after `order`, in order. */
  function RemovePrior(mappings: seq<(string, VersionMapping)>, order: int): (r: seq<(string, VersionMapping)>)
    ensures |r| <= |mappings|
    decreases |mappings|
  {
    if mappings == [] then []
    else (if mappings[0].1.releaseOrder <= order then [] else [mappings[0]]) + RemovePrior(mappings[1..], order)
  }

  /** The versions left to apply: those after `previousVersion` when it is a key, otherwise all. */
  function Remaining(mappings: seq<(string, VersionMapping)>, previousVersion: string): seq<(string, VersionMapping)> {
    match LookUp(mappings, previousVersion)
    case None => mappings
    case Some(m) => RemovePrior(mappings, m.releaseOrder)
  }

  /** The failure response: SQL_EXECUTION_FAILURE, then what `rollback` adds. */
  function FailAndRollback(st: UpdateState, env: Environment, previousVersion: string): (UpdateState, ExecutionResponse) {
    var (st1, codes) := RollbackSpec(st, env, previousVersion);
    (st1, ExecutionResponse(None, [SqlExecutionFailure] + codes))
  }

  /**
   * The loop of `executeSqlFile` over the remaining versions: run each
   * version's scripts from the last applied version, then make it the last
   * applied one, back it up and record it in SERVICES_VERSION_KEY. The first
   * failure answers SQL_EXECUTION_FAILURE and rolls back to the last applied
   * version, which is the failing one itself when only its backup failed.
   */
  function ApplyVersions(st: UpdateState, env: Environment, previousVersion: string,
                         entries: seq<(string, VersionMapping)>): (UpdateState, ExecutionResponse)
    decreases |entries|
  {
    if entries == [] then (st, ExecutionResponse(Some(SqlExecutionSuccess), []))
    else
      var (key, m) := entries[0];
      var (st1, ok) := ExecuteSqlSpec(st, env, m.dbVersion, previousVersion);
      if !ok then FailAndRollback(st1, env, previousVersion)
      else
        var (st2, backedUp) := BackUpSpec(st1, env, key);
        if !backedUp then FailAndRollback(st2, env, key)
        else ApplyVersions(st2.(servicesVersion := Some(key)), env, key, entries[1..])
  }

  /** `executeSqlFile(previousVersion, versionMappings)`. */
  function ExecuteSqlFileSpec(st: UpdateState, env: Environment, previousVersion: string,
                              mappings: seq<(string, VersionMapping)>): (UpdateState, ExecutionResponse) {
    ApplyVersions(st, env, previousVersion, Remaining(mappings, previousVersion))
  }

  // ---------------------------------------------------------------------
  // getLatestVersionReleaseTimestamp
  // ---------------------------------------------------------------------

  /** The fields `calendar.set` receives; the month is already the zero-based one. */
  datatype CalendarFields = CalendarFields(year: int32, month: int, day: int32, hourOfDay: int32, minute: int32, second: int32)

  /** `Integer.valueOf` of the chars `s[from..from + width]`, taken one `charAt` at a time. */
  function Field(s: string, from: nat, width: nat): Result<int32, JavaException> {
    if |s| < from + width then Err(IndexOutOfBounds)
    else
      match ParseInt(s[from..from + width])
      case None => Err(NumberFormat)
      case Some(v) => Ok(v)
  }

  /**
   * `getLatestVersionReleaseTimestamp`: year from chars 0-3, month 4-5 (handed
   * on minus one), day 6-7, hour 8-9, minute 10-11, second 12-13, read in
   * that order, each failing as soon as its chars are missing or not a number;
   * a timestamp never set is a null dereference.
   */
  function ReleaseTimestamp(stampText: Option<string>): Result<CalendarFields, JavaException> {
    if stampText.None? then Err(NullPointer)
    else
      var s := stampText.value;
      var year := Field(s, 0, 4);
      if year.Err? then Err(year.error) else
      var month := Field(s, 4, 2);
      if month.Err? then Err(month.error) else
      var day := Field(s, 6, 2);
      if day.Err? then Err(day.error) else
      var hour := Field(s, 8, 2);
      if hour.Err? then Err(hour.error) else
      var minute := Field(s, 10, 2);
      if minute.Err? then Err(minute.error) else
      var second := Field(s, 12, 2);
      if second.Err? then Err(second.error) else
      Ok(CalendarFields(year.value, month.value as int - 1, day.value, hour.value, minute.value, second.value))
  }

  // ---------------------------------------------------------------------
  // checkJars, download, deleteJars
  // ---------------------------------------------------------------------

  const BIN_FOLDER := "bin/"
  const LIB_FOLDER := "lib/"
  const DEFAULT_CONNECTION_TIMEOUT := "50000"
  const DEFAULT_READ_TIMEOUT := "0"
  const UPGRADE_BAT := "run_upgrade.bat"

  /** A `copyURLToFile` call: the URL, the file written and the two timeouts. */
  datatype DownloadRequest = DownloadRequest(url: string, target: string, connectTimeout: int32, readTimeout: int32)

  /**
   * The jar side of the world: the upgrade server URL (`getURL` already
   * applied), `File.separator`, whether a file exists, whether its checksum
   * matches the server manifest, whether a download completes, and whether a
   * `forceDelete` completes.
   */
  datatype JarEnvironment = JarEnvironment(
    serverUrl: string,
    separator: string,
    fileExists: string -> bool,
    checksumValid: string -> bool,
    fetch: DownloadRequest -> bool,
    deletes: string -> bool)

  /** Jars whose name contains "mosip" live in `bin/`, all others in `lib/`. */
  function JarFolder(jarName: string): string {
    if Contains(jarName, "mosip") then BIN_FOLDER else LIB_FOLDER
  }

  /** The timeout text `download` uses: the default for null, "null" or blank text, the text itself otherwise. */
  function EffectiveTimeout(configured: Option<string>, default: string): string {
    if configured.None? || configured.value == "null" || IsBlank(Trim(configured.value)) then default
    else configured.value
  }

  /** `Integer.parseInt` of both effective timeouts, connection timeout first. */
  function Timeouts(connectionTimeout: Option<string>, readTimeout: Option<string>): Result<(int32, int32), JavaException> {
    var c := ParseInt(EffectiveTimeout(connectionTimeout, DEFAULT_CONNECTION_TIMEOUT));
    var r := ParseInt(EffectiveTimeout(readTimeout, DEFAULT_READ_TIMEOUT));
    if c.None? || r.None? then Err(NumberFormat) else Ok((c.value, r.value))
  }

  /** The download of a jar: always from the version's `lib/` URL, into the jar's own folder. */
  function JarRequest(je: JarEnvironment, version: string, jarName: string, timeouts: (int32, int32)): DownloadRequest {
    DownloadRequest(je.serverUrl + version + "/" + LIB_FOLDER + jarName,
                    JarFolder(jarName) + je.separator + jarName,
                    timeouts.0, timeouts.1)
  }

  /** The download of a jar once the timeouts are parsed: the request made, or the exception. */
  function FetchJar(je: JarEnvironment, version: string, jarName: string,
                    timeouts: Result<(int32, int32), JavaException>): (seq<DownloadRequest>, Option<JavaException>) {
    if timeouts.Err? then ([], Some(timeouts.error))
    else
      var req := JarRequest(je, version, jarName, timeouts.value);
      ([req], if je.fetch(req) then None else Some(IOFailure))
  }

  /** `download(version, jarName, connectionTimeout, readTimeout)`: parse the timeouts, then fetch. */
  function DownloadSpec(je: JarEnvironment, version: string, jarName: string,
                        connectionTimeout: Option<string>, readTimeout: Option<string>): (seq<DownloadRequest>, Option<JavaException>) {
    FetchJar(je, version, jarName, Timeouts(connectionTimeout, readTimeout))
  }

  /** The local path `checkJars` and `deleteJars` look at. */
  function JarPath(jarName: string): string {
    JarFolder(jarName) + jarName
  }

  /** A jar `checkJars` downloads: missing, or with a checksum that does not match. */
  predicate NeedsDownload(je: JarEnvironment, jarName: string) {
    !je.fileExists(JarPath(jarName)) || !je.checksumValid(JarPath(jarName))
  }

  /**
   * What `checkJars` does for one jar: download it when it needs it. The
   * timeouts are the parse `download` makes of the configured text, the same
   * on every call.
   */
  function JarStep(je: JarEnvironment, version: string, jarName: string,
                   timeouts: Result<(int32, int32), JavaException>): (seq<DownloadRequest>, Option<JavaException>) {
    if NeedsDownload(je, jarName) then FetchJar(je, version, jarName, timeouts) else ([], None)
  }

  /** The jar loop of `checkJars` from index `from` on; the first exception ends it. */
  function CheckJarLoop(je: JarEnvironment, version: string, jars: seq<string>, from: nat,
                        timeouts: Result<(int32, int32), JavaException>): (seq<DownloadRequest>, Option<JavaException>)
    requires from <= |jars|
    decreases |jars| - from
  {
    if from == |jars| then ([], None)
    else
      var step := JarStep(je, version, jars[from], timeouts);
      if step.1.Some? then step
      else
        var rest := CheckJarLoop(je, version, jars, from + 1, timeouts);
        (step.0 + rest.0, rest.1)
  }

  /**
   * Loop helper with no counterpart in the source: a jar whose step ends
   * without an exception hands the rest of the list to the next turn of the loop.
   */
  lemma CheckJarLoopNext(je: JarEnvironment, version: string, jars: seq<string>, i: nat,
                         timeouts: Result<(int32, int32), JavaException>, made: seq<DownloadRequest>)
    requires i < |jars|
    requires JarStep(je, version, jars[i], timeouts).1.None?
    ensures made + CheckJarLoop(je, version, jars, i, timeouts).0
            == (made + JarStep(je, version, jars[i], timeouts).0) + CheckJarLoop(je, version, jars, i + 1, timeouts).0
    ensures CheckJarLoop(je, version, jars, i, timeouts).1 == CheckJarLoop(je, version, jars, i + 1, timeouts).1
  {
    var step := JarStep(je, version, jars[i], timeouts);
    var rest := CheckJarLoop(je, version, jars, i + 1, timeouts);
    assert made + (step.0 + rest.0) == (made + step.0) + rest.0;
  }

  /**
   * Loop helper with no counterpart in the source: a jar whose step ends in
   * an exception ends the loop with what that step did.
   */
  lemma CheckJarLoopStop(je: JarEnvironment, version: string, jars: seq<string>, i: nat,
                         timeouts: Result<(int32, int32), JavaException>)
    requires i < |jars|
    requires JarStep(je, version, jars[i], timeouts).1.Some?
    ensures CheckJarLoop(je, version, jars, i, timeouts) == JarStep(je, version, jars[i], timeouts)
  {
  }

  /** The upgrade batch file `checkJars` fetches for 1.2.0 versions, with fixed timeouts. */
  function BatRequest(je: JarEnvironment, version: string): DownloadRequest {
    DownloadRequest(je.serverUrl + version + "/" + UPGRADE_BAT, UPGRADE_BAT, 50000, 0)
  }

  /** `checkJars(version, jars)`: the jar loop, then the batch file for a version starting with "1.2.0". */
  function CheckJarsSpec(je: JarEnvironment, version: string, jars: seq<string>,
                         connectionTimeout: Option<string>, readTimeout: Option<string>): (seq<DownloadRequest>, Option<JavaException>) {
    var (reqs, e) := CheckJarLoop(je, version, jars, 0, Timeouts(connectionTimeout, readTimeout));
    if e.Some? || !StartsWith(version, "1.2.0") then (reqs, e)
    else
      var bat := BatRequest(je, version);
      (reqs + [bat], if je.fetch(bat) then None else Some(IOFailure))
  }

  /** `deleteJars(jars)`: delete each jar that exists; the first failed delete ends the loop. */
  function DeleteJarsSpec(je: JarEnvironment, jars: seq<string>): (seq<string>, Option<JavaException>)
    decreases |jars|
  {
    if jars == [] then ([], None)
    else
      var path := JarPath(jars[0]);
      if !je.fileExists(path) then DeleteJarsSpec(je, jars[1..])
      else if !je.deletes(path) then ([], Some(IOFailure))
      else
        var (more, e) := DeleteJarsSpec(je, jars[1..]);
        ([path] + more, e)
  }

  // ---------------------------------------------------------------------
  // hasUpdate
  // ---------------------------------------------------------------------

  /**
   * What `getLocalManifest` hands `getCurrentVersion`: null (no manifest
   * file and none read before), an IOException while reading it, or a
   * manifest with its Manifest-Version attribute (null when it has none).
   */
  datatype LocalManifest = NoManifest | ManifestUnreadable | ManifestRead(version: Option<string>)

  /**
   * `getCurrentVersion`: the version of a manifest that was read; otherwise
   * (no manifest, or the IOException it swallows) the version the handler
   * already held, null when it held none.
   */
  function CurrentVersion(local: LocalManifest, held: Option<string>): Option<string> {
    if local.ManifestRead? then local.version else held
  }

  /**
   * `hasUpdate`: the current version (null when there is no local manifest)
   * differs from the latest one (null when the server file has no version
   * tag, an exception when it cannot be read); any exception, the null
   * current version's included, answers false.
   */
  function HasUpdate(current: Option<string>, latest: Result<Option<string>, JavaException>): bool {
    match current
    case None => false
    case Some(c) =>
      match latest
      case Err(_) => false
      case Ok(l) => l.None? || c != l.value
  }
}
