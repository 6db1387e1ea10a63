/**
 * What the software-update handler promises, stated over the step functions
 * of `UpdateModel` (and so, through the `ensures` of `UpdateHandler`, over
 * the methods of the class): which versions `executeSqlFile` still applies,
 * what the statement runner sends, the outcomes of `rollback` and of the
 * version loop, the release-timestamp fields, the download timeouts, and the
 * jars `checkJars` and `deleteJars` act on.
 */
module UpdateProperties {
  import opened Wrappers
  import opened JavaText
  import opened UpdateModel

  // ---------------------------------------------------------------------
  // Which versions are applied
  // ---------------------------------------------------------------------

  /** `removeIf` keeps exactly the entries released after `order`. */
  lemma {:induction false} RemovePriorMembers(ms: seq<(string, VersionMapping)>, order: int, e: (string, VersionMapping))
    ensures e in RemovePrior(ms, order) <==> e in ms && e.1.releaseOrder > order
    decreases |ms|
  {
    if ms != [] {
      RemovePriorMembers(ms[1..], order, e);
      assert ms == [ms[0]] + ms[1..];
    }
  }

  /** `removeIf` keeps the iteration order: filtering a concatenation filters each part. */
  lemma {:induction false} RemovePriorConcat(a: seq<(string, VersionMapping)>, b: seq<(string, VersionMapping)>, order: int)
    ensures RemovePrior(a + b, order) == RemovePrior(a, order) + RemovePrior(b, order)
    decreases |a|
  {
    if a == [] {
      assert a + b == b;
    } else {
      var head := if a[0].1.releaseOrder <= order then [] else [a[0]];
      assert (a + b)[0] == a[0] && (a + b)[1..] == a[1..] + b;
      assert RemovePrior(a + b, order) == head + RemovePrior(a[1..] + b, order);
      RemovePriorConcat(a[1..], b, order);
      assert RemovePrior(a, order) == head + RemovePrior(a[1..], order);
      assert head + (RemovePrior(a[1..], order) + RemovePrior(b, order))
          == (head + RemovePrior(a[1..], order)) + RemovePrior(b, order);
    }
  }

  /** `get` finds a key exactly when some entry has it, and what it finds is that key's entry. */
  lemma {:induction false} LookUpFinds(ms: seq<(string, VersionMapping)>, key: string)
    ensures LookUp(ms, key).Some? <==> exists i :: 0 <= i < |ms| && ms[i].0 == key
    ensures LookUp(ms, key).Some? ==> (key, LookUp(ms, key).value) in ms
    decreases |ms|
  {
    if ms != [] && ms[0].0 != key {
      LookUpFinds(ms[1..], key);
      if exists i :: 0 <= i < |ms| && ms[i].0 == key {
        var i :| 0 <= i < |ms| && ms[i].0 == key;
        assert ms[1..][i - 1].0 == key;
      }
      if LookUp(ms[1..], key).Some? {
        var i :| 0 <= i < |ms[1..]| && ms[1..][i].0 == key;
        assert ms[i + 1].0 == key;
      }
    }
  }

  /** Keys of a map: no two entries share one. */
  predicate DistinctKeys(ms: seq<(string, VersionMapping)>) {
    forall i, j :: 0 <= i < j < |ms| ==> ms[i].0 != ms[j].0
  }

  /**
   * When `previousVersion` is a key of the mappings, the versions left are
   * exactly those released after it, and it is not among them.
   */
  lemma RemainingAfterPrevious(ms: seq<(string, VersionMapping)>, previousVersion: string, m: VersionMapping)
    requires DistinctKeys(ms)
    requires (previousVersion, m) in ms
    ensures forall e :: e in Remaining(ms, previousVersion) <==> e in ms && e.1.releaseOrder > m.releaseOrder
    ensures forall e :: e in Remaining(ms, previousVersion) ==> e.0 != previousVersion
  {
    LookUpFinds(ms, previousVersion);
    var found := LookUp(ms, previousVersion).value;
    assert found == m by {
      var i :| 0 <= i < |ms| && ms[i] == (previousVersion, found);
      var j :| 0 <= j < |ms| && ms[j] == (previousVersion, m);
      assert i == j;
    }
    forall e ensures e in Remaining(ms, previousVersion) <==> e in ms && e.1.releaseOrder > m.releaseOrder {
      RemovePriorMembers(ms, m.releaseOrder, e);
    }
    forall e | e in Remaining(ms, previousVersion) ensures e.0 != previousVersion {
      RemovePriorMembers(ms, m.releaseOrder, e);
    }
  }

  /** When `previousVersion` is not a key, every version is applied. */
  lemma RemainingWithoutPrevious(ms: seq<(string, VersionMapping)>, previousVersion: string)
    requires forall i :: 0 <= i < |ms| ==> ms[i].0 != previousVersion
    ensures Remaining(ms, previousVersion) == ms
  {
    LookUpFinds(ms, previousVersion);
  }

  // ---------------------------------------------------------------------
  // runSqlFile
  // ---------------------------------------------------------------------

  /** The text of the reading loop grows line by line: the text of two runs of lines is their concatenation. */
  lemma {:induction false} SqlTextConcat(a: seq<string>, b: seq<string>)
    ensures SqlText(a + b) == SqlText(a) + SqlText(b)
    decreases |b|
  {
    if b == [] {
      assert a + b == a;
    } else {
      var b' := b[..|b| - 1];
      SqlTextConcat(a, b');
      assert (a + b)[..|a + b| - 1] == a + b';
      assert (a + b)[|a + b| - 1] == b[|b| - 1];
    }
  }

  /** The statements sent are the first ones of the non-blank segments, in order. */
  lemma {:induction false} RunSegmentsSentPrefix(segs: seq<string>, accepts: string -> bool)
    ensures RunSegments(segs, accepts).1 <= NonBlank(segs)
    decreases |segs|
  {
    if segs != [] {
      RunSegmentsSentPrefix(segs[1..], accepts);
    }
  }

  /** JDBC accepts every one of `xs`. */
  predicate AllAccepted(xs: seq<string>, accepts: string -> bool) {
    forall k :: 0 <= k < |xs| ==> accepts(xs[k])
  }

  lemma AllAcceptedCons(x: string, xs: seq<string>, accepts: string -> bool)
    ensures AllAccepted([x] + xs, accepts) <==> accepts(x) && AllAccepted(xs, accepts)
  {
    var all := [x] + xs;
    assert all[0] == x;
    if accepts(x) && AllAccepted(xs, accepts) {
      forall k | 1 <= k < |all| ensures accepts(all[k]) {
        assert all[k] == xs[k - 1];
      }
    }
    if AllAccepted(all, accepts) {
      forall k | 0 <= k < |xs| ensures accepts(xs[k]) {
        assert all[k + 1] == xs[k];
      }
    }
  }

  /** All statements run exactly when JDBC accepts every non-blank segment, and then every one of them was sent. */
  lemma {:induction false} RunSegmentsOk(segs: seq<string>, accepts: string -> bool)
    ensures RunSegments(segs, accepts).0 <==> AllAccepted(NonBlank(segs), accepts)
    ensures RunSegments(segs, accepts).0 ==> RunSegments(segs, accepts).1 == NonBlank(segs)
    decreases |segs|
  {
    if segs != [] {
      RunSegmentsOk(segs[1..], accepts);
      var rest := NonBlank(segs[1..]);
      if !IsBlankSegment(segs[0]) {
        assert NonBlank(segs) == [segs[0]] + rest;
        AllAcceptedCons(segs[0], rest, accepts);
      } else {
        assert [] + rest == rest;
        assert NonBlank(segs) == rest;
      }
    }
  }

  /** A run that fails ends with the statement JDBC rejected; every statement before it was accepted. */
  lemma {:induction false} RunSegmentsFailure(segs: seq<string>, accepts: string -> bool)
    requires !RunSegments(segs, accepts).0
    ensures var sent := RunSegments(segs, accepts).1;
      sent != [] && !accepts(sent[|sent| - 1]) && forall k :: 0 <= k < |sent| - 1 ==> accepts(sent[k])
    decreases |segs|
  {
    if !IsBlankSegment(segs[0]) && accepts(segs[0]) {
      RunSegmentsFailure(segs[1..], accepts);
      var rest := RunSegments(segs[1..], accepts).1;
      assert RunSegments(segs, accepts).1 == [segs[0]] + rest;
    } else if IsBlankSegment(segs[0]) {
      RunSegmentsFailure(segs[1..], accepts);
    }
  }

  /** No segment of the split text contains the separator. */
  lemma SplitSegmentsHaveNoSeparator(s: string)
    ensures forall k :: 0 <= k < |JavaSplit(s, ';')| ==> ';' !in JavaSplit(s, ';')[k]
  {
    if ';' in s {
      var parts := SplitOn(s, ';');
      var r := DropTrailingEmpty(parts);
      assert forall k :: 0 <= k < |r| ==> r[k] == parts[k];
    }
  }

  /** Every statement `runSqlFile` sends is non-blank and holds no `;`. */
  lemma SentStatementsAreStatements(lines: seq<string>, accepts: string -> bool)
    ensures forall k :: 0 <= k < |RunSqlFileSpec(lines, accepts).1| ==>
      var x := RunSqlFileSpec(lines, accepts).1[k];
      ';' !in x && Trim(x) != ""
  {
    var segs := JavaSplit(SqlText(lines), ';');
    var sent := RunSqlFileSpec(lines, accepts).1;
    RunSegmentsSentPrefix(segs, accepts);
    SplitSegmentsHaveNoSeparator(SqlText(lines));
    forall k | 0 <= k < |sent| ensures ';' !in sent[k] && Trim(sent[k]) != "" {
      assert sent[k] == NonBlank(segs)[k];
      NonBlankMember(segs, k);
    }
  }

  /** A non-blank segment is one of the segments, and not blank. */
  lemma {:induction false} NonBlankMember(segs: seq<string>, k: nat)
    requires k < |NonBlank(segs)|
    ensures NonBlank(segs)[k] in segs && Trim(NonBlank(segs)[k]) != ""
    decreases |segs|
  {
    var head := if IsBlankSegment(segs[0]) then [] else [segs[0]];
    assert NonBlank(segs) == head + NonBlank(segs[1..]);
    if k >= |head| {
      NonBlankMember(segs[1..], k - |head|);
    }
  }

  // ---------------------------------------------------------------------
  // Backup folders and rollback
  // ---------------------------------------------------------------------

  /** The `break` loops pick the first folder whose name contains the version; none when no folder does. */
  lemma {:induction false} FirstContainingFinds(folders: seq<string>, version: string)
    ensures FirstContaining(folders, version).None? <==> forall k :: 0 <= k < |folders| ==> !Contains(folders[k], version)
    ensures FirstContaining(folders, version).Some? ==>
      exists i :: 0 <= i < |folders| && folders[i] == FirstContaining(folders, version).value && Contains(folders[i], version)
               && forall k :: 0 <= k < i ==> !Contains(folders[k], version)
    decreases |folders|
  {
    if folders != [] && !Contains(folders[0], version) {
      FirstContainingFinds(folders[1..], version);
      if FirstContaining(folders, version).Some? {
        var i :| 0 <= i < |folders[1..]| && folders[1..][i] == FirstContaining(folders, version).value
                 && Contains(folders[1..][i], version) && forall k :: 0 <= k < i ==> !Contains(folders[1..][k], version);
        assert forall k :: 1 <= k < i + 1 ==> folders[k] == folders[1..][k - 1];
        assert folders[i + 1] == folders[1..][i];
      } else {
        assert forall k :: 1 <= k < |folders| ==> folders[k] == folders[1..][k - 1];
      }
    } else if folders != [] {
      assert folders[0] == FirstContaining(folders, version).value;
    }
  }

  /** The folder `backUpSetup(version)` creates is found again by a search for `version`. */
  lemma BackupFolderMatches(version: string, stamp: string)
    ensures Contains(BackupFolderName(version, stamp), version)
  {
    var name := BackupFolderName(version, stamp);
    assert name[..|version|] == version;
  }

  /**
   * `rollback` answers BACKUP_PREVIOUS_SUCCESS exactly when some backup
   * folder matches the version and the first one that does is restored;
   * otherwise it answers one BACKUP_PREVIOUS_FAILURE, or two when the
   * restore itself failed.
   */
  lemma RollbackOutcome(st: UpdateState, env: Environment, previousVersion: string)
    ensures var codes := RollbackSpec(st, env, previousVersion).1;
      codes == [BackupPreviousSuccess] || codes == [BackupPreviousFailure] || codes == [BackupPreviousFailure, BackupPreviousFailure]
    ensures RollbackSpec(st, env, previousVersion).1 == [BackupPreviousSuccess] <==>
      st.backupFolders.Some? &&
      exists i :: 0 <= i < |st.backupFolders.value| && Contains(st.backupFolders.value[i], previousVersion)
               && (forall k :: 0 <= k < i ==> !Contains(st.backupFolders.value[k], previousVersion))
               && env.restoreApp(st.backupFolders.value[i])
    ensures RollbackSpec(st, env, previousVersion).1 == [BackupPreviousSuccess] <==>
      RollbackSpec(st, env, previousVersion).0 != st
  {
    if st.backupFolders.Some? {
      var fs := st.backupFolders.value;
      FirstContainingFinds(fs, previousVersion);
      if exists i :: 0 <= i < |fs| && Contains(fs[i], previousVersion)
                     && (forall k :: 0 <= k < i ==> !Contains(fs[k], previousVersion)) && env.restoreApp(fs[i]) {
        var i :| 0 <= i < |fs| && Contains(fs[i], previousVersion)
                 && (forall k :: 0 <= k < i ==> !Contains(fs[k], previousVersion)) && env.restoreApp(fs[i]);
        var j :| 0 <= j < |fs| && fs[j] == FirstContaining(fs, previousVersion).value && Contains(fs[j], previousVersion)
                 && forall k :: 0 <= k < j ==> !Contains(fs[k], previousVersion);
        assert i == j;
      }
      if FirstContaining(fs, previousVersion).Some? {
        var f := FirstContaining(fs, previousVersion).value;
        assert |st.appRestoredFrom + [f]| != |st.appRestoredFrom|;
      }
    }
  }

  /** `executeSQL` leaves the backup listing, the restored applications and SERVICES_VERSION_KEY as they were, and only adds statements. */
  lemma ExecuteSqlFrame(st: UpdateState, env: Environment, dbVersion: string, previousVersion: string)
    ensures var st1 := ExecuteSqlSpec(st, env, dbVersion, previousVersion).0;
      st1.backupFolders == st.backupFolders && st1.servicesVersion == st.servicesVersion &&
      st1.appRestoredFrom == st.appRestoredFrom && st.statementsSent <= st1.statementsSent
  {
  }

  /**
   * `executeSQL` succeeds exactly when the version's execution script does.
   * A failed execution script is followed by the rollback script, whose
   * statements are sent after its own; when that fails too, the `db`
   * directory of the first backup matching `previousVersion` is copied back.
   * The DB is restored from a backup only in that case.
   */
  lemma ExecuteSqlOutcome(st: UpdateState, env: Environment, dbVersion: string, previousVersion: string)
    ensures ExecuteSqlSpec(st, env, dbVersion, previousVersion).1 <==> ScriptOk(env, dbVersion)
    ensures ExecuteSqlSpec(st, env, dbVersion, previousVersion).0.dbRestoredFrom != st.dbRestoredFrom ==>
      !ScriptOk(env, dbVersion) && !ExecuteSpec(env, ScriptPath(dbVersion, ROLLBACK_SQL_FILE)).0
    ensures var exec := ExecuteSpec(env, ScriptPath(dbVersion, EXECUTION_SQL_FILE));
            var rb := ExecuteSpec(env, ScriptPath(dbVersion, ROLLBACK_SQL_FILE));
            ExecuteSqlSpec(st, env, dbVersion, previousVersion).0.statementsSent
              == if exec.0 then st.statementsSent + exec.1 else st.statementsSent + exec.1 + rb.1
    ensures var rb := ExecuteSpec(env, ScriptPath(dbVersion, ROLLBACK_SQL_FILE));
            var found := if st.backupFolders.Some? then FirstContaining(st.backupFolders.value, previousVersion) else None;
            !ScriptOk(env, dbVersion) && !rb.0 && found.Some? && env.restoreDb(found.value) ==>
              ExecuteSqlSpec(st, env, dbVersion, previousVersion).0.dbRestoredFrom == st.dbRestoredFrom + [found.value]
  {
  }

  /** A script missing from the classpath counts as run and sends nothing. */
  lemma MissingScriptRuns(env: Environment, path: string)
    requires path !in env.resources
    ensures ExecuteSpec(env, path) == (true, [])
  {
  }

  /** After a successful `backUpSetup(key)` and any `executeSQL`, `rollback(key)` restores the backup just made. */
  lemma RollbackFindsNewBackup(st: UpdateState, env: Environment, key: string, dbVersion: string)
    requires env.backUp(key)
    ensures var st1 := ExecuteSqlSpec(BackUpSpec(st, env, key).0, env, dbVersion, key).0;
      RollbackSpec(st1, env, key).1 ==
        if env.restoreApp(BackupFolderName(key, env.stamp)) then [BackupPreviousSuccess]
        else [BackupPreviousFailure, BackupPreviousFailure]
  {
    BackupFolderMatches(key, env.stamp);
    var st1 := ExecuteSqlSpec(BackUpSpec(st, env, key).0, env, dbVersion, key).0;
    assert st1.backupFolders == Some([BackupFolderName(key, env.stamp)]);
  }

  // ---------------------------------------------------------------------
  // The version loop of executeSqlFile
  // ---------------------------------------------------------------------

  /** A version applies: its execution script runs and its backup completes. */
  predicate Applies(env: Environment, entry: (string, VersionMapping)) {
    ScriptOk(env, entry.1.dbVersion) && env.backUp(entry.0)
  }

  /**
   * The response is SQL_EXECUTION_SUCCESS with no errors exactly when every
   * remaining version applies; otherwise it has no success and its errors
   * are SQL_EXECUTION_FAILURE followed by what `rollback` answered.
   */
  lemma {:induction false} ApplyVersionsOutcome(st: UpdateState, env: Environment, previousVersion: string,
                                                entries: seq<(string, VersionMapping)>)
    ensures var r := ApplyVersions(st, env, previousVersion, entries).1;
      r == ExecutionResponse(Some(SqlExecutionSuccess), []) <==> forall k :: 0 <= k < |entries| ==> Applies(env, entries[k])
    ensures var r := ApplyVersions(st, env, previousVersion, entries).1;
      r.success.None? ==>
        r.errors == [SqlExecutionFailure, BackupPreviousSuccess] || r.errors == [SqlExecutionFailure, BackupPreviousFailure] ||
        r.errors == [SqlExecutionFailure, BackupPreviousFailure, BackupPreviousFailure]
    ensures var r := ApplyVersions(st, env, previousVersion, entries).1;
      r.success.None? || r == ExecutionResponse(Some(SqlExecutionSuccess), [])
    decreases |entries|
  {
    if entries != [] {
      var (key, m) := entries[0];
      var (st1, ok) := ExecuteSqlSpec(st, env, m.dbVersion, previousVersion);
      if !ok {
        RollbackOutcome(st1, env, previousVersion);
      } else {
        var (st2, backedUp) := BackUpSpec(st1, env, key);
        if !backedUp {
          RollbackOutcome(st2, env, key);
        } else {
          ApplyVersionsOutcome(st2.(servicesVersion := Some(key)), env, key, entries[1..]);
          assert forall k :: 1 <= k < |entries| ==> entries[k] == entries[1..][k - 1];
          if !forall k :: 0 <= k < |entries[1..]| ==> Applies(env, entries[1..][k]) {
            var k :| 0 <= k < |entries[1..]| && !Applies(env, entries[1..][k]);
            assert entries[k + 1] == entries[1..][k];
          }
        }
      }
    }
  }

  /**
   * When every version applies, SERVICES_VERSION_KEY names the last one and
   * the backup directory holds that version's backup only.
   */
  lemma {:induction false} ApplyVersionsFinalState(st: UpdateState, env: Environment, previousVersion: string,
                                                   entries: seq<(string, VersionMapping)>)
    requires entries != []
    requires forall k :: 0 <= k < |entries| ==> Applies(env, entries[k])
    ensures var st' := ApplyVersions(st, env, previousVersion, entries).0;
      var last := entries[|entries| - 1].0;
      st'.servicesVersion == Some(last) && st'.backupFolders == Some([BackupFolderName(last, env.stamp)])
    decreases |entries|
  {
    var (key, m) := entries[0];
    assert Applies(env, entries[0]);
    var st1 := ExecuteSqlSpec(st, env, m.dbVersion, previousVersion).0;
    var st2 := BackUpSpec(st1, env, key).0;
    if |entries| > 1 {
      assert forall k :: 0 <= k < |entries[1..]| ==> entries[1..][k] == entries[k + 1];
      ApplyVersionsFinalState(st2.(servicesVersion := Some(key)), env, key, entries[1..]);
      assert entries[1..][|entries[1..]| - 1] == entries[|entries| - 1];
    }
  }

  /** A version that applies hands the rest of the loop its backup and SERVICES_VERSION_KEY, and itself as the last applied one. */
  lemma ApplyVersionsFirstApplies(st: UpdateState, env: Environment, previousVersion: string,
                                  entry: (string, VersionMapping), rest: seq<(string, VersionMapping)>)
    requires Applies(env, entry)
    ensures var st1 := ExecuteSqlSpec(st, env, entry.1.dbVersion, previousVersion).0;
      ApplyVersions(st, env, previousVersion, [entry] + rest)
      == ApplyVersions(st1.(backupFolders := Some([BackupFolderName(entry.0, env.stamp)]), servicesVersion := Some(entry.0)),
                       env, entry.0, rest)
  {
    assert ([entry] + rest)[0] == entry && ([entry] + rest)[1..] == rest;
  }

  /** A version whose execution script fails ends the loop with a rollback to the last applied version. */
  lemma ApplyVersionsFirstFails(st: UpdateState, env: Environment, previousVersion: string,
                                entry: (string, VersionMapping), rest: seq<(string, VersionMapping)>)
    requires !ScriptOk(env, entry.1.dbVersion)
    ensures ApplyVersions(st, env, previousVersion, [entry] + rest)
      == FailAndRollback(ExecuteSqlSpec(st, env, entry.1.dbVersion, previousVersion).0, env, previousVersion)
  {
    assert ([entry] + rest)[0] == entry;
  }

  /**
   * A version that fails after the one before it applied rolls back to the
   * backup of that earlier version, the one just made.
   */
  lemma NextFailureRestoresLastBackup(st: UpdateState, env: Environment, previousVersion: string,
                                      applied: (string, VersionMapping), failing: (string, VersionMapping),
                                      rest: seq<(string, VersionMapping)>)
    requires Applies(env, applied) && !ScriptOk(env, failing.1.dbVersion)
    ensures ApplyVersions(st, env, previousVersion, [applied, failing] + rest).1.errors ==
      [SqlExecutionFailure] +
      (if env.restoreApp(BackupFolderName(applied.0, env.stamp)) then [BackupPreviousSuccess]
       else [BackupPreviousFailure, BackupPreviousFailure])
  {
    var folder := BackupFolderName(applied.0, env.stamp);
    var st1 := ExecuteSqlSpec(st, env, applied.1.dbVersion, previousVersion).0;
    var st2 := st1.(backupFolders := Some([folder]), servicesVersion := Some(applied.0));
    assert [applied, failing] + rest == [applied] + ([failing] + rest);
    ApplyVersionsFirstApplies(st, env, previousVersion, applied, [failing] + rest);
    ApplyVersionsFirstFails(st2, env, applied.0, failing, rest);
    var st3 := ExecuteSqlSpec(st2, env, failing.1.dbVersion, applied.0).0;
    ExecuteSqlFrame(st2, env, failing.1.dbVersion, applied.0);
    BackupFolderMatches(applied.0, env.stamp);
    assert FirstContaining(st3.backupFolders.value, applied.0) == Some(folder);
  }

  // ---------------------------------------------------------------------
  // getLatestVersionReleaseTimestamp
  // ---------------------------------------------------------------------

  /** A run of `w` digits is below `10^w`. */
  lemma {:induction false} DecimalValueBound(ds: string)
    requires AllDigits(ds)
    ensures DecimalValue(ds) < Pow10(|ds|)
    decreases |ds|
  {
    if ds != [] {
      DecimalValueBound(ds[..|ds| - 1]);
    }
  }

  /** A field of two or four digits reads as their decimal value. */
  lemma FieldOfDigits(s: string, from: nat, w: nat)
    requires w == 2 || w == 4
    requires from + w <= |s| && AllDigits(s[from..from + w])
    ensures Field(s, from, w).Ok? && Field(s, from, w).value as int == DecimalValue(s[from..from + w])
  {
    var ds := s[from..from + w];
    DecimalValueBound(ds);
    assert Pow10(2) == 100 && Pow10(4) == 10000;
    assert IsAsciiDigit(ds[0]);
  }

  /** The six fields read from their positions give the calendar fields, the month handed on zero-based. */
  lemma ReleaseTimestampOfFields(s: string, year: int32, month: int32, day: int32, hour: int32, minute: int32, second: int32)
    requires Field(s, 0, 4) == Ok(year) && Field(s, 4, 2) == Ok(month) && Field(s, 6, 2) == Ok(day)
    requires Field(s, 8, 2) == Ok(hour) && Field(s, 10, 2) == Ok(minute) && Field(s, 12, 2) == Ok(second)
    ensures ReleaseTimestamp(Some(s)) == Ok(CalendarFields(year, month as int - 1, day, hour, minute, second))
  {
  }

  /**
   * A release timestamp that starts with fourteen digits yyyyMMddHHmmss
   * gives those calendar fields, the month handed on zero-based; whatever
   * follows the fourteenth char is ignored.
   */
  lemma ReleaseTimestampOfDigits(s: string)
    requires |s| >= 14 && forall k :: 0 <= k < 14 ==> IsAsciiDigit(s[k])
    ensures var r := ReleaseTimestamp(Some(s));
      r.Ok? && r.value.year as int == DecimalValue(s[0..4]) && r.value.month == DecimalValue(s[4..6]) - 1 &&
      r.value.day as int == DecimalValue(s[6..8]) && r.value.hourOfDay as int == DecimalValue(s[8..10]) &&
      r.value.minute as int == DecimalValue(s[10..12]) && r.value.second as int == DecimalValue(s[12..14])
  {
    assert AllDigits(s[0..4]) && AllDigits(s[4..6]) && AllDigits(s[6..8]);
    assert AllDigits(s[8..10]) && AllDigits(s[10..12]) && AllDigits(s[12..14]);
    FieldOfDigits(s, 0, 4);
    FieldOfDigits(s, 4, 2);
    FieldOfDigits(s, 6, 2);
    FieldOfDigits(s, 8, 2);
    FieldOfDigits(s, 10, 2);
    FieldOfDigits(s, 12, 2);
    ReleaseTimestampOfFields(s, Field(s, 0, 4).value, Field(s, 4, 2).value, Field(s, 6, 2).value,
                             Field(s, 8, 2).value, Field(s, 10, 2).value, Field(s, 12, 2).value);
  }

  /** A timestamp shorter than fourteen chars never gives the fields; a missing one is a null dereference. */
  lemma ReleaseTimestampTooShort(stampText: Option<string>)
    requires stampText.None? || |stampText.value| < 14
    ensures ReleaseTimestamp(stampText).Err?
    ensures stampText.None? ==> ReleaseTimestamp(stampText) == Err(NullPointer)
  {
  }

  // ---------------------------------------------------------------------
  // Download timeouts
  // ---------------------------------------------------------------------

  /** With no timeouts configured, downloads connect within 50000 ms and read without limit. */
  lemma DefaultTimeouts()
    ensures Timeouts(None, None) == Ok((50000, 0))
  {
    assert PadDigits(50000, 5) == DEFAULT_CONNECTION_TIMEOUT;
    assert PadDigits(0, 1) == DEFAULT_READ_TIMEOUT;
    ParseIntOfPad(50000, 5);
    ParseIntOfPad(0, 1);
  }

  /** Trimming whitespace-only text leaves whitespace-only text. */
  lemma TrimOfBlank(s: string)
    requires IsBlank(s)
    ensures IsBlank(Trim(s))
  {
    var lo := LeadingCount(s);
    var hi := TrailingEnd(s, lo);
    var t := s[lo..hi];
    forall k | 0 <= k < |t| ensures IsJavaWhitespace(t[k]) {
      assert t[k] == s[lo + k];
    }
  }

  /** "null" text and whitespace-only text fall back to the default. */
  lemma UnsetTimeoutIsDefault(configured: string, default: string)
    requires configured == "null" || IsBlank(configured)
    ensures EffectiveTimeout(Some(configured), default) == default
  {
    if configured != "null" {
      TrimOfBlank(configured);
    }
  }

  /** Configured timeouts written as decimal digits are the ones used. */
  lemma ConfiguredTimeouts(c: nat, cw: nat, r: nat, rw: nat)
    requires 1 <= cw && c < Pow10(cw) && c <= INT32_MAX
    requires 1 <= rw && r < Pow10(rw) && r <= INT32_MAX
    ensures Timeouts(Some(PadDigits(c, cw)), Some(PadDigits(r, rw))) == Ok((c as int32, r as int32))
  {
    DigitsAreKept(c, cw, DEFAULT_CONNECTION_TIMEOUT);
    DigitsAreKept(r, rw, DEFAULT_READ_TIMEOUT);
    ParseIntOfPad(c, cw);
    ParseIntOfPad(r, rw);
  }

  /** A run of digits is neither "null" nor blank, so it is used as configured. */
  lemma DigitsAreKept(n: nat, w: nat, default: string)
    requires 1 <= w
    ensures EffectiveTimeout(Some(PadDigits(n, w)), default) == PadDigits(n, w)
  {
    var t := PadDigits(n, w);
    assert IsAsciiDigit(t[0]) && !Trimmable(t[0]) && !IsJavaWhitespace(t[0]);
    assert t[0] != "null"[0];
    var tr := Trim(t);
    assert tr != [];
    assert IsAsciiDigit(tr[0]) by {
      var lo := LeadingCount(t);
      assert tr == t[lo..TrailingEnd(t, lo)];
      assert tr[0] == t[lo];
    }
  }

  // ---------------------------------------------------------------------
  // checkJars and deleteJars
  // ---------------------------------------------------------------------

  /** Jars whose name contains "mosip" anywhere are looked for in `bin/`, all others in `lib/`. */
  lemma JarFolderRule(jarName: string)
    ensures JarFolder(jarName) == BIN_FOLDER <==> exists i :: OccursAt(jarName, "mosip", i)
    ensures JarFolder(jarName) == BIN_FOLDER || JarFolder(jarName) == LIB_FOLDER
  {
    ContainsAt(jarName, "mosip");
  }

  /**
   * With usable timeouts, a jar loop that ends without an exception made
   * exactly one download per jar that needed one, each from the version's
   * `lib/` URL into the jar's folder.
   */
  lemma {:induction false} CheckJarLoopRequests(je: JarEnvironment, version: string, jars: seq<string>, from: nat,
                                                t: (int32, int32))
    requires from <= |jars|
    requires CheckJarLoop(je, version, jars, from, Ok(t)).1.None?
    ensures forall r :: r in CheckJarLoop(je, version, jars, from, Ok(t)).0 <==>
      exists j :: from <= j < |jars| && NeedsDownload(je, jars[j]) && r == JarRequest(je, version, jars[j], t)
    decreases |jars| - from
  {
    if from < |jars| {
      var step := JarStep(je, version, jars[from], Ok(t));
      assert step.0 == if NeedsDownload(je, jars[from]) then [JarRequest(je, version, jars[from], t)] else [];
      var rest := CheckJarLoop(je, version, jars, from + 1, Ok(t));
      assert CheckJarLoop(je, version, jars, from, Ok(t)).0 == step.0 + rest.0;
      CheckJarLoopRequests(je, version, jars, from + 1, t);
      forall r ensures r in step.0 + rest.0 <==>
        exists j :: from <= j < |jars| && NeedsDownload(je, jars[j]) && r == JarRequest(je, version, jars[j], t)
      {
        if r in step.0 {
          assert NeedsDownload(je, jars[from]) && r == JarRequest(je, version, jars[from], t);
        }
        if exists j :: from <= j < |jars| && NeedsDownload(je, jars[j]) && r == JarRequest(je, version, jars[j], t) {
          var j :| from <= j < |jars| && NeedsDownload(je, jars[j]) && r == JarRequest(je, version, jars[j], t);
          if j == from {
            assert r in step.0;
          } else {
            assert r in rest.0;
          }
        }
      }
    }
  }

  /** The timeouts of `download` fail to parse only with a NumberFormatException. */
  lemma TimeoutsFailure(connectionTimeout: Option<string>, readTimeout: Option<string>)
    requires Timeouts(connectionTimeout, readTimeout).Err?
    ensures Timeouts(connectionTimeout, readTimeout).error == NumberFormat
  {
  }

  /**
   * With timeouts that do not parse, nothing is downloaded, and the loop
   * ends in the parse exception exactly when some jar needed a download.
   */
  lemma {:induction false} CheckJarLoopBadTimeouts(je: JarEnvironment, version: string, jars: seq<string>, from: nat,
                                                   e: JavaException)
    requires from <= |jars|
    ensures CheckJarLoop(je, version, jars, from, Err(e)).0 == []
    ensures CheckJarLoop(je, version, jars, from, Err(e)).1
            == if exists j :: from <= j < |jars| && NeedsDownload(je, jars[j]) then Some(e) else None
    decreases |jars| - from
  {
    if from < |jars| {
      CheckJarLoopBadTimeouts(je, version, jars, from + 1, e);
      var none: seq<DownloadRequest> := [];
      assert none + none == none;
      if !NeedsDownload(je, jars[from]) && exists j :: from <= j < |jars| && NeedsDownload(je, jars[j]) {
        var j :| from <= j < |jars| && NeedsDownload(je, jars[j]);
        assert j != from;
      }
    }
  }

  /**
   * Every file the jar loop writes is one of the listed jars, in that jar's
   * own folder: `bin/` or `lib/` followed by the separator and the name.
   */
  lemma {:induction false} CheckJarLoopTargets(je: JarEnvironment, version: string, jars: seq<string>, from: nat,
                                               timeouts: Result<(int32, int32), JavaException>)
    requires from <= |jars|
    ensures forall r :: r in CheckJarLoop(je, version, jars, from, timeouts).0 ==>
      exists j :: from <= j < |jars| && r.target == JarFolder(jars[j]) + je.separator + jars[j]
    ensures forall r :: r in CheckJarLoop(je, version, jars, from, timeouts).0 ==>
      |r.target| >= 4 && (r.target[..4] == BIN_FOLDER || r.target[..4] == LIB_FOLDER)
    decreases |jars| - from
  {
    if from < |jars| {
      CheckJarLoopTargets(je, version, jars, from + 1, timeouts);
      JarFolderRule(jars[from]);
      var step := JarStep(je, version, jars[from], timeouts).0;
      forall r | r in step
        ensures r.target == JarFolder(jars[from]) + je.separator + jars[from]
        ensures |r.target| >= 4 && (r.target[..4] == BIN_FOLDER || r.target[..4] == LIB_FOLDER)
      {
        assert r.target == JarFolder(jars[from]) + je.separator + jars[from];
        assert r.target[..4] == JarFolder(jars[from]);
      }
    }
  }

  /** `checkJars` fetches the upgrade batch file exactly when no jar failed and the version starts with "1.2.0". */
  lemma CheckJarsFetchesBat(je: JarEnvironment, version: string, jars: seq<string>,
                            connectionTimeout: Option<string>, readTimeout: Option<string>)
    ensures BatRequest(je, version) in CheckJarsSpec(je, version, jars, connectionTimeout, readTimeout).0 <==>
      CheckJarLoop(je, version, jars, 0, Timeouts(connectionTimeout, readTimeout)).1.None? && StartsWith(version, "1.2.0")
  {
    CheckJarLoopTargets(je, version, jars, 0, Timeouts(connectionTimeout, readTimeout));
    assert BatRequest(je, version).target[..4] == "run_";
  }

  /** Every path `deleteJars` deletes is the path of one of the jars and existed. */
  lemma {:induction false} DeleteJarsOnlyExisting(je: JarEnvironment, jars: seq<string>)
    ensures forall p :: p in DeleteJarsSpec(je, jars).0 ==>
      je.fileExists(p) && exists j :: 0 <= j < |jars| && p == JarPath(jars[j])
    decreases |jars|
  {
    if jars != [] {
      DeleteJarsOnlyExisting(je, jars[1..]);
      assert forall j :: 0 <= j < |jars[1..]| ==> jars[1..][j] == jars[j + 1];
    }
  }

  /** A `deleteJars` that ends without an exception deleted the path of every jar that existed. */
  lemma {:induction false} DeleteJarsAllExisting(je: JarEnvironment, jars: seq<string>)
    requires DeleteJarsSpec(je, jars).1.None?
    ensures forall j :: 0 <= j < |jars| && je.fileExists(JarPath(jars[j])) ==> JarPath(jars[j]) in DeleteJarsSpec(je, jars).0
    decreases |jars|
  {
    if jars != [] {
      DeleteJarsAllExisting(je, jars[1..]);
      assert forall j :: 1 <= j < |jars| ==> jars[j] == jars[1..][j - 1];
    }
  }

  // ---------------------------------------------------------------------
  // hasUpdate
  // ---------------------------------------------------------------------

  /**
   * `hasUpdate` against where its two versions come from: no local manifest
   * (and no version held), a server file that cannot be read, and a server
   * version equal to the local one each answer false; a server version
   * that differs from the local manifest's, a null one included, answers true.
   */
  lemma HasUpdateOfSources(local: LocalManifest, held: Option<string>, latest: Result<Option<string>, JavaException>)
    ensures !local.ManifestRead? && held.None? ==> !HasUpdate(CurrentVersion(local, held), latest)
    ensures local.ManifestRead? && local.version.None? ==> !HasUpdate(CurrentVersion(local, held), latest)
    ensures latest.Err? ==> !HasUpdate(CurrentVersion(local, held), latest)
    ensures local.ManifestRead? && latest == Ok(local.version) ==> !HasUpdate(CurrentVersion(local, held), latest)
    ensures local.ManifestRead? && local.version.Some? && latest.Ok? && latest.value != local.version
            ==> HasUpdate(CurrentVersion(local, held), latest)
    ensures !local.ManifestRead? && held.Some? && latest.Ok? && latest.value != held
            ==> HasUpdate(CurrentVersion(local, held), latest)
  {
  }
}
