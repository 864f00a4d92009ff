/** PushDBToDrive of nexus-daemon/sync.go: the decision whether to push, the two-step upload with
    its retries, and when writing over a manifest raises its rank. */
module SyncPush {
  import opened Bytes
  import opened Sync
  import B = CircuitBreaker

  // ------------------------------------------------------------------ the decision

  /** Manifests are compared by row count, then by the time of the last change. */
  datatype Rank = Rank(total: int, date: int)

  predicate Higher(a: Rank, b: Rank) {
    a.total > b.total || (a.total == b.total && a.date > b.date)
  }

  function RankOf(sql: Sqlite, m: Manifest): Rank {
    Rank(Count(m.stats, "files") + Count(m.stats, "folders") + Count(m.stats, "tasks"), DateOf(sql, m.lastModified))
  }

  /** An absent or unreadable date is the epoch. */
  function DateOf(sql: Sqlite, text: string): int {
    if text == "" then 0
    else match sql.parseDate(text)
      case Some(t) => t
      case None => 0
  }

  datatype Verdict = InSync | Push | PullRequired | Conflict

  function Decision(sql: Sqlite, local: Manifest, remote: Manifest): Verdict {
    var mine, theirs := RankOf(sql, local), RankOf(sql, remote);
    if mine.total == theirs.total && local.logicalHash == remote.logicalHash then InSync
    else if Higher(mine, theirs) then Push
    else if Higher(theirs, mine) then PullRequired
    else Conflict
  }

  method Decide(sql: Sqlite, local: Manifest, remote: Manifest) returns (d: Verdict)
    ensures d == Decision(sql, local, remote)
  {
    var localTotal := Count(local.stats, "files") + Count(local.stats, "folders") + Count(local.stats, "tasks");
    var remoteTotal := Count(remote.stats, "files") + Count(remote.stats, "folders") + Count(remote.stats, "tasks");
    if localTotal == remoteTotal && local.logicalHash == remote.logicalHash {
      return InSync;
    }
    if localTotal > remoteTotal {
      return Push;
    } else if remoteTotal > localTotal {
      return PullRequired;
    }
    var localDate, remoteDate := 0, 0;
    if local.lastModified != "" {
      var d := sql.parseDate(local.lastModified);
      if d.Some? { localDate := d.value; }
    }
    if remote.lastModified != "" {
      var d := sql.parseDate(remote.lastModified);
      if d.Some? { remoteDate := d.value; }
    }
    if localDate > remoteDate {
      return Push;
    } else if remoteDate > localDate {
      return PullRequired;
    }
    d := Conflict;
  }

  /** Two devices that look at each other's manifests never both push: one side pushes exactly when
      the other is told to pull, and they agree on being in sync and on a conflict. */
  lemma DecisionsAreDual(sql: Sqlite, a: Manifest, b: Manifest)
    ensures Decision(sql, a, b) == Push <==> Decision(sql, b, a) == PullRequired
    ensures Decision(sql, a, b) == InSync <==> Decision(sql, b, a) == InSync
    ensures Decision(sql, a, b) == Conflict <==> Decision(sql, b, a) == Conflict
    ensures Decision(sql, a, a) == InSync
  {
  }

  /** All files, folders and tasks a manifest counts. */
  function Rows(m: Manifest): int {
    Count(m.stats, "files") + Count(m.stats, "folders") + Count(m.stats, "tasks")
  }

  /** Dates that can be read are compared as they are; all others count as the epoch. */
  lemma DatesRead(sql: Sqlite, text: string)
    ensures forall t: int :: text != "" && sql.parseDate(text) == Some(t) ==> DateOf(sql, text) == t
    ensures text == "" || sql.parseDate(text).None? ==> DateOf(sql, text) == 0
  {
  }

  /** More rows decide, and then the later change; but nothing does between equal contents. */
  predicate Supersedes(sql: Sqlite, a: Manifest, b: Manifest) {
    || Rows(a) > Rows(b)
    || (Rows(a) == Rows(b) && a.logicalHash != b.logicalHash && DateOf(sql, a.lastModified) > DateOf(sql, b.lastModified))
  }

  /** A device pushes exactly if its rows supersede the remote ones, has to pull exactly if they are
      superseded, is in sync exactly for equal counts and hashes, and meets a conflict exactly for
      different contents with equal counts and dates. */
  lemma DecisionExactly(sql: Sqlite, a: Manifest, b: Manifest)
    ensures Decision(sql, a, b) == Push <==> Supersedes(sql, a, b)
    ensures Decision(sql, a, b) == PullRequired <==> Supersedes(sql, b, a)
    ensures Decision(sql, a, b) == InSync <==> Rows(a) == Rows(b) && a.logicalHash == b.logicalHash
    ensures Decision(sql, a, b) == Conflict <==>
      && Rows(a) == Rows(b) && a.logicalHash != b.logicalHash
      && DateOf(sql, a.lastModified) == DateOf(sql, b.lastModified)
  {
  }

  // ------------------------------------------------------------------ the upload

  /** A write may fail, take effect although the caller sees an error, or succeed. */
  datatype Write = Fails | LandsUnreported | Lands

  datatype UploadAttempt = UploadAttempt(db: Write, manifest: Write)

  /** One attempt writes the database and only after that the manifest. */
  function AfterAttempt(r: Remote, file: Content, m: Manifest, a: UploadAttempt): Remote {
    var written := if a.db.Fails? then r.db else Some(file);
    Remote(written, if a.db.Lands? && !a.manifest.Fails? then Some(m) else r.manifest)
  }

  predicate Succeeds(a: UploadAttempt) {
    a.db.Lands? && a.manifest.Lands?
  }

  /** Attempts up to the first that succeeds. */
  function AfterAttempts(r: Remote, file: Content, m: Manifest, attempts: seq<UploadAttempt>): Remote
    decreases attempts
  {
    if attempts == [] then r
    else if Succeeds(attempts[0]) then AfterAttempt(r, file, m, attempts[0])
    else AfterAttempts(AfterAttempt(r, file, m, attempts[0]), file, m, attempts[1..])
  }

  predicate Uploaded(attempts: seq<UploadAttempt>) {
    exists i :: 0 <= i < |attempts| && Succeeds(attempts[i])
  }

  /** Some attempt that is made gets as far as changing the manifest. */
  predicate ManifestWritten(attempts: seq<UploadAttempt>) {
    attempts != [] && ((attempts[0].db.Lands? && !attempts[0].manifest.Fails?) || ManifestWritten(attempts[1..]))
  }

  /** At every crash point the manifest is new only if the database is, and an upload that reports
      success has written both. */
  lemma {:induction false} ManifestFollowsDatabase(r: Remote, file: Content, m: Manifest, attempts: seq<UploadAttempt>)
    ensures var after := AfterAttempts(r, file, m, attempts);
      && (Uploaded(attempts) ==> after == Remote(Some(file), Some(m)))
      && (ManifestWritten(attempts) ==> after == Remote(Some(file), Some(m)))
      && (!ManifestWritten(attempts) ==> after.manifest == r.manifest && (after.db == r.db || after.db == Some(file)))
    decreases attempts
  {
    if attempts != [] {
      var next := AfterAttempt(r, file, m, attempts[0]);
      if Succeeds(attempts[0]) {
        assert next == Remote(Some(file), Some(m));
      } else {
        ManifestFollowsDatabase(next, file, m, attempts[1..]);
        NewStaysNew(file, m, attempts[1..]);
        assert Uploaded(attempts) ==> Uploaded(attempts[1..]) by {
          if i :| 0 <= i < |attempts| && Succeeds(attempts[i]) {
            assert attempts[1..][i - 1] == attempts[i];
          }
        }
      }
    }
  }

  lemma {:induction false} NewStaysNew(file: Content, m: Manifest, attempts: seq<UploadAttempt>)
    ensures AfterAttempts(Remote(Some(file), Some(m)), file, m, attempts) == Remote(Some(file), Some(m))
    decreases attempts
  {
    if attempts != [] {
      NewStaysNew(file, m, attempts[1..]);
    }
  }

  const MAX_ATTEMPTS: nat := 3

  class Drive {
    var db: Option<Content>
    var manifest: Option<Manifest>

    ghost function State(): Remote reads this {
      Remote(db, manifest)
    }

    method UploadDBFileToDrive(file: Content, m: Manifest, a: UploadAttempt) returns (ok: bool)
      modifies this
      ensures State() == AfterAttempt(old(State()), file, m, a)
      ensures db == if a.db == Fails then old(db) else Some(file)
      ensures manifest == if a.db == Lands && a.manifest != Fails then Some(m) else old(manifest)
      ensures ok == Succeeds(a) == (a.db == Lands && a.manifest == Lands)
    {
      if !a.db.Fails? {
        db := Some(file);
      }
      if !a.db.Lands? {
        return false;
      }
      if !a.manifest.Fails? {
        manifest := Some(m);
      }
      ok := a.manifest.Lands?;
    }

    /** retryWithBackoff around the upload. Fewer than three attempts without a success are a
        process that died. */
    method RetryUpload(file: Content, m: Manifest, attempts: seq<UploadAttempt>) returns (ok: bool)
      requires |attempts| <= MAX_ATTEMPTS
      modifies this
      ensures State() == AfterAttempts(old(State()), file, m, attempts)
      ensures ok == Uploaded(attempts)
    {
      var attempt := 0;
      while attempt < |attempts|
        invariant attempt <= |attempts|
        invariant AfterAttempts(old(State()), file, m, attempts) == AfterAttempts(State(), file, m, attempts[attempt..])
        invariant forall i :: 0 <= i < attempt ==> !Succeeds(attempts[i])
      {
        var done := UploadDBFileToDrive(file, m, attempts[attempt]);
        if done {
          return true;
        }
        assert attempts[attempt..][1..] == attempts[attempt + 1..];
        attempt := attempt + 1;
      }
      ok := false;
    }
  }

  // ------------------------------------------------------------------ one push

  /** What the outside world answers during one push. `snapshot` is the file made by VACUUM INTO,
      `downloaded` the file read back for verification. */
  datatype PushEnv = PushEnv(
    start: int, end: int,
    failedSyncs: bool, intact: bool, checkpointed: bool, manifestRead: bool,
    snapshot: Option<Content>, attempts: seq<UploadAttempt>, downloaded: Option<Content>, statusWritten: bool)

  datatype PushError =
    | PendingSyncFailed | IntegrityFailed | CheckpointFailed | EmptyDatabase | PullFirst | ConflictDetected
    | SnapshotFailed | UploadFailed | VerificationFailed | StatusNotUpdated

  datatype PushResult = UpToDate | Pushed | Refused | Failed(error: PushError)

  /** The remote manifest as the push sees it: a read that fails counts as no manifest. */
  function Seen(remote: Remote, env: PushEnv): Option<Manifest> {
    if env.manifestRead then remote.manifest else None
  }

  /** The push gets as far as uploading. */
  predicate Uploads(sql: Sqlite, local: Content, remote: Remote, env: PushEnv) {
    && !env.failedSyncs && env.intact && env.checkpointed && sql.lsn(local) != 0 && env.snapshot.Some?
    && (Seen(remote, env).Some? ==> Decision(sql, ManifestOf(sql, local), Seen(remote, env).value) == Push)
  }

  /** What the push leaves on the drive. */
  function AfterPush(sql: Sqlite, local: Content, remote: Remote, env: PushEnv): Remote {
    if Uploads(sql, local, remote, env)
    then AfterAttempts(remote, env.snapshot.value, ManifestOf(sql, local), env.attempts)
    else remote
  }

  /** The file read back is the snapshot, byte for byte and row for row. */
  predicate Verifies(sql: Sqlite, local: Content, env: PushEnv) {
    && env.downloaded.Some? && env.snapshot.Some?
    && sql.sha(env.downloaded.value) == sql.sha(env.snapshot.value)
    && sql.open(env.downloaded.value).Some?
    && sql.hash(sql.open(env.downloaded.value).value) == Some(LogicalHash(sql, local))
  }

  /** What the caller is told. */
  function Report(sql: Sqlite, local: Content, remote: Remote, env: PushEnv): PushResult {
    if env.failedSyncs then Failed(PendingSyncFailed)
    else if !env.intact then Failed(IntegrityFailed)
    else if !env.checkpointed then Failed(CheckpointFailed)
    else if sql.lsn(local) == 0 then Failed(EmptyDatabase)
    else if Seen(remote, env).Some? && Decision(sql, ManifestOf(sql, local), Seen(remote, env).value) != Push then
      match Decision(sql, ManifestOf(sql, local), Seen(remote, env).value)
      case InSync => UpToDate
      case Conflict => Failed(ConflictDetected)
      case _ => Failed(PullFirst)
    else if env.snapshot.None? then Failed(SnapshotFailed)
    else if !Uploaded(env.attempts) then Failed(UploadFailed)
    else if !Verifies(sql, local, env) then Failed(VerificationFailed)
    else if !env.statusWritten then Failed(StatusNotUpdated)
    else Pushed
  }

  /** The database may be pushed, as far as the device itself is concerned. */
  predicate Healthy(sql: Sqlite, local: Content, env: PushEnv) {
    !env.failedSyncs && env.intact && env.checkpointed && sql.lsn(local) != 0
  }

  /** Whatever is on the drive, a push reports success exactly if the device is healthy, its rows
      supersede the manifest it read (if it read one), there is a snapshot, one attempt succeeded,
      the file read back has the checksum of the snapshot and, opened, the hash of the database, and
      the push status could be saved. */
  lemma PushedExactly(sql: Sqlite, local: Content, remote: Remote, env: PushEnv)
    ensures Report(sql, local, remote, env).Pushed? <==>
      && Healthy(sql, local, env)
      && (env.manifestRead && remote.manifest.Some? ==> Supersedes(sql, ManifestOf(sql, local), remote.manifest.value))
      && env.snapshot.Some?
      && (exists i :: 0 <= i < |env.attempts| && env.attempts[i] == UploadAttempt(Lands, Lands))
      && env.downloaded.Some?
      && sql.sha(env.downloaded.value) == sql.sha(env.snapshot.value)
      && sql.open(env.downloaded.value).Some?
      && sql.hash(sql.open(env.downloaded.value).value)
         == Some(if sql.hash(local).Some? then sql.hash(local).value else "")
      && env.statusWritten
  {
    if remote.manifest.Some? {
      DecisionExactly(sql, ManifestOf(sql, local), remote.manifest.value);
    }
    hide Supersedes, Decision;
    forall i | 0 <= i < |env.attempts| ensures Succeeds(env.attempts[i]) <==> env.attempts[i] == UploadAttempt(Lands, Lands) {
    }
  }

  /** Each refusal before the upload is reported exactly in its case. */
  lemma RefusedExactly(sql: Sqlite, local: Content, remote: Remote, env: PushEnv)
    ensures Report(sql, local, remote, env) == Failed(PendingSyncFailed) <==> env.failedSyncs
    ensures Report(sql, local, remote, env) == Failed(IntegrityFailed) <==> !env.failedSyncs && !env.intact
    ensures Report(sql, local, remote, env) == Failed(CheckpointFailed) <==>
      !env.failedSyncs && env.intact && !env.checkpointed
    ensures Report(sql, local, remote, env) == Failed(EmptyDatabase) <==>
      !env.failedSyncs && env.intact && env.checkpointed && sql.lsn(local) == 0
    ensures var read := Healthy(sql, local, env) && env.manifestRead && remote.manifest.Some?;
      var mine := ManifestOf(sql, local);
      && (Report(sql, local, remote, env).UpToDate? <==>
            && read && Rows(mine) == Rows(remote.manifest.value)
            && mine.logicalHash == remote.manifest.value.logicalHash)
      && (Report(sql, local, remote, env) == Failed(PullFirst) <==> read && Supersedes(sql, remote.manifest.value, mine))
      && (Report(sql, local, remote, env) == Failed(ConflictDetected) <==>
            && read && Rows(mine) == Rows(remote.manifest.value)
            && mine.logicalHash != remote.manifest.value.logicalHash
            && DateOf(sql, mine.lastModified) == DateOf(sql, remote.manifest.value.lastModified))
  {
    if remote.manifest.Some? {
      DecisionExactly(sql, ManifestOf(sql, local), remote.manifest.value);
    }
    hide Supersedes, Decision;
  }

  /** A healthy device with a snapshot and an attempt that succeeds leaves its database and its
      manifest on the drive exactly if they supersede the manifest it read, or it read none; otherwise
      it leaves the drive as it was. */
  lemma PushLands(sql: Sqlite, local: Content, remote: Remote, env: PushEnv)
    requires Healthy(sql, local, env) && env.snapshot.Some? && Uploaded(env.attempts)
    ensures AfterPush(sql, local, remote, env)
         == if env.manifestRead && remote.manifest.Some? && !Supersedes(sql, ManifestOf(sql, local), remote.manifest.value)
            then remote
            else Remote(env.snapshot, Some(ManifestOf(sql, local)))
  {
    if remote.manifest.Some? {
      DecisionExactly(sql, ManifestOf(sql, local), remote.manifest.value);
    }
    ManifestFollowsDatabase(remote, env.snapshot.value, ManifestOf(sql, local), env.attempts);
  }

  class SyncManager {
    const sql: Sqlite
    const drive: Drive
    const breaker: B.PushBreaker
    var local: Content

    constructor (sql: Sqlite, drive: Drive, breaker: B.PushBreaker, local: Content)
      ensures this.sql == sql && this.drive == drive && this.breaker == breaker && this.local == local
    {
      this.sql, this.drive, this.breaker, this.local := sql, drive, breaker, local;
    }

    /** A refused push changes nothing. Any other changes the drive as AfterPush says and is
        counted by the circuit breaker; it reports success only for a manifest that was in sync or
        for an upload of both files that was read back unchanged. */
    method PushDBToDrive(env: PushEnv) returns (result: PushResult)
      requires |env.attempts| <= MAX_ATTEMPTS
      modifies drive, breaker
      ensures result == if B.Suspended(old(breaker.State()), env.start) then Refused
                        else Report(sql, local, old(drive.State()), env)
      ensures drive.State() == if result.Refused? then old(drive.State()) else AfterPush(sql, local, old(drive.State()), env)
      ensures breaker.State()
           == B.Step(old(breaker.State()), B.Attempt(env.start, env.end, result.UpToDate? || result.Pushed?))
      ensures result.Refused? <==>
        old(breaker.suspendedUntil).Some? && env.start < old(breaker.suspendedUntil).value * 1_000_000_000
      ensures result.UpToDate? || result.Pushed? ==> breaker.failCount == 0 && breaker.suspendedUntil == None
      ensures result.Failed? ==>
        && breaker.failCount == old(breaker.failCount) + 1
        && breaker.suspendedUntil == if breaker.failCount >= 3 then Some(env.end / 1_000_000_000 + 900) else None
      ensures result.Pushed? ==>
        && drive.db == env.snapshot && drive.manifest.Some?
        && drive.manifest.value.lsn == sql.lsn(local)
        && drive.manifest.value.logicalHash == (if sql.hash(local).Some? then sql.hash(local).value else "")
        && drive.manifest.value.stats == sql.stats(local)
        && drive.manifest.value.lastModified == sql.lastModified(local)
        && !drive.manifest.value.encrypted
        && env.downloaded.Some?
        && sql.sha(env.downloaded.value) == sql.sha(env.snapshot.value)
        && sql.open(env.downloaded.value).Some?
        && sql.hash(sql.open(env.downloaded.value).value) == Some(drive.manifest.value.logicalHash)
      ensures result.UpToDate? ==>
        && old(drive.manifest).Some?
        && Rows(ManifestOf(sql, local)) == Rows(old(drive.manifest).value)
        && LogicalHash(sql, local) == old(drive.manifest).value.logicalHash
    {
      var suspended := breaker.IsPushSuspended(env.start);
      if suspended {
        return Refused;
      }
      result := PushAdmitted(env);
      if result.Failed? {
        breaker.RecordPushFailure(env.end);
      } else {
        breaker.ResetPushFailures();
      }
    }

    method PushAdmitted(env: PushEnv) returns (result: PushResult)
      requires |env.attempts| <= MAX_ATTEMPTS
      modifies drive
      ensures result == Report(sql, local, old(drive.State()), env)
      ensures drive.State() == AfterPush(sql, local, old(drive.State()), env)
      ensures result.Pushed? ==>
        && drive.State() == Remote(env.snapshot, Some(ManifestOf(sql, local)))
        && Verifies(sql, local, env)
      ensures result.UpToDate? ==>
        && old(drive.manifest).Some?
        && Decision(sql, ManifestOf(sql, local), old(drive.manifest).value) == InSync
    {
      if env.failedSyncs {
        return Failed(PendingSyncFailed);
      }
      if !env.intact {
        return Failed(IntegrityFailed);
      }
      if !env.checkpointed {
        return Failed(CheckpointFailed);
      }
      if sql.lsn(local) == 0 {
        return Failed(EmptyDatabase);
      }
      var remoteManifest: Option<Manifest> := None;
      if env.manifestRead {
        remoteManifest := drive.manifest;
      }
      var m := ManifestOf(sql, local);
      if remoteManifest.Some? {
        var d := Decide(sql, m, remoteManifest.value);
        match d {
          case InSync => return UpToDate;
          case PullRequired => return Failed(PullFirst);
          case Conflict => return Failed(ConflictDetected);
          case Push =>
        }
      }
      if env.snapshot.None? {
        return Failed(SnapshotFailed);
      }
      var ok := drive.RetryUpload(env.snapshot.value, m, env.attempts);
      ManifestFollowsDatabase(old(drive.State()), env.snapshot.value, m, env.attempts);
      if !ok {
        return Failed(UploadFailed);
      }
      if env.downloaded.None? || sql.sha(env.downloaded.value) != sql.sha(env.snapshot.value) {
        return Failed(VerificationFailed);
      }
      var copy := sql.open(env.downloaded.value);
      if copy.None? || sql.hash(copy.value) != Some(m.logicalHash) {
        return Failed(VerificationFailed);
      }
      if !env.statusWritten {
        return Failed(StatusNotUpdated);
      }
      result := Pushed;
    }
  }

  // ------------------------------------------------------------------ one push writes over a manifest

  /** The push writes its manifest, whether or not the caller learns of it. */
  predicate Writes(sql: Sqlite, local: Content, remote: Remote, env: PushEnv) {
    Uploads(sql, local, remote, env) && ManifestWritten(env.attempts)
  }

  /** What a push that writes leaves behind. */
  lemma WritesBoth(sql: Sqlite, local: Content, remote: Remote, env: PushEnv)
    requires Writes(sql, local, remote, env)
    ensures AfterPush(sql, local, remote, env) == Remote(env.snapshot, Some(ManifestOf(sql, local)))
  {
    ManifestFollowsDatabase(remote, env.snapshot.value, ManifestOf(sql, local), env.attempts);
  }

  /** A push that writes over the manifest it has read raises the remote rank strictly. */
  lemma ReadPushRaises(sql: Sqlite, local: Content, remote: Remote, env: PushEnv)
    requires env.manifestRead && remote.manifest.Some? && Writes(sql, local, remote, env)
    ensures var after := AfterPush(sql, local, remote, env).manifest;
      && after == Some(ManifestOf(sql, local))
      && Higher(RankOf(sql, after.value), RankOf(sql, remote.manifest.value))
  {
    WritesBoth(sql, local, remote, env);
  }

  /** Nothing but the decision stands between this push and a new manifest. */
  predicate ReadyToWrite(env: PushEnv) {
    !env.failedSyncs && env.intact && env.checkpointed && env.snapshot.Some? && ManifestWritten(env.attempts)
  }

  ghost predicate Raises(sql: Sqlite, local: Content, remote: Remote, env: PushEnv) {
    var after := AfterPush(sql, local, remote, env).manifest;
    remote.manifest.Some? && Writes(sql, local, remote, env) ==>
      after.Some? && Higher(RankOf(sql, after.value), RankOf(sql, remote.manifest.value))
  }

  /** Writing over a manifest raises the remote rank for every device and every remote if and only
      if the manifest was read. If it was not, a device writes its manifest even over an equal one. */
  lemma OverwriteRaises(sql: Sqlite, some: Content, env: PushEnv)
    requires ReadyToWrite(env) && sql.lsn(some) != 0
    ensures (forall local: Content, remote: Remote :: Raises(sql, local, remote, env)) <==> env.manifestRead
  {
    if env.manifestRead {
      forall local: Content, remote: Remote ensures Raises(sql, local, remote, env) {
        if remote.manifest.Some? && Writes(sql, local, remote, env) {
          ReadPushRaises(sql, local, remote, env);
        }
      }
    } else {
      var remote := Remote(None, Some(ManifestOf(sql, some)));
      WritesBoth(sql, some, remote, env);
      assert !Raises(sql, some, remote, env);
    }
  }

  /** With a manifest that cannot be read, every device with rows replaces every remote, however
      much higher that one ranks. */
  lemma UnreadManifestIsOverwritten(sql: Sqlite, local: Content, remote: Remote, env: PushEnv)
    requires ReadyToWrite(env) && !env.manifestRead && sql.lsn(local) != 0
    ensures AfterPush(sql, local, remote, env) == Remote(env.snapshot, Some(ManifestOf(sql, local)))
  {
    WritesBoth(sql, local, remote, env);
  }
}
