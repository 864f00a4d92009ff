/** PullDBFromDrive of nexus-daemon/sync.go: download, verification, replacement of the local
    database, and the rollback when the new one does not open. */
module SyncPull {
  import opened Bytes
  import opened Sync
  import P = SyncPush

  /** copyFile may stop half way, or fail before it creates the destination. */
  datatype Copy = Copied | Partial(content: Content) | NotCreated

  datatype Download = Complete(content: Content) | Broken(leftover: Option<Content>)

  /** What the outside world answers during one pull. */
  datatype PullEnv = PullEnv(
    manifestRead: bool,
    backupCopy: Copy,
    download: Download,
    keyValid: bool,
    decrypt: Content -> Option<Content>,
    shadowFiles: bool,
    replaceWorks: bool,
    reopens: bool,
    removeWorks: bool,
    restoreWorks: bool,
    restoredReopens: bool)

  datatype PullError =
    | ManifestUnreadable | NoRemoteBackup | RemoteEmpty | DownloadFailed | KeyInvalid | DecryptFailed
    | NotADatabase | HashFailed | HashMismatch | IntegrityFailed | ReplaceFailed
    | RestoreFailed | RestoredInvalid | RolledBack | NothingToRestore

  datatype PullResult = Skipped | Installed | Failed(error: PullError)

  /** A database that is not there has LSN 0. */
  function LocalLsn(sql: Sqlite, local: Option<Content>): int {
    if local.Some? then sql.lsn(local.value) else 0
  }

  // ------------------------------------------------------------------ when a download is installed

  /** The pull gets as far as downloading. */
  predicate Wanted(sql: Sqlite, local: Option<Content>, force: bool, manifest: Option<Manifest>, env: PullEnv) {
    && env.manifestRead && manifest.Some?
    && (force || manifest.value.lsn > LocalLsn(sql, local))
    && (Count(manifest.value.stats, "files") != 0 || Count(manifest.value.stats, "folders") != 0)
  }

  /** The download opens, is intact, and has the manifest's hash; a device with LSN 0 does without
      the last. */
  predicate Checked(sql: Sqlite, local: Option<Content>, m: Manifest, d: Content, env: PullEnv) {
    && sql.hash(d).Some?
    && (sql.hash(d).value == m.logicalHash || LocalLsn(sql, local) == 0)
    && !env.shadowFiles && sql.intact(d)
  }

  /** The download takes the place of the local database. */
  predicate Replaces(sql: Sqlite, local: Option<Content>, force: bool, manifest: Option<Manifest>, env: PullEnv) {
    && Wanted(sql, local, force, manifest, env)
    && !manifest.value.encrypted
    && env.download.Complete? && sql.open(env.download.content).Some?
    && Checked(sql, local, manifest.value, sql.open(env.download.content).value, env)
    && env.replaceWorks
  }

  predicate Reopens(sql: Sqlite, d: Content, works: bool) {
    works && sql.open(d).Some?
  }

  function BackupOf(local: Option<Content>, stale: Option<Content>, env: PullEnv): Option<Content> {
    if local.None? then stale
    else match env.backupCopy
      case Copied => local
      case Partial(content) => Some(content)
      case NotCreated => stale
  }

  /** The local database after the pull. */
  function LocalAfter(sql: Sqlite, local: Option<Content>, stale: Option<Content>, force: bool,
                      manifest: Option<Manifest>, env: PullEnv): Option<Content>
  {
    if !Replaces(sql, local, force, manifest, env) then local
    else
      var d := sql.open(env.download.content).value;
      var backup := BackupOf(local, stale, env);
      Settled(sql, d, backup, env)
  }

  /** The database in place once `d` has replaced the old one. */
  function Settled(sql: Sqlite, d: Content, backup: Option<Content>, env: PullEnv): Option<Content> {
    if Reopens(sql, d, env.reopens) then sql.open(d)
    else if backup.None? then Some(d)
    else if !env.restoreWorks then (if env.removeWorks then None else Some(d))
    else if Reopens(sql, backup.value, env.restoredReopens) then sql.open(backup.value)
    else backup
  }

  function BackupAfter(sql: Sqlite, local: Option<Content>, stale: Option<Content>, force: bool,
                       manifest: Option<Manifest>, env: PullEnv): Option<Content>
  {
    if !Wanted(sql, local, force, manifest, env) then stale
    else if !Replaces(sql, local, force, manifest, env) then BackupOf(local, stale, env)
    else if Reopens(sql, sql.open(env.download.content).value, env.reopens) || env.restoreWorks then None
    else BackupOf(local, stale, env)
  }

  /** The first thing that is wrong with the download. */
  function VerifyError(sql: Sqlite, local: Option<Content>, m: Manifest, env: PullEnv): Option<PullError> {
    if env.download.Broken? then Some(DownloadFailed)
    else if m.encrypted && !env.keyValid then Some(KeyInvalid)
    else if m.encrypted && env.decrypt(env.download.content).None? then Some(DecryptFailed)
    else
      var plain := if m.encrypted then env.decrypt(env.download.content).value else env.download.content;
      if sql.open(plain).None? then Some(NotADatabase)
      else
        var d := sql.open(plain).value;
        if sql.hash(d).None? then Some(HashFailed)
        else if sql.hash(d).value != m.logicalHash && LocalLsn(sql, local) != 0 then Some(HashMismatch)
        else if env.shadowFiles || !sql.intact(d) then Some(IntegrityFailed)
        else None
  }

  /** What the caller is told. */
  function Report(sql: Sqlite, local: Option<Content>, stale: Option<Content>, force: bool,
                  manifest: Option<Manifest>, env: PullEnv): PullResult
  {
    if !env.manifestRead then Failed(ManifestUnreadable)
    else if manifest.None? then Failed(NoRemoteBackup)
    else if !force && manifest.value.lsn <= LocalLsn(sql, local) then Skipped
    else if !Wanted(sql, local, force, manifest, env) then Failed(RemoteEmpty)
    else if VerifyError(sql, local, manifest.value, env).Some? then Failed(VerifyError(sql, local, manifest.value, env).value)
    else if !Replaces(sql, local, force, manifest, env) then Failed(ReplaceFailed)
    else ReplaceReport(sql, sql.open(env.download.content).value, BackupOf(local, stale, env), env)
  }

  function ReplaceReport(sql: Sqlite, d: Content, backup: Option<Content>, env: PullEnv): PullResult {
    if Reopens(sql, d, env.reopens) then Installed
    else if backup.None? then Failed(NothingToRestore)
    else if !env.restoreWorks then Failed(RestoreFailed)
    else if Reopens(sql, backup.value, env.restoredReopens) then Failed(RolledBack)
    else Failed(RestoredInvalid)
  }

  // ------------------------------------------------------------------ the pull, step by step

  class LocalFiles {
    const sql: Sqlite
    var local: Option<Content>      // nexus.db
    var backup: Option<Content>     // .backup_pre_pull
    var temp: Option<Content>       // .downloading
    var decrypted: Option<Content>  // .downloading.dec

    constructor (sql: Sqlite, local: Option<Content>, backup: Option<Content>)
      ensures this.sql == sql && this.local == local && this.backup == backup
    {
      this.sql, this.local, this.backup, this.temp, this.decrypted := sql, local, backup, None, None;
    }

    /** The pull installs, keeps or restores the local database as LocalAfter says, and says which. */
    method PullDBFromDrive(force: bool, manifest: Option<Manifest>, env: PullEnv) returns (result: PullResult)
      modifies this
      ensures result == Report(sql, old(local), old(backup), force, manifest, env)
      ensures local == LocalAfter(sql, old(local), old(backup), force, manifest, env)
      ensures backup == BackupAfter(sql, old(local), old(backup), force, manifest, env)
      ensures !Wanted(sql, old(local), force, manifest, env) ==> temp == old(temp) && decrypted == old(decrypted)
      ensures result.Installed? ==> temp == None
      ensures result.Failed? && result.error in {KeyInvalid, DecryptFailed, NotADatabase, HashFailed, HashMismatch, IntegrityFailed} ==>
        temp == None
      ensures decrypted == None || decrypted == old(decrypted)
    {
      if !env.manifestRead {
        return Failed(ManifestUnreadable);
      }
      if manifest.None? {
        return Failed(NoRemoteBackup);
      }
      var m := manifest.value;
      if !force {
        if m.lsn <= LocalLsn(sql, local) {
          return Skipped;
        }
      }
      if Count(m.stats, "files") == 0 && Count(m.stats, "folders") == 0 {
        return Failed(RemoteEmpty);
      }
      AfterChecks(sql, local, force, m, env);
      hide VerifyError, Checked, Settled, ReplaceReport, BackupOf, Reopens;
      BackupLocal(env);
      var error, removeDecrypted := DownloadAndVerify(m, env);
      if error.Some? {
        result := Failed(error.value);
      } else {
        result := Replace(env);
      }
      if removeDecrypted {
        decrypted := None;
      }
    }

    method BackupLocal(env: PullEnv)
      modifies this`backup
      ensures backup == BackupOf(local, old(backup), env)
      ensures local.Some? && env.backupCopy == Copied ==> backup == local
      ensures local.Some? && env.backupCopy.Partial? ==> backup == Some(env.backupCopy.content)
      ensures local.None? || env.backupCopy == NotCreated ==> backup == old(backup)
    {
      if local.Some? {
        match env.backupCopy {
          case Copied => backup := local;
          case Partial(content) => backup := Some(content);
          case NotCreated =>
        }
      }
    }

    /** After the checks a plaintext download waits under its temporary name; a decrypted one does
        not, because that name was removed with the ciphertext. */
    method DownloadAndVerify(m: Manifest, env: PullEnv) returns (error: Option<PullError>, removeDecrypted: bool)
      modifies this`temp, this`decrypted
      ensures error == VerifyError(sql, local, m, env)
      ensures error.None? ==> temp == if m.encrypted then None else sql.open(env.download.content)
      ensures error.Some? && error != Some(DownloadFailed) ==> temp == None
      ensures removeDecrypted || decrypted == old(decrypted)
    {
      removeDecrypted := false;
      match env.download {
        case Broken(leftover) =>
          temp := leftover;
          return Some(DownloadFailed), false;
        case Complete(content) =>
          temp := Some(content);
      }
      var verify := env.download.content;
      if m.encrypted {
        if !env.keyValid {
          temp := None;
          return Some(KeyInvalid), false;
        }
        var plain := env.decrypt(verify);
        if plain.None? {
          temp := None;
          return Some(DecryptFailed), false;
        }
        temp := None;
        decrypted, removeDecrypted := plain, true;
        verify := plain.value;
      }
      var migrated := sql.open(verify);
      if migrated.None? {
        RemoveVerified(m);
        return Some(NotADatabase), removeDecrypted;
      }
      verify := migrated.value;
      if m.encrypted { decrypted := Some(verify); } else { temp := Some(verify); }
      var hash := sql.hash(verify);
      if hash.None? {
        RemoveVerified(m);
        return Some(HashFailed), removeDecrypted;
      }
      if hash.value != m.logicalHash {
        if LocalLsn(sql, local) != 0 {
          RemoveVerified(m);
          return Some(HashMismatch), removeDecrypted;
        }
      }
      if env.shadowFiles || !sql.intact(verify) {
        RemoveVerified(m);
        return Some(IntegrityFailed), removeDecrypted;
      }
      error := None;
    }

    method RemoveVerified(m: Manifest)
      modifies this`temp, this`decrypted
      ensures if m.encrypted then decrypted == None && temp == old(temp) else temp == None && decrypted == old(decrypted)
    {
      if m.encrypted { decrypted := None; } else { temp := None; }
    }

    method Replace(env: PullEnv) returns (result: PullResult)
      modifies this`local, this`backup, this`temp
      ensures old(temp).None? || !env.replaceWorks ==>
        result == Failed(ReplaceFailed) && local == old(local) && backup == old(backup) && temp == old(temp)
      ensures old(temp).Some? && env.replaceWorks ==>
        && result == ReplaceReport(sql, old(temp).value, old(backup), env)
        && local == Settled(sql, old(temp).value, old(backup), env) && temp == None
        && backup == if result.Installed? || env.restoreWorks then None else old(backup)
    {
      if temp.None? || !env.replaceWorks {
        return Failed(ReplaceFailed);
      }
      local, temp := temp, None;
      if env.reopens && sql.open(local.value).Some? {
        local := sql.open(local.value);
        backup := None;
        return Installed;
      }
      if backup.None? {
        return Failed(NothingToRestore);
      }
      if env.removeWorks {
        local := None;
      }
      if !env.restoreWorks {
        return Failed(RestoreFailed);
      }
      local, backup := backup, None;
      if !env.restoredReopens || sql.open(local.value).None? {
        return Failed(RestoredInvalid);
      }
      local := sql.open(local.value);
      result := Failed(RolledBack);
    }
  }

  // A snapshot that passed the checks replaces the local database unless it is encrypted.
  lemma AfterChecks(sql: Sqlite, local: Option<Content>, force: bool, m: Manifest, env: PullEnv)
    requires Wanted(sql, local, force, Some(m), env)
    ensures VerifyError(sql, local, m, env).Some? ==> !Replaces(sql, local, force, Some(m), env)
    ensures VerifyError(sql, local, m, env).None? ==>
      && (Replaces(sql, local, force, Some(m), env) <==> !m.encrypted && env.replaceWorks)
      && (!m.encrypted ==> env.download.Complete? && sql.open(env.download.content).Some?)
  {
  }

  // ------------------------------------------------------------------ what a pull can leave behind

  /** Opening an opened database changes nothing more. */
  ghost predicate Settles(sql: Sqlite) {
    forall c: Content :: sql.open(c).Some? ==> IsOpened(sql, sql.open(c).value)
  }

  predicate Verified(sql: Sqlite, m: Manifest, d: Content) {
    sql.intact(d) && sql.hash(d) == Some(m.logicalHash)
  }

  /** The local database is the old one or a verified download. */
  predicate Safe(sql: Sqlite, before: Content, manifest: Option<Manifest>, after: Option<Content>) {
    after == Some(before) || (manifest.Some? && after.Some? && Verified(sql, manifest.value, after.value))
  }

  /** The backup was made and can be moved back. */
  predicate Restorable(env: PullEnv) {
    env.backupCopy.Copied? && env.restoreWorks
  }

  /** Whatever the manifest and the download are: a pull with a usable backup on a device with an
      LSN leaves the old database or a verified download, and reports an installation only for the latter. */
  lemma OldOrVerified(sql: Sqlite, local: Content, stale: Option<Content>, force: bool, manifest: Option<Manifest>, env: PullEnv)
    requires Settles(sql) && IsOpened(sql, local) && sql.lsn(local) != 0 && Restorable(env)
    ensures var after := LocalAfter(sql, Some(local), stale, force, manifest, env);
      && Safe(sql, local, manifest, after)
      && (Report(sql, Some(local), stale, force, manifest, env).Installed? ==>
          manifest.Some? && after.Some? && Verified(sql, manifest.value, after.value))
  {
    if Replaces(sql, Some(local), force, manifest, env) {
      assert IsOpened(sql, sql.open(env.download.content).value);
    }
  }

  /** A pull is safe on a device for every manifest and every download exactly if the device's LSN
      is not zero, as soon as there is any other healthy database that could be downloaded. */
  lemma SafeExactlyWithLsn(sql: Sqlite, local: Content, other: Content)
    requires Settles(sql) && IsOpened(sql, local)
    requires other != local && IsOpened(sql, other) && sql.intact(other) && sql.hash(other).Some?
    ensures (forall manifest, env :: Restorable(env) ==>
              Safe(sql, local, manifest, LocalAfter(sql, Some(local), None, true, manifest, env)))
       <==> sql.lsn(local) != 0
  {
    if sql.lsn(local) != 0 {
      forall manifest, env | Restorable(env)
        ensures Safe(sql, local, manifest, LocalAfter(sql, Some(local), None, true, manifest, env))
      {
        OldOrVerified(sql, local, None, true, manifest, env);
      }
    } else {
      var env := PullEnv(true, Copied, Complete(other), false, c => None, false, true, true, true, true, true);
      var manifest := Some(Manifest(1, sql.hash(other).value + "x", "", map["files" := 1], false));
      assert Count(manifest.value.stats, "files") == 1;
      assert Restorable(env) && LocalAfter(sql, Some(local), None, true, manifest, env) == Some(other);
      assert !Safe(sql, local, manifest, LocalAfter(sql, Some(local), None, true, manifest, env));
    }
  }

  /** An encrypted snapshot is never installed, whatever it contains: the file that would be moved
      into place has been deleted. */
  lemma EncryptedNeverInstalls(sql: Sqlite, local: Option<Content>, stale: Option<Content>, force: bool, m: Manifest, env: PullEnv)
    requires m.encrypted
    ensures LocalAfter(sql, local, stale, force, Some(m), env) == local
    ensures !Report(sql, local, stale, force, Some(m), env).Installed?
    ensures Wanted(sql, local, force, Some(m), env) && VerifyError(sql, local, m, env).None?
      ==> Report(sql, local, stale, force, Some(m), env) == Failed(ReplaceFailed)
  {
  }

  /** What arrived, in plain: the file itself, or what it decrypts to. */
  function Plain(m: Manifest, env: PullEnv): Option<Content> {
    if env.download.Broken? then None
    else if !m.encrypted then Some(env.download.content)
    else if env.keyValid then env.decrypt(env.download.content)
    else None
  }

  /** The checks pass exactly for a file that arrived, opens, is intact and has the manifest's hash
      or meets a device with LSN 0, and beside which no shadow files lie. */
  lemma ChecksPassExactly(sql: Sqlite, local: Option<Content>, m: Manifest, env: PullEnv)
    ensures VerifyError(sql, local, m, env).None? <==>
      && Plain(m, env).Some? && sql.open(Plain(m, env).value).Some?
      && var d := sql.open(Plain(m, env).value).value;
         && sql.intact(d) && !env.shadowFiles && sql.hash(d).Some?
         && (sql.hash(d) == Some(m.logicalHash) || local.None? || sql.lsn(local.value) == 0)
  {
  }

  /** Without force a manifest is skipped exactly if it is not newer than the local database, by
      LSN; nothing has changed then. */
  lemma SkippedExactly(sql: Sqlite, local: Option<Content>, stale: Option<Content>, force: bool, manifest: Option<Manifest>, env: PullEnv)
    ensures var lsn := if local.None? then 0 else sql.lsn(local.value);
      Report(sql, local, stale, force, manifest, env).Skipped? <==>
        env.manifestRead && manifest.Some? && !force && manifest.value.lsn <= lsn
    ensures Report(sql, local, stale, force, manifest, env).Skipped? ==>
      && LocalAfter(sql, local, stale, force, manifest, env) == local
      && BackupAfter(sql, local, stale, force, manifest, env) == stale
  {
  }

  /** A newer or forced manifest is refused as empty exactly if it counts neither files nor folders,
      whatever else it counts; nothing has changed then. */
  lemma EmptyExactly(sql: Sqlite, local: Option<Content>, stale: Option<Content>, force: bool, manifest: Option<Manifest>, env: PullEnv)
    ensures var lsn := if local.None? then 0 else sql.lsn(local.value);
      Report(sql, local, stale, force, manifest, env) == Failed(RemoteEmpty) <==>
        && env.manifestRead && manifest.Some? && (force || manifest.value.lsn > lsn)
        && ("files" in manifest.value.stats ==> manifest.value.stats["files"] == 0)
        && ("folders" in manifest.value.stats ==> manifest.value.stats["folders"] == 0)
    ensures Report(sql, local, stale, force, manifest, env) == Failed(RemoteEmpty) ==>
      && LocalAfter(sql, local, stale, force, manifest, env) == local
      && BackupAfter(sql, local, stale, force, manifest, env) == stale
  {
  }

  /** A pull reports an installation exactly for a plaintext snapshot that is newer by LSN, or forced,
      counts a file or a folder, arrives, opens, is intact, has the manifest's hash (or meets a device
      with LSN 0), and can be moved into place and opened there. */
  lemma InstalledExactly(sql: Sqlite, local: Option<Content>, stale: Option<Content>, force: bool, m: Manifest, env: PullEnv)
    requires Settles(sql)
    ensures var lsn := if local.None? then 0 else sql.lsn(local.value);
      Report(sql, local, stale, force, Some(m), env).Installed? <==>
        && env.manifestRead && (force || m.lsn > lsn)
        && (("files" in m.stats && m.stats["files"] != 0) || ("folders" in m.stats && m.stats["folders"] != 0))
        && !m.encrypted && env.download.Complete? && sql.open(env.download.content).Some?
        && var d := sql.open(env.download.content).value;
           && sql.intact(d) && !env.shadowFiles && sql.hash(d).Some?
           && (sql.hash(d) == Some(m.logicalHash) || lsn == 0)
           && env.replaceWorks && env.reopens
  {
    ChecksPassExactly(sql, local, m, env);
    if env.download.Complete? && sql.open(env.download.content).Some? {
      assert IsOpened(sql, sql.open(env.download.content).value);
    }
  }

  /** A wanted snapshot whose hash can be computed and is not the manifest's is refused on every
      device with LSN not zero, and only there. */
  lemma MismatchExactly(sql: Sqlite, local: Option<Content>, stale: Option<Content>, force: bool, m: Manifest, env: PullEnv)
    ensures Report(sql, local, stale, force, Some(m), env) == Failed(HashMismatch) <==>
      && Wanted(sql, local, force, Some(m), env) && local.Some? && sql.lsn(local.value) != 0
      && Plain(m, env).Some? && sql.open(Plain(m, env).value).Some?
      && var hash := sql.hash(sql.open(Plain(m, env).value).value);
         hash.Some? && hash.value != m.logicalHash
    ensures Report(sql, local, stale, force, Some(m), env) == Failed(HashMismatch) ==>
      LocalAfter(sql, local, stale, force, Some(m), env) == local
  {
  }

  /** A rollback is reported exactly if the snapshot took the old database's place, did not open there,
      and the backup could be moved back and opened: it then is the local database, and no backup is
      left. With a complete backup of an opened database that is the old one. */
  lemma RolledBackExactly(sql: Sqlite, local: Option<Content>, stale: Option<Content>, force: bool, manifest: Option<Manifest>, env: PullEnv)
    requires Settles(sql)
    ensures var backup := BackupOf(local, stale, env);
      Report(sql, local, stale, force, manifest, env) == Failed(RolledBack) <==>
        && Replaces(sql, local, force, manifest, env) && !env.reopens
        && backup.Some? && env.restoreWorks && env.restoredReopens && sql.open(backup.value).Some?
    ensures Report(sql, local, stale, force, manifest, env) == Failed(RolledBack) ==>
      && BackupAfter(sql, local, stale, force, manifest, env) == None
      && LocalAfter(sql, local, stale, force, manifest, env) == sql.open(BackupOf(local, stale, env).value)
      && (local.Some? && IsOpened(sql, local.value) && env.backupCopy.Copied? ==>
            LocalAfter(sql, local, stale, force, manifest, env) == local)
  {
    if Replaces(sql, local, force, manifest, env) {
      assert IsOpened(sql, sql.open(env.download.content).value);
    }
  }

  /** What the other failures of a replacement leave: without a backup the snapshot that does not
      open; a backup that cannot be moved back stays, and the snapshot with it unless it was removed;
      a backup that does not open either is the local database. */
  lemma FailedReplacements(sql: Sqlite, local: Option<Content>, stale: Option<Content>, force: bool, m: Manifest, env: PullEnv)
    ensures
      var report, after := Report(sql, local, stale, force, Some(m), env), LocalAfter(sql, local, stale, force, Some(m), env);
      var left := BackupAfter(sql, local, stale, force, Some(m), env);
      && (report == Failed(NothingToRestore) ==>
            env.download.Complete? && after == sql.open(env.download.content) && BackupOf(local, stale, env) == None)
      && (report == Failed(RestoreFailed) ==>
            && env.download.Complete? && after == (if env.removeWorks then None else sql.open(env.download.content))
            && left == BackupOf(local, stale, env) && left.Some?)
      && (report == Failed(RestoredInvalid) ==> after == BackupOf(local, stale, env) && after.Some? && left == None)
  {
  }

  /** A snapshot that is wanted and passes all checks is installed, if its files can be moved and
      opened, exactly when it is not encrypted. A plaintext one is then the local database, as it
      was opened for the checks; after an encrypted one the local database is the old one. */
  lemma InstallsExactlyPlaintext(sql: Sqlite, local: Option<Content>, stale: Option<Content>, force: bool, m: Manifest, env: PullEnv)
    requires Settles(sql) && Wanted(sql, local, force, Some(m), env) && VerifyError(sql, local, m, env).None?
    requires env.replaceWorks && env.reopens
    ensures Report(sql, local, stale, force, Some(m), env).Installed? <==> !m.encrypted
    ensures LocalAfter(sql, local, stale, force, Some(m), env)
         == if m.encrypted then local else sql.open(env.download.content)
  {
    ChecksPassExactly(sql, local, m, env);
    if !m.encrypted {
      assert IsOpened(sql, sql.open(env.download.content).value);
    }
  }

  /** For every crash point of an upload, and every way its writes may fail: a later pull that
      downloads what is on the drive leaves the old database, or exactly the database on the drive
      and then with the hash of the manifest on the drive. Between the two writes that is the old
      manifest, so a new database that differs from it is not installed. */
  lemma CrashThenPull(
      sql: Sqlite, remote: Remote, file: Content, m: Manifest, attempts: seq<P.UploadAttempt>,
      local: Content, stale: Option<Content>, force: bool, env: PullEnv)
    requires Settles(sql) && IsOpened(sql, local) && sql.lsn(local) != 0 && Restorable(env)
    requires var on := P.AfterAttempts(remote, file, m, attempts);
      env.download.Complete? ==> on.db == Some(env.download.content)
    ensures
      var on := P.AfterAttempts(remote, file, m, attempts);
      var after := LocalAfter(sql, Some(local), stale, force, on.manifest, env);
      && (on.manifest == remote.manifest || on == Remote(Some(file), Some(m)))
      && (after == Some(local)
          || (on.db.Some? && on.manifest.Some? && after == sql.open(on.db.value) && Verified(sql, on.manifest.value, after.value)))
      && (on == Remote(Some(file), remote.manifest) && !VerifiesAgainst(sql, remote.manifest, file) ==> after == Some(local))
  {
    P.ManifestFollowsDatabase(remote, file, m, attempts);
    var on := P.AfterAttempts(remote, file, m, attempts);
    OldOrVerified(sql, local, stale, force, on.manifest, env);
    if Replaces(sql, Some(local), force, on.manifest, env) {
      assert IsOpened(sql, sql.open(env.download.content).value);
    }
  }

  predicate VerifiesAgainst(sql: Sqlite, manifest: Option<Manifest>, file: Content) {
    manifest.Some? && sql.open(file).Some? && Verified(sql, manifest.value, sql.open(file).value)
  }
}
