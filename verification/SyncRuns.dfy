/** Runs of pushes, pulls and edits by any number of devices against one drive (nexus-daemon/sync.go):
    the remote manifest only ever rises, and without edits the overwriting stops. */
module SyncRuns {
  import opened Bytes
  import opened Sync
  import opened SyncPush
  import L = SyncPull

  /** The database file of a device and a backup left behind by an earlier pull. */
  datatype Device = Device(local: Option<Content>, backup: Option<Content>)

  datatype World = World(devices: seq<Device>, remote: Remote)

  /** Edit: the device gets any other content. */
  datatype Event =
    | PushEvent(device: nat, env: PushEnv)
    | PullEvent(device: nat, force: bool, pull: L.PullEnv)
    | EditEvent(device: nat, content: Content)

  /** A device without a database has nothing to push. */
  function Pushed(sql: Sqlite, d: Device, remote: Remote, env: PushEnv): Remote {
    if d.local.Some? then AfterPush(sql, d.local.value, remote, env) else remote
  }

  function Pulled(sql: Sqlite, d: Device, remote: Remote, force: bool, env: L.PullEnv): Device {
    Device(L.LocalAfter(sql, d.local, d.backup, force, remote.manifest, env),
           L.BackupAfter(sql, d.local, d.backup, force, remote.manifest, env))
  }

  function Apply(sql: Sqlite, w: World, e: Event): World {
    if e.device >= |w.devices| then w
    else match e
      case PushEvent(i, env) => w.(remote := Pushed(sql, w.devices[i], w.remote, env))
      case PullEvent(i, force, env) => w.(devices := w.devices[i := Pulled(sql, w.devices[i], w.remote, force, env)])
      case EditEvent(i, content) => w.(devices := w.devices[i := w.devices[i].(local := Some(content))])
  }

  function Run(sql: Sqlite, w: World, events: seq<Event>): World
    decreases events
  {
    if events == [] then w else Run(sql, Apply(sql, w, events[0]), events[1..])
  }

  /** The event writes over an existing manifest. */
  predicate Overwrites(sql: Sqlite, w: World, e: Event) {
    && e.PushEvent? && e.device < |w.devices| && w.remote.manifest.Some? && w.devices[e.device].local.Some?
    && Writes(sql, w.devices[e.device].local.value, w.remote, e.env)
  }

  function CountOverwrites(sql: Sqlite, w: World, events: seq<Event>): nat
    decreases events
  {
    if events == [] then 0
    else (if Overwrites(sql, w, events[0]) then 1 else 0) + CountOverwrites(sql, Apply(sql, w, events[0]), events[1..])
  }

  predicate ManifestsRead(events: seq<Event>) {
    forall i :: 0 <= i < |events| && events[i].PushEvent? ==> events[i].env.manifestRead
  }

  lemma StepRises(sql: Sqlite, w: World, e: Event)
    requires w.remote.manifest.Some? && (e.PushEvent? && e.device < |w.devices| ==> e.env.manifestRead)
    ensures var after := Apply(sql, w, e).remote.manifest;
      if Overwrites(sql, w, e)
      then after.Some? && Higher(RankOf(sql, after.value), RankOf(sql, w.remote.manifest.value))
      else after == w.remote.manifest
  {
    if e.PushEvent? && e.device < |w.devices| && w.devices[e.device].local.Some? {
      var local := w.devices[e.device].local.value;
      if Overwrites(sql, w, e) {
        ReadPushRaises(sql, local, w.remote, e.env);
      } else if Uploads(sql, local, w.remote, e.env) {
        ManifestFollowsDatabase(w.remote, e.env.snapshot.value, ManifestOf(sql, local), e.env.attempts);
      }
    }
  }

  /** Over every run of pushes with readable manifests, pulls and edits by any number of devices:
      the manifest is untouched if nothing wrote over it, and otherwise ranks strictly higher than
      at the start. So the remote never returns to an earlier manifest. */
  lemma {:induction false} RemoteOnlyRises(sql: Sqlite, w: World, events: seq<Event>)
    requires w.remote.manifest.Some? && ManifestsRead(events)
    ensures var after := Run(sql, w, events).remote.manifest;
      if CountOverwrites(sql, w, events) == 0 then after == w.remote.manifest
      else after.Some? && Higher(RankOf(sql, after.value), RankOf(sql, w.remote.manifest.value))
    decreases events
  {
    hide Apply, Overwrites, RankOf;
    if events != [] {
      StepRises(sql, w, events[0]);
      RemoteOnlyRises(sql, Apply(sql, w, events[0]), events[1..]);
    }
  }

  // ------------------------------------------------------------------ without edits the pushing stops

  function LocalRank(sql: Sqlite, local: Content): Rank {
    RankOf(sql, ManifestOf(sql, local))
  }

  /** Schema migrations change no rows. */
  ghost predicate MigrationsKeepRank(sql: Sqlite) {
    forall c: Content :: sql.open(c).Some? ==> LocalRank(sql, sql.open(c).value) == LocalRank(sql, c)
  }

  /** No event brings in rows that were not there: a snapshot has the rows of its database, a
      download is the file on the drive, and a backup is not cut off half way. */
  predicate QuietEvent(sql: Sqlite, w: World, e: Event) {
    e.device < |w.devices| ==>
      match e
      case PushEvent(i, env) =>
        && env.manifestRead
        && (env.snapshot.Some? && w.devices[i].local.Some? ==>
              LocalRank(sql, env.snapshot.value) == LocalRank(sql, w.devices[i].local.value))
      case PullEvent(i, force, env) =>
        !env.backupCopy.Partial? && (env.download.Complete? ==> w.remote.db == Some(env.download.content))
      case EditEvent(_, _) => false
  }

  /** A run without edits. */
  predicate Quiet(sql: Sqlite, w: World, events: seq<Event>)
    decreases events
  {
    events == [] || (QuietEvent(sql, w, events[0]) && Quiet(sql, Apply(sql, w, events[0]), events[1..]))
  }

  function RankOfFile(sql: Sqlite, file: Option<Content>): set<Rank> {
    if file.Some? then {LocalRank(sql, file.value)} else {}
  }

  function DeviceRanks(sql: Sqlite, devices: seq<Device>): set<Rank> {
    if devices == [] then {}
    else
      RankOfFile(sql, devices[0].local) + RankOfFile(sql, devices[0].backup) + DeviceRanks(sql, devices[1..])
  }

  /** The ranks of all databases there are: on devices, in backups, and on the drive. */
  function Ranks(sql: Sqlite, w: World): set<Rank> {
    DeviceRanks(sql, w.devices) + RankOfFile(sql, w.remote.db)
  }

  /** Those of them that could still overwrite the manifest. */
  function Above(sql: Sqlite, w: World): set<Rank> {
    set r | r in Ranks(sql, w) && (w.remote.manifest.Some? ==> Higher(r, RankOf(sql, w.remote.manifest.value)))
  }

  lemma {:induction false} RanksOfDevice(sql: Sqlite, devices: seq<Device>, i: nat)
    requires i < |devices|
    ensures RankOfFile(sql, devices[i].local) <= DeviceRanks(sql, devices)
    ensures RankOfFile(sql, devices[i].backup) <= DeviceRanks(sql, devices)
  {
    hide RankOfFile;
    if i > 0 {
      RanksOfDevice(sql, devices[1..], i - 1);
    }
  }

  lemma {:induction false} RanksUpdated(sql: Sqlite, devices: seq<Device>, i: nat, d: Device)
    requires i < |devices|
    ensures DeviceRanks(sql, devices[i := d])
         <= DeviceRanks(sql, devices) + RankOfFile(sql, d.local) + RankOfFile(sql, d.backup)
  {
    hide RankOfFile;
    var updated := devices[i := d];
    if i == 0 {
      assert updated[1..] == devices[1..];
    } else {
      assert updated[1..] == devices[1..][i - 1 := d];
      RanksUpdated(sql, devices[1..], i - 1, d);
    }
  }

  // A pull leaves only databases that were on the device or on the drive.
  lemma PulledRanks(sql: Sqlite, d: Device, remote: Remote, force: bool, env: L.PullEnv)
    requires MigrationsKeepRank(sql) && !env.backupCopy.Partial?
    requires env.download.Complete? ==> remote.db == Some(env.download.content)
    ensures var after := Pulled(sql, d, remote, force, env);
      var known := RankOfFile(sql, d.local) + RankOfFile(sql, d.backup) + RankOfFile(sql, remote.db);
      RankOfFile(sql, after.local) <= known && RankOfFile(sql, after.backup) <= known
  {
    hide LocalRank, L.Wanted, L.Checked;
    if L.Replaces(sql, d.local, force, remote.manifest, env) {
      var installed := sql.open(env.download.content).value;
      assert LocalRank(sql, installed) == LocalRank(sql, env.download.content);
    }
  }

  // An upload leaves the old database on the drive or the snapshot.
  lemma PushedRanks(sql: Sqlite, d: Device, remote: Remote, env: PushEnv)
    requires env.snapshot.Some? && d.local.Some? ==> LocalRank(sql, env.snapshot.value) == LocalRank(sql, d.local.value)
    ensures RankOfFile(sql, Pushed(sql, d, remote, env).db) <= RankOfFile(sql, remote.db) + RankOfFile(sql, d.local)
  {
    hide LocalRank;
    if d.local.Some? && Uploads(sql, d.local.value, remote, env) {
      ManifestFollowsDatabase(remote, env.snapshot.value, ManifestOf(sql, d.local.value), env.attempts);
    }
  }

  lemma RanksShrink(sql: Sqlite, w: World, e: Event)
    requires MigrationsKeepRank(sql) && QuietEvent(sql, w, e)
    ensures Ranks(sql, Apply(sql, w, e)) <= Ranks(sql, w)
  {
    hide RankOfFile, DeviceRanks, MigrationsKeepRank, Pushed, Pulled;
    if e.device < |w.devices| {
      var d := w.devices[e.device];
      RanksOfDevice(sql, w.devices, e.device);
      match e {
        case PushEvent(_, env) => PushedRanks(sql, d, w.remote, env);
        case PullEvent(i, force, env) =>
          PulledRanks(sql, d, w.remote, force, env);
          RanksUpdated(sql, w.devices, i, Pulled(sql, d, w.remote, force, env));
      }
    }
  }

  lemma AboveShrinks(sql: Sqlite, w: World, e: Event)
    requires MigrationsKeepRank(sql) && QuietEvent(sql, w, e)
    ensures Above(sql, Apply(sql, w, e)) <= Above(sql, w)
    ensures Overwrites(sql, w, e) ==> Above(sql, Apply(sql, w, e)) < Above(sql, w)
  {
    hide DeviceRanks, MigrationsKeepRank, RankOf;
    var after := Apply(sql, w, e);
    RanksShrink(sql, w, e);
    if w.remote.manifest.Some? {
      StepRises(sql, w, e);
      if Overwrites(sql, w, e) {
        var local := w.devices[e.device].local.value;
        ReadPushRaises(sql, local, w.remote, e.env);
        RanksOfDevice(sql, w.devices, e.device);
        assert LocalRank(sql, local) in Above(sql, w) && LocalRank(sql, local) !in Above(sql, after);
      }
    }
  }

  lemma StrictSubsetSmaller<T>(a: set<T>, b: set<T>)
    requires a <= b
    ensures |a| <= |b| && (a < b ==> |a| < |b|)
  {
    assert b == a + (b - a);
    assert a < b ==> b - a != {};
  }

  lemma {:induction false} OverwritesUseUpRanks(sql: Sqlite, w: World, events: seq<Event>)
    requires MigrationsKeepRank(sql) && Quiet(sql, w, events)
    ensures CountOverwrites(sql, w, events) <= |Above(sql, w)|
    decreases events
  {
    hide Apply, Overwrites, Above, QuietEvent, MigrationsKeepRank;
    if events != [] {
      var next := Apply(sql, w, events[0]);
      AboveShrinks(sql, w, events[0]);
      StrictSubsetSmaller(Above(sql, next), Above(sql, w));
      OverwritesUseUpRanks(sql, next, events[1..]);
    }
  }

  /** How many database files the devices hold. */
  function Files(devices: seq<Device>): nat {
    if devices == [] then 0
    else
      (if devices[0].local.Some? then 1 else 0) + (if devices[0].backup.Some? then 1 else 0) + Files(devices[1..])
  }

  lemma {:induction false} DeviceRanksBounded(sql: Sqlite, devices: seq<Device>)
    ensures |DeviceRanks(sql, devices)| <= Files(devices)
  {
    hide LocalRank;
    if devices != [] {
      DeviceRanksBounded(sql, devices[1..]);
    }
  }

  /** Devices cannot overwrite each other forever without edits, however they push and pull and
      however their pulls fail: with f database files on the devices (one each, and what earlier
      pulls left as backups) the remote manifest is written over at most f + 1 times. */
  lemma OverwritesBounded(sql: Sqlite, w: World, events: seq<Event>)
    requires MigrationsKeepRank(sql) && Quiet(sql, w, events)
    ensures CountOverwrites(sql, w, events) <= Files(w.devices) + 1
  {
    hide RankOf, Quiet, CountOverwrites, LocalRank, DeviceRanks, MigrationsKeepRank;
    OverwritesUseUpRanks(sql, w, events);
    StrictSubsetSmaller(Above(sql, w), Ranks(sql, w));
    DeviceRanksBounded(sql, w.devices);
  }
}
