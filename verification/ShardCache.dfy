/** The shard cache of nexus-daemon/cache.go over the cache_entries table of db.go: a size-bounded
    least-recently-used cache whose hits agree with a plain map. */
module ShardCache {
  import opened Bytes

  datatype Entry = Entry(filePath: string, sizeBytes: nat, lastAccess: int)

  type Entries = map<string, Entry>

  const DEFAULT_CACHE_MAX_BYTES: nat := 10 * 1024 * 1024 * 1024

  // ------------------------------------------------------------------ table queries

  /** SELECT SUM(size_bytes). */
  ghost function TotalBytes(entries: Entries): nat
    decreases |entries|
  {
    if entries == map[] then 0
    else
      var id :| id in entries;
      entries[id].sizeBytes + TotalBytes(entries - {id})
  }

  /** The sum does not depend on the order of the rows. */
  lemma {:induction false} TotalWithout(entries: Entries, id: string)
    requires id in entries
    ensures TotalBytes(entries) == entries[id].sizeBytes + TotalBytes(entries - {id})
    decreases |entries|
  {
    var first :| first in entries && TotalBytes(entries) == entries[first].sizeBytes + TotalBytes(entries - {first});
    if first != id {
      TotalWithout(entries - {first}, id);
      TotalWithout(entries - {id}, first);
      assert entries - {first} - {id} == entries - {id} - {first};
    }
  }

  /** ORDER BY last_access ASC LIMIT 1 may answer any row with the least time stamp. */
  ghost predicate IsOldest(entries: Entries, id: string) {
    id in entries && forall other :: other in entries ==> entries[id].lastAccess <= entries[other].lastAccess
  }

  lemma OldestExists(entries: Entries)
    requires entries != map[]
    ensures exists id :: IsOldest(entries, id)
    decreases |entries|
  {
    var id :| id in entries;
    var others := entries - {id};
    assert forall other :: other in entries ==> other == id || other in others;
    if others == map[] {
      assert IsOldest(entries, id);
    } else {
      OldestExists(others);
      var oldest :| IsOldest(others, oldest);
      assert others[oldest] == entries[oldest] && forall other :: other in others ==> others[other] == entries[other];
      assert IsOldest(entries, if entries[id].lastAccess <= entries[oldest].lastAccess then id else oldest);
    }
  }

  // ------------------------------------------------------------------ eviction

  function Without(entries: Entries, ids: seq<string>): Entries {
    map id | id in entries && id !in ids :: entries[id]
  }

  /** The evicted ids are an oldest-first prefix, and no longer than it takes in this order to bring
      the total down to the limit: before each of them was removed the total was still above it. */
  ghost predicate ShortestOldestPrefix(entries: Entries, evicted: seq<string>, limit: nat) {
    OldestPrefix(entries, evicted, limit) && TotalBytes(Without(entries, evicted)) <= limit
  }

  ghost predicate OldestPrefix(entries: Entries, evicted: seq<string>, limit: nat) {
    forall k :: 0 <= k < |evicted| ==>
      IsOldest(Without(entries, evicted[..k]), evicted[k]) && TotalBytes(Without(entries, evicted[..k])) > limit
  }

  lemma OldestPrefixGrows(entries: Entries, evicted: seq<string>, limit: nat, id: string)
    requires OldestPrefix(entries, evicted, limit)
    requires IsOldest(Without(entries, evicted), id) && TotalBytes(Without(entries, evicted)) > limit
    ensures OldestPrefix(entries, evicted + [id], limit)
    ensures Without(entries, evicted + [id]) == Without(entries, evicted) - {id}
  {
    hide IsOldest, TotalBytes, Without;
    var all := evicted + [id];
    forall k | 0 <= k < |all|
      ensures IsOldest(Without(entries, all[..k]), all[k]) && TotalBytes(Without(entries, all[..k])) > limit
    {
      if k < |evicted| {
        assert all[..k] == evicted[..k];
      } else {
        assert all[..k] == evicted;
      }
    }
    WithoutSnoc(entries, evicted, id);
  }

  lemma RemoveMore(files: map<string, seq<byte>>, gone: set<string>, path: string)
    ensures files - gone - {path} == files - (gone + {path})
  {
  }

  lemma WithoutSnoc(entries: Entries, ids: seq<string>, id: string)
    ensures Without(entries, ids + [id]) == Without(entries, ids) - {id}
  {
  }

  /** Sizes up to the limit are left alone, and sizes beyond it are not. */
  lemma EvictsExactly(entries: Entries, evicted: seq<string>, limit: nat)
    requires ShortestOldestPrefix(entries, evicted, limit)
    ensures evicted == [] <==> TotalBytes(entries) <= limit
  {
    hide TotalBytes, IsOldest;
    assert Without(entries, []) == entries;
    if evicted != [] {
      assert evicted[..0] == [];
    }
  }

  /** Nothing that is kept was used less recently than something that was evicted. */
  lemma KeptAreNewer(entries: Entries, evicted: seq<string>, limit: nat, gone: string, kept: string)
    requires ShortestOldestPrefix(entries, evicted, limit)
    requires gone in evicted && kept in Without(entries, evicted)
    ensures gone in entries && entries[gone].lastAccess <= entries[kept].lastAccess
  {
    var k :| 0 <= k < |evicted| && evicted[k] == gone;
    assert IsOldest(Without(entries, evicted[..k]), evicted[k]);
    forall j | 0 <= j < k ensures evicted[j] in evicted {
    }
    assert kept in Without(entries, evicted[..k]);
  }

  // ------------------------------------------------------------------ the cache

  function ShardPath(dir: string, videoID: string): string {
    dir + "/" + videoID + ".shard"
  }

  class CacheManager {
    const cacheDir: string
    const maxBytes: nat
    var entries: Entries                    // the table
    var files: map<string, seq<byte>>       // the disk, by path
    ghost var puts: map<string, seq<byte>>  // a plain map: the last bytes put for each id

    function PathOf(videoID: string): string {
      ShardPath(cacheDir, videoID)
    }

    lemma PathInjective(a: string, b: string)
      requires PathOf(a) == PathOf(b)
      ensures a == b
    {
      var n := |cacheDir| + 1;
      assert |PathOf(a)| == n + |a| + 6 && |PathOf(b)| == n + |b| + 6;
      assert PathOf(a)[n..n + |a|] == a && PathOf(b)[n..n + |b|] == b;
    }

    /** Every row points at the file of its id. */
    ghost predicate RowsAgree(entries: Entries) {
      forall id :: id in entries ==> entries[id].filePath == PathOf(id)
    }

    /** Every file holds the last bytes put for its id. */
    ghost predicate DiskAgrees(files: map<string, seq<byte>>, puts: map<string, seq<byte>>) {
      forall id :: PathOf(id) in files ==> id in puts && files[PathOf(id)] == puts[id]
    }

    ghost predicate Valid()
      reads this
    {
      TotalBytes(entries) <= maxBytes && RowsAgree(entries) && DiskAgrees(files, puts)
    }

    lemma DiskAfterPut(files: map<string, seq<byte>>, puts: map<string, seq<byte>>, id: string, data: seq<byte>)
      requires DiskAgrees(files, puts)
      ensures DiskAgrees(files[PathOf(id) := data], puts[id := data])
    {
      forall other | PathOf(other) in files[PathOf(id) := data]
        ensures other in puts[id := data] && files[PathOf(id) := data][PathOf(other)] == puts[id := data][other]
      {
        if PathOf(other) == PathOf(id) { PathInjective(other, id); }
      }
    }

    lemma DiskAfterRemoval(files: map<string, seq<byte>>, puts: map<string, seq<byte>>, path: string)
      requires DiskAgrees(files, puts)
      ensures DiskAgrees(files - {path}, puts)
    {
      hide PathOf;
    }

    constructor (dir: string, max: int)
      ensures Valid() && entries == map[] && files == map[] && puts == map[]
      ensures cacheDir == dir && maxBytes == if max <= 0 then 10_737_418_240 else max
    {
      cacheDir, maxBytes := dir, if max <= 0 then DEFAULT_CACHE_MAX_BYTES else max;
      entries, files, puts := map[], map[], map[];
    }

    /** A hit hands out a path that holds the bytes of the last put for the id. */
    method Get(videoID: string, now: int) returns (path: Option<string>)
      requires Valid()
      modifies this`entries
      ensures Valid()
      ensures path.Some? <==> videoID in old(entries) && PathOf(videoID) in files
      ensures path.Some? ==>
        && path.value == PathOf(videoID) && videoID in puts && files[path.value] == puts[videoID]
        && entries == old(entries)[videoID := old(entries)[videoID].(lastAccess := now)]
      ensures path.None? ==> entries == old(entries) - {videoID}
    {
      if videoID !in entries {
        assert entries - {videoID} == entries;
        return None;
      }
      var entry := entries[videoID];
      if entry.filePath !in files {
        TotalWithout(entries, videoID);
        entries := entries - {videoID};
        return None;
      }
      Touched(entries, videoID, now);
      entries := entries[videoID := entry.(lastAccess := now)];
      return Some(entry.filePath);
    }

    lemma Touched(entries: Entries, id: string, now: int)
      requires id in entries
      ensures TotalBytes(entries[id := entries[id].(lastAccess := now)]) == TotalBytes(entries)
    {
      var touched := entries[id := entries[id].(lastAccess := now)];
      TotalWithout(entries, id);
      TotalWithout(touched, id);
      assert touched - {id} == entries - {id};
    }

    /** `writeOk` and `dbOk` say whether writing the file and saving the row succeed. A failed row
        is not reported: the shard is then on disk under the old row, or under none. */
    method Put(videoID: string, data: seq<byte>, now: int, writeOk: bool, dbOk: bool)
      returns (path: Option<string>, ghost evicted: seq<string>)
      requires Valid()
      modifies this
      ensures Valid()
      ensures !writeOk ==> path == None && evicted == [] && entries == old(entries) && files == old(files) && puts == old(puts)
      ensures writeOk ==>
        var saved := if dbOk then old(entries)[videoID := Entry(PathOf(videoID), |data|, now)] else old(entries);
        && path == Some(PathOf(videoID))
        && puts == old(puts)[videoID := data]
        && ShortestOldestPrefix(saved, evicted, maxBytes)
        && entries == Without(saved, evicted)
        && files == old(files)[PathOf(videoID) := data] - PathsOf(evicted)
        && (videoID !in evicted ==> PathOf(videoID) in files && files[PathOf(videoID)] == data)
    {
      evicted := [];
      if !writeOk {
        return None, [];
      }
      var destPath := PathOf(videoID);
      hide PathOf, TotalBytes, Without, OldestPrefix, DiskAgrees, PathsOf;
      DiskAfterPut(files, puts, videoID, data);
      files := files[destPath := data];
      puts := puts[videoID := data];
      if dbOk {
        entries := entries[videoID := Entry(destPath, |data|, now)];
      }
      evicted := EvictIfNeeded();
      NotEvicted(evicted, videoID);
      return Some(destPath), evicted;
    }

    ghost function PathsOf(ids: seq<string>): set<string> {
      set id | id in ids :: PathOf(id)
    }

    /** The table and the disk after removing ids one by one. */
    ghost predicate Removed(start: Entries, startFiles: map<string, seq<byte>>, ids: seq<string>,
                            entries: Entries, files: map<string, seq<byte>>, puts: map<string, seq<byte>>)
    {
      && RowsAgree(entries) && DiskAgrees(files, puts)
      && entries == Without(start, ids) && files == startFiles - PathsOf(ids)
    }

    lemma RemoveNext(start: Entries, startFiles: map<string, seq<byte>>, ids: seq<string>,
                     entries: Entries, files: map<string, seq<byte>>, puts: map<string, seq<byte>>, id: string)
      requires Removed(start, startFiles, ids, entries, files, puts)
      ensures Removed(start, startFiles, ids + [id], entries - {id}, files - {PathOf(id)}, puts)
      ensures TotalBytes(entries - {id}) == TotalBytes(entries) - if id in entries then entries[id].sizeBytes else 0
      ensures id in entries ==> entries[id].filePath == PathOf(id)
    {
      hide PathOf, DiskAgrees, Without, PathsOf, TotalBytes;
      WithoutSnoc(start, ids, id);
      PathsGrow(ids, id);
      RemoveMore(startFiles, PathsOf(ids), PathOf(id));
      DiskAfterRemoval(files, puts, PathOf(id));
      if id in entries {
        TotalWithout(entries, id);
      } else {
        assert entries - {id} == entries;
      }
    }

    lemma RemovedNothing(start: Entries, startFiles: map<string, seq<byte>>, puts: map<string, seq<byte>>)
      requires RowsAgree(start) && DiskAgrees(startFiles, puts)
      ensures Removed(start, startFiles, [], start, startFiles, puts)
    {
      hide PathOf;
      assert Without(start, []) == start;
      assert startFiles - PathsOf([]) == startFiles;
    }

    /** The state of the eviction loop: `evicted` is gone, each of them as the oldest while the total
        was still too high, and `total` is the true sum of what is left. */
    ghost predicate Evicting(start: Entries, startFiles: map<string, seq<byte>>, evicted: seq<string>, total: nat,
                             entries: Entries, files: map<string, seq<byte>>, puts: map<string, seq<byte>>)
    {
      && Removed(start, startFiles, evicted, entries, files, puts)
      && OldestPrefix(start, evicted, maxBytes)
      && total == TotalBytes(entries)
    }

    lemma EvictingStep(start: Entries, startFiles: map<string, seq<byte>>, evicted: seq<string>, total: nat,
                       entries: Entries, files: map<string, seq<byte>>, puts: map<string, seq<byte>>, id: string)
      requires Evicting(start, startFiles, evicted, total, entries, files, puts)
      requires total > maxBytes && IsOldest(entries, id)
      ensures id in entries && entries[id].sizeBytes <= total
      ensures Evicting(start, startFiles, evicted + [id], total - entries[id].sizeBytes,
                       entries - {id}, files - {entries[id].filePath}, puts)
    {
      RemovedMeans(start, startFiles, evicted, entries, files, puts);
      OldestIn(entries, id);
      hide IsOldest, OldestPrefix, TotalBytes, Without, PathOf, PathsOf, Removed;
      OldestPrefixGrows(start, evicted, maxBytes, id);
      RemoveNext(start, startFiles, evicted, entries, files, puts, id);
    }

    lemma EvictingStart(entries: Entries, files: map<string, seq<byte>>, puts: map<string, seq<byte>>)
      requires RowsAgree(entries) && DiskAgrees(files, puts)
      ensures Evicting(entries, files, [], TotalBytes(entries), entries, files, puts)
    {
      hide RowsAgree, DiskAgrees, TotalBytes, Removed;
      RemovedNothing(entries, files, puts);
      NothingEvicted(entries, maxBytes);
    }

    lemma EvictingEnd(start: Entries, startFiles: map<string, seq<byte>>, evicted: seq<string>, total: nat,
                      entries: Entries, files: map<string, seq<byte>>, puts: map<string, seq<byte>>)
      requires Evicting(start, startFiles, evicted, total, entries, files, puts)
      requires total <= maxBytes || entries == map[]
      ensures RowsAgree(entries) && DiskAgrees(files, puts) && TotalBytes(entries) <= maxBytes
      ensures ShortestOldestPrefix(start, evicted, maxBytes) && entries == Without(start, evicted)
      ensures files == startFiles - PathsOf(evicted)
    {
      assert TotalBytes(map[]) == 0;
      hide TotalBytes, Without, PathOf, OldestPrefix, DiskAgrees, RowsAgree, Removed;
      RemovedMeans(start, startFiles, evicted, entries, files, puts);
    }

    method EvictIfNeeded() returns (ghost evicted: seq<string>)
      requires RowsAgree(entries) && DiskAgrees(files, puts)
      modifies this`entries, this`files
      ensures Valid()
      ensures ShortestOldestPrefix(old(entries), evicted, maxBytes) && entries == Without(old(entries), evicted)
      ensures files == old(files) - PathsOf(evicted)
    {
      hide IsOldest, TotalBytes, Without, PathsOf, DiskAgrees, RowsAgree, ShortestOldestPrefix, Evicting;
      evicted := [];
      EvictingStart(entries, files, puts);
      var totalBytes: nat := Stats();
      while totalBytes > maxBytes
        invariant Evicting(old(entries), old(files), evicted, totalBytes, entries, files, puts)
        decreases |entries|
      {
        if entries == map[] {
          break;
        }
        var id := OldestCacheEntry();
        EvictingStep(old(entries), old(files), evicted, totalBytes, entries, files, puts, id);
        evicted := evicted + [id];
        files := files - {entries[id].filePath};
        totalBytes := totalBytes - entries[id].sizeBytes;
        entries := entries - {id};
      }
      EvictingEnd(old(entries), old(files), evicted, totalBytes, entries, files, puts);
    }

    lemma RemovedMeans(start: Entries, startFiles: map<string, seq<byte>>, ids: seq<string>,
                       entries: Entries, files: map<string, seq<byte>>, puts: map<string, seq<byte>>)
      requires Removed(start, startFiles, ids, entries, files, puts)
      ensures RowsAgree(entries) && DiskAgrees(files, puts)
      ensures entries == Without(start, ids) && files == startFiles - PathsOf(ids)
      ensures OldestPrefix(start, ids, maxBytes) && TotalBytes(entries) <= maxBytes ==> ShortestOldestPrefix(start, ids, maxBytes)
    {
    }

    lemma NotEvicted(ids: seq<string>, id: string)
      ensures PathOf(id) in PathsOf(ids) <==> id in ids
    {
      hide PathOf;
      if PathOf(id) in PathsOf(ids) {
        var other :| other in ids && PathOf(other) == PathOf(id);
        PathInjective(other, id);
      }
    }

    lemma PathsGrow(ids: seq<string>, id: string)
      ensures PathsOf(ids + [id]) == PathsOf(ids) + {PathOf(id)}
    {
      hide PathOf;
      forall other | other in ids ensures other in ids + [id] {
      }
      assert id in ids + [id];
    }

    lemma NothingEvicted(entries: Entries, limit: nat)
      ensures OldestPrefix(entries, [], limit)
    {
    }

    lemma OldestIn(entries: Entries, id: string)
      requires IsOldest(entries, id)
      ensures id in entries
    {
    }

    method Stats() returns (totalBytes: nat)
      ensures totalBytes == TotalBytes(entries)
    {
      totalBytes := 0;
      var rest := entries;
      while rest != map[]
        invariant totalBytes + TotalBytes(rest) == TotalBytes(entries)
        decreases |rest|
      {
        var id :| id in rest;
        TotalWithout(rest, id);
        totalBytes := totalBytes + rest[id].sizeBytes;
        rest := rest - {id};
      }
    }

    method OldestCacheEntry() returns (id: string)
      requires entries != map[]
      ensures IsOldest(entries, id)
    {
      OldestExists(entries);
      id :| id in entries && forall other :: other in entries ==> entries[id].lastAccess <= entries[other].lastAccess;
    }

    /** Removes all shards of a file; `shards` is the answer of the shards table, None an error. */
    method Evict(shards: Option<seq<string>>) returns (ok: bool)
      requires Valid()
      modifies this`entries, this`files
      ensures Valid() && ok == shards.Some?
      ensures !ok ==> entries == old(entries) && files == old(files)
      ensures ok ==> entries == Without(old(entries), shards.value)
      ensures ok ==> files == old(files) - PathsOf(shards.value)
    {
      if shards.None? {
        return false;
      }
      RemovedNothing(entries, files, puts);
      hide PathOf, DiskAgrees, RowsAgree, Without, PathsOf, TotalBytes;
      assert shards.value[..0] == [];
      for i := 0 to |shards.value|
        invariant TotalBytes(entries) <= maxBytes
        invariant Removed(old(entries), old(files), shards.value[..i], entries, files, puts)
      {
        var id := shards.value[i];
        assert shards.value[..i + 1] == shards.value[..i] + [id];
        RemoveNext(old(entries), old(files), shards.value[..i], entries, files, puts, id);
        files := files - {PathOf(id)};
        entries := entries - {id};
      }
      assert shards.value[..|shards.value|] == shards.value;
      return true;
    }

    /** Someone else deletes a file of the cache directory: later lookups miss, nothing else changes. */
    method RemovedOutside(path: string)
      requires Valid()
      modifies this`files
      ensures Valid() && files == old(files) - {path}
    {
      DiskAfterRemoval(files, puts, path);
      files := files - {path};
    }
  }

  // ------------------------------------------------------------------ runs of the cache

  /** Lookups, stores and removals in the order they happen; Lose is a file deleted by someone else. */
  datatype Op =
    | Lookup(id: string, now: int)
    | Store(id: string, data: seq<byte>, now: int, writeOk: bool, dbOk: bool)
    | Remove(shards: Option<seq<string>>)
    | Lose(path: string)

  /** A plain map that is only ever stored into. */
  function PlainMap(start: map<string, seq<byte>>, ops: seq<Op>): map<string, seq<byte>> {
    if ops == [] then start else Stored(PlainMap(start, ops[..|ops| - 1]), ops[|ops| - 1])
  }

  /** The table, and the paths that have a file. */
  datatype Held = Held(entries: Entries, files: set<string>)

  function PathsIn(dir: string, ids: seq<string>): set<string> {
    set id | id in ids :: ShardPath(dir, id)
  }

  /** The table once a store has saved its row, before it evicts. */
  function Saved(dir: string, entries: Entries, op: Op): Entries
    requires op.Store?
  {
    if op.dbOk then entries[op.id := Entry(ShardPath(dir, op.id), |op.data|, op.now)] else entries
  }

  /** What is held after an operation that evicted the given ids: a lookup touches its row, or drops
      it if its file is gone; a store adds what it saves; what is evicted, removed or lost is gone. */
  function Holds(dir: string, held: Held, op: Op, evicted: seq<string>): Held {
    match op
    case Lookup(id, now) =>
      if id in held.entries && ShardPath(dir, id) in held.files
      then held.(entries := held.entries[id := held.entries[id].(lastAccess := now)])
      else held.(entries := held.entries - {id})
    case Store(id, _, _, writeOk, _) =>
      if !writeOk then held
      else Held(Without(Saved(dir, held.entries, op), evicted), held.files + {ShardPath(dir, id)} - PathsIn(dir, evicted))
    case Remove(None) => held
    case Remove(Some(shards)) => Held(Without(held.entries, shards), held.files - PathsIn(dir, shards))
    case Lose(path) => held.(files := held.files - {path})
  }

  /** Only a store evicts, and no more than it takes, oldest first. */
  ghost predicate Evicts(dir: string, held: Held, op: Op, limit: nat, evicted: seq<string>) {
    if op.Store? && op.writeOk then ShortestOldestPrefix(Saved(dir, held.entries, op), evicted, limit) else evicted == []
  }

  function HoldsAfter(dir: string, start: Held, ops: seq<Op>, evicted: seq<seq<string>>): Held
    requires |evicted| == |ops|
  {
    if ops == [] then start
    else
      var n := |ops| - 1;
      Holds(dir, HoldsAfter(dir, start, ops[..n], evicted[..n]), ops[n], evicted[n])
  }

  /** Operation k, with what is held by then, answers and evicts as one operation does. */
  ghost predicate Agrees(dir: string, limit: nat, start: map<string, seq<byte>>, held: Held, ops: seq<Op>,
                         evicted: seq<seq<string>>, k: nat, answer: Option<seq<byte>>)
    requires k < |ops| == |evicted|
  {
    Answers(dir, limit, PlainMap(start, ops[..k]), HoldsAfter(dir, held, ops[..k], evicted[..k]), ops[k], evicted[k], answer)
  }

  /** Over every sequence of operations a lookup hits exactly if the row of its id was saved and
      neither evicted nor removed nor dropped, and its file not lost; a hit yields the bytes of the
      last store for its id, as a plain map does; and only stores evict, oldest rows first and no
      more than brings the sizes below the bound. */
  method RunCache(cache: CacheManager, ops: seq<Op>) returns (answers: seq<Option<seq<byte>>>, ghost evicted: seq<seq<string>>)
    requires cache.Valid()
    modifies cache
    ensures cache.Valid() && |answers| == |evicted| == |ops|
    ensures forall k :: 0 <= k < |ops| ==>
      Agrees(cache.cacheDir, cache.maxBytes, old(cache.puts), old(HeldBy(cache)), ops, evicted, k, answers[k])
  {
    hide CacheManager.Valid, Agrees, PlainMap, HoldsAfter, HeldBy;
    answers, evicted := [], [];
    ghost var dir, limit, start, held := cache.cacheDir, cache.maxBytes, cache.puts, HeldBy(cache);
    RunStarts(dir, start, held, ops);
    for k := 0 to |ops|
      invariant cache.Valid() && |answers| == |evicted| == k
      invariant RunsSoFar(dir, start, held, ops, evicted, cache.puts, HeldBy(cache))
      invariant forall j :: 0 <= j < k ==> Agrees(dir, limit, start, held, ops[..k], evicted, j, answers[j])
    {
      ghost var puts, now := cache.puts, HeldBy(cache);
      var answer; ghost var gone;
      answer, gone := Perform(cache, ops[k]);
      hide RunsSoFar;
      RunGoesOn(dir, limit, start, held, ops, evicted, puts, now, gone, answer, answers, cache.puts, HeldBy(cache));
      answers, evicted := answers + [answer], evicted + [gone];
    }
    assert ops[..|ops|] == ops;
  }

  ghost function HeldBy(cache: CacheManager): Held
    reads cache
  {
    Held(cache.entries, cache.files.Keys)
  }

  ghost predicate RunsSoFar(dir: string, start: map<string, seq<byte>>, held: Held, ops: seq<Op>, evicted: seq<seq<string>>,
                            puts: map<string, seq<byte>>, now: Held)
  {
    && |evicted| <= |ops|
    && puts == PlainMap(start, ops[..|evicted|])
    && now == HoldsAfter(dir, held, ops[..|evicted|], evicted)
  }

  lemma RunStarts(dir: string, start: map<string, seq<byte>>, held: Held, ops: seq<Op>)
    ensures RunsSoFar(dir, start, held, ops, [], start, held)
  {
    assert ops[..0] == [];
  }

  lemma AgreesLonger(dir: string, limit: nat, start: map<string, seq<byte>>, held: Held, ops: seq<Op>, evicted: seq<seq<string>>,
                     op: Op, gone: seq<string>, k: nat, answer: Option<seq<byte>>)
    requires k < |ops| == |evicted| && Agrees(dir, limit, start, held, ops, evicted, k, answer)
    ensures Agrees(dir, limit, start, held, ops + [op], evicted + [gone], k, answer)
  {
    assert (ops + [op])[..k] == ops[..k] && (evicted + [gone])[..k] == evicted[..k];
  }

  lemma RunGoesOn(dir: string, limit: nat, start: map<string, seq<byte>>, held: Held, ops: seq<Op>, evicted: seq<seq<string>>,
                  puts: map<string, seq<byte>>, now: Held, gone: seq<string>, answer: Option<seq<byte>>,
                  answers: seq<Option<seq<byte>>>, puts': map<string, seq<byte>>, now': Held)
    requires |answers| == |evicted| < |ops| && RunsSoFar(dir, start, held, ops, evicted, puts, now)
    requires forall j :: 0 <= j < |answers| ==> Agrees(dir, limit, start, held, ops[..|evicted|], evicted, j, answers[j])
    requires Answers(dir, limit, puts, now, ops[|evicted|], gone, answer)
    requires puts' == Stored(puts, ops[|evicted|]) && now' == Holds(dir, now, ops[|evicted|], gone)
    ensures RunsSoFar(dir, start, held, ops, evicted + [gone], puts', now')
    ensures forall j :: 0 <= j <= |answers| ==>
      Agrees(dir, limit, start, held, ops[..|evicted| + 1], evicted + [gone], j, (answers + [answer])[j])
  {
    var k, op := |evicted|, ops[|evicted|];
    var before, all := ops[..k], ops[..k + 1];
    assert all == before + [op] && all[..k] == before && all[k] == op;
    assert (evicted + [gone])[..k] == evicted && (evicted + [gone])[k] == gone;
    assert evicted[..k] == evicted && all[..k] == ops[..k];
    hide Holds, Stored;
    forall j | 0 <= j < k ensures Agrees(dir, limit, start, held, all, evicted + [gone], j, (answers + [answer])[j]) {
      AgreesLonger(dir, limit, start, held, before, evicted, op, gone, j, answers[j]);
    }
  }

  function Stored(puts: map<string, seq<byte>>, op: Op): map<string, seq<byte>> {
    match op
    case Store(id, data, _, true, _) => puts[id := data]
    case _ => puts
  }

  /** An operation answers exactly if it looks up an id whose row and file are held, and then with
      what the plain map has for it. */
  ghost predicate Answers(dir: string, limit: nat, puts: map<string, seq<byte>>, held: Held, op: Op, evicted: seq<string>,
                          answer: Option<seq<byte>>)
  {
    && (answer.Some? <==> op.Lookup? && op.id in held.entries && ShardPath(dir, op.id) in held.files)
    && (answer.Some? ==> op.id in puts && answer.value == puts[op.id])
    && Evicts(dir, held, op, limit, evicted)
  }

  method Perform(cache: CacheManager, op: Op) returns (answer: Option<seq<byte>>, ghost evicted: seq<string>)
    requires cache.Valid()
    modifies cache
    ensures cache.Valid()
    ensures Answers(cache.cacheDir, cache.maxBytes, old(cache.puts), old(HeldBy(cache)), op, evicted, answer)
    ensures cache.puts == Stored(old(cache.puts), op)
    ensures HeldBy(cache) == Holds(cache.cacheDir, old(HeldBy(cache)), op, evicted)
  {
    hide TotalBytes, ShortestOldestPrefix, CacheManager.Valid, ShardPath;
    answer, evicted := None, [];
    match op {
      case Lookup(id, now) =>
        var path := cache.Get(id, now);
        if path.Some? {
          answer := Some(cache.files[path.value]);
        }
      case Store(id, data, now, writeOk, dbOk) =>
        var _, gone := cache.Put(id, data, now, writeOk, dbOk);
        evicted := gone;
      case Remove(shards) =>
        var _ := cache.Evict(shards);
      case Lose(path) =>
        cache.RemovedOutside(path);
    }
  }
}
