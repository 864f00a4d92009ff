/** Ties in the cache's eviction order (nexus-daemon/cache.go, db.go): time stamps have whole seconds,
    and of several oldest rows the query may answer any. When the choice shows, exactly. */
module EvictionOrder {
  import opened ShardCache

  // ------------------------------------------------------------------ evictions of a table

  function NotOlder(entries: Entries, t: int): Entries {
    map id | id in entries && entries[id].lastAccess >= t :: entries[id]
  }

  ghost predicate Part(a: Entries, b: Entries) {
    forall id :: id in a ==> id in b && b[id] == a[id]
  }

  lemma {:induction false} TotalOfPart(a: Entries, b: Entries)
    requires Part(a, b)
    ensures TotalBytes(a) <= TotalBytes(b)
    decreases |a|
  {
    if a != map[] {
      var id :| id in a;
      TotalWithout(a, id);
      TotalWithout(b, id);
      TotalOfPart(a - {id}, b - {id});
    }
  }

  // Removing the oldest row first and then others.
  lemma PrefixCons(entries: Entries, id: string, later: seq<string>, limit: nat)
    requires IsOldest(entries, id) && TotalBytes(entries) > limit && OldestPrefix(entries - {id}, later, limit)
    ensures OldestPrefix(entries, [id] + later, limit)
    ensures Without(entries, [id] + later) == Without(entries - {id}, later)
  {
    var all := [id] + later;
    WithoutCons(entries, id, later);
    assert Without(entries, []) == entries;
    forall k | 0 <= k < |all|
      ensures IsOldest(Without(entries, all[..k]), all[k]) && TotalBytes(Without(entries, all[..k])) > limit
    {
      if k == 0 {
        assert all[..0] == [];
      } else {
        assert all[..k] == [id] + later[..k - 1];
        WithoutCons(entries, id, later[..k - 1]);
      }
    }
  }

  lemma WithoutCons(entries: Entries, id: string, later: seq<string>)
    ensures Without(entries, [id] + later) == Without(entries - {id}, later)
  {
  }

  /** All rows that are not newer than any kept row can be evicted first, while what is kept is
      still above the limit. */
  lemma {:induction false} DrainTo(entries: Entries, kept: Entries, limit: nat) returns (evicted: seq<string>)
    requires Part(kept, entries) && TotalBytes(kept) > limit
    requires forall id, other :: id in entries && id !in kept && other in kept ==> entries[id].lastAccess <= kept[other].lastAccess
    ensures OldestPrefix(entries, evicted, limit) && Without(entries, evicted) == kept
    decreases |entries|
  {
    var rest := entries - kept.Keys;
    assert forall id :: id in entries ==> id in kept || id in rest;
    if rest == map[] {
      evicted := [];
      assert Without(entries, evicted) == entries == kept;
    } else {
      OldestExists(rest);
      var id :| IsOldest(rest, id);
      assert forall other :: other in entries ==> other in rest || other in kept;
      TotalOfPart(kept, entries);
      var later := DrainTo(entries - {id}, kept, limit);
      PrefixCons(entries, id, later, limit);
      evicted := [id] + later;
    }
  }

  /** Every eviction that has begun can be completed. */
  lemma {:induction false} Complete(entries: Entries, begun: seq<string>, limit: nat) returns (evicted: seq<string>)
    requires OldestPrefix(entries, begun, limit)
    ensures begun <= evicted && ShortestOldestPrefix(entries, evicted, limit)
    decreases |Without(entries, begun)|
  {
    var left := Without(entries, begun);
    if TotalBytes(left) <= limit {
      evicted := begun;
    } else {
      assert left != map[] by { assert TotalBytes(map[]) == 0; }
      OldestExists(left);
      var id :| IsOldest(left, id);
      OldestPrefixGrows(entries, begun, limit, id);
      evicted := Complete(entries, begun + [id], limit);
    }
  }

  // ------------------------------------------------------------------ when the evicted rows are determined

  /** Where two rows are tied, they and all rows that are not older are empty. */
  ghost predicate TiesEmpty(entries: Entries) {
    forall x, y :: x in entries && y in entries && x != y && entries[x].lastAccess == entries[y].lastAccess ==>
      TotalBytes(NotOlder(entries, entries[x].lastAccess)) == 0
  }

  // While something has to go, only one row can be the oldest.
  lemma OldestUnique(entries: Entries, ids: seq<string>, x: string, y: string)
    requires TiesEmpty(entries) && TotalBytes(Without(entries, ids)) > 0
    requires IsOldest(Without(entries, ids), x) && IsOldest(Without(entries, ids), y)
    ensures x == y
  {
    var left := Without(entries, ids);
    TotalOfPart(left, NotOlder(entries, entries[x].lastAccess));
  }

  lemma {:induction false} SameSteps(entries: Entries, a: seq<string>, b: seq<string>, limit: nat, k: nat)
    requires TiesEmpty(entries) && OldestPrefix(entries, a, limit) && OldestPrefix(entries, b, limit)
    requires k <= |a| && k <= |b|
    ensures a[..k] == b[..k]
  {
    hide TiesEmpty, IsOldest, TotalBytes, Without;
    if k > 0 {
      SameSteps(entries, a, b, limit, k - 1);
      OldestUnique(entries, a[..k - 1], a[k - 1], b[k - 1]);
      assert a[..k] == a[..k - 1] + [a[k - 1]] && b[..k] == b[..k - 1] + [b[k - 1]];
    }
  }

  ghost predicate OneEviction(entries: Entries) {
    forall a, b, limit: nat :: ShortestOldestPrefix(entries, a, limit) && ShortestOldestPrefix(entries, b, limit) ==> a == b
  }

  /** For every limit there is one way to evict, if and only if tied rows and all that are not older
      are empty. Rows with different time stamps in particular are evicted in one way. */
  lemma EvictionUnique(entries: Entries)
    ensures OneEviction(entries) <==> TiesEmpty(entries)
  {
    hide IsOldest, TotalBytes, Without, OldestPrefix;
    if TiesEmpty(entries) {
      forall a, b, limit: nat | ShortestOldestPrefix(entries, a, limit) && ShortestOldestPrefix(entries, b, limit)
        ensures a == b
      {
        StopTogether(entries, a, b, limit);
      }
    } else {
      var x, y :| x in entries && y in entries && x != y && entries[x].lastAccess == entries[y].lastAccess
        && TotalBytes(NotOlder(entries, entries[x].lastAccess)) != 0;
      var a, b, limit := TwoEvictions(entries, x, y);
      assert ShortestOldestPrefix(entries, a, limit) && ShortestOldestPrefix(entries, b, limit) && a != b;
    }
  }

  lemma StopTogether(entries: Entries, a: seq<string>, b: seq<string>, limit: nat)
    requires TiesEmpty(entries)
    requires ShortestOldestPrefix(entries, a, limit) && ShortestOldestPrefix(entries, b, limit)
    ensures a == b
  {
    hide TiesEmpty, IsOldest, TotalBytes, Without;
    var k := if |a| < |b| then |a| else |b|;
    SameSteps(entries, a, b, limit, k);
    assert a[..|a|] == a && b[..|b|] == b;
  }

  lemma TwoEvictions(entries: Entries, x: string, y: string) returns (a: seq<string>, b: seq<string>, limit: nat)
    requires x in entries && y in entries && x != y && entries[x].lastAccess == entries[y].lastAccess
    requires TotalBytes(NotOlder(entries, entries[x].lastAccess)) > 0
    ensures ShortestOldestPrefix(entries, a, limit) && ShortestOldestPrefix(entries, b, limit) && a != b
  {
    var kept := NotOlder(entries, entries[x].lastAccess);
    limit := TotalBytes(kept) - 1;
    var older := DrainTo(entries, kept, limit);
    assert IsOldest(kept, x) && IsOldest(kept, y);
    OldestPrefixGrows(entries, older, limit, x);
    OldestPrefixGrows(entries, older, limit, y);
    a := Complete(entries, older + [x], limit);
    b := Complete(entries, older + [y], limit);
    assert a[|older|] == x && b[|older|] == y;
  }

  // ------------------------------------------------------------------ when their number is determined

  ghost predicate TiesAlike(entries: Entries) {
    forall x, y :: x in entries && y in entries && entries[x].lastAccess == entries[y].lastAccess ==>
      entries[x].sizeBytes == entries[y].sizeBytes
  }

  /** Time stamps and sizes of all rows. */
  ghost function Profile(entries: Entries): multiset<(int, nat)>
    decreases |entries|
  {
    if entries == map[] then multiset{}
    else
      var id :| id in entries;
      multiset{Row(entries, id)} + Profile(entries - {id})
  }

  function Row(entries: Entries, id: string): (int, nat)
    requires id in entries
  {
    (entries[id].lastAccess, entries[id].sizeBytes)
  }

  lemma {:induction false} ProfileWithout(entries: Entries, id: string)
    requires id in entries
    ensures Profile(entries) == multiset{Row(entries, id)} + Profile(entries - {id})
    decreases |entries|
  {
    var first :| first in entries && Profile(entries) == multiset{Row(entries, first)} + Profile(entries - {first});
    if first != id {
      var both := entries - {first} - {id};
      assert both == entries - {id} - {first};
      ProfileWithout(entries - {first}, id);
      ProfileWithout(entries - {id}, first);
      hide Profile;
      Swap(multiset{Row(entries, first)}, multiset{Row(entries, id)}, Profile(both));
    }
  }

  lemma Swap<T>(a: multiset<T>, b: multiset<T>, c: multiset<T>)
    ensures a + (b + c) == b + (a + c)
  {
  }

  lemma {:induction false} RowInProfile(entries: Entries, row: (int, nat))
    requires row in Profile(entries)
    ensures exists id :: id in entries && Row(entries, id) == row
    decreases |entries|
  {
    var first :| first in entries && Profile(entries) == multiset{Row(entries, first)} + Profile(entries - {first});
    if Row(entries, first) != row {
      RowInProfile(entries - {first}, row);
      var id :| id in entries - {first} && Row(entries - {first}, id) == row;
      assert Row(entries, id) == row;
    }
  }

  lemma NotOlderThan(a: Entries, b: Entries, x: string, y: string)
    requires Profile(a) == Profile(b) && IsOldest(a, x) && IsOldest(b, y)
    ensures a[x].lastAccess <= b[y].lastAccess
  {
    ProfileWithout(b, y);
    RowInProfile(a, Row(b, y));
  }

  lemma Cancel<T>(x: T, a: multiset<T>, b: multiset<T>)
    requires multiset{x} + a == multiset{x} + b
    ensures a == b
  {
    assert a == multiset{x} + a - multiset{x};
    assert b == multiset{x} + b - multiset{x};
  }

  // Rows with the same profile lose equal rows and keep the same profile.
  lemma ProfileStep(entries: Entries, a: Entries, b: Entries, x: string, y: string)
    requires TiesAlike(entries) && Part(a, entries) && Part(b, entries)
    requires Profile(a) == Profile(b) && TotalBytes(a) == TotalBytes(b) && IsOldest(a, x) && IsOldest(b, y)
    ensures Profile(a - {x}) == Profile(b - {y}) && TotalBytes(a - {x}) == TotalBytes(b - {y})
  {
    NotOlderThan(a, b, x, y);
    NotOlderThan(b, a, y, x);
    assert Row(a, x) == Row(b, y);
    ProfileWithout(a, x);
    ProfileWithout(b, y);
    TotalWithout(a, x);
    TotalWithout(b, y);
    hide Profile, TotalBytes, IsOldest;
    Cancel(Row(a, x), Profile(a - {x}), Profile(b - {y}));
  }

  lemma {:induction false} AlikeSteps(entries: Entries, a: seq<string>, b: seq<string>, limit: nat, k: nat)
    requires TiesAlike(entries) && OldestPrefix(entries, a, limit) && OldestPrefix(entries, b, limit)
    requires k <= |a| && k <= |b|
    ensures Profile(Without(entries, a[..k])) == Profile(Without(entries, b[..k]))
    ensures TotalBytes(Without(entries, a[..k])) == TotalBytes(Without(entries, b[..k]))
  {
    hide TiesAlike, IsOldest, TotalBytes, Profile;
    if k == 0 {
      assert a[..0] == b[..0];
    } else {
      AlikeSteps(entries, a, b, limit, k - 1);
      ProfileStep(entries, Without(entries, a[..k - 1]), Without(entries, b[..k - 1]), a[k - 1], b[k - 1]);
      assert a[..k] == a[..k - 1] + [a[k - 1]] && b[..k] == b[..k - 1] + [b[k - 1]];
      WithoutSnoc(entries, a[..k - 1], a[k - 1]);
      WithoutSnoc(entries, b[..k - 1], b[k - 1]);
    }
  }

  lemma AlikeLength(entries: Entries, a: seq<string>, b: seq<string>, limit: nat)
    requires TiesAlike(entries)
    requires ShortestOldestPrefix(entries, a, limit) && ShortestOldestPrefix(entries, b, limit)
    ensures |a| == |b|
  {
    hide TiesAlike, IsOldest, TotalBytes, Without, Profile;
    var k := if |a| < |b| then |a| else |b|;
    AlikeSteps(entries, a, b, limit, k);
    assert a[..|a|] == a && b[..|b|] == b;
  }

  // Of two tied rows of different size either may go first; the large one alone suffices.
  lemma OneOrTwo(entries: Entries, x: string, y: string) returns (a: seq<string>, b: seq<string>, limit: nat)
    requires x in entries && y in entries && entries[x].lastAccess == entries[y].lastAccess
    requires entries[x].sizeBytes < entries[y].sizeBytes
    ensures ShortestOldestPrefix(entries, a, limit) && ShortestOldestPrefix(entries, b, limit) && |a| < |b|
  {
    var t := entries[x].lastAccess;
    var newer := NotOlder(entries, t + 1);
    var kept := newer[x := entries[x]][y := entries[y]];
    KeptTotals(newer, x, entries[x], y, entries[y]);
    limit := TotalBytes(newer) + entries[x].sizeBytes;
    var older := DrainTo(entries, kept, limit);
    TwoOldest(newer, x, entries[x], y, entries[y]);
    hide IsOldest, TotalBytes, NotOlder;
    OldestPrefixGrows(entries, older, limit, y);
    OldestPrefixGrows(entries, older, limit, x);
    OldestPrefixGrows(entries, older + [x], limit, y);
    a, b := older + [y], older + [x] + [y];
  }

  lemma TwoOldest(newer: Entries, x: string, ex: Entry, y: string, ey: Entry)
    requires ex.lastAccess == ey.lastAccess && x != y
    requires forall id :: id in newer ==> newer[id].lastAccess >= ex.lastAccess
    ensures var kept := newer[x := ex][y := ey];
      IsOldest(kept, x) && IsOldest(kept, y) && IsOldest(kept - {x}, y)
  {
  }

  lemma KeptTotals(newer: Entries, x: string, ex: Entry, y: string, ey: Entry)
    requires x !in newer && y !in newer && x != y
    ensures var kept := newer[x := ex][y := ey];
      && TotalBytes(kept) == TotalBytes(newer) + ex.sizeBytes + ey.sizeBytes
      && TotalBytes(kept - {x}) == TotalBytes(newer) + ey.sizeBytes
      && TotalBytes(kept - {y}) == TotalBytes(newer) + ex.sizeBytes
      && TotalBytes(kept - {x} - {y}) == TotalBytes(newer)
  {
    var kept := newer[x := ex][y := ey];
    TotalWithout(kept, x);
    TotalWithout(kept - {x}, y);
    TotalWithout(kept, y);
    assert kept - {x} - {y} == newer;
  }

  ghost predicate OneLength(entries: Entries) {
    forall a, b, limit: nat ::
      ShortestOldestPrefix(entries, a, limit) && ShortestOldestPrefix(entries, b, limit) ==> |a| == |b|
  }

  /** For every limit all evictions remove the same number of rows, if and only if tied rows have
      equal sizes. */
  lemma EvictionLengthExact(entries: Entries)
    ensures OneLength(entries) <==> TiesAlike(entries)
  {
    hide IsOldest, TotalBytes, Without, OldestPrefix, ShortestOldestPrefix;
    if TiesAlike(entries) {
      forall a, b, limit: nat | ShortestOldestPrefix(entries, a, limit) && ShortestOldestPrefix(entries, b, limit)
        ensures |a| == |b|
      {
        AlikeLength(entries, a, b, limit);
      }
    } else {
      var x, y :| x in entries && y in entries && entries[x].lastAccess == entries[y].lastAccess
        && entries[x].sizeBytes < entries[y].sizeBytes;
      var a, b, limit := OneOrTwo(entries, x, y);
      assert ShortestOldestPrefix(entries, a, limit) && ShortestOldestPrefix(entries, b, limit) && |a| != |b|;
    }
  }

  /** For instance two rows of one second, of 10 and 101 bytes. */
  lemma TiesChangeEviction()
    ensures !OneLength(map["x" := Entry("", 10, 0), "y" := Entry("", 101, 0)])
  {
    var entries: Entries := map["x" := Entry("", 10, 0), "y" := Entry("", 101, 0)];
    assert entries["x"].lastAccess == entries["y"].lastAccess && entries["x"].sizeBytes != entries["y"].sizeBytes;
    EvictionLengthExact(entries);
  }
}
