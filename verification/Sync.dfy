/** What the push and pull of nexus-daemon/sync.go share: database files as SQLite reads them, the
    manifest, and the two files on the remote drive. */
module Sync {
  import opened Bytes

  type Content = seq<byte>
  type Stats = map<string, int>

  /** The library reading of a database file. `open` runs the schema migrations of Database.Init and
      gives the file they leave; the other functions query an opened file. */
  datatype Sqlite = Sqlite(
    open: Content -> Option<Content>,
    hash: Content -> Option<string>,
    stats: Content -> Stats,
    lastModified: Content -> string,
    lsn: Content -> int,
    intact: Content -> bool,
    sha: Content -> string,
    parseDate: string -> Option<int>)

  datatype Manifest = Manifest(lsn: int, logicalHash: string, lastModified: string, stats: Stats, encrypted: bool)

  datatype Remote = Remote(db: Option<Content>, manifest: Option<Manifest>)

  /** A missing entry of a Go map reads as zero. */
  function Count(stats: Stats, key: string): int {
    if key in stats then stats[key] else 0
  }

  /** The copy on a device opens without another migration. */
  predicate IsOpened(sql: Sqlite, local: Content) {
    sql.open(local) == Some(local)
  }

  function LogicalHash(sql: Sqlite, local: Content): string {
    if sql.hash(local).Some? then sql.hash(local).value else ""
  }

  /** The manifest a push writes for a database. */
  function ManifestOf(sql: Sqlite, local: Content): Manifest {
    Manifest(sql.lsn(local), LogicalHash(sql, local), sql.lastModified(local), sql.stats(local), false)
  }
}
