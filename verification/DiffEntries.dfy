/** The table the git log parsers fill: change type, line counts and patch per commit and file. */
module DiffEntries {

  /** One changed file of one commit. */
  datatype FileDiffEntry = FileDiffEntry(status: string, path: string, additions: int, deletions: int, patch: string)

  /** Commit hash to file path to entry. */
  type Entries = map<string, map<string, FileDiffEntry>>

  /** The commit gets a file map if it has none yet. */
  function WithCommit(entries: Entries, hash: string): Entries {
    if hash in entries then entries else entries[hash := map[]]
  }

  predicate Has(entries: Entries, hash: string, path: string) {
    hash in entries && path in entries[hash]
  }
}
