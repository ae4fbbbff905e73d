/**
 The values the scan works on: what reading one file produced, and one entry
 of the recursive directory walk below the project root.
 */
module Files {

  /** Outcome of `read_to_string` on a walk entry: the whole text, or a failed
      read (an I/O error, contents that are not UTF-8, or a directory, which
      opens but cannot be read as text). */
  datatype ReadOutcome = Read(contents: string) | ReadFailed

  /** One entry of the walk: the file names leading from the root to it
      (empty for the root itself), and what reading it would produce. */
  datatype WalkEntry = WalkEntry(names: seq<string>, outcome: ReadOutcome)
}
