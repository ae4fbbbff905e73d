# find-unused-deps, modelled in Dafny

`find-unused-deps` reports, for every dependency in a JavaScript project's
`package.json`, the number of source files that mention it. The tool works in
four steps:

- It seeds a counter at 0 for every key of the manifest's `dependencies`
  object.
- It walks the project directory and keeps the entries that are:
  - not inside the `node_modules`, `dist` or `.next` directories directly
    beneath the project root (such a directory deeper down is scanned);
  - end in `.js`, `.jsx`, `.ts` or `.tsx`;
  - do not match the declaration pattern `(\.d.ts)$`.
- It reads each kept file. A file that cannot be read is silently skipped.
  For every dependency, the counter gains 1 when at least one line of the
  file (lines are split at `'\n'`) contains the dependency's name as a
  substring. It also advances a progress bar by one.
- It prints the table of counts, where a count of 0 marks an unused
  dependency.

The model has six modules:

- `Files` holds the inputs that come from the file system. A walk entry is its
  list of path components below the project root, plus the outcome of reading
  it: `Read(contents)` or `ReadFailed`. A directory under the root is also an
  entry of the walk, and reading it fails.
- `Discovery` is the candidate filter:
  - the path string is built the way `PathBuf::push` builds it;
  - each suffix pattern is a predicate;
  - an exclusion is a component-wise prefix test, the way `Path::starts_with`
    does it.
- `Matcher` is the usage test:
  - splitting at `'\n'`;
  - substring search;
  - the filter over the lines.

  It proves that a file uses a name exactly when the name holds no newline
  and occurs in the file.
- `Counting` holds the specification functions for the whole scan. The final
  counter of a dependency is the number of files that use it, and the progress
  is the number of read files times the number of dependencies. The module
  also holds the lemmas about them: bounds, order independence, and the
  one-file-at-a-time step.
- `Scan` is the imperative part:
  - the `Registry` class, which holds the count map and the progress position;
  - its seeding constructor and per-file method;
  - the loop over the files;
  - `Run`, which chains discovery and scanning.
- `Scenarios` holds concrete walks with the counts they produce.

## Model

| member | source | states |
|---|---|---|
| Scan.Registry.constructor | src/main.rs:55-58 | the counters' keys are exactly the manifest's dependency names; every counter starts at 0, and so does progress |
| Scan.Registry.ScanFile | src/main.rs:89-109 | a failed read changes nothing. Otherwise every counter gains `Hit(f, d)` (0 or 1), and progress rises by the number of dependencies; the key set is unchanged |
| Scan.ScanFiles | src/main.rs:81-110 | after all files, each counter equals the number of files that use its dependency, the keys are the manifest's, and progress equals read files × dependencies |
| Scan.ScanCandidates | src/main.rs:74-110 | as `ScanFiles` over the entries' outcomes: the counts are the expected counts and the progress is exactly one unit per (read entry, dependency) pair. The progress total is entries × dependencies. Every count is at most the number of entries. Progress is at most the total, and reaches it exactly when there are no dependencies or every entry was read |
| Scan.Run | src/main.rs:62-110 | the counts are the expected counts, and the progress the exact progress value, of the filtered walk's outcomes; the total is the number of candidates × the number of dependencies, progress stays within it and reaches it exactly when there are no dependencies or every candidate was read |
| Scan.Outcomes | src/main.rs:81-92 | one read outcome per entry, and every entry's outcome is among them |
| Scan.OutcomesPermutation | src/main.rs:65-73 | reordering the walk only reorders the read outcomes |
| Scan.OutcomesConcat | src/main.rs:81-84 | the outcomes of two entry lists laid end to end are the two outcome lists laid end to end |
| Scan.ProgressBoundOnEntries | src/main.rs:74-77 | over the candidates, progress ≤ entries × dependencies, with equality exactly when there are no dependencies or every entry was read |
| Scan.WalkOrderIrrelevant | src/main.rs:65-84 | two walks holding the same entries in any order give the same number of candidates, the same count for every name, and the same number of read files |
| Discovery.Push | src/main.rs:65-72 | the walk's path strings, `PathBuf::push`: a '/' goes between base and name unless the base is empty or ends in '/'; `PushShape` states its shape |
| Discovery.PushShape | src/main.rs:65-72 | a pushed path starts with the base and ends with the name |
| Discovery.FullPath | src/main.rs:65-72 | the path string of a walk entry, the root pushed with each component in turn; `FullPathShape` states its shape |
| Discovery.FullPathShape | src/main.rs:65-72 | an entry's path string starts with the root and ends with the entry's own file name |
| Discovery.HasSourceExtension | src/main.rs:63 | the pattern `(\.jsx?\|\.tsx?)$` as a suffix test on `.js`, `.jsx`, `.ts`, `.tsx`; its consequence on the declaration pattern is `DeclarationPatternOnSourcePaths` |
| Discovery.MatchesDeclarationPattern | src/main.rs:64 | the pattern `(\.d.ts)$`, with its unescaped '.' matching any character but `'\n'`; characterised by `DeclarationPatternOnSourcePaths` and `DeclarationPatternWildcard` |
| Discovery.Below | src/main.rs:68-70 | `Path::starts_with(root/dir)`: the first component below the root is `dir`; characterised on path strings by `BelowAsString` |
| Discovery.Excluded | src/main.rs:68-70 | an entry is excluded exactly when its first component below the root is one of `node_modules`, `dist`, `.next` |
| Discovery.Selected | src/main.rs:68-72 | the five filters in the source's order; characterised by `SelectionRejectsLiteralDts`, and tied to the candidate list by `CandidatesSelected` and `CandidatesMultiset` |
| Discovery.Candidates | src/main.rs:65-73 | the result is no longer than the walk |
| Discovery.CandidatesCons | src/main.rs:65-73 | the filter takes the walk one entry at a time, keeping the first entry exactly when it is selected |
| Discovery.CandidatesSelected | src/main.rs:65-73 | every kept entry is from the walk and passes all five filters |
| Discovery.CandidatesMultiset | src/main.rs:65-73 | an entry occurs among the candidates as often as in the walk when it passes the filters, and never otherwise |
| Discovery.ExcludedNeverCandidate | src/main.rs:68-70 | no entry under `node_modules`, `dist` or `.next` is ever a candidate |
| Discovery.BelowAsString | src/main.rs:68-70 | for well-formed component names, the component-wise test equals "the relative path is the directory, or begins with the directory and '/'" |
| Discovery.DeclarationPatternOnSourcePaths | src/main.rs:63-64 | on a path that ends in a source extension, the declaration pattern matches exactly when the path ends in the literal `.d.ts` |
| Discovery.SelectionRejectsLiteralDts | src/main.rs:68-72 | an entry is selected exactly when it is not excluded, has a source extension and does not end in `.d.ts` |
| Discovery.DeclarationPatternWildcard | src/main.rs:64 | the unescaped '.' in the pattern matches `a.dxts` but not a newline; such a path has no source extension anyway |
| Matcher.FirstNewline | src/main.rs:99 | the result is the index of the first `'\n'`, or the length when there is none |
| Matcher.Split | src/main.rs:99 | there is at least one piece, and no piece holds a `'\n'` |
| Matcher.JoinSplit | src/main.rs:99 | joining the pieces with `'\n'` gives back the contents |
| Matcher.SplitJoin | src/main.rs:99 | splitting newline-free lines joined with `'\n'` gives back the lines |
| Matcher.SplitCons | src/main.rs:99 | splitting a newline-free head, `'\n'` and a rest gives the head followed by the rest's pieces |
| Matcher.Contains | src/main.rs:101 | `str::contains`: a contained pattern is no longer than the string, and the empty pattern is always contained; `ContainsIffOccurs` characterises it |
| Matcher.ContainsIffOccurs | src/main.rs:101 | `contains` holds exactly when the pattern occurs at some offset; the empty pattern is in every string |
| Matcher.ContainsAcrossNewline | src/main.rs:99-101 | a newline-free pattern is in `a + "\n" + b` exactly when it is in `a` or in `b` |
| Matcher.ContainsKeepsCharacters | src/main.rs:101 | every character of a contained pattern is in the string |
| Matcher.MatchingLines | src/main.rs:100-103 | the kept lines are lines of the input containing the name, in no greater number, and the result is non-empty exactly when some line contains the name |
| Matcher.Uses | src/main.rs:99-105 | the counter test: a file uses a name exactly when some line of its split contents contains the name |
| Matcher.UsesIffContains | src/main.rs:99-105 | a file uses a name exactly when the name has no `'\n'` and the whole contents contain it |
| Matcher.RepeatedLineMatchesTwice | src/main.rs:100-105 | a line repeated twice gives two matching lines but one use |
| Matcher.ManyMatchingLinesOneUse | src/main.rs:100-105 | `import x` on two lines: two matching lines, the counter test holds |
| Counting.Hit | src/main.rs:92-105 | a file adds at most 1, and adds 1 exactly when it was read, the name has no newline and the contents contain the name |
| Counting.AddFile | src/main.rs:98-105 | adding one file keeps the key set, raises each counter by 0 or 1, and leaves the map as it was for a failed read |
| Counting.Expected | src/main.rs:55-58 | the key set of the expected counts is the dependency set |
| Counting.ExpectedInitially | src/main.rs:55-58 | counters with the dependency keys, all at 0, are the expected counts of no files |
| Counting.ExpectedSnoc | src/main.rs:84-105 | adding one more file to the expected counts of a list gives the expected counts of the longer list |
| Counting.ExpectedBound | src/main.rs:92-105 | every expected count is at most the number of read files, which is at most the number of files |
| Counting.CountIf | src/main.rs:81-105 | the number of files passing a test is at most the number of files |
| Counting.UsedBy | src/main.rs:105 | `Hit` as a test on files: the per-file condition for a counter to gain 1 |
| Counting.UsesCount | src/main.rs:98-105 | a dependency's final counter, the number of files that use it, is at most the number of files |
| Counting.ReadCount | src/main.rs:92-94 | the number of files read successfully is at most the number of files |
| Counting.Progress | src/main.rs:108 | the progress, one unit per (read file, dependency) pair, is at most dependencies × files |
| Counting.UsesCountBound | src/main.rs:92-105 | a dependency's count is at most the number of read files, which is at most the number of files |
| Counting.UsesCountZero | src/main.rs:105 | a count is 0 exactly when no file uses the dependency |
| Counting.UsesCountSnoc | src/main.rs:105 | one more file raises a count by that file's hit |
| Counting.UsesCountPermutation | src/main.rs:81-84 | the same files in another order give the same counts and the same number of read files |
| Counting.CountIfAppend | src/main.rs:81-84 | the count over two lists laid end to end is the sum of the counts |
| Counting.CountIfSnoc | src/main.rs:81-84 | one more file adds its own weight to the count |
| Counting.CountIfRemove | src/main.rs:81-84 | taking one file out of a list takes its weight out of the count |
| Counting.CountIfPermutation | src/main.rs:81-84 | the count of files satisfying a test does not depend on their order |
| Counting.CountIfAtMost | src/main.rs:105 | a test implied by another counts at least as many files, and no count exceeds the list's length |
| Counting.CountIfZero | src/main.rs:105 | a count is 0 exactly when no file passes the test |
| Counting.CountIfAll | src/main.rs:92-94 | a count equals the number of files exactly when every file passes the test |
| Counting.ProgressSnoc | src/main.rs:92-108 | one more file adds the number of dependencies to the progress when it was read, and nothing otherwise |
| Counting.ProgressBound | src/main.rs:74-108 | progress ≤ files × dependencies, with equality exactly when there are no dependencies or no read failed |
| Counting.ScaleBelow | src/main.rs:77 | arithmetic helper of `ProgressBound`: `r ≤ n` gives `d·r ≤ d·n`, with equality exactly when `d` is 0 or `r = n` |
| Scenarios.ScenarioLineMatches | src/main.rs:101 | the line `import "left-pad"` contains `left-pad` and does not contain `axios` |
| Scenarios.RootDropped | src/main.rs:71 | the project root itself has no source extension, so it is not a candidate |
| Scenarios.ManifestDropped | src/main.rs:71 | `package.json` has no source extension, so it is not a candidate |
| Scenarios.ScriptKept | src/main.rs:68-72 | `a.js` and `b.js` directly beneath the root are candidates |
| Scenarios.ScenarioCandidates | src/main.rs:65-73 | in the walk root, `package.json`, `a.js`, `b.js`, the root and the manifest are dropped and both scripts are kept in order |
| Scenarios.ScenarioFiles | src/main.rs:65-73 | the outcomes of that walk's candidates are the two files' contents |
| Scenarios.ScenarioCounts | src/main.rs:98-105 | over a file that uses one name and an empty file, the used name counts 1 and the other 0 |
| Scenarios.TwoFileCounts | src/main.rs:65-105 | over the filtered walk, the used name counts 1 and the other 0 |
| Scenarios.TwoFileScenario | src/main.rs:49-105 | a manifest declaring `left-pad` and `axios`, and a walk of the root, `package.json`, a file importing `left-pad` and an empty file: the expected counts, which `Run` ends with, are `left-pad` 1 and `axios` 0, so `axios` is reported unused |
| Scenarios.ExpectedScenario | src/main.rs:55-105 | over the dependency set `left-pad`, `axios`, the expected counts map is read off the two counts |
| Scenarios.ExcludedDirectoryScenario | src/main.rs:69 | a file under `dist` gives no candidate, so its import is not counted |

## Left out

- Command-line parsing, the project-directory check, and reading and decoding
  `package.json` are out of the model. The scan takes the manifest's
  `dependencies` map as a parameter, and its version strings are ignored.
- The directory walk is a parameter: a list of entries, each with its path
  components and the outcome of reading it. Walk errors, which the source
  unwraps into a panic, are not modelled.
- Entries are taken to be component-normalised. The model has no `.` or
  `..` components and no repeated `/`, which is what lets the exclusion test
  compare the first component below the root.
- The following panics are not modelled:
  - `File::open(path).unwrap()` on a candidate that cannot be opened;
  - `to_str().unwrap()` on a path that is not valid UTF-8.

  A failed open is modelled as a failed read.
- UTF-8 decoding of file contents is out of the model. A read yields a string,
  or fails, and either way it is one outcome.
- The second `read_to_string` on the same handle is out of the model. It runs
  at end of file, appends nothing, and its `unwrap` is not modelled.
- The regular-expression engine is out of the model. Both patterns are
  written as suffix predicates, including the unescaped `.` in `(\.d.ts)$`,
  which matches any character except `'\n'`.
- Parallelism (rayon) and the `Mutex` are out of the model. Files are scanned
  one at a time in walk order, and order independence is proved separately.
  The source holds the lock for a file's whole pass over the counters, so
  each file's pass is atomic, as in the model.
- Scan.Registry.ScanFile: does not model the 32-bit `i32` counter or its
  overflow. Counters are unbounded naturals, and a count can only reach the
  number of files anyway.
- Scan.ScanCandidates: does not model the `usize` product `num_files × deps`,
  nor its conversion to `u64`. Both are unbounded.
- Progress-bar rendering and the `"done"` message are out of the model.
  Progress is a counter that rises by one per `inc(1)`.
- The printed table is out of the model. Its content is the final count map,
  and a count of 0 is what marks a dependency as unused.
