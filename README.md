# duff: a Dafny model of the duplicate-file finder

`duff` finds files with identical content below one or more directories.
It runs in three stages, all in `main.go`:

1. **Scan.** `WalkDir` lists a directory. It drops every file whose size is
   at most `-min-size`. Every other file goes, by absolute path, into a
   shared index from file size to paths (the *size index*). With
   `-recursive`, every subdirectory is walked too. `main` starts one walk
   per root and waits for all of them.
2. **Group.** `main` ranges over the size index. Every bucket with two
   paths or more is hashed path by path into `res`, a map from content
   digest to paths. The first hashing error stops the enumeration.
3. **Report.** `main` ranges over `res`. Every digest with two paths or
   more is a group of identical files. The program counts the groups
   (`nbGroups`) and the files in them (`nbIdentic`).

The model is sequential and imperative, like the code:

- `SizeIndex.Index` is a class whose `buckets` map is updated in place.
- `Scanner.WalkDir`, `Grouper.Group` and `Reporter.Count` are methods with
  the loops of the code.
- Each method is proved against a specification function: `Walk`,
  `GroupFrom` and `Shown`/`PathCount`.
- The lemmas about those functions state what the program promises:
  - the size threshold;
  - soundness and completeness of the scan;
  - the recursion toggle;
  - the early stop on failure;
  - which buckets get hashed;
  - soundness, completeness and order independence of the grouping;
  - the counts of the report.

The file system is a tree of listings: `Listing`, `Entry` and `Root`. The
three calls that can fail appear in the model as follows:

| Go call | In the model |
|---|---|
| `os.ReadDir` | an `Unreadable` listing |
| `filepath.Abs(filepath.Join(dir, name))` | a `Resolver` that may answer `None` |
| `f.Info()` | a file whose size is `None` |

Hashing (`computeHash`) is a `Hasher` from path to optional digest. Go does
not define the order in which `m.Range` and `range res` visit their maps,
so that order is an explicit sequence parameter. The lemmas quantify over
every enumeration of the map's keys.

Three behaviours of the code look unintended. The model follows the code in
each case:

- One unreadable file aborts all grouping. The code returns `false` from the
  `m.Range` callback on the first hashing error, so every bucket not yet
  visited is skipped and a run reports fewer duplicates than exist. The
  "## Findings" table records this, with a corrected pass.
- Errors of spawned walks vanish. `WalkDir` returns an error, but every call
  started with `go` discards it, so an unreadable root or subdirectory is
  silently skipped. `Scan` and the recursive call in `WalkDir` ignore the
  returned flag, as the code does.
- One file can be counted as its own duplicate. Nothing stops a path from
  being appended twice, so overlapping directories on the command line
  report a file as a group of two. The "## Findings" table records this too.

## Model

| member | source | states |
|---|---|---|
| SizeIndex.Inserted | main.go:49-54 | Inserting a path adds its size to the keys and appends the path to the end of that bucket, creating it empty first if missing; every other bucket is unchanged |
| SizeIndex.Index.constructor | main.go:85 | A new index has no bucket |
| SizeIndex.Index.Insert | main.go:49-54 | The bucket of `size` becomes its old contents (empty if missing) followed by `path`; the key set gains `size`; every other bucket is unchanged |
| SizeIndex.InsertAllBuckets | main.go:49-54 | After a sequence of inserts, each bucket is its old contents followed by exactly the inserted paths of that size, in insertion order |
| SizeIndex.InsertAllBucket | main.go:49-54 | The same for the bucket of one size |
| SizeIndex.InsertAllKeys | main.go:49-54 | After a sequence of inserts, a bucket exists exactly for the old sizes and the inserted sizes |
| SizeIndex.InsertedOnce | main.go:49-54 | The corrected insert: the bucket of `size` then holds `path` and exists; every other bucket is unchanged |
| SizeIndex.InsertAllOnceBuckets | main.go:49-54 | With the corrected insert, a bucket that held no repeated path still holds none, and holds exactly its old paths and those of the records of its size |
| Scanner.Visit | main.go:28-54 | An entry whose path resolution or `f.Info` fails contributes no record and fails the walk |
| Scanner.WalkDir | main.go:21-57 | The index after the walk is the old index with the walk's records inserted in order; the result is nil exactly when `Walk` succeeds |
| Scanner.VisitEntry | main.go:28-54 | One turn of the loop: the index gains exactly the records of `Visit` for the entry, and the result is whether the loop goes on |
| Scanner.Scan | main.go:85-96 | A fresh index holding the records of every root in root order; a failing root keeps what it inserted and does not stop the others |
| Scanner.VisitOkIffHealthy | main.go:28-43 | One entry stops the loop exactly when its path does not resolve or, for a file, `f.Info` fails; a subdirectory never stops it, whatever its own walk does |
| Scanner.WalkEntriesOkIffHealthy | main.go:27-56 | The loop over the entries returns nil exactly when every entry resolves and every file has its info; failures inside subdirectories do not count |
| Scanner.WalkSucceedsIffHealthy | main.go:23-56 | `WalkDir` returns nil exactly when the directory can be read and all its entries are healthy in that sense |
| Scanner.WalkEntriesSound | main.go:27-54 | Every inserted file is strictly larger than `minSize` and is reached: some entry leads to it, every earlier entry of each directory on the way is healthy, and it lies below a readable subdirectory only when `recursive` |
| Scanner.VisitSound | main.go:28-54 | The same soundness for one entry: the file itself, with the recorded size and path, or a file reached below a readable subdirectory when `recursive` |
| Scanner.WalkEntriesComplete | main.go:27-54 | Every reached file strictly larger than `minSize` is inserted, whatever fails in other subdirectories or after it; with `recursive`, at any depth |
| Scanner.VisitComplete | main.go:28-54 | The same completeness for one entry |
| Scanner.WalkExact | main.go:21-57 | A record is inserted by the walk exactly when the directory is readable, the file is strictly larger than `minSize` and the walk reaches it |
| Scanner.NonRecursiveWalkIsShallow | main.go:32-38 | Without `recursive`, every inserted path is a file listed directly in the directory, with its listed size and resolved path |
| Scanner.WalkEntriesStopsAtFailure | main.go:27-43 | If the entries before some point fail, the walk ends there with only what they inserted; otherwise it goes on with the later entries |
| Scanner.ScanRecordsSound | main.go:88-94 | Every record of the scan is strictly larger than `minSize` and reached from some readable root |
| Scanner.ScanRecordsContains | main.go:88-94 | Whatever the walk of any root inserts is among the records of the scan |
| Scanner.ScanIndexSound | main.go:44-54 | After the scan, every bucket is keyed by a size strictly above `minSize` and is non-empty, and each of its paths is a file of that size reached from a root |
| Scanner.ScanIndexComplete | main.go:88-96 | A file strictly above `minSize` reached from a readable root is in the bucket of its size after the scan, whatever fails in other roots or subtrees |
| Grouper.Group | main.go:98-111 | The map and completion flag of the loop are those of `GroupFrom` started from an empty map: buckets under two paths are skipped, and the first hash error returns `false` and stops the enumeration |
| Grouper.FirstFailureIsFirst | main.go:102-106 | Every path before the first failure position hashes, and the path at that position does not |
| Grouper.HashIntoCompletes | main.go:102-108 | The inner loop over a bucket runs to its end exactly when no path of the bucket fails to hash |
| Grouper.HashIntoAppends | main.go:102-108 | The inner loop appends to each digest's entry exactly the bucket's paths with that digest before the first failure, in order, and creates only entries it appends to |
| Grouper.GroupFromCompletes | main.go:99-111 | The enumeration completes exactly when no candidate fails to hash; a candidate is a path of a bucket with two paths or more |
| Grouper.GroupFromAppends | main.go:99-111 | The enumeration appends to each digest's entry exactly the candidates with that digest hashed before the first failure, in visiting order |
| Grouper.GroupFromSpec | main.go:98-111 | Both characterisations together, for all digests |
| Grouper.GroupResult | main.go:98-111 | Every path under `h` was hashed before the stop and has digest `h`. Every path hashed before the stop is under its digest. The pass completes exactly when every candidate was hashed; otherwise the hash of the next candidate failed |
| Grouper.CandidatesMembers | main.go:101-102 | A path is hashed only if it lies in a visited bucket of at least two paths, and every such path is a candidate |
| Grouper.GroupSound | main.go:101-107 | A path grouped under `h` has digest `h` and comes from a bucket of at least two paths, so single-path buckets are never hashed |
| Grouper.CompleteGroupMembers | main.go:101-107 | After a completed pass, the paths under `h` are exactly the candidates with digest `h` |
| Grouper.CompleteGroupEntry | main.go:101-107 | After a completed pass, the entry of `h` is the candidates with digest `h` in visiting order |
| Grouper.GroupComplete | main.go:101-110 | The pass completes exactly when every candidate hashes; then every candidate is grouped under its digest |
| Grouper.GroupOrderIndependent | main.go:99-111 | Two enumeration orders of the size index either both complete or both stop; when they complete, each digest holds the same multiset of paths |
| Grouper.GroupIgnoresNonCandidates | main.go:101-103 | Two hash functions that agree on the candidates give the same result: no other path is hashed |
| Grouper.GroupedShareContent | main.go:101-107 | If digests are a collision-free function of content and recorded sizes are content lengths, paths under one digest have equal content and were recorded with the same size |
| Grouper.HashSkippingAppends | main.go:102-108 | The corrected inner loop appends to each digest's entry every path of the bucket with that digest, skipping paths that fail |
| Grouper.GroupSkippingGroupsAllHashed | main.go:103-106 | With failures isolated, the entry of `h` is exactly the candidates with digest `h`, whatever fails elsewhere |
| Grouper.GroupSkippingAgreesWhenComplete | main.go:99-111 | When no candidate fails, the corrected pass builds the same map as the code |
| Reporter.Count | main.go:112-124 | `nbGroups` is the number of digests with at least two paths, each listed once; `nbIdentic` is the number of paths under them and is at least `2 * nbGroups` |
| Reporter.ShownMembers | main.go:113-114 | A digest is reported exactly when it is visited and has two paths or more |
| Reporter.ShownEnumerates | main.go:113-116 | Ranging over `res` reports every group of duplicates exactly once |
| Reporter.PathCountAtLeastTwice | main.go:114-117 | Every reported group adds at least two files, so `nbIdentic >= 2 * nbGroups` |
| Reporter.PathCountPermutation | main.go:117 | The file count does not depend on the order in which groups are visited |
| Reporter.CountOrderIndependent | main.go:112-124 | Any two visiting orders of `res` give the same `nbGroups`, equal to the number of duplicate digests, and the same `nbIdentic` |
| Scenarios.DataWalk | main.go:21-57 | `/data` holds three files of 2048 bytes and one of 500. With `-min-size 1024` and no recursion, the walk succeeds and builds one bucket of the three large files |
| Scenarios.DataGroup | main.go:98-111 | Two of those three files share a digest: the pass completes with an entry of two paths and one of a single path |
| Scenarios.DataReport | main.go:112-118 | For that map, any visiting order reports one group of two files |
| Scenarios.SubtreeFailureScenario | main.go:33-37 | With `-recursive`, an unreadable subdirectory listed before a large file: the file is still inserted and the walk returns nil |
| Scenarios.OverlappingRootsScenario | main.go:49-54 | `/data` given twice: its one large file is appended twice to its bucket and grouped twice under its digest, so it counts as a group of two; the corrected insert keeps it once and no group forms |
| Scenarios.OverlappingRootsRecords | main.go:88-94 | The same root given twice is walked twice and yields its file twice |
| Scenarios.OverlappingRootsGroup | main.go:101-118 | A bucket holding one path twice is hashed into a digest entry of two paths, reported as one group of two files |
| Scenarios.HashFailureScenario | main.go:103-106 | A bucket of three paths where the first fails to hash: the code's pass stops with an empty map; the corrected pass groups the other two |

## Left out

- Command-line handling is not modelled: flag parsing, the exit when no directory is given, all printing, and the timing (main.go:73-84, 115, 119-121, 124-125). These are I/O; the model keeps the counted values and `Reporter.Count`'s list of groups shown.
- `computeHash` (main.go:58-70) is the abstract `Hasher`: MD5, hex encoding and file reading are foreign calls, and any failure is `None`.
- `os.ReadDir`, `filepath.Abs`, `filepath.Join` and `f.Info` are foreign calls. They are inputs: the listing tree and the `Resolver`.
- Concurrency is not modelled: goroutines, `sync.WaitGroup`, `sync.Map` and the per-bucket mutex. A walk started with `go` runs inline where it is started, so the buckets hold the same paths as a concurrent run, possibly in another order.
- The existence check on each root (main.go:89-91) only prints, so it is left out. A missing root is walked like any other and gives an `Unreadable` listing.
- Sizes and counters are unbounded integers. Go's `int64` and `int` cannot overflow on real file sizes and counts.
- Scanner.WalkEntriesSound: does not prove that a single walk inserts each path only once. That would need distinct entry names and a `Resolver` that keeps paths apart, which the model does not assume. Across roots the path is not unique at all: overlapping roots insert the same file twice, as the "## Findings" table shows.
- Grouper.GroupOrderIndependent: compares only completed passes. When a hash fails, which paths were grouped depends on the order `m.Range` chooses, and the code promises nothing about it.
- Iteration order of `m.Range` and `range res` is a parameter, not a choice made by the model.
- Every non-directory entry is a file, as `f.IsDir()` false is for the code: symbolic links and special files are not distinguished.

## Findings

| source | as written | input that shows it | evidently intended | confidence | as-written member | corrected member |
|---|---|---|---|---|---|---|
| main.go:49-54 | every walk appends its path to the bucket without looking at what is there, and the roots at main.go:88-94 are walked whether or not they overlap | `duff /data /data` with `/data` holding one file of 2048 bytes: the bucket is `[x, x]`, the digest entry is `[x, x]`, and one group of two identical files is reported | a file is indexed once, so it is never reported as its own duplicate | medium, not executed | Scenarios.OverlappingRootsScenario | SizeIndex.InsertAllOnceBuckets |
| main.go:103-106 | the first `computeHash` error returns `false` from the `m.Range` callback, which ends the whole grouping pass | a size bucket of three paths where the first cannot be read and the other two have equal content: no group is reported | a hashing error excludes only that file and the pass goes on | medium, not executed | Scenarios.HashFailureScenario | Grouper.GroupSkippingGroupsAllHashed |

The as-written behaviour is `Grouper.GroupFrom`; `Grouper.Group` and the
report keep it, because that is what the program does. The corrected pass is
`Grouper.GroupSkipping`, with failing files isolated. It groups every
candidate that hashes (`Grouper.GroupSkippingGroupsAllHashed`). It agrees
with the code whenever nothing fails (`Grouper.GroupSkippingAgreesWhenComplete`).

The corrected insert is `SizeIndex.InsertedOnce`, which skips a path
already in the bucket of its size. `SizeIndex.InsertAllOnceBuckets` proves
that each bucket then holds every inserted path of its size exactly once.
The scan itself keeps the code's insert, so overlapping roots still
duplicate paths in the model as they do in the program.
