/** The directory walk (`WalkDir`) and the scan over all roots. The file
    system is given as a tree of directory listings; the calls that can fail
    show up in it as an `Unreadable` listing (`os.ReadDir`), a `Resolver`
    that answers `None` (`filepath.Abs`) and a missing size (`f.Info`). A
    walk spawned with `go` for a subdirectory is run in place, at the point
    where it is spawned, and its error is dropped as the Go code drops it:
    this yields the same buckets as the concurrent run, up to the order
    within each bucket. */
module Scanner {
  import opened Common
  import opened SizeIndex

  /** What `os.ReadDir` gives for a directory: an error, or its entries. */
  datatype Listing = Unreadable | Listed(entries: seq<Entry>)

  /** One entry of a directory listing. `size` is `None` when `f.Info()`
      fails. Every entry that is not a directory is a `File`. */
  datatype Entry =
    | File(name: string, size: Option<nat>)
    | Dir(name: string, listing: Listing)

  /** A root directory given on the command line, with its listing
      (`Unreadable` when, for instance, it does not exist). */
  datatype Root = Root(path: string, listing: Listing)

  /** The flags `-recursive` and `-min-size`. */
  datatype Config = Config(recursive: bool, minSize: int)

  /** `filepath.Abs(filepath.Join(dir, name))`; `None` stands for its error. */
  type Resolver = (string, string) -> Option<string>

  /** What one call of `WalkDir` inserted, in order, and whether it
      returned nil. */
  datatype Walked = Walked(records: seq<FileRecord>, ok: bool)

  /** `WalkDir(dir, ...)` on a directory whose `os.ReadDir` gave `listing`. */
  function Walk(dir: string, listing: Listing, cfg: Config, abs: Resolver): Walked
    decreases listing, 2
  {
    match listing
    case Unreadable => Walked([], false)
    case Listed(es) => WalkEntries(dir, es, cfg, abs)
  }

  /** The loop over the entries of one directory: it ends at the first
      entry that fails. */
  function WalkEntries(dir: string, es: seq<Entry>, cfg: Config, abs: Resolver): Walked
    decreases es, 1
  {
    if es == [] then Walked([], true)
    else
      var first := Visit(dir, es[0], cfg, abs);
      if !first.ok then first
      else
        var rest := WalkEntries(dir, es[1..], cfg, abs);
        Walked(first.records + rest.records, rest.ok)
  }

  /** One iteration of that loop. An entry that fails contributes nothing. */
  function Visit(dir: string, e: Entry, cfg: Config, abs: Resolver): (w: Walked)
    ensures !w.ok ==> w.records == []
    decreases e, 0
  {
    match abs(dir, e.name)
    case None => Walked([], false)
    case Some(full) =>
      match e
      case Dir(_, listing) =>
        if cfg.recursive then Walked(Walk(full, listing, cfg, abs).records, true)
        else Walked([], true)
      case File(_, size) =>
        match size
        case None => Walked([], false)
        case Some(s) =>
          if s <= cfg.minSize then Walked([], true)
          else Walked([FileRecord(full, s)], true)
  }

  /** `WalkDir`: walks `dir`, inserting into `index` every file above the
      threshold; with `recursive` it walks every subdirectory too. The new
      index is the old one with the records of `Walk` inserted in order. */
  method WalkDir(index: Index, dir: string, listing: Listing, cfg: Config, abs: Resolver)
    returns (ok: bool)
    modifies index
    ensures index.buckets == InsertAll(old(index.buckets), Walk(dir, listing, cfg, abs).records)
    ensures ok == Walk(dir, listing, cfg, abs).ok
    decreases listing, 1
  {
    if listing.Unreadable? {
      return false;
    }
    var es := listing.entries;
    var i := 0;
    while i < |es|
      invariant 0 <= i <= |es|
      invariant InsertAll(index.buckets, WalkEntries(dir, es[i..], cfg, abs).records)
             == InsertAll(old(index.buckets), WalkEntries(dir, es, cfg, abs).records)
      invariant WalkEntries(dir, es[i..], cfg, abs).ok == WalkEntries(dir, es, cfg, abs).ok
    {
      ghost var before := index.buckets;
      ghost var step := Visit(dir, es[i], cfg, abs);
      ghost var rest := WalkEntries(dir, es[i + 1..], cfg, abs);
      WalkEntriesStep(dir, es, i, cfg, abs);
      var entryOk := VisitEntry(index, dir, es[i], cfg, abs);
      if !entryOk {
        return false;
      }
      InsertAllAppend(before, step.records, rest.records);
      i := i + 1;
    }
    assert es[i..] == [];
    ok := true;
  }

  /** One turn of the loop of `WalkDir` on the entry `e`: the index gains
      the records of `Visit`, and the result says whether the loop goes on. */
  method VisitEntry(index: Index, dir: string, e: Entry, cfg: Config, abs: Resolver)
    returns (ok: bool)
    modifies index
    ensures index.buckets == InsertAll(old(index.buckets), Visit(dir, e, cfg, abs).records)
    ensures ok == Visit(dir, e, cfg, abs).ok
    decreases e, 0
  {
    var full := abs(dir, e.name);
    if full.None? {
      return false;
    }
    match e {
      case Dir(_, sub) =>
        if cfg.recursive {
          // `go WalkDir(...)`: the spawned walk's error is discarded.
          var _ := WalkDir(index, full.value, sub, cfg, abs);
        }
      case File(_, size) =>
        if size.None? {
          return false;
        }
        if size.value > cfg.minSize {
          index.Insert(size.value, full.value);
          assert [FileRecord(full.value, size.value)][1..] == [];
        }
    }
    ok := true;
  }

  /** One turn of the loop of `WalkDir`: the walk of the entries from `i`
      on is the visit of entry `i` followed, if it succeeds, by the walk of
      the entries after it. */
  lemma WalkEntriesStep(dir: string, es: seq<Entry>, i: nat, cfg: Config, abs: Resolver)
    requires i < |es|
    ensures var step := Visit(dir, es[i], cfg, abs);
            var rest := WalkEntries(dir, es[i + 1..], cfg, abs);
            WalkEntries(dir, es[i..], cfg, abs)
              == if step.ok then Walked(step.records + rest.records, rest.ok) else step
  {
    assert es[i..][0] == es[i];
    assert es[i..][1..] == es[i + 1..];
  }

  /** The records of all roots; a failing root contributes what it
      inserted before failing and does not stop the others. */
  function ScanRecords(roots: seq<Root>, cfg: Config, abs: Resolver): seq<FileRecord>
  {
    if roots == [] then []
    else Walk(roots[0].path, roots[0].listing, cfg, abs).records + ScanRecords(roots[1..], cfg, abs)
  }

  /** The loop over the command-line directories up to `wg.Wait()`: a fresh
      index holding the records of every root. The existence check on each
      root only prints, so a missing root is walked too and yields nothing. */
  method Scan(roots: seq<Root>, cfg: Config, abs: Resolver) returns (index: Index)
    ensures fresh(index)
    ensures index.buckets == InsertAll(map[], ScanRecords(roots, cfg, abs))
  {
    index := new Index();
    var i := 0;
    while i < |roots|
      invariant 0 <= i <= |roots|
      invariant InsertAll(index.buckets, ScanRecords(roots[i..], cfg, abs))
             == InsertAll(map[], ScanRecords(roots, cfg, abs))
    {
      ghost var before := index.buckets;
      ghost var walked := Walk(roots[i].path, roots[i].listing, cfg, abs).records;
      assert roots[i..][1..] == roots[i + 1..];
      var _ := WalkDir(index, roots[i].path, roots[i].listing, cfg, abs);
      InsertAllAppend(before, walked, ScanRecords(roots[i + 1..], cfg, abs));
      i := i + 1;
    }
    assert roots[i..] == [];
  }

  // ---------------------------------------------------------------------
  // A reference description of which files a walk reaches

  /** Nothing the loop over `es` stops at: every path resolves and every
      file has its info. What happens inside a subdirectory does not count,
      because the error of its walk is dropped. */
  predicate Healthy(dir: string, es: seq<Entry>, abs: Resolver)
  {
    forall i :: 0 <= i < |es| ==> EntryHealthy(dir, es[i], abs)
  }

  predicate EntryHealthy(dir: string, e: Entry, abs: Resolver)
  {
    abs(dir, e.name).Some? && (e.File? ==> e.size.Some?)
  }

  /** The file `r` is reached in `es` (listed under `dir`): some entry leads
      to it and every entry before that one is healthy, so the loop gets
      there. */
  predicate Reached(dir: string, es: seq<Entry>, r: FileRecord, deep: bool, abs: Resolver)
    decreases es, 1
  {
    exists i :: 0 <= i < |es| && Healthy(dir, es[..i], abs) && ReachedAt(dir, es[i], r, deep, abs)
  }

  /** The entry `e` leads to the file `r`: it is that file, with that size
      and resolved path, or — when `deep` — a readable directory in which
      `r` is reached. */
  predicate ReachedAt(dir: string, e: Entry, r: FileRecord, deep: bool, abs: Resolver)
    decreases e, 0
  {
    match abs(dir, e.name)
    case None => false
    case Some(full) =>
      match e
      case File(_, size) => size == Some(r.size) && full == r.path
      case Dir(_, listing) => deep && listing.Listed? && Reached(full, listing.entries, r, deep, abs)
  }

  // ---------------------------------------------------------------------
  // Properties of the walk

  /** One entry fails the loop exactly when its path does not resolve or,
      for a file, its info cannot be read; a subdirectory never does. */
  lemma VisitOkIffHealthy(dir: string, e: Entry, cfg: Config, abs: Resolver)
    ensures Visit(dir, e, cfg, abs).ok <==> EntryHealthy(dir, e, abs)
  {
  }

  /** `WalkDir` returns nil exactly when every entry of the directory
      resolves and every file has its info; failures inside subdirectories
      never reach it. */
  lemma {:induction false} WalkEntriesOkIffHealthy(dir: string, es: seq<Entry>, cfg: Config, abs: Resolver)
    ensures WalkEntries(dir, es, cfg, abs).ok <==> Healthy(dir, es, abs)
    decreases es
  {
    if es != [] {
      VisitOkIffHealthy(dir, es[0], cfg, abs);
      WalkEntriesOkIffHealthy(dir, es[1..], cfg, abs);
      assert Healthy(dir, es, abs) <==> EntryHealthy(dir, es[0], abs) && Healthy(dir, es[1..], abs) by {
        forall i | 0 <= i < |es[1..]| ensures es[1..][i] == es[i + 1] {
        }
        if EntryHealthy(dir, es[0], abs) && Healthy(dir, es[1..], abs) {
          forall i | 0 < i < |es| ensures EntryHealthy(dir, es[i], abs) {
            assert es[i] == es[1..][i - 1];
          }
        }
      }
    }
  }

  /** The same for a whole directory: the walk returns nil exactly when the
      directory can be read and its entries are healthy. */
  lemma WalkSucceedsIffHealthy(dir: string, listing: Listing, cfg: Config, abs: Resolver)
    ensures Walk(dir, listing, cfg, abs).ok <==> listing.Listed? && Healthy(dir, listing.entries, abs)
  {
    if listing.Listed? {
      WalkEntriesOkIffHealthy(dir, listing.entries, cfg, abs);
    }
  }

  /** Every record the walk inserts is a file strictly larger than
      `minSize` that the walk reaches: listed directly or, only when
      `recursive`, below a readable subdirectory. */
  lemma {:induction false} WalkEntriesSound(dir: string, es: seq<Entry>, cfg: Config, abs: Resolver, r: FileRecord)
    requires r in WalkEntries(dir, es, cfg, abs).records
    ensures r.size > cfg.minSize
    ensures Reached(dir, es, r, cfg.recursive, abs)
    decreases es, 1
  {
    var first := Visit(dir, es[0], cfg, abs);
    assert first.ok;
    VisitOkIffHealthy(dir, es[0], cfg, abs);
    if r in first.records {
      VisitSound(dir, es[0], cfg, abs, r);
      assert Healthy(dir, es[..0], abs);
    } else {
      WalkEntriesSound(dir, es[1..], cfg, abs, r);
      var i :| 0 <= i < |es[1..]| && Healthy(dir, es[1..][..i], abs)
               && ReachedAt(dir, es[1..][i], r, cfg.recursive, abs);
      assert es[1..][i] == es[i + 1];
      assert Healthy(dir, es[..i + 1], abs) by {
        forall j | 0 < j < i + 1 ensures EntryHealthy(dir, es[j], abs) {
          assert es[j] == es[1..][..i][j - 1];
        }
      }
    }
  }

  lemma {:induction false} VisitSound(dir: string, e: Entry, cfg: Config, abs: Resolver, r: FileRecord)
    requires r in Visit(dir, e, cfg, abs).records
    ensures r.size > cfg.minSize
    ensures ReachedAt(dir, e, r, cfg.recursive, abs)
    decreases e, 0
  {
    var full := abs(dir, e.name).value;
    match e
    case Dir(_, listing) =>
      WalkEntriesSound(full, listing.entries, cfg, abs, r);
    case File(_, size) =>
  }

  /** Every file strictly larger than `minSize` that the walk reaches is
      inserted, whatever fails in other subdirectories or after it. */
  lemma {:induction false} WalkEntriesComplete(dir: string, es: seq<Entry>, cfg: Config, abs: Resolver, r: FileRecord)
    requires Reached(dir, es, r, cfg.recursive, abs) && r.size > cfg.minSize
    ensures r in WalkEntries(dir, es, cfg, abs).records
    decreases es, 1
  {
    var i :| 0 <= i < |es| && Healthy(dir, es[..i], abs) && ReachedAt(dir, es[i], r, cfg.recursive, abs);
    if i == 0 {
      VisitComplete(dir, es[0], cfg, abs, r);
    } else {
      assert es[..i][0] == es[0];
      VisitOkIffHealthy(dir, es[0], cfg, abs);
      assert es[1..][i - 1] == es[i];
      assert Healthy(dir, es[1..][..i - 1], abs) by {
        forall j | 0 <= j < i - 1 ensures EntryHealthy(dir, es[1..][j], abs) {
          assert es[1..][j] == es[..i][j + 1];
        }
      }
      WalkEntriesComplete(dir, es[1..], cfg, abs, r);
    }
  }

  lemma {:induction false} VisitComplete(dir: string, e: Entry, cfg: Config, abs: Resolver, r: FileRecord)
    requires ReachedAt(dir, e, r, cfg.recursive, abs) && r.size > cfg.minSize
    ensures r in Visit(dir, e, cfg, abs).records
    decreases e, 0
  {
    var full := abs(dir, e.name).value;
    match e
    case Dir(_, listing) =>
      WalkEntriesComplete(full, listing.entries, cfg, abs, r);
    case File(_, size) =>
  }

  /** What a walk inserts, exactly: the files strictly larger than
      `minSize` that it reaches. A failing subdirectory only takes away the
      files below it; a failing entry takes away the entries after it. */
  lemma WalkExact(dir: string, listing: Listing, cfg: Config, abs: Resolver, r: FileRecord)
    ensures r in Walk(dir, listing, cfg, abs).records
        <==> listing.Listed? && r.size > cfg.minSize && Reached(dir, listing.entries, r, cfg.recursive, abs)
  {
    if listing.Listed? {
      if r in Walk(dir, listing, cfg, abs).records {
        WalkEntriesSound(dir, listing.entries, cfg, abs, r);
      }
      if r.size > cfg.minSize && Reached(dir, listing.entries, r, cfg.recursive, abs) {
        WalkEntriesComplete(dir, listing.entries, cfg, abs, r);
      }
    }
  }

  /** With `recursive` false a walk inserts only files listed directly in
      the directory: subdirectories contribute no paths. */
  lemma {:induction false} NonRecursiveWalkIsShallow(dir: string, es: seq<Entry>, cfg: Config, abs: Resolver, r: FileRecord)
    requires !cfg.recursive
    requires r in WalkEntries(dir, es, cfg, abs).records
    ensures exists i :: 0 <= i < |es| && es[i].File? && es[i].size == Some(r.size)
                        && abs(dir, es[i].name) == Some(r.path)
  {
    WalkEntriesSound(dir, es, cfg, abs, r);
    var i :| 0 <= i < |es| && Healthy(dir, es[..i], abs) && ReachedAt(dir, es[i], r, cfg.recursive, abs);
    assert es[i].File?;
  }

  /** A failure ends the walk of the directory at once: the entries after
      the one that failed are never looked at, and what the entries before it
      inserted stays inserted. */
  lemma {:induction false} WalkEntriesStopsAtFailure(dir: string, xs: seq<Entry>, ys: seq<Entry>, cfg: Config, abs: Resolver)
    ensures var front := WalkEntries(dir, xs, cfg, abs);
            WalkEntries(dir, xs + ys, cfg, abs)
              == if front.ok then Walked(front.records + WalkEntries(dir, ys, cfg, abs).records,
                                         WalkEntries(dir, ys, cfg, abs).ok)
                 else front
    decreases xs
  {
    if xs == [] {
      assert xs + ys == ys;
    } else {
      assert (xs + ys)[0] == xs[0];
      assert (xs + ys)[1..] == xs[1..] + ys;
      WalkEntriesStopsAtFailure(dir, xs[1..], ys, cfg, abs);
    }
  }

  // ---------------------------------------------------------------------
  // Properties of the scan over all roots

  lemma {:induction false} ScanRecordsSound(roots: seq<Root>, cfg: Config, abs: Resolver, r: FileRecord)
    requires r in ScanRecords(roots, cfg, abs)
    ensures r.size > cfg.minSize
    ensures exists i :: 0 <= i < |roots| && roots[i].listing.Listed?
                        && Reached(roots[i].path, roots[i].listing.entries, r, cfg.recursive, abs)
  {
    var w := Walk(roots[0].path, roots[0].listing, cfg, abs);
    if r in w.records {
      WalkEntriesSound(roots[0].path, roots[0].listing.entries, cfg, abs, r);
    } else {
      ScanRecordsSound(roots[1..], cfg, abs, r);
      var i :| 0 <= i < |roots[1..]| && roots[1..][i].listing.Listed?
               && Reached(roots[1..][i].path, roots[1..][i].listing.entries, r, cfg.recursive, abs);
      assert roots[1..][i] == roots[i + 1];
    }
  }

  /** The size index after the scan: every bucket is keyed by a size
      strictly greater than `minSize` and is non-empty, and every path in it
      is a file of that size reached from one of the roots. */
  lemma {:induction false} ScanIndexSound(roots: seq<Root>, cfg: Config, abs: Resolver, k: int, p: string)
    requires k in InsertAll(map[], ScanRecords(roots, cfg, abs))
    ensures k > cfg.minSize
    ensures InsertAll(map[], ScanRecords(roots, cfg, abs))[k] != []
    ensures p in InsertAll(map[], ScanRecords(roots, cfg, abs))[k] ==>
              exists i :: 0 <= i < |roots| && roots[i].listing.Listed?
                          && Reached(roots[i].path, roots[i].listing.entries, FileRecord(p, k), cfg.recursive, abs)
  {
    var rs := ScanRecords(roots, cfg, abs);
    InsertAllBuckets(map[], rs);
    InsertAllKeys(map[], rs);
    assert k in Sizes(rs);
    var r :| r in rs && r.size == k;
    ScanRecordsSound(roots, cfg, abs, r);
    assert r.path in PathsOfSize(rs, k);
    if p in InsertAll(map[], rs)[k] {
      assert Lookup(InsertAll(map[], rs), k) == PathsOfSize(rs, k);
      ScanRecordsSound(roots, cfg, abs, FileRecord(p, k));
    }
  }

  /** A file strictly larger than `minSize` that the walk of some readable
      root reaches ends up in the bucket of its size, whatever fails in the
      other roots and in other subtrees. */
  lemma ScanIndexComplete(roots: seq<Root>, cfg: Config, abs: Resolver, i: nat, r: FileRecord)
    requires i < |roots| && roots[i].listing.Listed?
    requires Reached(roots[i].path, roots[i].listing.entries, r, cfg.recursive, abs)
    requires r.size > cfg.minSize
    ensures r.path in Lookup(InsertAll(map[], ScanRecords(roots, cfg, abs)), r.size)
  {
    WalkEntriesComplete(roots[i].path, roots[i].listing.entries, cfg, abs, r);
    ScanRecordsContains(roots, cfg, abs, i, r);
    InsertAllBuckets(map[], ScanRecords(roots, cfg, abs));
  }

  lemma {:induction false} ScanRecordsContains(roots: seq<Root>, cfg: Config, abs: Resolver, i: nat, r: FileRecord)
    requires i < |roots|
    requires r in Walk(roots[i].path, roots[i].listing, cfg, abs).records
    ensures r in ScanRecords(roots, cfg, abs)
  {
    if i > 0 {
      assert roots[1..][i - 1] == roots[i];
      ScanRecordsContains(roots[1..], cfg, abs, i - 1, r);
    }
  }
}
