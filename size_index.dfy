/** The size index that the directory walk fills: a map from a file size to
    the absolute paths of the files of that size. In the Go program this is a
    `sync.Map` whose values are mutex-guarded slices; here it is the
    sequential effect of those updates. */
module SizeIndex {
  import opened Common

  /** One discovered file: its absolute path and its size in bytes. */
  datatype FileRecord = FileRecord(path: string, size: int)

  /** Size -> paths of that size, in the order they were appended. */
  type Buckets = map<int, seq<string>>

  /** Get the bucket for `size`, creating an empty one if there is none, and
      append `path` to it. */
  function Inserted(b: Buckets, size: int, path: string): (r: Buckets)
    ensures r.Keys == b.Keys + {size}
    ensures r[size] == Lookup(b, size) + [path]
    ensures forall k :: k in b && k != size ==> r[k] == b[k]
  {
    b[size := Lookup(b, size) + [path]]
  }

  /** The index after inserting the records one after the other. */
  function InsertAll(b: Buckets, rs: seq<FileRecord>): Buckets
    decreases rs
  {
    if rs == [] then b else InsertAll(Inserted(b, rs[0].size, rs[0].path), rs[1..])
  }

  /** The paths of the records of size `k`, in record order. */
  function PathsOfSize(rs: seq<FileRecord>, k: int): (ps: seq<string>)
    ensures forall p :: p in ps <==> FileRecord(p, k) in rs
  {
    if rs == [] then []
    else
      assert forall r :: r in rs <==> r == rs[0] || r in rs[1..];
      (if rs[0].size == k then [rs[0].path] else []) + PathsOfSize(rs[1..], k)
  }

  /** The sizes that occur among the records. */
  function Sizes(rs: seq<FileRecord>): set<int>
  {
    set r | r in rs :: r.size
  }

  /** Inserting a sequence of records appends, to the bucket of each size,
      exactly the paths of the records of that size, in order. */
  lemma InsertAllBuckets(b: Buckets, rs: seq<FileRecord>)
    ensures forall k :: Lookup(InsertAll(b, rs), k) == Lookup(b, k) + PathsOfSize(rs, k)
  {
    forall k ensures Lookup(InsertAll(b, rs), k) == Lookup(b, k) + PathsOfSize(rs, k) {
      InsertAllBucket(b, rs, k);
    }
  }

  /** The same for the bucket of one size `k`. */
  lemma {:induction false} InsertAllBucket(b: Buckets, rs: seq<FileRecord>, k: int)
    ensures Lookup(InsertAll(b, rs), k) == Lookup(b, k) + PathsOfSize(rs, k)
    decreases rs
  {
    if rs != [] {
      InsertAllBucket(Inserted(b, rs[0].size, rs[0].path), rs[1..], k);
      InsertedBucket(b, rs[0].size, rs[0].path, k);
      PathsOfSizeFirst(rs, k);
    }
  }

  /** The paths of size `k` are those of the first record, if it has that
      size, followed by those of the rest. */
  lemma PathsOfSizeFirst(rs: seq<FileRecord>, k: int)
    requires rs != []
    ensures PathsOfSize(rs, k) == (if rs[0].size == k then [rs[0].path] else []) + PathsOfSize(rs[1..], k)
  {
  }

  /** One insert appends to the bucket of `k` the path, if its size is `k`,
      and nothing otherwise. */
  lemma InsertedBucket(b: Buckets, size: int, path: string, k: int)
    ensures Lookup(Inserted(b, size, path), k) == Lookup(b, k) + (if size == k then [path] else [])
  {
  }

  /** A bucket exists after the inserts exactly when it existed before or
      some record has its size. */
  lemma {:induction false} InsertAllKeys(b: Buckets, rs: seq<FileRecord>)
    ensures InsertAll(b, rs).Keys == b.Keys + Sizes(rs)
    decreases rs
  {
    if rs != [] {
      InsertAllKeys(Inserted(b, rs[0].size, rs[0].path), rs[1..]);
      assert Sizes(rs) == {rs[0].size} + Sizes(rs[1..]) by {
        assert forall r :: r in rs <==> r == rs[0] || r in rs[1..];
      }
    }
  }

  /** Inserting two batches one after the other is inserting their
      concatenation. */
  lemma {:induction false} InsertAllAppend(b: Buckets, xs: seq<FileRecord>, ys: seq<FileRecord>)
    ensures InsertAll(b, xs + ys) == InsertAll(InsertAll(b, xs), ys)
    decreases xs
  {
    if xs == [] {
      assert xs + ys == ys;
    } else {
      assert (xs + ys)[1..] == xs[1..] + ys;
      InsertAllAppend(Inserted(b, xs[0].size, xs[0].path), xs[1..], ys);
    }
  }

  /** The insert the index evidently intends: a path already in the bucket
      of its size is not added a second time. */
  function InsertedOnce(b: Buckets, size: int, path: string): (r: Buckets)
    ensures r.Keys == b.Keys + {size}
    ensures path in r[size]
    ensures forall k :: k in b && k != size ==> r[k] == b[k]
  {
    if path in Lookup(b, size) then b else Inserted(b, size, path)
  }

  /** The index after inserting the records one after the other, each path
      at most once per size. */
  function InsertAllOnce(b: Buckets, rs: seq<FileRecord>): Buckets
    decreases rs
  {
    if rs == [] then b else InsertAllOnce(InsertedOnce(b, rs[0].size, rs[0].path), rs[1..])
  }

  /** With the corrected insert a bucket holds each path once, and holds
      exactly the paths it held before and those of the records of its
      size, however often a record repeats. */
  lemma {:induction false} InsertAllOnceBuckets(b: Buckets, rs: seq<FileRecord>, k: int)
    requires Distinct(Lookup(b, k))
    ensures Distinct(Lookup(InsertAllOnce(b, rs), k))
    ensures forall p :: p in Lookup(InsertAllOnce(b, rs), k) <==> p in Lookup(b, k) || FileRecord(p, k) in rs
    decreases rs
  {
    if rs != [] {
      var b1 := InsertedOnce(b, rs[0].size, rs[0].path);
      assert forall p :: p in Lookup(b1, k) <==> p in Lookup(b, k) || FileRecord(p, k) == rs[0];
      assert Distinct(Lookup(b1, k));
      InsertAllOnceBuckets(b1, rs[1..], k);
      assert forall r :: r in rs <==> r == rs[0] || r in rs[1..];
    }
  }

  /** The shared index of the walk. Each method is one critical section of
      the Go code; together they are run sequentially here. */
  class Index {
    var buckets: Buckets

    /** `new(sync.Map)`: no bucket yet. */
    constructor ()
      ensures buckets == map[]
    {
      buckets := map[];
    }

    /** `m.LoadOrStore(size, &Data{})` followed by the append under the
        bucket's lock: the path goes to the end of the bucket of its size,
        which is created empty first if it is missing; every other bucket
        is left as it was. */
    method Insert(size: int, path: string)
      modifies this
      ensures buckets == Inserted(old(buckets), size, path)
      ensures buckets.Keys == old(buckets).Keys + {size}
      ensures buckets[size] == Lookup(old(buckets), size) + [path]
      ensures forall k :: k in old(buckets) && k != size ==> buckets[k] == old(buckets)[k]
    {
      if size !in buckets {
        buckets := buckets[size := []];
      }
      buckets := buckets[size := buckets[size] + [path]];
    }
  }
}
