/** The grouping pass after `wg.Wait()`: every size bucket with at least two
    paths is hashed path by path into a map from digest to paths. The callback
    given to `m.Range` returns false on the first hashing error, which stops
    the whole enumeration. */
module Grouper {
  import opened Common
  import opened SizeIndex

  /** A content digest: the hex string of an MD5 sum in the Go program. */
  type Digest = string

  /** `computeHash(path)`; `None` stands for its error. */
  type Hasher = string -> Option<Digest>

  /** `res`: digest -> paths with that digest, in the order they were added. */
  type DigestIndex = map<Digest, seq<string>>

  /** The map built so far and whether the enumeration ran to its end. */
  datatype Grouping = Grouping(res: DigestIndex, complete: bool)

  /** The inner loop over one bucket's paths: each path is appended to the
      entry of its digest; the first failure ends the loop. */
  function HashInto(res: DigestIndex, paths: seq<string>, hash: Hasher): Grouping
    decreases paths
  {
    if paths == [] then Grouping(res, true)
    else
      match hash(paths[0])
      case None => Grouping(res, false)
      case Some(h) => HashInto(res[h := Lookup(res, h) + [paths[0]]], paths[1..], hash)
  }

  /** The enumeration of the size index in the order `order`: buckets with
      fewer than two paths are skipped; a failure in a bucket stops it. */
  function GroupFrom(res: DigestIndex, index: Buckets, order: seq<int>, hash: Hasher): Grouping
    decreases order
  {
    if order == [] then Grouping(res, true)
    else
      var paths := Lookup(index, order[0]);
      if |paths| < 2 then GroupFrom(res, index, order[1..], hash)
      else
        var g := HashInto(res, paths, hash);
        if !g.complete then g else GroupFrom(g.res, index, order[1..], hash)
  }

  /** The grouping pass of `main`: `order` is the order in which `m.Range`
      visits the sizes. The result is that of `GroupFrom` started on an
      empty map. */
  method Group(index: Buckets, order: seq<int>, hash: Hasher) returns (res: DigestIndex, complete: bool)
    ensures Grouping(res, complete) == GroupFrom(map[], index, order, hash)
  {
    res := map[];
    var i := 0;
    while i < |order|
      invariant 0 <= i <= |order|
      invariant GroupFrom(res, index, order[i..], hash) == GroupFrom(map[], index, order, hash)
    {
      assert order[i..][1..] == order[i + 1..];
      var paths := Lookup(index, order[i]);
      if |paths| >= 2 {
        ghost var start := res;
        var j := 0;
        while j < |paths|
          invariant 0 <= j <= |paths|
          invariant HashInto(res, paths[j..], hash) == HashInto(start, paths, hash)
        {
          assert paths[j..][1..] == paths[j + 1..];
          var digest := hash(paths[j]);
          if digest.None? {
            // The callback returns false: `m.Range` stops here.
            return res, false;
          }
          res := res[digest.value := Lookup(res, digest.value) + [paths[j]]];
          j := j + 1;
        }
        assert paths[j..] == [];
      }
      i := i + 1;
    }
    assert order[i..] == [];
    complete := true;
  }

  // ---------------------------------------------------------------------
  // A reference description: the candidates in visiting order, the first
  // failure among them, and the candidates that have a given digest

  /** A bucket takes part in the grouping only if it holds two paths or more. */
  function Part(index: Buckets, k: int): seq<string>
  {
    if |Lookup(index, k)| >= 2 then Lookup(index, k) else []
  }

  /** All paths that the pass would hash, bucket after bucket, in `order`. */
  function Candidates(index: Buckets, order: seq<int>): seq<string>
  {
    if order == [] then [] else Part(index, order[0]) + Candidates(index, order[1..])
  }

  /** The position of the first path whose hash fails, or `|ps|` if none. */
  function FirstFailure(ps: seq<string>, hash: Hasher): (n: nat)
    ensures n <= |ps|
  {
    if ps == [] || hash(ps[0]).None? then 0 else 1 + FirstFailure(ps[1..], hash)
  }

  /** `FirstFailure` is what its name says: every path before it hashes,
      the path at it does not. */
  lemma {:induction false} FirstFailureIsFirst(ps: seq<string>, hash: Hasher)
    ensures forall i :: 0 <= i < FirstFailure(ps, hash) ==> hash(ps[i]).Some?
    ensures FirstFailure(ps, hash) < |ps| ==> hash(ps[FirstFailure(ps, hash)]).None?
    decreases ps
  {
    if ps != [] && hash(ps[0]).Some? {
      FirstFailureIsFirst(ps[1..], hash);
      forall i | 0 < i < FirstFailure(ps, hash) ensures hash(ps[i]).Some? {
        assert ps[i] == ps[1..][i - 1];
      }
    }
  }

  /** The paths of `ps` whose digest is `h`, in order. */
  function Matching(ps: seq<string>, hash: Hasher, h: Digest): seq<string>
  {
    if ps == [] then []
    else (if hash(ps[0]) == Some(h) then [ps[0]] else []) + Matching(ps[1..], hash, h)
  }

  /** A path is among the matching ones exactly when it is in `ps` and its
      digest is `h`. */
  lemma {:induction false} MatchingMembers(ps: seq<string>, hash: Hasher, h: Digest, p: string)
    ensures p in Matching(ps, hash, h) <==> p in ps && hash(p) == Some(h)
    decreases ps
  {
    if ps != [] {
      MatchingMembers(ps[1..], hash, h, p);
      assert p in ps <==> p == ps[0] || p in ps[1..];
    }
  }

  lemma {:induction false} MatchingAppend(xs: seq<string>, ys: seq<string>, hash: Hasher, h: Digest)
    ensures Matching(xs + ys, hash, h) == Matching(xs, hash, h) + Matching(ys, hash, h)
    decreases xs
  {
    if xs == [] {
      assert xs + ys == ys;
    } else {
      var own := if hash(xs[0]) == Some(h) then [xs[0]] else [];
      assert (xs + ys)[0] == xs[0];
      assert (xs + ys)[1..] == xs[1..] + ys;
      assert Matching(xs + ys, hash, h) == own + Matching(xs[1..] + ys, hash, h);
      MatchingAppend(xs[1..], ys, hash, h);
      var mx, my := Matching(xs[1..], hash, h), Matching(ys, hash, h);
      assert own + (mx + my) == (own + mx) + my;
    }
  }

  lemma {:induction false} FirstFailureAppend(xs: seq<string>, ys: seq<string>, hash: Hasher)
    ensures FirstFailure(xs + ys, hash)
         == if FirstFailure(xs, hash) < |xs| then FirstFailure(xs, hash) else |xs| + FirstFailure(ys, hash)
    decreases xs
  {
    if xs == [] {
      assert xs + ys == ys;
    } else {
      assert (xs + ys)[0] == xs[0];
      assert (xs + ys)[1..] == xs[1..] + ys;
      FirstFailureAppend(xs[1..], ys, hash);
    }
  }

  /** The candidates that the pass hashes before it stops: all of them, or
      those before the first failure. */
  function Hashed(index: Buckets, order: seq<int>, hash: Hasher): seq<string>
  {
    var c := Candidates(index, order);
    c[..FirstFailure(c, hash)]
  }

  /** What the pass did to the entry of digest `h`: it appended exactly the
      paths of `added` with that digest, in order, and it created the entry
      only if it appended a path to it. */
  ghost predicate AppendedAt(after: DigestIndex, before: DigestIndex, added: seq<string>, hash: Hasher, h: Digest)
  {
    && Lookup(after, h) == Lookup(before, h) + Matching(added, hash, h)
    && (h in after <==> h in before || Matching(added, hash, h) != [])
  }

  /** Appending one batch and then another is appending their concatenation. */
  lemma AppendedAtTrans(a: DigestIndex, b: DigestIndex, c: DigestIndex, xs: seq<string>, ys: seq<string>,
                        hash: Hasher, h: Digest)
    requires AppendedAt(b, a, xs, hash, h) && AppendedAt(c, b, ys, hash, h)
    ensures AppendedAt(c, a, xs + ys, hash, h)
  {
    MatchingAppend(xs, ys, hash, h);
    var la, mx, my := Lookup(a, h), Matching(xs, hash, h), Matching(ys, hash, h);
    assert (la + mx) + my == la + (mx + my);
    assert mx + my != [] <==> mx != [] || my != [] by {
      assert |mx + my| == |mx| + |my|;
    }
  }

  /** The inner loop completes exactly when no path of the bucket fails. */
  lemma {:induction false} HashIntoCompletes(res: DigestIndex, ps: seq<string>, hash: Hasher)
    ensures HashInto(res, ps, hash).complete == (FirstFailure(ps, hash) == |ps|)
    decreases ps
  {
    if ps != [] && hash(ps[0]).Some? {
      var d := hash(ps[0]).value;
      HashIntoCompletes(res[d := Lookup(res, d) + [ps[0]]], ps[1..], hash);
    }
  }

  /** The inner loop appends to the entry of each digest the paths of the
      bucket with that digest, up to the first failing path. */
  lemma {:induction false} HashIntoAppends(res: DigestIndex, ps: seq<string>, hash: Hasher, h: Digest)
    ensures AppendedAt(HashInto(res, ps, hash).res, res, ps[..FirstFailure(ps, hash)], hash, h)
    decreases ps
  {
    if ps == [] || hash(ps[0]).None? {
      assert ps[..FirstFailure(ps, hash)] == [];
      assert Lookup(res, h) + [] == Lookup(res, h);
    } else {
      var d := hash(ps[0]).value;
      var res1 := res[d := Lookup(res, d) + [ps[0]]];
      var g := HashInto(res, ps, hash);
      assert g == HashInto(res1, ps[1..], hash);
      HashIntoAppends(res1, ps[1..], hash, h);
      assert AppendedAt(res1, res, [ps[0]], hash, h) by {
        assert [ps[0]][1..] == [];
        assert Matching([ps[0]], hash, h) == if h == d then [ps[0]] else [];
      }
      var n := FirstFailure(ps, hash);
      assert ps[..n] == [ps[0]] + ps[1..][..n - 1];
      AppendedAtTrans(res, res1, g.res, [ps[0]], ps[1..][..n - 1], hash, h);
    }
  }

  /** The pass completes exactly when no candidate fails to hash. */
  lemma {:induction false} GroupFromCompletes(res: DigestIndex, index: Buckets, order: seq<int>, hash: Hasher)
    ensures GroupFrom(res, index, order, hash).complete
            == (FirstFailure(Candidates(index, order), hash) == |Candidates(index, order)|)
    decreases order
  {
    if order != [] {
      var paths := Lookup(index, order[0]);
      var rest := Candidates(index, order[1..]);
      if |paths| < 2 {
        assert Candidates(index, order) == rest;
        GroupFromCompletes(res, index, order[1..], hash);
      } else {
        assert Candidates(index, order) == paths + rest;
        FirstFailureAppend(paths, rest, hash);
        HashIntoCompletes(res, paths, hash);
        GroupFromCompletes(HashInto(res, paths, hash).res, index, order[1..], hash);
      }
    }
  }

  /** The pass appends to the entry of each digest exactly the hashed
      candidates with that digest, in visiting order. */
  lemma {:induction false} GroupFromAppends(res: DigestIndex, index: Buckets, order: seq<int>, hash: Hasher, h: Digest)
    ensures AppendedAt(GroupFrom(res, index, order, hash).res, res, Hashed(index, order, hash), hash, h)
    decreases order
  {
    var c := Candidates(index, order);
    if order == [] {
      assert Hashed(index, order, hash) == [];
      assert Lookup(res, h) + [] == Lookup(res, h);
    } else {
      var paths := Lookup(index, order[0]);
      var rest := Candidates(index, order[1..]);
      if |paths| < 2 {
        assert c == rest;
        GroupFromAppends(res, index, order[1..], hash, h);
      } else {
        assert c == paths + rest;
        var g := HashInto(res, paths, hash);
        HashIntoAppends(res, paths, hash, h);
        HashIntoCompletes(res, paths, hash);
        var n1 := FirstFailure(paths, hash);
        FirstFailureAppend(paths, rest, hash);
        if n1 < |paths| {
          assert c[..n1] == paths[..n1];
        } else {
          var n2 := FirstFailure(rest, hash);
          GroupFromAppends(g.res, index, order[1..], hash, h);
          assert paths[..n1] == paths;
          assert Hashed(index, order, hash) == paths + rest[..n2] by {
            PrefixOfAppend(paths, rest, n2);
          }
          AppendedAtTrans(res, g.res, GroupFrom(res, index, order, hash).res, paths, rest[..n2], hash, h);
        }
      }
    }
  }

  lemma PrefixOfAppend<T>(xs: seq<T>, ys: seq<T>, k: nat)
    requires k <= |ys|
    ensures (xs + ys)[..|xs| + k] == xs + ys[..k]
  {
  }

  /** The characterisation of the pass. Let `c` be the candidates (the paths
      of the buckets with two paths or more, in visiting order) and `n` the
      position of the first one that fails to hash. The pass completes
      exactly when none fails; it appends to the entry of each digest exactly
      the candidates before position `n` with that digest, in order; and it
      creates no entry without a path. */
  lemma GroupFromSpec(res: DigestIndex, index: Buckets, order: seq<int>, hash: Hasher)
    ensures GroupFrom(res, index, order, hash).complete
            == (FirstFailure(Candidates(index, order), hash) == |Candidates(index, order)|)
    ensures forall h :: AppendedAt(GroupFrom(res, index, order, hash).res, res, Hashed(index, order, hash), hash, h)
  {
    GroupFromCompletes(res, index, order, hash);
    forall h ensures AppendedAt(GroupFrom(res, index, order, hash).res, res, Hashed(index, order, hash), hash, h) {
      GroupFromAppends(res, index, order, hash, h);
    }
  }

  // ---------------------------------------------------------------------
  // Consequences for the pass of `main`, which starts from an empty map

  /** A path is a candidate exactly when it lies in a visited bucket of two
      paths or more. */
  lemma {:induction false} CandidatesMembers(index: Buckets, order: seq<int>, p: string)
    ensures p in Candidates(index, order)
        <==> exists k :: k in order && |Lookup(index, k)| >= 2 && p in Lookup(index, k)
    decreases order
  {
    if order != [] {
      CandidatesMembers(index, order[1..], p);
      assert forall k :: k in order <==> k == order[0] || k in order[1..];
    }
  }

  /** A path grouped under `h` was hashed before the pass stopped, and its
      digest is `h`. */
  lemma GroupedWasHashed(index: Buckets, order: seq<int>, hash: Hasher, h: Digest, p: string)
    requires p in Lookup(GroupFrom(map[], index, order, hash).res, h)
    ensures p in Hashed(index, order, hash) && hash(p) == Some(h)
  {
    GroupFromAppends(map[], index, order, hash, h);
    MatchingMembers(Hashed(index, order, hash), hash, h, p);
  }

  /** A path hashed before the pass stopped is grouped under its digest. */
  lemma HashedIsGrouped(index: Buckets, order: seq<int>, hash: Hasher, p: string)
    requires p in Hashed(index, order, hash)
    ensures hash(p).Some? && p in Lookup(GroupFrom(map[], index, order, hash).res, hash(p).value)
  {
    var c := Candidates(index, order);
    var hashed := Hashed(index, order, hash);
    FirstFailureIsFirst(c, hash);
    var i :| 0 <= i < |hashed| && hashed[i] == p;
    assert p == c[i];
    GroupFromAppends(map[], index, order, hash, hash(p).value);
    MatchingMembers(hashed, hash, hash(p).value, p);
  }

  /** What the pass of `main` leaves in `res`: every path in the entry of `h`
      was hashed before the pass stopped and has digest `h`; every path
      hashed before it stopped is in the entry of its digest; the pass
      completes exactly when it hashed every candidate, and otherwise it
      stopped at a candidate whose hash failed. */
  lemma GroupResult(index: Buckets, order: seq<int>, hash: Hasher)
    ensures var g := GroupFrom(map[], index, order, hash);
            && (forall h, p :: p in Lookup(g.res, h) ==> p in Hashed(index, order, hash) && hash(p) == Some(h))
            && (forall p :: p in Hashed(index, order, hash) ==>
                  hash(p).Some? && p in Lookup(g.res, hash(p).value))
            && (g.complete <==> Hashed(index, order, hash) == Candidates(index, order))
            && (!g.complete ==> hash(Candidates(index, order)[|Hashed(index, order, hash)|]).None?)
  {
    var g := GroupFrom(map[], index, order, hash);
    var c := Candidates(index, order);
    var hashed := Hashed(index, order, hash);
    forall h, p | p in Lookup(g.res, h) ensures p in hashed && hash(p) == Some(h) {
      GroupedWasHashed(index, order, hash, h, p);
    }
    forall p | p in hashed ensures hash(p).Some? && p in Lookup(g.res, hash(p).value) {
      HashedIsGrouped(index, order, hash, p);
    }
    GroupFromCompletes(map[], index, order, hash);
    FirstFailureIsFirst(c, hash);
    assert |hashed| == FirstFailure(c, hash);
  }

  /** Soundness: a path grouped under `h` has digest `h` and comes from a
      visited bucket of at least two paths, so buckets with a single path
      are never hashed. */
  lemma GroupSound(index: Buckets, order: seq<int>, hash: Hasher, h: Digest, p: string)
    requires p in Lookup(GroupFrom(map[], index, order, hash).res, h)
    ensures hash(p) == Some(h)
    ensures exists k :: k in order && |Lookup(index, k)| >= 2 && p in Lookup(index, k)
  {
    GroupedWasHashed(index, order, hash, h, p);
    var c := Candidates(index, order);
    assert p in c[..FirstFailure(c, hash)];
    CandidatesMembers(index, order, p);
  }

  /** A completed pass groups under `h` exactly the candidates with digest
      `h`. */
  lemma CompleteGroupMembers(index: Buckets, order: seq<int>, hash: Hasher, h: Digest, p: string)
    requires GroupFrom(map[], index, order, hash).complete
    ensures p in Lookup(GroupFrom(map[], index, order, hash).res, h)
        <==> p in Candidates(index, order) && hash(p) == Some(h)
  {
    var c := Candidates(index, order);
    GroupFromCompletes(map[], index, order, hash);
    GroupFromAppends(map[], index, order, hash, h);
    assert Hashed(index, order, hash) == c;
    MatchingMembers(c, hash, h, p);
  }

  /** Completeness: the pass completes exactly when every candidate hashes,
      and then every candidate is grouped under its digest. */
  lemma GroupComplete(index: Buckets, order: seq<int>, hash: Hasher)
    ensures GroupFrom(map[], index, order, hash).complete
        <==> forall p :: p in Candidates(index, order) ==> hash(p).Some?
    ensures GroupFrom(map[], index, order, hash).complete ==>
              forall p :: p in Candidates(index, order) ==>
                p in Lookup(GroupFrom(map[], index, order, hash).res, hash(p).value)
  {
    var c := Candidates(index, order);
    var n := FirstFailure(c, hash);
    GroupFromCompletes(map[], index, order, hash);
    FirstFailureIsFirst(c, hash);
    if n < |c| {
      assert c[n] in c;
    } else {
      forall p | p in c ensures hash(p).Some? && p in Lookup(GroupFrom(map[], index, order, hash).res, hash(p).value) {
        var i :| 0 <= i < |c| && c[i] == p;
        CompleteGroupMembers(index, order, hash, hash(p).value, p);
      }
    }
  }

  lemma {:induction false} CandidatesAppend(index: Buckets, xs: seq<int>, ys: seq<int>)
    ensures Candidates(index, xs + ys) == Candidates(index, xs) + Candidates(index, ys)
    decreases xs
  {
    if xs == [] {
      assert xs + ys == ys;
    } else {
      assert (xs + ys)[0] == xs[0];
      assert (xs + ys)[1..] == xs[1..] + ys;
      CandidatesAppend(index, xs[1..], ys);
    }
  }

  /** Visiting the same sizes in another order permutes the candidates. */
  lemma {:induction false} CandidatesPermutation(index: Buckets, a: seq<int>, b: seq<int>)
    requires multiset(a) == multiset(b)
    ensures multiset(Candidates(index, a)) == multiset(Candidates(index, b))
    decreases |a|
  {
    if a == [] {
      assert |b| == |multiset(b)| == 0;
    } else {
      assert a[0] in multiset(b);
      var j :| 0 <= j < |b| && b[j] == a[0];
      MultisetRemoveFirst(a, b, j);
      CandidatesPermutation(index, a[1..], b[..j] + b[j + 1..]);
      CandidatesMoveFirst(index, a, b, j);
    }
  }

  /** The step of `CandidatesPermutation`: the size visited first in `a` is
      visited at position `j` in `b`. */
  lemma CandidatesMoveFirst(index: Buckets, a: seq<int>, b: seq<int>, j: nat)
    requires 0 < |a| && j < |b| && a[0] == b[j]
    requires multiset(Candidates(index, a[1..])) == multiset(Candidates(index, b[..j] + b[j + 1..]))
    ensures multiset(Candidates(index, a)) == multiset(Candidates(index, b))
  {
    var x, pre, post := a[0], b[..j], b[j + 1..];
    var part, ca, cb := Part(index, x), Candidates(index, pre), Candidates(index, post);
    assert Candidates(index, pre + post) == ca + cb by {
      CandidatesAppend(index, pre, post);
    }
    assert Candidates(index, b) == ca + (part + cb) by {
      SplitAt(b, j);
      CandidatesAppend(index, pre, [x] + post);
      assert ([x] + post)[1..] == post;
    }
    assert Candidates(index, a) == part + Candidates(index, a[1..]);
    assert multiset(Candidates(index, a)) == multiset(part) + (multiset(ca) + multiset(cb));
  }

  /** Permuting the hashed paths permutes the paths of each digest. */
  lemma {:induction false} MatchingPermutation(a: seq<string>, b: seq<string>, hash: Hasher, h: Digest)
    requires multiset(a) == multiset(b)
    ensures multiset(Matching(a, hash, h)) == multiset(Matching(b, hash, h))
    decreases |a|
  {
    if a == [] {
      assert |b| == |multiset(b)| == 0;
    } else {
      assert a[0] in multiset(b);
      var j :| 0 <= j < |b| && b[j] == a[0];
      MultisetRemoveFirst(a, b, j);
      MatchingPermutation(a[1..], b[..j] + b[j + 1..], hash, h);
      MatchingMoveFirst(a, b, j, hash, h);
    }
  }

  /** The step of `MatchingPermutation`. */
  lemma MatchingMoveFirst(a: seq<string>, b: seq<string>, j: nat, hash: Hasher, h: Digest)
    requires 0 < |a| && j < |b| && a[0] == b[j]
    requires multiset(Matching(a[1..], hash, h)) == multiset(Matching(b[..j] + b[j + 1..], hash, h))
    ensures multiset(Matching(a, hash, h)) == multiset(Matching(b, hash, h))
  {
    var x, pre, post := a[0], b[..j], b[j + 1..];
    var own, ma, mb := (if hash(x) == Some(h) then [x] else []), Matching(pre, hash, h), Matching(post, hash, h);
    assert Matching(pre + post, hash, h) == ma + mb by {
      MatchingAppend(pre, post, hash, h);
    }
    assert Matching(b, hash, h) == ma + (own + mb) by {
      SplitAt(b, j);
      MatchingAppend(pre, [x] + post, hash, h);
      assert ([x] + post)[1..] == post;
    }
    assert Matching(a, hash, h) == own + Matching(a[1..], hash, h);
    assert multiset(Matching(a, hash, h)) == multiset(own) + (multiset(ma) + multiset(mb));
  }

  /** A completed pass groups under `h` exactly the candidates with digest
      `h`, in visiting order. */
  lemma CompleteGroupEntry(index: Buckets, order: seq<int>, hash: Hasher, h: Digest)
    requires GroupFrom(map[], index, order, hash).complete
    ensures Lookup(GroupFrom(map[], index, order, hash).res, h) == Matching(Candidates(index, order), hash, h)
  {
    GroupFromCompletes(map[], index, order, hash);
    GroupFromAppends(map[], index, order, hash, h);
    assert Hashed(index, order, hash) == Candidates(index, order);
  }

  /** The order in which `m.Range` visits the sizes decides at most which
      failure the pass meets first: two enumerations of the index either both
      complete or both stop, and when they complete each digest groups the
      same paths, each as often, in possibly another order. */
  lemma GroupOrderIndependent(index: Buckets, o1: seq<int>, o2: seq<int>, hash: Hasher, h: Digest)
    requires Enumerates(o1, index.Keys) && Enumerates(o2, index.Keys)
    ensures GroupFrom(map[], index, o1, hash).complete == GroupFrom(map[], index, o2, hash).complete
    ensures GroupFrom(map[], index, o1, hash).complete ==>
              multiset(Lookup(GroupFrom(map[], index, o1, hash).res, h))
              == multiset(Lookup(GroupFrom(map[], index, o2, hash).res, h))
  {
    var c1, c2 := Candidates(index, o1), Candidates(index, o2);
    EnumerationsArePermutations(o1, o2, index.Keys);
    CandidatesPermutation(index, o1, o2);
    forall q ensures q in c1 <==> q in c2 {
      assert q in multiset(c1) <==> q in multiset(c2);
    }
    GroupComplete(index, o1, hash);
    GroupComplete(index, o2, hash);
    if GroupFrom(map[], index, o1, hash).complete {
      CompleteGroupEntry(index, o1, hash, h);
      CompleteGroupEntry(index, o2, hash, h);
      MatchingPermutation(c1, c2, hash, h);
    }
  }

  /** The inner loop never looks at a hash outside its bucket. */
  lemma {:induction false} HashIntoAgrees(res: DigestIndex, ps: seq<string>, h1: Hasher, h2: Hasher)
    requires forall p :: p in ps ==> h1(p) == h2(p)
    ensures HashInto(res, ps, h1) == HashInto(res, ps, h2)
    decreases ps
  {
    if ps != [] && h1(ps[0]).Some? {
      var d := h1(ps[0]).value;
      HashIntoAgrees(res[d := Lookup(res, d) + [ps[0]]], ps[1..], h1, h2);
    }
  }

  /** The pass never hashes a path outside the candidates: two hash
      functions that agree on the candidates give the same result. */
  lemma {:induction false} GroupIgnoresNonCandidates(res: DigestIndex, index: Buckets, order: seq<int>,
                                                     h1: Hasher, h2: Hasher)
    requires forall p :: p in Candidates(index, order) ==> h1(p) == h2(p)
    ensures GroupFrom(res, index, order, h1) == GroupFrom(res, index, order, h2)
    decreases order
  {
    if order != [] {
      var paths := Lookup(index, order[0]);
      var c := Candidates(index, order);
      var rest := Candidates(index, order[1..]);
      assert c == Part(index, order[0]) + rest;
      if |paths| >= 2 {
        HashIntoAgrees(res, paths, h1, h2);
        GroupIgnoresNonCandidates(HashInto(res, paths, h1).res, index, order[1..], h1, h2);
      } else {
        GroupIgnoresNonCandidates(res, index, order[1..], h1, h2);
      }
    }
  }

  /** When the digest is a collision-free function of the file content and
      the recorded sizes are the content lengths, the paths grouped together
      have the same content and were recorded with the same size. */
  lemma GroupedShareContent(recs: seq<FileRecord>, order: seq<int>, hash: Hasher,
                            content: string -> seq<bv8>, digest: seq<bv8> -> Digest,
                            h: Digest, p: string, q: string)
    requires forall x :: hash(x).Some? ==> hash(x).value == digest(content(x))
    requires forall a, b :: digest(a) == digest(b) ==> a == b
    requires forall r :: r in recs ==> r.size == |content(r.path)|
    requires p in Lookup(GroupFrom(map[], InsertAll(map[], recs), order, hash).res, h)
    requires q in Lookup(GroupFrom(map[], InsertAll(map[], recs), order, hash).res, h)
    ensures content(p) == content(q)
    ensures exists k :: FileRecord(p, k) in recs && FileRecord(q, k) in recs
  {
    var index := InsertAll(map[], recs);
    InsertAllBuckets(map[], recs);
    GroupSound(index, order, hash, h, p);
    GroupSound(index, order, hash, h, q);
    var kp :| kp in order && |Lookup(index, kp)| >= 2 && p in Lookup(index, kp);
    var kq :| kq in order && |Lookup(index, kq)| >= 2 && q in Lookup(index, kq);
    assert Lookup(index, kp) == PathsOfSize(recs, kp);
    assert Lookup(index, kq) == PathsOfSize(recs, kq);
    assert FileRecord(p, kp) in recs && FileRecord(q, kq) in recs;
  }

  // ---------------------------------------------------------------------
  // The pass with a hashing failure isolated to its file

  /** The inner loop as it was evidently meant: a path whose hash fails is
      left out and the loop goes on. */
  function HashSkipping(res: DigestIndex, paths: seq<string>, hash: Hasher): DigestIndex
    decreases paths
  {
    if paths == [] then res
    else
      match hash(paths[0])
      case None => HashSkipping(res, paths[1..], hash)
      case Some(h) => HashSkipping(res[h := Lookup(res, h) + [paths[0]]], paths[1..], hash)
  }

  /** The enumeration with failures isolated: no bucket stops it. */
  function GroupSkipping(res: DigestIndex, index: Buckets, order: seq<int>, hash: Hasher): DigestIndex
    decreases order
  {
    if order == [] then res
    else
      var paths := Lookup(index, order[0]);
      var next := if |paths| < 2 then res else HashSkipping(res, paths, hash);
      GroupSkipping(next, index, order[1..], hash)
  }

  lemma {:induction false} HashSkippingAppends(res: DigestIndex, ps: seq<string>, hash: Hasher, h: Digest)
    ensures AppendedAt(HashSkipping(res, ps, hash), res, ps, hash, h)
    decreases ps
  {
    if ps == [] {
      assert Lookup(res, h) + [] == Lookup(res, h);
    } else {
      var res1 := match hash(ps[0]) case None => res case Some(d) => res[d := Lookup(res, d) + [ps[0]]];
      assert HashSkipping(res, ps, hash) == HashSkipping(res1, ps[1..], hash);
      HashSkippingAppends(res1, ps[1..], hash, h);
      assert AppendedAt(res1, res, [ps[0]], hash, h) by {
        assert [ps[0]][1..] == [];
        assert Matching([ps[0]], hash, h) == if hash(ps[0]) == Some(h) then [ps[0]] else [];
        assert Lookup(res, h) + [] == Lookup(res, h);
      }
      assert ps == [ps[0]] + ps[1..];
      AppendedAtTrans(res, res1, HashSkipping(res, ps, hash), [ps[0]], ps[1..], hash, h);
    }
  }

  lemma {:induction false} GroupSkippingAppends(res: DigestIndex, index: Buckets, order: seq<int>, hash: Hasher, h: Digest)
    ensures AppendedAt(GroupSkipping(res, index, order, hash), res, Candidates(index, order), hash, h)
    decreases order
  {
    if order == [] {
      assert Lookup(res, h) + [] == Lookup(res, h);
    } else {
      var paths := Lookup(index, order[0]);
      var next := if |paths| < 2 then res else HashSkipping(res, paths, hash);
      assert AppendedAt(next, res, Part(index, order[0]), hash, h) by {
        if |paths| < 2 {
          assert Lookup(res, h) + [] == Lookup(res, h);
        } else {
          HashSkippingAppends(res, paths, hash, h);
        }
      }
      GroupSkippingAppends(next, index, order[1..], hash, h);
      AppendedAtTrans(res, next, GroupSkipping(res, index, order, hash),
                      Part(index, order[0]), Candidates(index, order[1..]), hash, h);
    }
  }

  /** With failures isolated, every candidate that hashes is grouped under
      its digest, whatever fails elsewhere: the entry of `h` is exactly the
      candidates with digest `h`, in visiting order. */
  lemma GroupSkippingGroupsAllHashed(index: Buckets, order: seq<int>, hash: Hasher, h: Digest)
    ensures Lookup(GroupSkipping(map[], index, order, hash), h) == Matching(Candidates(index, order), hash, h)
  {
    GroupSkippingAppends(map[], index, order, hash, h);
  }

  /** The correction changes nothing when no hash fails: both passes build
      the same map. */
  lemma GroupSkippingAgreesWhenComplete(index: Buckets, order: seq<int>, hash: Hasher, h: Digest)
    requires GroupFrom(map[], index, order, hash).complete
    ensures Lookup(GroupSkipping(map[], index, order, hash), h) == Lookup(GroupFrom(map[], index, order, hash).res, h)
  {
    GroupSkippingGroupsAllHashed(index, order, hash, h);
    CompleteGroupEntry(index, order, hash, h);
  }
}
