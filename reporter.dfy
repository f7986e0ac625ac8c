/** The report at the end of `main`: every digest with at least two paths is
    a group of identical files; the program counts the groups and the files
    in them while ranging over `res`. */
module Reporter {
  import opened Common
  import opened Grouper

  /** The digests that name a group of duplicates. */
  ghost function Duplicates(res: DigestIndex): set<Digest>
  {
    set h | h in res && |res[h]| >= 2
  }

  /** The digests of `order` whose group is reported, in order. */
  function Shown(res: DigestIndex, order: seq<Digest>): seq<Digest>
  {
    if order == [] then []
    else
      var h := order[|order| - 1];
      Shown(res, order[..|order| - 1]) + (if |Lookup(res, h)| >= 2 then [h] else [])
  }

  /** The number of paths under the digests `hs`. */
  function PathCount(res: DigestIndex, hs: seq<Digest>): nat
  {
    if hs == [] then 0 else PathCount(res, hs[..|hs| - 1]) + |Lookup(res, hs[|hs| - 1])|
  }

  /** The counting loop of `main`, with `order` the order in which the
      `range` over `res` visits its digests. `shown` lists the groups whose
      header and paths are printed; `nbGroups` counts them and `nbIdentic`
      counts their paths. When `order` enumerates `res`, the groups shown
      are exactly the digests with two paths or more, each once, and every
      group contributes at least two files. */
  method Count(res: DigestIndex, order: seq<Digest>) returns (shown: seq<Digest>, nbGroups: nat, nbIdentic: nat)
    ensures shown == Shown(res, order)
    ensures nbGroups == |shown| && nbIdentic == PathCount(res, shown)
    ensures Enumerates(order, res.Keys) ==>
              && Enumerates(shown, Duplicates(res))
              && nbGroups == |Duplicates(res)|
              && nbIdentic >= 2 * nbGroups
  {
    shown, nbGroups, nbIdentic := [], 0, 0;
    var i := 0;
    while i < |order|
      invariant 0 <= i <= |order|
      invariant shown == Shown(res, order[..i])
      invariant nbGroups == |shown| && nbIdentic == PathCount(res, shown)
    {
      assert order[..i + 1][..i] == order[..i];
      var h := order[i];
      var listfiles := Lookup(res, h);
      if |listfiles| >= 2 {
        assert (shown + [h])[..|shown|] == shown;
        shown := shown + [h];
        nbGroups := nbGroups + 1;
        nbIdentic := nbIdentic + |listfiles|;
      }
      i := i + 1;
    }
    assert order[..i] == order;
    if Enumerates(order, res.Keys) {
      ShownEnumerates(res, order);
      EnumerationSize(shown, Duplicates(res));
      forall i | 0 <= i < |shown| ensures |Lookup(res, shown[i])| >= 2 {
        ShownMembers(res, order, shown[i]);
      }
      PathCountAtLeastTwice(res, shown);
    }
  }

  /** A digest is shown exactly when it is visited and has two paths or more. */
  lemma {:induction false} ShownMembers(res: DigestIndex, order: seq<Digest>, h: Digest)
    ensures h in Shown(res, order) <==> h in order && |Lookup(res, h)| >= 2
    decreases |order|
  {
    if order != [] {
      var init := order[..|order| - 1];
      ShownMembers(res, init, h);
      assert order == init + [order[|order| - 1]];
    }
  }

  /** Filtering keeps a sequence free of repetitions. */
  lemma {:induction false} ShownDistinct(res: DigestIndex, order: seq<Digest>)
    requires Distinct(order)
    ensures Distinct(Shown(res, order))
    decreases |order|
  {
    if order != [] {
      var init, last := order[..|order| - 1], order[|order| - 1];
      assert Distinct(init) by {
        forall i, j | 0 <= i < j < |init| ensures init[i] != init[j] {
          assert init[i] == order[i] && init[j] == order[j];
        }
      }
      ShownDistinct(res, init);
      var s := Shown(res, init);
      if |Lookup(res, last)| >= 2 {
        assert last !in init by {
          forall i | 0 <= i < |init| ensures init[i] != last {
            assert init[i] == order[i];
          }
        }
        ShownMembers(res, init, last);
        forall i, j | 0 <= i < j < |s + [last]| ensures (s + [last])[i] != (s + [last])[j] {
          if j == |s| {
            assert (s + [last])[i] == s[i] && s[i] in s;
          } else {
            assert (s + [last])[i] == s[i] && (s + [last])[j] == s[j];
          }
        }
      } else {
        assert Shown(res, order) == s + [];
      }
    }
  }

  /** Ranging over `res` shows every group of duplicates exactly once. */
  lemma ShownEnumerates(res: DigestIndex, order: seq<Digest>)
    requires Enumerates(order, res.Keys)
    ensures Enumerates(Shown(res, order), Duplicates(res))
  {
    ShownDistinct(res, order);
    forall h ensures h in Duplicates(res) <==> h in Shown(res, order) {
      ShownMembers(res, order, h);
    }
  }

  /** A group of duplicates holds two paths or more, so the files counted
      are at least twice the groups counted. */
  lemma {:induction false} PathCountAtLeastTwice(res: DigestIndex, hs: seq<Digest>)
    requires forall i :: 0 <= i < |hs| ==> |Lookup(res, hs[i])| >= 2
    ensures PathCount(res, hs) >= 2 * |hs|
    decreases |hs|
  {
    if hs != [] {
      var init := hs[..|hs| - 1];
      assert forall i :: 0 <= i < |init| ==> init[i] == hs[i];
      PathCountAtLeastTwice(res, init);
    }
  }

  lemma {:induction false} PathCountAppend(res: DigestIndex, xs: seq<Digest>, ys: seq<Digest>)
    ensures PathCount(res, xs + ys) == PathCount(res, xs) + PathCount(res, ys)
    decreases |ys|
  {
    if ys == [] {
      assert xs + ys == xs;
    } else {
      var init := ys[..|ys| - 1];
      assert (xs + ys)[..|xs + ys| - 1] == xs + init;
      PathCountAppend(res, xs, init);
    }
  }

  /** The number of paths does not depend on the order of the digests. */
  lemma {:induction false} PathCountPermutation(res: DigestIndex, a: seq<Digest>, b: seq<Digest>)
    requires multiset(a) == multiset(b)
    ensures PathCount(res, a) == PathCount(res, b)
    decreases |a|
  {
    if a == [] {
      assert |b| == |multiset(b)| == 0;
    } else {
      var init, x := a[..|a| - 1], a[|a| - 1];
      assert a == init + [x];
      assert x in multiset(b);
      var j :| 0 <= j < |b| && b[j] == x;
      var rest := b[..j] + b[j + 1..];
      assert b == b[..j] + [x] + b[j + 1..];
      MultisetRemove(a, |a| - 1, b, j);
      assert a[..|a| - 1] + a[|a|..] == init;
      PathCountPermutation(res, init, rest);
      PathCountAppend(res, b[..j] + [x], b[j + 1..]);
      PathCountAppend(res, b[..j], [x]);
      PathCountAppend(res, b[..j], b[j + 1..]);
      assert PathCount(res, [x]) == |Lookup(res, x)| by {
        assert [x][..0] == [];
      }
    }
  }

  /** The totals printed do not depend on the order in which `range`
      visits `res`. */
  lemma CountOrderIndependent(res: DigestIndex, o1: seq<Digest>, o2: seq<Digest>)
    requires Enumerates(o1, res.Keys) && Enumerates(o2, res.Keys)
    ensures |Shown(res, o1)| == |Shown(res, o2)| == |Duplicates(res)|
    ensures PathCount(res, Shown(res, o1)) == PathCount(res, Shown(res, o2))
  {
    ShownEnumerates(res, o1);
    ShownEnumerates(res, o2);
    EnumerationSize(Shown(res, o1), Duplicates(res));
    EnumerationSize(Shown(res, o2), Duplicates(res));
    EnumerationsArePermutations(Shown(res, o1), Shown(res, o2), Duplicates(res));
    PathCountPermutation(res, Shown(res, o1), Shown(res, o2));
  }
}
