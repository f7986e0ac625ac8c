/** Vocabulary shared by the scanner, the grouper and the reporter: optional
    values (a Go `(value, error)` pair whose error is not inspected), bucket
    lookup with Go's nil-slice default, and the orders in which Go visits the
    keys of a map. */
module Common {

  /** `None` stands for a Go call that returned a non-nil error. */
  datatype Option<+T> = None | Some(value: T)

  /** Reads a missing key as the empty slice, as Go does for `res[ch]`. */
  function Lookup<K, V>(m: map<K, seq<V>>, k: K): seq<V>
  {
    if k in m then m[k] else []
  }

  /** No element occurs twice. */
  ghost predicate Distinct<T>(s: seq<T>)
  {
    forall i, j :: 0 <= i < j < |s| ==> s[i] != s[j]
  }

  /** `order` visits every key of `keys` exactly once: the contract of a
      Go `range` over a map, whose order is otherwise unspecified. */
  ghost predicate Enumerates<T(!new)>(order: seq<T>, keys: set<T>)
  {
    && Distinct(order)
    && forall k :: k in keys <==> k in order
  }

  /** In a sequence without repetitions every element counts once. */
  lemma {:induction false} DistinctCounts<T>(s: seq<T>)
    requires Distinct(s)
    ensures forall x :: multiset(s)[x] == if x in s then 1 else 0
  {
    if s != [] {
      assert Distinct(s[1..]) by {
        forall i, j | 0 <= i < j < |s[1..]| ensures s[1..][i] != s[1..][j] {
          assert s[1..][i] == s[i + 1] && s[1..][j] == s[j + 1];
        }
      }
      DistinctCounts(s[1..]);
      assert s == [s[0]] + s[1..];
      assert s[0] !in s[1..] by {
        forall j | 0 <= j < |s[1..]| ensures s[1..][j] != s[0] {
          assert s[1..][j] == s[j + 1];
        }
      }
      forall x ensures multiset(s)[x] == if x in s then 1 else 0 {
        assert multiset(s) == multiset([s[0]]) + multiset(s[1..]);
        assert x in s <==> x == s[0] || x in s[1..];
      }
    }
  }

  /** Two enumerations of the same key set are permutations of each other. */
  lemma EnumerationsArePermutations<T(!new)>(o1: seq<T>, o2: seq<T>, keys: set<T>)
    requires Enumerates(o1, keys) && Enumerates(o2, keys)
    ensures multiset(o1) == multiset(o2)
  {
    DistinctCounts(o1);
    DistinctCounts(o2);
    forall x ensures multiset(o1)[x] == multiset(o2)[x] {
      assert (x in o1 <==> x in keys) && (x in keys <==> x in o2);
    }
  }

  /** An enumeration is as long as the set it enumerates. */
  lemma {:induction false} EnumerationSize<T(!new)>(order: seq<T>, keys: set<T>)
    requires Enumerates(order, keys)
    ensures |order| == |keys|
    decreases |order|
  {
    if order != [] {
      var rest, x := order[1..], order[0];
      assert Distinct(rest) by {
        forall i, j | 0 <= i < j < |rest| ensures rest[i] != rest[j] {
          assert rest[i] == order[i + 1] && rest[j] == order[j + 1];
        }
      }
      assert x !in rest by {
        forall j | 0 <= j < |rest| ensures rest[j] != x {
          assert rest[j] == order[j + 1];
        }
      }
      forall k ensures k in keys - {x} <==> k in rest {
        assert k in order <==> k == x || k in rest;
      }
      EnumerationSize(rest, keys - {x});
    }
  }

  /** `MultisetRemove` for the first element of `a`. */
  lemma MultisetRemoveFirst<T>(a: seq<T>, b: seq<T>, j: nat)
    requires 0 < |a| && j < |b| && a[0] == b[j] && multiset(a) == multiset(b)
    ensures multiset(a[1..]) == multiset(b[..j] + b[j + 1..])
  {
    MultisetRemove(a, 0, b, j);
    assert a[..0] + a[1..] == a[1..];
  }

  /** A sequence is its part before `j`, its element at `j` and its part
      after `j`. */
  lemma SplitAt<T>(b: seq<T>, j: nat)
    requires j < |b|
    ensures b == b[..j] + ([b[j]] + b[j + 1..])
  {
    assert b[j..] == [b[j]] + b[j + 1..];
    assert b == b[..j] + b[j..];
  }

  /** Taking the same element out of two permutations of each other leaves
      permutations of each other. */
  lemma MultisetRemove<T>(a: seq<T>, i: nat, b: seq<T>, j: nat)
    requires i < |a| && j < |b| && a[i] == b[j] && multiset(a) == multiset(b)
    ensures multiset(a[..i] + a[i + 1..]) == multiset(b[..j] + b[j + 1..])
  {
    var ra, rb := a[..i] + a[i + 1..], b[..j] + b[j + 1..];
    assert a == a[..i] + [a[i]] + a[i + 1..];
    assert b == b[..j] + [b[j]] + b[j + 1..];
    forall y ensures multiset(ra)[y] == multiset(rb)[y] {
      assert multiset(a)[y] == multiset(ra)[y] + multiset{a[i]}[y];
      assert multiset(b)[y] == multiset(rb)[y] + multiset{b[j]}[y];
    }
  }
}
