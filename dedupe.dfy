/**
  First-occurrence deduplication: lodash's `uniqBy(list, key)` and, with the
  identity as key, `[...new Set(list)]`.
*/
module Dedupe {

  /** Keeps `s[i]` when its key is neither in `seen` nor the key of an earlier element. */
  function UniqByFrom<T, K(==)>(s: seq<T>, key: T -> K, seen: set<K>): seq<T>
  {
    if s == [] then []
    else if key(s[0]) in seen then UniqByFrom(s[1..], key, seen)
    else [s[0]] + UniqByFrom(s[1..], key, seen + {key(s[0])})
  }

  function UniqBy<T, K(==)>(s: seq<T>, key: T -> K): seq<T>
  {
    UniqByFrom(s, key, {})
  }

  /** The index of the first element of `s` whose key is `k`, or `|s|` when there is none. */
  function FirstIndex<T, K(==)>(s: seq<T>, key: T -> K, k: K): (i: nat)
    ensures i <= |s|
    ensures i < |s| ==> key(s[i]) == k
    ensures forall j | 0 <= j < i :: key(s[j]) != k
  {
    if s == [] then 0
    else if key(s[0]) == k then 0
    else 1 + FirstIndex(s[1..], key, k)
  }

  ghost function Keys<T, K>(s: seq<T>, key: T -> K): set<K>
  {
    set x | x in s :: key(x)
  }

  /** Each element kept from `s` has an unseen key and is the first element of `s` with that key. */
  lemma {:induction false} UniqByFromKept<T, K>(s: seq<T>, key: T -> K, seen: set<K>)
    ensures forall j | 0 <= j < |UniqByFrom(s, key, seen)| ::
      && key(UniqByFrom(s, key, seen)[j]) !in seen
      && FirstIndex(s, key, key(UniqByFrom(s, key, seen)[j])) < |s|
      && UniqByFrom(s, key, seen)[j] == s[FirstIndex(s, key, key(UniqByFrom(s, key, seen)[j]))]
  {
    if s != [] {
      var k0 := key(s[0]);
      var tail := s[1..];
      if k0 in seen {
        var r := UniqByFrom(tail, key, seen);
        UniqByFromKept(tail, key, seen);
        forall j | 0 <= j < |r|
          ensures FirstIndex(s, key, key(r[j])) == 1 + FirstIndex(tail, key, key(r[j]))
        {
          assert key(r[j]) != key(s[0]);
        }
      } else {
        var rest := UniqByFrom(tail, key, seen + {k0});
        UniqByFromKept(tail, key, seen + {k0});
        assert FirstIndex(s, key, k0) == 0;
        forall j | 0 <= j < |rest|
          ensures FirstIndex(s, key, key(rest[j])) == 1 + FirstIndex(tail, key, key(rest[j]))
        {
          assert key(rest[j]) != key(s[0]);
        }
        assert forall j | 1 <= j < |[s[0]] + rest| :: ([s[0]] + rest)[j] == rest[j - 1];
      }
    }
  }

  /** The kept elements appear in the order of the first occurrences of their keys. */
  lemma {:induction false} UniqByFromOrder<T, K>(s: seq<T>, key: T -> K, seen: set<K>)
    ensures forall j1, j2 | 0 <= j1 < j2 < |UniqByFrom(s, key, seen)| ::
      FirstIndex(s, key, key(UniqByFrom(s, key, seen)[j1]))
      < FirstIndex(s, key, key(UniqByFrom(s, key, seen)[j2]))
  {
    if s != [] {
      var k0 := key(s[0]);
      var tail := s[1..];
      if k0 in seen {
        var r := UniqByFrom(tail, key, seen);
        UniqByFromOrder(tail, key, seen);
        UniqByFromKept(tail, key, seen);
        forall j | 0 <= j < |r|
          ensures FirstIndex(s, key, key(r[j])) == 1 + FirstIndex(tail, key, key(r[j]))
        {
          assert key(r[j]) != key(s[0]);
        }
      } else {
        var rest := UniqByFrom(tail, key, seen + {k0});
        UniqByFromOrder(tail, key, seen + {k0});
        UniqByFromKept(tail, key, seen + {k0});
        assert FirstIndex(s, key, k0) == 0;
        forall j | 0 <= j < |rest|
          ensures FirstIndex(s, key, key(rest[j])) == 1 + FirstIndex(tail, key, key(rest[j]))
        {
          assert key(rest[j]) != key(s[0]);
        }
        assert forall j | 1 <= j < |[s[0]] + rest| :: ([s[0]] + rest)[j] == rest[j - 1];
      }
    }
  }

  /** The kept keys are exactly the keys of `s` that were not seen before. */
  lemma {:induction false} UniqByFromKeys<T, K>(s: seq<T>, key: T -> K, seen: set<K>)
    ensures Keys(UniqByFrom(s, key, seen), key) == Keys(s, key) - seen
  {
    if s != [] {
      var k0 := key(s[0]);
      var tail := s[1..];
      assert Keys(s, key) == {k0} + Keys(tail, key) by {
        assert forall x | x in s :: x == s[0] || x in tail;
      }
      if k0 in seen {
        UniqByFromKeys(tail, key, seen);
      } else {
        var rest := UniqByFrom(tail, key, seen + {k0});
        UniqByFromKeys(tail, key, seen + {k0});
        assert Keys([s[0]] + rest, key) == {k0} + Keys(rest, key) by {
          assert forall x | x in [s[0]] + rest :: x == s[0] || x in rest;
        }
      }
    }
  }

  /**
    `uniqBy` keeps, for every key of the input, exactly the first element
    with that key, and lists the kept elements in the order of their first
    occurrence.
  */
  lemma UniqByKeepsFirstOccurrences<T, K>(s: seq<T>, key: T -> K)
    ensures var r := UniqBy(s, key);
      && (forall j | 0 <= j < |r| ::
            FirstIndex(s, key, key(r[j])) < |s| && r[j] == s[FirstIndex(s, key, key(r[j]))])
      && (forall j1, j2 | 0 <= j1 < j2 < |r| ::
            FirstIndex(s, key, key(r[j1])) < FirstIndex(s, key, key(r[j2])))
      && Keys(r, key) == Keys(s, key)
  {
    UniqByFromKept(s, key, {});
    UniqByFromOrder(s, key, {});
    UniqByFromKeys(s, key, {});
  }

  /** The kept elements have pairwise distinct keys. */
  lemma UniqByDistinct<T, K>(s: seq<T>, key: T -> K)
    ensures var r := UniqBy(s, key);
      forall j1, j2 | 0 <= j1 < j2 < |r| :: key(r[j1]) != key(r[j2])
  {
    UniqByKeepsFirstOccurrences(s, key);
  }

  /** Every kept element is an element of the input. */
  lemma {:induction false} UniqBySubset<T, K>(s: seq<T>, key: T -> K, seen: set<K>)
    ensures forall x | x in UniqByFrom(s, key, seen) :: x in s
  {
    if s != [] {
      UniqBySubset(s[1..], key, seen);
      UniqBySubset(s[1..], key, seen + {key(s[0])});
    }
  }

  lemma {:induction false} UniqByFromDistinct<T, K>(s: seq<T>, key: T -> K, seen: set<K>)
    requires forall j | 0 <= j < |s| :: key(s[j]) !in seen
    requires forall j1, j2 | 0 <= j1 < j2 < |s| :: key(s[j1]) != key(s[j2])
    ensures UniqByFrom(s, key, seen) == s
  {
    if s != [] {
      UniqByFromDistinct(s[1..], key, seen + {key(s[0])});
      assert [s[0]] + s[1..] == s;
    }
  }

  /** A list whose keys are already distinct is kept as it is. */
  lemma UniqByOfDistinct<T, K>(s: seq<T>, key: T -> K)
    requires forall j1, j2 | 0 <= j1 < j2 < |s| :: key(s[j1]) != key(s[j2])
    ensures UniqBy(s, key) == s
  {
    UniqByFromDistinct(s, key, {});
  }
}
