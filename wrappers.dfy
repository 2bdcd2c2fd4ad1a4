/** The optional value used for a payload that may be missing and for a
    call that may or may not happen. */
module Wrappers {

  datatype Option<+T> = None | Some(value: T)

}

/** Sequence helpers shared by the store and the aggregation code. */
module Seqs {

  /** `Array.prototype.filter`: the elements of `s` that satisfy `p`, in
      their original order. Defined on the prefix so that a loop walking `s`
      from the left can keep it as an invariant. */
  function Filter<T(!new)>(s: seq<T>, p: T -> bool): (r: seq<T>)
    ensures |r| <= |s|
    ensures forall x :: x in r <==> x in s && p(x)
    ensures (forall x :: x in s ==> p(x)) ==> r == s
  {
    if s == [] then []
    else
      var init := s[..|s| - 1];
      assert s == init + [s[|s| - 1]];
      Filter(init, p) + (if p(s[|s| - 1]) then [s[|s| - 1]] else [])
  }

  /** Filtering a concatenation filters each part and keeps their order:
      `Filter` never reorders. */
  lemma {:induction false} FilterAppend<T(!new)>(a: seq<T>, b: seq<T>, p: T -> bool)
    ensures Filter(a + b, p) == Filter(a, p) + Filter(b, p)
    decreases |b|
  {
    if b != [] {
      var init := b[..|b| - 1];
      var last := b[|b| - 1];
      assert (a + b)[..|a + b| - 1] == a + init;
      FilterAppend(a, init, p);
    } else {
      assert a + b == a;
    }
  }

  /** Filtering keeps the relative order of the elements it keeps: a
      sequence whose keys strictly increase still has strictly increasing
      keys after filtering. */
  lemma {:induction false} FilterKeepsIncreasing<T(!new)>(s: seq<T>, p: T -> bool, key: T -> int)
    requires forall i, j :: 0 <= i < j < |s| ==> key(s[i]) < key(s[j])
    ensures forall i, j :: 0 <= i < j < |Filter(s, p)| ==> key(Filter(s, p)[i]) < key(Filter(s, p)[j])
    decreases |s|
  {
    if s != [] {
      var init := s[..|s| - 1];
      var last := s[|s| - 1];
      FilterKeepsIncreasing(init, p, key);
      var f := Filter(init, p);
      var r := Filter(s, p);
      if p(last) {
        assert r == f + [last];
        forall i, j | 0 <= i < j < |r| ensures key(r[i]) < key(r[j]) {
          if j < |f| {
            assert r[i] == f[i] && r[j] == f[j];
            assert key(f[i]) < key(f[j]);
          } else {
            assert r[i] == f[i];
            assert f[i] in init;
            var k :| 0 <= k < |init| && init[k] == f[i];
            assert r[j] == s[|s| - 1];
            assert key(s[k]) < key(s[|s| - 1]);
          }
        }
      } else {
        assert r == f;
      }
    }
  }

}
