/** Sequence operations the pages use to shape form values into payloads. */
module Seqs {

  /** `xs.flatMap(f)`: the contributions of the elements, in order. `map` followed by a
      `filter` is the case where every contribution has at most one element. */
  function FlatMap<A, B>(f: A -> seq<B>, xs: seq<A>): seq<B>
  {
    if xs == [] then [] else f(xs[0]) + FlatMap(f, xs[1..])
  }

  /** The contributions of a concatenation are those of each part in turn. */
  lemma {:induction false} FlatMapAppend<A, B>(f: A -> seq<B>, a: seq<A>, b: seq<A>)
    ensures FlatMap(f, a + b) == FlatMap(f, a) + FlatMap(f, b)
  {
    if a == [] {
      assert a + b == b;
    } else {
      var ab := a + b;
      assert ab != [] && ab[0] == a[0] && ab[1..] == a[1..] + b;
      FlatMapAppend(f, a[1..], b);
      var x, ra, rb := f(a[0]), FlatMap(f, a[1..]), FlatMap(f, b);
      assert FlatMap(f, ab) == x + FlatMap(f, a[1..] + b);
      assert FlatMap(f, a) == x + ra;
      assert x + (ra + rb) == (x + ra) + rb;
    }
  }

  /** An element of the result comes from some element of the input, and every element's
      contribution is in the result. */
  lemma {:induction false} FlatMapMembers<A, B>(f: A -> seq<B>, xs: seq<A>, y: B)
    ensures y in FlatMap(f, xs) <==> exists k :: 0 <= k < |xs| && y in f(xs[k])
  {
    if xs != [] {
      FlatMapMembers(f, xs[1..], y);
      assert FlatMap(f, xs) == f(xs[0]) + FlatMap(f, xs[1..]);
      if exists k :: 0 <= k < |xs| && y in f(xs[k]) {
        var k :| 0 <= k < |xs| && y in f(xs[k]);
        if k > 0 {
          assert xs[1..][k - 1] == xs[k];
        }
      }
      if exists k :: 0 <= k < |xs[1..]| && y in f(xs[1..][k]) {
        var k :| 0 <= k < |xs[1..]| && y in f(xs[1..][k]);
        assert xs[k + 1] == xs[1..][k];
      }
    }
  }

  /** When every element contributes exactly one value, the result is those values. */
  lemma {:induction false} FlatMapOfSingletons<A, B>(f: A -> seq<B>, xs: seq<A>, ys: seq<B>)
    requires |xs| == |ys|
    requires forall k :: 0 <= k < |xs| ==> f(xs[k]) == [ys[k]]
    ensures FlatMap(f, xs) == ys
  {
    if xs != [] {
      assert f(xs[0]) == [ys[0]];
      assert forall k :: 0 <= k < |xs[1..]| ==> f(xs[1..][k]) == [ys[1..][k]] by {
        forall k | 0 <= k < |xs[1..]| ensures f(xs[1..][k]) == [ys[1..][k]] {
          assert xs[1..][k] == xs[k + 1] && ys[1..][k] == ys[k + 1];
        }
      }
      FlatMapOfSingletons(f, xs[1..], ys[1..]);
      assert ys == [ys[0]] + ys[1..];
    }
  }

  /** A filter never lengthens its input. */
  lemma {:induction false} FlatMapAtMostOne<A, B>(f: A -> seq<B>, xs: seq<A>)
    requires forall x :: |f(x)| <= 1
    ensures |FlatMap(f, xs)| <= |xs|
  {
    if xs != [] {
      FlatMapAtMostOne(f, xs[1..]);
    }
  }

  /** Taking the first element off and putting it back, in front of a concatenation. */
  lemma ConsAppend<A>(xs: seq<A>, ys: seq<A>)
    requires xs != []
    ensures [xs[0]] + (xs[1..] + ys) == xs + ys
    ensures (xs + ys)[0] == xs[0] && (xs + ys)[1..] == xs[1..] + ys
  {
    assert xs == [xs[0]] + xs[1..];
  }

  /** When every element contributes at most one value, the `j`-th value of the result is
      the contribution of some element `k`, and the elements before `k` contribute exactly
      the `j` values before it: the result is a subsequence of the contributions, in order. */
  lemma {:induction false} FlatMapSource<A, B>(f: A -> seq<B>, xs: seq<A>, j: nat)
    requires forall x :: |f(x)| <= 1
    requires j < |FlatMap(f, xs)|
    ensures exists k :: 0 <= k < |xs| && f(xs[k]) == [FlatMap(f, xs)[j]] && |FlatMap(f, xs[..k])| == j
  {
    var c := f(xs[0]);
    var rest := FlatMap(f, xs[1..]);
    assert FlatMap(f, xs) == c + rest;
    if c != [] && j == 0 {
      assert xs[..0] == [];
      assert f(xs[0]) == [FlatMap(f, xs)[0]];
    } else {
      var j' := j - |c|;
      FlatMapSource(f, xs[1..], j');
      var k' :| 0 <= k' < |xs[1..]| && f(xs[1..][k']) == [rest[j']] && |FlatMap(f, xs[1..][..k'])| == j';
      var k := k' + 1;
      var prefix := xs[..k];
      assert prefix[0] == xs[0] && prefix[1..] == xs[1..][..k'];
      assert FlatMap(f, prefix) == c + FlatMap(f, xs[1..][..k']);
      assert FlatMap(f, xs)[j] == rest[j'];
      assert xs[k] == xs[1..][k'];
    }
  }

  /** The map that records each element under its key, in order, so that a later element
      replaces an earlier one with the same key. */
  function KeyedBy<A, K, V>(xs: seq<A>, key: A -> K, value: A -> V): map<K, V>
  {
    if xs == [] then map[]
    else KeyedBy(xs[..|xs| - 1], key, value)[key(xs[|xs| - 1]) := value(xs[|xs| - 1])]
  }

  /** The keys are those of the elements, and each entry is the value of an element with
      that key. */
  lemma {:induction false} KeyedByEntries<A, K, V>(xs: seq<A>, key: A -> K, value: A -> V)
    ensures forall k :: 0 <= k < |xs| ==> key(xs[k]) in KeyedBy(xs, key, value)
    ensures forall v :: v in KeyedBy(xs, key, value) ==>
              exists k :: 0 <= k < |xs| && key(xs[k]) == v && KeyedBy(xs, key, value)[v] == value(xs[k])
  {
    if xs != [] {
      var n := |xs| - 1;
      var init := xs[..n];
      KeyedByEntries(init, key, value);
      var m0 := KeyedBy(init, key, value);
      var m := KeyedBy(xs, key, value);
      assert m == m0[key(xs[n]) := value(xs[n])];
      forall k | 0 <= k < |xs| ensures key(xs[k]) in m {
        if k < n {
          assert init[k] == xs[k];
        }
      }
      forall v | v in m
        ensures exists k :: 0 <= k < |xs| && key(xs[k]) == v && m[v] == value(xs[k])
      {
        if v != key(xs[n]) {
          var k :| 0 <= k < |init| && key(init[k]) == v && m0[v] == value(init[k]);
          assert init[k] == xs[k];
        }
      }
    }
  }
}
