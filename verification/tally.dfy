/** Counting occurrences: one entry per distinct key, in the order keys are
    first seen, each holding how often its key occurs. A JavaScript object
    built by `reduce` agrees with this for keys that are neither integer-like
    nor the names of `Object.prototype` properties. */
module Tally {

  /** How often `k` occurs in `xs`. */
  function Count<K(==)>(xs: seq<K>, k: K): nat
    decreases |xs|
  {
    if |xs| == 0 then 0
    else Count(xs[..|xs| - 1], k) + (if xs[|xs| - 1] == k then 1 else 0)
  }

  /** How many elements of `xs` satisfy `p`. */
  function CountIf<T>(xs: seq<T>, p: T -> bool): (n: nat)
    ensures n <= |xs|
    decreases |xs|
  {
    if |xs| == 0 then 0
    else CountIf(xs[..|xs| - 1], p) + (if p(xs[|xs| - 1]) then 1 else 0)
  }

  /** The elements satisfying `p` and those satisfying its negation `q`
      make up the whole. */
  lemma {:induction false} CountIfSplit<T>(xs: seq<T>, p: T -> bool, q: T -> bool)
    requires forall x :: q(x) == !p(x)
    ensures CountIf(xs, p) + CountIf(xs, q) == |xs|
    decreases |xs|
  {
    if |xs| > 0 {
      CountIfSplit(xs[..|xs| - 1], p, q);
    }
  }

  /** Two conditions that never hold together count at most the whole. */
  lemma {:induction false} CountIfDisjoint<T>(xs: seq<T>, p: T -> bool, q: T -> bool)
    requires forall x :: !(p(x) && q(x))
    ensures CountIf(xs, p) + CountIf(xs, q) <= |xs|
    decreases |xs|
  {
    if |xs| > 0 {
      CountIfDisjoint(xs[..|xs| - 1], p, q);
    }
  }

  /** Some entry of `t` has key `k`. */
  predicate HasKey<K(==)>(t: seq<(K, nat)>, k: K) {
    exists i :: 0 <= i < |t| && t[i].0 == k
  }

  /** The keys of a tally, in order. */
  function KeysOf<K>(t: seq<(K, nat)>): (ks: seq<K>)
    ensures |ks| == |t| && forall i :: 0 <= i < |t| ==> ks[i] == t[i].0
  {
    seq(|t|, i requires 0 <= i < |t| => t[i].0)
  }

  function Sum<K>(t: seq<(K, nat)>): nat
    decreases |t|
  {
    if |t| == 0 then 0 else t[0].1 + Sum(t[1..])
  }

  predicate DistinctKeys<K(==)>(t: seq<(K, nat)>) {
    forall i, j :: 0 <= i < j < |t| ==> t[i].0 != t[j].0
  }

  /** Past a first entry with another key, `k` is a key of the tally iff it
      is one of the rest. */
  lemma HasKeyTail<K>(t: seq<(K, nat)>, k: K)
    requires |t| > 0 && t[0].0 != k
    ensures HasKey(t, k) <==> HasKey(t[1..], k)
  {
    if HasKey(t, k) {
      var i :| 0 <= i < |t| && t[i].0 == k;
      assert t[1..][i - 1].0 == k;
    }
    if HasKey(t[1..], k) {
      var i :| 0 <= i < |t[1..]| && t[1..][i].0 == k;
      assert t[i + 1].0 == k;
    }
  }

  lemma SumCons<K>(x: (K, nat), rest: seq<(K, nat)>)
    ensures Sum([x] + rest) == x.1 + Sum(rest)
  {
    assert ([x] + rest)[1..] == rest;
  }

  /** `acc[k] = (acc[k] || 0) + 1`: the entry for `k` goes up by one, or a
      new entry holding 1 is appended; every other entry stays. */
  function Bump<K(==)>(t: seq<(K, nat)>, k: K): (r: seq<(K, nat)>)
    requires DistinctKeys(t)
    ensures |r| == (if HasKey(t, k) then |t| else |t| + 1)
    ensures forall i :: 0 <= i < |t| ==> r[i].0 == t[i].0 && r[i].1 == t[i].1 + (if t[i].0 == k then 1 else 0)
    ensures !HasKey(t, k) ==> r[|t|] == (k, 1)
    decreases |t|
  {
    if |t| == 0 then [(k, 1)]
    else if t[0].0 == k then
      assert HasKey(t, k);
      assert forall i :: 1 <= i < |t| ==> t[i].0 != k;
      [(k, t[0].1 + 1)] + t[1..]
    else
      HasKeyTail(t, k);
      var rest := Bump(t[1..], k);
      assert forall i :: 1 <= i < |t| ==> t[1..][i - 1] == t[i];
      [t[0]] + rest
  }

  /** Bumping keeps the keys distinct. */
  lemma BumpDistinct<K>(t: seq<(K, nat)>, k: K)
    requires DistinctKeys(t)
    ensures DistinctKeys(Bump(t, k))
  {
    var r := Bump(t, k);
    forall i, j | 0 <= i < j < |r| ensures r[i].0 != r[j].0 {
      if j == |t| {
        assert r[j].0 == k && !HasKey(t, k) && r[i].0 == t[i].0;
      }
    }
  }

  /** Bumping adds exactly one to the total. */
  lemma {:induction false} BumpSum<K>(t: seq<(K, nat)>, k: K)
    requires DistinctKeys(t)
    ensures Sum(Bump(t, k)) == Sum(t) + 1
    decreases |t|
  {
    if |t| == 0 {
      assert Sum([(k, 1)]) == 1 + Sum<K>([]);
    } else if t[0].0 == k {
      assert t == [t[0]] + t[1..];
      SumCons(t[0], t[1..]);
      SumCons((k, t[0].1 + 1), t[1..]);
    } else {
      assert DistinctKeys(t[1..]);
      BumpSum(t[1..], k);
      assert t == [t[0]] + t[1..];
      SumCons(t[0], t[1..]);
      SumCons(t[0], Bump(t[1..], k));
    }
  }

  /** The first-seen tally of `xs`. */
  function TallyOf<K(==)>(xs: seq<K>): (t: seq<(K, nat)>)
    ensures DistinctKeys(t)
    decreases |xs|
  {
    if |xs| == 0 then []
    else
      BumpDistinct(TallyOf(xs[..|xs| - 1]), xs[|xs| - 1]);
      Bump(TallyOf(xs[..|xs| - 1]), xs[|xs| - 1])
  }

  lemma {:induction false} CountAbsent<K>(xs: seq<K>, k: K)
    requires k !in xs
    ensures Count(xs, k) == 0
    decreases |xs|
  {
    if |xs| > 0 {
      assert xs[..|xs| - 1] <= xs;
      CountAbsent(xs[..|xs| - 1], k);
    }
  }

  /** The keys of the tally are exactly the elements of `xs`. */
  lemma {:induction false} TallyKeys<K>(xs: seq<K>)
    ensures forall x :: HasKey(TallyOf(xs), x) <==> x in xs
    decreases |xs|
  {
    if |xs| > 0 {
      var init := xs[..|xs| - 1];
      var x := xs[|xs| - 1];
      TallyKeys(init);
      var t := TallyOf(init);
      var r := TallyOf(xs);
      assert xs == init + [x];
      forall y ensures HasKey(r, y) <==> y in xs {
        if HasKey(r, y) {
          var i :| 0 <= i < |r| && r[i].0 == y;
          if i < |t| { assert t[i].0 == y; assert HasKey(t, y); }
        }
        if y in init {
          assert HasKey(t, y);
          var i :| 0 <= i < |t| && t[i].0 == y;
          assert r[i].0 == y;
        }
        if y == x {
          if HasKey(t, x) {
            var i :| 0 <= i < |t| && t[i].0 == x;
            assert r[i].0 == x;
          } else {
            assert r[|t|].0 == x;
          }
        }
      }
    }
  }

  /** Every entry of the tally holds its key's number of occurrences, which
      is at least one. */
  lemma {:induction false} TallyCounts<K>(xs: seq<K>)
    ensures forall i :: 0 <= i < |TallyOf(xs)| ==> TallyOf(xs)[i].1 == Count(xs, TallyOf(xs)[i].0) > 0
    decreases |xs|
  {
    if |xs| > 0 {
      var init := xs[..|xs| - 1];
      var x := xs[|xs| - 1];
      TallyCounts(init);
      TallyKeys(init);
      var t := TallyOf(init);
      var r := TallyOf(xs);
      forall i | 0 <= i < |r| ensures r[i].1 == Count(xs, r[i].0) > 0 {
        if i >= |t| {
          assert !HasKey(t, x) && r[i] == (x, 1);
          assert x !in init;
          CountAbsent(init, x);
        }
      }
    }
  }

  /** The counts of the tally add up to the number of elements. */
  lemma {:induction false} TallySum<K>(xs: seq<K>)
    ensures Sum(TallyOf(xs)) == |xs|
    decreases |xs|
  {
    if |xs| > 0 {
      TallySum(xs[..|xs| - 1]);
      BumpSum(TallyOf(xs[..|xs| - 1]), xs[|xs| - 1]);
    }
  }
}
