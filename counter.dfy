/**
 * Python's `collections.Counter` with string keys, and a `defaultdict(Counter)`, as the
 * statistics script uses them. A dict keeps its keys in insertion order, so a counter is a
 * list of (key, count) entries: `c[k] += 1` bumps the entry of `k` where it stands and
 * appends `(k, 1)` for a key not seen before.
 */
module Counters {
  type Counter = seq<(string, nat)>

  predicate Has(c: Counter, k: string) {
    exists i :: 0 <= i < |c| && c[i].0 == k
  }

  /** A dict never holds a key twice. */
  predicate DistinctKeys(c: Counter) {
    forall i, j :: 0 <= i < j < |c| ==> c[i].0 != c[j].0
  }

  /** Every key that was ever incremented has a count of at least one. */
  predicate Positive(c: Counter) {
    forall i :: 0 <= i < |c| ==> c[i].1 >= 1
  }

  /** `c[k]`: the count of `k`, zero for a key that is absent. */
  function Get(c: Counter, k: string): nat {
    if c == [] then 0 else if c[0].0 == k then c[0].1 else Get(c[1..], k)
  }

  /** `sum(c.values())`. */
  function Sum(c: Counter): nat {
    if c == [] then 0 else c[0].1 + Sum(c[1..])
  }

  lemma HasCons(c: Counter)
    requires c != []
    ensures forall x :: Has(c, x) <==> c[0].0 == x || Has(c[1..], x)
  {
    forall x ensures Has(c, x) <==> c[0].0 == x || Has(c[1..], x) {
      if Has(c, x) && c[0].0 != x {
        var i :| 0 <= i < |c| && c[i].0 == x;
        assert c[1..][i - 1].0 == x;
      }
      if Has(c[1..], x) {
        var i :| 0 <= i < |c[1..]| && c[1..][i].0 == x;
        assert c[i + 1].0 == x;
      }
    }
  }

  /** `c[k] += 1`: the count of `k` goes up by one and no other count changes. */
  function Inc(c: Counter, k: string): (r: Counter)
    ensures forall x :: Get(r, x) == Get(c, x) + (if x == k then 1 else 0)
    ensures Sum(r) == Sum(c) + 1
  {
    if c == [] then [(k, 1)]
    else if c[0].0 == k then [(k, c[0].1 + 1)] + c[1..]
    else
      var rest := Inc(c[1..], k);
      var r := [c[0]] + rest;
      assert r[1..] == rest;
      r
  }

  /** An existing key keeps its place; a new key is appended with count one. */
  lemma {:induction false} IncKeys(c: Counter, k: string)
    ensures |Inc(c, k)| == if Has(c, k) then |c| else |c| + 1
    ensures forall i :: 0 <= i < |c| ==> Inc(c, k)[i].0 == c[i].0
    ensures !Has(c, k) ==> Inc(c, k)[|c|] == (k, 1)
    ensures forall x :: Has(Inc(c, k), x) <==> Has(c, x) || x == k
  {
    var r := Inc(c, k);
    if c == [] {
      assert r[0].0 == k;
    } else {
      HasCons(c);
      HasCons(r);
      if c[0].0 != k {
        IncKeys(c[1..], k);
        assert r[1..] == Inc(c[1..], k);
      } else {
        assert r[1..] == c[1..];
      }
    }
  }

  lemma {:induction false} IncPositive(c: Counter, k: string)
    requires Positive(c)
    ensures Positive(Inc(c, k))
  {
    if c != [] && c[0].0 != k {
      IncPositive(c[1..], k);
      assert Inc(c, k)[1..] == Inc(c[1..], k);
    }
  }

  /** Incrementing keeps the keys distinct. */
  lemma {:induction false} IncDistinct(c: Counter, k: string)
    requires DistinctKeys(c)
    ensures DistinctKeys(Inc(c, k))
  {
    var r := Inc(c, k);
    IncKeys(c, k);
    if !Has(c, k) {
      forall i, j | 0 <= i < j < |r|
        ensures r[i].0 != r[j].0
      {
        if j == |c| {
          assert c[i].0 != k;
        }
      }
    }
  }

  /** With distinct keys, the count of the key of entry `i` is that entry's count. */
  lemma {:induction false} GetAt(c: Counter, i: nat)
    requires DistinctKeys(c) && i < |c|
    ensures Get(c, c[i].0) == c[i].1
  {
    if i > 0 {
      assert c[1..][i - 1] == c[i];
      GetAt(c[1..], i - 1);
    }
  }

  /** A key that is present has a positive count. */
  lemma {:induction false} GetPositive(c: Counter, k: string)
    requires Positive(c) && Has(c, k)
    ensures Get(c, k) >= 1
  {
    if c[0].0 != k {
      var i :| 0 <= i < |c| && c[i].0 == k;
      assert c[1..][i - 1].0 == k;
      GetPositive(c[1..], k);
    }
  }

  /** The number of distinct keys is at most the total: `len(c) <= sum(c.values())`. */
  lemma {:induction false} SizeAtMostSum(c: Counter)
    requires Positive(c)
    ensures |c| <= Sum(c)
  {
    if c != [] {
      SizeAtMostSum(c[1..]);
    }
  }

  /** `c.keys()`, as a set. */
  function Keys(c: Counter): set<string> {
    set i | 0 <= i < |c| :: c[i].0
  }

  /** With distinct keys, `len(c)` is the number of keys. */
  lemma {:induction false} KeysCount(c: Counter)
    requires DistinctKeys(c)
    ensures |Keys(c)| == |c|
  {
    if c != [] {
      var rest := c[1..];
      assert DistinctKeys(rest) by {
        forall i, j | 0 <= i < j < |rest| ensures rest[i].0 != rest[j].0 {
          assert rest[i] == c[i + 1] && rest[j] == c[j + 1];
        }
      }
      KeysCount(rest);
      assert Keys(c) == {c[0].0} + Keys(rest) by {
        forall k | k in Keys(c) ensures k in {c[0].0} + Keys(rest) {
          var i :| 0 <= i < |c| && c[i].0 == k;
          if i > 0 {
            assert rest[i - 1].0 == k;
          }
        }
        forall k | k in Keys(rest) ensures k in Keys(c) {
          var i :| 0 <= i < |rest| && rest[i].0 == k;
          assert c[i + 1].0 == k;
        }
      }
    }
  }

  /** A key that is absent has count zero. */
  lemma {:induction false} GetAbsent(c: Counter, k: string)
    requires !Has(c, k)
    ensures Get(c, k) == 0
  {
    if c != [] {
      HasCons(c);
      GetAbsent(c[1..], k);
    }
  }

  /** `defaultdict(Counter)`: an insertion-ordered list of (key, counter) entries. */
  type Nested = seq<(string, Counter)>

  predicate HasOuter(m: Nested, k: string) {
    exists i :: 0 <= i < |m| && m[i].0 == k
  }

  /** `m[k]`, a fresh empty counter for a key that is absent. */
  function Inner(m: Nested, k: string): Counter {
    if m == [] then [] else if m[0].0 == k then m[0].1 else Inner(m[1..], k)
  }

  lemma HasOuterCons(m: Nested)
    requires m != []
    ensures forall y :: HasOuter(m, y) <==> m[0].0 == y || HasOuter(m[1..], y)
  {
    forall y ensures HasOuter(m, y) <==> m[0].0 == y || HasOuter(m[1..], y) {
      if HasOuter(m, y) && m[0].0 != y {
        var i :| 0 <= i < |m| && m[i].0 == y;
        assert m[1..][i - 1].0 == y;
      }
      if HasOuter(m[1..], y) {
        var i :| 0 <= i < |m[1..]| && m[1..][i].0 == y;
        assert m[i + 1].0 == y;
      }
    }
  }

  /** `m[k][x] += 1`: only the counter of `k` changes, by counting `x` once more. */
  function NestInc(m: Nested, k: string, x: string): (r: Nested)
    ensures forall y :: Inner(r, y) == if y == k then Inc(Inner(m, k), x) else Inner(m, y)
  {
    if m == [] then [(k, Inc([], x))]
    else if m[0].0 == k then [(k, Inc(m[0].1, x))] + m[1..]
    else
      var rest := NestInc(m[1..], k, x);
      var r := [m[0]] + rest;
      assert r[1..] == rest;
      r
  }

  /** The outer keys are the old ones plus `k`. */
  lemma {:induction false} NestIncKeys(m: Nested, k: string, x: string)
    ensures forall y :: HasOuter(NestInc(m, k, x), y) <==> HasOuter(m, y) || y == k
  {
    var r := NestInc(m, k, x);
    if m == [] {
      assert r[0].0 == k;
    } else {
      HasOuterCons(m);
      HasOuterCons(r);
      if m[0].0 != k {
        NestIncKeys(m[1..], k, x);
        assert r[1..] == NestInc(m[1..], k, x);
      } else {
        assert r[1..] == m[1..];
      }
    }
  }
}
