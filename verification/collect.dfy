/**
 The collect package: element-wise transformation of a slice (Apply),
 order-preserving filtering by a predicate (Select keeps, Reject drops), and
 materialising the keys or the values of a map into a slice (Keys, Values).

 A Go slice is a `seq`, a Go map a `map`, and the caller's callback a total
 pure function. Go's map iteration order is unspecified, so Keys and Values
 pick their order with `:|` and promise only what holds for every order.
 */
module Collect {
  import opened Sequences

  /* ---------------------------------------------------------------------- */
  /* Apply                                                                  */
  /* ---------------------------------------------------------------------- */

  /** The slice of `applyFn(t)` for each element `t` of `s`, at the same index. */
  function Apply<T, V>(s: seq<T>, applyFn: T -> V): (out: seq<V>)
    ensures |out| == |s|
    ensures forall i :: 0 <= i < |s| ==> out[i] == applyFn(s[i])
  {
    if |s| == 0 then []
    else [applyFn(s[0])] + Apply(s[1..], applyFn)
  }

  /* ---------------------------------------------------------------------- */
  /* Select and Reject                                                      */
  /* ---------------------------------------------------------------------- */

  /** The elements of `s` for which `keep` (Go's parameter `include`, a Dafny keyword) holds, in their original order. */
  function Select<T>(s: seq<T>, keep: T -> bool): (out: seq<T>)
    ensures IsSubsequence(out, s)
    ensures |out| <= |s|
    ensures forall x | x in out :: keep(x)
    ensures multiset(out) <= multiset(s)
    ensures forall x | x in multiset(s) :: multiset(out)[x] == if keep(x) then multiset(s)[x] else 0
  {
    if |s| == 0 then []
    else
      assert s == [s[0]] + s[1..];
      var rest := Select(s[1..], keep);
      if keep(s[0]) then
        assert ([s[0]] + rest)[1..] == rest;
        [s[0]] + rest
      else
        rest
  }

  /** The elements of `s` for which `exclude` does not hold, in their original order. */
  function Reject<T>(s: seq<T>, exclude: T -> bool): (out: seq<T>)
    ensures IsSubsequence(out, s)
    ensures |out| <= |s|
    ensures forall x | x in out :: !exclude(x)
    ensures multiset(out) <= multiset(s)
    ensures forall x | x in multiset(s) :: multiset(out)[x] == if exclude(x) then 0 else multiset(s)[x]
  {
    if |s| == 0 then []
    else
      assert s == [s[0]] + s[1..];
      var rest := Reject(s[1..], exclude);
      if !exclude(s[0]) then
        assert ([s[0]] + rest)[1..] == rest;
        [s[0]] + rest
      else
        rest
  }

  /* Select is characterised by its contract: the only order-preserving
     sub-slice of `s` holding every element that satisfies `p`, as often as
     it occurs in `s`, and no other element, is Select(s, p). */
  lemma {:induction false} SelectUnique<T>(s: seq<T>, p: T -> bool, r: seq<T>)
    requires IsSubsequence(r, s)
    requires multiset(r) <= multiset(s)
    requires forall x | x in multiset(s) :: multiset(r)[x] == if p(x) then multiset(s)[x] else 0
    ensures r == Select(s, p)
    decreases |s|
  {
    if |s| == 0 {
      assert |r| == 0;
    } else {
      var h, t := s[0], s[1..];
      assert s == [h] + t;
      if p(h) {
        // `h` is kept, so it occurs in `r` more often than in `t`:
        // `r` cannot be a subsequence of `t` alone.
        assert multiset(r)[h] == multiset(t)[h] + 1;
        if IsSubsequence(r, t) {
          SubsequenceMultiset(r, t);
          assert false;
        }
        assert |r| > 0 && r[0] == h && IsSubsequence(r[1..], t);
        assert r == [h] + r[1..];
        SubsequenceMultiset(r[1..], t);
        SelectUnique(t, p, r[1..]);
      } else {
        // `h` is dropped, so `r` does not start with it.
        if |r| > 0 {
          assert r[0] in multiset(r);
          assert r[0] != h;
        }
        assert IsSubsequence(r, t);
        SelectUnique(t, p, r);
      }
    }
  }

  /* Reject drops exactly what Select with the same predicate keeps: it is
     Select with the negated predicate. */
  lemma {:induction false} RejectIsSelectComplement<T>(s: seq<T>, p: T -> bool)
    ensures Reject(s, p) == Select(s, x => !p(x))
  {
    SelectUnique(s, x => !p(x), Reject(s, p));
  }

  /* Select and Reject with the same predicate split `s` in two: every
     element lands in exactly one of them. */
  lemma SelectRejectPartition<T>(s: seq<T>, p: T -> bool)
    ensures multiset(Select(s, p)) + multiset(Reject(s, p)) == multiset(s)
    ensures |Select(s, p)| + |Reject(s, p)| == |s|
  {
  }

  /* Filtering an already filtered slice again changes nothing. */
  lemma {:induction false} SelectIdempotent<T>(s: seq<T>, p: T -> bool)
    ensures Select(Select(s, p), p) == Select(s, p)
  {
    var r := Select(s, p);
    SubsequenceReflexive(r);
    SelectUnique(r, p, r);
  }

  /* Select returns nothing exactly when no element satisfies the predicate. */
  lemma SelectEmptyIff<T>(s: seq<T>, p: T -> bool)
    ensures Select(s, p) == [] <==> forall i :: 0 <= i < |s| ==> !p(s[i])
  {
  }

  /* Select returns the whole slice exactly when every element satisfies the
     predicate. */
  lemma {:induction false} SelectAllIff<T>(s: seq<T>, p: T -> bool)
    ensures Select(s, p) == s <==> forall i :: 0 <= i < |s| ==> p(s[i])
    decreases |s|
  {
    if Select(s, p) == s {
      forall i | 0 <= i < |s|
        ensures p(s[i])
      {
        assert s[i] in Select(s, p);
      }
    } else if |s| > 0 {
      // Select(s, p) differs from s, so the first element or one of the
      // rest fails the predicate.
      var t := s[1..];
      assert s == [s[0]] + t;
      if p(s[0]) {
        assert Select(s, p) == [s[0]] + Select(t, p);
        assert Select(t, p) != t;
        SelectAllIff(t, p);
        var i :| 0 <= i < |t| && !p(t[i]);
        assert s[i + 1] == t[i];
      }
    }
  }

  /* Reject returns nothing exactly when every element satisfies the predicate. */
  lemma RejectEmptyIff<T>(s: seq<T>, p: T -> bool)
    ensures Reject(s, p) == [] <==> forall i :: 0 <= i < |s| ==> p(s[i])
  {
  }

  /* ---------------------------------------------------------------------- */
  /* Keys and Values                                                        */
  /* ---------------------------------------------------------------------- */

  /** True iff `ks` lists every key of `m` exactly once, in some order. */
  ghost predicate IsKeyOrdering<K, V>(ks: seq<K>, m: map<K, V>) {
    && NoDuplicates(ks)
    && (forall k | k in ks :: k in m)
    && (forall k | k in m :: k in ks)
  }

  /** The keys under which `m` stores `v`. */
  ghost function KeysWithValue<K, V>(m: map<K, V>, v: V): set<K> {
    set k | k in m && m[k] == v
  }

  /** A slice holding every key of `m` exactly once; the order is whatever
      the map's iteration happens to produce. */
  method Keys<K, V>(m: map<K, V>) returns (ks: seq<K>)
    ensures forall k :: k in ks <==> k in m
    ensures NoDuplicates(ks)
    ensures |ks| == |m|
  {
    ks := [];
    var rest := m.Keys;
    while rest != {}
      invariant rest <= m.Keys
      invariant forall k :: k in ks <==> k in m && k !in rest
      invariant NoDuplicates(ks)
      invariant |ks| + |rest| == |m|
      decreases rest
    {
      var k :| k in rest;
      ks := ks + [k];
      rest := rest - {k};
    }
  }

  /** A slice holding the value of every entry of `m`, one per key, so equal
      values under different keys all appear. It is the map read along some
      ordering of its keys, returned as `ks`. */
  method Values<K, V>(m: map<K, V>) returns (vs: seq<V>, ghost ks: seq<K>)
    ensures IsKeyOrdering(ks, m)
    ensures |vs| == |ks| == |m|
    ensures forall i :: 0 <= i < |vs| ==> vs[i] == m[ks[i]]
    ensures forall v :: multiset(vs)[v] == |KeysWithValue(m, v)|
    ensures forall v :: v in vs <==> exists k :: k in m && m[k] == v
  {
    var keys := Keys(m);
    vs := seq(|keys|, i requires 0 <= i < |keys| => m[keys[i]]);
    ks := keys;
    forall v
      ensures multiset(vs)[v] == |KeysWithValue(m, v)|
    {
      ValuesMultiplicity(m, ks, vs, v);
    }
    forall v
      ensures v in vs <==> exists k :: k in m && m[k] == v
    {
      if v in vs {
        var i :| 0 <= i < |vs| && vs[i] == v;
        assert ks[i] in m;
      }
      if exists k :: k in m && m[k] == v {
        var k :| k in m && m[k] == v;
        assert k in ks;
        var i :| 0 <= i < |ks| && ks[i] == k;
        assert vs[i] == v;
      }
    }
  }

  /** The keys listed in `ks` under which `m` stores `v`. */
  ghost function ListedKeysWithValue<K, V>(m: map<K, V>, ks: seq<K>, v: V): set<K> {
    set k | k in ks && k in m && m[k] == v
  }

  /* Reading a map along a duplicate-free list of its keys yields each value
     once per key that holds it. */
  lemma {:induction false} ValuesAlongMultiplicity<K, V>(m: map<K, V>, ks: seq<K>, vs: seq<V>, v: V)
    requires NoDuplicates(ks)
    requires forall k :: k in ks ==> k in m
    requires |vs| == |ks|
    requires forall i :: 0 <= i < |vs| ==> vs[i] == m[ks[i]]
    ensures multiset(vs)[v] == |ListedKeysWithValue(m, ks, v)|
    decreases |ks|
  {
    if |ks| == 0 {
      assert ListedKeysWithValue(m, ks, v) == {};
    } else {
      var tail := ListedKeysWithValue(m, ks[1..], v);
      ValuesAlongMultiplicity(m, ks[1..], vs[1..], v);
      assert vs == [vs[0]] + vs[1..];
      assert ks[0] !in ks[1..] by {
        assert forall j :: 0 <= j < |ks[1..]| ==> ks[1..][j] == ks[j + 1];
      }
      assert ks[0] !in tail;
      if m[ks[0]] == v {
        assert ListedKeysWithValue(m, ks, v) == {ks[0]} + tail;
      } else {
        assert ListedKeysWithValue(m, ks, v) == tail;
      }
    }
  }

  /* Reading a map along any ordering of all its keys yields each value as
     many times as keys hold it, whatever the order. */
  lemma ValuesMultiplicity<K, V>(m: map<K, V>, ks: seq<K>, vs: seq<V>, v: V)
    requires IsKeyOrdering(ks, m)
    requires |vs| == |ks|
    requires forall i :: 0 <= i < |vs| ==> vs[i] == m[ks[i]]
    ensures multiset(vs)[v] == |KeysWithValue(m, v)|
  {
    ValuesAlongMultiplicity(m, ks, vs, v);
    assert ListedKeysWithValue(m, ks, v) == KeysWithValue(m, v);
  }

  /* Two orderings of the keys of the same map differ only in order: they are
     permutations of each other. */
  lemma KeyOrderingsArePermutations<K, V>(m: map<K, V>, ks1: seq<K>, ks2: seq<K>)
    requires IsKeyOrdering(ks1, m)
    requires IsKeyOrdering(ks2, m)
    ensures multiset(ks1) == multiset(ks2)
    ensures |ks1| == |ks2| == |m|
  {
    NoDuplicatesMultiset(ks1);
    NoDuplicatesMultiset(ks2);
    KeyOrderingLength(m, ks1);
    KeyOrderingLength(m, ks2);
  }

  /* An ordering of the keys of `m` has one element per entry of `m`. */
  lemma {:induction false} KeyOrderingLength<K, V>(m: map<K, V>, ks: seq<K>)
    requires NoDuplicates(ks)
    requires forall k :: k in ks <==> k in m
    ensures |ks| == |m|
    decreases |ks|
  {
    if |ks| > 0 {
      var k := ks[0];
      var m' := map x | x in m && x != k :: m[x];
      assert m'.Keys == m.Keys - {k};
      assert forall j :: 0 <= j < |ks[1..]| ==> ks[1..][j] == ks[j + 1];
      assert k !in ks[1..];
      KeyOrderingLength(m', ks[1..]);
    } else {
      assert m.Keys == {};
    }
  }
}
