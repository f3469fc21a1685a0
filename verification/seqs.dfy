/** Keyed views over sequences: the `filter(...)`, `filter(...).length`,
    `find(...)` and `reduce` idioms the roster is built from, stated once for
    any element type and any key projection. */
module Seqs {
  import opened Wrappers

  /** No value occurs twice in `xs`. */
  predicate NoDup<K(==)>(xs: seq<K>) {
    forall i, j :: 0 <= i < j < |xs| ==> xs[i] != xs[j]
  }

  /** The elements of `s` whose key is `k`, in their original order
      (`s.filter(x => key(x) === k)`). */
  function FilterKey<T, K(==)>(s: seq<T>, key: T -> K, k: K): (r: seq<T>)
    ensures |r| <= |s|
    ensures forall i :: 0 <= i < |r| ==> key(r[i]) == k
    ensures forall i :: 0 <= i < |r| ==> r[i] in s
    ensures forall i :: 0 <= i < |s| && key(s[i]) == k ==> s[i] in r
  {
    if |s| == 0 then []
    else if key(s[0]) == k then [s[0]] + FilterKey(s[1..], key, k)
    else FilterKey(s[1..], key, k)
  }

  /** The first element of `s` whose key is `k`, if any
      (`s.find(x => key(x) === k)`). */
  function FindFirst<T, K(==)>(s: seq<T>, key: T -> K, k: K): (r: Option<T>)
    ensures r.None? <==> forall i :: 0 <= i < |s| ==> key(s[i]) != k
    ensures r.Some? ==> exists i :: 0 <= i < |s| && s[i] == r.value
                                   && (forall j :: 0 <= j < i ==> key(s[j]) != k)
    ensures r.Some? ==> key(r.value) == k
  {
    if |s| == 0 then None
    else if key(s[0]) == k then Some(s[0])
    else
      var r := FindFirst(s[1..], key, k);
      assert forall i :: 1 <= i < |s| ==> s[1..][i - 1] == s[i];
      r
  }

  /** How many elements of `s` have key `k`. */
  function CountOf<T, K(==)>(s: seq<T>, key: T -> K, k: K): (n: nat)
    ensures n <= |s|
  {
    if |s| == 0 then 0
    else (if key(s[0]) == k then 1 else 0) + CountOf(s[1..], key, k)
  }

  /** How many elements of `s` have a key in `ks`. */
  function CountIn<T, K(==)>(s: seq<T>, key: T -> K, ks: set<K>): (n: nat)
    ensures n <= |s|
  {
    if |s| == 0 then 0
    else (if key(s[0]) in ks then 1 else 0) + CountIn(s[1..], key, ks)
  }

  /** The sum, over the keys listed in `keys`, of how many elements bear each. */
  function SumCounts<T, K(==)>(s: seq<T>, key: T -> K, keys: seq<K>): nat
  {
    if |keys| == 0 then 0
    else CountOf(s, key, keys[0]) + SumCounts(s, key, keys[1..])
  }

  /** The keys borne by at least one element of `s`. */
  function KeySet<T, K(==)>(s: seq<T>, key: T -> K): (ks: set<K>)
    ensures forall i :: 0 <= i < |s| ==> key(s[i]) in ks
  {
    if |s| == 0 then {}
    else
      assert forall i :: 1 <= i < |s| ==> s[1..][i - 1] == s[i];
      {key(s[0])} + KeySet(s[1..], key)
  }

  /** A key is in `KeySet` exactly when some element bears it. */
  lemma {:induction false} KeySetOccurs<T, K>(s: seq<T>, key: T -> K, k: K)
    ensures k in KeySet(s, key) <==> CountOf(s, key, k) > 0
  {
    if |s| > 0 {
      KeySetOccurs(s[1..], key, k);
      if key(s[0]) == k {
        assert CountOf(s, key, k) == 1 + CountOf(s[1..], key, k);
      } else {
        assert CountOf(s, key, k) == CountOf(s[1..], key, k);
      }
    }
  }

  /** The value of `k` in `m`, or 0 when `k` is absent (`acc[k] || 0`). */
  function GetCount<K>(m: map<K, nat>, k: K): nat {
    if k in m then m[k] else 0
  }

  /** Left fold that counts elements per key, starting from `acc`
      (`s.reduce((acc, x) => { acc[key(x)] = (acc[key(x)] || 0) + 1; return acc }, acc)`). */
  function Tally<T, K(==)>(acc: map<K, nat>, s: seq<T>, key: T -> K): map<K, nat>
    decreases |s|
  {
    if |s| == 0 then acc
    else
      var k := key(s[0]);
      Tally(acc[k := GetCount(acc, k) + 1], s[1..], key)
  }

  /** The sum of the values `m` holds for the keys listed in `keys`. */
  function SumOver<K>(m: map<K, nat>, keys: seq<K>): nat
    requires forall i :: 0 <= i < |keys| ==> keys[i] in m
  {
    if |keys| == 0 then 0 else m[keys[0]] + SumOver(m, keys[1..])
  }

  /** `idx` lists strictly increasing positions of `s` whose elements, in order, are `r`. */
  ghost predicate IsEmbedding<T>(r: seq<T>, s: seq<T>, idx: seq<int>) {
    && |idx| == |r|
    && (forall m :: 0 <= m < |idx| ==> 0 <= idx[m] < |s| && r[m] == s[idx[m]])
    && (forall m, n :: 0 <= m < n < |idx| ==> idx[m] < idx[n])
  }

  /** Every position in `xs` moved one to the right. */
  function Shift(xs: seq<int>): (r: seq<int>)
    ensures |r| == |xs|
    ensures forall m :: 0 <= m < |xs| ==> r[m] == xs[m] + 1
  {
    if |xs| == 0 then [] else [xs[0] + 1] + Shift(xs[1..])
  }

  /** The positions of `s` whose key is `k`, in increasing order. */
  function MatchPositions<T, K(==)>(s: seq<T>, key: T -> K, k: K): seq<int>
  {
    if |s| == 0 then []
    else
      var shifted := Shift(MatchPositions(s[1..], key, k));
      if key(s[0]) == k then [0] + shifted else shifted
  }

  // ---------------------------------------------------------------------------
  // Lemmas about FilterKey

  /** The filtered sequence is exactly as long as the number of matches. */
  lemma {:induction false} FilterKeyLength<T, K>(s: seq<T>, key: T -> K, k: K)
    ensures |FilterKey(s, key, k)| == CountOf(s, key, k)
  {
    if |s| > 0 {
      FilterKeyLength(s[1..], key, k);
    }
  }

  /** Filtering distributes over concatenation: relative order is kept. */
  lemma {:induction false} FilterKeyAppend<T, K>(a: seq<T>, b: seq<T>, key: T -> K, k: K)
    ensures FilterKey(a + b, key, k) == FilterKey(a, key, k) + FilterKey(b, key, k)
  {
    if |a| == 0 {
      assert a + b == b;
    } else {
      assert (a + b)[1..] == a[1..] + b;
      FilterKeyAppend(a[1..], b, key, k);
    }
  }

  /** When every element matches, filtering returns the sequence unchanged. */
  lemma {:induction false} FilterKeyAll<T, K>(s: seq<T>, key: T -> K, k: K)
    requires forall i :: 0 <= i < |s| ==> key(s[i]) == k
    ensures FilterKey(s, key, k) == s
  {
    if |s| > 0 {
      var t := s[1..];
      assert forall i :: 0 <= i < |t| ==> key(t[i]) == k by {
        forall i | 0 <= i < |t| ensures key(t[i]) == k {
          assert t[i] == s[i + 1];
        }
      }
      FilterKeyAll(t, key, k);
      assert key(s[0]) == k;
      assert FilterKey(s, key, k) == [s[0]] + FilterKey(t, key, k);
      assert [s[0]] + t == s;
    }
  }

  /** An embedding into the tail of `s`, shifted, is an embedding into `s`
      that avoids position 0. */
  lemma ShiftEmbedding<T>(r: seq<T>, s: seq<T>, idx: seq<int>)
    requires |s| > 0
    requires IsEmbedding(r, s[1..], idx)
    ensures IsEmbedding(r, s, Shift(idx))
    ensures forall j :: j in Shift(idx) ==> 1 <= j
    ensures forall j :: 1 <= j < |s| ==> (j in Shift(idx) <==> j - 1 in idx)
  {
    ShiftKeepsOrder(r, s, idx);
    ShiftMembers(idx, |s|);
  }

  /** The shifted positions pick out the same elements of `s` in the same order. */
  lemma ShiftKeepsOrder<T>(r: seq<T>, s: seq<T>, idx: seq<int>)
    requires |s| > 0
    requires IsEmbedding(r, s[1..], idx)
    ensures IsEmbedding(r, s, Shift(idx))
  {
    var sh := Shift(idx);
    forall m | 0 <= m < |sh|
      ensures 1 <= sh[m] < |s| && r[m] == s[sh[m]]
    {
      assert s[1..][idx[m]] == s[idx[m] + 1];
    }
    forall m, n | 0 <= m < n < |sh|
      ensures sh[m] < sh[n]
    {
      assert idx[m] < idx[n];
    }
  }

  /** A position is in the shifted list exactly when its predecessor is in the original. */
  lemma ShiftMembers(idx: seq<int>, len: int)
    requires forall m :: 0 <= m < |idx| ==> 0 <= idx[m]
    ensures forall j :: j in Shift(idx) ==> 1 <= j
    ensures forall j :: 1 <= j < len ==> (j in Shift(idx) <==> j - 1 in idx)
  {
    var sh := Shift(idx);
    forall j | j in sh
      ensures 1 <= j && j - 1 in idx
    {
      var m :| 0 <= m < |sh| && sh[m] == j;
      assert idx[m] == j - 1;
    }
    forall j | 1 <= j < len && j - 1 in idx
      ensures j in sh
    {
      var m :| 0 <= m < |idx| && idx[m] == j - 1;
      assert sh[m] == j;
    }
  }

  /** Prepending position 0 to an embedding that avoids it embeds `[s[0]] + r`. */
  lemma ConsEmbedding<T>(r: seq<T>, s: seq<T>, idx: seq<int>)
    requires |s| > 0
    requires IsEmbedding(r, s, idx)
    requires forall m :: 0 <= m < |idx| ==> 1 <= idx[m]
    ensures IsEmbedding([s[0]] + r, s, [0] + idx)
  {
    var r' := [s[0]] + r;
    var idx' := [0] + idx;
    forall m | 0 <= m < |idx'|
      ensures 0 <= idx'[m] < |s| && r'[m] == s[idx'[m]]
    {
      if m > 0 {
        assert idx'[m] == idx[m - 1] && r'[m] == r[m - 1];
      }
    }
    forall m, n | 0 <= m < n < |idx'|
      ensures idx'[m] < idx'[n]
    {
      assert idx'[n] == idx[n - 1];
      if m > 0 {
        assert idx'[m] == idx[m - 1];
      }
    }
  }

  /** The positions `MatchPositions` lists pick out the filtered sequence in order. */
  lemma {:induction false} MatchPositionsEmbed<T, K>(s: seq<T>, key: T -> K, k: K)
    ensures IsEmbedding(FilterKey(s, key, k), s, MatchPositions(s, key, k))
  {
    if |s| > 0 {
      var t := s[1..];
      var ft := FilterKey(t, key, k);
      var rest := MatchPositions(t, key, k);
      MatchPositionsEmbed(t, key, k);
      ShiftEmbedding(ft, s, rest);
      var sh := Shift(rest);
      if key(s[0]) == k {
        assert MatchPositions(s, key, k) == [0] + sh;
        assert FilterKey(s, key, k) == [s[0]] + ft;
        assert forall m :: 0 <= m < |sh| ==> sh[m] in sh;
        ConsEmbedding(ft, s, sh);
      } else {
        assert MatchPositions(s, key, k) == sh;
        assert FilterKey(s, key, k) == ft;
      }
    }
  }

  /** The positions `MatchPositions` lists are exactly the matching ones. */
  lemma {:induction false} MatchPositionsExact<T, K>(s: seq<T>, key: T -> K, k: K)
    ensures forall j :: 0 <= j < |s| ==> (key(s[j]) == k <==> j in MatchPositions(s, key, k))
  {
    if |s| > 0 {
      var t := s[1..];
      var rest := MatchPositions(t, key, k);
      MatchPositionsExact(t, key, k);
      MatchPositionsEmbed(t, key, k);
      ShiftEmbedding(FilterKey(t, key, k), s, rest);
      var sh := Shift(rest);
      var idx := MatchPositions(s, key, k);
      forall j | 0 <= j < |s|
        ensures key(s[j]) == k <==> j in idx
      {
        if j == 0 {
          if key(s[0]) == k {
            assert idx == [0] + sh;
          } else {
            assert idx == sh;
          }
        } else {
          assert s[j] == t[j - 1];
          assert key(t[j - 1]) == k <==> j - 1 in rest;
          assert j in sh <==> j - 1 in rest;
          if key(s[0]) == k {
            assert idx == [0] + sh;
            assert j in idx <==> j in sh;
          } else {
            assert idx == sh;
          }
        }
      }
    }
  }

  /** `FilterKey` selects, in their original order, exactly the elements whose key is `k`. */
  lemma FilterKeySelectsInOrder<T, K>(s: seq<T>, key: T -> K, k: K)
    ensures exists idx :: IsEmbedding(FilterKey(s, key, k), s, idx)
                       && (forall j :: 0 <= j < |s| ==> (key(s[j]) == k <==> j in idx))
  {
    MatchPositionsEmbed(s, key, k);
    MatchPositionsExact(s, key, k);
  }

  // ---------------------------------------------------------------------------
  // Lemmas about counting

  /** No element bears `k` exactly when the count is zero, and every element
      does exactly when the count is the length. */
  lemma {:induction false} CountOfExtremes<T, K>(s: seq<T>, key: T -> K, k: K)
    ensures CountOf(s, key, k) == 0 <==> forall i :: 0 <= i < |s| ==> key(s[i]) != k
    ensures CountOf(s, key, k) == |s| <==> forall i :: 0 <= i < |s| ==> key(s[i]) == k
  {
    if |s| > 0 {
      CountOfExtremes(s[1..], key, k);
      assert forall i :: 1 <= i < |s| ==> s[1..][i - 1] == s[i];
      if key(s[0]) == k {
        assert CountOf(s, key, k) == 1 + CountOf(s[1..], key, k);
      } else {
        assert CountOf(s, key, k) == CountOf(s[1..], key, k);
      }
    }
  }

  /** Counting distributes over concatenation. */
  lemma CountOfAppend<T, K>(a: seq<T>, b: seq<T>, key: T -> K, k: K)
    ensures CountOf(a + b, key, k) == CountOf(a, key, k) + CountOf(b, key, k)
  {
    FilterKeyLength(a + b, key, k);
    FilterKeyLength(a, key, k);
    FilterKeyLength(b, key, k);
    FilterKeyAppend(a, b, key, k);
  }

  /** Changing the element at one position changes a count by at most what that
      position contributed before and after. */
  lemma CountOfPointChange<T, K>(s: seq<T>, t: seq<T>, key: T -> K, k: K, i: int)
    requires |s| == |t| && 0 <= i < |s|
    requires forall j :: 0 <= j < |s| && j != i ==> key(s[j]) == key(t[j])
    ensures CountOf(t, key, k) + (if key(s[i]) == k then 1 else 0)
         == CountOf(s, key, k) + (if key(t[i]) == k then 1 else 0)
  {
    assert s == s[..i] + [s[i]] + s[i + 1..];
    assert t == t[..i] + [t[i]] + t[i + 1..];
    CountOfAppend(s[..i] + [s[i]], s[i + 1..], key, k);
    CountOfAppend(s[..i], [s[i]], key, k);
    CountOfAppend(t[..i] + [t[i]], t[i + 1..], key, k);
    CountOfAppend(t[..i], [t[i]], key, k);
    CountOfCongruent(s[..i], t[..i], key, k);
    CountOfCongruent(s[i + 1..], t[i + 1..], key, k);
    assert [s[i]][1..] == [] && [t[i]][1..] == [];
  }

  /** Two sequences with the same key at every position have the same counts. */
  lemma {:induction false} CountOfCongruent<T, K>(s: seq<T>, t: seq<T>, key: T -> K, k: K)
    requires |s| == |t|
    requires forall i :: 0 <= i < |s| ==> key(s[i]) == key(t[i])
    ensures CountOf(s, key, k) == CountOf(t, key, k)
  {
    if |s| > 0 {
      assert forall i :: 0 <= i < |s| - 1 ==> s[1..][i] == s[i + 1] && t[1..][i] == t[i + 1];
      CountOfCongruent(s[1..], t[1..], key, k);
    }
  }

  /** Adding a fresh key `k` to `ks` adds exactly the elements bearing `k`. */
  lemma {:induction false} CountInInsert<T, K>(s: seq<T>, key: T -> K, ks: set<K>, k: K)
    requires k !in ks
    ensures CountIn(s, key, ks + {k}) == CountOf(s, key, k) + CountIn(s, key, ks)
  {
    if |s| > 0 {
      CountInInsert(s[1..], key, ks, k);
    }
  }

  /** Every element is counted by `CountIn` exactly when every key lies in `ks`. */
  lemma {:induction false} CountInFull<T, K>(s: seq<T>, key: T -> K, ks: set<K>)
    ensures CountIn(s, key, ks) == |s| <==> forall i :: 0 <= i < |s| ==> key(s[i]) in ks
  {
    if |s| > 0 {
      CountInFull(s[1..], key, ks);
      assert forall i :: 1 <= i < |s| ==> s[1..][i - 1] == s[i];
    }
  }

  /** Summing per-key counts over distinct keys counts each element whose key
      is listed once. */
  lemma {:induction false} SumCountsDistinct<T, K>(s: seq<T>, key: T -> K, keys: seq<K>)
    requires NoDup(keys)
    ensures SumCounts(s, key, keys) == CountIn(s, key, set x | x in keys)
  {
    if |keys| == 0 {
      assert (set x | x in keys) == {};
      CountInEmpty(s, key);
    } else {
      var rest := keys[1..];
      assert NoDup(rest) by {
        forall i, j | 0 <= i < j < |rest| ensures rest[i] != rest[j] {
          assert rest[i] == keys[i + 1] && rest[j] == keys[j + 1];
        }
      }
      SumCountsDistinct(s, key, rest);
      var ks := set x | x in rest;
      assert keys[0] !in ks by {
        assert forall j :: 0 <= j < |rest| ==> rest[j] == keys[j + 1] != keys[0];
      }
      assert (set x | x in keys) == ks + {keys[0]} by {
        assert keys == [keys[0]] + rest;
      }
      CountInInsert(s, key, ks, keys[0]);
    }
  }

  /** Nothing is counted for an empty key set. */
  lemma {:induction false} CountInEmpty<T, K>(s: seq<T>, key: T -> K)
    ensures CountIn(s, key, {}) == 0
  {
    if |s| > 0 {
      CountInEmpty(s[1..], key);
    }
  }

  /** Over distinct keys, the per-key counts add up to at most `|s|`, and to
      exactly `|s|` iff every element's key is listed. */
  lemma SumCountsCoverage<T, K>(s: seq<T>, key: T -> K, keys: seq<K>)
    requires NoDup(keys)
    ensures SumCounts(s, key, keys) <= |s|
    ensures SumCounts(s, key, keys) == |s| <==> forall i :: 0 <= i < |s| ==> key(s[i]) in keys
  {
    SumCountsDistinct(s, key, keys);
    CountInFull(s, key, set x | x in keys);
  }

  /** For a two-valued key the two counts partition the sequence. */
  lemma {:induction false} BoolCountsPartition<T>(s: seq<T>, key: T -> bool)
    ensures CountOf(s, key, true) + CountOf(s, key, false) == |s|
  {
    if |s| > 0 {
      BoolCountsPartition(s[1..], key);
      if key(s[0]) {
        assert CountOf(s, key, true) == 1 + CountOf(s[1..], key, true);
        assert CountOf(s, key, false) == CountOf(s[1..], key, false);
      } else {
        assert CountOf(s, key, false) == 1 + CountOf(s[1..], key, false);
      }
    }
  }

  // ---------------------------------------------------------------------------
  // Lemmas about Tally

  /** The fold visits elements left to right, so folding `a + b` is folding `b`
      after `a`. */
  lemma {:induction false} TallyAppend<T, K>(acc: map<K, nat>, a: seq<T>, b: seq<T>, key: T -> K)
    ensures Tally(acc, a + b, key) == Tally(Tally(acc, a, key), b, key)
    decreases |a|
  {
    if |a| == 0 {
      assert a + b == b;
    } else {
      assert (a + b)[1..] == a[1..] + b;
      var k := key(a[0]);
      TallyAppend(acc[k := GetCount(acc, k) + 1], a[1..], b, key);
    }
  }

  /** The tally depends only on the keys, position by position. */
  lemma {:induction false} TallyCongruent<T, K>(acc: map<K, nat>, s: seq<T>, t: seq<T>, key: T -> K)
    requires |s| == |t|
    requires forall i :: 0 <= i < |s| ==> key(s[i]) == key(t[i])
    ensures Tally(acc, s, key) == Tally(acc, t, key)
    decreases |s|
  {
    if |s| > 0 {
      assert forall i :: 0 <= i < |s| - 1 ==> s[1..][i] == s[i + 1] && t[1..][i] == t[i + 1];
      var k := key(s[0]);
      TallyCongruent(acc[k := GetCount(acc, k) + 1], s[1..], t[1..], key);
    }
  }

  /** Starting from `acc`, the tally holds the keys of `acc` and those of `s`. */
  lemma {:induction false} TallyKeys<T, K>(acc: map<K, nat>, s: seq<T>, key: T -> K)
    ensures Tally(acc, s, key).Keys == acc.Keys + KeySet(s, key)
    decreases |s|
  {
    if |s| > 0 {
      var k0 := key(s[0]);
      var acc' := acc[k0 := GetCount(acc, k0) + 1];
      TallyKeys(acc', s[1..], key);
      assert Tally(acc, s, key) == Tally(acc', s[1..], key);
      assert acc'.Keys == acc.Keys + {k0};
      assert KeySet(s, key) == {k0} + KeySet(s[1..], key);
    }
  }

  /** Starting from `acc`, each key's tally is its starting count plus the
      number of elements bearing it. */
  lemma {:induction false} TallyValues<T, K>(acc: map<K, nat>, s: seq<T>, key: T -> K, k: K)
    ensures GetCount(Tally(acc, s, key), k) == GetCount(acc, k) + CountOf(s, key, k)
    decreases |s|
  {
    if |s| > 0 {
      var k0 := key(s[0]);
      var acc' := acc[k0 := GetCount(acc, k0) + 1];
      TallyValues(acc', s[1..], key, k);
      if k0 == k {
        assert GetCount(acc', k) == GetCount(acc, k) + 1;
        assert CountOf(s, key, k) == 1 + CountOf(s[1..], key, k);
      } else {
        assert GetCount(acc', k) == GetCount(acc, k);
        assert CountOf(s, key, k) == CountOf(s[1..], key, k);
      }
    }
  }

  /** A tally from empty holds exactly the keys that occur, each with its (positive)
      number of occurrences. */
  lemma TallyFromEmpty<T, K>(s: seq<T>, key: T -> K)
    ensures Tally(map[], s, key).Keys == KeySet(s, key)
    ensures forall k :: k in Tally(map[], s, key) ==>
              Tally(map[], s, key)[k] == CountOf(s, key, k) && Tally(map[], s, key)[k] >= 1
  {
    TallyKeys(map[], s, key);
    forall k | k in Tally(map[], s, key)
      ensures Tally(map[], s, key)[k] == CountOf(s, key, k) && Tally(map[], s, key)[k] >= 1
    {
      TallyValues(map[], s, key, k);
      KeySetOccurs(s, key, k);
    }
  }

  /** A listing that contains every occurring key contains the key of every element. */
  lemma KeysCoverElements<T, K>(s: seq<T>, key: T -> K, keys: seq<K>)
    requires forall k :: k in KeySet(s, key) ==> k in keys
    ensures forall i :: 0 <= i < |s| ==> key(s[i]) in keys
  {
  }

  /** Over any duplicate-free listing of its keys, a tally from empty sums to `|s|`. */
  lemma TallySum<T, K>(s: seq<T>, key: T -> K, keys: seq<K>)
    requires NoDup(keys)
    requires forall i :: 0 <= i < |keys| ==> keys[i] in Tally(map[], s, key)
    requires forall k :: k in Tally(map[], s, key) ==> k in keys
    ensures SumOver(Tally(map[], s, key), keys) == |s|
  {
    var m := Tally(map[], s, key);
    TallyFromEmpty(s, key);
    SumOverCounts(s, key, m, keys);
    forall k | k in KeySet(s, key)
      ensures k in keys
    {
      assert k in m.Keys;
    }
    KeysCoverElements(s, key, keys);
    SumCountsCoverage(s, key, keys);
  }

  /** Summing a map whose values are the per-key counts is summing the counts. */
  lemma {:induction false} SumOverCounts<T, K>(s: seq<T>, key: T -> K, m: map<K, nat>, keys: seq<K>)
    requires forall i :: 0 <= i < |keys| ==> keys[i] in m
    requires forall k :: k in m ==> m[k] == CountOf(s, key, k)
    ensures SumOver(m, keys) == SumCounts(s, key, keys)
  {
    if |keys| > 0 {
      SumOverCounts(s, key, m, keys[1..]);
    }
  }
}
