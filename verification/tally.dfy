/** Group-by-and-count, the `groupby(...).size()` step of the analytics,
    and the two orders its results are shown in: by count, largest first
    (`sort_values(ascending=False)`), and by key, smallest first (the
    sorted keys of `groupby`). */
module Tally {

  /** How often `k` occurs in `ks`. */
  function Occurrences<K(==)>(ks: seq<K>, k: K): nat
    decreases |ks|
  {
    if ks == [] then 0
    else Occurrences(ks[..|ks| - 1], k) + (if ks[|ks| - 1] == k then 1 else 0)
  }

  /** The keys of a tally, in its order. */
  function Keys<K>(g: seq<(K, nat)>): (r: seq<K>)
    ensures |r| == |g|
  {
    seq(|g|, i requires 0 <= i < |g| => g[i].0)
  }

  predicate DistinctKeys<K(==)>(g: seq<(K, nat)>) {
    forall i, j :: 0 <= i < j < |g| ==> g[i].0 != g[j].0
  }

  /** The sum of the counts. */
  function Total<K>(g: seq<(K, nat)>): nat {
    if g == [] then 0 else g[0].1 + Total(g[1..])
  }

  /** The count `g` holds for `k`, zero when it has no entry for `k`. */
  function CountFor<K(==)>(g: seq<(K, nat)>, k: K): nat {
    if g == [] then 0 else if g[0].0 == k then g[0].1 else CountFor(g[1..], k)
  }

  /** `g` is the tally of `ks`: one entry per distinct key of `ks`, each
      carrying how often its key occurs. */
  ghost predicate IsTally<K(!new)>(g: seq<(K, nat)>, ks: seq<K>) {
    && DistinctKeys(g)
    && (forall i :: 0 <= i < |g| ==> g[i].1 == Occurrences(ks, g[i].0))
    && (forall k :: k in ks <==> k in Keys(g))
  }

  lemma KeysCons<K>(x: (K, nat), s: seq<(K, nat)>)
    ensures Keys([x] + s) == [x.0] + Keys(s)
  {
  }

  lemma DistinctCons<K>(x: (K, nat), s: seq<(K, nat)>)
    ensures DistinctKeys([x] + s) <==> x.0 !in Keys(s) && DistinctKeys(s)
  {
    var r := [x] + s;
    if DistinctKeys(r) {
      forall i, j | 0 <= i < j < |s| ensures s[i].0 != s[j].0 {
        assert r[i + 1] == s[i] && r[j + 1] == s[j];
      }
      forall i | 0 <= i < |s| ensures Keys(s)[i] != x.0 {
        assert r[0] == x && r[i + 1] == s[i];
      }
    }
    if x.0 !in Keys(s) && DistinctKeys(s) {
      forall i, j | 0 <= i < j < |r| ensures r[i].0 != r[j].0 {
        if i == 0 {
          assert Keys(s)[j - 1] == r[j].0;
        } else {
          assert r[i] == s[i - 1] && r[j] == s[j - 1];
        }
      }
    }
  }

  /** One more occurrence of `k`: its count goes up by one, or it gets a
      new entry `(k, 1)` at the end. */
  function Bump<K(==)>(g: seq<(K, nat)>, k: K): seq<(K, nat)>
    decreases |g|
  {
    if g == [] then [(k, 1)]
    else if g[0].0 == k then [(k, g[0].1 + 1)] + g[1..]
    else [g[0]] + Bump(g[1..], k)
  }

  lemma {:induction false} BumpKeys<K>(g: seq<(K, nat)>, k: K)
    ensures forall k' :: k' in Keys(Bump(g, k)) <==> k' in Keys(g) || k' == k
    ensures Total(Bump(g, k)) == Total(g) + 1
    decreases |g|
  {
    if g == [] {
      assert Keys([(k, 1)]) == [k];
    } else {
      assert g == [g[0]] + g[1..];
      KeysCons(g[0], g[1..]);
      if g[0].0 == k {
        KeysCons((k, g[0].1 + 1), g[1..]);
        assert ([(k, g[0].1 + 1)] + g[1..])[1..] == g[1..];
      } else {
        BumpKeys(g[1..], k);
        KeysCons(g[0], Bump(g[1..], k));
        assert ([g[0]] + Bump(g[1..], k))[1..] == Bump(g[1..], k);
      }
    }
  }

  lemma {:induction false} BumpDistinct<K>(g: seq<(K, nat)>, k: K)
    requires DistinctKeys(g)
    ensures DistinctKeys(Bump(g, k))
    decreases |g|
  {
    if g != [] {
      assert g == [g[0]] + g[1..];
      DistinctCons(g[0], g[1..]);
      if g[0].0 == k {
        DistinctCons((k, g[0].1 + 1), g[1..]);
      } else {
        BumpDistinct(g[1..], k);
        BumpKeys(g[1..], k);
        DistinctCons(g[0], Bump(g[1..], k));
      }
    }
  }

  lemma {:induction false} BumpEntries<K>(g: seq<(K, nat)>, k: K)
    ensures forall i :: 0 <= i < |Bump(g, k)| && Bump(g, k)[i].0 != k ==> Bump(g, k)[i] in g
    ensures DistinctKeys(g) ==>
              forall i :: 0 <= i < |Bump(g, k)| && Bump(g, k)[i].0 == k ==>
                Bump(g, k)[i].1 == CountFor(g, k) + 1
    decreases |g|
  {
    if g != [] {
      var r := Bump(g, k);
      if g[0].0 != k {
        BumpEntries(g[1..], k);
        assert forall i :: 1 <= i < |r| ==> r[i] == Bump(g[1..], k)[i - 1];
      } else {
        assert forall i :: 1 <= i < |r| ==> r[i] == g[i];
      }
    }
  }

  /** In a tally, `CountFor` reads back the number of occurrences. */
  lemma {:induction false} CountForTally<K>(g: seq<(K, nat)>, ks: seq<K>, k: K)
    requires forall i :: 0 <= i < |g| ==> g[i].1 == Occurrences(ks, g[i].0)
    requires k in ks ==> k in Keys(g)
    ensures CountFor(g, k) == Occurrences(ks, k)
    decreases |g|
  {
    if g == [] {
      OccurrencesAbsent(ks, k);
    } else if g[0].0 != k {
      assert g == [g[0]] + g[1..];
      KeysCons(g[0], g[1..]);
      CountForTally(g[1..], ks, k);
    }
  }

  lemma {:induction false} OccurrencesAbsent<K>(ks: seq<K>, k: K)
    requires k !in ks
    ensures Occurrences(ks, k) == 0
    decreases |ks|
  {
    if ks != [] {
      assert k !in ks[..|ks| - 1];
      OccurrencesAbsent(ks[..|ks| - 1], k);
    }
  }

  lemma BumpExtendsTally<K(!new)>(g: seq<(K, nat)>, ks: seq<K>, k: K)
    requires IsTally(g, ks)
    ensures IsTally(Bump(g, k), ks + [k])
  {
    var r := Bump(g, k);
    var ks' := ks + [k];
    assert ks'[..|ks|] == ks;
    BumpKeys(g, k);
    BumpDistinct(g, k);
    BumpEntries(g, k);
    CountForTally(g, ks, k);
    forall i | 0 <= i < |r|
      ensures r[i].1 == Occurrences(ks', r[i].0)
    {
      if r[i].0 != k {
        var j :| 0 <= j < |g| && g[j] == r[i];
      }
    }
  }

  /** Counts the keys in the order they first arrive: one entry per
      distinct key, the counts adding up to the number of keys. */
  function Group<K(==,!new)>(ks: seq<K>): (r: seq<(K, nat)>)
    ensures IsTally(r, ks)
    ensures Total(r) == |ks|
    decreases |ks|
  {
    if ks == [] then []
    else
      var front := ks[..|ks| - 1];
      var g := Group(front);
      assert ks == front + [ks[|ks| - 1]];
      BumpExtendsTally(g, front, ks[|ks| - 1]);
      BumpKeys(g, ks[|ks| - 1]);
      Bump(g, ks[|ks| - 1])
  }

  /** A tally stays a tally under any reordering that keeps its keys
      distinct. */
  lemma TallyReordered<K(!new)>(g: seq<(K, nat)>, r: seq<(K, nat)>, ks: seq<K>)
    requires IsTally(g, ks)
    requires multiset(r) == multiset(g)
    requires DistinctKeys(r)
    requires forall k :: k in Keys(r) <==> k in Keys(g)
    ensures IsTally(r, ks)
  {
    forall i | 0 <= i < |r|
      ensures r[i].1 == Occurrences(ks, r[i].0)
    {
      assert r[i] in multiset(r);
      assert r[i] in g;
    }
  }

  predicate NonIncreasing<K>(g: seq<(K, nat)>) {
    forall i, j :: 0 <= i < j < |g| ==> g[i].1 >= g[j].1
  }

  /** Places `e` before the first entry whose count is not above its own. */
  function InsertByCount<K>(e: (K, nat), s: seq<(K, nat)>): seq<(K, nat)>
    decreases |s|
  {
    if s == [] || e.1 >= s[0].1 then [e] + s else [s[0]] + InsertByCount(e, s[1..])
  }

  lemma {:induction false} InsertByCountKeeps<K>(e: (K, nat), s: seq<(K, nat)>)
    ensures multiset(InsertByCount(e, s)) == multiset(s) + multiset{e}
    ensures forall k :: k in Keys(InsertByCount(e, s)) <==> k in Keys(s) || k == e.0
    ensures Total(InsertByCount(e, s)) == Total(s) + e.1
    decreases |s|
  {
    if s == [] || e.1 >= s[0].1 {
      KeysCons(e, s);
      assert ([e] + s)[1..] == s;
    } else {
      var rest := InsertByCount(e, s[1..]);
      InsertByCountKeeps(e, s[1..]);
      assert s == [s[0]] + s[1..];
      KeysCons(s[0], s[1..]);
      KeysCons(s[0], rest);
      assert ([s[0]] + rest)[1..] == rest;
    }
  }

  lemma {:induction false} InsertByCountSorted<K>(e: (K, nat), s: seq<(K, nat)>)
    requires NonIncreasing(s)
    ensures NonIncreasing(InsertByCount(e, s))
    decreases |s|
  {
    if s != [] && e.1 < s[0].1 {
      var rest := InsertByCount(e, s[1..]);
      InsertByCountSorted(e, s[1..]);
      InsertByCountKeeps(e, s[1..]);
      forall j | 0 <= j < |rest| ensures s[0].1 >= rest[j].1 {
        assert rest[j] in multiset(rest);
      }
    }
  }

  lemma {:induction false} InsertByCountDistinct<K>(e: (K, nat), s: seq<(K, nat)>)
    requires DistinctKeys(s) && e.0 !in Keys(s)
    ensures DistinctKeys(InsertByCount(e, s))
    decreases |s|
  {
    assert s != [] ==> s == [s[0]] + s[1..];
    if s == [] || e.1 >= s[0].1 {
      DistinctCons(e, s);
    } else {
      DistinctCons(s[0], s[1..]);
      KeysCons(s[0], s[1..]);
      InsertByCountDistinct(e, s[1..]);
      InsertByCountKeeps(e, s[1..]);
      DistinctCons(s[0], InsertByCount(e, s[1..]));
    }
  }

  /** Largest count first; the order among equal counts is not promised.
      Nothing is added, lost or merged. */
  function SortByCount<K>(g: seq<(K, nat)>): (r: seq<(K, nat)>)
    ensures NonIncreasing(r)
    ensures multiset(r) == multiset(g)
    decreases |g|
  {
    if g == [] then []
    else
      var rest := SortByCount(g[1..]);
      assert g == [g[0]] + g[1..];
      InsertByCountKeeps(g[0], rest);
      InsertByCountSorted(g[0], rest);
      InsertByCount(g[0], rest)
  }

  /** Sorting by count keeps the keys, the total and their distinctness. */
  lemma {:induction false} SortByCountKeeps<K>(g: seq<(K, nat)>)
    ensures forall k :: k in Keys(SortByCount(g)) <==> k in Keys(g)
    ensures Total(SortByCount(g)) == Total(g)
    ensures DistinctKeys(g) ==> DistinctKeys(SortByCount(g))
    decreases |g|
  {
    if g != [] {
      var rest := SortByCount(g[1..]);
      SortByCountKeeps(g[1..]);
      assert g == [g[0]] + g[1..];
      KeysCons(g[0], g[1..]);
      DistinctCons(g[0], g[1..]);
      InsertByCountKeeps(g[0], rest);
      if DistinctKeys(g) {
        InsertByCountDistinct(g[0], rest);
      }
    }
  }

  predicate StrictlyAscending(g: seq<(int, nat)>) {
    forall i, j :: 0 <= i < j < |g| ==> g[i].0 < g[j].0
  }

  /** Places `e` before the first entry with a larger key. */
  function InsertByKey(e: (int, nat), s: seq<(int, nat)>): seq<(int, nat)>
    decreases |s|
  {
    if s == [] || e.0 < s[0].0 then [e] + s else [s[0]] + InsertByKey(e, s[1..])
  }

  lemma {:induction false} InsertByKeyKeeps(e: (int, nat), s: seq<(int, nat)>)
    ensures multiset(InsertByKey(e, s)) == multiset(s) + multiset{e}
    ensures forall k :: k in Keys(InsertByKey(e, s)) <==> k in Keys(s) || k == e.0
    ensures Total(InsertByKey(e, s)) == Total(s) + e.1
    decreases |s|
  {
    if s == [] || e.0 < s[0].0 {
      KeysCons(e, s);
      assert ([e] + s)[1..] == s;
    } else {
      var rest := InsertByKey(e, s[1..]);
      InsertByKeyKeeps(e, s[1..]);
      assert s == [s[0]] + s[1..];
      KeysCons(s[0], s[1..]);
      KeysCons(s[0], rest);
      assert ([s[0]] + rest)[1..] == rest;
    }
  }

  lemma {:induction false} InsertByKeySorted(e: (int, nat), s: seq<(int, nat)>)
    requires StrictlyAscending(s) && e.0 !in Keys(s)
    ensures StrictlyAscending(InsertByKey(e, s))
    decreases |s|
  {
    if s != [] && e.0 >= s[0].0 {
      assert Keys(s)[0] == s[0].0;
      assert s == [s[0]] + s[1..];
      KeysCons(s[0], s[1..]);
      var rest := InsertByKey(e, s[1..]);
      InsertByKeySorted(e, s[1..]);
      InsertByKeyKeeps(e, s[1..]);
      forall j | 0 <= j < |rest| ensures s[0].0 < rest[j].0 {
        assert rest[j].0 == Keys(rest)[j];
        assert Keys(s[1..]) == Keys(s)[1..];
      }
    }
  }

  /** Smallest key first; with distinct keys the order is strict.  Nothing
      is added, lost or merged. */
  function SortByKey(g: seq<(int, nat)>): (r: seq<(int, nat)>)
    requires DistinctKeys(g)
    ensures StrictlyAscending(r)
    ensures multiset(r) == multiset(g)
    ensures forall k :: k in Keys(r) <==> k in Keys(g)
    ensures Total(r) == Total(g)
    decreases |g|
  {
    if g == [] then []
    else
      assert g == [g[0]] + g[1..];
      DistinctCons(g[0], g[1..]);
      KeysCons(g[0], g[1..]);
      var rest := SortByKey(g[1..]);
      InsertByKeyKeeps(g[0], rest);
      InsertByKeySorted(g[0], rest);
      InsertByKey(g[0], rest)
  }

  lemma StrictlyAscendingIsDistinct(g: seq<(int, nat)>)
    requires StrictlyAscending(g)
    ensures DistinctKeys(g)
  {
  }
}
