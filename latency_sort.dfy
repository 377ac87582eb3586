/**
 * Python's `sorted(d.items(), key=lambda item: item[1])` on one percentile's
 * run -> latency entries: a stable sort by latency. It is modelled as an
 * insertion sort; `SortByLatencyIsStable` proves it sorted, a permutation and
 * stable (entries of equal latency keep their relative order), and
 * `StableSortIsUnique` proves that these properties fix the result, so any
 * stable sort (CPython's Timsort included) produces the same sequence.
 */
module LatencySort {
  import opened OrderedMaps
  import opened Queries

  /** Non-decreasing by latency. */
  ghost predicate SortedByLatency<K>(s: seq<Entry<K, Latency>>) {
    forall i, j :: 0 <= i < j < |s| ==> s[i].value <= s[j].value
  }

  /** The entries of `s` whose latency is `v`, in their order in `s`. */
  ghost function WithLatency<K>(s: seq<Entry<K, Latency>>, v: Latency): seq<Entry<K, Latency>> {
    if s == [] then [] else (if s[0].value == v then [s[0]] else []) + WithLatency(s[1..], v)
  }

  /** `r` is `s` sorted by latency, with each group of equal latencies in its order in `s`. */
  ghost predicate IsStableSortOf<K>(r: seq<Entry<K, Latency>>, s: seq<Entry<K, Latency>>) {
    && SortedByLatency(r)
    && multiset(r) == multiset(s)
    && forall v :: WithLatency(r, v) == WithLatency(s, v)
  }

  /** Insert `e` after every entry whose latency is at most `e`'s. */
  function InsertByLatency<K>(s: seq<Entry<K, Latency>>, e: Entry<K, Latency>): seq<Entry<K, Latency>> {
    if s == [] then [e]
    else if e.value < s[0].value then [e] + s
    else [s[0]] + InsertByLatency(s[1..], e)
  }

  /** Insertion sort that takes the entries in their original order. */
  function SortByLatency<K>(s: seq<Entry<K, Latency>>): seq<Entry<K, Latency>> {
    if s == [] then [] else InsertByLatency(SortByLatency(s[..|s| - 1]), s[|s| - 1])
  }

  lemma {:induction false} WithLatencyAppend<K>(a: seq<Entry<K, Latency>>, b: seq<Entry<K, Latency>>, v: Latency)
    ensures WithLatency(a + b, v) == WithLatency(a, v) + WithLatency(b, v)
  {
    if a == [] {
      assert a + b == b;
    } else {
      var g := if a[0].value == v then [a[0]] else [];
      assert (a + b)[0] == a[0] && (a + b)[1..] == a[1..] + b;
      WithLatencyAppend(a[1..], b, v);
      assert WithLatency(a + b, v) == g + WithLatency(a[1..] + b, v);
      assert WithLatency(a, v) == g + WithLatency(a[1..], v);
    }
  }

  lemma {:induction false} WithLatencyMembers<K>(s: seq<Entry<K, Latency>>, v: Latency)
    ensures forall e :: e in WithLatency(s, v) <==> e in s && e.value == v
  {
    if s != [] {
      WithLatencyMembers(s[1..], v);
      assert s == [s[0]] + s[1..];
    }
  }

  lemma {:induction false} WithLatencyAbove<K>(s: seq<Entry<K, Latency>>, v: Latency)
    requires forall j :: 0 <= j < |s| ==> v < s[j].value
    ensures WithLatency(s, v) == []
  {
    if s != [] {
      WithLatencyAbove(s[1..], v);
    }
  }

  lemma {:induction false} InsertByLatencyMultiset<K>(s: seq<Entry<K, Latency>>, e: Entry<K, Latency>)
    ensures multiset(InsertByLatency(s, e)) == multiset(s) + multiset{e}
  {
    if s != [] && e.value >= s[0].value {
      InsertByLatencyMultiset(s[1..], e);
      assert s == [s[0]] + s[1..];
    }
  }

  lemma {:induction false} InsertByLatencySorted<K>(s: seq<Entry<K, Latency>>, e: Entry<K, Latency>)
    requires SortedByLatency(s)
    ensures SortedByLatency(InsertByLatency(s, e))
  {
    if s != [] && e.value >= s[0].value {
      var t := InsertByLatency(s[1..], e);
      InsertByLatencySorted(s[1..], e);
      InsertByLatencyMultiset(s[1..], e);
      forall j | 0 <= j < |t| ensures s[0].value <= t[j].value {
        assert t[j] in multiset(s[1..]) + multiset{e};
      }
    }
  }

  lemma WithLatencyCons<K>(x: Entry<K, Latency>, t: seq<Entry<K, Latency>>, v: Latency)
    ensures WithLatency([x] + t, v) == (if x.value == v then [x] else []) + WithLatency(t, v)
  {
    assert ([x] + t)[0] == x && ([x] + t)[1..] == t;
  }

  lemma {:induction false} InsertByLatencyGroups<K>(s: seq<Entry<K, Latency>>, e: Entry<K, Latency>, v: Latency)
    requires SortedByLatency(s)
    ensures WithLatency(InsertByLatency(s, e), v) == WithLatency(s, v) + (if e.value == v then [e] else [])
  {
    if s == [] {
      WithLatencyCons(e, [], v);
    } else if e.value < s[0].value {
      WithLatencyCons(e, s, v);
      if e.value == v {
        assert forall j :: 0 <= j < |s| ==> v < s[j].value by {
          assert forall j :: 0 <= j < |s| ==> s[0].value <= s[j].value;
        }
        WithLatencyAbove(s, v);
      }
    } else {
      var s0, s1 := s[0], s[1..];
      assert s == [s0] + s1;
      assert SortedByLatency(s1) by {
        assert forall i :: 0 <= i < |s1| ==> s1[i] == s[i + 1];
      }
      var t := InsertByLatency(s1, e);
      assert InsertByLatency(s, e) == [s0] + t;
      InsertByLatencyGroups(s1, e, v);
      WithLatencyCons(s0, t, v);
      WithLatencyCons(s0, s1, v);
    }
  }

  /** The model of `sorted` is a stable sort: sorted, a permutation, equal latencies in input order. */
  lemma {:induction false} SortByLatencyIsStable<K>(s: seq<Entry<K, Latency>>)
    ensures IsStableSortOf(SortByLatency(s), s)
  {
    if s != [] {
      var init, last := s[..|s| - 1], s[|s| - 1];
      assert s == init + [last];
      SortByLatencyIsStable(init);
      InsertByLatencySorted(SortByLatency(init), last);
      InsertByLatencyMultiset(SortByLatency(init), last);
      forall v ensures WithLatency(SortByLatency(s), v) == WithLatency(s, v) {
        InsertByLatencyGroups(SortByLatency(init), last, v);
        WithLatencyAppend(init, [last], v);
        assert [last][1..] == [];
      }
    }
  }

  /** Two sorted sequences with the same groups of equal latency are equal. */
  lemma {:induction false} SameGroupsSameSequence<K>(a: seq<Entry<K, Latency>>, b: seq<Entry<K, Latency>>)
    requires SortedByLatency(a) && SortedByLatency(b)
    requires forall v :: WithLatency(a, v) == WithLatency(b, v)
    ensures a == b
    decreases |a|
  {
    if a != [] {
      assert WithLatency(a, a[0].value)[0] == a[0];
    }
    if b != [] {
      assert WithLatency(b, b[0].value)[0] == b[0];
    }
    if a != [] && b != [] {
      var x, y := a[0], b[0];
      WithLatencyMembers(a, y.value);
      WithLatencyMembers(b, x.value);
      assert WithLatency(b, x.value)[0] in b;
      assert WithLatency(a, y.value)[0] in a;
      assert x.value == y.value;
      var v0 := x.value;
      assert WithLatency(a, v0) == [x] + WithLatency(a[1..], v0);
      assert WithLatency(b, v0) == [y] + WithLatency(b[1..], v0);
      assert x == y;
      forall v ensures WithLatency(a[1..], v) == WithLatency(b[1..], v) {
        assert a == [x] + a[1..] && b == [x] + b[1..];
        WithLatencyCons(x, a[1..], v);
        WithLatencyCons(x, b[1..], v);
        var g := if x.value == v then [x] else [];
        assert g + WithLatency(a[1..], v) == g + WithLatency(b[1..], v);
        assert WithLatency(a[1..], v) == (g + WithLatency(a[1..], v))[|g|..];
        assert WithLatency(b[1..], v) == (g + WithLatency(b[1..], v))[|g|..];
      }
      SameGroupsSameSequence(a[1..], b[1..]);
      assert a == [x] + a[1..] && b == [y] + b[1..];
    }
  }

  /** A stable sort by latency has exactly one possible result. */
  lemma StableSortIsUnique<K>(r1: seq<Entry<K, Latency>>, r2: seq<Entry<K, Latency>>, s: seq<Entry<K, Latency>>)
    requires IsStableSortOf(r1, s) && IsStableSortOf(r2, s)
    ensures r1 == r2
  {
    SameGroupsSameSequence(r1, r2);
  }

  /** Sorting keeps the keys distinct and keeps the same set of keys. */
  lemma {:induction false} InsertByLatencyKeys<K>(s: seq<Entry<K, Latency>>, e: Entry<K, Latency>)
    requires NoDup(Keys(s)) && e.key !in Keys(s)
    ensures NoDup(Keys(InsertByLatency(s, e)))
    ensures forall k :: k in Keys(InsertByLatency(s, e)) <==> k in Keys(s) || k == e.key
  {
    if s == [] {
      assert Keys([e]) == [e.key];
    } else if e.value < s[0].value {
      KeysCons(e, s);
    } else {
      KeysCons(s[0], s[1..]);
      assert s == [s[0]] + s[1..];
      assert NoDup(Keys(s[1..])) by {
        assert forall i :: 0 <= i < |s| - 1 ==> Keys(s[1..])[i] == Keys(s)[i + 1];
      }
      NoDupCons(s[0].key, Keys(s[1..]));
      InsertByLatencyKeys(s[1..], e);
      KeysCons(s[0], InsertByLatency(s[1..], e));
      NoDupCons(s[0].key, Keys(InsertByLatency(s[1..], e)));
    }
  }

  lemma {:induction false} SortByLatencyKeys<K>(s: seq<Entry<K, Latency>>)
    requires NoDup(Keys(s))
    ensures NoDup(Keys(SortByLatency(s)))
    ensures forall k :: k in Keys(SortByLatency(s)) <==> k in Keys(s)
  {
    if s != [] {
      var init, last := s[..|s| - 1], s[|s| - 1];
      assert s == init + [last];
      KeysAppend(init, last);
      assert Keys(s)[|init|] == last.key;
      assert NoDup(Keys(init)) && last.key !in Keys(init) by {
        assert forall i :: 0 <= i < |init| ==> Keys(init)[i] == Keys(s)[i] != Keys(s)[|init|];
      }
      SortByLatencyKeys(init);
      InsertByLatencyKeys(SortByLatency(init), last);
    }
  }

  /** Sorting a dictionary's items changes no lookup. */
  lemma SortByLatencyGet<K>(s: seq<Entry<K, Latency>>, k: K)
    requires NoDup(Keys(s))
    ensures Get(SortByLatency(s), k) == Get(s, k)
  {
    var r := SortByLatency(s);
    SortByLatencyIsStable(s);
    SortByLatencyKeys(s);
    GetKeys(s, k);
    GetKeys(r, k);
    if Get(s, k).Some? {
      var v := Get(s, k).value;
      assert Entry(k, v) in multiset(r);
      GetUnique(r, k, v);
    }
  }
}
