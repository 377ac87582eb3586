/**
 * Insertion-ordered dictionaries, as Python's `dict` and `OrderedDict` behave:
 * a sequence of entries with pairwise distinct keys, iterated in insertion order.
 * Assigning to a key that is already present replaces its value in place and
 * keeps its position; assigning to a new key appends it.
 */
module OrderedMaps {
  import opened Wrappers

  datatype Entry<K, V> = Entry(key: K, value: V)

  type OMap<K, V> = seq<Entry<K, V>>

  /** The keys of `m` in iteration order. */
  function Keys<K, V>(m: OMap<K, V>): seq<K> {
    seq(|m|, i requires 0 <= i < |m| => m[i].key)
  }

  /** No element occurs twice in `s`. */
  ghost predicate NoDup<T>(s: seq<T>) {
    forall i, j :: 0 <= i < j < |s| ==> s[i] != s[j]
  }

  /** The elements of `s` in the order of their first occurrence, each once. */
  function Dedup<T(==)>(s: seq<T>): seq<T> {
    if s == [] then []
    else
      var d := Dedup(s[..|s| - 1]);
      if s[|s| - 1] in d then d else d + [s[|s| - 1]]
  }

  /** `m[k]` if `k` is a key of `m`. */
  function Get<K(==), V>(m: OMap<K, V>, k: K): Option<V> {
    if m == [] then None
    else if m[0].key == k then Some(m[0].value)
    else Get(m[1..], k)
  }

  /** `m[k] = v`: an existing key keeps its position, a new key goes last. */
  function Put<K(==), V>(m: OMap<K, V>, k: K, v: V): OMap<K, V> {
    if m == [] then [Entry(k, v)]
    else if m[0].key == k then [Entry(k, v)] + m[1..]
    else [m[0]] + Put(m[1..], k, v)
  }

  /** Build a dictionary by assigning the pairs of `s` in order (`{k: v for k, v in s}`). */
  function FromPairs<K(==), V>(s: seq<Entry<K, V>>): OMap<K, V> {
    if s == [] then [] else Put(FromPairs(s[..|s| - 1]), s[|s| - 1].key, s[|s| - 1].value)
  }

  lemma KeysCons<K, V>(e: Entry<K, V>, m: OMap<K, V>)
    ensures Keys([e] + m) == [e.key] + Keys(m)
  {
    assert forall i :: 0 <= i < |m| + 1 ==> Keys([e] + m)[i] == ([e.key] + Keys(m))[i];
  }

  lemma KeysAppend<K, V>(m: OMap<K, V>, e: Entry<K, V>)
    ensures Keys(m + [e]) == Keys(m) + [e.key]
  {
    assert forall i :: 0 <= i < |m| + 1 ==> Keys(m + [e])[i] == (Keys(m) + [e.key])[i];
  }

  lemma NoDupCons<T>(x: T, t: seq<T>)
    ensures NoDup([x] + t) <==> x !in t && NoDup(t)
  {
    if x !in t && NoDup(t) {
      forall i, j | 0 <= i < j < |t| + 1 ensures ([x] + t)[i] != ([x] + t)[j] {
        if i > 0 {
          assert ([x] + t)[i] == t[i - 1] && ([x] + t)[j] == t[j - 1];
        }
      }
    }
    if NoDup([x] + t) {
      forall k | 0 <= k < |t| ensures t[k] != x {
        assert ([x] + t)[0] == x && ([x] + t)[k + 1] == t[k];
      }
      forall i, j | 0 <= i < j < |t| ensures t[i] != t[j] {
        assert t[i] == ([x] + t)[i + 1] && t[j] == ([x] + t)[j + 1];
      }
    }
  }

  lemma NoDupSnoc<T>(s: seq<T>, x: T)
    ensures NoDup(s + [x]) <==> x !in s && NoDup(s)
  {
    if NoDup(s + [x]) {
      forall k | 0 <= k < |s| ensures s[k] != x {
        assert (s + [x])[k] == s[k] && (s + [x])[|s|] == x;
      }
      forall i, j | 0 <= i < j < |s| ensures s[i] != s[j] {
        assert s[i] == (s + [x])[i] && s[j] == (s + [x])[j];
      }
    }
  }

  lemma DedupLast<T>(s: seq<T>, x: T)
    ensures Dedup(s + [x]) == if x in Dedup(s) then Dedup(s) else Dedup(s) + [x]
  {
    assert (s + [x])[..|s|] == s;
  }

  /** Dedup keeps exactly the elements of `s`, each once. */
  lemma {:induction false} DedupSpec<T>(s: seq<T>)
    ensures forall x :: x in Dedup(s) <==> x in s
    ensures NoDup(Dedup(s))
    ensures |Dedup(s)| <= |s|
  {
    if s != [] {
      var init := s[..|s| - 1];
      DedupSpec(init);
      assert s == init + [s[|s| - 1]];
    }
  }

  /** On a sequence without repetitions Dedup changes nothing. */
  lemma {:induction false} DedupNoDup<T>(s: seq<T>)
    requires NoDup(s)
    ensures Dedup(s) == s
  {
    if s != [] {
      var init := s[..|s| - 1];
      assert NoDup(init);
      DedupNoDup(init);
      assert s[|s| - 1] !in init;
      assert s == init + [s[|s| - 1]];
    }
  }

  /** A lookup finds a value exactly for the keys of the dictionary, and the value is stored there. */
  lemma {:induction false} GetKeys<K, V>(m: OMap<K, V>, k: K)
    ensures Get(m, k).Some? <==> k in Keys(m)
    ensures Get(m, k).Some? ==> Entry(k, Get(m, k).value) in m
  {
    if m != [] {
      KeysCons(m[0], m[1..]);
      assert m == [m[0]] + m[1..];
      GetKeys(m[1..], k);
    }
  }

  /** With distinct keys, `m[k] == v` exactly when the entry `(k, v)` is in `m`. */
  lemma {:induction false} GetUnique<K, V>(m: OMap<K, V>, k: K, v: V)
    requires NoDup(Keys(m))
    ensures Get(m, k) == Some(v) <==> Entry(k, v) in m
  {
    if m != [] {
      KeysCons(m[0], m[1..]);
      assert m == [m[0]] + m[1..];
      assert NoDup(Keys(m[1..])) by {
        assert forall i :: 0 <= i < |m| - 1 ==> Keys(m[1..])[i] == Keys(m)[i + 1];
      }
      if m[0].key == k {
        forall j | 0 < j < |m|
          ensures m[j].key != k
        {
          assert Keys(m)[0] == k && Keys(m)[j] == m[j].key;
        }
      } else {
        GetUnique(m[1..], k, v);
      }
    }
  }

  /** After `m[k] = v`, `k` maps to `v` and every other key is unchanged. */
  lemma {:induction false} PutGet<K, V>(m: OMap<K, V>, k: K, v: V, k': K)
    ensures Get(Put(m, k, v), k') == if k' == k then Some(v) else Get(m, k')
  {
    if m != [] && m[0].key != k {
      PutGet(m[1..], k, v, k');
    }
  }

  /** Assignment keeps the key order; a new key is appended at the end. */
  lemma {:induction false} PutKeys<K, V>(m: OMap<K, V>, k: K, v: V)
    ensures Keys(Put(m, k, v)) == if k in Keys(m) then Keys(m) else Keys(m) + [k]
  {
    if m == [] {
    } else {
      KeysCons(m[0], m[1..]);
      assert m == [m[0]] + m[1..];
      if m[0].key == k {
        KeysCons(Entry(k, v), m[1..]);
      } else {
        PutKeys(m[1..], k, v);
        KeysCons(m[0], Put(m[1..], k, v));
      }
    }
  }

  /** Assigning a key that is not present appends one entry. */
  lemma {:induction false} PutAbsent<K, V>(m: OMap<K, V>, k: K, v: V)
    requires k !in Keys(m)
    ensures Put(m, k, v) == m + [Entry(k, v)]
  {
    if m != [] {
      KeysCons(m[0], m[1..]);
      assert m == [m[0]] + m[1..];
      PutAbsent(m[1..], k, v);
    }
  }

  /** Every entry after an assignment is the assigned one or was there before. */
  lemma {:induction false} PutEntries<K, V>(m: OMap<K, V>, k: K, v: V)
    ensures forall e :: e in Put(m, k, v) ==> e in m || e == Entry(k, v)
  {
    if m != [] && m[0].key != k {
      PutEntries(m[1..], k, v);
    }
  }

  /** Assignment keeps the keys distinct. */
  lemma PutNoDup<K, V>(m: OMap<K, V>, k: K, v: V)
    requires NoDup(Keys(m))
    ensures NoDup(Keys(Put(m, k, v)))
  {
    PutKeys(m, k, v);
  }

  /** Rebuilding a dictionary from its own pairs (a dict comprehension) gives it back unchanged. */
  lemma {:induction false} FromPairsIdentity<K, V>(s: seq<Entry<K, V>>)
    requires NoDup(Keys(s))
    ensures FromPairs(s) == s
  {
    if s != [] {
      var init := s[..|s| - 1];
      var last := s[|s| - 1];
      assert s == init + [last];
      KeysAppend(init, last);
      assert NoDup(Keys(init)) by {
        assert forall i :: 0 <= i < |init| ==> Keys(init)[i] == Keys(s)[i];
      }
      FromPairsIdentity(init);
      assert last.key !in Keys(init) by {
        assert Keys(s)[|init|] == last.key;
        assert forall i :: 0 <= i < |init| ==> Keys(init)[i] == Keys(s)[i] != Keys(s)[|init|];
      }
      PutAbsent(init, last.key, last.value);
    }
  }

  /** With distinct keys, assigning to the key at index `i` replaces that entry only. */
  lemma {:induction false} PutAt<K, V>(m: OMap<K, V>, i: nat, v: V)
    requires NoDup(Keys(m)) && i < |m|
    ensures Put(m, m[i].key, v) == m[i := Entry(m[i].key, v)]
  {
    if i > 0 {
      assert Keys(m)[0] != Keys(m)[i];
      KeysCons(m[0], m[1..]);
      assert m == [m[0]] + m[1..];
      NoDupCons(m[0].key, Keys(m[1..]));
      PutAt(m[1..], i - 1, v);
      assert m[1..][i - 1] == m[i];
      assert [m[0]] + m[1..][i - 1 := Entry(m[i].key, v)] == m[i := Entry(m[i].key, v)];
    }
  }

  /** A sequence that repeats one element deduplicates to that element alone. */
  lemma {:induction false} DedupSame<T>(s: seq<T>, x: T)
    requires x in s && forall y :: y in s ==> y == x
    ensures Dedup(s) == [x]
  {
    var init := s[..|s| - 1];
    assert s == init + [s[|s| - 1]];
    assert s[|s| - 1] in s;
    if init == [] {
      assert Dedup(s) == Dedup(init) + [x];
    } else {
      assert init[0] in s && init[0] in init;
      assert forall y :: y in init ==> y in s;
      DedupSame(init, x);
    }
  }

  lemma DedupEmpty<T>(s: seq<T>)
    ensures Dedup(s) == [] <==> s == []
  {
    if s != [] {
      DedupSpec(s);
      assert s[0] in Dedup(s);
    }
  }
}
