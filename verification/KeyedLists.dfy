/** Lists whose items are found, replaced and removed by a key, and the maps they stand for. */
module KeyedLists {
  type Bytes = seq<nat>

  predicate Distinct<T>(key: T -> Bytes, s: seq<T>) {
    forall i, j | 0 <= i < j < |s| :: key(s[i]) != key(s[j])
  }

  /** The map a list stands for; where keys repeat, the last item counts, as in a Python
      dictionary comprehension. */
  function Index<T>(key: T -> Bytes, s: seq<T>): map<Bytes, T>
    decreases |s|
  {
    if s == [] then map[] else Index(key, s[..|s| - 1])[key(s[|s| - 1]) := s[|s| - 1]]
  }

  /** Replaces the first item with the key of `x`, or appends `x`. */
  function Upsert<T>(key: T -> Bytes, s: seq<T>, x: T): seq<T>
    decreases |s|
  {
    if s == [] then [x]
    else if key(s[0]) == key(x) then [x] + s[1..]
    else [s[0]] + Upsert(key, s[1..], x)
  }

  function UpsertAll<T>(key: T -> Bytes, s: seq<T>, xs: seq<T>): seq<T>
    decreases |xs|
  {
    if xs == [] then s else Upsert(key, UpsertAll(key, s, xs[..|xs| - 1]), xs[|xs| - 1])
  }

  /** All items but those with key `k`. */
  function Without<T>(key: T -> Bytes, s: seq<T>, k: Bytes): seq<T>
    decreases |s|
  {
    if s == [] then []
    else Without(key, s[..|s| - 1], k) + (if key(s[|s| - 1]) == k then [] else [s[|s| - 1]])
  }

  predicate Has<T>(key: T -> Bytes, s: seq<T>, k: Bytes) {
    exists i :: 0 <= i < |s| && key(s[i]) == k
  }

  /** The map of a list has its keys and holds some of its items, all of them if the keys are
      distinct. */
  lemma {:induction false} IndexIs<T>(key: T -> Bytes, s: seq<T>)
    ensures forall k :: k in Index(key, s) <==> Has(key, s, k)
    ensures forall k :: k in Index(key, s) ==> Index(key, s)[k] in s && key(Index(key, s)[k]) == k
    decreases |s|
  {
    if s != [] {
      var init, last := s[..|s| - 1], s[|s| - 1];
      IndexIs(key, init);
      assert s == init + [last];
      forall k ensures k in Index(key, s) <==> Has(key, s, k) {
        HasAppend(key, init, last, k);
      }
    }
  }

  lemma {:induction false} IndexFinds<T>(key: T -> Bytes, s: seq<T>, i: nat)
    requires Distinct(key, s) && i < |s|
    ensures key(s[i]) in Index(key, s) && Index(key, s)[key(s[i])] == s[i]
    decreases |s|
  {
    if i < |s| - 1 {
      IndexFinds(key, s[..|s| - 1], i);
    }
  }

  lemma {:induction false} UpsertAt<T>(key: T -> Bytes, s: seq<T>, x: T, i: nat)
    requires i <= |s| && forall j | 0 <= j < i :: key(s[j]) != key(x)
    requires i < |s| ==> key(s[i]) == key(x)
    ensures Upsert(key, s, x) == if i < |s| then s[i := x] else s + [x]
    decreases |s|
  {
    if i == 0 {
    } else {
      UpsertAt(key, s[1..], x, i - 1);
    }
  }

  /** Where an upsert lands. */
  function Position<T>(key: T -> Bytes, s: seq<T>, k: Bytes): (i: nat)
    ensures i <= |s| && (forall j | 0 <= j < i :: key(s[j]) != k) && (i < |s| ==> key(s[i]) == k)
    decreases |s|
  {
    if s == [] then 0 else if key(s[0]) == k then 0 else 1 + Position(key, s[1..], k)
  }

  /** Upserting is the map update, and keeps keys distinct. */
  lemma UpsertUpdates<T>(key: T -> Bytes, s: seq<T>, x: T)
    requires Distinct(key, s)
    ensures Distinct(key, Upsert(key, s, x))
    ensures Index(key, Upsert(key, s, x)) == Index(key, s)[key(x) := x]
  {
    var i := Position(key, s, key(x));
    UpsertAt(key, s, x, i);
    var u := Upsert(key, s, x);
    if i < |s| {
      ReplaceUpdates(key, s, x, i);
    } else {
      assert u[..|u| - 1] == s;
    }
  }

  lemma {:induction false} ReplaceUpdates<T>(key: T -> Bytes, s: seq<T>, x: T, i: nat)
    requires Distinct(key, s) && i < |s| && key(s[i]) == key(x)
    ensures Index(key, s[i := x]) == Index(key, s)[key(x) := x]
    decreases |s|
  {
    var init, last := s[..|s| - 1], s[|s| - 1];
    if i == |s| - 1 {
      assert s[i := x][..|s| - 1] == init;
    } else {
      assert s[i := x][..|s| - 1] == init[i := x];
      ReplaceUpdates(key, init, x, i);
      assert key(last) != key(x);
    }
  }

  function UpdateAll<T>(key: T -> Bytes, m: map<Bytes, T>, xs: seq<T>): map<Bytes, T>
    decreases |xs|
  {
    if xs == [] then m else UpdateAll(key, m, xs[..|xs| - 1])[key(xs[|xs| - 1]) := xs[|xs| - 1]]
  }

  lemma {:induction false} UpsertAllUpdates<T>(key: T -> Bytes, s: seq<T>, xs: seq<T>)
    requires Distinct(key, s)
    ensures Distinct(key, UpsertAll(key, s, xs))
    ensures Index(key, UpsertAll(key, s, xs)) == UpdateAll(key, Index(key, s), xs)
    decreases |xs|
  {
    if xs != [] {
      UpsertAllUpdates(key, s, xs[..|xs| - 1]);
      UpsertUpdates(key, UpsertAll(key, s, xs[..|xs| - 1]), xs[|xs| - 1]);
    }
  }

  lemma {:induction false} WithoutMember<T>(key: T -> Bytes, s: seq<T>, k: Bytes, x: T)
    ensures x in Without(key, s, k) <==> x in s && key(x) != k
    decreases |s|
  {
    if s != [] {
      WithoutMember(key, s[..|s| - 1], k, x);
      assert s == s[..|s| - 1] + [s[|s| - 1]];
    }
  }

  lemma {:induction false} WithoutDistinct<T>(key: T -> Bytes, s: seq<T>, k: Bytes)
    requires Distinct(key, s)
    ensures Distinct(key, Without(key, s, k))
    decreases |s|
  {
    if s != [] {
      var init, last := s[..|s| - 1], s[|s| - 1];
      WithoutDistinct(key, init, k);
      var v := Without(key, init, k);
      forall i | 0 <= i < |v| ensures key(v[i]) != key(last) {
        WithoutMember(key, init, k, v[i]);
        var j :| 0 <= j < |init| && init[j] == v[i];
        assert key(s[j]) != key(last);
      }
    }
  }

  /** Nothing is filtered out exactly when no item has the key. */
  lemma {:induction false} WithoutNothing<T>(key: T -> Bytes, s: seq<T>, k: Bytes)
    ensures |Without(key, s, k)| <= |s|
    ensures |Without(key, s, k)| == |s| <==> !Has(key, s, k)
    ensures !Has(key, s, k) ==> Without(key, s, k) == s
    decreases |s|
  {
    if s != [] {
      var init, last := s[..|s| - 1], s[|s| - 1];
      WithoutNothing(key, init, k);
      assert s == init + [last];
      HasAppend(key, init, last, k);
    }
  }

  lemma {:induction false} WithoutIndex<T>(key: T -> Bytes, s: seq<T>, k: Bytes)
    requires Distinct(key, s)
    ensures Index(key, Without(key, s, k)) == Index(key, s) - {k}
    decreases |s|
  {
    if s != [] {
      var init, last := s[..|s| - 1], s[|s| - 1];
      WithoutIndex(key, init, k);
      var v, w := Without(key, init, k), Without(key, s, k);
      if key(last) != k {
        assert w == v + [last] && w[..|w| - 1] == v;
        MapUpdateThenRemove(Index(key, init), key(last), last, k);
      } else {
        assert w == v;
        assert Index(key, s) - {k} == Index(key, init) - {k};
      }
    }
  }

  lemma MapUpdateThenRemove<T>(m: map<Bytes, T>, a: Bytes, x: T, k: Bytes)
    requires a != k
    ensures m[a := x] - {k} == (m - {k})[a := x]
  {
  }

  /** Filtering out a key is the map without it, and keeps keys distinct. */
  lemma WithoutRemoves<T>(key: T -> Bytes, s: seq<T>, k: Bytes)
    requires Distinct(key, s)
    ensures var w := Without(key, s, k);
            && Distinct(key, w) && Index(key, w) == Index(key, s) - {k}
            && |w| <= |s| && (|w| == |s| <==> !Has(key, s, k)) && (!Has(key, s, k) ==> w == s)
  {
    WithoutDistinct(key, s, k);
    WithoutIndex(key, s, k);
    WithoutNothing(key, s, k);
  }

  lemma HasAppend<T>(key: T -> Bytes, s: seq<T>, x: T, k: Bytes)
    ensures Has(key, s + [x], k) <==> Has(key, s, k) || key(x) == k
  {
    var t := s + [x];
    if Has(key, s, k) {
      var i :| 0 <= i < |s| && key(s[i]) == k;
      assert key(t[i]) == k;
    }
    if key(x) == k {
      assert key(t[|s|]) == k;
    }
  }

  lemma AppendFresh<T>(key: T -> Bytes, s: seq<T>, x: T)
    requires Distinct(key, s) && !Has(key, s, key(x))
    ensures Distinct(key, s + [x]) && Index(key, s + [x]) == Index(key, s)[key(x) := x]
  {
  }

  /** Some list that stands for the map. */
  method Enumerate<T>(key: T -> Bytes, m: map<Bytes, T>) returns (s: seq<T>)
    requires forall k :: k in m ==> key(m[k]) == k
    ensures Distinct(key, s) && Index(key, s) == m
  {
    s := [];
    var todo := m.Keys;
    while todo != {}
      invariant todo <= m.Keys
      invariant Distinct(key, s) && Index(key, s) == m - todo
      decreases todo
    {
      var k :| k in todo;
      IndexIs(key, s);
      AppendFresh(key, s, m[k]);
      s := s + [m[k]];
      todo := todo - {k};
    }
    assert m - {} == m;
  }
}
