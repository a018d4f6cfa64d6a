/** Counting how often each key occurs, and listing the counts from the largest down. */
module Tally {

  datatype Entry<K> = Entry(key: K, count: nat)

  /** m[k]++ on a map of counters. */
  function Bump<K>(m: map<K, nat>, k: K): map<K, nat> {
    m[k := (if k in m then m[k] else 0) + 1]
  }

  /** The counters after counting every key once, in order. */
  function Counters<K>(keys: seq<K>): map<K, nat> {
    if keys == [] then map[] else Bump(Counters(keys[..|keys| - 1]), keys[|keys| - 1])
  }

  lemma {:induction false} CountersCount<K>(keys: seq<K>)
    ensures forall k :: k in Counters(keys) <==> k in keys
    ensures forall k :: k in keys ==> Counters(keys)[k] == multiset(keys)[k] > 0
  {
    if keys != [] {
      var front := keys[..|keys| - 1];
      CountersCount(front);
      assert keys == front + [keys[|keys| - 1]];
    }
  }

  function Total<K>(es: seq<Entry<K>>): nat {
    if es == [] then 0 else es[0].count + Total(es[1..])
  }

  /** The entries list each counted key once, with its count. */
  ghost predicate Lists<K>(es: seq<Entry<K>>, keys: seq<K>) {
    && (forall i, j :: 0 <= i < j < |es| ==> es[i].key != es[j].key)
    && (forall i :: 0 <= i < |es| ==> es[i].key in keys && es[i].count == multiset(keys)[es[i].key])
    && (forall k :: k in keys ==> exists i :: 0 <= i < |es| && es[i].key == k)
  }

  function Without<K(==)>(keys: seq<K>, k: K): (rest: seq<K>) {
    if keys == [] then []
    else if keys[0] == k then Without(keys[1..], k)
    else [keys[0]] + Without(keys[1..], k)
  }

  lemma {:induction false} WithoutLength<K>(keys: seq<K>, k: K)
    ensures |Without(keys, k)| + multiset(keys)[k] == |keys|
  {
    if keys != [] {
      WithoutLength(keys[1..], k);
      assert keys == [keys[0]] + keys[1..];
    }
  }

  lemma {:induction false} WithoutCounts<K>(keys: seq<K>, k: K, x: K)
    ensures multiset(Without(keys, k))[x] == if x == k then 0 else multiset(keys)[x]
    ensures x in Without(keys, k) <==> x in keys && x != k
  {
    if keys != [] {
      WithoutCounts(keys[1..], k, x);
      assert keys == [keys[0]] + keys[1..];
    }
  }

  lemma MemberIsCounted<K>(keys: seq<K>, k: K)
    ensures k in keys <==> multiset(keys)[k] > 0
  {
  }

  lemma SomeKey<K>(keys: seq<K>)
    ensures keys == [] || exists k :: k in keys
  {
    if keys != [] {
      assert keys[0] in keys;
    }
  }

  /** The counts of such a list add up to the number of keys. */
  lemma {:induction false} CountsAddUp<K>(es: seq<Entry<K>>, keys: seq<K>)
    requires Lists(es, keys)
    ensures Total(es) == |keys|
  {
    if es == [] {
      SomeKey(keys);
    } else {
      var k := es[0].key;
      var rest := Without(keys, k);
      WithoutLength(keys, k);
      assert forall i :: 0 <= i < |es[1..]| ==> es[1..][i] == es[i + 1];
      forall x | x in rest
        ensures exists i :: 0 <= i < |es[1..]| && es[1..][i].key == x
      {
        WithoutCounts(keys, k, x);
        var i :| 0 <= i < |es| && es[i].key == x;
        assert es[1..][i - 1].key == x;
      }
      forall i | 0 <= i < |es[1..]|
        ensures es[1..][i].key in rest && es[1..][i].count == multiset(rest)[es[1..][i].key]
      {
        WithoutCounts(keys, k, es[1..][i].key);
      }
      CountsAddUp(es[1..], rest);
    }
  }

  ghost predicate Descending<K>(es: seq<Entry<K>>) {
    forall i, j :: 0 <= i < j < |es| ==> es[i].count >= es[j].count
  }

  /** Map iteration: the counters as a list, in an order nobody promises. */
  method ListCounters<K(==)>(m: map<K, nat>) returns (es: seq<Entry<K>>)
    ensures forall i, j :: 0 <= i < j < |es| ==> es[i].key != es[j].key
    ensures forall i :: 0 <= i < |es| ==> es[i].key in m && es[i].count == m[es[i].key]
    ensures forall k :: k in m ==> exists i :: 0 <= i < |es| && es[i].key == k
  {
    es := [];
    var left := m.Keys;
    while left != {}
      invariant left <= m.Keys
      invariant forall i, j :: 0 <= i < j < |es| ==> es[i].key != es[j].key
      invariant forall i :: 0 <= i < |es| ==> es[i].key in m && es[i].key !in left && es[i].count == m[es[i].key]
      invariant forall k :: k in m && k !in left ==> exists i :: 0 <= i < |es| && es[i].key == k
    {
      var k :| k in left;
      ghost var before := es;
      es := es + [Entry(k, m[k])];
      left := left - {k};
      forall x | x in m && x !in left
        ensures exists i :: 0 <= i < |es| && es[i].key == x
      {
        if x == k {
          assert es[|before|].key == k;
        } else {
          var i :| 0 <= i < |before| && before[i].key == x;
          assert es[i].key == x;
        }
      }
    }
  }

  /** sort.Slice by descending count: equal counts come out in any order. */
  method SortByCount<K(==)>(es: seq<Entry<K>>) returns (sorted: seq<Entry<K>>)
    ensures Descending(sorted)
    ensures multiset(sorted) == multiset(es)
  {
    sorted := [];
    var left := multiset(es);
    while left != multiset{}
      invariant Descending(sorted)
      invariant multiset(sorted) + left == multiset(es)
      invariant AllAtLeast(sorted, left)
      decreases |left|
    {
      ExistsLargest(left);
      var e :| e in left && forall x :: x in left ==> e.count >= x.count;
      TakeLargest(sorted, left, e);
      left := left - multiset{e};
      sorted := sorted + [e];
    }
  }

  lemma TakeLargest<K>(sorted: seq<Entry<K>>, left: multiset<Entry<K>>, e: Entry<K>)
    requires Descending(sorted) && AllAtLeast(sorted, left)
    requires e in left && forall x :: x in left ==> e.count >= x.count
    ensures Descending(sorted + [e]) && AllAtLeast(sorted + [e], left - multiset{e})
    ensures multiset(sorted + [e]) + (left - multiset{e}) == multiset(sorted) + left
  {
  }

  ghost predicate AllAtLeast<K>(sorted: seq<Entry<K>>, left: multiset<Entry<K>>) {
    forall i, e :: 0 <= i < |sorted| && e in left ==> sorted[i].count >= e.count
  }

  lemma {:induction false} ExistsLargest<K>(es: multiset<Entry<K>>)
    requires es != multiset{}
    ensures exists e :: e in es && forall x :: x in es ==> e.count >= x.count
    decreases |es|
  {
    var e :| e in es;
    var rest := es - multiset{e};
    if rest == multiset{} {
      forall x | x in es
        ensures x == e
      {
        assert x != e ==> rest[x] == es[x];
      }
    } else {
      ExistsLargest(rest);
      var y :| y in rest && forall x :: x in rest ==> y.count >= x.count;
      assert forall x :: x in es ==> x == e || x in rest;
      if y.count >= e.count {
        assert y in es;
      }
    }
  }

  /** A reordering lists the same counters. */
  lemma ReorderingLists<K>(es: seq<Entry<K>>, sorted: seq<Entry<K>>, keys: seq<K>)
    requires Lists(es, keys) && multiset(sorted) == multiset(es)
    ensures Lists(sorted, keys)
  {
    forall i | 0 <= i < |sorted|
      ensures sorted[i] in es
    {
      assert sorted[i] in multiset(sorted);
    }
    forall k | k in keys
      ensures exists i :: 0 <= i < |sorted| && sorted[i].key == k
    {
      var i :| 0 <= i < |es| && es[i].key == k;
      assert es[i] in multiset(sorted);
      assert es[i] in sorted;
    }
    forall i, j | 0 <= i < j < |sorted|
      ensures sorted[i].key != sorted[j].key
    {
      StaysDistinct(es, sorted, i, j);
    }
  }

  lemma StaysDistinct<K>(es: seq<Entry<K>>, sorted: seq<Entry<K>>, i: nat, j: nat)
    requires multiset(sorted) == multiset(es) && i < j < |sorted| && sorted[i] in es && sorted[j] in es
    requires forall a, b :: 0 <= a < b < |es| ==> es[a].key != es[b].key
    ensures sorted[i].key != sorted[j].key
  {
    if sorted[i].key == sorted[j].key {
      var a :| 0 <= a < |es| && es[a] == sorted[i];
      var b :| 0 <= b < |es| && es[b] == sorted[j];
      assert a == b;
      RepeatedTwice(sorted, i, j);
      OnceOnly(es, a);
    }
  }

  lemma RepeatedTwice<T>(s: seq<T>, i: nat, j: nat)
    requires i < j < |s| && s[i] == s[j]
    ensures multiset(s)[s[i]] >= 2
  {
    assert s == s[..j] + [s[j]] + s[j + 1..];
    assert s[..j][i] == s[i];
    assert s[i] in multiset(s[..j]);
  }

  lemma OnceOnly<K>(es: seq<Entry<K>>, a: nat)
    requires a < |es| && forall i, j :: 0 <= i < j < |es| ==> es[i].key != es[j].key
    ensures multiset(es)[es[a]] == 1
  {
    assert es == es[..a] + [es[a]] + es[a + 1..];
    assert es[a] !in es[..a] && es[a] !in es[a + 1..];
    MemberIsCounted(es[..a], es[a]);
    MemberIsCounted(es[a + 1..], es[a]);
  }

  lemma CountersSnoc<K>(keys: seq<K>, k: K)
    ensures Counters(keys + [k]) == Bump(Counters(keys), k)
  {
    assert (keys + [k])[..|keys|] == keys;
  }

  /** The counters of some keys, listed from the largest count down. */
  method RankCounters<K(==)>(m: map<K, nat>, ghost keys: seq<K>) returns (ranked: seq<Entry<K>>)
    requires m == Counters(keys)
    ensures Lists(ranked, keys) && Descending(ranked)
  {
    var es := ListCounters(m);
    CountersCount(keys);
    assert Lists(es, keys);
    ranked := SortByCount(es);
    ReorderingLists(es, ranked, keys);
  }
}
