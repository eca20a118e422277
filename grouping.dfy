/** First-seen grouping: the ordered association list that `d3.nest().key(...)`
    builds, written out so that its order can be stated. */
module Grouping {
  import opened Summary

  /** One key of an ordered association list with its value. */
  datatype Entry<K, V> = Entry(key: K, value: V)

  /** The distinct keys of `xs`, in the order they are first seen. */
  function KeysOf<T, K(==)>(xs: seq<T>, key: T -> K): seq<K> {
    if xs == [] then []
    else
      var ks := KeysOf(xs[..|xs| - 1], key);
      var k := key(xs[|xs| - 1]);
      if k in ks then ks else ks + [k]
  }

  /** The elements of `xs` with key `k`, in their original order. */
  function Members<T, K(==)>(xs: seq<T>, key: T -> K, k: K): seq<T> {
    if xs == [] then []
    else Members(xs[..|xs| - 1], key, k) + (if key(xs[|xs| - 1]) == k then [xs[|xs| - 1]] else [])
  }

  /** Adds `x` to the group of key `k`, or opens a new group for `k` at the end. */
  function Place<T, K(==)>(groups: seq<Entry<K, seq<T>>>, k: K, x: T): (r: seq<Entry<K, seq<T>>>)
    requires forall i :: 0 <= i < |groups| ==> groups[i].value != []
    ensures forall i :: 0 <= i < |r| ==> r[i].value != []
  {
    if groups == [] then [Entry(k, [x])]
    else if groups[0].key == k then [Entry(k, groups[0].value + [x])] + groups[1..]
    else [groups[0]] + Place(groups[1..], k, x)
  }

  /** One pass over `xs`, as `d3.nest` does it: each element joins the group of its
      key; a key seen for the first time opens a group after all the others. */
  function GroupBy<T, K(==)>(xs: seq<T>, key: T -> K): (r: seq<Entry<K, seq<T>>>)
    ensures forall i :: 0 <= i < |r| ==> r[i].value != []
  {
    if xs == [] then [] else Place(GroupBy(xs[..|xs| - 1], key), key(xs[|xs| - 1]), xs[|xs| - 1])
  }

  /** What the grouping is meant to be: one entry per distinct key, in first-seen
      order, holding exactly the members of that key. */
  function Grouped<T, K(==)>(xs: seq<T>, key: T -> K): seq<Entry<K, seq<T>>> {
    var ks := KeysOf(xs, key);
    seq(|ks|, i requires 0 <= i < |ks| => Entry(ks[i], Members(xs, key, ks[i])))
  }

  ghost predicate Distinct<K>(ks: seq<K>) {
    forall i, j :: 0 <= i < j < |ks| ==> ks[i] != ks[j]
  }

  /** The keys are pairwise different, and a key is listed exactly when it has members. */
  lemma {:induction false} KeysOfDistinct<T, K>(xs: seq<T>, key: T -> K)
    ensures Distinct(KeysOf(xs, key))
    ensures forall k :: k in KeysOf(xs, key) <==> Members(xs, key, k) != []
  {
    if xs != [] {
      KeysOfDistinct(xs[..|xs| - 1], key);
    }
  }

  /** The keys of any prefix of `xs` are a prefix of the keys of `xs`: keys are
      listed in the order of their first appearance. */
  lemma {:induction false} KeysOfPrefix<T, K>(xs: seq<T>, key: T -> K, p: nat)
    requires p <= |xs|
    ensures KeysOf(xs[..p], key) <= KeysOf(xs, key)
  {
    if p < |xs| {
      var init := xs[..|xs| - 1];
      assert init[..p] == xs[..p];
      KeysOfPrefix(init, key, p);
    } else {
      assert xs[..p] == xs;
    }
  }

  /** Every element's key is listed. */
  lemma {:induction false} KeysOfCover<T, K>(xs: seq<T>, key: T -> K)
    ensures forall q :: 0 <= q < |xs| ==> key(xs[q]) in KeysOf(xs, key)
  {
    if xs != [] {
      var init := xs[..|xs| - 1];
      KeysOfCover(init, key);
      assert forall q :: 0 <= q < |init| ==> xs[q] == init[q];
    }
  }

  /** Of two listed keys, the earlier one occurs in `xs` before the later one first does. */
  lemma {:induction false} KeysOfFirstSeen<T, K>(xs: seq<T>, key: T -> K, i: nat, j: nat)
    requires i < j < |KeysOf(xs, key)|
    ensures exists p :: 0 <= p < |xs| && key(xs[p]) == KeysOf(xs, key)[i] &&
                        forall q :: 0 <= q <= p ==> key(xs[q]) != KeysOf(xs, key)[j]
  {
    var init := xs[..|xs| - 1];
    var ks, ksInit := KeysOf(xs, key), KeysOf(init, key);
    assert forall q :: 0 <= q < |init| ==> xs[q] == init[q];
    if j < |ksInit| {
      assert ks[..|ksInit|] == ksInit;
      KeysOfFirstSeen(init, key, i, j);
      var p :| 0 <= p < |init| && key(init[p]) == ksInit[i] &&
               forall q :: 0 <= q <= p ==> key(init[q]) != ksInit[j];
      assert key(xs[p]) == ks[i];
    } else {
      assert ks == ksInit + [key(xs[|xs| - 1])];
      KeysOfCover(init, key);
      KeysOfDistinct(init, key);
      var k := ks[i];
      assert Members(init, key, k) != [];
      MembersCount(init, key, k, Members(init, key, k)[0]);
      var m := Members(init, key, k)[0];
      assert m in multiset(init);
      var p :| 0 <= p < |init| && init[p] == m;
      assert forall q :: 0 <= q < |init| ==> key(init[q]) != ks[j];
      assert key(xs[p]) == ks[i];
    }
  }

  /** The members of `k` all have key `k`, and every element of that key is one,
      as often as it occurs. */
  lemma {:induction false} MembersCount<T, K>(xs: seq<T>, key: T -> K, k: K, x: T)
    ensures multiset(Members(xs, key, k))[x] == if key(x) == k then multiset(xs)[x] else 0
  {
    if xs != [] {
      MembersCount(xs[..|xs| - 1], key, k, x);
      assert xs == xs[..|xs| - 1] + [xs[|xs| - 1]];
    }
  }

  lemma {:induction false} PlaceExisting<T, K>(groups: seq<Entry<K, seq<T>>>, k: K, x: T, p: nat)
    requires forall i :: 0 <= i < |groups| ==> groups[i].value != []
    requires p < |groups| && groups[p].key == k
    requires forall i :: 0 <= i < p ==> groups[i].key != k
    ensures Place(groups, k, x) == groups[p := Entry(k, groups[p].value + [x])]
  {
    if p > 0 {
      PlaceExisting(groups[1..], k, x, p - 1);
    }
  }

  lemma {:induction false} PlaceNew<T, K>(groups: seq<Entry<K, seq<T>>>, k: K, x: T)
    requires forall i :: 0 <= i < |groups| ==> groups[i].value != []
    requires forall i :: 0 <= i < |groups| ==> groups[i].key != k
    ensures Place(groups, k, x) == groups + [Entry(k, [x])]
  {
    if groups != [] {
      PlaceNew(groups[1..], k, x);
    }
  }

  /** Appending an element of a key already seen extends that key's group. */
  lemma GroupedSnocSeen<T, K>(init: seq<T>, x: T, key: T -> K, p: nat)
    requires p < |KeysOf(init, key)| && KeysOf(init, key)[p] == key(x)
    ensures p < |Grouped(init, key)|
    ensures Grouped(init + [x], key) ==
            Grouped(init, key)[p := Entry(key(x), Grouped(init, key)[p].value + [x])]
  {
    var xs, k, ks := init + [x], key(x), KeysOf(init, key);
    assert xs[..|xs| - 1] == init;
    KeysOfDistinct(init, key);
    assert KeysOf(xs, key) == ks;
    var g, want := Grouped(init, key), Grouped(xs, key);
    forall i | 0 <= i < |ks|
      ensures want[i] == g[p := Entry(k, g[p].value + [x])][i]
    {
      assert Members(xs, key, ks[i]) == Members(init, key, ks[i]) + (if ks[i] == k then [x] else []);
      assert want[i] == Entry(ks[i], Members(xs, key, ks[i]));
      assert g[i] == Entry(ks[i], Members(init, key, ks[i]));
      if i == p {
        assert want[i] == Entry(k, g[p].value + [x]);
      } else {
        if i < p {
          assert ks[i] != ks[p];
        } else {
          assert ks[p] != ks[i];
        }
        assert Members(xs, key, ks[i]) == Members(init, key, ks[i]);
        assert want[i] == g[i];
      }
    }
  }

  /** Appending an element of a new key opens a group for it at the end. */
  lemma GroupedSnocNew<T, K>(init: seq<T>, x: T, key: T -> K)
    requires key(x) !in KeysOf(init, key)
    ensures Grouped(init + [x], key) == Grouped(init, key) + [Entry(key(x), [x])]
  {
    var xs, k, ks := init + [x], key(x), KeysOf(init, key);
    assert xs[..|xs| - 1] == init;
    KeysOfDistinct(init, key);
    assert Members(init, key, k) == [];
    assert KeysOf(xs, key) == ks + [k];
    var g, want := Grouped(init, key), Grouped(xs, key);
    forall i | 0 <= i < |ks|
      ensures want[i] == g[i]
    {
      assert ks[i] != k;
      assert Members(xs, key, ks[i]) == Members(init, key, ks[i]);
    }
    assert Members(xs, key, k) == [x];
  }

  /** The one-pass grouping builds exactly the intended association list. */
  lemma {:induction false} GroupByIsGrouped<T, K>(xs: seq<T>, key: T -> K)
    ensures GroupBy(xs, key) == Grouped(xs, key)
  {
    if xs != [] {
      var init, x := xs[..|xs| - 1], xs[|xs| - 1];
      assert xs == init + [x];
      var k, ks := key(x), KeysOf(init, key);
      GroupByIsGrouped(init, key);
      KeysOfDistinct(init, key);
      var g := Grouped(init, key);
      if k in ks {
        var p :| 0 <= p < |ks| && ks[p] == k;
        PlaceExisting(g, k, x, p);
        GroupedSnocSeen(init, x, key, p);
      } else {
        PlaceNew(g, k, x);
        GroupedSnocNew(init, x, key);
      }
    }
  }

  /** The sum of `p` over all members of all groups. */
  function Total<T, K>(groups: seq<Entry<K, seq<T>>>, p: T -> real): real {
    if groups == [] then 0.0 else Total(groups[..|groups| - 1], p) + Sum(groups[|groups| - 1].value, p)
  }

  lemma {:induction false} TotalCons<T, K>(g: Entry<K, seq<T>>, groups: seq<Entry<K, seq<T>>>, p: T -> real)
    ensures Total([g] + groups, p) == Sum(g.value, p) + Total(groups, p)
  {
    if groups != [] {
      var init := groups[..|groups| - 1];
      assert ([g] + groups)[..|groups|] == [g] + init;
      TotalCons(g, init, p);
    }
  }

  lemma {:induction false} PlaceTotal<T, K>(groups: seq<Entry<K, seq<T>>>, k: K, x: T, p: T -> real)
    requires forall i :: 0 <= i < |groups| ==> groups[i].value != []
    ensures Total(Place(groups, k, x), p) == Total(groups, p) + p(x)
  {
    if groups == [] {
      assert Sum([x], p) == Sum([], p) + p(x);
    } else {
      var g, rest := groups[0], groups[1..];
      assert groups == [g] + rest;
      TotalCons(g, rest, p);
      assert g.value + [x] != [] && (g.value + [x])[..|g.value|] == g.value;
      if g.key == k {
        TotalCons(Entry(k, g.value + [x]), rest, p);
      } else {
        PlaceTotal(rest, k, x, p);
        TotalCons(g, Place(rest, k, x), p);
      }
    }
  }

  /** Grouping loses and duplicates nothing: the members of all groups add up to the whole. */
  lemma {:induction false} GroupByTotal<T, K>(xs: seq<T>, key: T -> K, p: T -> real)
    ensures Total(GroupBy(xs, key), p) == Sum(xs, p)
  {
    if xs != [] {
      GroupByTotal(xs[..|xs| - 1], key, p);
      PlaceTotal(GroupBy(xs[..|xs| - 1], key), key(xs[|xs| - 1]), xs[|xs| - 1], p);
    }
  }
}
