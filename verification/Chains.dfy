// Linked-list nodes, ordered trees of nodes, and facts about sequences of nodes.

module Chains {

  class Node<K, V> {
    const key: K
    var value: V
    var next: Node?<K, V>

    constructor (k: K, v: V)
      ensures key == k && value == v && next == null
    {
      key, value, next := k, v, null;
    }
  }

  ghost predicate StrictOrder<K(!new)>(less: (K, K) -> bool) {
    && (forall x :: !less(x, x))
    && (forall x, y, z :: less(x, y) && less(y, z) ==> less(x, z))
    && (forall x, y :: x != y ==> less(x, y) || less(y, x))
  }

  ghost function SeqSet<T>(s: seq<T>): set<T> { set x | x in s }

  ghost predicate NoDup<T>(s: seq<T>) { forall i, j :: 0 <= i < j < |s| ==> s[i] != s[j] }

  // The link that node i of the list c should have
  ghost function NextOf<K, V>(c: seq<Node<K, V>>, i: nat): Node?<K, V>
    requires i < |c|
  {
    if i + 1 < |c| then c[i + 1] else null
  }

  ghost predicate Linked<K, V>(c: seq<Node<K, V>>)
    reads SeqSet(c)`next
  {
    forall i {:trigger NextOf(c, i)} :: 0 <= i < |c| ==> c[i].next == NextOf(c, i)
  }

  lemma LinkedAt<K, V>(c: seq<Node<K, V>>, i: nat)
    requires Linked(c) && i < |c|
    ensures c[i].next == NextOf(c, i)
  {
  }

  lemma TailLinked<K, V>(c: seq<Node<K, V>>)
    requires Linked(c) && c != []
    ensures Linked(c[1..])
  {
    assert forall i :: 0 <= i < |c[1..]| ==> NextOf(c[1..], i) == NextOf(c, i + 1);
  }

  lemma ConsLinked<K, V>(n: Node<K, V>, c: seq<Node<K, V>>)
    requires Linked(c) && n.next == First(c)
    ensures Linked([n] + c)
  {
    var d := [n] + c;
    assert forall i :: 0 < i < |d| ==> NextOf(d, i) == NextOf(c, i - 1);
  }

  ghost predicate Unlinked<K, V>(c: seq<Node<K, V>>)
    reads SeqSet(c)`next
  {
    forall n :: n in c ==> n.next == null
  }

  ghost predicate Sorted<K, V>(less: (K, K) -> bool, c: seq<Node<K, V>>) {
    forall i, j :: 0 <= i < j < |c| ==> less(c[i].key, c[j].key)
  }

  // The map stores each node of c under its key.
  ghost predicate Owned<K, V>(m: map<K, Node<K, V>>, c: seq<Node<K, V>>) {
    forall n :: n in c ==> n.key in m && m[n.key] == n
  }

  lemma OwnedAt<K, V>(m: map<K, Node<K, V>>, c: seq<Node<K, V>>, i: nat)
    requires Owned(m, c) && i < |c|
    ensures c[i] in m.Values
  {
    assert c[i].key in m && m[c[i].key] == c[i];
  }

  ghost predicate Submap<K, T>(a: map<K, T>, b: map<K, T>) {
    forall k :: k in a ==> k in b && a[k] == b[k]
  }

  ghost function Flatten<T>(ss: seq<seq<T>>): seq<T> {
    if ss == [] then [] else ss[0] + Flatten(ss[1..])
  }

  // std::set of node keys: the nodes in increasing key order.
  class Tree<K(!new), V> {
    var items: seq<Node<K, V>>

    constructor ()
      ensures items == []
    {
      items := [];
    }

    // std::set::find: the first item not less than k, if it is not greater either.
    method Find(less: (K, K) -> bool, k: K) returns (n: Node?<K, V>)
      requires StrictOrder(less) && Sorted(less, items)
      ensures n == null ==> forall x :: x in items ==> x.key != k
      ensures n != null ==> n in items && n.key == k
    {
      var i := LowerBound(less, k);
      if i < |items| && !less(k, items[i].key) {
        n := items[i];
      } else {
        n := null;
      }
    }

    method LowerBound(less: (K, K) -> bool, k: K) returns (i: nat)
      requires StrictOrder(less) && Sorted(less, items)
      ensures i <= |items|
      ensures forall j :: 0 <= j < i ==> less(items[j].key, k)
      ensures forall j :: i <= j < |items| ==> !less(items[j].key, k)
    {
      i := 0;
      while i < |items| && less(items[i].key, k)
        invariant i <= |items|
        invariant forall j :: 0 <= j < i ==> less(items[j].key, k)
      {
        i := i + 1;
      }
    }

    // std::set::insert: no effect when an equal key is present.
    method Insert(less: (K, K) -> bool, n: Node<K, V>) returns (inserted: bool)
      requires StrictOrder(less) && Sorted(less, items)
      modifies `items
      ensures Sorted(less, items)
      ensures inserted <==> forall x :: x in old(items) ==> x.key != n.key
      ensures !inserted ==> items == old(items)
      ensures inserted ==> |items| == |old(items)| + 1 && SeqSet(items) == SeqSet(old(items)) + {n}
    {
      var i := LowerBound(less, n.key);
      inserted := i == |items| || less(n.key, items[i].key);
      if inserted {
        InsertedSet(items, i, n);
        items := items[..i] + [n] + items[i..];
      }
    }

    // ++ on a std::set iterator: null stands for end().
    method Next(n: Node<K, V>) returns (r: Node?<K, V>)
      requires n in items && NoDup(items)
      ensures r == After(items, n)
    {
      var i := 0;
      while items[i] != n
        invariant i < |items| && n !in items[..i]
        decreases |items| - i
      {
        assert items[..i + 1] == items[..i] + [items[i]];
        assert n in items[i + 1..] by { assert items == items[..i + 1] + items[i + 1..]; }
        i := i + 1;
      }
      AfterAt(items, i);
      r := if i + 1 < |items| then items[i + 1] else null;
    }

    // std::set::erase(iterator)
    method Erase(n: Node<K, V>)
      requires n in items
      modifies `items
      ensures items == Without(old(items), n)
    {
      items := Without(items, n);
    }
  }

  // base and the first i + 1 elements of c, and what is still to come
  lemma PrefixSet<T>(base: set<T>, c: seq<T>, i: nat)
    requires NoDup(c) && i < |c| && SeqSet(c) !! base
    ensures base + SeqSet(c[..i + 1]) == (base + SeqSet(c[..i])) + {c[i]}
    ensures base + SeqSet(c[..i]) <= base + SeqSet(c) && c[i] in SeqSet(c)
    ensures forall j :: i <= j < |c| ==> c[j] !in base + SeqSet(c[..i])
  {
    assert c[..i + 1] == c[..i] + [c[i]];
    assert forall j :: i <= j < |c| ==> c[j] in SeqSet(c);
  }

  lemma InsertedSet<T>(s: seq<T>, i: nat, x: T)
    requires i <= |s|
    ensures SeqSet(s[..i] + [x] + s[i..]) == SeqSet(s) + {x}
  {
    var t := s[..i] + [x] + s[i..];
    forall y ensures y in t <==> y in s || y == x {
      assert s == s[..i] + s[i..];
    }
  }

  // s with the first occurrence of x taken out
  function Without<T(==)>(s: seq<T>, x: T): (r: seq<T>)
    ensures |r| <= |s|
  {
    if s == [] then [] else if s[0] == x then s[1..] else [s[0]] + Without(s[1..], x)
  }

  lemma {:induction false} WithoutAt<T>(s: seq<T>, i: nat)
    requires NoDup(s) && i < |s|
    ensures Without(s, s[i]) == s[..i] + s[i + 1..]
  {
    if i > 0 {
      assert s[0] != s[i];
      WithoutAt(s[1..], i - 1);
    }
  }

  lemma WithoutFacts<T>(s: seq<T>, x: T)
    requires NoDup(s) && x in s
    ensures NoDup(Without(s, x)) && |Without(s, x)| == |s| - 1
    ensures SeqSet(Without(s, x)) == SeqSet(s) - {x}
  {
    var i :| 0 <= i < |s| && s[i] == x;
    WithoutAt(s, i);
    var r := s[..i] + s[i + 1..];
    forall y ensures y in r <==> y in s && y != x {
      if y in s && y != x {
        var j :| 0 <= j < |s| && s[j] == y;
        assert j < i ==> r[j] == y;
        assert j > i ==> r[j - 1] == y;
      }
    }
  }

  lemma SortedNoDup<K(!new), V>(less: (K, K) -> bool, c: seq<Node<K, V>>)
    requires StrictOrder(less) && Sorted(less, c)
    ensures NoDup(c)
  {
    forall i, j | 0 <= i < j < |c| ensures c[i] != c[j] {
      assert less(c[i].key, c[j].key);
    }
  }

  lemma ValuesWith<K, T>(m: map<K, T>, k: K, v: T)
    requires k !in m
    ensures m[k := v].Values == m.Values + {v}
  {
    forall x ensures x in m[k := v].Values <==> x in m.Values || x == v {
      if x in m.Values {
        var j :| j in m && m[j] == x;
        assert m[k := v][j] == x;
      }
      assert m[k := v][k] == v;
    }
  }

  lemma WithoutSorted<K(!new), V>(less: (K, K) -> bool, c: seq<Node<K, V>>, n: Node<K, V>)
    requires StrictOrder(less) && n in c
    ensures Sorted(less, c) ==> Sorted(less, Without(c, n))
  {
    if Sorted(less, c) {
      SortedNoDup(less, c);
      var i :| 0 <= i < |c| && c[i] == n;
      WithoutAt(c, i);
      SortedSkip(less, c, i);
    }
  }

  lemma SortedSkip<K(!new), V>(less: (K, K) -> bool, c: seq<Node<K, V>>, i: nat)
    requires Sorted(less, c) && i < |c|
    ensures Sorted(less, c[..i] + c[i + 1..])
  {
    var r := c[..i] + c[i + 1..];
    forall j, k | 0 <= j < k < |r| ensures less(r[j].key, r[k].key) {
      var p, q := if j < i then j else j + 1, if k < i then k else k + 1;
      assert p < q && r[j] == c[p] && r[k] == c[q];
    }
  }

  lemma {:induction false} FlattenWithout<T>(ss: seq<seq<T>>, b: nat, x: T)
    requires b < |ss| && x in ss[b]
    requires forall i :: 0 <= i < b ==> x !in ss[i]
    ensures Flatten(ss[b := Without(ss[b], x)]) == Without(Flatten(ss), x)
  {
    var s2 := ss[b := Without(ss[b], x)];
    if b == 0 {
      WithoutAppend(ss[0], Flatten(ss[1..]), x);
    } else {
      FlattenWithout(ss[1..], b - 1, x);
      WithoutSkip(ss[0], Flatten(ss[1..]), x);
      assert s2[1..] == ss[1..][b - 1 := Without(ss[b], x)];
    }
  }

  lemma {:induction false} WithoutAppend<T>(s: seq<T>, t: seq<T>, x: T)
    requires x in s
    ensures Without(s + t, x) == Without(s, x) + t
  {
    if s[0] == x {
      assert (s + t)[1..] == s[1..] + t;
    } else {
      assert (s + t)[1..] == s[1..] + t;
      WithoutAppend(s[1..], t, x);
    }
  }

  lemma {:induction false} WithoutSkip<T>(s: seq<T>, t: seq<T>, x: T)
    requires x !in s
    ensures Without(s + t, x) == s + Without(t, x)
  {
    if s == [] {
      assert s + t == t;
    } else {
      assert (s + t)[1..] == s[1..] + t;
      WithoutSkip(s[1..], t, x);
    }
  }

  lemma {:induction false} FlattenIn<T>(ss: seq<seq<T>>, x: T)
    ensures x in Flatten(ss) <==> exists i :: 0 <= i < |ss| && x in ss[i]
  {
    if ss != [] {
      FlattenIn(ss[1..], x);
      if x in Flatten(ss[1..]) {
        var i :| 0 <= i < |ss[1..]| && x in ss[1..][i];
        assert x in ss[i + 1];
      }
      if i :| 0 <= i < |ss| && x in ss[i] && i > 0 {
        assert x in ss[1..][i - 1];
      }
    }
  }

  lemma {:induction false} FlattenNoDup<T>(ss: seq<seq<T>>)
    requires forall i :: 0 <= i < |ss| ==> NoDup(ss[i])
    requires forall i, j :: 0 <= i < j < |ss| ==> SeqSet(ss[i]) !! SeqSet(ss[j])
    ensures NoDup(Flatten(ss))
  {
    if ss != [] {
      var t := ss[1..];
      assert forall i :: 0 <= i < |t| ==> t[i] == ss[i + 1];
      FlattenNoDup(t);
      forall x | x in ss[0] ensures x !in Flatten(t) {
        FlattenIn(t, x);
        assert forall i :: 0 <= i < |t| ==> SeqSet(ss[0]) !! SeqSet(t[i]);
        assert x in SeqSet(ss[0]);
        assert forall i :: 0 <= i < |t| ==> x !in SeqSet(t[i]);
      }
      var f := Flatten(t);
      forall i, j | 0 <= i < j < |ss[0] + f| ensures (ss[0] + f)[i] != (ss[0] + f)[j] {
        assert i < |ss[0]| ==> (ss[0] + f)[i] in ss[0];
        assert j >= |ss[0]| ==> (ss[0] + f)[j] == f[j - |ss[0]|];
      }
      assert NoDup(ss[0] + f);
    }
  }

  lemma {:induction false} FlattenAppend<T>(a: seq<seq<T>>, b: seq<seq<T>>)
    ensures Flatten(a + b) == Flatten(a) + Flatten(b)
  {
    if a == [] {
      assert a + b == b;
    } else {
      assert (a + b)[1..] == a[1..] + b;
      FlattenAppend(a[1..], b);
    }
  }

  lemma {:induction false} NoDupSize<T>(s: seq<T>)
    requires NoDup(s)
    ensures |SeqSet(s)| == |s|
  {
    if s != [] {
      NoDupSize(s[1..]);
      assert SeqSet(s) == SeqSet(s[1..]) + {s[0]};
    }
  }

  lemma {:induction false} InjectiveSize<K, T>(m: map<K, T>)
    requires forall k, k2 :: k in m && k2 in m && k != k2 ==> m[k] != m[k2]
    ensures |m.Values| == |m|
    decreases |m|
  {
    if m != map[] {
      var k :| k in m;
      var r := m - {k};
      assert m.Values == r.Values + {m[k]} by {
        forall v | v in m.Values ensures v in r.Values + {m[k]} {
          var k2 :| k2 in m && m[k2] == v;
          assert k2 != k ==> r[k2] == v;
        }
      }
      InjectiveSize(r);
    }
  }

  // ---------- iteration order ----------

  ghost function First<K, V>(s: seq<Node<K, V>>): Node?<K, V> { if s == [] then null else s[0] }

  // The element that follows n in s
  ghost function After<K, V>(s: seq<Node<K, V>>, n: Node<K, V>): Node?<K, V> {
    if s == [] then null else if s[0] == n then First(s[1..]) else After(s[1..], n)
  }

  lemma {:induction false} AfterAt<K, V>(s: seq<Node<K, V>>, i: nat)
    requires NoDup(s) && i < |s|
    ensures After(s, s[i]) == if i + 1 < |s| then s[i + 1] else null
  {
    if i > 0 {
      assert s[0] != s[i];
      AfterAt(s[1..], i - 1);
    }
  }

  lemma FlattenSplit<T>(ss: seq<seq<T>>, b: nat)
    requires b < |ss|
    ensures Flatten(ss) == Flatten(ss[..b]) + ss[b] + Flatten(ss[b + 1..])
  {
    FlattenAppend(ss[..b], ss[b..]);
    assert ss == ss[..b] + ss[b..] && ss[b..][0] == ss[b] && ss[b..][1..] == ss[b + 1..];
  }

  lemma {:induction false} FlattenSkip<T>(ss: seq<seq<T>>, i: nat)
    requires i <= |ss| && forall b :: 0 <= b < i ==> ss[b] == []
    ensures Flatten(ss) == Flatten(ss[i..])
  {
    if i > 0 {
      FlattenSkip(ss[1..], i - 1);
      assert ss[i..] == ss[1..][i - 1..];
    } else {
      assert ss[0..] == ss;
    }
  }

  // What follows the i-th node of chain b in the whole order
  lemma AfterFlatten<K, V>(ss: seq<seq<Node<K, V>>>, b: nat, i: nat)
    requires NoDup(Flatten(ss)) && b < |ss| && i < |ss[b]|
    ensures After(Flatten(ss), ss[b][i]) == if i + 1 < |ss[b]| then ss[b][i + 1] else First(Flatten(ss[b + 1..]))
  {
    FlattenSplit(ss, b);
    var f, p := Flatten(ss), Flatten(ss[..b]);
    assert f[|p| + i] == ss[b][i];
    AfterAt(f, |p| + i);
  }
}
