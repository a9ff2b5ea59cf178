// The Map container built on InnerMap.  The inner map holds pointers to values; a null pointer
// is a slot that has been made but not yet filled.

module MapContainer {
  import opened Chains
  import opened Layouts
  import opened HashTable

  datatype Pointer<T> = NullPtr | To(value: T)

  class Map<K(==, !new), T> {
    const elements: InnerMap<K, Pointer<T>>

    constructor (hash: K -> nat, less: (K, K) -> bool, seed: nat, debug: bool)
      requires StrictOrder(less)
      ensures Valid() && Contents() == map[] && fresh(elements) && fresh(elements.table)
      ensures elements.nodes == {} && elements.trees == {}
    {
      elements := new InnerMap(0, hash, less, seed, debug);
    }

    // The plain map the container stands for
    ghost function Contents(): map<K, Pointer<T>>
      reads elements, elements.nodes
      requires elements.model.Values <= elements.nodes
    {
      elements.Contents()
    }

    // Between operations every slot is filled.
    ghost predicate Valid()
      reads elements, elements.table, elements.nodes, elements.trees
    {
      elements.Valid() && Filled(Contents())
    }

    static ghost predicate Filled(m: map<K, Pointer<T>>) { forall k :: k in m ==> m[k].To? }

    ghost function Order(): seq<Node<K, Pointer<T>>>
      reads elements, elements.table
    {
      elements.Order()
    }

    method Size() returns (n: nat)
      requires Valid()
      ensures n == |Contents()|
    {
      n := elements.numElements;
      assert Contents().Keys == elements.model.Keys;
    }

    method Find(k: K) returns (it: Iterator<K, Pointer<T>>)
      requires Valid()
      ensures fresh(it) && it.m == elements && it.node == elements.Lookup(k)
      ensures it.node == null <==> k !in Contents()
      ensures it.node != null ==> it.node in elements.nodes && it.node.key == k && it.node.value == Contents()[k]
    {
      it := elements.Find(k);
    }

    // Puts a value into a slot that has just been made.
    method Fill(it: Iterator<K, Pointer<T>>, v: T, ghost was: map<K, Pointer<T>>)
      requires elements.Valid() && it.node != null && it.node in elements.nodes
      requires Filled(was) && Contents() == was[it.node.key := NullPtr]
      modifies elements.nodes`value
      ensures Valid() && Contents() == was[it.node.key := To(v)]
    {
      elements.SetValue(it, To(v));
    }

    // Insert if not present.
    method Insert(k: K, v: T) returns (it: Iterator<K, Pointer<T>>, inserted: bool)
      requires Valid()
      modifies elements, elements.table, elements.nodes, elements.trees
      ensures Valid() && (elements.table == old(elements.table) || fresh(elements.table))
      ensures fresh(elements.nodes - old(elements.nodes))
      ensures forall t :: t in elements.trees ==> t in old(elements.trees) || fresh(t)
      ensures old(elements.nodes) <= elements.nodes && (inserted <==> k !in old(Contents()))
      ensures Contents() == if k in old(Contents()) then old(Contents()) else old(Contents())[k := To(v)]
      ensures fresh(it) && it.m == elements && it.node == elements.Lookup(k) && it.node != null
    {
      hide Layout.OK, Filled;
      it, inserted := elements.Insert(k, NullPtr);
      elements.ContentsInserted(k);
      if inserted {
        Fill(it, v, old(Contents()));
      } else {
        assert Contents() == old(Contents());
      }
    }

    // operator[]: a missing key gets the default value.
    method Index(k: K, default: T) returns (v: T)
      requires Valid()
      modifies elements, elements.table, elements.nodes, elements.trees
      ensures Valid() && (elements.table == old(elements.table) || fresh(elements.table))
      ensures fresh(elements.nodes - old(elements.nodes))
      ensures forall t :: t in elements.trees ==> t in old(elements.trees) || fresh(t)
      ensures Contents() == if k in old(Contents()) then old(Contents()) else old(Contents())[k := To(default)]
      ensures To(v) == Contents()[k]
    {
      hide Layout.OK;
      assert Filled(Contents());
      var it := elements.Index(k, NullPtr);
      elements.ContentsInserted(k);
      if it.node.value == NullPtr {
        Fill(it, default, old(Contents()));
      } else {
        assert Contents() == old(Contents());
      }
      assert it.node.value == Contents()[k] && Filled(Contents());
      v := it.node.value.value;
    }

    // A copy of pos moved on to the next element
    method Successor(pos: Iterator<K, Pointer<T>>) returns (next: Iterator<K, Pointer<T>>)
      requires Valid() && pos.m == elements && pos.node != null && pos.node in elements.nodes
      ensures fresh(next) && next.m == elements && next.node == After(Order(), pos.node)
    {
      next := new Iterator(pos.node, pos.m, pos.bucketIndex, pos.treeIt);
      next.Increment();
    }

    method Remove(pos: Iterator<K, Pointer<T>>)
      requires Valid() && pos.m == elements && pos.node != null && pos.node in elements.nodes
      modifies elements, elements.table, elements.nodes, elements.trees
      ensures Valid() && elements.table == old(elements.table) && elements.trees == old(elements.trees)
      ensures elements.nodes == old(elements.nodes) - {pos.node}
      ensures Contents() == old(Contents()) - {pos.node.key}
      ensures Order() == Without<Node<K, Pointer<T>>>(old(Order()), pos.node)
    {
      elements.Erase(pos);
      elements.ContentsErased(pos.node.key);
      assert Contents() == old(Contents()) - {pos.node.key};
    }

    // Erase the element at pos; the result is at the element that followed it.
    method EraseAt(pos: Iterator<K, Pointer<T>>) returns (next: Iterator<K, Pointer<T>>)
      requires Valid() && pos.m == elements && pos.node != null && pos.node in elements.nodes
      modifies elements, elements.table, elements.nodes, elements.trees
      ensures Valid() && elements.table == old(elements.table) && elements.trees == old(elements.trees)
      ensures elements.nodes == old(elements.nodes) - {pos.node}
      ensures Contents() == old(Contents()) - {pos.node.key}
      ensures Order() == Without<Node<K, Pointer<T>>>(old(Order()), pos.node)
      ensures fresh(next) && next.m == elements && next.node == After(old(Order()), pos.node)
    {
      next := Successor(pos);
      Remove(pos);
    }

    method EraseKey(k: K) returns (n: nat)
      requires Valid()
      modifies elements, elements.table, elements.nodes, elements.trees
      ensures Valid() && elements.table == old(elements.table) && elements.trees == old(elements.trees)
      ensures elements.nodes <= old(elements.nodes)
      ensures Contents() == old(Contents()) - {k} && n == if k in old(Contents()) then 1 else 0
    {
      var it := Find(k);
      if it.node == null {
        n := 0;
      } else {
        var _ := EraseAt(it);
        n := 1;
      }
    }

    // The element at position i of an order; null stands for end().
    static ghost function At(s: seq<Node<K, Pointer<T>>>, i: nat): Node?<K, Pointer<T>> {
      if i < |s| then s[i] else null
    }

    static ghost function Keys(s: seq<Node<K, Pointer<T>>>): set<K> { set n | n in s :: n.key }

    // One turn of the range erasure: position d of the original order is at position i now.
    static lemma RangeStep(order: seq<Node<K, Pointer<T>>>, now: seq<Node<K, Pointer<T>>>, i: nat, d: nat)
      requires i <= d < |order| && NoDup(order) && NoDup(now) && now == order[..i] + order[d..]
      ensures now[i] == order[d] && After(now, order[d]) == At(order, d + 1)
      ensures Without(now, order[d]) == order[..i] + order[d + 1..]
      ensures Keys(order[i..d + 1]) == Keys(order[i..d]) + {order[d].key}
    {
      assert now[i] == order[d];
      AfterAt(now, i);
      WithoutAt(now, i);
      assert order[i..d + 1] == order[i..d] + [order[d]];
    }

    static lemma MinusMore(contents: map<K, Pointer<T>>, gone: set<K>, k: K)
      ensures contents - gone - {k} == contents - (gone + {k})
    {
    }

    // The elements i to d of the original order are gone, and nothing else is.
    ghost predicate Erasing(order: seq<Node<K, Pointer<T>>>, contents: map<K, Pointer<T>>, i: nat, d: nat)
      reads elements, elements.table, elements.nodes, elements.trees
    {
      && Valid() && i <= d <= |order| && NoDup(order)
      && Order() == order[..i] + order[d..] && Contents() == contents - Keys(order[i..d])
    }

    method EraseNext(pos: Iterator<K, Pointer<T>>, ghost order: seq<Node<K, Pointer<T>>>,
                     ghost contents: map<K, Pointer<T>>, ghost i: nat, ghost d: nat)
      returns (next: Iterator<K, Pointer<T>>)
      requires Erasing(order, contents, i, d) && pos.m == elements && d < |order| && pos.node == order[d]
      modifies elements, elements.table, elements.nodes, elements.trees
      ensures Erasing(order, contents, i, d + 1)
      ensures elements.table == old(elements.table) && elements.trees == old(elements.trees)
      ensures elements.nodes <= old(elements.nodes)
      ensures fresh(next) && next.m == elements && next.node == At(order, d + 1)
    {
      hide Layout.OK, InnerMap.Wired, Keys, Without, After;
      elements.View().OrderFacts();
      RangeStep(order, Order(), i, d);
      assert pos.node in SeqSet(Order()) by { assert Order()[i] == pos.node; }
      MinusMore(contents, Keys(order[i..d]), order[d].key);
      next := EraseAt(pos);
    }

    method EraseUpTo(first: Iterator<K, Pointer<T>>, last: Iterator<K, Pointer<T>>, ghost order: seq<Node<K, Pointer<T>>>,
                     ghost contents: map<K, Pointer<T>>, ghost i: nat, ghost j: nat)
      requires Erasing(order, contents, i, i) && first.m == elements && i <= j <= |order| && NoDup(order)
      requires first.node == At(order, i) && last.node == At(order, j)
      modifies elements, elements.table, elements.nodes, elements.trees
      ensures Erasing(order, contents, i, j)
      ensures elements.table == old(elements.table) && elements.trees == old(elements.trees)
      ensures elements.nodes <= old(elements.nodes)
    {
      hide Erasing;
      ghost var d := i;
      var pos := first;
      while pos.node != last.node
        invariant i <= d <= j && pos.m == elements && pos.node == At(order, d) && last.node == At(order, j)
        invariant Erasing(order, contents, i, d)
        invariant elements.table == old(elements.table) && elements.trees == old(elements.trees)
        invariant elements.nodes <= old(elements.nodes)
        decreases j - d
      {
        var next := EraseNext(pos, order, contents, i, d);
        pos, d := next, d + 1;
      }
    }

    // Erase the elements from first up to last, the positions i and j of the order.
    method EraseRange(first: Iterator<K, Pointer<T>>, last: Iterator<K, Pointer<T>>, ghost i: nat, ghost j: nat)
      requires Valid() && first.m == elements && i <= j <= |Order()|
      requires first.node == At(Order(), i) && last.node == At(Order(), j)
      modifies elements, elements.table, elements.nodes, elements.trees
      ensures Erasing(old(Order()), old(Contents()), i, j)
      ensures elements.table == old(elements.table) && elements.trees == old(elements.trees)
      ensures elements.nodes <= old(elements.nodes)
    {
      elements.View().OrderFacts();
      assert Erasing(Order(), Contents(), i, i) by {
        assert Order() == Order()[..i] + Order()[i..];
      }
      EraseUpTo(first, last, Order(), Contents(), i, j);
    }

    method Clear()
      requires Valid()
      modifies elements, elements.table, elements.nodes, elements.trees
      ensures Valid() && Contents() == map[] && Order() == []
      ensures elements.table == old(elements.table) && elements.trees == old(elements.trees)
      ensures elements.nodes <= old(elements.nodes)
    {
      var first := elements.Begin();
      var last := new Iterator(null, elements, 0, null);
      EraseRange(first, last, 0, |Order()|);
      elements.View().OrderFacts();
      assert forall n :: n in elements.nodes ==> n in SeqSet(Order());
      elements.StoredNodes();
    }

    // begin() and ++ visit every element once.
    method Traverse() returns (s: seq<Node<K, Pointer<T>>>)
      requires Valid()
      ensures s == Order() && NoDup(s) && SeqSet(s) == elements.nodes && |s| == |Contents()|
    {
      elements.View().OrderFacts();
      assert Contents().Keys == elements.model.Keys;
      s := [];
      var it := elements.Begin();
      while it.node != null
        invariant fresh(it) && it.m == elements && |s| <= |Order()| && s == Order()[..|s|] && it.node == At(Order(), |s|)
        decreases |Order()| - |s|
      {
        assert it.node in SeqSet(Order());
        AfterAt(Order(), |s|);
        s := s + [it.node];
        it.Increment();
      }
    }

    // An iterator kept across any number of insertions, with the tree conversions and resizes
    // they cause, still advances to the element that follows its own.
    method InsertAllThenAdvance(it: Iterator<K, Pointer<T>>, kvs: seq<(K, T)>)
      requires Valid() && it.m == elements && it.node != null && it.node in elements.nodes
      modifies it, elements, elements.table, elements.nodes, elements.trees
      ensures Valid() && old(it.node) in elements.nodes && it.node == After(Order(), old(it.node))
    {
      for i := 0 to |kvs|
        invariant Valid() && it.m == elements && it.node == old(it.node) && it.node in elements.nodes
        invariant elements.table == old(elements.table) || fresh(elements.table)
        invariant fresh(elements.nodes - old(elements.nodes))
        invariant forall t :: t in elements.trees ==> t in old(elements.trees) || fresh(t)
      {
        var _, _ := Insert(kvs[i].0, kvs[i].1);
      }
      it.Increment();
    }
  }
}
