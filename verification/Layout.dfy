// What a hash table looks like at one moment: the bucket entries, the nodes behind each of
// them, and the node stored for each key.  No heap is involved; InnerMap ties it to one.

module Layouts {
  import opened Arithmetic
  import opened Chains

  const MIN_TABLE_SIZE: nat := 8
  const MAX_LENGTH: nat := 8
  const MAX_SIZE: nat := 0x1000_0000_0000_0000       // max_size(): 1 << 60

  // A table entry is an untyped pointer in the program; equality is pointer equality.
  datatype Entry<K(!new), V> = Null | ListHead(node: Node<K, V>) | TreeRoot(tree: Tree<K, V>)

  // b ^ 1
  function Partner(b: nat): nat { if b % 2 == 0 then b + 1 else b - 1 }

  // b & ~1
  function Even(b: nat): nat { b - b % 2 }

  datatype Layout<!K(!new), V> = Layout(
    spread: K -> nat,
    less: (K, K) -> bool,
    entries: seq<Entry<K, V>>,
    // chains[b] holds the nodes reached from bucket b in iteration order; the nodes of a
    // shared tree are those of its even bucket
    chains: seq<seq<Node<K, V>>>,
    model: map<K, Node<K, V>>)
  {
    ghost predicate Shape() {
      && IsPow2(|entries|) && MIN_TABLE_SIZE <= |entries| <= MAX_SIZE && |entries| % 2 == 0
      && |chains| == |entries|
      && StrictOrder(less)
    }

    ghost function Bucket(k: K): (b: nat)
      requires Shape()
      ensures b < |entries|
    {
      Mask(spread(k), |entries|)
    }

    ghost function Slot(k: K): (b: nat)
      requires Shape()
      ensures b < |entries|
    {
      var b := Bucket(k);
      if entries[b].TreeRoot? then Even(b) else b
    }

    ghost predicate EntryOK(b: nat)
      requires Shape() && b < |entries|
    {
      match entries[b]
      case Null => chains[b] == []
      case ListHead(n) => 0 < |chains[b]| <= MAX_LENGTH && chains[b][0] == n
      case TreeRoot(t) =>
        && entries[Partner(b)] == entries[b]
        && (b % 2 == 1 ==> chains[b] == [])
        && (b % 2 == 0 ==> chains[b] != [] && Sorted(less, chains[b]))
    }

    // Every node of chain b belongs there and is the one stored for its key.
    ghost predicate Placed(b: nat)
      requires Shape() && b < |entries|
    {
      && NoDup(chains[b])
      && forall n :: n in chains[b] ==> n.key in model && model[n.key] == n && Slot(n.key) == b
    }

    ghost predicate Stored(k: K)
      requires Shape() && k in model
    {
      model[k].key == k && model[k] in chains[Slot(k)]
    }

    // Only the partner bucket shares a bucket's tree.
    ghost predicate OwnTree(b: nat)
      requires b < |entries|
    {
      entries[b].TreeRoot? ==> forall x :: 0 <= x < |entries| && entries[x] == entries[b] ==> Even(x) == Even(b)
    }

    ghost predicate OK() {
      && Shape()
      && (forall b :: 0 <= b < |entries| ==> OwnTree(b))
      && (forall b :: 0 <= b < |entries| ==> EntryOK(b) && Placed(b))
      && (forall k {:trigger Stored(k)} :: k in model ==> Stored(k))
    }

    ghost predicate FirstNonNull(i: nat) {
      && i <= |entries|
      && (i < |entries| ==> entries[i] != Null)
      && forall b :: 0 <= b < i ==> entries[b] == Null
    }

    // The nodes in iteration order.
    ghost function Order(): seq<Node<K, V>> { Flatten(chains) }

    ghost predicate IsNonEmptyList(b: nat)
      requires Shape() && b < |entries|
    {
      entries[b] != Null && entries[b] != entries[Partner(b)]
    }

    // Pointer equality with the partner bucket tells trees from lists.
    lemma EntryKinds(b: nat)
      requires OK() && b < |entries|
      ensures IsNonEmptyList(b) <==> entries[b].ListHead?
      ensures entries[b].TreeRoot? <==> entries[b] != Null && entries[b] == entries[Partner(b)]
    {
      var p := Partner(b);
      assert EntryOK(b) && Placed(b) && EntryOK(p) && Placed(p);
      assert entries[b].ListHead? ==> chains[b][0] == entries[b].node && Slot(chains[b][0].key) == b;
      assert entries[p].ListHead? ==> chains[p][0] == entries[p].node && Slot(chains[p][0].key) == p;
    }

    lemma ChainNodes(b: nat)
      requires OK() && b < |entries|
      ensures EntryOK(b) && Placed(b)
      ensures forall n :: n in chains[b] ==> n in model.Values
    {
      assert EntryOK(b) && Placed(b);
    }

    // A key is stored exactly when its node is in the chain of its slot.
    lemma KeyPlaced(k: K)
      requires OK()
      ensures EntryOK(Slot(k)) && Placed(Slot(k)) && entries[Slot(k)] == entries[Bucket(k)]
      ensures k in model ==> model[k] in chains[Slot(k)] && model[k].key == k
    {
      assert EntryOK(Bucket(k));
      assert EntryOK(Slot(k)) && Placed(Slot(k));
      assert k in model ==> Stored(k);
    }

    lemma InsertionPlace(b: nat, k: K)
      requires OK() && (b == Slot(k) || b == Bucket(k))
      ensures entries[b].TreeRoot? ==> Slot(k) == Even(b)
      ensures !entries[b].TreeRoot? ==> Bucket(k) == b
    {
      assert EntryOK(Bucket(k));
    }

    lemma PairOwned(b: nat)
      requires OK() && b < |entries|
      ensures Owned(model, chains[b]) && Owned(model, chains[Partner(b)])
      ensures SeqSet(chains[b]) !! SeqSet(chains[Partner(b)])
    {
      assert Placed(b) && Placed(Partner(b));
      forall n | n in chains[b] ensures n !in chains[Partner(b)] { assert Slot(n.key) == b; }
    }

    // Filling an empty bucket, or sharing a tree between a list's bucket and its partner, makes
    // the first non-null bucket the smaller of the old one and the one filled.
    lemma FilledFirst(i: nat, after: Layout<K, V>, b: nat)
      requires FirstNonNull(i) && |after.entries| == |entries| && b < |entries| && after.entries[b] != Null
      requires forall x :: b < x < |entries| ==> after.entries[x] == entries[x] || after.entries[x] != Null
      requires forall x :: 0 <= x < b ==> after.entries[x] == entries[x]
      ensures after.FirstNonNull(Min(i, b))
    {
    }

    ghost function PushFront(b: nat, n: Node<K, V>): Layout<K, V>
      requires b < |entries| == |chains|
    {
      this.(entries := entries[b := ListHead(n)], chains := chains[b := [n] + chains[b]], model := model[n.key := n])
    }

    lemma PushFrontBucket(b: nat, n: Node<K, V>, x: nat)
      requires OK() && b < |entries| && !entries[b].TreeRoot? && |chains[b]| < MAX_LENGTH
      requires n.key !in model && Bucket(n.key) == b && x < |entries|
      ensures PushFront(b, n).Shape() && PushFront(b, n).EntryOK(x) && PushFront(b, n).Placed(x)
      ensures forall k :: PushFront(b, n).Slot(k) == Slot(k)
    {
      assert EntryOK(x) && Placed(x) && EntryOK(Partner(b));
    }

    lemma PushFrontOK(b: nat, n: Node<K, V>)
      requires OK() && b < |entries| && !entries[b].TreeRoot? && |chains[b]| < MAX_LENGTH
      requires n.key !in model && Bucket(n.key) == b
      ensures PushFront(b, n).OK()
    {
      var l := PushFront(b, n);
      forall x | 0 <= x < |entries| ensures l.OwnTree(x) {
        assert OwnTree(x);
      }
      forall x | 0 <= x < |entries| ensures l.EntryOK(x) && l.Placed(x) {
        PushFrontBucket(b, n, x);
      }
      PushFrontBucket(b, n, b);
      forall k | k in l.model ensures l.Stored(k) {
        assert k in model ==> Stored(k);
      }
    }

    ghost function WithTree(b: nat, t: Tree<K, V>, c: seq<Node<K, V>>): Layout<K, V>
      requires b < |entries| == |chains| && |entries| % 2 == 0
    {
      this.(entries := entries[b := TreeRoot(t)][Partner(b) := TreeRoot(t)],
            chains := chains[Even(b) := c][Even(b) + 1 := []])
    }

    lemma WithTreeSlots(b: nat, t: Tree<K, V>, c: seq<Node<K, V>>, k: K)
      requires OK() && b < |entries| && entries[b].ListHead?
      ensures WithTree(b, t, c).Shape()
      ensures WithTree(b, t, c).Slot(k) == if Bucket(k) == b || Bucket(k) == Partner(b) then Even(b) else Slot(k)
      ensures Bucket(k) == b || Bucket(k) == Partner(b) <==> Slot(k) == b || Slot(k) == Partner(b)
      ensures Bucket(k) == b || Bucket(k) == Partner(b) ==> Slot(k) == Bucket(k)
    {
      assert EntryOK(b) && EntryOK(Partner(b)) && EntryOK(Bucket(k));
      EntryKinds(b);
    }

    lemma WithTreeEntry(b: nat, t: Tree<K, V>, c: seq<Node<K, V>>, x: nat)
      requires OK() && b < |entries| && entries[b].ListHead? && x < |entries|
      requires Sorted(less, c) && SeqSet(c) == SeqSet(chains[b]) + SeqSet(chains[Partner(b)])
      ensures WithTree(b, t, c).Shape() && WithTree(b, t, c).EntryOK(x)
    {
      assert EntryOK(b) && EntryOK(x);
      assert chains[b][0] in SeqSet(c);
    }

    lemma WithTreePlaced(b: nat, t: Tree<K, V>, c: seq<Node<K, V>>, x: nat)
      requires OK() && b < |entries| && entries[b].ListHead? && x < |entries|
      requires Sorted(less, c) && SeqSet(c) == SeqSet(chains[b]) + SeqSet(chains[Partner(b)])
      requires WithTree(b, t, c).Shape()
      ensures WithTree(b, t, c).Placed(x)
    {
      var l, p := WithTree(b, t, c), Partner(b);
      assert Placed(x);
      SortedNoDup(less, c);
      forall n | n in l.chains[x] ensures n.key in model && model[n.key] == n && l.Slot(n.key) == x {
        WithTreeSlots(b, t, c, n.key);
        if x == Even(b) {
          assert n in SeqSet(c);
          assert n in chains[b] || n in chains[p];
          assert Placed(b) && Placed(p);
        }
      }
    }

    // Merging the lists of b and its partner into one tree
    lemma WithTreeOK(b: nat, t: Tree<K, V>, c: seq<Node<K, V>>)
      requires OK() && b < |entries| && entries[b].ListHead? && TreeRoot(t) !in entries
      requires Sorted(less, c) && SeqSet(c) == SeqSet(chains[b]) + SeqSet(chains[Partner(b)])
      ensures WithTree(b, t, c).OK()
    {
      var l := WithTree(b, t, c);
      forall x | 0 <= x < |entries| ensures l.OwnTree(x) {
        assert OwnTree(x);
      }
      forall x | 0 <= x < |entries| ensures l.EntryOK(x) && l.Placed(x) {
        WithTreeEntry(b, t, c, x);
        WithTreePlaced(b, t, c, x);
      }
      assert l.Shape();
      forall k | k in l.model ensures l.Stored(k) {
        assert Stored(k);
        WithTreeSlots(b, t, c, k);
        if l.Slot(k) == Even(b) {
          assert model[k] in SeqSet(chains[b]) + SeqSet(chains[Partner(b)]);
          assert model[k] in SeqSet(c);
        }
      }
    }

    ghost function IntoTree(b: nat, n: Node<K, V>, c: seq<Node<K, V>>): Layout<K, V>
      requires b < |entries| == |chains|
    {
      this.(chains := chains[b := c], model := model[n.key := n])
    }

    lemma IntoTreeOK(b: nat, n: Node<K, V>, c: seq<Node<K, V>>)
      requires OK() && b < |entries| && entries[b].TreeRoot? && b % 2 == 0
      requires n.key !in model && Slot(n.key) == b
      requires Sorted(less, c) && SeqSet(c) == SeqSet(chains[b]) + {n}
      ensures IntoTree(b, n, c).OK()
    {
      var l := IntoTree(b, n, c);
      assert l.Shape();
      SortedNoDup(less, c);
      assert forall k :: l.Slot(k) == Slot(k);
      forall m | m in c ensures m in chains[b] || m == n { assert m in SeqSet(c); }
      assert n in SeqSet(c);
      forall x | 0 <= x < |entries| ensures l.OwnTree(x) {
        assert OwnTree(x);
      }
      forall x | 0 <= x < |entries| ensures l.EntryOK(x) && l.Placed(x) {
        assert EntryOK(x) && Placed(x);
      }
      forall k | k in l.model ensures l.Stored(k) {
        if k != n.key {
          assert Stored(k);
          if Slot(k) == b { assert model[k] in SeqSet(c); }
        }
      }
    }

    ghost function Removed(b: nat, n: Node<K, V>): Layout<K, V>
      requires b < |entries| == |chains| && |entries| % 2 == 0
    {
      var c := Without(chains[b], n);
      var e := if !entries[b].TreeRoot? then entries[b := if c == [] then Null else ListHead(c[0])]
               else if c == [] then entries[b := Null][Partner(b) := Null]
               else entries;
      this.(entries := e, chains := chains[b := c], model := model - {n.key})
    }

    lemma RemovedSlots(b: nat, n: Node<K, V>, k: K)
      requires OK() && b < |entries| && n in chains[b]
      ensures Removed(b, n).Shape() && n.key in model
      ensures k in model && k != n.key ==> Removed(b, n).Slot(k) == Slot(k)
    {
      assert EntryOK(b) && Placed(b) && EntryOK(Partner(b));
      assert EntryOK(Bucket(k));
      EntryKinds(b);
      WithoutFacts(chains[b], n);
      if k in model && k != n.key && Slot(k) == b {
        assert Stored(k);
        assert model[k] in SeqSet(Without(chains[b], n));
      }
    }

    lemma RemovedBucket(b: nat, n: Node<K, V>, x: nat)
      requires OK() && b < |entries| && n in chains[b] && x < |entries|
      ensures Removed(b, n).Shape() && Removed(b, n).EntryOK(x) && Removed(b, n).Placed(x)
    {
      var l := Removed(b, n);
      assert EntryOK(b) && Placed(b) && EntryOK(Partner(b)) && EntryOK(x) && Placed(x);
      EntryKinds(b);
      WithoutFacts(chains[b], n);
      if x == b { WithoutSorted(less, chains[b], n); }
      RemovedSlots(b, n, n.key);
      forall m | m in l.chains[x] ensures m.key in l.model && l.model[m.key] == m && l.Slot(m.key) == x {
        if x == b { assert m in SeqSet(Without(chains[b], n)); }
        RemovedSlots(b, n, m.key);
      }
    }

    lemma RemovedOK(b: nat, n: Node<K, V>)
      requires OK() && b < |entries| && n in chains[b]
      ensures Removed(b, n).OK() && n.key in model && model[n.key] == n
    {
      var l := Removed(b, n);
      assert Placed(b);
      RemovedSlots(b, n, n.key);
      WithoutFacts(chains[b], n);
      forall x | 0 <= x < |entries| ensures l.OwnTree(x) {
        assert OwnTree(x);
      }
      forall x | 0 <= x < |entries| ensures l.EntryOK(x) && l.Placed(x) {
        RemovedBucket(b, n, x);
      }
      forall k | k in l.model ensures l.Stored(k) {
        assert Stored(k);
        RemovedSlots(b, n, k);
        if Slot(k) == b { assert model[k] in SeqSet(Without(chains[b], n)); }
      }
    }

    lemma RemovedFirst(i: nat, b: nat, n: Node<K, V>)
      requires OK() && FirstNonNull(i) && b < |entries| && n in chains[b]
      ensures i <= b && (b != i ==> Removed(b, n).FirstNonNull(i))
      ensures forall x :: 0 <= x < i ==> Removed(b, n).entries[x] == Null
    {
      assert EntryOK(b) && EntryOK(Partner(b));
    }

    lemma RemovedValues(n: Node<K, V>)
      requires OK() && n.key in model && model[n.key] == n
      ensures (model - {n.key}).Values == model.Values - {n}
    {
      forall m | m in model.Values - {n} ensures m in (model - {n.key}).Values {
        var k :| k in model && model[k] == m;
        assert (model - {n.key})[k] == m;
      }
      forall m | m in (model - {n.key}).Values ensures m in model.Values - {n} {
        var k :| k in model - {n.key} && model[k] == m;
        assert Stored(k) && Stored(n.key);
      }
    }

    // Removal takes one node out of the iteration order and moves none.
    lemma RemovedOrder(b: nat, n: Node<K, V>)
      requires OK() && b < |entries| && n in chains[b]
      ensures Removed(b, n).Order() == Without(Order(), n)
    {
      forall x | 0 <= x < b ensures n !in chains[x] {
        assert Placed(x) && Placed(b);
      }
      FlattenWithout(chains, b, n);
    }

    lemma EmptyOK()
      requires Shape() && model == map[]
      requires forall b :: 0 <= b < |entries| ==> entries[b] == Null && chains[b] == []
      ensures OK() && FirstNonNull(|entries|)
    {
    }

    // The nodes of the buckets before i
    ghost function Below(i: nat): set<Node<K, V>>
      requires Shape()
    {
      set n | n in model.Values && Slot(n.key) < i
    }

    lemma BelowStep(i: nat)
      requires OK() && i < |entries|
      ensures NoDup(chains[i]) && Owned(model, chains[i]) && SeqSet(chains[i]) <= model.Values
      ensures SeqSet(chains[i]) !! Below(i) && Below(i + 1) == Below(i) + SeqSet(chains[i]) && Below(i) <= model.Values
    {
      ChainNodes(i);
      forall n | n in Below(i + 1) ensures n in Below(i) + SeqSet(chains[i]) {
        var k :| k in model && model[k] == n;
        assert Stored(k);
      }
    }

    lemma BelowEnds(i: nat)
      requires OK()
      ensures FirstNonNull(i) ==> Below(i) == {}
      ensures Below(|entries|) == model.Values
    {
      if FirstNonNull(i) {
        forall n | n in model.Values ensures n !in Below(i) {
          var k :| k in model && model[k] == n;
          assert Stored(k) && EntryOK(Slot(k));
        }
      }
    }

    // A tree occupies an even bucket and the one after it.
    lemma PairKinds(i: nat)
      requires OK() && i < |entries|
      ensures |chains| == |entries| && |entries| % 2 == 0
      ensures IsNonEmptyList(i) <==> entries[i].ListHead?
      ensures entries[i].ListHead? ==> chains[i] != [] && chains[i][0] == entries[i].node
      ensures entries[i] == Null ==> chains[i] == []
      ensures i % 2 == 0 ==> (entries[i].TreeRoot? <==> entries[i + 1].TreeRoot?)
      ensures i % 2 == 0 && entries[i].TreeRoot? ==> chains[i + 1] == []
      ensures FirstNonNull(i) && i % 2 == 1 ==> !entries[i].TreeRoot?
    {
      EntryKinds(i);
      assert EntryOK(i) && EntryOK(Partner(i));
    }

    // Everything is at or after the first non-null bucket.
    lemma OrderFrom(i: nat)
      requires OK() && FirstNonNull(i)
      ensures Order() == Flatten(chains[i..])
      ensures i < |entries| && i % 2 == 1 ==> !entries[i].TreeRoot?
    {
      forall b | 0 <= b < i ensures chains[b] == [] { assert EntryOK(b); }
      FlattenSkip(chains, i);
      if i < |entries| { PairKinds(i); }
    }

    lemma InOrder(n: Node<K, V>)
      requires OK()
      ensures n in Order() <==> n in model.Values
    {
      FlattenIn(chains, n);
      if i :| 0 <= i < |chains| && n in chains[i] {
        assert Placed(i);
      }
      if k :| k in model && model[k] == n {
        assert Stored(k);
      }
    }

    lemma OrderFacts()
      requires OK()
      ensures NoDup(Order()) && SeqSet(Order()) == model.Values && |Order()| == |model|
    {
      forall i, j | 0 <= i < j < |chains| ensures SeqSet(chains[i]) !! SeqSet(chains[j]) {
        assert Placed(i) && Placed(j);
        forall n | n in chains[i] ensures n !in chains[j] {
          assert Slot(n.key) == i;
        }
      }
      forall i | 0 <= i < |chains| ensures NoDup(chains[i]) { assert Placed(i); }
      FlattenNoDup(chains);
      forall n | n in SeqSet(Order()) ensures n in model.Values { InOrder(n); }
      forall n | n in model.Values ensures n in SeqSet(Order()) { InOrder(n); }
      NoDupSize(Order());
      forall k, k2 | k in model && k2 in model && k != k2 ensures model[k] != model[k2] {
        assert Stored(k) && Stored(k2);
      }
      InjectiveSize(model);
    }
  }
}
