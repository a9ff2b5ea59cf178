// InnerMap, the hash map inside a protobuf Map: a chaining hash table over a power-of-two
// array of buckets.  A bucket is empty, the head of a linked list of at most eight nodes, or,
// together with its partner bucket, a pointer to a shared ordered tree.

module HashTable {
  import opened Arithmetic
  import opened Chains
  import opened Layouts

  const WORD: nat := 0x1_0000_0000_0000_0000        // size_t is 64 bits wide

  // Without NDEBUG the hash is multiplied by the seed made odd; with it the seed is added.
  function Mix(h: nat, seed: nat, debug: bool): nat {
    (if debug then h * (if seed % 2 == 0 then seed + 1 else seed) else h + seed) % WORD
  }

  // Of an even seed and the odd one after it, both multiply by the odd one.
  lemma MixIs(h: nat, seed: nat)
    ensures Mix(h, seed, false) == (h + seed) % 0x1_0000_0000_0000_0000
    ensures seed % 2 == 1 ==> Mix(h, seed, true) == h * seed % 0x1_0000_0000_0000_0000
    ensures seed % 2 == 0 ==> Mix(h, seed, true) == Mix(h, seed + 1, true)
  {
  }

  function TableSize(n: nat): nat { if n < MIN_TABLE_SIZE then MIN_TABLE_SIZE else n }

  class InnerMap<K(==, !new), V> {
    const spread: K -> nat
    const less: (K, K) -> bool
    var numElements: nat
    var numBuckets: nat
    var indexOfFirstNonNull: nat
    var table: array<Entry<K, V>>

    ghost var chains: seq<seq<Node<K, V>>>
    ghost var model: map<K, Node<K, V>>
    ghost var nodes: set<Node<K, V>>          // the stored nodes, model.Values
    ghost var trees: set<Tree<K, V>>

    // The hash is mixed with a seed and reduced to a machine word before it is masked.
    constructor (n: nat, hash: K -> nat, less: (K, K) -> bool, seed: nat, debug: bool)
      requires StrictOrder(less) && (n < MIN_TABLE_SIZE || (IsPow2(n) && n <= MAX_SIZE))
      ensures Valid() && model == map[] && numBuckets == Max(8, n)
      ensures this.less == less && forall k :: spread(k) == Mix(hash(k), seed, debug)
      ensures fresh(table) && nodes == {} && trees == {}
    {
      var size := TableSize(n);
      spread := (k: K) => Mix(hash(k), seed, debug);
      this.less := less;
      numElements, numBuckets, indexOfFirstNonNull := 0, size, size;
      table := new Entry<K, V>[size](_ => Null);
      chains := seq(size, _ => []);
      model, nodes, trees := map[], {}, {};
      new;
      assert IsPow2(8) by { assert Pow2(3) == 8; }
      Pow2Even(size);
      View().EmptyOK();
    }

    // ---------- specification ----------

    ghost function View(): Layout<K, V>
      reads `table, `chains, `model, table
    {
      Layout(spread, less, table[..], chains, model)
    }

    ghost function Lookup(k: K): Node?<K, V>
      reads `model
    {
      if k in model then model[k] else null
    }

    // The plain map that the table stands for.
    ghost function Contents(): map<K, V>
      reads `model, `nodes, nodes`value
      requires model.Values <= nodes
    {
      map k | k in model :: model[k].value
    }

    ghost function Order(): seq<Node<K, V>>
      reads `table, `chains, `model, table
    {
      View().Order()
    }

    // The heap objects behind bucket b agree with its chain.
    ghost predicate Wired(b: nat)
      requires View().OK() && b < |chains| && model.Values <= nodes
      reads `table, `chains, `model, `nodes, `trees, table, nodes`next, trees`items
    {
      assert View().Placed(b);
      match table[b]
      case Null => true
      case ListHead(_) => Linked(chains[b])
      case TreeRoot(t) => t in trees && (b % 2 == 0 ==> t.items == chains[b] && Unlinked(chains[b]))
    }

    ghost predicate CoreValid()
      reads `table, `chains, `model, `nodes, `trees, `numBuckets, table, nodes`next, trees`items
    {
      && numBuckets == table.Length
      && View().OK() && nodes == model.Values
      && (forall b :: 0 <= b < |chains| ==> Wired(b))
    }

    // The table invariant, without the element counter.
    ghost predicate TableValid()
      reads `table, `chains, `model, `nodes, `trees, `numBuckets, `indexOfFirstNonNull, table, nodes`next, trees`items
    {
      CoreValid() && View().FirstNonNull(indexOfFirstNonNull)
    }

    ghost predicate LoadOK()
      reads `numElements, `numBuckets
    {
      numBuckets <= MAX_SIZE / 2 ==> 5 * numElements < 6 * numBuckets
    }

    ghost predicate Valid()
      reads `table, `chains, `model, `nodes, `trees, `numBuckets, `indexOfFirstNonNull, `numElements, table, nodes`next, trees`items
    {
      TableValid() && numElements == |model| && LoadOK()
    }

    // ---------- table entries ----------

    function BucketNumber(k: K): (b: nat)
      reads `numBuckets
      requires 0 < numBuckets
    {
      Mask(spread(k), numBuckets)
    }

    static predicate TableEntryIsEmpty(t: array<Entry<K, V>>, b: nat)
      reads t
      requires b < t.Length
    {
      t[b] == Null
    }

    static predicate TableEntryIsNonEmptyList(t: array<Entry<K, V>>, b: nat)
      reads t
      requires b < t.Length && t.Length % 2 == 0
    {
      t[b] != Null && t[b] != t[Partner(b)]
    }

    static predicate TableEntryIsTree(t: array<Entry<K, V>>, b: nat)
      reads t
      requires b < t.Length && t.Length % 2 == 0
    {
      !TableEntryIsEmpty(t, b) && !TableEntryIsNonEmptyList(t, b)
    }

    lemma EntryKinds(b: nat)
      requires CoreValid() && b < numBuckets
      ensures TableEntryIsNonEmptyList(table, b) <==> table[b].ListHead?
      ensures TableEntryIsTree(table, b) <==> table[b].TreeRoot?
      ensures (table[b] == Null ==> chains[b] == []) && (table[b].ListHead? ==> |chains[b]| <= 8)
      ensures table[b].TreeRoot? ==> table[b].tree in trees
    {
      View().EntryKinds(b);
      assert View().EntryOK(b) && Wired(b);
    }

    // What the checks on bucket b tell, in one place for the methods below
    lemma EntryFacts(b: nat)
      requires CoreValid() && b < numBuckets
      ensures View().EntryOK(b) && View().Placed(b) && Wired(b)
      ensures TableEntryIsNonEmptyList(table, b) <==> table[b].ListHead?
      ensures TableEntryIsTree(table, b) <==> table[b].TreeRoot?
      ensures table[b].TreeRoot? ==> table[Even(b)] == table[b] && Wired(Even(b)) && View().EntryOK(Even(b))
      ensures SeqSet(chains[b]) <= nodes
    {
      View().EntryKinds(b);
      assert View().EntryOK(b) && View().Placed(b);
      assert View().EntryOK(Even(b)) && Wired(Even(b));
    }

    lemma Sizes()
      requires CoreValid()
      ensures |chains| == table.Length == numBuckets && numBuckets % 2 == 0 && Flatten(chains[numBuckets..]) == []
    {
    }

    // What a search finds at bucket b
    lemma SearchStep(b: nat)
      requires CoreValid() && b < numBuckets
      ensures |chains| == numBuckets && (chains[b] == [] ==> Flatten(chains[b..]) == Flatten(chains[b + 1..]))
      ensures chains[b] != [] ==> First(Flatten(chains[b..])) == chains[b][0]
      ensures TableEntryIsNonEmptyList(table, b) <==> table[b].ListHead?
      ensures TableEntryIsTree(table, b) <==> table[b].TreeRoot?
      ensures table[b] == Null ==> chains[b] == []
      ensures b % 2 == 0 ==> b + 1 < numBuckets && (table[b].TreeRoot? <==> table[b + 1].TreeRoot?)
      ensures table[b].ListHead? ==> First(chains[b]) == table[b].node && View().Slot(table[b].node.key) == b
      ensures b % 2 == 0 && table[b].TreeRoot? ==>
                chains[b] != [] && table[b].tree.items == chains[b] && View().Slot(chains[b][0].key) == b
    {
      View().PairKinds(b);
      assert View().EntryOK(b) && View().Placed(b) && Wired(b);
      assert chains[b..][1..] == chains[b + 1..];
    }

    lemma NodeOwned(n: Node<K, V>)
      requires CoreValid() && n in nodes
      ensures n.key in model && model[n.key] == n
    {
      var k :| k in model && model[k] == n;
      assert View().Stored(k);
    }

    // The node stored for a key has that key.
    lemma StoredNodes()
      requires CoreValid()
      ensures forall k :: k in model ==> model[k] in nodes && model[k].key == k
      ensures forall n :: n in nodes ==> n.key in model && model[n.key] == n
    {
      forall k | k in model ensures model[k].key == k { assert View().Stored(k); }
      forall n | n in nodes ensures n.key in model && model[n.key] == n { NodeOwned(n); }
    }

    // The contents after a change of the model that leaves the old values alone
    twostate lemma ContentsInserted(k: K)
      requires model.Values <= nodes && old(model.Values <= nodes)
      requires k in model && model == old(model)[k := model[k]]
      requires forall n :: n in old(nodes) ==> n.value == old(n.value)
      ensures k !in old(model) ==> Contents() == old(Contents())[k := model[k].value]
      ensures k in old(model) && model[k] == old(model)[k] ==> Contents() == old(Contents())
    {
    }

    twostate lemma ContentsErased(k: K)
      requires model.Values <= nodes && old(model.Values <= nodes) && model == old(model) - {k}
      requires forall n :: n in old(nodes) ==> n.value == old(n.value)
      ensures Contents() == old(Contents()) - {k}
    {
    }

    // Where a stored node is, and what its link says
    lemma NodePosition(n: Node<K, V>)
      requires CoreValid() && n in nodes
      ensures var b := View().Slot(n.key);
        && b < numBuckets && numBuckets % 2 == 0
        && n in chains[b] && NoDup(chains[b])
        && (table[b].ListHead? ==> Linked(chains[b]) && (b % 2 == 0 ==> !table[b + 1].TreeRoot?))
        && (table[b].TreeRoot? ==> b % 2 == 0 && n.next == null && table[b].tree.items == chains[b] && chains[b + 1] == [])
        && table[b] != Null
    {
      NodeOwned(n);
      var b := View().Slot(n.key);
      assert View().Stored(n.key) && Wired(b);
      View().PairKinds(b);
      assert View().EntryOK(b) && View().Placed(b) && View().EntryOK(View().Bucket(n.key));
    }

    // The node that follows n, in terms of its bucket
    lemma SuccessorOf(n: Node<K, V>)
      requires CoreValid() && n in nodes
      ensures var b := View().Slot(n.key);
        After(Order(), n) == (if n.next != null then n.next
                              else if table[b].TreeRoot? && After(chains[b], n) != null then After(chains[b], n)
                              else if table[b].TreeRoot? then First(Flatten(chains[b + 2..]))
                              else First(Flatten(chains[b + 1..])))
    {
      NodePosition(n);
      View().OrderFacts();
      var b := View().Slot(n.key);
      var k :| 0 <= k < |chains[b]| && chains[b][k] == n;
      AfterFlatten(chains, b, k);
      AfterAt(chains[b], k);
      if table[b].ListHead? {
        LinkedAt(chains[b], k);
      } else {
        assert chains[b + 1..][1..] == chains[b + 2..];
      }
    }

    // ---------- lookup ----------

    // Walk the list c from its head, looking for k.
    static method ScanList(head: Node<K, V>, k: K, ghost c: seq<Node<K, V>>) returns (node: Node?<K, V>)
      requires c != [] && c[0] == head && Linked(c)
      ensures node == null ==> forall n :: n in c ==> n.key != k
      ensures node != null ==> node in c && node.key == k
    {
      node := head;
      ghost var i := 0;
      while true
        invariant i < |c| && node == c[i]
        invariant forall j :: 0 <= j < i ==> c[j].key != k
        decreases |c| - i
      {
        if node.key == k {
          return;
        }
        LinkedAt(c, i);
        node := node.next;
        i := i + 1;
        if node == null { return; }
      }
    }

    method FindHelper(k: K) returns (it: Iterator<K, V>, b: nat)
      requires CoreValid()
      ensures fresh(it) && b == View().Slot(k)
      ensures it.m == this && it.node == Lookup(k)
      ensures it.node != null ==> it.Accurate(this) && it.node in nodes && it.node.key == k
    {
      b := BucketNumber(k);
      EntryFacts(b);
      View().KeyPlaced(k);
      if TableEntryIsNonEmptyList(table, b) {
        var node := ScanList(table[b].node, k, chains[b]);
        if node != null {
          it := new Iterator(node, this, b, null);
          return;
        }
      } else if TableEntryIsTree(table, b) {
        b := Even(b);
        var node := table[b].tree.Find(less, k);
        if node != null {
          it := new Iterator(node, this, b, node);
          return;
        }
      }
      it := new Iterator(null, this, b, null);
    }

    // ---------- insertion ----------

    // A bucket whose objects an operation leaves alone stays wired.
    twostate lemma StillWired(x: nat)
      requires old(View().OK() && model.Values <= nodes) && View().OK() && model.Values <= nodes && x < |chains| == |old(chains)|
      requires old(Wired(x)) && chains[x] == old(chains[x]) && table[x] == old(table[x])
      requires old(trees) <= trees
      requires table[x].TreeRoot? ==> table[x].tree.items == old(table[x].tree.items)
      requires forall n :: n in chains[x] ==> n.next == old(n.next)
      ensures Wired(x)
    {
    }

    twostate lemma PushedFront(b: nat, new node: Node<K, V>)
      requires old(CoreValid()) && b < |old(chains)| && !old(table[b]).TreeRoot? && |old(chains[b])| < MAX_LENGTH
      requires node !in old(nodes) && node.key !in old(model) && old(View()).Bucket(node.key) == b
      requires View() == old(View()).PushFront(b, node) && nodes == old(nodes) + {node}
      requires trees == old(trees) && numBuckets == table.Length
      requires node.next == if old(table[b]).ListHead? then old(table[b]).node else null
      requires forall n :: n in old(nodes) ==> n.next == old(n.next)
      requires forall t :: t in old(trees) ==> t.items == old(t.items)
      ensures CoreValid()
    {
      old(View()).PushFrontOK(b, node);
      ValuesWith(old(model), node.key, node);
      forall x | 0 <= x < |chains| ensures Wired(x) {
        assert old(Wired(x));
        old(View()).ChainNodes(x);
        assert table[x] == View().entries[x] && old(table[x]) == old(View()).entries[x];
        if x == b {
          assert forall i :: 0 < i < |chains[b]| ==> NextOf(chains[b], i) == NextOf(old(chains[b]), i - 1);
        } else {
          StillWired(x);
        }
      }
    }

    method InsertUniqueInList(b: nat, node: Node<K, V>) returns (it: Iterator<K, V>)
      requires CoreValid() && b < numBuckets && !table[b].TreeRoot? && |chains[b]| < MAX_LENGTH
      requires node !in nodes && node.key !in model && View().Bucket(node.key) == b
      modifies this, table, node`next
      ensures CoreValid() && View() == old(View()).PushFront(b, node) && nodes == old(nodes) + {node}
      ensures table == old(table) && trees == old(trees) && numElements == old(numElements)
      ensures indexOfFirstNonNull == old(indexOfFirstNonNull)
      ensures forall i :: old(View()).FirstNonNull(i) ==> View().FirstNonNull(Min(i, b))
      ensures fresh(it) && it.node == node && it.Accurate(this)
    {
      it := new Iterator(node, this, b, null);
      EntryFacts(b);
      node.next := if table[b].ListHead? then table[b].node else null;
      table[b] := ListHead(node);
      chains := chains[b := [node] + chains[b]];
      model, nodes := model[node.key := node], nodes + {node};
      assert View() == old(View()).PushFront(b, node);
      PushedFront(b, node);
    }

    twostate lemma JoinedTree(b: nat, new node: Node<K, V>, new t: Tree<K, V>)
      requires old(CoreValid()) && b < |old(chains)| && b % 2 == 0 && old(table[b]) == TreeRoot(t)
      requires node !in old(nodes) && node.key !in old(model) && old(View()).Slot(node.key) == b
      requires Sorted(less, t.items) && SeqSet(t.items) == SeqSet(old(chains[b])) + {node}
      requires View() == old(View()).IntoTree(b, node, t.items) && nodes == old(nodes) + {node}
      requires trees == old(trees) && numBuckets == table.Length
      requires node.next == null
      requires forall n :: n in old(nodes) ==> n.next == old(n.next)
      requires forall u :: u in old(trees) && u != t ==> u.items == old(u.items)
      ensures CoreValid()
    {
      old(View()).IntoTreeOK(b, node, t.items);
      ValuesWith(old(model), node.key, node);
      assert old(Wired(b));
      forall n | n in chains[b] ensures n.next == null {
        assert n in SeqSet(t.items);
        old(View()).ChainNodes(b);
      }
      forall x | 0 <= x < |chains| ensures Wired(x) {
        assert old(Wired(x));
        old(View()).ChainNodes(x);
        assert table[x] == View().entries[x] && old(table[x]) == old(View()).entries[x];
        if x != b && x != Partner(b) {
          assert old(View()).OwnTree(b);
          StillWired(x);
        }
      }
    }

    method InsertUniqueInTree(b: nat, node: Node<K, V>) returns (it: Iterator<K, V>)
      requires CoreValid() && b < numBuckets && table[b].TreeRoot?
      requires node !in nodes && node.key !in model && View().Slot(node.key) == Even(b)
      modifies this, node`next, table[b].tree`items
      ensures CoreValid() && table == old(table) && trees == old(trees) && nodes == old(nodes) + {node}
      ensures View() == old(View()).IntoTree(Even(b), node, chains[Even(b)]) && |chains| == |old(chains)|
      ensures numElements == old(numElements) && indexOfFirstNonNull == old(indexOfFirstNonNull)
      ensures forall i :: old(View()).FirstNonNull(i) ==> View().FirstNonNull(i)
      ensures fresh(it) && it.node == node && it.Accurate(this)
    {
      EntryFacts(b);
      it := new Iterator(node, this, Even(b), node);
      node.next := null;
      var t := table[b].tree;
      View().KeyPlaced(node.key);
      var _ := t.Insert(less, node);
      chains := chains[Even(b) := t.items];
      model, nodes := model[node.key := node], nodes + {node};
      JoinedTree(Even(b), node, t);
    }

    // Move the list c of one bucket into the tree, clearing its links; returns the number of nodes.
    method CopyListToTree(b: nat, tree: Tree<K, V>, ghost c: seq<Node<K, V>>, ghost m: map<K, Node<K, V>>) returns (count: nat)
      requires b < table.Length && StrictOrder(less) && Sorted(less, tree.items)
      requires table[b] == (if c == [] then Null else ListHead(c[0])) && Linked(c) && NoDup(c)
      requires Owned(m, c) && Owned(m, tree.items) && SeqSet(c) !! SeqSet(tree.items)
      modifies tree`items, m.Values`next
      ensures Sorted(less, tree.items) && SeqSet(tree.items) == SeqSet(old(tree.items)) + SeqSet(c)
      ensures Unlinked(c) && count == |c| && |tree.items| == |old(tree.items)| + count
      ensures forall n :: n in m.Values && n !in c ==> n.next == old(n.next)
    {
      count := 0;
      var node: Node?<K, V> := if table[b].ListHead? then table[b].node else null;
      while node != null
        invariant count <= |c| && node == (if count < |c| then c[count] else null)
        invariant forall j {:trigger NextOf(c, j)} :: count <= j < |c| ==> c[j].next == NextOf(c, j)
        invariant Unlinked(c[..count])
        invariant forall n :: n in m.Values && n !in c ==> n.next == old(n.next)
        invariant Sorted(less, tree.items) && |tree.items| == |old(tree.items)| + count
        invariant SeqSet(tree.items) == SeqSet(old(tree.items)) + SeqSet(c[..count])
        decreases |c| - count
      {
        forall x | x in tree.items ensures x.key != node.key {
          assert x in SeqSet(tree.items);
          assert node in SeqSet(c);
        }
        OwnedAt(m, c, count);
        var _ := tree.Insert(less, node);
        assert node.next == NextOf(c, count);
        var next := node.next;
        node.next := null;
        assert c[..count + 1] == c[..count] + [node];
        count := count + 1;
        node := next;
      }
      assert c[..count] == c;
    }

    twostate lemma Converted(b: nat, new t: Tree<K, V>)
      requires old(CoreValid()) && b < |old(chains)| && old(table[b]).ListHead? && TreeRoot(t) !in old(table[..])
      requires Sorted(less, t.items)
      requires SeqSet(t.items) == SeqSet(old(chains[b])) + SeqSet(old(chains[Partner(b)])) && Unlinked(t.items)
      requires View() == old(View()).WithTree(b, t, t.items) && nodes == old(nodes)
      requires trees == old(trees) + {t} && numBuckets == table.Length
      requires forall n :: n in old(nodes) && n !in t.items ==> n.next == old(n.next)
      requires forall u :: u in old(trees) && u != t ==> u.items == old(u.items)
      ensures CoreValid()
    {
      old(View()).WithTreeOK(b, t, t.items);
      forall x | 0 <= x < |chains| ensures Wired(x) {
        assert old(Wired(x));
        old(View()).ChainNodes(x);
        assert table[x] == View().entries[x] && old(table[x]) == old(View()).entries[x];
        if x != b && x != Partner(b) {
          View().ChainNodes(Even(b));
          View().ChainNodes(x);
          StillWired(x);
        }
      }
    }

    // Copy the lists of bucket b and its partner to an empty tree.
    method CopyPairToTree(b: nat, tree: Tree<K, V>)
      requires CoreValid() && b < numBuckets && table[b].ListHead? && tree.items == []
      modifies tree`items, nodes`next
      ensures Sorted(less, tree.items) && Unlinked(tree.items)
      ensures SeqSet(tree.items) == SeqSet(chains[b]) + SeqSet(chains[Partner(b)])
      ensures forall n :: n in nodes && n !in tree.items ==> n.next == old(n.next)
    {
      var p := Partner(b);
      ghost var c, d := chains[b], chains[p];
      View().PairOwned(b);
      PairLinked(b);
      var count := CopyListToTree(b, tree, c, model);
      forall n | n in tree.items ensures n in c { assert n in SeqSet(tree.items); }
      assert Linked(d);
      var count2 := CopyListToTree(p, tree, d, model);
      assert count + count2 == |tree.items|;
      forall n | n in tree.items ensures n in c || n in d {
        assert n in SeqSet(tree.items);
      }
      forall n | n in nodes && n !in tree.items ensures n.next == old(n.next) {
        assert n !in SeqSet(tree.items) && n !in SeqSet(c) && n !in SeqSet(d);
      }
    }

    lemma PairLinked(b: nat)
      requires CoreValid() && b < numBuckets && table[b].ListHead?
      ensures table[b] == (if chains[b] == [] then Null else ListHead(chains[b][0]))
      ensures table[Partner(b)] == (if chains[Partner(b)] == [] then Null else ListHead(chains[Partner(b)][0]))
      ensures Linked(chains[b]) && Linked(chains[Partner(b)]) && NoDup(chains[b]) && NoDup(chains[Partner(b)])
    {
      assert View().EntryOK(b) && View().Placed(b) && Wired(b);
      assert View().EntryOK(Partner(b)) && View().Placed(Partner(b)) && Wired(Partner(b));
    }

    // Share one new tree between bucket b and its partner.
    method TreeConvert(b: nat)
      requires CoreValid() && b < numBuckets && table[b].ListHead?
      modifies this, table, nodes`next
      ensures CoreValid() && table == old(table) && model == old(model) && nodes == old(nodes)
      ensures table[b].TreeRoot? && fresh(table[b].tree) && trees == old(trees) + {table[b].tree}
      ensures View() == old(View()).WithTree(b, table[b].tree, table[b].tree.items)
      ensures numElements == old(numElements) && indexOfFirstNonNull == old(indexOfFirstNonNull)
    {
      var tree := new Tree();
      CopyPairToTree(b, tree);
      table[b], table[Partner(b)] := TreeRoot(tree), TreeRoot(tree);
      chains := chains[Even(b) := tree.items][Even(b) + 1 := []];
      trees := trees + {tree};
      Converted(b, tree);
    }

    // Is the list in bucket b awfully long?
    method TableEntryIsTooLong(b: nat) returns (r: bool)
      requires CoreValid() && b < numBuckets && table[b].ListHead?
      ensures r <==> |chains[b]| == 8
    {
      EntryFacts(b);
      var count := 0;
      var node: Node?<K, V> := table[b].node;
      while true
        invariant count < |chains[b]| && node == chains[b][count]
        decreases |chains[b]| - count
      {
        LinkedAt(chains[b], count);
        count := count + 1;
        node := node.next;
        if node == null { break; }
      }
      r := count >= MAX_LENGTH;
    }

    // Turn the full list of bucket b into a tree and put the node in it.
    method InsertUniqueConverting(b: nat, node: Node<K, V>) returns (it: Iterator<K, V>)
      requires TableValid() && b < numBuckets && table[b].ListHead?
      requires node !in nodes && node.key !in model && b == View().Bucket(node.key)
      modifies this, table, node`next, nodes`next
      ensures CoreValid() && table == old(table) && numElements == old(numElements)
      ensures indexOfFirstNonNull == old(indexOfFirstNonNull)
      ensures View().FirstNonNull(Min(indexOfFirstNonNull, Even(b)))
      ensures model == old(model)[node.key := node] && nodes == old(nodes) + {node} && (forall t :: t in trees ==> t in old(trees) || fresh(t))
      ensures fresh(it) && it.node == node && it.bucketIndex == Even(b) && it.Accurate(this)
    {
      ghost var before := View();
      TreeConvert(b);
      it := InsertUniqueInTree(b, node);
      before.FilledFirst(indexOfFirstNonNull, View(), Even(b));
    }

    method InsertUnique(b: nat, node: Node<K, V>) returns (it: Iterator<K, V>)
      requires TableValid() && b < numBuckets
      requires node !in nodes && node.key !in model
      requires b == View().Slot(node.key) || b == View().Bucket(node.key)
      modifies this, table, node`next, nodes`next, trees`items
      ensures TableValid() && table == old(table) && numElements == old(numElements)
      ensures model == old(model)[node.key := node] && nodes == old(nodes) + {node} && (forall t :: t in trees ==> t in old(trees) || fresh(t))
      ensures fresh(it) && it.node == node && it.Accurate(this)
    {
      EntryKinds(b);
      View().InsertionPlace(b, node.key);
      assert View().FirstNonNull(indexOfFirstNonNull);
      assert table[b] != Null ==> indexOfFirstNonNull <= b;
      if TableEntryIsEmpty(table, b) {
        it := InsertUniqueInList(b, node);
      } else if TableEntryIsNonEmptyList(table, b) {
        var tooLong := TableEntryIsTooLong(b);
        if tooLong {
          it := InsertUniqueConverting(b, node);
        } else {
          it := InsertUniqueInList(b, node);
          return;
        }
      } else {
        it := InsertUniqueInTree(b, node);
        return;
      }
      indexOfFirstNonNull := Min(indexOfFirstNonNull, it.bucketIndex);
    }

    // ---------- resizing ----------

    // The table holds base and the first i nodes of c, all of them from the map all.
    ghost predicate Transferred(base: set<Node<K, V>>, c: seq<Node<K, V>>, i: nat, all: map<K, Node<K, V>>)
      reads `table, `chains, `model, `nodes, `trees, `numBuckets, `indexOfFirstNonNull, table, nodes`next, trees`items
      requires i <= |c|
    {
      TableValid() && Submap(model, all) && nodes == base + SeqSet(c[..i])
    }

    // Put the i-th node of an old chain into the bucket it has in the new table.
    method Reinsert(node: Node<K, V>, ghost base: set<Node<K, V>>, ghost c: seq<Node<K, V>>, ghost i: nat, ghost all: map<K, Node<K, V>>)
      requires i < |c| && node == c[i] && NoDup(c) && Owned(all, c) && SeqSet(c) !! base && Transferred(base, c, i, all)
      modifies this, table, nodes`next, node`next, trees`items
      ensures Transferred(base, c, i + 1, all)
      ensures i + 1 < |c| ==> c[i + 1] in all.Values && c[i + 1] !in nodes
      ensures table == old(table) && numElements == old(numElements) && (forall t :: t in trees ==> t in old(trees) || fresh(t))
      ensures forall n :: n in all.Values && n !in nodes ==> n.next == old(n.next)
    {
      PrefixSet(base, c, i);
      assert node.key !in model;
      var _ := InsertUnique(BucketNumber(node.key), node);
    }

    // Reinsert the nodes of an old list.
    method TransferList(head: Node<K, V>, ghost c: seq<Node<K, V>>, ghost all: map<K, Node<K, V>>)
      requires TableValid() && c != [] && c[0] == head && Linked(c) && NoDup(c)
      requires Owned(all, c) && Submap(model, all) && SeqSet(c) !! nodes
      modifies this, table, nodes`next, SeqSet(c)`next, trees`items
      ensures Transferred(old(nodes), c, |c|, all)
      ensures table == old(table) && numElements == old(numElements) && (forall t :: t in trees ==> t in old(trees) || fresh(t))
      ensures forall n :: n in all.Values && n !in nodes ==> n.next == old(n.next)
    {
      hide Layout.OK;
      var node: Node?<K, V> := head;
      assert head in SeqSet(c);
      ghost var i := 0;
      while node != null
        invariant i <= |c| && node == if i < |c| then c[i] else null
        invariant Transferred(old(nodes), c, i, all)
        invariant node != null ==> node in all.Values && node !in nodes
        invariant table == old(table) && numElements == old(numElements) && (forall t :: t in trees ==> t in old(trees) || fresh(t))
        invariant forall n :: n in all.Values && n !in nodes ==> n.next == old(n.next)
        decreases |c| - i
      {
        var next := node.next;
        assert next == NextOf(c, i) by { assert old(Linked(c)); }
        Reinsert(node, old(nodes), c, i, all);
        node := next;
        i := i + 1;
      }
    }

    // Reinsert the nodes of an old tree.
    method TransferTree(tree: Tree<K, V>, ghost all: map<K, Node<K, V>>)
      requires TableValid() && NoDup(tree.items) && tree !in trees
      requires Owned(all, tree.items) && Submap(model, all) && SeqSet(tree.items) !! nodes
      modifies this, table, nodes`next, SeqSet(tree.items)`next, trees`items
      ensures Transferred(old(nodes), old(tree.items), |old(tree.items)|, all)
      ensures table == old(table) && numElements == old(numElements) && (forall t :: t in trees ==> t in old(trees) || fresh(t))
      ensures forall n :: n in all.Values && n !in nodes ==> n.next == old(n.next)
    {
      ghost var c := tree.items;
      var i := 0;
      while i < |tree.items|
        invariant i <= |c| && tree.items == c && tree !in trees
        invariant Transferred(old(nodes), c, i, all)
        invariant table == old(table) && numElements == old(numElements) && (forall t :: t in trees ==> t in old(trees) || fresh(t))
        invariant forall n :: n in all.Values && n !in nodes ==> n.next == old(n.next)
      {
        Reinsert(tree.items[i], old(nodes), c, i, all);
        i := i + 1;
      }
    }

    // Move the nodes of bucket i of an old table, or of the tree it shares with its partner.
    // done is the number of buckets dealt with afterwards.
    method TransferBucket(oldTable: array<Entry<K, V>>, i: nat, ghost v: Layout<K, V>) returns (done: nat)
      requires v.OK() && i < oldTable.Length && oldTable[..] == v.entries
      requires TableValid() && Submap(model, v.model) && oldTable != table && nodes == v.Below(i)
      requires v.entries[i].TreeRoot? ==> i % 2 == 0 && v.entries[i].tree !in trees && v.entries[i].tree.items == v.chains[i]
      requires v.entries[i].ListHead? ==> Linked(v.chains[i])
      modifies this, table, v.model.Values`next, trees`items
      ensures i < done <= oldTable.Length
      ensures done < oldTable.Length && done % 2 == 1 ==> !v.entries[done].TreeRoot?
      ensures TableValid() && Submap(model, v.model) && nodes == v.Below(done)
      ensures table == old(table) && numElements == old(numElements) && (forall t :: t in trees ==> t in old(trees) || fresh(t))
      ensures forall n :: n in v.model.Values && n !in nodes ==> n.next == old(n.next)
    {
      hide Layout.OK, Layout.Below, CoreValid;
      v.PairKinds(i);
      v.BelowStep(i);
      assert v.chains[i][..|v.chains[i]|] == v.chains[i];
      if TableEntryIsNonEmptyList(oldTable, i) {
        TransferList(oldTable[i].node, v.chains[i], v.model);
        done := i + 1;
      } else if TableEntryIsTree(oldTable, i) {
        TransferTree(oldTable[i].tree, v.model);
        v.BelowStep(i + 1);
        done := i + 2;
      } else {
        done := i + 1;
      }
    }

    // Start an empty table of n buckets.
    method Reset(n: nat)
      requires IsPow2(n) && MIN_TABLE_SIZE <= n <= MAX_SIZE && n % 2 == 0 && StrictOrder(less)
      modifies this
      ensures TableValid() && fresh(table) && numBuckets == n && model == map[] && nodes == {} && trees == {}
      ensures numElements == old(numElements)
    {
      numBuckets, indexOfFirstNonNull := n, n;
      table := new Entry<K, V>[n](_ => Null);
      chains := seq(n, _ => []);
      model, nodes, trees := map[], {}, {};
      View().EmptyOK();
    }

    method Resize(newNumBuckets: nat)
      requires TableValid() && IsPow2(newNumBuckets) && MIN_TABLE_SIZE <= newNumBuckets <= MAX_SIZE && newNumBuckets % 2 == 0
      modifies this, nodes`next
      ensures TableValid() && numBuckets == newNumBuckets && fresh(table) && fresh(trees)
      ensures model == old(model) && nodes == old(nodes) && numElements == old(numElements)
    {
      var oldTable, oldTableSize, start := table, numBuckets, indexOfFirstNonNull;
      ghost var v := View();
      v.BelowEnds(start);
      if start < oldTableSize { v.PairKinds(start); }
      Reset(newNumBuckets);
      var i := start;
      while i < oldTableSize
        invariant i <= oldTableSize && oldTable[..] == v.entries && (i < oldTableSize && i % 2 == 1 ==> !v.entries[i].TreeRoot?)
        invariant TableValid() && Submap(model, v.model) && nodes == v.Below(i)
        invariant fresh(table) && fresh(trees) && table.Length == newNumBuckets && numElements == old(numElements)
        invariant forall n :: n in v.model.Values && n !in nodes ==> n.next == old(n.next)
        invariant forall t :: t in old(trees) ==> t.items == old(t.items)
      {
        v.BelowStep(i);
        assert old(Wired(i));
        i := TransferBucket(oldTable, i, v);
      }
      SameModel(v);
    }

    lemma SameModel(v: Layout<K, V>)
      requires CoreValid() && v.OK() && Submap(model, v.model) && nodes == v.model.Values
      ensures model == v.model
    {
      forall k | k in v.model ensures k in model {
        assert v.Stored(k);
        var n := v.model[k];
        assert n in v.model.Values;
        var k2 :| k2 in model && model[k2] == n;
        assert View().Stored(k2);
      }
    }

    // The size to shrink to: past the first halving, as small as still leaves room for a
    // quarter more elements under the present high-water mark.
    static method SizeToShrinkTo(n: nat, newSize: nat, hiCutoff: nat) returns (m: nat)
      requires IsPow2(n) && MIN_TABLE_SIZE < n && hiCutoff == n * 12 / 16 && newSize <= hiCutoff / 4
      ensures m == ShrunkTo(n, newSize) && IsPow2(m) && MIN_TABLE_SIZE <= m < n && 5 * newSize < 6 * m
    {
      var lg2OfSizeReductionFactor := 1;
      var hypotheticalSize := newSize * 5 / 4 + 1;
      while ShiftLeft(hypotheticalSize, lg2OfSizeReductionFactor) < hiCutoff
        invariant 1 <= lg2OfSizeReductionFactor
        invariant LeastShift(hypotheticalSize, hiCutoff, lg2OfSizeReductionFactor) == LeastShift(hypotheticalSize, hiCutoff, 1)
        invariant lg2OfSizeReductionFactor > 1 ==> ShiftLeft(hypotheticalSize, lg2OfSizeReductionFactor - 1) < hiCutoff
        decreases hiCutoff - ShiftLeft(hypotheticalSize, lg2OfSizeReductionFactor)
      {
        ShiftLeftOrder(0, hypotheticalSize, lg2OfSizeReductionFactor);
        lg2OfSizeReductionFactor := lg2OfSizeReductionFactor + 1;
      }
      ShrunkSize(n, lg2OfSizeReductionFactor, newSize, hiCutoff);
      m := Max(MIN_TABLE_SIZE, ShiftRight(n, lg2OfSizeReductionFactor));
    }

    // Resize if inserting would make, or erasures have made, the load unsuitable.
    method ResizeIfLoadIsOutOfRange(newSize: nat) returns (resized: bool)
      requires Valid() && newSize == numElements + 1
      modifies this, nodes`next
      ensures TableValid() && model == old(model) && nodes == old(nodes) && numElements == old(numElements)
      ensures numBuckets == NextSize(old(numBuckets), newSize) && (resized <==> numBuckets != old(numBuckets))
      ensures numBuckets <= MAX_SIZE / 2 ==> 5 * newSize < 6 * numBuckets
      ensures resized ==> fresh(table) && fresh(trees)
      ensures !resized ==> table == old(table) && trees == old(trees) && View() == old(View())
    {
      var hiCutoff := numBuckets * 12 / 16;
      var loCutoff := hiCutoff / 4;
      Pow2Even(numBuckets);
      if newSize >= hiCutoff {
        if numBuckets <= MAX_SIZE / 2 {
          Resize(numBuckets * 2);
          return true;
        }
      } else if newSize <= loCutoff && numBuckets > MIN_TABLE_SIZE {
        var newNumBuckets := SizeToShrinkTo(numBuckets, newSize, hiCutoff);
        if newNumBuckets != numBuckets {
          Pow2Even(newNumBuckets);
          Resize(newNumBuckets);
          return true;
        }
      }
      return false;
    }

    // Make room for a key whose slot was found to be b; returns its slot in the table as it is then.
    method MakeRoom(k: K, b: nat) returns (slot: nat)
      requires Valid() && b == View().Slot(k)
      modifies this, nodes`next
      ensures TableValid() && slot == View().Slot(k)
      ensures model == old(model) && nodes == old(nodes) && numElements == old(numElements)
      ensures numBuckets == NextSize(old(numBuckets), numElements + 1)
      ensures numBuckets <= MAX_SIZE / 2 ==> 5 * (numElements + 1) < 6 * numBuckets
      ensures (table == old(table) || fresh(table)) && (forall t :: t in trees ==> t in old(trees) || fresh(t))
    {
      hide NextSize;
      slot := b;
      var resized := ResizeIfLoadIsOutOfRange(numElements + 1);
      if resized {
        var _, p := FindHelper(k);
        slot := p;
      }
    }

    // Insert a new node and count it.
    method InsertCounted(slot: nat, node: Node<K, V>) returns (it: Iterator<K, V>)
      requires TableValid() && numElements == |model| && (numBuckets <= MAX_SIZE / 2 ==> 5 * (numElements + 1) < 6 * numBuckets)
      requires node !in nodes && node.key !in model && slot == View().Slot(node.key)
      modifies this, table, node`next, nodes`next, trees`items
      ensures Valid() && table == old(table) && (forall t :: t in trees ==> t in old(trees) || fresh(t))
      ensures model == old(model)[node.key := node] && nodes == old(nodes) + {node}
      ensures fresh(it) && it.node == node && it.Accurate(this)
    {
      it := InsertUnique(slot, node);
      numElements := numElements + 1;
    }

    // Insert a key that is not present and whose slot was found to be b.
    method InsertNew(k: K, v: V, b: nat) returns (it: Iterator<K, V>)
      requires Valid() && k !in model && b == View().Slot(k)
      modifies this, table, nodes`next, trees`items
      ensures Valid() && (table == old(table) || fresh(table)) && (forall t :: t in trees ==> t in old(trees) || fresh(t))
      ensures fresh(it) && it.Accurate(this) && fresh(it.node) && it.node.key == k && it.node.value == v
      ensures model == old(model)[k := it.node] && nodes == old(nodes) + {it.node}
      ensures numBuckets == NextSize(old(numBuckets), old(numElements) + 1)
    {
      hide NextSize;
      var node := new Node(k, v);
      var slot := MakeRoom(k, b);
      it := InsertCounted(slot, node);
    }

    // Insert if not present.
    method Insert(k: K, v: V) returns (it: Iterator<K, V>, inserted: bool)
      requires Valid()
      modifies this, table, nodes`next, trees`items
      ensures Valid() && (table == old(table) || fresh(table)) && fresh(nodes - old(nodes)) && (forall t :: t in trees ==> t in old(trees) || fresh(t))
      ensures inserted <==> k !in old(model)
      ensures !inserted ==> nodes == old(nodes) && View() == old(View()) && it.node == model[k]
      ensures inserted ==> fresh(it.node) && it.node.key == k && it.node.value == v
      ensures inserted ==> model == old(model)[k := it.node] && nodes == old(nodes) + {it.node}
      ensures fresh(it) && it.m == this && it.node == Lookup(k) && it.node != null && it.node.key == k
      ensures numBuckets == if inserted then NextSize(old(numBuckets), old(numElements) + 1) else old(numBuckets)
    {
      hide NextSize;
      var b: nat;
      it, b := FindHelper(k);
      inserted := it.node == null;
      if inserted {
        it := InsertNew(k, v, b);
      }
    }

    // ---------- erasing ----------

    static method EraseFromLinkedList(item: Node<K, V>, head: Node<K, V>, ghost c: seq<Node<K, V>>) returns (r: Node?<K, V>)
      requires c != [] && c[0] == head && Linked(c) && NoDup(c) && item in c
      modifies SeqSet(c)`next
      ensures r == First(Without(c, item)) && Linked(Without(c, item))
      decreases |c|
    {
      LinkedAt(c, 0);
      TailLinked(c);
      if head == item {
        r := head.next;
      } else {
        ghost var d := Without(c[1..], item);
        var rest := EraseFromLinkedList(item, head.next, c[1..]);
        WithoutFacts(c[1..], item);
        assert head !in d by { assert head in d ==> head in SeqSet(d); }
        head.next := rest;
        ConsLinked(head, d);
        r := head;
      }
    }

    twostate lemma Erased(b: nat, new n: Node<K, V>)
      requires old(CoreValid()) && b < |old(chains)| == table.Length == |chains| && n in old(chains[b])
      requires View() == old(View()).Removed(b, n) && nodes == old(nodes) - {n}
      requires trees == old(trees) && numBuckets == table.Length
      requires table[b].ListHead? ==> Linked(chains[b])
      requires table[b].TreeRoot? ==> table[b].tree.items == chains[b]
      requires forall m :: m in old(nodes) && m !in old(chains[b]) ==> m.next == old(m.next)
      requires old(table[b]).TreeRoot? ==> forall m :: m in old(chains[b]) ==> m.next == old(m.next)
      requires forall t :: t in old(trees) && TreeRoot(t) != old(table[b]) ==> t.items == old(t.items)
      ensures CoreValid() && n.key in old(model)
    {
      old(View()).RemovedOK(b, n);
      old(View()).RemovedValues(n);
      old(View()).ChainNodes(b);
      WithoutFacts(old(chains[b]), n);
      forall x | 0 <= x < |chains| ensures Wired(x) {
        assert old(Wired(x)) && old(Wired(b)) && old(View()).OwnTree(b);
        old(View()).ChainNodes(x);
        old(View()).PairKinds(b);
        assert table[x] == View().entries[x] && old(table[x]) == old(View()).entries[x];
        if x == b {
          assert forall m :: m in chains[b] ==> m in SeqSet(Without(old(chains[b]), n));
        } else if table[x] != Null && table[x] != old(table[b]) {
          StillWired(x);
        }
      }
    }

    method TakeFromList(b: nat, item: Node<K, V>)
      requires CoreValid() && b < numBuckets && item in chains[b] && table[b].ListHead?
      modifies this, table, nodes`next
      ensures CoreValid() && View() == old(View()).Removed(b, item) && nodes == old(nodes) - {item}
      ensures table == old(table) && trees == old(trees) && numElements == old(numElements)
      ensures indexOfFirstNonNull == old(indexOfFirstNonNull)
    {
      EntryFacts(b);
      ghost var c := chains[b];
      var head := EraseFromLinkedList(item, table[b].node, c);
      table[b] := if head == null then Null else ListHead(head);
      chains, model, nodes := chains[b := Without(c, item)], model - {item.key}, nodes - {item};
      assert View() == old(View()).Removed(b, item);
      Erased(b, item);
    }

    method TakeFromTree(b: nat, item: Node<K, V>)
      requires CoreValid() && b < numBuckets && item in chains[b] && table[b].TreeRoot?
      modifies this, table, trees`items
      ensures CoreValid() && View() == old(View()).Removed(b, item) && nodes == old(nodes) - {item}
      ensures table == old(table) && trees == old(trees) && numElements == old(numElements)
      ensures indexOfFirstNonNull == old(indexOfFirstNonNull)
    {
      EntryFacts(b);
      View().PairKinds(b);
      var tree := table[b].tree;
      tree.Erase(item);
      chains, model, nodes := chains[b := tree.items], model - {item.key}, nodes - {item};
      if tree.items == [] {
        table[b], table[b + 1] := Null, Null;
      }
      assert View() == old(View()).Removed(b, item);
      Erased(b, item);
    }

    // Take the item out of the list or tree of bucket b, which becomes null when left empty.
    method TakeOut(b: nat, item: Node<K, V>, isList: bool)
      requires CoreValid() && 0 < numElements && b < numBuckets && item in chains[b]
      requires if isList then table[b].ListHead? else table[b].TreeRoot?
      modifies this, table, nodes`next, trees`items
      ensures CoreValid() && View() == old(View()).Removed(b, item) && nodes == old(nodes) - {item}
      ensures table == old(table) && trees == old(trees) && numElements == old(numElements) - 1
      ensures indexOfFirstNonNull == old(indexOfFirstNonNull)
    {
      if isList {
        TakeFromList(b, item);
      } else {
        TakeFromTree(b, item);
      }
      numElements := numElements - 1;
    }

    // If bucket b was the first that is not null, move the cached index on.
    method AdvanceFirst(b: nat)
      requires CoreValid() && indexOfFirstNonNull <= numBuckets
      requires forall x :: 0 <= x < indexOfFirstNonNull ==> View().entries[x] == Null
      requires b != indexOfFirstNonNull ==> View().FirstNonNull(indexOfFirstNonNull)
      modifies `indexOfFirstNonNull
      ensures TableValid()
    {
      if b == indexOfFirstNonNull {
        while indexOfFirstNonNull < numBuckets && table[indexOfFirstNonNull] == Null
          invariant indexOfFirstNonNull <= numBuckets
          invariant forall x :: 0 <= x < indexOfFirstNonNull ==> table[x] == Null
        {
          indexOfFirstNonNull := indexOfFirstNonNull + 1;
        }
      }
    }

    lemma ErasureFacts(b: nat, item: Node<K, V>)
      requires TableValid() && item in nodes && b == View().Slot(item.key)
      ensures item in chains[b] && View().entries[b] != Null && item.key in model && |model - {item.key}| == |model| - 1
      ensures View().Removed(b, item).Order() == Without(Order(), item)
      ensures b != indexOfFirstNonNull ==> View().Removed(b, item).FirstNonNull(indexOfFirstNonNull)
      ensures forall x :: 0 <= x < indexOfFirstNonNull ==> View().Removed(b, item).entries[x] == Null
    {
      NodePosition(item);
      NodeOwned(item);
      View().RemovedOrder(b, item);
      View().RemovedFirst(indexOfFirstNonNull, b, item);
    }

    // Erase a node whose bucket is known.
    method EraseAt(b: nat, item: Node<K, V>, isList: bool)
      requires Valid() && item in nodes && b == View().Slot(item.key) && (isList <==> !table[b].TreeRoot?)
      modifies this, table, nodes`next, trees`items
      ensures Valid() && table == old(table) && trees == old(trees)
      ensures model == old(model) - {item.key} && nodes == old(nodes) - {item}
      ensures Order() == Without(old(Order()), item)
    {
      ErasureFacts(b, item);
      TakeOut(b, item, isList);
      AdvanceFirst(b);
    }

    method Erase(it: Iterator<K, V>)
      requires Valid() && it.m == this && it.node != null && it.node in nodes
      modifies this, table, nodes`next, trees`items
      ensures Valid() && table == old(table) && trees == old(trees)
      ensures model == old(model) - {it.node.key} && nodes == old(nodes) - {it.node}
      ensures Order() == Without<Node<K, V>>(old(Order()), it.node)
    {
      var i := new Iterator(it.node, it.m, it.bucketIndex, it.treeIt);
      var isList := i.RevalidateIfNecessary();
      EraseAt(i.bucketIndex, it.node, isList);
    }

    // ---------- the rest of the interface ----------

    method Find(k: K) returns (it: Iterator<K, V>)
      requires Valid()
      ensures fresh(it) && it.m == this && it.node == Lookup(k)
      ensures it.node != null ==> it.node in nodes && it.node.key == k
    {
      var b: nat;
      it, b := FindHelper(k);
    }

    method Begin() returns (it: Iterator<K, V>)
      requires Valid()
      ensures fresh(it) && it.m == this && it.node == First(Order())
    {
      it := new Iterator(null, this, 0, null);
      View().OrderFrom(indexOfFirstNonNull);
      it.SearchFrom(indexOfFirstNonNull);
    }

    // operator[] of the inner map: v is what a missing key is given.
    method Index(k: K, v: V) returns (it: Iterator<K, V>)
      requires Valid()
      modifies this, table, nodes`next, trees`items
      ensures Valid() && (table == old(table) || fresh(table)) && fresh(nodes - old(nodes))
      ensures forall t :: t in trees ==> t in old(trees) || fresh(t)
      ensures fresh(it) && it.m == this && it.node == Lookup(k) && it.node != null && it.node.key == k
      ensures k in old(model) ==> model == old(model) && nodes == old(nodes)
      ensures k !in old(model) ==> model == old(model)[k := it.node] && nodes == old(nodes) + {it.node} && it.node.value == v
    {
      var inserted: bool;
      it, inserted := Insert(k, v);
    }

    // Assignment through an iterator
    method SetValue(it: Iterator<K, V>, v: V)
      requires Valid() && it.node != null && it.node in nodes
      modifies nodes`value
      ensures Valid() && Contents() == old(Contents())[it.node.key := v]
    {
      it.node.value := v;
      StoredNodes();
    }

    method Clear()
      requires Valid()
      modifies this, table
      ensures Valid() && model == map[] && table == old(table) && numBuckets == old(numBuckets)
      ensures nodes == {} && trees == {}
    {
      Sizes();
      EmptyBuckets();
      chains, model, nodes, trees := seq(numBuckets, _ => []), map[], {}, {};
      numElements, indexOfFirstNonNull := 0, numBuckets;
      View().EmptyOK();
    }

    // Every list, and every pair with a tree, is given up.
    method EmptyBuckets()
      requires CoreValid()
      modifies table
      ensures forall b :: 0 <= b < table.Length ==> table[b] == Null
    {
      hide Layout.OK, InnerMap.Wired;
      ghost var v := View();
      var b := 0;
      while b < numBuckets
        invariant b <= numBuckets == table.Length && View() == v.(entries := table[..])
        invariant b < numBuckets && b % 2 == 1 ==> !v.entries[b].TreeRoot?
        invariant forall x :: 0 <= x < b ==> table[x] == Null
        invariant forall x :: b <= x < numBuckets ==> table[x] == v.entries[x]
      {
        v.PairKinds(b);
        if TableEntryIsNonEmptyList(table, b) {
          table[b] := Null;
        } else if TableEntryIsTree(table, b) {
          table[b], table[b + 1] := Null, Null;
          b := b + 1;
        }
        b := b + 1;
      }
    }
  }

  class Iterator<K(==, !new), V> {
    var node: Node?<K, V>
    var m: InnerMap<K, V>
    var bucketIndex: nat
    var treeIt: Node?<K, V>

    constructor (node: Node?<K, V>, m: InnerMap<K, V>, index: nat, treeIt: Node?<K, V>)
      ensures this.node == node && this.m == m && this.bucketIndex == index && this.treeIt == treeIt
    {
      this.node, this.m, this.bucketIndex, this.treeIt := node, m, index, treeIt;
    }

    // All the fields describe the node's present position.
    ghost predicate Accurate(owner: InnerMap<K, V>)
      reads this, owner`table, owner`chains, owner`model, owner.table
      requires owner.View().OK()
    {
      && m == owner && node != null && bucketIndex == owner.View().Slot(node.key)
      && (owner.table[bucketIndex].TreeRoot? ==> treeIt == node)
    }

    // Advance to the first bucket from start on that is not empty; node is null if there is none.
    method SearchFrom(start: nat)
      requires m.CoreValid() && start <= m.numBuckets
      requires start < m.numBuckets && start % 2 == 1 ==> !m.table[start].TreeRoot?
      modifies this
      ensures m == old(m) && node == First(Flatten(m.chains[start..]))
      ensures node != null ==> Accurate(m)
    {
      hide Layout.OK, Layout.Slot, InnerMap.Wired, InnerMap.TableEntryIsTree, InnerMap.TableEntryIsNonEmptyList, Flatten;
      m.Sizes();
      node := null;
      bucketIndex := start;
      while bucketIndex < m.numBuckets
        invariant |m.chains| == m.table.Length == m.numBuckets && m.numBuckets % 2 == 0
        invariant m == old(m) && node == null && start <= bucketIndex <= m.numBuckets
        invariant bucketIndex < m.numBuckets && bucketIndex % 2 == 1 ==> !m.table[bucketIndex].TreeRoot?
        invariant Flatten(m.chains[start..]) == Flatten(m.chains[bucketIndex..])
        decreases m.numBuckets - bucketIndex
      {
        m.SearchStep(bucketIndex);
        if InnerMap.TableEntryIsNonEmptyList(m.table, bucketIndex) {
          node := m.table[bucketIndex].node;
          break;
        } else if InnerMap.TableEntryIsTree(m.table, bucketIndex) {
          treeIt := m.table[bucketIndex].tree.items[0];
          node := treeIt;
          break;
        }
        bucketIndex := bucketIndex + 1;
      }
    }

    // Is the node in the list from head on, past the head?
    static method InTail(head: Node<K, V>, n: Node<K, V>, ghost c: seq<Node<K, V>>) returns (r: bool)
      requires c != [] && c[0] == head && Linked(c)
      ensures r <==> n in c[1..]
    {
      var l: Node?<K, V> := head;
      ghost var i := 0;
      while true
        invariant i < |c| && l == c[i] && n !in c[1..i + 1]
        decreases |c| - i
      {
        LinkedAt(c, i);
        l := l.next;
        i := i + 1;
        if l == null {
          return false;
        }
        if l == n {
          assert n == c[1..][i - 1];
          return true;
        }
        assert c[1..i + 1] == c[1..i] + [c[i]];
      }
    }

    // Refresh the position of a node that is still in the map; tells whether it is in a list.
    method RevalidateIfNecessary() returns (isList: bool)
      requires m.CoreValid() && node != null && node in m.nodes
      modifies this
      ensures m == old(m) && node == old(node) && Accurate(m)
      ensures isList <==> !m.table[bucketIndex].TreeRoot?
    {
      bucketIndex := Mask(bucketIndex, m.numBuckets);
      m.EntryFacts(bucketIndex);
      if m.table[bucketIndex] == ListHead(node) {
        assert node in m.chains[bucketIndex];
        return true;
      }
      if InnerMap.TableEntryIsNonEmptyList(m.table, bucketIndex) {
        var found := InTail(m.table[bucketIndex].node, node, m.chains[bucketIndex]);
        if found {
          assert node in m.chains[bucketIndex];
          return true;
        }
      }
      m.NodeOwned(node);
      var i, _ := m.FindHelper(node.key);
      bucketIndex, treeIt := i.bucketIndex, i.treeIt;
      m.EntryFacts(bucketIndex);
      isList := !InnerMap.TableEntryIsTree(m.table, bucketIndex);
    }

    // operator++
    method Increment()
      requires m.CoreValid() && node != null && node in m.nodes
      modifies this
      ensures m == old(m) && node == After(m.Order(), old(node))
    {
      hide Layout.OK;
      m.NodePosition(node);
      m.SuccessorOf(node);
      if node.next == null {
        var isList := RevalidateIfNecessary();
        if isList {
          SearchFrom(bucketIndex + 1);
        } else {
          treeIt := m.table[bucketIndex].tree.Next(treeIt);
          if treeIt == null {
            SearchFrom(bucketIndex + 2);
          } else {
            node := treeIt;
          }
        }
      } else {
        node := node.next;
      }
    }
  }
}
