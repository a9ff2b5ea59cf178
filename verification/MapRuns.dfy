// Whole runs of a Map, compared with the same operations on a plain mathematical map.

module MapRuns {
  import opened Chains
  import opened HashTable
  import opened Layouts
  import opened MapContainer

  datatype Op<K, T> =
    | Insert(key: K, value: T)
    | Index(key: K, default: T)
    | Find(key: K)
    | Erase(key: K)
    | Clear
    | Size

  datatype Reply<T> = Inserted(isNew: bool) | At(value: T) | Missing | Erased(count: nat) | Cleared | Sized(size: nat)

  // One operation on a plain map: the map afterwards and the reply
  function Step<K, T>(m: map<K, T>, op: Op<K, T>): (map<K, T>, Reply<T>) {
    match op
    case Insert(k, v) => if k in m then (m, Inserted(false)) else (m[k := v], Inserted(true))
    case Index(k, d) => if k in m then (m, At(m[k])) else (m[k := d], At(d))
    case Find(k) => (m, if k in m then At(m[k]) else Missing)
    case Erase(k) => (m - {k}, Erased(if k in m then 1 else 0))
    case Clear => (map[], Cleared)
    case Size => (m, Sized(|m|))
  }

  function Replies<K, T>(m: map<K, T>, ops: seq<Op<K, T>>): seq<Reply<T>>
    decreases |ops|
  {
    if ops == [] then [] else var (after, reply) := Step(m, ops[0]); [reply] + Replies(after, ops[1..])
  }

  ghost function Pointers<K, T>(m: map<K, T>): map<K, Pointer<T>> {
    map k | k in m :: To(m[k])
  }

  // The pointers after an operation
  lemma StepPointers<K, T>(m: map<K, T>, op: Op<K, T>)
    ensures Pointers(m).Keys == m.Keys && |Pointers(m)| == |m|
    ensures Pointers(Step(m, op).0) ==
            match op
            case Insert(k, v) => if k in m then Pointers(m) else Pointers(m)[k := To(v)]
            case Index(k, d) => if k in m then Pointers(m) else Pointers(m)[k := To(d)]
            case Find(_) => Pointers(m)
            case Erase(k) => Pointers(m) - {k}
            case Clear => map[]
            case Size => Pointers(m)
  {
    var p := Pointers(m);
    assert p.Keys == m.Keys;
    assert |p| == |p.Keys| && |m| == |m.Keys|;
  }

  // The container stands for the plain map.
  ghost predicate Holds<K(!new), T>(c: Map<K, T>, m: map<K, T>)
    reads c.elements, c.elements.table, c.elements.nodes, c.elements.trees
  {
    c.Valid() && c.Contents() == Pointers(m)
  }

  // One operation on the container
  method Perform<K(==, !new), T>(c: Map<K, T>, op: Op<K, T>, ghost m: map<K, T>) returns (reply: Reply<T>)
    requires Holds(c, m)
    modifies c.elements, c.elements.table, c.elements.nodes, c.elements.trees
    ensures Holds(c, Step(m, op).0) && reply == Step(m, op).1
    ensures (c.elements.table == old(c.elements.table) || fresh(c.elements.table)) && fresh(c.elements.nodes - old(c.elements.nodes))
    ensures forall t :: t in c.elements.trees ==> t in old(c.elements.trees) || fresh(t)
  {
    hide Layout.OK, InnerMap.Wired;
    StepPointers(m, op);
    match op
    case Insert(k, v) =>
      var _, inserted := c.Insert(k, v);
      reply := Inserted(inserted);
    case Index(k, d) =>
      var v := c.Index(k, d);
      reply := At(v);
    case Find(k) =>
      var it := c.Find(k);
      reply := if it.node == null then Missing else At(it.node.value.value);
    case Erase(k) =>
      var n := c.EraseKey(k);
      reply := Erased(n);
    case Clear =>
      c.Clear();
      reply := Cleared;
    case Size =>
      var n := c.Size();
      reply := Sized(n);
  }

  lemma EmptyRun<K, T>(ops: seq<Op<K, T>>)
    ensures Pointers<K, T>(map[]) == map[] && ops[0..] == ops
  {
  }

  lemma NextReply<K, T>(m: map<K, T>, ops: seq<Op<K, T>>, i: nat)
    requires i < |ops|
    ensures Replies(m, ops[i..]) == [Step(m, ops[i]).1] + Replies(Step(m, ops[i]).0, ops[i + 1..])
  {
    assert ops[i..][0] == ops[i] && ops[i..][1..] == ops[i + 1..];
  }

  lemma NoReplies<K, T>(m: map<K, T>, ops: seq<Op<K, T>>)
    requires ops == []
    ensures Replies(m, ops) == []
  {
  }

  lemma NothingHeld<K(!new), T>(c: Map<K, T>)
    requires c.Valid() && c.Contents() == map[]
    ensures Holds(c, map[])
  {
    assert Pointers<K, T>(map[]) == map[];
  }

  // Whatever the hash, the key order and the seed, a run answers as a plain map does.
  method Run<K(==, !new), T>(hash: K -> nat, less: (K, K) -> bool, seed: nat, debug: bool, ops: seq<Op<K, T>>)
    returns (replies: seq<Reply<T>>)
    requires StrictOrder(less)
    ensures replies == Replies(map[], ops)
  {
    hide Layout.OK, InnerMap.Wired, Replies, Step, Pointers, Holds;
    EmptyRun(ops);
    var c := new Map(hash, less, seed, debug);
    ghost var m: map<K, T> := map[];
    assert Holds(c, m) by { NothingHeld(c); }
    replies := [];
    for i := 0 to |ops|
      invariant Holds(c, m)
      invariant fresh(c.elements) && fresh(c.elements.table) && fresh(c.elements.nodes) && fresh(c.elements.trees)
      invariant Replies(map[], ops) == replies + Replies(m, ops[i..])
    {
      NextReply(m, ops, i);
      var reply := Perform(c, ops[i], m);
      m := Step(m, ops[i]).0;
      replies := replies + [reply];
    }
    NoReplies(m, ops[|ops|..]);
  }
}
