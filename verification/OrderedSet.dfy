/** The insertion-ordered set of the release script: a ring of nodes around a sentinel, and a
    dictionary from keys to nodes. */
module OrderedSet {
  import opened Bytes

  // ------------------------------------------------------------ the sequence it stands for

  function Added<K(==)>(s: seq<K>, k: K): seq<K> {
    if k in s then s else s + [k]
  }

  function Discarded<K(==)>(s: seq<K>, k: K): (r: seq<K>)
  {
    if s == [] then [] else if s[0] == k then s[1..] else [s[0]] + Discarded(s[1..], k)
  }

  /** Adding the keys of a sequence one after the other. */
  function Updated<K(==)>(s: seq<K>, ks: seq<K>): seq<K> {
    if ks == [] then s else Added(Updated(s, ks[..|ks| - 1]), ks[|ks| - 1])
  }

  ghost predicate Distinct<K>(s: seq<K>) {
    forall i, j :: 0 <= i < j < |s| ==> s[i] != s[j]
  }

  function Reverse<K>(s: seq<K>): (r: seq<K>)
    ensures |r| == |s| && forall i :: 0 <= i < |s| ==> r[i] == s[|s| - 1 - i]
  {
    if s == [] then [] else Reverse(s[1..]) + [s[0]]
  }

  function After<T>(s: seq<T>, i: nat): nat { if i + 1 >= |s| then 0 else i + 1 }

  function Before<T>(s: seq<T>, i: nat): nat
    requires i < |s|
  {
    if i == 0 then |s| - 1 else i - 1
  }

  function Without<T>(s: seq<T>, i: nat): (r: seq<T>)
    requires i < |s|
    ensures |r| == |s| - 1
    ensures forall j {:trigger r[j]} :: 0 <= j < |r| ==> r[j] == s[if j < i then j else j + 1]
  {
    s[..i] + s[i + 1..]
  }

  lemma {:induction false} DiscardedAt<K>(s: seq<K>, i: nat)
    requires i < |s| && Distinct(s)
    ensures Discarded(s, s[i]) == Without(s, i)
    decreases i
  {
    if i > 0 {
      assert s[1..][i - 1] == s[i] && s[0] != s[i];
      DiscardedAt(s[1..], i - 1);
      WithoutCons(s, i);
    }
  }

  lemma WithoutCons<T>(s: seq<T>, i: nat)
    requires 0 < i < |s|
    ensures [s[0]] + Without(s[1..], i - 1) == Without(s, i)
  {
  }

  lemma {:induction false} DiscardedAbsent<K>(s: seq<K>, k: K)
    requires k !in s
    ensures Discarded(s, k) == s
  {
    if s != [] {
      DiscardedAbsent(s[1..], k);
    }
  }

  // ------------------------------------------------------------ the ring

  /** A list cell: a key and its neighbours. Only the sentinel has no key. */
  class Node<K> {
    const key: Option<K>
    var prev: Node<K>
    var next: Node<K>

    constructor Sentinel()
      ensures key == None && prev == this && next == this
    {
      key := None;
      prev := this;
      next := this;
    }

    constructor Link(k: K, before: Node<K>, after: Node<K>)
      ensures key == Some(k) && prev == before && next == after
    {
      key := Some(k);
      prev := before;
      next := after;
    }
  }

  /** The links form one ring in the order of `ring`, forwards and backwards. */
  ghost predicate Linked<K>(ring: seq<Node<K>>)
    reads ring
  {
    && |ring| > 0
    && (forall i {:trigger ring[i].next} :: 0 <= i < |ring| ==> ring[i].next == ring[After(ring, i)])
    && (forall i {:trigger ring[i].prev} :: 0 <= i < |ring| ==> ring[i].prev == ring[Before(ring, i)])
  }

  /** Putting a node between the last one and the sentinel. */
  lemma LinkedWith<K>(ring: seq<Node<K>>, node: Node<K>)
    requires |ring| > 0 && node.next == ring[0] && node.prev == ring[|ring| - 1]
    requires forall j {:trigger ring[j].next} :: 0 <= j < |ring| ==>
               ring[j].next == if j == |ring| - 1 then node else ring[j + 1]
    requires forall j {:trigger ring[j].prev} :: 0 <= j < |ring| ==>
               ring[j].prev == if j == 0 then node else ring[j - 1]
    ensures Linked(ring + [node])
  {
  }

  /** Taking node `i` out of the ring by relinking its neighbours. */
  lemma UnlinkedRing<K>(ring: seq<Node<K>>, i: nat)
    requires 1 <= i < |ring|
    requires forall j {:trigger ring[j].next} :: 0 <= j < |ring| && j != i ==>
               ring[j].next == ring[if j == i - 1 then After(ring, i) else After(ring, j)]
    requires forall j {:trigger ring[j].prev} :: 0 <= j < |ring| && j != i ==>
               ring[j].prev == ring[if j == After(ring, i) then i - 1 else Before(ring, j)]
    ensures Linked(Without(ring, i))
  {
    var r := Without(ring, i);
    forall j | 0 <= j < |r|
      ensures r[j].next == r[After(r, j)] && r[j].prev == r[Before(r, j)]
    {
      var k := if j < i then j else j + 1;
      assert r[j] == ring[k];
      assert ring[k].next == ring[if k == i - 1 then After(ring, i) else After(ring, k)];
      assert ring[k].prev == ring[if k == After(ring, i) then i - 1 else Before(ring, k)];
    }
  }

  /** Each key's dictionary entry is its own node. */
  ghost predicate Indexed<K(!new)>(ring: seq<Node<K>>, keys: seq<K>, index: map<K, Node<K>>)
  {
    && |keys| + 1 == |ring|
    && (forall i {:trigger ring[i].key} :: 1 <= i < |ring| ==> ring[i].key == Some(keys[i - 1]))
    && (forall i {:trigger keys[i]} :: 0 <= i < |keys| ==> keys[i] in index && index[keys[i]] == ring[i + 1])
    && (forall k :: k in index ==> k in keys)
  }

  lemma IndexedWithout<K(!new)>(ring: seq<Node<K>>, keys: seq<K>, index: map<K, Node<K>>, i: nat)
    requires Indexed(ring, keys, index) && Distinct(keys) && i < |keys|
    ensures Indexed(Without(ring, i + 1), Without(keys, i), index - {keys[i]})
  {
    var r, ks, m := Without(ring, i + 1), Without(keys, i), index - {keys[i]};
    forall k | k in m
      ensures k in ks
    {
      var j :| 0 <= j < |keys| && keys[j] == k;
      assert ks[if j < i then j else j - 1] == k;
    }
  }

  lemma IndexedWith<K(!new)>(ring: seq<Node<K>>, keys: seq<K>, index: map<K, Node<K>>, node: Node<K>, k: K)
    requires Indexed(ring, keys, index) && k !in index && node.key == Some(k)
    ensures Indexed(ring + [node], keys + [k], index[k := node])
  {
    forall j | j in index[k := node]
      ensures j in keys + [k]
    {
    }
  }

  lemma IndexedMeans<K(!new)>(ring: seq<Node<K>>, keys: seq<K>, index: map<K, Node<K>>, k: K)
    requires Indexed(ring, keys, index)
    ensures |ring| == |keys| + 1 && (k in index <==> k in keys)
  {
  }

  lemma IndexedNode<K(!new)>(ring: seq<Node<K>>, keys: seq<K>, index: map<K, Node<K>>, i: nat)
    requires Indexed(ring, keys, index) && i < |keys|
    ensures keys[i] in index && index[keys[i]] == ring[i + 1] && ring[i + 1].key == Some(keys[i])
  {
  }

  lemma EmptyDistinct<T>()
    ensures Distinct<T>([])
  {
  }

  lemma DistinctWithout<T>(s: seq<T>, i: nat)
    requires Distinct(s) && i < |s|
    ensures Distinct(Without(s, i))
  {
  }

  lemma DistinctWith<T>(s: seq<T>, x: T)
    requires Distinct(s) && x !in s
    ensures Distinct(s + [x])
  {
  }

  lemma Neighbours<K>(ring: seq<Node<K>>, i: nat)
    requires Linked(ring) && i < |ring|
    ensures ring[i].next == ring[After(ring, i)] && ring[i].prev == ring[Before(ring, i)]
  {
  }

  /** Makes two nodes neighbours, which takes node `i` between them out of the ring. */
  method Unlink<K>(prev: Node<K>, next: Node<K>, ghost ring: seq<Node<K>>, ghost i: nat)
    requires Linked(ring) && Distinct(ring) && 1 <= i < |ring|
    requires prev == ring[i - 1] && next == ring[After(ring, i)]
    modifies prev, next
    ensures Linked(Without(ring, i))
  {
    prev.next := next;
    next.prev := prev;
    UnlinkedRing(ring, i);
  }

  /** Puts a linked node behind `last`. */
  method Append<K>(last: Node<K>, end: Node<K>, node: Node<K>, ghost ring: seq<Node<K>>)
    requires Linked(ring) && Distinct(ring) && node !in ring
    requires end == ring[0] && last == ring[|ring| - 1] && node.prev == last && node.next == end
    modifies last, end
    ensures Linked(ring + [node])
  {
    last.next := node;
    end.prev := node;
    LinkedWith(ring, node);
  }

  class Set<K(!new, ==)> {
    const end: Node<K>
    var index: map<K, Node<K>>
    ghost var ring: seq<Node<K>>    // the sentinel, then the nodes in insertion order
    ghost var keys: seq<K>          // the keys in insertion order
    ghost var repr: set<Node<K>>

    ghost predicate Valid()
      reads this, ring
    {
      && (forall i :: 0 <= i < |ring| ==> ring[i] in repr)
      && Linked(ring) && Distinct(ring) && ring[0] == end
      && Indexed(ring, keys, index) && Distinct(keys)
    }

    constructor ()
      ensures Valid() && fresh(repr) && keys == []
    {
      var s := new Node<K>.Sentinel();
      end := s;
      index := map[];
      ring, keys, repr := [s], [], {s};
    }

    method Contains(k: K) returns (b: bool)
      requires Valid()
      ensures b <==> k in keys
    {
      b := k in index;
    }

    method Length() returns (n: nat)
      requires Valid()
      ensures n == |keys|
    {
      n := |index|;
      SetOfDistinct(keys, index.Keys);
      assert |index| == |index.Keys|;
    }

    method Add(k: K)
      requires Valid()
      modifies this, repr
      ensures Valid() && keys == Added(old(keys), k)
      ensures fresh(repr - old(repr))
    {
      hide Indexed, Distinct;
      IndexedMeans(ring, keys, index, k);
      if k !in index {
        var curr := end.prev;
        assert curr == ring[|ring| - 1];
        var node := new Node<K>.Link(k, curr, end);
        Append(curr, end, node, ring);
        IndexedWith(ring, keys, index, node, k);
        DistinctWith(ring, node);
        DistinctWith(keys, k);
        index := index[k := node];
        ring, keys, repr := ring + [node], keys + [k], repr + {node};
      }
    }

    method Discard(k: K)
      requires Valid()
      modifies this, repr
      ensures Valid() && keys == Discarded(old(keys), k)
      ensures repr == old(repr)
    {
      hide Indexed, Distinct, Linked, Discarded;
      IndexedMeans(ring, keys, index, k);
      if k in index {
        ghost var i :| 0 <= i < |keys| && keys[i] == k;
        var node := index[k];
        var prev, next := node.prev, node.next;
        assert node == ring[i + 1] by { IndexedNode(ring, keys, index, i); }
        assert prev == ring[i] && next == ring[After(ring, i + 1)] by { Neighbours(ring, i + 1); }
        Unlink(prev, next, ring, i + 1);
        IndexedWithout(ring, keys, index, i);
        DistinctWithout(ring, i + 1);
        DistinctWithout(keys, i);
        index := index - {k};
        DiscardedAt(keys, i);
        ring, keys := Without(ring, i + 1), Without(keys, i);
      } else {
        DiscardedAbsent(keys, k);
      }
    }

    /** Removes and returns the last or the first key; an empty set raises an error instead. */
    method Pop(last: bool) returns (k: Option<K>)
      requires Valid()
      modifies this, repr
      ensures Valid() && repr == old(repr)
      ensures old(keys) == [] ==> k == None && keys == []
      ensures old(keys) != [] ==>
                if last then k == Some(old(keys[|keys| - 1])) && keys == old(keys[..|keys| - 1])
                else k == Some(old(keys[0])) && keys == old(keys[1..])
    {
      var n := Length();
      if n == 0 { return None; }
      k := if last then end.prev.key else end.next.key;
      ghost var i := if last then |keys| - 1 else 0;
      assert k == Some(keys[i]) by {
        assert end.prev == ring[|ring| - 1] && end.next == ring[1];
      }
      DiscardedAt(keys, i);
      Discard(k.value);
    }

    /** The keys in the order of the forward links. */
    method ToList() returns (r: seq<K>)
      requires Valid()
      ensures r == keys
    {
      r := [];
      var curr := end.next;
      while curr != end
        invariant |r| < |ring| && r == keys[..|r|]
        invariant curr == ring[After(ring, |r|)]
        decreases |ring| - |r|
      {
        r := r + [curr.key.value];
        curr := curr.next;
      }
    }

    /** The keys in the order of the backward links. */
    method Reversed() returns (r: seq<K>)
      requires Valid()
      ensures r == Reverse(keys)
    {
      r := [];
      var curr := end.prev;
      while curr != end
        invariant |r| < |ring| && forall i :: 0 <= i < |r| ==> r[i] == keys[|keys| - 1 - i]
        invariant curr == ring[|ring| - 1 - |r|]
        decreases |ring| - |r|
      {
        r := r + [curr.key.value];
        curr := curr.prev;
      }
    }

    /** Adds every key of `ks`, as construction from an iterable and union do. */
    method Update(ks: seq<K>)
      requires Valid()
      modifies this, repr
      ensures Valid() && keys == Updated(old(keys), ks)
      ensures fresh(repr - old(repr))
    {
      for i := 0 to |ks|
        invariant Valid() && keys == Updated(old(keys), ks[..i])
        invariant fresh(repr - old(repr))
      {
        Add(ks[i]);
        assert ks[..i + 1][..i] == ks[..i];
      }
      assert ks[..|ks|] == ks;
    }

    /** Runs any sequence of operations. */
    method Run(ops: seq<Op<K>>)
      requires Valid()
      modifies this, repr
      ensures Valid() && keys == RunModel(old(keys), ops) && fresh(repr - old(repr))
    {
      for i := 0 to |ops|
        invariant Valid() && keys == RunModel(old(keys), ops[..i])
        invariant fresh(repr - old(repr))
      {
        match ops[i] {
          case Insert(k) => Add(k);
          case Remove(k) => Discard(k);
          case PopKey(last) => var _ := Pop(last);
        }
        assert ops[..i + 1][..i] == ops[..i];
      }
      assert ops[..|ops|] == ops;
    }
  }

  lemma {:induction false} SetOfDistinct<K>(keys: seq<K>, ks: set<K>)
    requires Distinct(keys) && (forall k :: k in ks <==> k in keys)
    ensures |ks| == |keys|
    decreases |keys|
  {
    if keys == [] {
      assert ks == {};
    } else {
      SetOfDistinct(keys[1..], ks - {keys[0]});
    }
  }

  datatype Op<K> = Insert(key: K) | Remove(key: K) | PopKey(last: bool)

  function StepModel<K(==)>(s: seq<K>, op: Op<K>): seq<K> {
    match op
    case Insert(k) => Added(s, k)
    case Remove(k) => Discarded(s, k)
    case PopKey(last) => if s == [] then [] else if last then s[..|s| - 1] else s[1..]
  }

  function RunModel<K(==)>(s: seq<K>, ops: seq<Op<K>>): seq<K> {
    if ops == [] then s else StepModel(RunModel(s, ops[..|ops| - 1]), ops[|ops| - 1])
  }

  // ------------------------------------------------------------ properties of every run

  /** The position of the operation that put `k` into the set, or -1. */
  function AddedAt<K(==)>(ops: seq<Op<K>>, k: K): int {
    if ops == [] then -1
    else
      var rest := ops[..|ops| - 1];
      if ops[|ops| - 1] == Insert(k) && k !in RunModel([], rest) then |rest| else AddedAt(rest, k)
  }

  ghost predicate InOrder<K>(ops: seq<Op<K>>, s: seq<K>) {
    forall p, q :: 0 <= p < q < |s| ==> AddedAt(ops, s[p]) < AddedAt(ops, s[q])
  }

  lemma {:induction false} AddedBefore<K>(ops: seq<Op<K>>, k: K)
    ensures AddedAt(ops, k) < |ops|
    decreases |ops|
  {
    if ops != [] {
      AddedBefore(ops[..|ops| - 1], k);
    }
  }

  lemma {:induction false} DiscardedIs<K>(s: seq<K>, k: K) returns (i: nat)
    requires Distinct(s)
    ensures k !in s ==> Discarded(s, k) == s
    ensures k in s ==> i < |s| && s[i] == k && Discarded(s, k) == Without(s, i)
  {
    i := 0;
    if k in s {
      i :| i < |s| && s[i] == k;
      DiscardedAt(s, i);
    } else {
      DiscardedAbsent(s, k);
    }
  }

  /** Each step is a no-op, an append of a new key, or the removal of one position. */
  lemma StepIs<K>(s: seq<K>, op: Op<K>) returns (i: nat)
    requires Distinct(s)
    ensures var t := StepModel(s, op);
            || t == s
            || (op.Insert? && op.key !in s && t == s + [op.key])
            || (!op.Insert? && i < |s| && t == Without(s, i))
  {
    i := 0;
    match op
    case Insert(k) =>
    case Remove(k) => i := DiscardedIs(s, k);
    case PopKey(last) =>
      if s != [] {
        i := if last then |s| - 1 else 0;
        assert Without(s, i) == StepModel(s, op);
      }
  }

  /** Whatever the operations, the set lists its keys without repetition in the order in which they
      were put in. */
  lemma {:induction false} InsertionOrder<K>(ops: seq<Op<K>>)
    ensures Distinct(RunModel([], ops)) && InOrder(ops, RunModel([], ops))
    decreases |ops|
  {
    hide Distinct, Without;
    if ops == [] {
      EmptyDistinct<K>();
    } else {
      var rest, op := ops[..|ops| - 1], ops[|ops| - 1];
      var s, t := RunModel([], rest), RunModel([], ops);
      InsertionOrder(rest);
      var i := StepIs(s, op);
      if op.Insert? && op.key !in s {
        DistinctWith(s, op.key);
        forall k | k in s
          ensures AddedAt(ops, k) == AddedAt(rest, k) < |rest|
        {
          AddedBefore(rest, k);
        }
      } else {
        assert forall k :: AddedAt(ops, k) == AddedAt(rest, k);
        if t != s {
          DistinctWithout(s, i);
          forall p, q | 0 <= p < q < |t|
            ensures AddedAt(rest, t[p]) < AddedAt(rest, t[q])
          {
            assert t[p] == s[if p < i then p else p + 1] && t[q] == s[if q < i then q else q + 1];
          }
        }
      }
    }
  }

  /** Removing a key just added restores the set. */
  lemma DiscardUndoesAdd<K>(s: seq<K>, k: K)
    requires Distinct(s) && k !in s
    ensures Discarded(Added(s, k), k) == s
  {
    DistinctWith(s, k);
    DiscardedAt(s + [k], |s|);
    assert Without(s + [k], |s|) == s;
  }

  /** A set rebuilt from its own list of keys is the same set, as saving and loading does. */
  lemma {:induction false} RebuildFromList<K>(s: seq<K>)
    requires Distinct(s)
    ensures Updated([], s) == s
  {
    if s != [] {
      RebuildFromList(s[..|s| - 1]);
      assert s[|s| - 1] !in s[..|s| - 1];
    }
  }

  /** Union keeps the first operand as it is and then lists what the second one adds. */
  lemma {:induction false} UpdatedKeepsPrefix<K>(s: seq<K>, ks: seq<K>)
    requires Distinct(s)
    ensures s <= Updated(s, ks) && Distinct(Updated(s, ks))
    ensures forall k :: k in Updated(s, ks) <==> k in s || k in ks
    decreases |ks|
  {
    if ks != [] {
      UpdatedKeepsPrefix(s, ks[..|ks| - 1]);
      assert ks == ks[..|ks| - 1] + [ks[|ks| - 1]];
    }
  }
}
