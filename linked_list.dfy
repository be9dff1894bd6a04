/**
 * The doubly linked list of the playground. Nodes are heap objects linked by
 * `next` and `previous`; the list keeps only a reference to its first node,
 * so its last node and its length are found by walking the `next` links.
 */
module LinkedLists {

  /** A list node. No operation of the list writes `value`, so it is a constant here. */
  class Node<T> {
    const value: T
    var next: Node?<T>
    var previous: Node?<T>

    constructor (value: T)
      ensures this.value == value && next == null && previous == null
    {
      this.value := value;
      next := null;
      previous := null;
    }
  }

  ghost predicate Distinct<T>(ns: seq<Node<T>>)
  {
    forall i, j :: 0 <= i < j < |ns| ==> ns[i] != ns[j]
  }

  /** Position of `n` in `ns` (its first occurrence). */
  ghost function IndexOf<T>(ns: seq<Node<T>>, n: Node<T>): (k: nat)
    requires n in ns
    ensures k < |ns| && ns[k] == n
    ensures forall i :: 0 <= i < k ==> ns[i] != n
  {
    if ns[0] == n then 0 else 1 + IndexOf(ns[1..], n)
  }

  /** `s` with `x` placed at position `k`. */
  function InsertAt<X>(s: seq<X>, k: nat, x: X): (r: seq<X>)
    requires k <= |s|
    ensures |r| == |s| + 1 && r[k] == x
    ensures forall i :: 0 <= i < k ==> r[i] == s[i]
    ensures forall i :: k < i < |r| ==> r[i] == s[i - 1]
  {
    s[..k] + [x] + s[k..]
  }

  lemma InsertAtIndex<X>(s: seq<X>, k: nat, x: X, i: nat)
    requires k <= |s| && i <= |s|
    ensures InsertAt(s, k, x)[i] == if i < k then s[i] else if i == k then x else s[i - 1]
  {
  }

  /** `s` without its element at position `k`. */
  function RemoveAt<X>(s: seq<X>, k: nat): (r: seq<X>)
    requires k < |s|
    ensures |r| == |s| - 1
    ensures forall i :: 0 <= i < k ==> r[i] == s[i]
    ensures forall i :: k <= i < |r| ==> r[i] == s[i + 1]
  {
    s[..k] + s[k + 1..]
  }

  lemma RemoveAtIndex<X>(s: seq<X>, k: nat, i: nat)
    requires k < |s| && i + 1 < |s|
    ensures RemoveAt(s, k)[i] == if i < k then s[i] else s[i + 1]
  {
  }

  /** Once the neighbours of position `k` are linked, `next` follows the chain without `k`. */
  lemma NextLinksAfterRemove<T>(ns: seq<Node<T>>, k: nat, prev: Node?<T>, next: Node?<T>)
    requires k < |ns|
    requires prev == (if k == 0 then null else ns[k - 1])
    requires next == (if k + 1 < |ns| then ns[k + 1] else null)
    requires forall i :: 0 <= i && i + 1 < |ns| && i != k && i + 1 != k ==> ns[i].next == ns[i + 1]
    requires prev != null ==> prev.next == next
    ensures forall i :: 0 <= i && i + 1 < |ns| - 1 ==> RemoveAt(ns, k)[i].next == RemoveAt(ns, k)[i + 1]
  {
    forall i | 0 <= i && i + 1 < |ns| - 1 ensures RemoveAt(ns, k)[i].next == RemoveAt(ns, k)[i + 1] {
      RemoveAtIndex(ns, k, i);
      RemoveAtIndex(ns, k, i + 1);
    }
  }

  /** Once the neighbours of position `k` are linked, `previous` follows the chain without `k`. */
  lemma PreviousLinksAfterRemove<T>(ns: seq<Node<T>>, k: nat, prev: Node?<T>, next: Node?<T>)
    requires k < |ns|
    requires prev == (if k == 0 then null else ns[k - 1])
    requires next == (if k + 1 < |ns| then ns[k + 1] else null)
    requires forall i :: 0 < i < |ns| && i != k && i != k + 1 ==> ns[i].previous == ns[i - 1]
    requires next != null ==> next.previous == prev
    ensures forall i :: 0 < i < |ns| - 1 ==> RemoveAt(ns, k)[i].previous == RemoveAt(ns, k)[i - 1]
  {
    forall i | 0 < i < |ns| - 1 ensures RemoveAt(ns, k)[i].previous == RemoveAt(ns, k)[i - 1] {
      RemoveAtIndex(ns, k, i);
      RemoveAtIndex(ns, k, i - 1);
    }
  }

  /** The values held by a chain of nodes, in order. */
  function ValuesOf<T>(ns: seq<Node<T>>): (r: seq<T>)
    ensures |r| == |ns| && forall i :: 0 <= i < |ns| ==> r[i] == ns[i].value
  {
    seq(|ns|, i requires 0 <= i < |ns| => ns[i].value)
  }

  function Reversed<X>(s: seq<X>): (r: seq<X>)
    ensures |r| == |s|
  {
    if s == [] then [] else Reversed(s[1..]) + [s[0]]
  }

  lemma {:induction false} ReversedAt<X>(s: seq<X>, k: nat)
    requires k < |s|
    ensures Reversed(s)[k] == s[|s| - 1 - k]
  {
    if k < |s| - 1 {
      ReversedAt(s[1..], k);
    }
  }

  /** Reversing twice gives back the original order. */
  lemma ReversedTwice<X>(s: seq<X>)
    ensures Reversed(Reversed(s)) == s
  {
    var r := Reversed(Reversed(s));
    forall k | 0 <= k < |s| ensures r[k] == s[k] {
      ReversedAt(Reversed(s), k);
      ReversedAt(s, |s| - 1 - k);
    }
  }

  /**
   * Inserting a node that is not yet in a chain of distinct nodes and then
   * removing that node (at whatever position it is found) restores the chain.
   */
  lemma RemoveAfterInsert<T>(ns: seq<Node<T>>, k: nat, n: Node<T>)
    requires Distinct(ns) && n !in ns && k <= |ns|
    ensures n in InsertAt(ns, k, n)
    ensures IndexOf(InsertAt(ns, k, n), n) == k
    ensures RemoveAt(InsertAt(ns, k, n), k) == ns
  {
    var ins := InsertAt(ns, k, n);
    forall i | 0 <= i < |ins| && i != k ensures ins[i] != n {
      assert ins[i] in ns;
    }
  }

  lemma DistinctInsertAt<T>(ns: seq<Node<T>>, k: nat, n: Node<T>)
    requires Distinct(ns) && n !in ns && k <= |ns|
    ensures Distinct(InsertAt(ns, k, n))
  {
    var r := InsertAt(ns, k, n);
    forall i, j | 0 <= i < j < |r| ensures r[i] != r[j] {
      if i == k {
        assert r[j] == ns[j - 1];
      } else if j == k {
        assert r[i] == ns[i];
      }
    }
  }

  lemma DistinctRemoveAt<T>(ns: seq<Node<T>>, k: nat)
    requires Distinct(ns) && k < |ns|
    ensures Distinct(RemoveAt(ns, k))
  {
  }

  lemma ValuesOfInsertAt<T>(ns: seq<Node<T>>, k: nat, n: Node<T>)
    requires k <= |ns|
    ensures ValuesOf(InsertAt(ns, k, n)) == InsertAt(ValuesOf(ns), k, n.value)
  {
  }

  lemma ValuesOfRemoveAt<T>(ns: seq<Node<T>>, k: nat)
    requires k < |ns|
    ensures ValuesOf(RemoveAt(ns, k)) == RemoveAt(ValuesOf(ns), k)
  {
  }

  lemma ValuesOfReversed<T>(ns: seq<Node<T>>)
    ensures ValuesOf(Reversed(ns)) == Reversed(ValuesOf(ns))
  {
    forall k | 0 <= k < |ns| ensures ValuesOf(Reversed(ns))[k] == Reversed(ValuesOf(ns))[k] {
      ReversedAt(ns, k);
      ReversedAt(ValuesOf(ns), k);
    }
  }

  class LinkedList<T> {
    var head: Node?<T>
    /** The nodes reachable from `head`, in `next` order; also the list's footprint. */
    ghost var nodes: seq<Node<T>>

    /**
     * `head` is the first node, each node's `next` is its successor and its
     * `previous` its predecessor, and the two ends link to null.
     */
    ghost predicate Valid()
      reads this, nodes
    {
      Distinct(nodes) &&
      head == (if nodes == [] then null else nodes[0]) &&
      (forall i :: 0 <= i && i + 1 < |nodes| ==> nodes[i].next == nodes[i + 1]) &&
      (forall i :: 0 < i < |nodes| ==> nodes[i].previous == nodes[i - 1]) &&
      (nodes != [] ==> nodes[0].previous == null && nodes[|nodes| - 1].next == null)
    }

    /** The values met when walking from `first` along `next`. */
    ghost function Values(): (r: seq<T>)
      reads this
    {
      ValuesOf(nodes)
    }

    constructor ()
      ensures Valid() && nodes == [] && Values() == []
    {
      head := null;
      nodes := [];
    }

    function IsEmpty(): (b: bool)
      reads this, nodes
      requires Valid()
      ensures b <==> Values() == []
    {
      head == null
    }

    function First(): (r: Node?<T>)
      reads this, nodes
      requires Valid()
      ensures r == null <==> nodes == []
      ensures r != null ==> r == nodes[0] && r.value == Values()[0]
    {
      head
    }

    /** Walks the `next` links from `head` to the node that has none. */
    method Last() returns (r: Node?<T>)
      requires Valid()
      ensures r == null <==> nodes == []
      ensures r != null ==> r == nodes[|nodes| - 1] && r.next == null
    {
      if head == null {
        return null;
      }
      var node := head;
      ghost var k := 0;
      while node.next != null
        invariant 0 <= k < |nodes| && node == nodes[k]
        invariant k + 1 < |nodes| ==> node.next == nodes[k + 1]
        decreases |nodes| - k
      {
        node := node.next;
        k := k + 1;
      }
      return node;
    }

    /** Counts the nodes by walking the `next` links from `head`. */
    method Count() returns (count: nat)
      requires Valid()
      ensures count == |nodes| == |Values()|
    {
      if head == null {
        return 0;
      }
      var node := head;
      count := 1;
      while node.next != null
        invariant 1 <= count <= |nodes| && node == nodes[count - 1]
        invariant count < |nodes| ==> node.next == nodes[count]
        decreases |nodes| - count
      {
        node := node.next;
        count := count + 1;
      }
    }

    /** Links a new node holding `value` after the last node, or makes it `head`. */
    method Append(value: T)
      requires Valid()
      modifies this, nodes
      ensures Valid()
      ensures |nodes| == |old(nodes)| + 1 && nodes[..|old(nodes)|] == old(nodes)
      ensures fresh(nodes[|nodes| - 1])
      ensures Values() == old(Values()) + [value]
    {
      var newNode := new Node(value);
      var lastNode := Last();
      if lastNode != null {
        newNode.previous := lastNode;
        lastNode.next := newNode;
      } else {
        head := newNode;
      }
      nodes := nodes + [newNode];
      assert ValuesOf(nodes)[..|old(nodes)|] == ValuesOf(old(nodes));
    }

    /**
     * Follows `next` from `head` `atIndex` times. On an empty list the result
     * is null whatever the index; otherwise the force-unwraps and the range
     * `1..<atIndex` trap unless `0 <= atIndex < count`.
     */
    method NodeAt(atIndex: int) returns (r: Node?<T>)
      requires Valid()
      requires nodes == [] || 0 <= atIndex < |nodes|
      ensures r == if nodes == [] then null else nodes[atIndex]
    {
      if head == null {
        return null;
      }
      var node: Node<T> := head;
      if atIndex == 0 {
        return node;
      }
      assert nodes[0].next == nodes[1];
      node := node.next;
      for k := 1 to atIndex
        invariant node == nodes[k]
      {
        assert nodes[k].next == nodes[k + 1];
        node := node.next;
      }
      return node;
    }

    /**
     * Splices `node` in at position `atIndex`. On an empty list with
     * `atIndex != 0` there is no predecessor, so the node's links are cleared
     * and the list is left as it was.
     */
    method Insert(node: Node<T>, atIndex: int)
      requires Valid()
      requires node !in nodes
      requires nodes == [] || 0 <= atIndex <= |nodes|
      requires atIndex == 0 ==> node.previous == null
      modifies this, nodes, node
      ensures Valid()
      ensures atIndex == 0 || old(nodes) != [] ==>
        0 <= atIndex && nodes == InsertAt(old(nodes), atIndex, node) &&
        Values() == InsertAt(old(Values()), atIndex, node.value)
      ensures atIndex != 0 && old(nodes) == [] ==>
        nodes == [] && node.next == null && node.previous == null
    {
      if atIndex == 0 {
        LinkFirst(node);
      } else {
        var prev := NodeAt(atIndex - 1);
        if prev == null {
          node.previous := null;
          node.next := null;
        } else {
          LinkAfter(prev, node, atIndex);
        }
      }
    }

    /** The `atIndex == 0` branch of `insert`: `node` becomes `head`. */
    method LinkFirst(node: Node<T>)
      requires Valid() && node !in nodes && node.previous == null
      modifies this, nodes, node
      ensures Valid()
      ensures nodes == InsertAt(old(nodes), 0, node)
      ensures Values() == InsertAt(old(Values()), 0, node.value)
    {
      ghost var ns := nodes;
      node.next := head;
      if head != null {
        head.previous := node;
      }
      head := node;
      nodes := [node] + nodes;
      ValuesOfInsertAt(ns, 0, node);
      forall i | 0 < i && i + 1 < |nodes| ensures nodes[i].next == nodes[i + 1] {
        assert nodes[i] == ns[i - 1] && ns[i - 1] != node;
      }
      forall i | 1 < i < |nodes| ensures nodes[i].previous == nodes[i - 1] {
        assert nodes[i] == ns[i - 1] && ns[i - 1] != ns[0] && ns[i - 1] != node;
      }
      assert Distinct(nodes);
      assert nodes[|nodes| - 1].next == null;
    }

    /**
     * The `atIndex > 0` branch of `insert` on a non-empty list: `node` is
     * linked between `prev`, at position `atIndex - 1`, and its successor.
     */
    method LinkAfter(prev: Node<T>, node: Node<T>, atIndex: int)
      requires Valid() && node !in nodes
      requires 1 <= atIndex <= |nodes| && prev == nodes[atIndex - 1]
      modifies this, nodes, node
      ensures Valid()
      ensures nodes == InsertAt(old(nodes), atIndex, node)
      ensures Values() == InsertAt(old(Values()), atIndex, node.value)
    {
      var next := prev.next;
      assert atIndex < |nodes| ==> next == nodes[atIndex];
      prev.next := node;
      node.previous := prev;
      node.next := next;
      if next != null {
        next.previous := node;
      }
      forall i | 0 <= i && i + 1 < |nodes| && i + 1 != atIndex
        ensures nodes[i].next == nodes[i + 1]
      {
        assert nodes[i] != prev && nodes[i] != node;
      }
      forall i | 0 < i < |nodes| && i != atIndex
        ensures nodes[i].previous == nodes[i - 1]
      {
        assert nodes[i] != next && nodes[i] != node;
      }
      SpliceIn(atIndex, node);
    }

    /**
     * Once `node` is linked between positions `k - 1` and `k` of the chain,
     * the chain with `node` at position `k` is the list.
     */
    ghost method SpliceIn(k: int, node: Node<T>)
      requires Distinct(nodes) && node !in nodes && 1 <= k <= |nodes|
      requires head == nodes[0] && nodes[0].previous == null
      requires forall i :: 0 <= i && i + 1 < |nodes| && i + 1 != k ==> nodes[i].next == nodes[i + 1]
      requires forall i :: 0 < i < |nodes| && i != k ==> nodes[i].previous == nodes[i - 1]
      requires nodes[k - 1].next == node && node.previous == nodes[k - 1]
      requires node.next == (if k < |nodes| then nodes[k] else null)
      requires k < |nodes| ==> nodes[k].previous == node && nodes[|nodes| - 1].next == null
      modifies this
      ensures Valid()
      ensures nodes == InsertAt(old(nodes), k, node)
      ensures Values() == InsertAt(old(Values()), k, node.value)
    {
      ghost var ns := nodes;
      nodes := InsertAt(ns, k, node);
      ValuesOfInsertAt(ns, k, node);
      DistinctInsertAt(ns, k, node);
      forall i | 0 <= i && i + 1 < |nodes| ensures nodes[i].next == nodes[i + 1] {
        InsertAtIndex(ns, k, node, i);
        InsertAtIndex(ns, k, node, i + 1);
      }
      forall i | 0 < i < |nodes| ensures nodes[i].previous == nodes[i - 1] {
        InsertAtIndex(ns, k, node, i);
        InsertAtIndex(ns, k, node, i - 1);
      }
      InsertAtIndex(ns, k, node, 0);
      InsertAtIndex(ns, k, node, |ns|);
      assert head == nodes[0];
      assert nodes[0].previous == null;
      assert nodes[|nodes| - 1].next == null;
      assert Distinct(nodes);
      assert Valid();
    }

    /** Forgets every node: the list becomes empty. */
    method RemoveAll()
      requires Valid()
      modifies this
      ensures Valid() && nodes == [] && Values() == []
    {
      head := null;
      nodes := [];
    }

    /**
     * Unlinks `node`, making its successor `head` when it was first, clears
     * its own links and returns its value.
     */
    method Remove(node: Node<T>) returns (value: T)
      requires Valid()
      requires node in nodes
      modifies this, nodes
      ensures Valid()
      ensures nodes == RemoveAt(old(nodes), old(IndexOf(nodes, node)))
      ensures Values() == RemoveAt(old(Values()), old(IndexOf(nodes, node)))
      ensures node.next == null && node.previous == null
      ensures value == node.value
    {
      ghost var k := IndexOf(nodes, node);
      ghost var ns := nodes;
      var prev := node.previous;
      var next := node.next;
      assert prev == if k == 0 then null else nodes[k - 1];
      assert next == if k + 1 < |nodes| then nodes[k + 1] else null;
      if prev != null {
        prev.next := next;
      } else {
        head := next;
      }
      if next != null {
        next.previous := prev;
      }
      node.previous := null;
      node.next := null;
      forall i | 0 <= i && i + 1 < |nodes| && i != k && i + 1 != k
        ensures nodes[i].next == nodes[i + 1]
      {
        assert nodes[i] != prev && nodes[i] != node;
      }
      forall i | 0 < i < |nodes| && i != k && i != k + 1
        ensures nodes[i].previous == nodes[i - 1]
      {
        assert nodes[i] != next && nodes[i] != node;
      }
      assert k != 0 ==> nodes[0] != node && nodes[0] != next;
      assert k + 1 != |nodes| ==> nodes[|nodes| - 1] != node && nodes[|nodes| - 1] != prev;
      SpliceOut(k, prev, next);
      return node.value;
    }

    /**
     * Once the neighbours of position `k` are linked to each other, the chain
     * without position `k` is the list.
     */
    ghost method SpliceOut(k: nat, prev: Node?<T>, next: Node?<T>)
      requires Distinct(nodes) && k < |nodes|
      requires prev == (if k == 0 then null else nodes[k - 1])
      requires next == (if k + 1 < |nodes| then nodes[k + 1] else null)
      requires head == (if k == 0 then next else nodes[0])
      requires forall i :: 0 <= i && i + 1 < |nodes| && i != k && i + 1 != k ==> nodes[i].next == nodes[i + 1]
      requires forall i :: 0 < i < |nodes| && i != k && i != k + 1 ==> nodes[i].previous == nodes[i - 1]
      requires prev != null ==> prev.next == next
      requires next != null ==> next.previous == prev
      requires k != 0 ==> nodes[0].previous == null
      requires k + 1 != |nodes| ==> nodes[|nodes| - 1].next == null
      modifies this
      ensures Valid()
      ensures nodes == RemoveAt(old(nodes), k)
      ensures Values() == RemoveAt(old(Values()), k)
    {
      ghost var ns := nodes;
      nodes := RemoveAt(ns, k);
      ValuesOfRemoveAt(ns, k);
      DistinctRemoveAt(ns, k);
      NextLinksAfterRemove(ns, k, prev, next);
      PreviousLinksAfterRemove(ns, k, prev, next);
      if nodes != [] {
        RemoveAtIndex(ns, k, 0);
        RemoveAtIndex(ns, k, |nodes| - 1);
        assert head == nodes[0];
        assert nodes[0].previous == null;
        assert nodes[|nodes| - 1].next == null;
      }
      assert Valid();
    }

    /**
     * One pass from `head` that swaps each node's `next` and `previous` and
     * makes it `head`, so the former last node ends up first.
     */
    method Reverse()
      requires Valid()
      modifies this, nodes
      ensures Valid()
      ensures nodes == Reversed(old(nodes))
      ensures Values() == Reversed(old(Values()))
    {
      var node := head;
      ghost var i := 0;
      ghost var n := |nodes|;
      while node != null
        invariant nodes == old(nodes) && Distinct(nodes) && 0 <= i <= n == |nodes|
        invariant node == (if i < n then nodes[i] else null)
        invariant head == (if i == 0 then old(head) else nodes[i - 1])
        // nodes before i have their links swapped, the others are untouched
        invariant forall k :: 0 < k < i ==> nodes[k].next == nodes[k - 1]
        invariant forall k :: 0 <= k && k + 1 < i ==> nodes[k].previous == nodes[k + 1]
        invariant 0 < i ==> nodes[0].next == null
        invariant 0 < i ==> nodes[i - 1].previous == (if i < n then nodes[i] else null)
        invariant forall k :: i <= k && k + 1 < n ==> nodes[k].next == nodes[k + 1]
        invariant forall k :: i < k < n ==> nodes[k].previous == nodes[k - 1]
        invariant i < n ==> nodes[n - 1].next == null
        invariant i < n ==> nodes[i].previous == (if i == 0 then null else nodes[i - 1])
        decreases n - i
      {
        var current := node;
        node := current.next;
        current.next, current.previous := current.previous, current.next;
        head := current;
        i := i + 1;
      }
      ReverseLinks();
    }

    /** After the pass of `Reverse`, the reversed chain is the list. */
    ghost method ReverseLinks()
      requires Distinct(nodes)
      requires head == (if nodes == [] then null else nodes[|nodes| - 1])
      requires forall k :: 0 < k < |nodes| ==> nodes[k].next == nodes[k - 1]
      requires forall k :: 0 <= k && k + 1 < |nodes| ==> nodes[k].previous == nodes[k + 1]
      requires nodes != [] ==> nodes[0].next == null && nodes[|nodes| - 1].previous == null
      modifies this
      ensures Valid() && nodes == Reversed(old(nodes)) && Values() == Reversed(old(Values()))
    {
      ghost var ns := nodes;
      ghost var n := |ns|;
      nodes := Reversed(ns);
      forall k | 0 <= k < n ensures nodes[k] == ns[n - 1 - k] {
        ReversedAt(ns, k);
      }
      forall k | 0 <= k && k + 1 < n ensures nodes[k].next == nodes[k + 1] {
        assert nodes[k] == ns[n - 1 - k] && nodes[k + 1] == ns[n - 1 - k - 1];
      }
      forall k | 0 < k < n ensures nodes[k].previous == nodes[k - 1] {
        assert nodes[k] == ns[n - 1 - k] && nodes[k - 1] == ns[n - 1 - k + 1];
      }
      ValuesOfReversed(ns);
    }
  }

  /** Inserting a fresh node and then removing it gives back the original list. */
  method InsertThenRemove<T>(list: LinkedList<T>, node: Node<T>, atIndex: nat)
    requires list.Valid() && node !in list.nodes && node.previous == null
    requires atIndex <= |list.nodes|
    modifies list, list.nodes, node
    ensures list.Valid() && list.nodes == old(list.nodes) && list.Values() == old(list.Values())
  {
    ghost var before := list.nodes;
    list.Insert(node, atIndex);
    ghost var inserted := InsertAt(before, atIndex, node);
    assert list.nodes == inserted && inserted[atIndex] == node;
    var v := list.Remove(node);
    RemoveAfterInsert(before, atIndex, node);
  }

  /** Reversing a list twice restores its order. */
  method ReverseTwice<T>(list: LinkedList<T>)
    requires list.Valid()
    modifies list, list.nodes
    ensures list.Valid() && list.nodes == old(list.nodes) && list.Values() == old(list.Values())
  {
    ghost var before := list.nodes;
    list.Reverse();
    forall i | 0 <= i < |list.nodes| ensures list.nodes[i] == before[|before| - 1 - i] {
      ReversedAt(before, i);
    }
    list.Reverse();
    ReversedTwice(before);
  }
}

