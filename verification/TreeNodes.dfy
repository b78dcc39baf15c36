/**
  src/sbtree.c on nodes in the heap: every operation rewrites `left`, `right` and `size` in
  place.  A node pointer `t` is tied to a value `m` by `Is(t, m)`; the items of `m` are the
  nodes themselves, so they are also the footprint.  Where the C code takes the address of the
  pointer to a subtree, the method returns the new root of that subtree and the caller stores it.
 */
module TreeNodes {
  import opened SizeBalancedTree
  import opened SearchTree

  class Node<V> {
    var left: Node?<V>
    var right: Node?<V>
    var size: nat
    const key: Key
    const value: V

    constructor (key: Key, value: V)
      ensures this.key == key && this.value == value
    {
      this.key, this.value := key, value;
      left, right, size := null, null, 0;
    }
  }

  /** The nodes of `m`. */
  ghost function Nodes<V>(m: Tree<Node<V>>): set<Node<V>> {
    match m
    case Leaf => {}
    case Bin(l, e, r) => Nodes(l) + {e.item} + Nodes(r)
  }

  /** `t` points to the tree `m`: no node is shared and every size field is exact. */
  ghost predicate Is<V>(t: Node?<V>, m: Tree<Node<V>>)
    reads Nodes(m)
    ensures Is(t, m) ==> (t == null <==> m.Leaf?) && (t != null ==> t in Nodes(m) && t.size == Size(m))
    decreases m
  {
    match m
    case Leaf => t == null
    case Bin(l, e, r) =>
      && t == e.item && e.key == t.key && t.size == Size(m)
      && Nodes(l) !! Nodes(r) && t !in Nodes(l) && t !in Nodes(r)
      && Is(t.left, l) && Is(t.right, r)
  }

  ghost function Items<V>(s: seq<Entry<Node<V>>>): set<Node<V>> {
    set e | e in s :: e.item
  }

  lemma {:induction false} NodesAreItems<V>(m: Tree<Node<V>>)
    ensures Nodes(m) == Items(InOrder(m))
  {
    if m.Bin? {
      NodesAreItems(m.left);
      NodesAreItems(m.right);
      var (l, r) := (InOrder(m.left), InOrder(m.right));
      assert forall e :: e in InOrder(m) <==> e in l || e == m.entry || e in r;
    }
  }

  lemma SameSequenceSameNodes<V>(m: Tree<Node<V>>, m': Tree<Node<V>>)
    requires InOrder(m) == InOrder(m')
    ensures Nodes(m) == Nodes(m')
  {
    NodesAreItems(m);
    NodesAreItems(m');
  }

  /** `SBTREE_SIZE`, with 0 for a null pointer. */
  function SizeOf<V>(t: Node?<V>): nat
    reads t
  {
    if t == null then 0 else t.size
  }

  method RotateLeftInPlace<V>(t: Node<V>, ghost m: Tree<Node<V>>) returns (r: Node<V>)
    requires Is(t, m) && m.Bin? && m.right.Bin?
    modifies t, t.right
    ensures Is(r, RotateLeft(m))
  {
    r := t.right;
    t.right := r.left;
    r.left := t;
    r.size := t.size;
    t.size := SizeOf(t.left) + SizeOf(t.right) + 1;
    ghost var Bin(a, x, Bin(b, y, c)) := m;
    assert Is(t.left, a) && Is(t.right, b) && Is(r.right, c);
    assert Is(t, Bin(a, x, b));
  }

  method RotateRightInPlace<V>(t: Node<V>, ghost m: Tree<Node<V>>) returns (l: Node<V>)
    requires Is(t, m) && m.Bin? && m.left.Bin?
    modifies t, t.left
    ensures Is(l, RotateRight(m))
  {
    l := t.left;
    t.left := l.right;
    l.right := t;
    l.size := t.size;
    t.size := SizeOf(t.left) + SizeOf(t.right) + 1;
    ghost var Bin(Bin(a, x, b), y, c) := m;
    assert Is(l.left, a) && Is(t.left, b) && Is(t.right, c);
    assert Is(t, Bin(b, y, c));
  }

  /** The tests of cases 1 and 1', as written, null checks included. */
  predicate OuterTest<V>(t: Node<V>, flag: bool, ghost m: Tree<Node<V>>): (b: bool)
    requires Is(t, m)
    reads Nodes(m)
    ensures b == OuterHeavy(m, flag)
  {
    assert t.left != null ==> Is(t.left, m.left) && Is(t.left.left, m.left.left) && Is(t.left.right, m.left.right);
    assert t.right != null ==> Is(t.right, m.right) && Is(t.right.left, m.right.left) && Is(t.right.right, m.right.right);
    if flag then
      t.right != null && t.right.right != null && (t.left == null || t.right.right.size > t.left.size)
    else
      t.left != null && t.left.left != null && (t.right == null || t.left.left.size > t.right.size)
  }

  /** The tests of cases 2 and 2'. */
  predicate InnerTest<V>(t: Node<V>, flag: bool, ghost m: Tree<Node<V>>): (b: bool)
    requires Is(t, m)
    reads Nodes(m)
    ensures b == InnerHeavy(m, flag)
  {
    assert t.left != null ==> Is(t.left, m.left) && Is(t.left.left, m.left.left) && Is(t.left.right, m.left.right);
    assert t.right != null ==> Is(t.right, m.right) && Is(t.right.left, m.right.left) && Is(t.right.right, m.right.right);
    if flag then
      t.right != null && t.right.left != null && (t.left == null || t.right.left.size > t.left.size)
    else
      t.left != null && t.left.right != null && (t.right == null || t.left.right.size > t.right.size)
  }

  /** The double rotation of case 2. */
  method RotateLeftRight<V>(t: Node<V>, ghost m: Tree<Node<V>>) returns (r: Node<V>)
    requires Is(t, m) && m.Bin? && m.left.Bin? && m.left.right.Bin?
    modifies Nodes(m)
    ensures Is(r, RotateRight(Bin(RotateLeft(m.left), m.entry, m.right)))
  {
    ghost var u := Bin(RotateLeft(m.left), m.entry, m.right);
    SameSequenceSameNodes(m.left, u.left);
    assert Is(t.left, m.left) && Is(t.left.right, m.left.right) && Is(t.right, m.right) && allocated(Nodes(m.right));
    var l := RotateLeftInPlace(t.left, m.left);
    assert Is(l, u.left) && Is(t.right, m.right);
    t.left := l;
    assert Is(t.left, u.left) && Is(t.right, m.right);
    assert Is(t, u);
    r := RotateRightInPlace(t, u);
  }

  /** The double rotation of case 2'. */
  method RotateRightLeft<V>(t: Node<V>, ghost m: Tree<Node<V>>) returns (r: Node<V>)
    requires Is(t, m) && m.Bin? && m.right.Bin? && m.right.left.Bin?
    modifies Nodes(m)
    ensures Is(r, RotateLeft(Bin(m.left, m.entry, RotateRight(m.right))))
  {
    ghost var u := Bin(m.left, m.entry, RotateRight(m.right));
    SameSequenceSameNodes(m.right, u.right);
    assert Is(t.right, m.right) && Is(t.right.left, m.right.left) && Is(t.left, m.left) && allocated(Nodes(m.left));
    var r' := RotateRightInPlace(t.right, m.right);
    assert Is(r', u.right) && Is(t.left, m.left);
    t.right := r';
    assert Is(t.right, u.right) && Is(t.left, m.left);
    assert Is(t, u);
    r := RotateLeftInPlace(t, u);
  }

  /** `sbtree_maintain` in place computes `Maintain` and touches no node outside the tree. */
  method MaintainInPlace<V>(t: Node<V>, flag: bool, ghost m: Tree<Node<V>>) returns (r: Node<V>)
    requires Is(t, m)
    modifies Nodes(m)
    ensures Is(r, Maintain(m, flag)) && Nodes(Maintain(m, flag)) == Nodes(m)
    decreases Weight(m), 0
  {
    SameSequenceSameNodes(m, Maintain(m, flag));
    r := t;
    if OuterTest(t, flag, m) {
      assert t.left in Nodes(m) + {null} && t.right in Nodes(m) + {null};
      if flag { r := RotateLeftInPlace(t, m); } else { r := RotateRightInPlace(t, m); }
    } else if InnerTest(t, flag, m) {
      if flag { r := RotateRightLeft(t, m); } else { r := RotateLeftRight(t, m); }
    } else {
      return;
    }
    ghost var u := Rotate(m, flag);
    SameSequenceSameNodes(m, u);
    r := SettleInPlace(r, u);
  }

  /** The four calls that follow a rotation. */
  method SettleInPlace<V>(t: Node<V>, ghost m: Tree<Node<V>>) returns (r: Node<V>)
    requires Is(t, m) && m.Bin? && m.left.Bin? && m.right.Bin?
    modifies Nodes(m)
    ensures Is(r, Settle(m)) && Nodes(Settle(m)) == Nodes(m)
    decreases Weight(m), 1
  {
    SameSequenceSameNodes(m, Settle(m));
    ghost var u := Bin(Maintain(m.left, false), m.entry, m.right);
    ghost var v := Bin(u.left, u.entry, Maintain(u.right, true));
    SameSequenceSameNodes(m, u);
    SameSequenceSameNodes(m, v);
    StoreLeft(t, false, m);
    StoreRight(t, true, u);
    r := MaintainInPlace(t, false, v);
    r := MaintainInPlace(r, true, Maintain(v, false));
  }

  method StoreLeft<V>(t: Node<V>, flag: bool, ghost m: Tree<Node<V>>)
    requires Is(t, m) && m.Bin? && m.left.Bin?
    modifies Nodes(m)
    ensures Is(t, Bin(Maintain(m.left, flag), m.entry, m.right))
    decreases Weight(m), 0
  {
    assert Is(t.left, m.left) && Is(t.right, m.right) && allocated(Nodes(m.right));
    var l := MaintainInPlace(t.left, flag, m.left);
    assert Is(t.right, m.right);
    t.left := l;
    assert Is(t.left, Maintain(m.left, flag)) && Is(t.right, m.right);
  }

  method StoreRight<V>(t: Node<V>, flag: bool, ghost m: Tree<Node<V>>)
    requires Is(t, m) && m.Bin? && m.right.Bin?
    modifies Nodes(m)
    ensures Is(t, Bin(m.left, m.entry, Maintain(m.right, flag)))
    decreases Weight(m), 0
  {
    assert Is(t.left, m.left) && Is(t.right, m.right) && allocated(Nodes(m.left));
    var r := MaintainInPlace(t.right, flag, m.right);
    assert Is(t.left, m.left);
    t.right := r;
    assert Is(t.right, Maintain(m.right, flag)) && Is(t.left, m.left);
  }

  lemma {:induction false} InsertNodes<V>(m: Tree<Node<V>>, e: Entry<Node<V>>)
    ensures Nodes(Insert(m, e)) == Nodes(m) + {e.item}
  {
    if m.Bin? {
      var u;
      if e.key <= m.entry.key {
        InsertNodes(m.left, e);
        u := Bin(Insert(m.left, e), m.entry, m.right);
      } else {
        InsertNodes(m.right, e);
        u := Bin(m.left, m.entry, Insert(m.right, e));
      }
      SameSequenceSameNodes(u, Insert(m, e));
    }
  }

  /** `sbtree_insert` in place computes `Insert`; only the tree and the new node are written. */
  method InsertInPlace<V>(t: Node?<V>, node: Node<V>, ghost m: Tree<Node<V>>) returns (r: Node<V>)
    requires Is(t, m) && node !in Nodes(m)
    modifies Nodes(m), node
    ensures Is(r, Insert(m, Entry(node.key, node)))
    ensures Nodes(Insert(m, Entry(node.key, node))) == Nodes(m) + {node}
    decreases m
  {
    hide Maintain, InOrder, Weight, Rotate;
    ghost var e := Entry(node.key, node);
    InsertNodes(m, e);
    if t == null {
      r := node;
      node.size := 1;
      node.left, node.right := null, null;
    } else {
      t.size := t.size + 1;
      ghost var u;
      assert Is(t.left, m.left) && Is(t.right, m.right);
      if node.key <= t.key {
        InsertNodes(m.left, e);
        assert allocated(Nodes(m.right));
        var l := InsertInPlace(t.left, node, m.left);
        t.left := l;
        u := Bin(Insert(m.left, e), m.entry, m.right);
        assert Is(t.left, u.left) && Is(t.right, u.right);
      } else {
        InsertNodes(m.right, e);
        assert allocated(Nodes(m.left));
        var l := InsertInPlace(t.right, node, m.right);
        t.right := l;
        u := Bin(m.left, m.entry, Insert(m.right, e));
        assert Is(t.left, u.left) && Is(t.right, u.right);
      }
      assert Is(t, u);
      r := MaintainInPlace(t, node.key > t.key, u);
    }
  }

  lemma {:induction false} DeleteNodes<V>(m: Tree<Node<V>>, key: Key)
    requires m.Bin? && Distinct(m)
    ensures Nodes(Delete(m, key).0) == Nodes(m) - {Delete(m, key).1.item}
    ensures Delete(m, key).1.item in Nodes(m)
    ensures Distinct(Delete(m, key).0) && Delete(m, key).1.key == Delete(m, key).1.item.key
    decreases m
  {
    if StopsHere(m, key) {
      if m.left.Bin? && m.right.Bin? {
        DeleteNodes(m.left, NextKey(key));
      }
    } else if key < m.entry.key {
      DeleteNodes(m.left, key);
    } else {
      DeleteNodes(m.right, key);
    }
  }

  /** No node stands in the tree twice, and each stands under its own key. */
  ghost predicate Distinct<V>(m: Tree<Node<V>>) {
    m.Bin? ==>
      && m.entry.key == m.entry.item.key
      && Distinct(m.left) && Distinct(m.right) && Nodes(m.left) !! Nodes(m.right)
      && m.entry.item !in Nodes(m.left) && m.entry.item !in Nodes(m.right)
  }

  lemma {:induction false} IsDistinct<V>(t: Node?<V>, m: Tree<Node<V>>)
    requires Is(t, m)
    ensures Distinct(m)
    decreases m
  {
    if m.Bin? {
      IsDistinct(t.left, m.left);
      IsDistinct(t.right, m.right);
    }
  }

  /** `d`, taken from the left subtree, takes over the place of the root `t`. */
  method TakePlace<V>(d: Node<V>, t: Node<V>, ghost m: Tree<Node<V>>, ghost key: Key)
    requires m.Bin? && m.left.Bin? && m.right.Bin? && Distinct(m) && StopsHere(m, key) && t == m.entry.item
    requires d == Delete(m.left, NextKey(key)).1.item && t.size == Size(m) - 1
    requires Is(t.left, Delete(m.left, NextKey(key)).0) && Is(t.right, m.right)
    modifies d
    ensures Is(d, Delete(m, key).0)
  {
    DeleteNodes(m.left, NextKey(key));
    assert allocated(Nodes(m.right)) && allocated(Nodes(Delete(m.left, NextKey(key)).0));
    d.left := t.left;
    d.right := t.right;
    d.size := t.size;
    assert Is(d.left, Delete(m.left, NextKey(key)).0) && Is(d.right, m.right);
  }

  /** `sbtree_delete` in place computes `Delete`; the node handed back is no longer in the tree. */
  method DeleteInPlace<V>(t: Node<V>, key: Key, ghost m: Tree<Node<V>>) returns (r: Node?<V>, del: Node<V>)
    requires Is(t, m)
    modifies Nodes(m)
    ensures Is(r, Delete(m, key).0) && del == Delete(m, key).1.item
    ensures del in Nodes(m) && Nodes(Delete(m, key).0) == Nodes(m) - {del}
    decreases m
  {
    hide InOrder, Distinct;
    IsDistinct(t, m);
    DeleteNodes(m, key);
    assert Is(t.left, m.left) && Is(t.right, m.right);
    t.size := t.size - 1;
    if key == t.key || (key < t.key && t.left == null) || (key > t.key && t.right == null) {
      if t.left == null || t.right == null {
        del := t;
        r := if t.left != null then t.left else t.right;
      } else {
        assert allocated(Nodes(m.right));
        var d;
        t.left, d := DeleteInPlace(t.left, NextKey(key), m.left);
        assert Is(t.left, Delete(m.left, NextKey(key)).0) && Is(t.right, m.right);
        TakePlace(d, t, m, key);
        r := d;
        del := t;
      }
    } else if key < t.key {
      assert allocated(Nodes(m.right));
      var l;
      l, del := DeleteInPlace(t.left, key, m.left);
      t.left := l;
      assert Is(t.left, Delete(m.left, key).0) && Is(t.right, m.right);
      r := t;
      assert Is(r, Bin(Delete(m.left, key).0, m.entry, m.right));
    } else {
      assert allocated(Nodes(m.left));
      var l;
      l, del := DeleteInPlace(t.right, key, m.right);
      t.right := l;
      assert Is(t.right, Delete(m.right, key).0) && Is(t.left, m.left);
      r := t;
      assert Is(r, Bin(m.left, m.entry, Delete(m.right, key).0));
    }
  }

  /** `sbtree_search` on nodes. */
  function Find<V>(t: Node?<V>, key: Key, ghost m: Tree<Node<V>>): (r: Node?<V>)
    requires Is(t, m)
    reads Nodes(m)
    ensures r == match Search(m, key) { case None => null case Some(e) => e.item }
    decreases m
  {
    if t == null then null
    else if t.key == key then t
    else if t.key > key then assert Is(t.left, m.left); Find(t.left, key, m.left)
    else assert Is(t.right, m.right); Find(t.right, key, m.right)
  }

  /** `sbtree_sequence` with a callback that records its argument. */
  method Sequence<V>(t: Node<V>, ghost m: Tree<Node<V>>) returns (visited: seq<Node<V>>)
    requires Is(t, m)
    ensures |visited| == |InOrder(m)|
    ensures forall i :: 0 <= i < |visited| ==> visited[i] == InOrder(m)[i].item
    decreases m
  {
    assert Is(t.left, m.left) && Is(t.right, m.right) && allocated(Nodes(m.right));
    visited := [];
    if t.left != null {
      visited := Sequence(t.left, m.left);
    }
    visited := visited + [t];
    if t.right != null {
      var after := Sequence(t.right, m.right);
      visited := visited + after;
    }
  }
}
