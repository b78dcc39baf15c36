/**
  The size-balanced tree of src/sbtree.c as a value.

  The tree nodes of the repository carry `left`, `right` and `size` and are rewritten in
  place; `TreeNodes` models that and refines the functions below.  Here the shape is a
  datatype, `size` is the function `Size`, and every structural law is proved once.
 */
module SizeBalancedTree {

  /** `size_t` is 32 bits wide on the ARM board the program runs on. */
  const KEY_LIMIT: nat := 0x1_0000_0000

  type Key = k: nat | k < KEY_LIMIT

  /** One stored node: its key (what `getkey` returns) and its identity. */
  datatype Entry<+T> = Entry(key: Key, item: T)

  datatype Tree<+T> = Leaf | Bin(left: Tree<T>, entry: Entry<T>, right: Tree<T>)

  function Max(a: nat, b: nat): nat {
    if a < b then b else a
  }

  function Size<T>(t: Tree<T>): nat {
    match t
    case Leaf => 0
    case Bin(l, _, r) => Size(l) + Size(r) + 1
  }

  /** The nodes in the order `sbtree_sequence` visits them. */
  function InOrder<T>(t: Tree<T>): seq<Entry<T>> {
    match t
    case Leaf => []
    case Bin(l, e, r) => InOrder(l) + [e] + InOrder(r)
  }

  /** The sum of all subtree sizes: what every rotation of `sbtree_maintain` lowers. */
  function Weight<T>(t: Tree<T>): nat {
    match t
    case Leaf => 0
    case Bin(l, _, r) => Weight(l) + Weight(r) + Size(t)
  }

  function Height<T>(t: Tree<T>): nat {
    match t
    case Leaf => 0
    case Bin(l, _, r) => 1 + Max(Height(l), Height(r))
  }

  /** The size of the larger child. */
  function MaxChild<T>(t: Tree<T>): nat {
    match t
    case Leaf => 0
    case Bin(l, _, r) => Max(Size(l), Size(r))
  }

  /** No child is smaller than a child of its sibling. */
  predicate Balanced<T>(t: Tree<T>) {
    match t
    case Leaf => true
    case Bin(l, _, r) =>
      Balanced(l) && Balanced(r) && MaxChild(r) <= Size(l) && MaxChild(l) <= Size(r)
  }

  // ---------- Rotations ----------

  function RotateLeft<T>(t: Tree<T>): (r: Tree<T>)
    requires t.Bin? && t.right.Bin?
    ensures InOrder(r) == InOrder(t) && Size(r) == Size(t)
  {
    var Bin(a, x, Bin(b, y, c)) := t;
    assert (InOrder(a) + [x] + InOrder(b)) + [y] + InOrder(c) == InOrder(a) + [x] + (InOrder(b) + [y] + InOrder(c));
    Bin(Bin(a, x, b), y, c)
  }

  function RotateRight<T>(t: Tree<T>): (r: Tree<T>)
    requires t.Bin? && t.left.Bin?
    ensures InOrder(r) == InOrder(t) && Size(r) == Size(t)
  {
    var Bin(Bin(a, x, b), y, c) := t;
    assert (InOrder(a) + [x] + InOrder(b)) + [y] + InOrder(c) == InOrder(a) + [x] + (InOrder(b) + [y] + InOrder(c));
    Bin(a, x, Bin(b, y, c))
  }

  /** The outer grandchild on the heavy side outweighs the other child (cases 1 and 1'). */
  predicate OuterHeavy<T>(t: Tree<T>, flag: bool)
    requires t.Bin?
  {
    if flag then t.right.Bin? && Size(t.right.right) > Size(t.left)
    else t.left.Bin? && Size(t.left.left) > Size(t.right)
  }

  /** The inner grandchild on the heavy side outweighs the other child (cases 2 and 2'). */
  predicate InnerHeavy<T>(t: Tree<T>, flag: bool)
    requires t.Bin?
  {
    if flag then t.right.Bin? && Size(t.right.left) > Size(t.left)
    else t.left.Bin? && Size(t.left.right) > Size(t.right)
  }

  /** The rotation `sbtree_maintain` starts with. */
  function Rotate<T>(t: Tree<T>, flag: bool): (r: Tree<T>)
    requires t.Bin? && (OuterHeavy(t, flag) || InnerHeavy(t, flag))
    ensures r.Bin? && r.left.Bin? && r.right.Bin?
    ensures InOrder(r) == InOrder(t) && Size(r) == Size(t) && Weight(r) < Weight(t)
  {
    if !flag then
      if OuterHeavy(t, flag) then RotateRight(t)
      else
        var u := Bin(RotateLeft(t.left), t.entry, t.right);
        assert Weight(u.left) <= Weight(t.left) + Size(t.left.right.left) + Size(t.left.left) + 1 - Size(t.left.right);
        RotateRight(u)
    else
      if OuterHeavy(t, flag) then RotateLeft(t)
      else
        var u := Bin(t.left, t.entry, RotateRight(t.right));
        assert Weight(u.right) <= Weight(t.right) + Size(t.right.left.right) + Size(t.right.right) + 1 - Size(t.right.left);
        RotateLeft(u)
  }

  // ---------- Maintain ----------

  /**
    `sbtree_maintain`.  It terminates on every tree, balanced or not, and changes neither the
    sequence of nodes nor the size.
   */
  function Maintain<T>(t: Tree<T>, flag: bool): (r: Tree<T>)
    requires t.Bin?
    ensures r.Bin? && InOrder(r) == InOrder(t) && Size(r) == Size(t) && Weight(r) <= Weight(t)
    decreases Weight(t), 0
  {
    if OuterHeavy(t, flag) || InnerHeavy(t, flag) then Settle(Rotate(t, flag)) else t
  }

  /** The four recursive calls that follow a rotation. */
  function Settle<T>(t: Tree<T>): (r: Tree<T>)
    requires t.Bin? && t.left.Bin? && t.right.Bin?
    ensures r.Bin? && InOrder(r) == InOrder(t) && Size(r) == Size(t) && Weight(r) <= Weight(t)
    decreases Weight(t), 1
  {
    var l := Maintain(t.left, false);
    var r := Maintain(t.right, true);
    Maintain(Maintain(Bin(l, t.entry, r), false), true)
  }

  /**
    What a call with `flag` relies on: both children are balanced, the side `flag` does not
    look at is not too heavy, and the side it does look at is at most about three times as big.
   */
  predicate Mendable<T>(t: Tree<T>, flag: bool) {
    && t.Bin? && Balanced(t.left) && Balanced(t.right)
    && (if flag then MaxChild(t.left) <= Size(t.right) <= 3 * Size(t.left) + 2
        else MaxChild(t.right) <= Size(t.left) <= 3 * Size(t.right) + 2)
  }

  lemma {:induction false} MaintainKeepsBalanced<T>(t: Tree<T>, flag: bool)
    requires t.Bin? && Balanced(t)
    ensures Maintain(t, flag) == t
  {
    hide InOrder, Weight, Rotate;
  }

  /** Children that are balanced or mendable, and a root that can then be finished off. */
  predicate Settleable<T>(t: Tree<T>) {
    && t.Bin? && t.left.Bin? && t.right.Bin?
    && (Balanced(t.left) || Mendable(t.left, false))
    && (Balanced(t.right) || Mendable(t.right, true))
    && ((MaxChild(t.left) <= Size(t.right) && MaxChild(t.right) <= Size(t.left))
        || (MaxChild(t.left) <= Size(t.right) <= 3 * Size(t.left) + 2)
        || (MaxChild(t.right) <= Size(t.left) <= 3 * Size(t.right) + 2))
  }

  /** In a balanced tree neither child has more than about two thirds of the nodes. */
  lemma {:induction false} ChildShare<T>(t: Tree<T>)
    requires t.Bin? && Balanced(t)
    ensures Size(t.left) <= 2 * Size(t.right) + 1 && Size(t.right) <= 2 * Size(t.left) + 1
    ensures 3 * MaxChild(t) + 1 <= 2 * Size(t)
  {
    assert MaxChild(t.left) <= Size(t.right) && MaxChild(t.right) <= Size(t.left);
  }

  lemma {:induction false} OuterRotationSettleableLeft<T>(t: Tree<T>)
    requires Mendable(t, false) && OuterHeavy(t, false) && Size(t.left.right) <= Size(t.left.left)
    ensures Settleable(Rotate(t, false)) && MaxChild(Rotate(t, false)) <= MaxChild(t)
  {
    var Bin(Bin(a, x, b), y, c) := t;
    assert Rotate(t, false) == Bin(a, x, Bin(b, y, c));
    assert Balanced(a) && Balanced(b) && Balanced(c);
    ChildShare(t.left);
    if b.Bin? { ChildShare(b); }
    assert Mendable(Bin(b, y, c), true);
  }

  lemma {:induction false} OuterRotationSettleableRight<T>(t: Tree<T>)
    requires Mendable(t, true) && OuterHeavy(t, true) && Size(t.right.left) <= Size(t.right.right)
    ensures Settleable(Rotate(t, true)) && MaxChild(Rotate(t, true)) <= MaxChild(t)
  {
    var Bin(a, x, Bin(b, y, c)) := t;
    assert Rotate(t, true) == Bin(Bin(a, x, b), y, c);
    assert Balanced(a) && Balanced(b) && Balanced(c);
    ChildShare(t.right);
    if b.Bin? { ChildShare(b); }
    assert Mendable(Bin(a, x, b), false);
  }

  /** The sizes a double rotation regroups: the middle tree b + 1 + c is split between a and d. */
  lemma RegroupedSizes(a: nat, b: nat, c: nat, d: nat)
    requires a <= b + c && d <= b + c && b + c <= 2 * a && b + c <= 2 * d
    requires b <= 2 * c + 1 && c <= 2 * b + 1
    ensures a <= 3 * b + 2 && d <= 3 * c + 2
    ensures
      var (l, r) := (a + b + 1, c + d + 1);
      || (Max(a, b) <= r && Max(c, d) <= l)
      || (Max(a, b) <= r <= 3 * l + 2)
      || (Max(c, d) <= l <= 3 * r + 2)
  {
  }

  /** Whatever the flag, a double rotation leaves a tree the four calls can finish off. */
  lemma {:induction false} DoubleRotationSettleable<T>(a: Tree<T>, x: Entry<T>, b: Tree<T>, y: Entry<T>, c: Tree<T>,
                                                       z: Entry<T>, d: Tree<T>)
    requires Balanced(a) && Balanced(Bin(b, y, c)) && Balanced(d)
    requires Size(a) <= Size(b) + Size(c) && Size(d) <= Size(b) + Size(c)
    requires Size(b) + Size(c) <= 2 * Size(a) && Size(b) + Size(c) <= 2 * Size(d)
    ensures Settleable(Bin(Bin(a, x, b), y, Bin(c, z, d)))
  {
    ChildShare(Bin(b, y, c));
    SmallerChildren(b, y, c);
    hide Balanced, MaxChild, Mendable;
    RegroupedSizes(Size(a), Size(b), Size(c), Size(d));
    BothMendable(a, x, b);
    BothMendable(c, z, d);
  }

  lemma SmallerChildren<T>(b: Tree<T>, y: Entry<T>, c: Tree<T>)
    requires Balanced(Bin(b, y, c))
    ensures Balanced(b) && Balanced(c) && 2 * MaxChild(b) <= Size(b) + Size(c) && 2 * MaxChild(c) <= Size(b) + Size(c)
  {
    assert MaxChild(b) <= Size(c) && MaxChild(c) <= Size(b);
  }

  /** A tree with balanced children is mendable on the side that is not too big. */
  lemma BothMendable<T>(a: Tree<T>, x: Entry<T>, b: Tree<T>)
    requires Balanced(a) && Balanced(b)
    ensures MaxChild(b) <= Size(a) <= 3 * Size(b) + 2 ==> Mendable(Bin(a, x, b), false)
    ensures MaxChild(a) <= Size(b) <= 3 * Size(a) + 2 ==> Mendable(Bin(a, x, b), true)
    ensures MaxChild(Bin(a, x, b)) == Max(Size(a), Size(b)) && Size(Bin(a, x, b)) == Size(a) + Size(b) + 1
  {
  }

  lemma {:induction false} InnerRotationSettleable<T>(t: Tree<T>, flag: bool)
    requires Mendable(t, flag) && !OuterHeavy(t, flag) && InnerHeavy(t, flag)
    ensures Settleable(Rotate(t, flag)) && MaxChild(Rotate(t, flag)) <= MaxChild(t)
  {
    hide InOrder, Weight;
    if !flag {
      var Bin(Bin(a, x, Bin(b, y, c)), z, d) := t;
      ChildShare(t.left);
      DoubleRotationSettleable(a, x, b, y, c, z, d);
      assert Size(Bin(a, x, b)) == Size(a) + Size(b) + 1 && Size(Bin(c, z, d)) == Size(c) + Size(d) + 1;
    } else {
      var Bin(a, x, Bin(Bin(b, y, c), z, d)) := t;
      ChildShare(t.right);
      DoubleRotationSettleable(a, x, b, y, c, z, d);
      assert Size(Bin(a, x, b)) == Size(a) + Size(b) + 1 && Size(Bin(c, z, d)) == Size(c) + Size(d) + 1;
    }
  }

  /**
    The case inner grandchild > outer grandchild > other child.  After the single rotation the
    calls on the children and the first call on the whole change nothing; the call on the
    whole that looks at the old inner grandchild rotates it up.
   */
  lemma {:induction false} TallInnerSettleable<T>(t: Tree<T>, flag: bool)
    requires Mendable(t, flag) && OuterHeavy(t, flag)
    requires if flag then Size(t.right.right) < Size(t.right.left) else Size(t.left.left) < Size(t.left.right)
    ensures
      var u := Rotate(t, flag);
      && InnerHeavy(u, !flag) && !OuterHeavy(u, !flag)
      && Settleable(Rotate(u, !flag)) && MaxChild(Rotate(u, !flag)) <= MaxChild(t)
  {
    if !flag {
      hide InOrder, Weight, Maintain;
      var Bin(Bin(a, x, Bin(b, y, c)), z, d) := t;
      assert Size(t.left) == Size(a) + Size(t.left.right) + 1;
      DoubleRotationSettleable(a, x, b, y, c, z, d);
      assert Size(Bin(a, x, b)) == Size(a) + Size(b) + 1 && Size(Bin(c, z, d)) == Size(c) + Size(d) + 1;
    } else {
      hide InOrder, Weight, Maintain;
      var Bin(a, x, Bin(Bin(b, y, c), z, d)) := t;
      assert Size(t.right) == Size(d) + Size(t.right.left) + 1;
      DoubleRotationSettleable(a, x, b, y, c, z, d);
      assert Size(Bin(a, x, b)) == Size(a) + Size(b) + 1 && Size(Bin(c, z, d)) == Size(c) + Size(d) + 1;
    }
  }

  lemma {:induction false} TallInnerUnfolds<T>(t: Tree<T>, flag: bool)
    requires Mendable(t, flag) && OuterHeavy(t, flag)
    requires if flag then Size(t.right.right) < Size(t.right.left) else Size(t.left.left) < Size(t.left.right)
    ensures
      var u := Rotate(t, flag);
      Settle(u) == if flag then Maintain(Maintain(u, false), true) else Maintain(u, true)
  {
    hide InOrder, Weight;
    var u := Rotate(t, flag);
    if !flag {
      MaintainKeepsBalanced(u.left, false);
      assert Maintain(u.right, true) == u.right;
      assert Size(u.right) == Size(u.right.left) + Size(t.right) + 1;
      assert Maintain(u, false) == u;
    } else {
      assert Maintain(u.left, false) == u.left;
      MaintainKeepsBalanced(u.right, true);
    }
  }

  /** One flagged call repairs every mendable tree and does not make its larger child larger. */
  lemma {:induction false} MaintainBalances<T>(t: Tree<T>, flag: bool)
    requires Mendable(t, flag)
    ensures Balanced(Maintain(t, flag)) && MaxChild(Maintain(t, flag)) <= MaxChild(t)
    decreases Weight(t), 0
  {
    hide InOrder;
    if OuterHeavy(t, flag) {
      var u := Rotate(t, flag);
      var (inner, outer) := if flag then (t.right.left, t.right.right) else (t.left.right, t.left.left);
      if Size(inner) <= Size(outer) {
        if flag { OuterRotationSettleableRight(t); } else { OuterRotationSettleableLeft(t); }
        SettleBalances(u);
      } else {
        TallInnerUnfolds(t, flag);
        TallInnerSettleable(t, flag);
        SettleBalances(Rotate(u, !flag));
        if flag { MaintainKeepsBalanced(Maintain(u, false), true); }
      }
    } else if InnerHeavy(t, flag) {
      InnerRotationSettleable(t, flag);
      SettleBalances(Rotate(t, flag));
    }
  }

  lemma {:induction false} ChildSettles<T>(t: Tree<T>, flag: bool)
    requires t.Bin? && (Balanced(t) || Mendable(t, flag))
    ensures Balanced(Maintain(t, flag)) && MaxChild(Maintain(t, flag)) <= MaxChild(t)
    decreases Weight(t), 1
  {
    if Balanced(t) {
      MaintainKeepsBalanced(t, flag);
    } else {
      MaintainBalances(t, flag);
    }
  }

  /** The last two calls, on a root whose children are balanced by then. */
  lemma {:induction false} RootSettles<T>(u: Tree<T>)
    requires Balanced(u) || Mendable(u, false) || Mendable(u, true)
    requires u.Bin?
    ensures Balanced(Maintain(Maintain(u, false), true)) && MaxChild(Maintain(Maintain(u, false), true)) <= MaxChild(u)
    decreases Weight(u), 2
  {
    hide InOrder, Rotate, Weight;
    if Balanced(u) || Mendable(u, false) {
      ChildSettles(u, false);
      MaintainKeepsBalanced(Maintain(u, false), true);
    } else {
      assert Maintain(u, false) == u;
      ChildSettles(u, true);
    }
  }

  lemma {:induction false} SettleBalances<T>(t: Tree<T>)
    requires Settleable(t)
    ensures Balanced(Settle(t)) && MaxChild(Settle(t)) <= MaxChild(t)
    decreases Weight(t), 3
  {
    hide InOrder, Maintain;
    ChildSettles(t.left, false);
    ChildSettles(t.right, true);
    var u := Bin(Maintain(t.left, false), t.entry, Maintain(t.right, true));
    assert Weight(u) <= Weight(t) && MaxChild(u) == MaxChild(t);
    RootSettles(u);
  }
}
