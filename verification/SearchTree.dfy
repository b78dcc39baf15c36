/**
  Insertion, search and deletion of src/sbtree.c on the tree of `SizeBalancedTree`.

  The order is weak: an equal key is inserted to the left and a rotation can move it to the
  right, so a tree is ordered when its in-order sequence is nondecreasing.
 */
module SearchTree {
  import opened SizeBalancedTree
  import opened Options

  predicate Sorted<T>(s: seq<Entry<T>>) {
    forall i, j :: 0 <= i < j < |s| ==> s[i].key <= s[j].key
  }

  predicate Ordered<T>(t: Tree<T>) {
    Sorted(InOrder(t))
  }

  predicate HasKey<T>(s: seq<Entry<T>>, key: Key) {
    exists i :: 0 <= i < |s| && s[i].key == key
  }

  lemma {:induction false} OrderedParts<T>(t: Tree<T>)
    requires t.Bin? && Ordered(t)
    ensures Ordered(t.left) && Ordered(t.right)
    ensures forall i :: 0 <= i < |InOrder(t.left)| ==> InOrder(t.left)[i].key <= t.entry.key
    ensures forall i :: 0 <= i < |InOrder(t.right)| ==> t.entry.key <= InOrder(t.right)[i].key
  {
    assert InOrder(t) == InOrder(t.left) + [t.entry] + InOrder(t.right);
    hide InOrder;
    SortedParts(InOrder(t.left), t.entry, InOrder(t.right));
  }

  lemma SortedParts<T>(l: seq<Entry<T>>, x: Entry<T>, r: seq<Entry<T>>)
    requires Sorted(l + [x] + r)
    ensures Sorted(l) && Sorted(r)
    ensures forall i :: 0 <= i < |l| ==> l[i].key <= x.key
    ensures forall i :: 0 <= i < |r| ==> x.key <= r[i].key
  {
    var s := l + [x] + r;
    assert forall i :: 0 <= i < |l| ==> s[i] == l[i];
    assert s[|l|] == x;
    assert forall i :: 0 <= i < |r| ==> s[|l| + 1 + i] == r[i];
  }

  lemma {:induction false} ChildrenOrdered<T>(t: Tree<T>)
    requires t.Bin? && Ordered(t)
    ensures Ordered(t.left) && Ordered(t.right)
  {
    OrderedParts(t);
  }

  // ---------- Insertion ----------

  function Insert<T>(t: Tree<T>, e: Entry<T>): (r: Tree<T>)
    ensures r.Bin? && Size(r) == Size(t) + 1
  {
    match t
    case Leaf => Bin(Leaf, e, Leaf)
    case Bin(left, root, right) =>
      if e.key <= root.key then Maintain(Bin(Insert(left, e), root, right), false)
      else Maintain(Bin(left, root, Insert(right, e)), true)
  }

  function InsertAll<T>(es: seq<Entry<T>>): Tree<T> {
    if es == [] then Leaf else Insert(InsertAll(es[..|es| - 1]), es[|es| - 1])
  }

  /** The balance theorem: an insertion into a size-balanced tree gives a size-balanced tree. */
  lemma {:induction false} InsertBalances<T>(t: Tree<T>, e: Entry<T>)
    requires Balanced(t)
    ensures Balanced(Insert(t, e))
  {
    if t.Bin? {
      if e.key <= t.entry.key {
        InsertBalances(t.left, e);
        MaintainBalances(Bin(Insert(t.left, e), t.entry, t.right), false);
      } else {
        InsertBalances(t.right, e);
        MaintainBalances(Bin(t.left, t.entry, Insert(t.right, e)), true);
      }
    }
  }

  lemma {:induction false} InsertAllBalances<T>(es: seq<Entry<T>>)
    ensures Balanced(InsertAll(es)) && Size(InsertAll(es)) == |es|
  {
    if es != [] {
      InsertAllBalances(es[..|es| - 1]);
      InsertBalances(InsertAll(es[..|es| - 1]), es[|es| - 1]);
    }
  }

  /** Puts `e` before the first entry whose key is not smaller. */
  function InsertSorted<T>(s: seq<Entry<T>>, e: Entry<T>): (r: seq<Entry<T>>)
    ensures |r| == |s| + 1
  {
    if s == [] || e.key <= s[0].key then [e] + s else [s[0]] + InsertSorted(s[1..], e)
  }

  lemma {:induction false} InsertSortedLeft<T>(l: seq<Entry<T>>, x: Entry<T>, r: seq<Entry<T>>, e: Entry<T>)
    requires e.key <= x.key
    ensures InsertSorted(l + [x] + r, e) == InsertSorted(l, e) + [x] + r
  {
    var s := l + [x] + r;
    if l != [] && e.key > l[0].key {
      InsertSortedLeft(l[1..], x, r, e);
      assert s[1..] == l[1..] + [x] + r;
    } else {
      assert s[0] == if l == [] then x else l[0];
    }
  }

  lemma {:induction false} InsertSortedRight<T>(l: seq<Entry<T>>, r: seq<Entry<T>>, e: Entry<T>)
    requires forall i :: 0 <= i < |l| ==> l[i].key < e.key
    ensures InsertSorted(l + r, e) == l + InsertSorted(r, e)
  {
    if l == [] {
      assert l + r == r;
    } else {
      InsertSortedRight(l[1..], r, e);
      assert (l + r)[1..] == l[1..] + r;
    }
  }

  lemma {:induction false} InsertSortedSorted<T>(s: seq<Entry<T>>, e: Entry<T>)
    requires Sorted(s)
    ensures Sorted(InsertSorted(s, e))
  {
    if s == [] || e.key <= s[0].key {
    } else {
      InsertSortedSorted(s[1..], e);
      var r := InsertSorted(s[1..], e);
      assert r[0] == e || (|s| > 1 && r[0] == s[1]);
      assert forall i :: 0 <= i < |r| ==> r[0].key <= r[i].key;
    }
  }

  /** Insertion into an ordered tree inserts into its sequence, whatever the tree's shape. */
  lemma {:induction false} InsertOrder<T>(t: Tree<T>, e: Entry<T>)
    requires Ordered(t)
    ensures InOrder(Insert(t, e)) == InsertSorted(InOrder(t), e)
  {
    if t.Bin? {
      OrderedParts(t);
      var l, r := InOrder(t.left), InOrder(t.right);
      if e.key <= t.entry.key {
        InsertOrder(t.left, e);
        InsertSortedLeft(l, t.entry, r, e);
      } else {
        InsertOrder(t.right, e);
        InsertSortedRight(l + [t.entry], r, e);
      }
    }
  }

  /** The entries of `s` with the given key, in order. */
  function Select<T>(s: seq<Entry<T>>, key: Key): seq<Entry<T>> {
    if s == [] then [] else (if s[0].key == key then [s[0]] else []) + Select(s[1..], key)
  }

  function Reverse<T>(s: seq<T>): seq<T> {
    if s == [] then [] else Reverse(s[1..]) + [s[0]]
  }

  lemma SelectStep<T>(s: seq<Entry<T>>, key: Key)
    requires s != []
    ensures Select(s, key) == (if s[0].key == key then [s[0]] else []) + Select(s[1..], key)
  {
  }

  lemma {:induction false} SelectConcat<T>(a: seq<Entry<T>>, b: seq<Entry<T>>, key: Key)
    ensures Select(a + b, key) == Select(a, key) + Select(b, key)
  {
    if a == [] {
      assert a + b == b;
    } else {
      SelectConcat(a[1..], b, key);
      assert (a + b)[0] == a[0] && (a + b)[1..] == a[1..] + b;
      hide Select;
      SelectStep(a + b, key);
      SelectStep(a, key);
    }
  }

  lemma {:induction false} ReverseSnoc<T>(s: seq<T>, x: T)
    ensures Reverse(s + [x]) == [x] + Reverse(s)
  {
    if s != [] {
      ReverseSnoc(s[1..], x);
      assert (s + [x])[1..] == s[1..] + [x];
    }
  }

  lemma {:induction false} SelectInsertSorted<T>(s: seq<Entry<T>>, e: Entry<T>, key: Key)
    requires Sorted(s)
    ensures Select(InsertSorted(s, e), key) == (if e.key == key then [e] else []) + Select(s, key)
  {
    if s == [] || e.key <= s[0].key {
      assert ([e] + s)[1..] == s;
    } else {
      SelectInsertSorted(s[1..], e, key);
      assert InsertSorted(s, e)[1..] == InsertSorted(s[1..], e);
      if e.key == key {
        assert Select(s, key) == Select(s[1..], key);
      } else {
        assert Select(InsertSorted(s[1..], e), key) == Select(s[1..], key);
      }
    }
  }

  lemma {:induction false} SelectNext<T>(init: seq<Entry<T>>, e: Entry<T>, s: seq<Entry<T>>, key: Key)
    requires Sorted(s) && Select(s, key) == Reverse(Select(init, key))
    ensures Select(InsertSorted(s, e), key) == Reverse(Select(init + [e], key))
  {
    SelectStep([e], key);
    assert Select([e], key) == if e.key == key then [e] else [];
    hide *;
    SelectInsertSorted(s, e, key);
    SelectConcat(init, [e], key);
    if e.key == key {
      ReverseSnoc(Select(init, key), e);
    } else {
      assert Select(init, key) + [] == Select(init, key) && [] + Select(s, key) == Select(s, key);
    }
  }

  /**
    What any number of insertions builds, whatever order the keys arrive in: a size-balanced
    tree whose sequence is sorted by key, and in which the entries of one key stand in the
    reverse of the order they were inserted.
   */
  lemma {:induction false} InsertAllSequence<T>(es: seq<Entry<T>>)
    ensures Ordered(InsertAll(es))
    ensures forall key: Key :: Select(InOrder(InsertAll(es)), key) == Reverse(Select(es, key))
  {
    if es != [] {
      var init, e := es[..|es| - 1], es[|es| - 1];
      var s := InOrder(InsertAll(init));
      InsertAllSequence(init);
      InsertOrder(InsertAll(init), e);
      assert InOrder(InsertAll(es)) == InsertSorted(s, e) && Sorted(s) && es == init + [e];
      hide InOrder, InsertAll, InsertSorted, Select, Reverse, Sorted;
      InsertSortedSorted(s, e);
      forall key: Key
        ensures Select(InOrder(InsertAll(es)), key) == Reverse(Select(es, key))
      {
        SelectNext(init, e, s, key);
      }
    }
  }

  /** Insertion sort with `InsertSorted`. */
  function SortAll<T>(es: seq<Entry<T>>): seq<Entry<T>> {
    if es == [] then [] else InsertSorted(SortAll(es[..|es| - 1]), es[|es| - 1])
  }

  lemma {:induction false} InsertAllSorts<T>(es: seq<Entry<T>>)
    ensures InOrder(InsertAll(es)) == SortAll(es) && Sorted(SortAll(es))
  {
    if es != [] {
      InsertAllSorts(es[..|es| - 1]);
      InsertOrder(InsertAll(es[..|es| - 1]), es[|es| - 1]);
      InsertSortedSorted(SortAll(es[..|es| - 1]), es[|es| - 1]);
    }
  }

  lemma {:induction false} InsertSortedElements<T>(s: seq<Entry<T>>, e: Entry<T>)
    ensures multiset(InsertSorted(s, e)) == multiset(s) + multiset{e}
  {
    if s == [] || e.key <= s[0].key {
    } else {
      InsertSortedElements(s[1..], e);
      assert s == [s[0]] + s[1..];
    }
  }

  lemma {:induction false} SortAllElements<T>(es: seq<Entry<T>>)
    ensures multiset(SortAll(es)) == multiset(es)
  {
    if es != [] {
      var (init, last) := (es[..|es| - 1], es[|es| - 1]);
      assert SortAll(es) == InsertSorted(SortAll(init), last) && es == init + [last];
      hide *;
      SortAllElements(init);
      InsertSortedElements(SortAll(init), last);
    }
  }

  /** The same keys with other items. */
  function MapItems<A, B>(es: seq<Entry<A>>, f: A -> B): (r: seq<Entry<B>>)
    ensures |r| == |es| && forall i :: 0 <= i < |es| ==> r[i] == Entry(es[i].key, f(es[i].item))
  {
    if es == [] then [] else [Entry(es[0].key, f(es[0].item))] + MapItems(es[1..], f)
  }

  lemma {:induction false} MapInsertSorted<A, B>(s: seq<Entry<A>>, e: Entry<A>, f: A -> B)
    ensures MapItems(InsertSorted(s, e), f) == InsertSorted(MapItems(s, f), Entry(e.key, f(e.item)))
  {
    if s == [] || e.key <= s[0].key {
    } else {
      MapInsertSorted(s[1..], e, f);
      assert MapItems(s, f)[1..] == MapItems(s[1..], f);
    }
  }

  /** Sorting looks at the keys only. */
  lemma {:induction false} MapSortAll<A, B>(es: seq<Entry<A>>, f: A -> B)
    ensures MapItems(SortAll(es), f) == SortAll(MapItems(es, f))
  {
    if es != [] {
      var (init, last) := (es[..|es| - 1], es[|es| - 1]);
      MapSortAll(init, f);
      MapInsertSorted(SortAll(init), last, f);
      assert MapItems(es, f)[..|es| - 1] == MapItems(init, f);
    }
  }

  // ---------- Depth ----------

  function Fib(n: nat): nat {
    if n < 2 then n else Fib(n - 1) + Fib(n - 2)
  }

  lemma {:induction false} FibMonotone(m: nat, n: nat)
    requires m <= n
    ensures Fib(m) <= Fib(n)
    decreases n - m
  {
    if m < n {
      FibMonotone(m + 1, n);
    }
  }

  /** The tallest grandchild is no larger than the shorter child. */
  lemma TallPath<T>(t: Tree<T>) returns (tall: Tree<T>, deep: Tree<T>)
    requires t.Bin? && Balanced(t)
    ensures Balanced(tall) && tall < t && Height(t) == Height(tall) + 1
    ensures tall.Leaf? ==> Height(t) == 1 && Size(t) >= 1
    ensures tall.Bin? ==>
      Balanced(deep) && deep < t && Height(tall) == Height(deep) + 1 && Size(tall) + Size(deep) + 1 <= Size(t)
  {
    hide InOrder;
    tall := if Height(t.left) >= Height(t.right) then t.left else t.right;
    deep := Leaf;
    if tall.Bin? {
      deep := if Height(tall.left) >= Height(tall.right) then tall.left else tall.right;
    }
  }

  lemma FibNext(n: nat)
    ensures Fib(n + 2) == Fib(n + 1) + Fib(n)
  {
  }

  /** A size-balanced tree of height h has at least Fib(h + 2) - 1 nodes. */
  lemma {:induction false} HeightBound<T>(t: Tree<T>)
    requires Balanced(t)
    ensures Fib(Height(t) + 2) <= Size(t) + 1
  {
    if t.Leaf? {
      assert Fib(2) == 1;
    } else {
      hide Balanced, Size, InOrder, Height;
      var tall, deep := TallPath(t);
      if tall.Leaf? {
        assert Fib(3) == 2;
      } else {
        hide Fib;
        FibNext(Height(tall) + 1);
        HeightBound(tall);
        HeightBound(deep);
      }
    }
  }

  // ---------- Search ----------

  function Search<T>(t: Tree<T>, key: Key): (r: Option<Entry<T>>)
  {
    match t
    case Leaf => None
    case Bin(left, root, right) =>
      if root.key == key then Some(root)
      else Search(if root.key > key then left else right, key)
  }

  /** The number of nodes `sbtree_search` looks at. */
  function Probes<T>(t: Tree<T>, key: Key): nat {
    match t
    case Leaf => 0
    case Bin(left, root, right) =>
      if root.key == key then 1
      else 1 + Probes(if root.key > key then left else right, key)
  }

  /** Search finds a node with the key exactly when there is one. */
  lemma {:induction false} SearchFinds<T>(t: Tree<T>, key: Key)
    requires Ordered(t)
    ensures Search(t, key).Some? <==> HasKey(InOrder(t), key)
    ensures Search(t, key).Some? ==> Search(t, key).value.key == key && Search(t, key).value in InOrder(t)
  {
    if t.Bin? {
      OrderedParts(t);
      var s, l, r := InOrder(t), InOrder(t.left), InOrder(t.right);
      assert s[|l|] == t.entry;
      assert forall i :: 0 <= i < |l| ==> s[i] == l[i];
      assert forall i :: 0 <= i < |r| ==> s[|l| + 1 + i] == r[i];
      if t.entry.key > key {
        SearchFinds(t.left, key);
      } else if t.entry.key < key {
        SearchFinds(t.right, key);
        forall i | 0 <= i < |s| && s[i].key == key
          ensures HasKey(r, key)
        {
          assert s[i] == r[i - |l| - 1];
        }
      }
    }
  }

  lemma {:induction false} ProbesAtMostHeight<T>(t: Tree<T>, key: Key)
    ensures Probes(t, key) <= Height(t)
  {
    if t.Bin? {
      ProbesAtMostHeight(t.left, key);
      ProbesAtMostHeight(t.right, key);
    }
  }

  /** After n insertions a search that looks at p nodes has Fib(p + 2) <= n + 1. */
  lemma {:induction false} SearchIsLogarithmic<T>(es: seq<Entry<T>>, key: Key)
    ensures Fib(Probes(InsertAll(es), key) + 2) <= |es| + 1
  {
    hide Fib, Height, Probes, Insert, Balanced, InOrder;
    var t := InsertAll(es);
    InsertAllBalances(es);
    HeightBound(t);
    ProbesAtMostHeight(t, key);
    FibMonotone(Probes(t, key) + 2, Height(t) + 2);
  }

  // ---------- Deletion ----------

  /** `key + 1` in `size_t` arithmetic. */
  function NextKey(key: Key): Key {
    if key + 1 == KEY_LIMIT then 0 else key + 1
  }

  /** The condition under which `sbtree_delete` stops at the root of `t`. */
  predicate StopsHere<T>(t: Tree<T>, key: Key)
    requires t.Bin?
  {
    || key == t.entry.key
    || (key < t.entry.key && t.left.Leaf?)
    || (key > t.entry.key && t.right.Leaf?)
  }

  /**
    `sbtree_delete`: the remaining tree and the node taken out.  Deleting from an empty tree
    is not defined there either.
   */
  function Delete<T>(t: Tree<T>, key: Key): (r: (Tree<T>, Entry<T>))
    requires t.Bin?
    ensures Size(r.0) == Size(t) - 1
    decreases t
  {
    var Bin(left, root, right) := t;
    if StopsHere(t, key) then
      if left.Leaf? || right.Leaf? then (if left.Bin? then left else right, root)
      else
        var (rest, del) := Delete(left, NextKey(key));
        (Bin(rest, del, right), root)
    else if key < root.key then
      var (rest, del) := Delete(left, key);
      (Bin(rest, root, right), del)
    else
      var (rest, del) := Delete(right, key);
      (Bin(left, root, rest), del)
  }

  lemma Taken<T>(l: seq<T>, l': seq<T>, x: T, r: seq<T>, d: T)
    requires multiset(l) == multiset(l') + multiset{d}
    ensures multiset(l + [x] + r) == multiset(l' + [x] + r) + multiset{d}
    ensures multiset(l + [x] + r) == multiset(l' + [d] + r) + multiset{x}
    ensures multiset(r + [x] + l) == multiset(r + [x] + l') + multiset{d}
  {
  }

  /** On every tree, ordered or not, and for every key, exactly the returned node leaves. */
  lemma {:induction false} DeleteConserves<T>(t: Tree<T>, key: Key)
    requires t.Bin?
    ensures multiset(InOrder(t)) == multiset(InOrder(Delete(t, key).0)) + multiset{Delete(t, key).1}
    decreases t
  {
    DeleteSequence(t, key);
    var (l, x, r) := (InOrder(t.left), t.entry, InOrder(t.right));
    assert InOrder(t) == l + [x] + r;
    hide InOrder;
    if StopsHere(t, key) {
      if t.left.Bin? && t.right.Bin? {
        DeleteConserves(t.left, NextKey(key));
        var (rest, d) := Delete(t.left, NextKey(key));
        hide Delete;
        Taken(l, InOrder(rest), x, r, d);
      }
    } else if key < x.key {
      DeleteConserves(t.left, key);
      var (rest, d) := Delete(t.left, key);
      hide Delete;
      Taken(l, InOrder(rest), x, r, d);
    } else {
      DeleteConserves(t.right, key);
      var (rest, d) := Delete(t.right, key);
      hide Delete;
      Taken(r, InOrder(rest), x, l, d);
    }
  }

  /** The subtree at which `sbtree_delete` stops. */
  function StopAt<T>(t: Tree<T>, key: Key): (r: Tree<T>)
    requires t.Bin?
    ensures r.Bin? && StopsHere(r, key)
  {
    if StopsHere(t, key) then t
    else StopAt(if key < t.entry.key then t.left else t.right, key)
  }

  function Without<T>(s: seq<T>, k: nat): (r: seq<T>)
    requires k < |s|
  {
    s[..k] + s[k + 1..]
  }

  /**
    Which entry a deletion picks: one with the key if there is one, and otherwise one that
    would stand next to the key.
   */
  predicate Picks<T>(s: seq<Entry<T>>, key: Key, k: nat) {
    && k < |s|
    && (HasKey(s, key) ==> s[k].key == key)
    && (s[k].key < key ==> k + 1 == |s| || s[k + 1].key > key)
    && (s[k].key > key ==> k == 0 || s[k - 1].key < key)
  }

  /** The increment of the key wraps at a node that has two children. */
  predicate Wraps<T>(t: Tree<T>, key: Key)
    requires t.Bin?
  {
    var stop := StopAt(t, key);
    key + 1 == KEY_LIMIT && stop.left.Bin? && stop.right.Bin?
  }

  /** `s'` is `s` without its entry number `k`, which is `del` and is a rightful pick. */
  ghost predicate Removed<T>(s: seq<Entry<T>>, key: Key, k: nat, del: Entry<T>, s': seq<Entry<T>>) {
    Picks(s, key, k) && del == s[k] && s' == Without(s, k)
  }

  lemma RemovedRoot<T>(l: seq<Entry<T>>, x: Entry<T>, r: seq<Entry<T>>, key: Key)
    requires Sorted(l + [x] + r)
    requires key == x.key || (key < x.key && l == []) || (key > x.key && r == [])
    ensures Removed(l + [x] + r, key, |l|, x, l + r)
  {
    var s := l + [x] + r;
    assert s[|l|] == x;
    if key < x.key {
      assert forall i :: 0 <= i < |s| ==> s[0].key <= s[i].key;
    } else if key > x.key {
      assert forall i :: 0 <= i < |s| ==> s[i].key <= s[|s| - 1].key;
    }
  }

  lemma RemovedInLeft<T>(l: seq<Entry<T>>, x: Entry<T>, r: seq<Entry<T>>, key: Key, k: nat, del: Entry<T>, l': seq<Entry<T>>)
    requires Sorted(l + [x] + r) && key < x.key && Removed(l, key, k, del, l')
    ensures Removed(l + [x] + r, key, k, del, l' + [x] + r)
  {
    var s := l + [x] + r;
    assert s[|l|] == x;
    if i :| 0 <= i < |s| && s[i].key == key {
      assert i < |l| && l[i].key == key;
    }
  }

  lemma RemovedInRight<T>(l: seq<Entry<T>>, x: Entry<T>, r: seq<Entry<T>>, key: Key, k: nat, del: Entry<T>, r': seq<Entry<T>>)
    requires Sorted(l + [x] + r) && x.key < key && Removed(r, key, k, del, r')
    ensures Removed(l + [x] + r, key, |l| + 1 + k, del, l + [x] + r')
  {
    var s := l + [x] + r;
    assert s[|l|] == x && s[|l| + 1 + k] == r[k];
    assert k > 0 ==> s[|l| + k] == r[k - 1];
    assert k + 1 < |r| ==> s[|l| + 2 + k] == r[k + 1];
    if i :| 0 <= i < |s| && s[i].key == key {
      assert i > |l| && r[i - |l| - 1].key == key;
    }
  }

  /** A key above all the others picks the last entry, which then stands in for the root. */
  lemma RemovedLast<T>(l: seq<Entry<T>>, x: Entry<T>, r: seq<Entry<T>>, key: Key, k: nat, del: Entry<T>, l': seq<Entry<T>>)
    requires Sorted(l + [x] + r) && x.key < key && Removed(l, key, k, del, l')
    ensures l' + [del] + r == l + r
  {
    var s := l + [x] + r;
    assert s[|l|] == x;
    assert forall i :: 0 <= i < |l| ==> s[i] == l[i];
    assert k == |l| - 1;
  }

  /** The sequence after a deletion, from the sequence after the recursive call. */
  lemma {:induction false} DeleteSequence<T>(t: Tree<T>, key: Key)
    requires t.Bin?
    ensures
      var (l, x, r) := (InOrder(t.left), t.entry, InOrder(t.right));
      var (rest, del) := Delete(t, key);
      if StopsHere(t, key) then
        && del == x
        && (t.left.Leaf? || t.right.Leaf? ==> InOrder(rest) == l + r)
        && (t.left.Bin? && t.right.Bin? ==>
              var (rest', del') := Delete(t.left, NextKey(key));
              InOrder(rest) == InOrder(rest') + [del'] + r)
      else if key < x.key then
        InOrder(rest) == InOrder(Delete(t.left, key).0) + [x] + r && del == Delete(t.left, key).1
      else
        InOrder(rest) == l + [x] + InOrder(Delete(t.right, key).0) && del == Delete(t.right, key).1
  {
    if t.left.Leaf? {
      assert InOrder(t.left) + InOrder(t.right) == InOrder(t.right);
    } else if t.right.Leaf? {
      assert InOrder(t.left) + InOrder(t.right) == InOrder(t.left);
    }
  }

  /** A key above the root stops, in the left subtree, at a node without a right child. */
  lemma {:induction false} StopsAtRightEnd<T>(t: Tree<T>, key: Key)
    requires t.Bin? && forall e :: e in InOrder(t) ==> e.key < key
    ensures StopAt(t, key).right.Leaf?
    decreases t
  {
    assert t.entry in InOrder(t);
    if !StopsHere(t, key) {
      StopsAtRightEnd(t.right, key);
    }
  }

  lemma {:induction false} LeftBelow<T>(t: Tree<T>, key: Key)
    requires t.Bin? && Ordered(t) && t.entry.key < key
    ensures forall e :: e in InOrder(t.left) ==> e.key < key
  {
    OrderedParts(t);
  }

  ghost predicate DeleteRemovesAt<T>(t: Tree<T>, key: Key, k: nat)
    requires t.Bin?
  {
    Removed(InOrder(t), key, k, Delete(t, key).1, InOrder(Delete(t, key).0))
  }

  lemma {:induction false} RemovesAtRoot<T>(t: Tree<T>, key: Key, j: nat)
    requires t.Bin? && Ordered(t) && StopsHere(t, key)
    requires t.left.Bin? && t.right.Bin? ==> key + 1 < KEY_LIMIT && DeleteRemovesAt(t.left, key + 1, j)
    ensures DeleteRemovesAt(t, key, |InOrder(t.left)|)
  {
    var (l, x, r) := (InOrder(t.left), t.entry, InOrder(t.right));
    DeleteSequence(t, key);
    RemovedRoot(l, x, r, key);
    if t.left.Bin? && t.right.Bin? {
      var (rest, del) := Delete(t.left, key + 1);
      RemovedLast(l, x, r, key + 1, j, del, InOrder(rest));
    }
  }

  lemma {:induction false} RemovesInLeft<T>(t: Tree<T>, key: Key, j: nat)
    requires t.Bin? && Ordered(t) && !StopsHere(t, key) && key < t.entry.key
    requires DeleteRemovesAt(t.left, key, j)
    ensures DeleteRemovesAt(t, key, j)
  {
    var l' := InOrder(Delete(t.left, key).0);
    var del := Delete(t.left, key).1;
    RemovedInLeft(InOrder(t.left), t.entry, InOrder(t.right), key, j, del, l');
    DeleteSequence(t, key);
    assert Delete(t, key).1 == del && InOrder(Delete(t, key).0) == l' + [t.entry] + InOrder(t.right);
  }

  lemma {:induction false} RemovesInRight<T>(t: Tree<T>, key: Key, j: nat)
    requires t.Bin? && Ordered(t) && !StopsHere(t, key) && key > t.entry.key
    requires DeleteRemovesAt(t.right, key, j)
    ensures DeleteRemovesAt(t, key, |InOrder(t.left)| + 1 + j)
  {
    var r' := InOrder(Delete(t.right, key).0);
    var del := Delete(t.right, key).1;
    RemovedInRight(InOrder(t.left), t.entry, InOrder(t.right), key, j, del, r');
    DeleteSequence(t, key);
    assert Delete(t, key).1 == del && InOrder(Delete(t, key).0) == InOrder(t.left) + [t.entry] + r';
  }

  lemma WrapsBelow<T>(t: Tree<T>, key: Key)
    requires t.Bin?
    ensures StopsHere(t, key) ==> (Wraps(t, key) <==> key + 1 == KEY_LIMIT && t.left.Bin? && t.right.Bin?)
    ensures !StopsHere(t, key) && key < t.entry.key ==> t.left.Bin? && (Wraps(t.left, key) <==> Wraps(t, key))
    ensures !StopsHere(t, key) && key >= t.entry.key ==> key > t.entry.key && t.right.Bin? && (Wraps(t.right, key) <==> Wraps(t, key))
  {
  }

  lemma NoWrapInLeft<T>(t: Tree<T>, key: Key)
    requires t.Bin? && Ordered(t) && StopsHere(t, key) && t.left.Bin? && t.right.Bin? && key + 1 < KEY_LIMIT
    ensures !Wraps(t.left, key + 1)
  {
    LeftBelow(t, key + 1);
    hide Ordered, InOrder;
    StopsAtRightEnd(t.left, key + 1);
  }

  /** Without a wrap, deletion takes one entry out of the sequence and leaves the rest as it was. */
  lemma {:induction false} DeleteRemoves<T>(t: Tree<T>, key: Key) returns (k: nat)
    requires t.Bin? && Ordered(t) && !Wraps(t, key)
    ensures DeleteRemovesAt(t, key, k)
    decreases t
  {
    hide *;
    ChildrenOrdered(t);
    WrapsBelow(t, key);
    if StopsHere(t, key) {
      k := |InOrder(t.left)|;
      var j := 0;
      if t.left.Bin? && t.right.Bin? {
        NoWrapInLeft(t, key);
        j := DeleteRemoves(t.left, key + 1);
      }
      RemovesAtRoot(t, key, j);
    } else if key < t.entry.key {
      k := DeleteRemoves(t.left, key);
      RemovesInLeft(t, key, k);
    } else {
      var j := DeleteRemoves(t.right, key);
      k := |InOrder(t.left)| + 1 + j;
      RemovesInRight(t, key, j);
    }
  }

  /** The left subtree of the node where deletion stops holds more than one key. */
  predicate SpansKeys<T>(l: seq<Entry<T>>) {
    l != [] && l[0].key != l[|l| - 1].key
  }

  lemma WithoutSorted<T>(s: seq<Entry<T>>, k: nat)
    requires Sorted(s) && k < |s|
    ensures Sorted(Without(s, k))
  {
    assert forall i :: 0 <= i < |s| - 1 ==> Without(s, k)[i] == s[if i < k then i else i + 1];
  }

  /** Moving the smallest entry of `l` behind the others keeps the order only if all are equal. */
  lemma MovedToEnd<T>(l: seq<Entry<T>>, x: Entry<T>, r: seq<Entry<T>>, j: nat)
    requires Sorted(l + [x] + r) && Picks(l, 0, j)
    ensures Sorted(Without(l, j) + [l[j]] + r) <==> !SpansKeys(l)
  {
    var t := l + [x] + r;
    assert forall i :: 0 <= i < |l| ==> t[i] == l[i];
    assert t[|l|] == x && forall i :: 0 <= i < |r| ==> t[|l| + 1 + i] == r[i];
    var s := Without(l, j) + [l[j]] + r;
    assert l[j].key == l[0].key by {
      if l[j].key == 0 {
        assert l[0].key <= l[j].key;
      } else {
        assert j == 0;
      }
    }
    assert forall i :: 0 <= i < |l| - 1 ==> s[i] == l[if i < j then i else i + 1];
    assert s[|l| - 1] == l[j];
    assert forall i :: |l| <= i < |s| ==> s[i] == t[i + 1];
    if SpansKeys(l) {
      assert s[|l| - 2] == l[|l| - 1];
    } else {
      assert forall i :: 0 <= i < |l| ==> s[i].key == l[0].key;
    }
  }

  lemma SortedJoin<T>(l: seq<Entry<T>>, x: Entry<T>, r: seq<Entry<T>>, r': seq<Entry<T>>)
    requires Sorted(l + [x] + r) && forall e :: e in r' ==> e in r
    ensures Sorted(l + [x] + r') <==> Sorted(r')
  {
    var (s, s') := (l + [x] + r, l + [x] + r');
    assert s[|l|] == x && s'[|l|] == x;
    forall i | 0 <= i < |r'|
      ensures x.key <= r'[i].key && s'[|l| + 1 + i] == r'[i]
    {
      assert r'[i] in r;
      var k :| 0 <= k < |r| && r[k] == r'[i];
      assert s[|l| + 1 + k] == r[k];
    }
    assert forall i :: 0 <= i <= |l| ==> s'[i] == s[i];
  }

  lemma KeyOnRight<T>(l: seq<Entry<T>>, x: Entry<T>, r: seq<Entry<T>>, key: Key)
    requires Sorted(l + [x] + r) && x.key < key && HasKey(l + [x] + r, key)
    ensures HasKey(r, key)
  {
    var s := l + [x] + r;
    assert s[|l|] == x;
    var i :| 0 <= i < |s| && s[i].key == key;
    assert i > |l| && r[i - |l| - 1] == s[i];
  }

  lemma {:induction false} RemainingEntries<T>(t: Tree<T>, key: Key)
    requires t.Bin?
    ensures forall e :: e in InOrder(Delete(t, key).0) ==> e in InOrder(t)
  {
    var (rest, del) := Delete(t, key);
    DeleteConserves(t, key);
    forall e | e in InOrder(rest)
      ensures e in InOrder(t)
    {
      assert e in multiset(InOrder(rest)) && e in multiset(InOrder(t));
    }
  }

  /**
    Deletion returns a node with the key whenever there is one, and it keeps the tree ordered
    except when `key + 1` wraps to 0 at a node with two children whose left subtree holds
    different keys: then the node with the smallest key, not the largest, takes its place.
   */
  lemma {:induction false} DeleteKeepsOrder<T>(t: Tree<T>, key: Key)
    requires t.Bin? && Ordered(t)
    ensures HasKey(InOrder(t), key) ==> Delete(t, key).1.key == key
    ensures Ordered(Delete(t, key).0) <==> !(Wraps(t, key) && SpansKeys(InOrder(StopAt(t, key).left)))
    decreases t
  {
    if !Wraps(t, key) {
      var k := DeleteRemoves(t, key);
      WithoutSorted(InOrder(t), k);
    } else {
      var (l, x, r) := (InOrder(t.left), t.entry, InOrder(t.right));
      assert InOrder(t) == l + [x] + r && Ordered(t.left) && Ordered(t.right) by {
        OrderedParts(t);
      }
      DeleteSequence(t, key);
      if StopsHere(t, key) {
        var j := DeleteRemoves(t.left, 0);
        MovedToEnd(l, x, r, j);
      } else {
        DeleteKeepsOrder(t.right, key);
        RemainingEntries(t.right, key);
        SortedJoin(l, x, r, InOrder(Delete(t.right, key).0));
        if HasKey(InOrder(t), key) {
          KeyOnRight(l, x, r, key);
        }
      }
    }
  }

  /** Deleting the largest key value from a tree with the keys 1, 2, max, max leaves 2, 1, max. */
  lemma DeleteWrapExample()
    ensures
      var top := KEY_LIMIT - 1;
      var t := Bin(Bin(Leaf, Entry(1, 'a'), Bin(Leaf, Entry(2, 'b'), Leaf)), Entry(top, 'c'), Bin(Leaf, Entry(top, 'd'), Leaf));
      Ordered(t) && InOrder(Delete(t, top).0) == [Entry(2, 'b'), Entry(1, 'a'), Entry(top, 'd')]
  {
    var l := Bin(Leaf, Entry(1, 'a'), Bin(Leaf, Entry(2, 'b'), Leaf));
    assert Delete(l, 0) == (Bin(Leaf, Entry(2, 'b'), Leaf), Entry(1, 'a'));
  }
}
