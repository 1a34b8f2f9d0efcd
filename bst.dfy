/**
 * The unbalanced binary search tree of src/algorithms/BinarySearchTree.ts.
 *
 * `BstNode` objects are linked by `left` and `right` and updated in place.
 * Each node carries a ghost footprint `Repr` and a ghost `Model`, the value
 * of the subtree it roots, so that every pointer operation is proved equal
 * to a function on `Tree` values; the ordering and membership properties
 * are proved about those functions.
 */
module BinarySearchTrees {

  datatype Tree = Leaf | Node(left: Tree, value: int, right: Tree)

  function Elements(t: Tree): multiset<int>
  {
    match t
    case Leaf => multiset{}
    case Node(l, x, r) => Elements(l) + multiset{x} + Elements(r)
  }

  function Size(t: Tree): nat
  {
    match t
    case Leaf => 0
    case Node(l, _, r) => Size(l) + 1 + Size(r)
  }

  /** Every value of `t` is below `b`. */
  predicate AllBelow(t: Tree, b: int)
  {
    match t
    case Leaf => true
    case Node(l, x, r) => x < b && AllBelow(l, b) && AllBelow(r, b)
  }

  /** Every value of `t` is at least `b`. */
  predicate AllAtLeast(t: Tree, b: int)
  {
    match t
    case Leaf => true
    case Node(l, x, r) => b <= x && AllAtLeast(l, b) && AllAtLeast(r, b)
  }

  /** The ordering the tree relies on: smaller values to the left, equal or larger ones to the right. */
  predicate IsBst(t: Tree)
  {
    match t
    case Leaf => true
    case Node(l, x, r) => AllBelow(l, x) && AllAtLeast(r, x) && IsBst(l) && IsBst(r)
  }

  lemma {:induction false} BoundsMeanElements(t: Tree, b: int)
    ensures AllBelow(t, b) <==> forall y :: y in Elements(t) ==> y < b
    ensures AllAtLeast(t, b) <==> forall y :: y in Elements(t) ==> b <= y
  {
    match t
    case Leaf =>
    case Node(l, x, r) =>
      BoundsMeanElements(l, b);
      BoundsMeanElements(r, b);
      assert forall y :: y in Elements(t) <==> y in Elements(l) || y == x || y in Elements(r);
  }

  // ---------------------------------------------------------------------
  // The operations on tree values

  /** `insert`/`insertNode`: a new leaf where the descent (smaller left, otherwise right) runs out. */
  function TreeInsert(t: Tree, v: int): Tree
  {
    match t
    case Leaf => Node(Leaf, v, Leaf)
    case Node(l, x, r) => if v < x then Node(TreeInsert(l, v), x, r) else Node(l, x, TreeInsert(r, v))
  }

  /** `searchNode`: follow the ordering; a missing child ends the search with `false`. */
  function TreeSearch(t: Tree, v: int): bool
  {
    match t
    case Leaf => false
    case Node(l, x, r) => if v < x then TreeSearch(l, v) else if v > x then TreeSearch(r, v) else true
  }

  /** `findMinNode(...).value`: the leftmost value. */
  function TreeMin(t: Tree): int
    requires t.Node?
  {
    if t.left.Leaf? then t.value else TreeMin(t.left)
  }

  /**
   * What `removeNode(root, value)` returns. The descent goes left or right
   * only while the needed child exists; where it stops, the node is treated
   * as the match: a leaf is removed, a node with a left child is replaced by
   * that child (dropping any right subtree), otherwise by its right child.
   */
  function TreeRemoveNode(t: Tree, v: int): (r: Tree)
    requires t.Node?
  {
    var Node(l, x, rt) := t;
    if v < x && l.Node? then Node(TreeRemoveNode(l, v), x, rt)
    else if v > x && rt.Node? then Node(l, x, TreeRemoveNode(rt, v))
    else if l.Leaf? && rt.Leaf? then Leaf
    else if l.Node? then l
    else rt
  }

  /** Whether `removeNode` descends from the root rather than treating the root as the match. */
  predicate Descends(t: Tree, v: int)
    requires t.Node?
  {
    (v < t.value && t.left.Node?) || (v > t.value && t.right.Node?)
  }

  /**
   * `remove(value)`: `this.root` is never reassigned, so only the changes
   * made below the root by a descent take effect.
   */
  function TreeRemove(t: Tree, v: int): Tree
  {
    if t.Leaf? then Leaf
    else if Descends(t, v) then TreeRemoveNode(t, v)
    else t
  }

  // ---------------------------------------------------------------------
  // Lemmas

  /** Inserting adds exactly one value and one node. */
  lemma {:induction false} InsertAddsOne(t: Tree, v: int)
    ensures Elements(TreeInsert(t, v)) == Elements(t) + multiset{v}
    ensures Size(TreeInsert(t, v)) == Size(t) + 1
  {
    match t
    case Leaf =>
    case Node(l, x, r) =>
      if v < x {
        InsertAddsOne(l, v);
        assert TreeInsert(t, v) == Node(TreeInsert(l, v), x, r);
      } else {
        InsertAddsOne(r, v);
        assert TreeInsert(t, v) == Node(l, x, TreeInsert(r, v));
      }
  }

  lemma {:induction false} InsertKeepsBounds(t: Tree, v: int, b: int)
    ensures v < b && AllBelow(t, b) ==> AllBelow(TreeInsert(t, v), b)
    ensures b <= v && AllAtLeast(t, b) ==> AllAtLeast(TreeInsert(t, v), b)
  {
    match t
    case Leaf =>
    case Node(l, x, r) =>
      InsertKeepsBounds(l, v, b);
      InsertKeepsBounds(r, v, b);
  }

  /** Inserting keeps the ordering. */
  lemma {:induction false} InsertKeepsBst(t: Tree, v: int)
    requires IsBst(t)
    ensures IsBst(TreeInsert(t, v))
  {
    match t
    case Leaf =>
    case Node(l, x, r) =>
      if v < x {
        InsertKeepsBst(l, v);
        InsertKeepsBounds(l, v, x);
      } else {
        InsertKeepsBst(r, v);
        InsertKeepsBounds(r, v, x);
      }
  }

  /** On an ordered tree the search finds exactly the values present. */
  lemma {:induction false} SearchFindsMembers(t: Tree, v: int)
    requires IsBst(t)
    ensures TreeSearch(t, v) <==> v in Elements(t)
  {
    match t
    case Leaf =>
    case Node(l, x, r) =>
      SearchFindsMembers(l, v);
      SearchFindsMembers(r, v);
      BoundsMeanElements(l, x);
      BoundsMeanElements(r, x);
  }

  /** On an ordered tree the leftmost value is present and no value is smaller. */
  lemma {:induction false} MinIsLeast(t: Tree)
    requires t.Node? && IsBst(t)
    ensures TreeMin(t) in Elements(t)
    ensures forall y :: y in Elements(t) ==> TreeMin(t) <= y
  {
    BoundsMeanElements(t.left, t.value);
    BoundsMeanElements(t.right, t.value);
    if t.left.Node? {
      MinIsLeast(t.left);
    }
  }

  lemma {:induction false} RemoveNodeKeepsBounds(t: Tree, v: int, b: int)
    requires t.Node?
    ensures AllBelow(t, b) ==> AllBelow(TreeRemoveNode(t, v), b)
    ensures AllAtLeast(t, b) ==> AllAtLeast(TreeRemoveNode(t, v), b)
  {
    var Node(l, x, r) := t;
    if v < x && l.Node? {
      RemoveNodeKeepsBounds(l, v, b);
    } else if v > x && r.Node? {
      RemoveNodeKeepsBounds(r, v, b);
    }
  }

  lemma {:induction false} RemoveNodeKeepsElements(t: Tree, v: int)
    requires t.Node?
    ensures Elements(TreeRemoveNode(t, v)) <= Elements(t)
  {
    if v < t.value && t.left.Node? {
      RemoveNodeKeepsElements(t.left, v);
      LeftRemovalWithin(t, v);
    } else if v > t.value && t.right.Node? {
      RemoveNodeKeepsElements(t.right, v);
      RightRemovalWithin(t, v);
    } else {
      StopWithin(t, v);
    }
  }

  lemma LeftRemovalWithin(t: Tree, v: int)
    requires t.Node? && v < t.value && t.left.Node?
    requires Elements(TreeRemoveNode(t.left, v)) <= Elements(t.left)
    ensures Elements(TreeRemoveNode(t, v)) <= Elements(t)
  {
    var Node(l, x, r) := t;
    var l' := TreeRemoveNode(l, v);
    assert TreeRemoveNode(t, v) == Node(l', x, r);
    SubMultisetPlus(Elements(l'), Elements(l), multiset{x});
    SubMultisetPlus(Elements(l') + multiset{x}, Elements(l) + multiset{x}, Elements(r));
  }

  lemma RightRemovalWithin(t: Tree, v: int)
    requires t.Node? && v > t.value && t.right.Node?
    requires Elements(TreeRemoveNode(t.right, v)) <= Elements(t.right)
    ensures Elements(TreeRemoveNode(t, v)) <= Elements(t)
  {
    var Node(l, x, r) := t;
    var r' := TreeRemoveNode(r, v);
    assert TreeRemoveNode(t, v) == Node(l, x, r');
    SubMultisetPlus(Elements(r'), Elements(r), Elements(l) + multiset{x});
  }

  /** Where the descent stops, the node is replaced by nothing or by one of its subtrees. */
  lemma StopWithin(t: Tree, v: int)
    requires t.Node? && !Descends(t, v)
    ensures Elements(TreeRemoveNode(t, v)) <= Elements(t)
  {
    var r := TreeRemoveNode(t, v);
    assert r == Leaf || r == t.left || r == t.right;
    ChildrenWithin(t);
  }

  /** Each subtree's values are among the tree's. */
  lemma ChildrenWithin(t: Tree)
    requires t.Node?
    ensures Elements(t.left) <= Elements(t) && Elements(t.right) <= Elements(t)
  {
  }

  lemma SubMultisetPlus(a: multiset<int>, b: multiset<int>, c: multiset<int>)
    requires a <= b
    ensures a + c <= b + c && c + a <= c + b
  {
  }

  /** What `removeNode` returns holds no value that was not there, and stays ordered. */
  lemma {:induction false} RemoveNodeKeepsBst(t: Tree, v: int)
    requires t.Node? && IsBst(t)
    ensures Elements(TreeRemoveNode(t, v)) <= Elements(t)
    ensures IsBst(TreeRemoveNode(t, v))
  {
    RemoveNodeKeepsElements(t, v);
    var Node(l, x, r) := t;
    if v < x && l.Node? {
      RemoveNodeKeepsBst(l, v);
      RemoveNodeKeepsBounds(l, v, x);
    } else if v > x && r.Node? {
      RemoveNodeKeepsBst(r, v);
      RemoveNodeKeepsBounds(r, v, x);
    }
  }

  /** `removeNode` always takes at least one node out, whether or not the value is present. */
  lemma {:induction false} RemoveNodeShrinks(t: Tree, v: int)
    requires t.Node?
    ensures Size(TreeRemoveNode(t, v)) < Size(t)
  {
    var Node(l, x, r) := t;
    if v < x && l.Node? {
      RemoveNodeShrinks(l, v);
    } else if v > x && r.Node? {
      RemoveNodeShrinks(r, v);
    }
  }

  /**
   * When the value is absent from an ordered tree, `removeNode` still takes
   * out the node where the search for it gave up.
   */
  lemma AbsentValueRemovesNode(t: Tree, v: int)
    requires t.Node? && IsBst(t) && v !in Elements(t)
    ensures Elements(TreeRemoveNode(t, v)) < Elements(t)
  {
    RemoveNodeShrinks(t, v);
    RemoveNodeKeepsBst(t, v);
    SizeIsCardinality(TreeRemoveNode(t, v));
    SizeIsCardinality(t);
  }

  lemma {:induction false} SizeIsCardinality(t: Tree)
    ensures |Elements(t)| == Size(t)
  {
    match t
    case Leaf =>
    case Node(l, _, r) =>
      SizeIsCardinality(l);
      SizeIsCardinality(r);
  }

  /** A matched node with a left child is replaced by that child: its whole right subtree is lost. */
  lemma LeftChildWins(l: Tree, x: int, r: Tree)
    requires l.Node?
    ensures TreeRemoveNode(Node(l, x, r), x) == l
    ensures Elements(TreeRemoveNode(Node(l, x, r), x)) == Elements(Node(l, x, r)) - Elements(r) - multiset{x}
  {
  }

  /** Removing the root's own value, or any value at which the descent stops at the root, changes nothing. */
  lemma RemoveAtRootIsNoOp(t: Tree, v: int)
    requires t.Node? && !Descends(t, v)
    ensures TreeRemove(t, v) == t
  {
  }

  /** `remove` keeps the ordering and never adds a value. */
  lemma RemoveKeepsBst(t: Tree, v: int)
    requires IsBst(t)
    ensures IsBst(TreeRemove(t, v)) && Elements(TreeRemove(t, v)) <= Elements(t)
  {
    if t.Node? {
      RemoveNodeKeepsBst(t, v);
    }
  }

  // ---------------------------------------------------------------------
  // The classes

  class BstNode {
    var value: int
    var left: BstNode?
    var right: BstNode?
    ghost var Repr: set<object>
    ghost var Model: Tree

    /** The subtree rooted here is a finite tree of distinct nodes, and `Model` is its value. */
    ghost predicate Valid()
      reads this, Repr
      decreases Repr
    {
      && this in Repr
      && (left != null ==>
            left in Repr && left.Repr <= Repr && this !in left.Repr && left.Valid())
      && (right != null ==>
            right in Repr && right.Repr <= Repr && this !in right.Repr && right.Valid())
      && (left != null && right != null ==> left.Repr !! right.Repr)
      && Model == Node(ModelOf(left), value, ModelOf(right))
    }

    constructor (value: int)
      ensures Valid() && fresh(Repr) && Repr == {this}
      ensures this.value == value && Model == Node(Leaf, value, Leaf)
    {
      left := null;
      right := null;
      this.value := value;
      Repr := {this};
      Model := Node(Leaf, value, Leaf);
    }
  }

  /** The value of a possibly-null subtree. */
  ghost function ModelOf(n: BstNode?): Tree
    reads n
  {
    if n == null then Leaf else n.Model
  }

  /** The result of `search`: the string "Tree is empty", or a boolean. */
  datatype SearchResult = Text(message: string) | Flag(found: bool)

  class BinarySearchTree {
    var root: BstNode?
    ghost var Repr: set<object>
    ghost var Model: Tree

    ghost predicate Valid()
      reads this, Repr
    {
      && this in Repr
      && (root == null ==> Model == Leaf)
      && (root != null ==>
            root in Repr && root.Repr <= Repr && this !in root.Repr && root.Valid() && Model == root.Model)
    }

    constructor ()
      ensures Valid() && fresh(Repr) && Model == Leaf
    {
      root := null;
      Repr := {this};
      Model := Leaf;
    }

    /** `insert(value)`: a new node becomes the root of an empty tree, or is attached by `insertNode`. */
    method Insert(value: int)
      requires Valid()
      modifies Repr
      ensures Valid() && fresh(Repr - old(Repr))
      ensures Model == TreeInsert(old(Model), value)
    {
      var newNode := new BstNode(value);
      if root == null {
        root := newNode;
      } else {
        InsertNode(root, newNode);
      }
      Repr := Repr + {newNode};
      Model := root.Model;
    }

    /** `insertNode(root, newNode)`: the new node becomes a missing child at the end of the descent. */
    method InsertNode(root: BstNode, newNode: BstNode)
      requires root.Valid() && newNode.Valid() && newNode.Repr == {newNode} && newNode !in root.Repr
      requires newNode.Model == Node(Leaf, newNode.value, Leaf)
      modifies root.Repr
      ensures root.Valid() && root.Repr == old(root.Repr) + {newNode}
      ensures root.Model == TreeInsert(old(root.Model), newNode.value)
      decreases root.Repr
    {
      if newNode.value < root.value {
        if root.left == null {
          root.left := newNode;
        } else {
          InsertNode(root.left, newNode);
        }
      } else {
        if root.right == null {
          root.right := newNode;
        } else {
          InsertNode(root.right, newNode);
        }
      }
      root.Repr := root.Repr + {newNode};
      root.Model := Node(ModelOf(root.left), root.value, ModelOf(root.right));
    }

    /** `search(value)`. */
    method Search(value: int) returns (r: SearchResult)
      requires Valid()
      ensures Model == Leaf ==> r == Text("Tree is empty")
      ensures Model != Leaf ==> r == Flag(TreeSearch(Model, value))
      ensures Model != Leaf && IsBst(Model) ==> r == Flag(value in Elements(Model))
    {
      if root == null {
        r := Text("Tree is empty");
      } else {
        var found := SearchNode(root, value);
        r := Flag(found);
        if IsBst(Model) {
          SearchFindsMembers(Model, value);
        }
      }
    }

    /** `searchNode(root, value)`. */
    method SearchNode(root: BstNode?, value: int) returns (found: bool)
      requires root != null ==> root.Valid()
      ensures found == TreeSearch(ModelOf(root), value)
      decreases if root == null then {} else root.Repr
    {
      if root == null {
        return false;
      }
      if value < root.value {
        if root.left == null {
          return false;
        }
        found := SearchNode(root.left, value);
      } else if value > root.value {
        if root.right == null {
          return false;
        }
        found := SearchNode(root.right, value);
      } else {
        found := true;
      }
    }

    /** `findMinNode(root)`: the leftmost node of the subtree. */
    method FindMinNode(root: BstNode) returns (m: BstNode)
      requires root.Valid()
      ensures m in root.Repr && m.left == null && m.value == TreeMin(root.Model)
      ensures IsBst(root.Model) ==> forall y :: y in Elements(root.Model) ==> m.value <= y
      decreases root.Repr
    {
      if root.left == null {
        m := root;
      } else {
        m := FindMinNode(root.left);
      }
      if IsBst(root.Model) {
        MinIsLeast(root.Model);
      }
    }

    /** `remove(value)`: `removeNode`'s result is discarded, so the root stays. */
    method Remove(value: int)
      requires Valid()
      modifies Repr
      ensures Valid() && Repr == old(Repr)
      ensures Model == TreeRemove(old(Model), value)
    {
      if root == null {
        return;
      }
      var discarded := RemoveNode(root, value);
      Model := root.Model;
    }

    /**
     * `removeNode(root, value)`: returns the subtree that should replace
     * `root`; on a descent it also re-links the child in place.
     */
    method RemoveNode(root: BstNode, value: int) returns (r: BstNode?)
      requires root.Valid()
      modifies root.Repr
      ensures root.Valid() && root.Repr == old(root.Repr)
      ensures root.Model == TreeRemove(old(root.Model), value)
      ensures ModelOf(r) == TreeRemoveNode(old(root.Model), value)
      ensures r != null ==> r.Valid() && r.Repr <= old(root.Repr)
      decreases root.Repr
    {
      if value < root.value && root.left != null {
        var child := RemoveNode(root.left, value);
        root.left := child;
        root.Model := Node(ModelOf(root.left), root.value, ModelOf(root.right));
        r := root;
      } else if value > root.value && root.right != null {
        var child := RemoveNode(root.right, value);
        root.right := child;
        root.Model := Node(ModelOf(root.left), root.value, ModelOf(root.right));
        r := root;
      } else if root.left == null && root.right == null {
        r := null;
      } else if root.left != null {
        r := root.left;
      } else {
        r := root.right;
      }
    }
  }

  /** Inserting one value into an empty tree. */
  method Singleton(v: int) returns (tree: BinarySearchTree)
    ensures fresh(tree) && tree.Valid() && fresh(tree.Repr)
    ensures tree.Model == Node(Leaf, v, Leaf)
  {
    tree := new BinarySearchTree();
    tree.Insert(v);
  }

  /** Inserting 5 and then 1 into an empty tree. */
  method FiveAndOne() returns (tree: BinarySearchTree)
    ensures fresh(tree) && tree.Valid() && fresh(tree.Repr)
    ensures tree.Model == Node(Node(Leaf, 1, Leaf), 5, Leaf)
  {
    tree := Singleton(5);
    tree.Insert(1);
  }

  /**
   * A tree holding 5 with 1 to its left: removing the absent 3 takes out 1,
   * and removing the root's 5 leaves 5 in the tree.
   */
  method RemoveExample() returns (oneAfterAbsent: SearchResult, fiveAfterRoot: SearchResult)
    ensures oneAfterAbsent == Flag(false) && fiveAfterRoot == Flag(true)
  {
    var tree := FiveAndOne();
    tree.Remove(3);
    assert tree.Model == Node(Leaf, 5, Leaf);
    oneAfterAbsent := tree.Search(1);
    tree.Remove(5);
    fiveAfterRoot := tree.Search(5);
  }
}
