// AVL insertion as the program runs it: nodes relinked in place. Each method is proved
// against the functions of AvlTree.
module AvlNodes {
  import opened Shared
  import opened AvlTree

  class AvlNode<T> {
    var data: T
    var left: AvlNode?<T>
    var right: AvlNode?<T>
    var height: int
    ghost var Repr: set<object>
    ghost var Value: Tree<T>   // the tree below this node

    ghost predicate Valid()
      reads this, Repr
      ensures Valid() ==> this in Repr && Value.Node?
      decreases Repr
    {
      && this in Repr
      && (left != null ==>
            left in Repr && left.Repr <= Repr && this !in left.Repr && left.Valid())
      && (right != null ==>
            right in Repr && right.Repr <= Repr && this !in right.Repr && right.Valid())
      && (left != null && right != null ==> left.Repr !! right.Repr)
      && Value == Node(if left == null then Nil else left.Value, data,
                       if right == null then Nil else right.Value, height)
    }

    // NodeCreate
    constructor (data: T)
      ensures Valid() && fresh(Repr) && Value == Node(Nil, data, Nil, 0)
    {
      this.data := data;
      left, right := null, null;
      height := 0;
      Repr := {this};
      Value := Node(Nil, data, Nil, 0);
    }

    predicate NodeIsLeaf()
      reads this
    {
      left == null && right == null
    }
  }

  ghost predicate ValidTree<T>(node: AvlNode?<T>)
    reads node, if node == null then {} else node.Repr
  {
    node != null ==> node.Valid()
  }

  ghost function Value<T>(node: AvlNode?<T>): Tree<T>
    reads node
  {
    if node == null then Nil else node.Value
  }

  ghost function Repr<T>(node: AvlNode?<T>): set<object>
    reads node
  {
    if node == null then {} else node.Repr
  }

  function NodeHeight<T>(node: AvlNode?<T>): (h: nat)
    reads node, if node == null then {} else node.Repr
    requires ValidTree(node)
    ensures h == Height(Value(node))
    decreases Repr(node)
  {
    if node == null then 0
    else if node.NodeIsLeaf() then 1
    else Max(1 + NodeHeight(node.left), 1 + NodeHeight(node.right))
  }

  function NodeTreeSize<T>(node: AvlNode?<T>): (n: nat)
    reads node, if node == null then {} else node.Repr
    requires ValidTree(node)
    ensures n == Size(Value(node))
    decreases Repr(node)
  {
    if node == null then 0
    else if node.NodeIsLeaf() then 1
    else 1 + NodeTreeSize(node.left) + NodeTreeSize(node.right)
  }

  function NodeFind<T>(node: AvlNode?<T>, key: T, compare: Compare<T>): (r: Option<T>)
    reads node, if node == null then {} else node.Repr
    requires ValidTree(node)
    ensures r == Find(compare, Value(node), key)
    decreases Repr(node)
  {
    if node == null then None
    else if compare(node.data, key) == 0 then Some(key)
    else if node.NodeIsLeaf() then None
    else NodeFind(if compare(node.data, key) > 0 then node.left else node.right, key, compare)
  }

  // Gives a node two children and stores its true height, as each half of a rotation does.
  method Attach<T>(node: AvlNode<T>, left: AvlNode?<T>, right: AvlNode?<T>)
    requires ValidTree(left) && ValidTree(right)
    requires Repr(left) !! Repr(right) && node !in Repr(left) + Repr(right)
    modifies node
    ensures node.Valid() && node.Repr == {node} + Repr(left) + Repr(right)
    ensures node.Value == Joined(old(Value(left)), old(node.data), old(Value(right)))
  {
    SetChildren(node, left, right);
    var height := NodeHeight(node);
    SetHeight(node, height);
  }

  method SetChildren<T>(node: AvlNode<T>, left: AvlNode?<T>, right: AvlNode?<T>)
    requires ValidTree(left) && ValidTree(right)
    requires Repr(left) !! Repr(right) && node !in Repr(left) + Repr(right)
    modifies node
    ensures node.Valid() && node.Repr == {node} + Repr(left) + Repr(right)
    ensures node.Value == Node(old(Value(left)), old(node.data), old(Value(right)), old(node.height))
  {
    node.left, node.right := left, right;
    node.Repr := {node} + Repr(left) + Repr(right);
    node.Value := Node(Value(left), node.data, Value(right), node.height);
  }

  method SetHeight<T>(node: AvlNode<T>, height: int)
    requires node.Valid()
    modifies node`height, node`Value
    ensures node.Valid() && node.Value == old(node.Value).(field := height)
  {
    node.height := height;
    node.Value := node.Value.(field := height);
  }

  // The three subtrees a rotation moves around.
  ghost predicate Apart<T>(node: AvlNode<T>, root: AvlNode<T>, a: AvlNode?<T>, b: AvlNode?<T>, c: AvlNode?<T>)
    reads a, b, c, Repr(a), Repr(b), Repr(c)
  {
    && ValidTree(a) && ValidTree(b) && ValidTree(c) && node != root
    && Repr(a) !! Repr(b) && Repr(a) !! Repr(c) && Repr(b) !! Repr(c)
    && node !in Repr(a) + Repr(b) + Repr(c) && root !in Repr(a) + Repr(b) + Repr(c)
  }

  lemma LeftApart<T>(node: AvlNode<T>)
    requires node.Valid() && node.left != null
    ensures Apart(node, node.left, node.left.left, node.left.right, node.right)
    ensures {node.left} + Repr(node.left.left) + ({node} + Repr(node.left.right) + Repr(node.right)) <= node.Repr
  {
  }

  lemma RightApart<T>(node: AvlNode<T>)
    requires node.Valid() && node.right != null
    ensures Apart(node, node.right, node.left, node.right.left, node.right.right)
    ensures {node.right} + ({node} + Repr(node.left) + Repr(node.right.left)) + Repr(node.right.right) <= node.Repr
  {
  }

  method RotateRight<T>(node: AvlNode<T>) returns (root: AvlNode<T>)
    requires node.Valid() && node.left != null
    modifies node, node.left
    ensures root.Valid() && root.Repr <= old(node.Repr)
    ensures root.Value == AvlTree.RotateRight(old(node.Value))
  {
    LeftApart(node);
    root := node.left;
    HangRight(node, root, root.left, root.right, node.right);
  }

  method HangRight<T>(node: AvlNode<T>, root: AvlNode<T>, a: AvlNode?<T>, b: AvlNode?<T>, c: AvlNode?<T>)
    requires Apart(node, root, a, b, c)
    modifies node, root
    ensures root.Valid() && root.Repr == {root} + old(Repr(a)) + ({node} + old(Repr(b)) + old(Repr(c)))
    ensures root.Value ==
      Joined(old(Value(a)), old(root.data), Joined(old(Value(b)), old(node.data), old(Value(c))))
  {
    hide Joined;
    Attach(node, b, c);
    Attach(root, a, node);
  }

  method RotateLeft<T>(node: AvlNode<T>) returns (root: AvlNode<T>)
    requires node.Valid() && node.right != null
    modifies node, node.right
    ensures root.Valid() && root.Repr <= old(node.Repr)
    ensures root.Value == AvlTree.RotateLeft(old(node.Value))
  {
    RightApart(node);
    root := node.right;
    HangLeft(node, root, node.left, root.left, root.right);
  }

  method HangLeft<T>(node: AvlNode<T>, root: AvlNode<T>, a: AvlNode?<T>, b: AvlNode?<T>, c: AvlNode?<T>)
    requires Apart(node, root, a, b, c)
    modifies node, root
    ensures root.Valid() && root.Repr == {root} + ({node} + old(Repr(a)) + old(Repr(b))) + old(Repr(c))
    ensures root.Value ==
      Joined(Joined(old(Value(a)), old(node.data), old(Value(b))), old(root.data), old(Value(c)))
  {
    hide Joined;
    Attach(node, a, b);
    Attach(root, node, c);
  }

  // Puts a subtree back where it was taken from, possibly under a new root.
  ghost method Refresh<T>(node: AvlNode<T>)
    requires ValidTree(node.left) && ValidTree(node.right)
    requires Repr(node.left) !! Repr(node.right) && node !in Repr(node.left) && node !in Repr(node.right)
    modifies node`Repr, node`Value
    ensures node.Valid() && node.Repr == {node} + Repr(node.left) + Repr(node.right)
    ensures node.Value == Node(Value(node.left), node.data, Value(node.right), node.height)
  {
    node.Repr := {node} + Repr(node.left) + Repr(node.right);
    node.Value := Node(Value(node.left), node.data, Value(node.right), node.height);
  }

  // The Left Right case: both rotations.
  method RotateLeftRight<T>(node: AvlNode<T>) returns (root: AvlNode<T>)
    requires node.Valid() && node.Value.left.Node? && node.Value.left.right.Node?
    modifies node.Repr
    ensures root.Valid() && root.Repr <= old(node.Repr)
    ensures var v := old(node.Value); root.Value == AvlTree.RotateRight(v.(left := AvlTree.RotateLeft(v.left)))
  {
    hide Joined, AvlTree.RotateLeft, AvlTree.RotateRight;
    var l := RotateLeft(node.left);
    node.left := l;
    Refresh(node);
    root := RotateRight(node);
  }

  // The Right Left case.
  method RotateRightLeft<T>(node: AvlNode<T>) returns (root: AvlNode<T>)
    requires node.Valid() && node.Value.right.Node? && node.Value.right.left.Node?
    modifies node.Repr
    ensures root.Valid() && root.Repr <= old(node.Repr)
    ensures var v := old(node.Value); root.Value == AvlTree.RotateLeft(v.(right := AvlTree.RotateRight(v.right)))
  {
    hide Joined, AvlTree.RotateLeft, AvlTree.RotateRight;
    var r := RotateRight(node.right);
    node.right := r;
    Refresh(node);
    root := RotateLeft(node);
  }

  method BalanceTreeIfNeeded<T>(node: AvlNode<T>) returns (root: AvlNode<T>)
    requires node.Valid() && Rebalanceable(node.Value)
    modifies node.Repr
    ensures root.Valid() && root.Repr <= old(node.Repr)
    ensures root.Value == Rebalance(old(node.Value))
  {
    hide Joined, AvlTree.RotateLeft, AvlTree.RotateRight;
    if node.height > 1 {
      if node.left.height > -1 {
        root := RotateRight(node);
      } else {
        root := RotateLeftRight(node);
      }
    } else if node.height < -1 {
      if node.right.height < 1 {
        root := RotateLeft(node);
      } else {
        root := RotateRightLeft(node);
      }
    } else {
      root := node;
    }
  }

  // The subtree on one side comes back from the recursive call; the balance field is recomputed.
  method Graft<T>(runner: AvlNode<T>, goesLeft: bool, sub: AvlNode<T>)
    requires sub.Valid() && ValidTree(if goesLeft then runner.right else runner.left)
    requires var other := if goesLeft then runner.right else runner.left;
      sub.Repr !! Repr(other) && runner !in sub.Repr && runner !in Repr(other)
    modifies runner
    ensures runner.Valid()
    ensures var other := if goesLeft then old(runner.right) else old(runner.left);
      && runner.Repr <= {runner} + old(sub.Repr) + old(Repr(other))
      && var n := if goesLeft then Node(old(sub.Value), old(runner.data), old(Value(other)), 0)
                  else Node(old(Value(other)), old(runner.data), old(sub.Value), 0);
         runner.Value == n.(field := BalanceFactor(n))
  {
    hide Height;
    if goesLeft { runner.left := sub; } else { runner.right := sub; }
    runner.height := NodeHeight(runner.left) - NodeHeight(runner.right);
    Refresh(runner);
  }

  method BalancedInsert<T>(runner: AvlNode?<T>, compare: Compare<T>, data: T) returns (root: AvlNode<T>)
    requires ValidTree(runner) && Balanced(Value(runner))
    modifies Repr(runner)
    ensures root.Valid() && fresh(root.Repr - old(Repr(runner)))
    ensures root.Value == Insert(compare, old(Value(runner)), data)
    decreases Repr(runner)
  {
    hide Rebalance, Height;
    if runner == null {
      root := new AvlNode(data);
    } else {
      ghost var t := runner.Value;
      var goesLeft := compare(runner.data, data) > 0;
      var side := if goesLeft then runner.left else runner.right;
      var sub := BalancedInsert(side, compare, data);
      ghost var value := sub.Value;
      Graft(runner, goesLeft, sub);
      assert runner.Value == Grafted(compare, t, data, value);
      RebalanceKeeps(compare, t, data, value);
      root := BalanceTreeIfNeeded(runner);
    }
  }

  class Avl<T> {
    const compare: Compare<T>
    var root: AvlNode?<T>

    ghost predicate Valid()
      reads this, root, Repr(root)
    {
      ValidTree(root) && this !in Repr(root) && Balanced(Value(root))
    }

    ghost function Contents(): seq<T>
      reads this, root
    {
      InOrder(Value(root))
    }

    // AVLCreate
    constructor (compare: Compare<T>)
      ensures Valid() && Value(root) == Nil && this.compare == compare
    {
      this.compare := compare;
      root := null;
    }

    method AVLInsert(data: T) returns (status: int)
      requires Valid()
      modifies this, Repr(root)
      ensures Valid() && status == 1
      ensures Value(root) == Insert(compare, old(Value(root)), data)
      ensures Contents() == InsertAt(old(Contents()), Position(compare, old(Value(root)), data), data)
    {
      InsertInOrder(compare, Value(root), data);
      root := BalancedInsert(root, compare, data);
      status := 1;
    }

    method AVLFind(key: T) returns (r: Option<T>)
      requires Valid()
      ensures r == Find(compare, Value(root), key)
    {
      r := NodeFind(root, key, compare);
    }
  }
}
