/**
  A binary tree of characters and its preorder traversals.

  `Tree` plays the part of the optional, shared node reference of the
  Rust code (`Nil` is the absent reference); a `TreeNode` is a tree that is
  present. The tree is finite, acyclic and never changed after it is built,
  so an inductive datatype holds exactly the same information.

  The output string that both traversals append to is passed in and the
  extended string handed back.
 */
module BinaryTree {

  datatype Tree = Nil | Node(val: char, left: Tree, right: Tree)

  /** A node that is present: what the Rust code calls a `TreeNode`. */
  type TreeNode = t: Tree | t.Node? witness Node('A', Nil, Nil)

  /** Number of nodes in the tree. */
  function Size(t: Tree): nat
  {
    match t
    case Nil => 0
    case Node(_, l, r) => 1 + Size(l) + Size(r)
  }

  /** The values of the tree, regardless of order. */
  function Values(t: Tree): multiset<char>
  {
    match t
    case Nil => multiset{}
    case Node(v, l, r) => multiset{v} + Values(l) + Values(r)
  }

  /**
    The textbook preorder: the node's value, then the left subtree, then the
    right subtree; nothing for an absent subtree. This is the reference both
    traversals are proved against.
   */
  function Preorder(t: Tree): seq<char>
  {
    match t
    case Nil => []
    case Node(v, l, r) => [v] + Preorder(l) + Preorder(r)
  }

  // ---------------------------------------------------------------------
  // Construction
  // ---------------------------------------------------------------------

  /** A leaf: the given value and no children. */
  function New(val: char): (n: TreeNode)
    ensures n.val == val && n.left == Nil && n.right == Nil
    ensures Size(n) == 1 && Preorder(n) == [val]
  {
    Node(val, Nil, Nil)
  }

  /** A present node holding exactly the given value and children. */
  function NewWrapped(val: char, left: Tree, right: Tree): (t: Tree)
    ensures t.Node? && t.val == val && t.left == left && t.right == right
    ensures Size(t) == 1 + Size(left) + Size(right)
    ensures Preorder(t) == [val] + Preorder(left) + Preorder(right)
  {
    Node(val, left, right)
  }

  // ---------------------------------------------------------------------
  // Properties of the reference preorder
  // ---------------------------------------------------------------------

  /** Preorder lists every node exactly once: one character per node, and
      the characters are the tree's values. */
  lemma {:induction false} PreorderVisitsEachNodeOnce(t: Tree)
    ensures |Preorder(t)| == Size(t)
    ensures multiset(Preorder(t)) == Values(t)
  {
    match t
    case Nil =>
    case Node(v, l, r) =>
      PreorderVisitsEachNodeOnce(l);
      PreorderVisitsEachNodeOnce(r);
      calc {
        multiset(Preorder(t));
        multiset([v] + Preorder(l) + Preorder(r));
        multiset([v]) + multiset(Preorder(l)) + multiset(Preorder(r));
        Values(t);
      }
  }

  /** The preorder of a node splits uniquely: its value first, then exactly
      the left subtree's preorder, then exactly the right subtree's. */
  lemma {:induction false} PreorderLayout(t: TreeNode)
    ensures |Preorder(t)| == Size(t)
    ensures Preorder(t)[0] == t.val
    ensures Preorder(t)[1..1 + Size(t.left)] == Preorder(t.left)
    ensures Preorder(t)[1 + Size(t.left)..] == Preorder(t.right)
  {
    PreorderVisitsEachNodeOnce(t);
    PreorderVisitsEachNodeOnce(t.left);
    var p := Preorder(t);
    assert p == [t.val] + Preorder(t.left) + Preorder(t.right);
  }

  // ---------------------------------------------------------------------
  // Recursive traversal
  // ---------------------------------------------------------------------

  /**
    Appends the preorder of `node` to `acc`: on an absent node nothing
    happens; otherwise the value is pushed, then the left subtree is
    traversed, then the right one, each continuing from the string the
    previous step left.
   */
  function PreorderRecursive(node: Tree, acc: string): (r: string)
    ensures r == acc + Preorder(node)
  {
    match node
    case Nil => acc
    case Node(v, left, right) =>
      var afterLeft := PreorderRecursive(left, acc + [v]);
      assert afterLeft == acc + ([v] + Preorder(left));
      PreorderRecursive(right, afterLeft)
  }

  /** The recursive traversal only appends: what was already in the
      accumulator is kept as a prefix, and an absent node adds nothing. */
  lemma PreorderRecursiveAppends(node: Tree, acc: string)
    ensures acc <= PreorderRecursive(node, acc)
    ensures node == Nil ==> PreorderRecursive(node, acc) == acc
  {
    var r := PreorderRecursive(node, acc);
    assert r == acc + Preorder(node);
  }

  // ---------------------------------------------------------------------
  // Iterative traversal
  // ---------------------------------------------------------------------

  /** Total number of nodes in the subtrees on a stack. */
  function StackSize(stack: seq<Tree>): nat
  {
    if stack == [] then 0
    else Size(stack[|stack| - 1]) + StackSize(stack[..|stack| - 1])
  }

  /** What a stack still owes the output: the preorder of its top (the last
      element), then the preorder of each element below it in turn. */
  function Pending(stack: seq<Tree>): seq<char>
  {
    if stack == [] then []
    else Preorder(stack[|stack| - 1]) + Pending(stack[..|stack| - 1])
  }

  /** Every subtree on the stack is present. */
  predicate AllPresent(stack: seq<Tree>)
  {
    forall i :: 0 <= i < |stack| ==> stack[i].Node?
  }

  /** Pushing a tree on a stack puts its preorder first among what is owed,
      and adds its size to the stack's total. */
  lemma PushPending(stack: seq<Tree>, t: Tree)
    ensures Pending(stack + [t]) == Preorder(t) + Pending(stack)
    ensures StackSize(stack + [t]) == Size(t) + StackSize(stack)
  {
    var s := stack + [t];
    assert s[..|s| - 1] == stack;
  }

  /** The stack after pushing `t` when it is present. */
  function PushPresent(stack: seq<Tree>, t: Tree): seq<Tree>
  {
    if t == Nil then stack else stack + [t]
  }

  /** The stack after a present node has been popped off `stack + [t]` and
      its right child, then its left child, pushed when present. */
  function AfterVisit(stack: seq<Tree>, t: TreeNode): seq<Tree>
  {
    PushPresent(PushPresent(stack, t.right), t.left)
  }

  /**
    One round of the iterative traversal keeps its promise: visiting the
    top node moves its value to the output and leaves the stack owing the
    rest of the preorder, with strictly fewer nodes, and pushes no absent
    subtree.
   */
  lemma VisitStep(out: string, stack: seq<Tree>, t: TreeNode)
    ensures out + Pending(stack + [t]) == (out + [t.val]) + Pending(AfterVisit(stack, t))
    ensures StackSize(stack + [t]) == 1 + StackSize(AfterVisit(stack, t))
    ensures AllPresent(stack) ==> AllPresent(AfterVisit(stack, t))
  {
    VisitOutput(out, stack, t);
    VisitShrinks(stack, t);
    VisitKeepsPresent(stack, t);
  }

  /** A visit moves the popped value to the output and keeps what is owed. */
  lemma VisitOutput(out: string, stack: seq<Tree>, t: TreeNode)
    ensures out + Pending(stack + [t]) == (out + [t.val]) + Pending(AfterVisit(stack, t))
  {
    PushPending(stack, t);
    VisitPending(stack, t);
    Regroup(out, [t.val], Preorder(t.left), Preorder(t.right), Pending(stack));
  }

  /** A visit takes exactly one node off the stack. */
  lemma VisitShrinks(stack: seq<Tree>, t: TreeNode)
    ensures StackSize(stack + [t]) == 1 + StackSize(AfterVisit(stack, t))
  {
    PushPending(stack, t);
    VisitSize(stack, t);
  }

  /** A visit pushes no absent subtree. */
  lemma VisitKeepsPresent(stack: seq<Tree>, t: TreeNode)
    ensures AllPresent(stack) ==> AllPresent(AfterVisit(stack, t))
  {
  }

  /** Pushing a subtree only when it is present owes the same as pushing
      it outright: an absent subtree owes nothing and has no nodes. */
  lemma PushPresentPending(stack: seq<Tree>, t: Tree)
    ensures Pending(PushPresent(stack, t)) == Preorder(t) + Pending(stack)
    ensures StackSize(PushPresent(stack, t)) == Size(t) + StackSize(stack)
  {
    if t == Nil {
      assert Preorder(t) + Pending(stack) == Pending(stack);
    } else {
      PushPending(stack, t);
    }
  }

  /** What the stack owes after a visit: both children's preorders, then
      whatever lay below the visited node. */
  lemma VisitPending(stack: seq<Tree>, t: TreeNode)
    ensures Pending(AfterVisit(stack, t)) == (Preorder(t.left) + Preorder(t.right)) + Pending(stack)
  {
    var mid := PushPresent(stack, t.right);
    calc {
      Pending(AfterVisit(stack, t));
      { PushPresentPending(mid, t.left); }
      Preorder(t.left) + Pending(mid);
      { PushPresentPending(stack, t.right); }
      Preorder(t.left) + (Preorder(t.right) + Pending(stack));
      (Preorder(t.left) + Preorder(t.right)) + Pending(stack);
    }
  }

  /** The nodes on the stack after a visit: both children's, then those
      that lay below the visited node. */
  lemma VisitSize(stack: seq<Tree>, t: TreeNode)
    ensures StackSize(AfterVisit(stack, t)) == Size(t.left) + Size(t.right) + StackSize(stack)
  {
    PushPresentPending(stack, t.right);
    PushPresentPending(PushPresent(stack, t.right), t.left);
  }

  /** Regrouping a concatenation: the bracketings used by `VisitStep`. */
  lemma Regroup(a: string, b: string, c: string, d: string, e: string)
    ensures a + ((((b + c) + d) + e)) == (a + b) + ((c + d) + e)
  {
  }

  /**
    Appends the preorder of `node` to `acc` with an explicit last-in,
    first-out stack seeded with `node`. Each round pops the top; an empty
    stack or an absent subtree on top ends the loop; otherwise the value is
    pushed onto the output and the right child, then the left child, are
    pushed onto the stack when present, so the left subtree comes out first.

    `endedOnEmptySubtree` records how the loop ended: on an absent subtree
    rather than on an empty stack. That happens exactly when the root itself
    is absent, because only present children are ever pushed.
   */
  method PreorderIterative(node: Tree, acc: string) returns (out: string, ghost endedOnEmptySubtree: bool)
    ensures out == PreorderRecursive(node, acc)
    ensures out == acc + Preorder(node)
    ensures node == Nil ==> out == acc
    ensures endedOnEmptySubtree <==> node == Nil
  {
    out := acc;
    endedOnEmptySubtree := false;
    var stack: seq<Tree> := [node];
    var done := false;
    while !done
      invariant !done ==> out + Pending(stack) == acc + Preorder(node)
      invariant !done && node.Node? ==> AllPresent(stack)
      invariant !done && node == Nil ==> stack == [Nil] && out == acc
      invariant done ==> out == acc + Preorder(node)
      invariant !done ==> !endedOnEmptySubtree
      invariant done ==> (endedOnEmptySubtree <==> node == Nil)
      decreases StackSize(stack) + (if done then 0 else 1)
    {
      if stack == [] {
        // `pop` returned nothing: the stack is exhausted.
        assert node.Node?;
        done := true;
      } else {
        ghost var before := stack;
        var top := stack[|stack| - 1];
        stack := stack[..|stack| - 1];
        assert before == stack + [top];
        if top == Nil {
          // An absent subtree was popped: the loop stops here.
          assert node == Nil;
          done := true;
          endedOnEmptySubtree := true;
        } else {
          VisitStep(out, stack, top);
          ghost var rest := stack;
          out := out + [top.val];
          if top.right != Nil {
            stack := stack + [top.right];
          }
          if top.left != Nil {
            stack := stack + [top.left];
          }
          assert stack == AfterVisit(rest, top);
        }
      }
    }
  }
}
