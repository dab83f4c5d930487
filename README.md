# Preorder traversal of a character binary tree

This project models the binary tree of `src/lib.rs`: a tree of `char`
values and its two preorder traversals, both of which push the visited
values onto an output string.

- `BinaryTree.Tree` is the optional node reference (`Nil` is the absent
  reference). `BinaryTree.TreeNode` is the node struct itself, i.e. a tree
  that is present. The tree is finite, acyclic and never changed after it is
  built, so an inductive datatype is an exact model of it.
- `BinaryTree.Preorder` is the textbook preorder: node, left subtree, right
  subtree. Both traversals are proved to compute it.
- `BinaryTree.PreorderRecursive` is the recursive traversal. The `&mut String`
  accumulator becomes a parameter and a result: the function takes the string
  as it was and returns it as the traversal leaves it.
- `BinaryTree.PreorderIterative` is the stack-based traversal, written as a
  method with a `while` loop. The `Vec` stack is a `seq<Tree>` whose last
  element is the top. The `while let Some(Some(_)) = stack.pop()` loop is
  written out: the popped element is removed, and the loop stops when the
  stack is empty or when the popped element is an absent subtree.
- `TraversalFixture` holds the twelve-node tree the tests build, and the
  output both traversals give for it.

The key invariant of the loop is this: the output so far, followed by what
the stack still owes (`Pending`: the preorder of each stacked subtree, top
first), equals the starting string followed by the preorder of the root.
It terminates because each round replaces the popped subtree by the subtrees
of its present children, so the total number of nodes in the stacked subtrees
(`StackSize`) drops by exactly one.

`new_wrapped` (src/lib.rs:24-28) has no path that returns `None`, so
`NewWrapped` ensures that its result is a present node.

## Model

| member | source | states |
|---|---|---|
| BinaryTree.New | src/lib.rs:16-22 | `new` builds a leaf: the given value, no children. Its preorder is that one value, and it has one node. |
| BinaryTree.NewWrapped | src/lib.rs:24-28 | `new_wrapped` always returns a present node whose value and children are exactly its arguments. Its size is one more than its children's, and its preorder is the value, then the left preorder, then the right preorder. |
| BinaryTree.PreorderRecursive | src/lib.rs:32-41 | The recursive traversal leaves the accumulator equal to its old contents followed by the preorder of the node. An absent node adds nothing. |
| BinaryTree.PreorderRecursiveAppends | src/lib.rs:33-40 | The recursive traversal only appends: the old accumulator is a prefix of the new one. An absent node leaves the accumulator unchanged. |
| BinaryTree.PreorderVisitsEachNodeOnce | src/lib.rs:37-40 | Preorder has exactly one character per node, and its multiset of characters is the multiset of the tree's values, so each node is visited exactly once. |
| BinaryTree.PreorderLayout | src/lib.rs:38-40 | A node's preorder starts with its value. Then come exactly its left subtree's preorder and then exactly its right subtree's, at positions fixed by the left subtree's size. |
| BinaryTree.VisitStep | src/lib.rs:46-57 | One loop round keeps the invariant. It moves the popped value to the output, and the stack still owes the rest of the preorder. The stack ends up with exactly one node fewer, and it still holds no absent subtree. |
| BinaryTree.PreorderIterative | src/lib.rs:43-58 | The iterative traversal gives exactly the same string as the recursive one, for every tree and every starting string. An absent root appends nothing. The loop ends on an absent subtree exactly when the root is absent; otherwise it ends on an empty stack. |
| TraversalFixture.CreateTraversalTree | src/lib.rs:83-98 | The test tree has twelve nodes and root `A`. |
| TraversalFixture.RecursiveOnFixture | src/lib.rs:65-72 | The recursive traversal of the test tree, starting from an empty string, gives `ABXEMSWTPNCH`. |
| TraversalFixture.IterativeOnFixture | src/lib.rs:74-81 | The iterative traversal of the test tree, starting from an empty string, gives `ABXEMSWTPNCH`. |

## Left out

- Reference counting and runtime borrowing (`Rc`, `RefCell`, the `borrow` calls): they have no effect on what an immutable, acyclic tree holds. The datatype replaces them.
- Sharing and cycles: a datatype value cannot be cyclic. `src/lib.rs` assumes there are no cycles and does not check for them.
- The derived `Debug`, `PartialEq` and `Eq` traits: equality on the datatype is structural already.
- `#[inline]` on `new`: it is a compiler hint with no effect on behaviour.
- In-place mutation of the `String`: the accumulator is passed in and the new string returned. A Rust `char` is a Unicode scalar value, modelled as a Dafny `char`, with no UTF-8 encoding.
- Inorder and postorder traversals: `src/lib.rs` has none, so they are not part of this model.
- Running a traversal twice on the same tree gives the same output. This follows because both traversals are functions of the tree and the starting string, so no separate member states it.
- Recursion depth: the Rust recursive traversal (src/lib.rs:32-41) uses one call frame per level and can overflow the thread's stack on a very deep tree. `PreorderRecursive` is total and does not model that limit.
- The test harness (`#[test]`, `assert_eq!`): each test becomes one fixture member that proves the expected string.
