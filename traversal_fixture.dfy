/**
  The twelve-node tree the traversal tests are run on, and the output both
  traversals give for it.

                A
             /     \
            B       W
           / \     / \
          X   S   T   C
         / \     / \  /
        E   M   P  N H
 */
module TraversalFixture {
  import opened BinaryTree

  /** Builds the fixture bottom-up, leaves first, as the tests do. */
  function CreateTraversalTree(): (t: Tree)
    ensures Size(t) == 12
    ensures t.Node? && t.val == 'A'
  {
    var e := NewWrapped('E', Nil, Nil);
    var m := NewWrapped('M', Nil, Nil);
    var x := NewWrapped('X', e, m);
    var s := NewWrapped('S', Nil, Nil);
    var b := NewWrapped('B', x, s);
    var p := NewWrapped('P', Nil, Nil);
    var n := NewWrapped('N', Nil, Nil);
    var t := NewWrapped('T', p, n);
    var h := NewWrapped('H', Nil, Nil);
    var c := NewWrapped('C', h, Nil);
    var w := NewWrapped('W', t, c);
    NewWrapped('A', b, w)
  }

  /** The recursive traversal of the fixture, from an empty string. */
  lemma RecursiveOnFixture()
    ensures PreorderRecursive(CreateTraversalTree(), "") == "ABXEMSWTPNCH"
  {
  }

  /** The iterative traversal of the fixture, from an empty string. */
  method IterativeOnFixture() returns (output: string)
    ensures output == "ABXEMSWTPNCH"
  {
    RecursiveOnFixture();
    ghost var ended: bool;
    output, ended := PreorderIterative(CreateTraversalTree(), "");
  }
}
