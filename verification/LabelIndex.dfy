/** define_label: insertion into the label index with an explicit path array. */
module LabelIndex {
  import opened Names
  import opened Words
  import opened LabelTree
  import opened LabelShape

  datatype PathEntry = PathEntry(node: Label?, less: bool)

  /** path lists the labels of the context from the root down, with the side taken. */
  ghost predicate PathFollows(c: Context, path: seq<PathEntry>) {
    && |path| == Depth(c)
    && (!c.Top? ==>
      && path[|path| - 1] == PathEntry(c.node, c.WentLeft?)
      && PathFollows(c.up, path[..|path| - 1]))
  }

  lemma PathStart()
    ensures PathFollows(Top, [])
  {
  }

  lemma PathEnd(c: Context, path: seq<PathEntry>)
    requires PathFollows(c, path) && Depth(c) > 0
    ensures |path| > 0 && !c.Top? && path[|path| - 1] == PathEntry(c.node, c.WentLeft?)
    ensures PathFollows(c.up, path[..|path| - 1]) && Depth(c.up) == |path| - 1
  {
  }

  class Index {
    var labelList: Label?
    const log2MaxNodes: nat
    const path: array<PathEntry>
    ghost var tree: Tree
    ghost var labels: set<Label>

    /** The pointers hold a sorted left-leaning red-black tree. */
    ghost predicate Valid()
      reads this, labels`left, labels`right, labels`isRed
    {
      && labels == Labels(tree)
      && Holds(labelList, tree, null)
      && Sorted(InOrder(tree)) && RedBlack(tree)
      && path.Length == 2 * log2MaxNodes
    }

    constructor (log2MaxNodes: nat)
      ensures Valid() && tree == Leaf && this.log2MaxNodes == log2MaxNodes && fresh(path)
    {
      this.log2MaxNodes := log2MaxNodes;
      path := new PathEntry[2 * log2MaxNodes](_ => PathEntry(null, false));
      labelList := null;
      tree := Leaf;
      labels := {};
    }

    /**
     * The first loop of define_label: path[..i] records the way down, path[i]
     * the missing child. The depth reached leaves room in the array.
     */
    method Descend(name: Name, ghost x: Label) returns (i: nat, ghost c: Context)
      requires Valid() && x.name == name && |labels| + 2 <= Pow2(log2MaxNodes)
      modifies path
      ensures i < path.Length && path[i].node == null
      ensures Valid() && Plug(c, Leaf) == tree && StandsAt(labels, labelList, c, null, Leaf)
      ensures i == Depth(c) && PathFollows(c, path[..i])
      ensures Ascend(c, InsertBelow(Leaf, x)) == InsertBelow(tree, x)
    {
      hide *;
      ghost var ls := labels;
      OpenValid();
      StartDescent(ls, labelList, tree, x, log2MaxNodes);
      PathStart();
      assert forall y :: y in ls ==> y as object != path;
      path[0] := PathEntry(labelList, false);
      i, c := 0, Top;
      ghost var t := tree;
      assert path[..i] == [];
      while path[i].node != null
        invariant i < path.Length == 2 * log2MaxNodes && i == Depth(c)
        invariant Valid() && Plug(c, t) == tree && StandsAt(ls, labelList, c, path[i].node, t)
        invariant PathFollows(c, path[..i])
        invariant Ascend(c, InsertBelow(t, x)) == InsertBelow(tree, x)
        invariant DepthBound(i, tree, t)
        decreases t
      {
        var n := path[i].node;
        var less := Less(name, n.name);
        PointersDown(ls, labelList, c, n, t, less);
        StepDown(c, t, x, i, tree);
        DepthBelow(i + 1, tree, Child(t, less));
        i := Record(i, n, less, c, t);
        c, t := ContextBelow(c, t, less), Child(t, less);
      }
      AtMissingChild(ls, labelList, c, t);
    }

    /** One entry of the path: the side taken at n, and the child found there. */
    method Record(i: nat, n: Label, less: bool, ghost c: Context, ghost t: Tree) returns (i': nat)
      requires i + 1 < path.Length && path[i].node == n && PathFollows(c, path[..i])
      requires t.Node? && t.node == n
      modifies path
      ensures i' == i + 1 && i' == Depth(ContextBelow(c, t, less))
      ensures path[i'].node == if less then n.left else n.right
      ensures PathFollows(ContextBelow(c, t, less), path[..i'])
    {
      ghost var before := path[..i];
      path[i] := PathEntry(n, less);
      path[i + 1] := PathEntry(if less then n.left else n.right, false);
      i' := i + 1;
      assert path[..i'][..i] == before;
    }

    /** The fix-up at a label whose left child was replaced by the red child. */
    static method FixUpLeft(n: Label, left: Label, ghost st: set<Label>, ghost t: Tree,
                            ghost sib: set<Label>, ghost right: Tree)
      returns (top: Label)
      requires IsRed(t) && HoldsIn(st, left, t) && HoldsIn(sib, n.right, right)
      requires n.left == left && st !! sib !! {n} && Distinct(t)
      modifies (st + {n})`left, (st + {n})`right, (st + {n})`isRed
      ensures HoldsIn(st + sib + {n}, top, FixLeft(t, n, old(n.isRed), right))
    {
      hide Holds, HoldsIn, Labels, Distinct;
      OpenNode(st, left, t);
      ghost var a, b := Labels(t.left), Labels(t.right);
      OpenNode(a, left.left, t.left);
      var leftleft := left.left;
      top := n;
      if leftleft != null && leftleft.isRed {
        ghost var a1, a2 := Labels(t.left.left), Labels(t.left.right);
        leftleft.isRed := false;
        var tl := n.left;
        n.left := tl.right;
        tl.right := n;
        top := tl;
        CloseNode(leftleft, a1, t.left.left, a2, t.left.right);
        CloseNode(n, b, t.right, sib, right);
        CloseNode(tl, a, Blacken(t.left), b + sib + {n}, Node(t.right, n, n.isRed, right));
        assert a + (b + sib + {n}) + {tl} == st + sib + {n};
      } else {
        CloseNode(n, st, t, sib, right);
      }
    }

    /** The fix-up at a label whose right child was replaced by the red child. */
    static method FixUpRight(n: Label, right: Label, ghost st: set<Label>, ghost t: Tree,
                             ghost sib: set<Label>, ghost left: Tree)
      returns (top: Label)
      requires IsRed(t) && HoldsIn(st, right, t) && HoldsIn(sib, n.left, left)
      requires n.right == right && st !! sib !! {n} && Distinct(t) && Distinct(left)
      modifies (st + sib + {n})`left, (st + sib + {n})`right, (st + sib + {n})`isRed
      ensures HoldsIn(st + sib + {n}, top, FixRight(left, n, old(n.isRed), t))
    {
      hide Holds, HoldsIn, Labels, Distinct;
      OpenNode(st, right, t);
      OpenNode(sib, n.left, left);
      ghost var a, b := Labels(t.left), Labels(t.right);
      var l := n.left;
      top := n;
      if l != null && l.isRed {
        ghost var c, d := Labels(left.left), Labels(left.right);
        l.isRed := false;
        right.isRed := false;
        n.isRed := true;
        CloseNode(l, c, left.left, d, left.right);
        CloseNode(right, a, t.left, b, t.right);
        CloseNode(n, sib, Blacken(left), st, Blacken(t));
        assert sib + st + {n} == st + sib + {n};
      } else {
        var tl := n.right;
        n.right := tl.left;
        tl.left := n;
        tl.isRed := n.isRed;
        n.isRed := true;
        top := tl;
        CloseNode(n, sib, left, a, t.left);
        CloseNode(tl, sib + a + {n}, Node(left, n, true, t.left), b, t.right);
        assert sib + a + {n} + b + {tl} == st + sib + {n};
      }
    }

    /** The fix-up at the label n at the bottom of context c, whose red child is the root of t. */
    static method FixUp(n: Label, less: bool, child: Label, ghost st: set<Label>, ghost sib: set<Label>,
                        ghost rest: set<Label>, ghost c: Context, ghost t: Tree)
      returns (top: Label)
      requires AroundHole(st, sib, rest, c, child, t) && n == c.node && less == c.WentLeft? && IsRed(t)
      requires child == if less then n.left else n.right
      requires st !! sib !! rest !! {n} && Distinct(t) && Distinct(Sibling(c))
      modifies (st + sib + {n})`left, (st + sib + {n})`right, (st + sib + {n})`isRed
      ensures HoldsIn(st + sib + {n}, top, FixAt(c, t)) && ContextIn(rest, c.up, n)
    {
      hide Holds, HoldsIn, ContextIn, HoldsContext, Labels, Distinct, FixLeft, FixRight;
      if less {
        top := FixUpLeft(n, child, st, t, sib, c.right);
      } else {
        top := FixUpRight(n, child, st, t, sib, c.left);
      }
    }

    /**
     * One round of the second loop of define_label: hang the repaired child
     * under n and fix up there, or find that nothing is left to fix.
     */
    static method RepairAt(n: Label, less: bool, child: Label, ghost ls: set<Label>, ghost root: Label?,
                           ghost c: Context, ghost hole: Label?, ghost below: Tree, ghost t: Tree,
                           ghost tree0: Tree, ghost x: Label)
      returns (done: bool, top: Label)
      requires Repairing(ls, root, c, hole, below, child, t, tree0, x)
      requires !c.Top? && n == c.node && less == c.WentLeft?
      requires LeftLeaning(tree0) && !IsRed(tree0)
      modifies ls`left, ls`right, ls`isRed
      ensures done ==> HoldsIn(ls, root, Insert(tree0, x))
      ensures !done ==> Repairing(ls, root, c.up, n, Over(c, below), top, FixAt(c, t), tree0, x)
    {
      hide *;
      OpenRepair(ls, root, c, hole, below, child, t, tree0, x);
      OpenNode(Labels(t), child, t);
      ghost var st, sib, rest := Labels(t), Labels(Sibling(c)), ContextLabels(c.up);
      done := !child.isRed;
      top := n;
      if less { n.left := child; } else { n.right := child; }
      CloseAround(st, sib, rest, c, child, t);
      if done {
        StopEarly(ls, st, sib, rest, root, c, below, child, t, tree0, x);
      } else {
        top := FixUp(n, less, child, st, sib, rest, c, t);
        CloseRepair(ls, root, c, below, top, t, tree0, x);
      }
    }

    /** The label x is in the tree; the pointers agree. */
    lemma InsertedIsValid(tree0: Tree, x: Label)
      requires tree == Insert(tree0, x) && HoldsIn(labels, labelList, tree)
      requires Sorted(InOrder(tree0)) && RedBlack(tree0) && path.Length == 2 * log2MaxNodes
      requires forall y :: y in Labels(tree0) ==> y.name != x.name
      ensures Valid() && InOrder(tree) == InsertSorted(InOrder(tree0), x) && labels == Labels(tree0) + {x}
    {
      InsertInOrder(tree0, x);
      InsertKeepsRedBlack(tree0, x);
    }

    lemma OpenValid()
      requires Valid()
      ensures labels == Labels(tree) && Sorted(InOrder(tree)) && RedBlack(tree) && Distinct(tree)
      ensures LeftLeaning(tree) && !IsRed(tree) && path.Length == 2 * log2MaxNodes
      ensures Holds(labelList, tree, null)
    {
      SortedIsDistinct(tree);
    }

    /**
     * define_label. The new tree is the recursive insertion of the new label
     * into the old one, whether the fix-up runs to the root or stops early;
     * only links and colours of old labels change, and every path index stays
     * below 2 * log2MaxNodes.
     */
    method Define(name: Name, value: int) returns (x: Label)
      requires Valid()
      requires forall y :: y in labels ==> y.name != name
      requires |labels| + 2 <= Pow2(log2MaxNodes)
      modifies this, path, labels`left, labels`right, labels`isRed
      ensures Valid()
      ensures fresh(x) && x.name == name && x.value == value && !x.isDeleted
      ensures tree == Insert(old(tree), x)
      ensures InOrder(tree) == InsertSorted(old(InOrder(tree)), x)
      ensures labels == old(labels) + {x}
    {
      x := new Label(name, value);
      Link(x);
    }

    /** define_label after the new label has been filled in. */
    method Link(x: Label)
      requires Valid() && x !in labels
      requires x.left == null && x.right == null && x.isRed
      requires forall y :: y in labels ==> y.name != x.name
      requires |labels| + 2 <= Pow2(log2MaxNodes)
      modifies this, path, (labels + {x})`left, (labels + {x})`right, (labels + {x})`isRed
      ensures Valid()
      ensures tree == Insert(old(tree), x)
      ensures InOrder(tree) == InsertSorted(old(InOrder(tree)), x)
      ensures labels == old(labels) + {x}
    {
      hide *;
      ghost var tree0, ls := tree, labels + {x};
      OpenValid();
      var i, c := Descend(x.name, x);
      assert forall y :: y in ls ==> y as object != path && y as object != this;
      path[i] := PathEntry(x, false);
      StartRepair(labels, labelList, c, tree0, x);
      Repair(i, c, ls, x);
      tree, labels := Insert(tree0, x), ls;
      InsertedIsValid(tree0, x);
    }

    /** The second loop of define_label, from path[i] back up to the root. */
    method Repair(last: nat, ghost lastContext: Context, ghost ls: set<Label>, ghost x: Label)
      requires last < path.Length && last == Depth(lastContext) && PathFollows(lastContext, path[..last])
      requires Repairing(ls, labelList, lastContext, null, Leaf, path[last].node, Node(Leaf, x, true, Leaf), tree, x)
      requires LeftLeaning(tree) && !IsRed(tree)
      modifies `labelList, path, ls`left, ls`right, ls`isRed
      ensures HoldsIn(ls, labelList, Insert(tree, x))
    {
      hide *;
      assert forall y :: y in ls ==> y as object != path && y as object != this;
      var i, c := last, lastContext;
      ghost var hole: Label?, below, t := null, Leaf, Node(Leaf, x, true, Leaf);
      while i != 0
        invariant i < path.Length && i == Depth(c)
        invariant labelList == old(labelList)
        invariant Repairing(ls, labelList, c, hole, below, path[i].node, t, tree, x)
        invariant PathFollows(c, path[..i])
      {
        PathEnd(c, path[..i]);
        RepairedSomething(ls, labelList, c, hole, below, path[i].node, t, tree, x);
        var child := path[i].node;
        i := i - 1;
        assert path[..i + 1][..i] == path[..i];
        var n := path[i].node;
        ghost var above := path[..i];
        var done, top := RepairAt(n, path[i].less, child, ls, labelList, c, hole, below, t, tree, x);
        if done { return; }
        path[i] := PathEntry(top, path[i].less);
        assert path[..i] == above;
        c, hole, below, t := c.up, n, Over(c, below), FixAt(c, t);
      }
      ReachedTop(ls, labelList, c, hole, below, path[0].node, t, tree, x);
      labelList := path[0].node;
      RootTurnsBlack(ls, labelList, t);
    }

    /** The last statement of define_label: the root turns black. */
    static method RootTurnsBlack(ghost ls: set<Label>, root: Label?, ghost t: Tree)
      requires HoldsIn(ls, root, t) && t.Node? && Distinct(t)
      modifies ls`isRed
      ensures HoldsIn(ls, root, t.(red := false))
    {
      OpenNode(ls, root, t);
      root.isRed := false;
    }
  }
}
