/** How a tree of labels is laid out in the pointers of its labels. */
module LabelShape {
  import opened Names
  import opened Words
  import opened LabelTree

  // A tree with one subtree taken out: the way back up from the hole.
  datatype Context =
    | Top
    | WentLeft(up: Context, node: Label, red: bool, right: Tree)
    | WentRight(up: Context, node: Label, red: bool, left: Tree)

  ghost function Plug(c: Context, t: Tree): Tree {
    match c
    case Top => t
    case WentLeft(up, n, red, r) => Plug(up, Node(t, n, red, r))
    case WentRight(up, n, red, l) => Plug(up, Node(l, n, red, t))
  }

  ghost function ContextLabels(c: Context): set<Label> {
    match c
    case Top => {}
    case WentLeft(up, n, _, r) => ContextLabels(up) + {n} + Labels(r)
    case WentRight(up, n, _, l) => ContextLabels(up) + {n} + Labels(l)
  }

  ghost function Depth(c: Context): nat {
    if c.Top? then 0 else 1 + Depth(c.up)
  }

  /** The subtree that hangs beside the hole. */
  ghost function Sibling(c: Context): Tree
    requires !c.Top?
  {
    if c.WentLeft? then c.right else c.left
  }

  ghost predicate DistinctContext(c: Context) {
    c.Top? || (
      && c.node !in Labels(Sibling(c)) && c.node !in ContextLabels(c.up)
      && Labels(Sibling(c)) !! ContextLabels(c.up)
      && Distinct(Sibling(c)) && DistinctContext(c.up))
  }

  /** The label reached first in name order after everything in the hole. */
  ghost function Successor(c: Context): Label? {
    match c
    case Top => null
    case WentLeft(_, n, _, _) => n
    case WentRight(up, _, _, _) => Successor(up)
  }

  ghost function RootOf(c: Context, hole: Label?): Label? {
    if c.Top? then hole else RootOf(c.up, c.node)
  }

  /**
   * p points at tree t, colours included; the right pointer that ends t's
   * right spine holds `end` (null for an ordinary tree).
   */
  ghost predicate Holds(p: Label?, t: Tree, end: Label?)
    reads Labels(t)`left, Labels(t)`right, Labels(t)`isRed
  {
    match t
    case Leaf => p == end
    case Node(l, n, red, r) =>
      p == n && n.isRed == red && Holds(n.left, l, null) && Holds(n.right, r, end)
  }

  /**
   * The labels of the context are linked as Plug arranges them around `hole`.
   * With `threaded`, the right spine beside every label that was left on its
   * left side ends in a thread to the next label in name order.
   */
  ghost predicate HoldsContext(c: Context, hole: Label?, threaded: bool)
    reads ContextLabels(c)`left, ContextLabels(c)`right, ContextLabels(c)`isRed
  {
    match c
    case Top => true
    case WentLeft(up, n, red, r) =>
      && n.left == hole && n.isRed == red
      && Holds(n.right, r, if threaded then Successor(up) else null)
      && HoldsContext(up, n, threaded)
    case WentRight(up, n, red, l) =>
      && n.right == hole && n.isRed == red
      && Holds(n.left, l, null)
      && HoldsContext(up, n, threaded)
  }

  lemma {:induction false} LabelsOfPlug(c: Context, t: Tree)
    ensures Labels(Plug(c, t)) == ContextLabels(c) + Labels(t)
  {
    match c
    case Top =>
    case WentLeft(up, n, red, r) => LabelsOfPlug(up, Node(t, n, red, r));
    case WentRight(up, n, red, l) => LabelsOfPlug(up, Node(l, n, red, t));
  }

  lemma {:induction false} DistinctPlug(c: Context, t: Tree)
    ensures Distinct(Plug(c, t)) <==>
            DistinctContext(c) && Distinct(t) && ContextLabels(c) !! Labels(t)
  {
    match c
    case Top =>
    case WentLeft(up, n, red, r) => DistinctPlug(up, Node(t, n, red, r));
    case WentRight(up, n, red, l) => DistinctPlug(up, Node(l, n, red, t));
  }

  lemma {:induction false} HoldsPlug(c: Context, p: Label?, t: Tree)
    requires Holds(p, t, null) && HoldsContext(c, p, false)
    ensures Holds(RootOf(c, p), Plug(c, t), null)
  {
    match c
    case Top =>
    case WentLeft(up, n, red, r) => HoldsPlug(up, n, Node(t, n, red, r));
    case WentRight(up, n, red, l) => HoldsPlug(up, n, Node(l, n, red, t));
  }

  lemma {:induction false} BalanceOfPlug(c: Context, t: Tree)
    requires LeftLeaning(Plug(c, t))
    ensures LeftLeaning(t)
  {
    match c
    case Top =>
    case WentLeft(up, n, red, r) => BalanceOfPlug(up, Node(t, n, red, r));
    case WentRight(up, n, red, l) => BalanceOfPlug(up, Node(l, n, red, t));
  }

  lemma {:induction false} ColourOfPlug(c: Context, s: Tree, t: Tree)
    requires IsRed(s) == IsRed(t)
    ensures IsRed(Plug(c, s)) == IsRed(Plug(c, t))
  {
    match c
    case Top =>
    case WentLeft(up, n, red, r) => ColourOfPlug(up, Node(s, n, red, r), Node(t, n, red, r));
    case WentRight(up, n, red, l) => ColourOfPlug(up, Node(l, n, red, s), Node(l, n, red, t));
  }

  /** The fix-up repeated on every level on the way up. */
  ghost function Ascend(c: Context, t: Tree): Tree {
    match c
    case Top => t
    case WentLeft(up, n, red, r) => Ascend(up, FixLeft(t, n, red, r))
    case WentRight(up, n, red, l) => Ascend(up, FixRight(l, n, red, t))
  }

  /**
   * Once a replaced subtree has the colour of the one it replaces, no level
   * above it has anything left to fix: this is what `goto done` relies on.
   */
  lemma {:induction false} NothingToFixAbove(c: Context, old0: Tree, t: Tree)
    requires LeftLeaning(Plug(c, old0))
    requires IsRed(t) == IsRed(old0) && (IsRed(t) ==> !IsRed(t.left))
    ensures Ascend(c, t) == Plug(c, t)
  {
    match c
    case Top =>
    case WentLeft(up, n, red, r) =>
      BalanceOfPlug(up, Node(old0, n, red, r));
      NothingToFixAbove(up, Node(old0, n, red, r), Node(t, n, red, r));
    case WentRight(up, n, red, l) =>
      BalanceOfPlug(up, Node(l, n, red, old0));
      NothingToFixAbove(up, Node(l, n, red, old0), Node(l, n, red, t));
  }

  /** The early exit: a black replacement below a label ends the fix-up. */
  lemma EarlyExit(c: Context, old0: Tree, t: Tree)
    requires !c.Top? && LeftLeaning(Plug(c, old0)) && !IsRed(t)
    ensures Ascend(c, t) == Plug(c, t)
    ensures IsRed(Plug(c, t)) == IsRed(Plug(c, old0))
  {
    match c
    case WentLeft(up, n, red, r) =>
      BalanceOfPlug(up, Node(old0, n, red, r));
      NothingToFixAbove(up, Node(old0, n, red, r), Node(t, n, red, r));
      ColourOfPlug(up, Node(old0, n, red, r), Node(t, n, red, r));
    case WentRight(up, n, red, l) =>
      BalanceOfPlug(up, Node(l, n, red, old0));
      NothingToFixAbove(up, Node(l, n, red, old0), Node(l, n, red, t));
      ColourOfPlug(up, Node(l, n, red, old0), Node(l, n, red, t));
  }

  // ----- one step of the descent -----

  ghost function ContextBelow(c: Context, t: Tree, less: bool): Context
    requires t.Node?
  {
    if less then WentLeft(c, t.node, t.red, t.right) else WentRight(c, t.node, t.red, t.left)
  }

  ghost function Child(t: Tree, less: bool): Tree
    requires t.Node?
  {
    if less then t.left else t.right
  }

  /** i levels down, at subtree t: red levels never outnumber black ones. */
  ghost predicate DepthBound(i: nat, root: Tree, t: Tree) {
    && LeftLeaning(t) && EqualBlackHeights(t)
    && i + (if IsRed(t) then 1 else 0) <= 2 * (BlackHeight(root) - BlackHeight(t))
  }

  lemma StepDown(c: Context, t: Tree, x: Label, i: nat, root: Tree)
    requires t.Node? && DepthBound(i, root, t)
    ensures var less := Less(x.name, t.node.name);
            var c', t' := ContextBelow(c, t, less), Child(t, less);
            && Plug(c', t') == Plug(c, t)
            && Ascend(c', InsertBelow(t', x)) == Ascend(c, InsertBelow(t, x))
            && Depth(c') == Depth(c) + 1 && t' < t
            && DepthBound(i + 1, root, t')
  {
  }

  /** The descent stands at p, the root of t, with c around it; all labels are in ls. */
  ghost predicate StandsAt(ls: set<Label>, root: Label?, c: Context, p: Label?, t: Tree)
    reads ls`left, ls`right, ls`isRed
  {
    && Labels(t) <= ls && ContextLabels(c) <= ls
    && Holds(p, t, null) && HoldsContext(c, p, false)
    && root == RootOf(c, p)
  }

  lemma PointersDown(ls: set<Label>, root: Label?, c: Context, p: Label, t: Tree, less: bool)
    requires StandsAt(ls, root, c, p, t)
    ensures t.Node? && p == t.node
    ensures StandsAt(ls, root, ContextBelow(c, t, less), if less then p.left else p.right, Child(t, less))
  {
  }

  lemma StartDescent(ls: set<Label>, root: Label?, t: Tree, x: Label, k: nat)
    requires ls == Labels(t) && Holds(root, t, null)
    requires Sorted(InOrder(t)) && RedBlack(t) && |ls| + 2 <= Pow2(k)
    ensures StandsAt(ls, root, Top, root, t) && DepthBound(0, t, t)
    ensures Depth(Top) == 0 && Plug(Top, t) == t && Ascend(Top, InsertBelow(t, x)) == InsertBelow(t, x)
    ensures 2 * BlackHeight(t) + 2 <= 2 * k
  {
    SortedIsDistinct(t);
    SizeIsCount(t);
    BlackHeightBelow(t, k);
  }

  lemma AtMissingChild(ls: set<Label>, root: Label?, c: Context, t: Tree)
    requires StandsAt(ls, root, c, null, t)
    ensures t == Leaf
  {
  }

  lemma DepthBelow(i: nat, root: Tree, t: Tree)
    requires DepthBound(i, root, t)
    ensures i <= 2 * BlackHeight(root)
  {
  }

  // ----- one step of the repair -----

  ghost predicate HoldsIn(s: set<Label>, p: Label?, t: Tree)
    reads s`left, s`right, s`isRed
  {
    s == Labels(t) && Holds(p, t, null)
  }

  lemma OpenNode(s: set<Label>, p: Label?, t: Tree)
    requires HoldsIn(s, p, t) && Distinct(t)
    ensures p == null <==> t.Leaf?
    ensures t.Node? ==>
      && p == t.node && p.isRed == t.red == IsRed(t)
      && HoldsIn(Labels(t.left), p.left, t.left) && HoldsIn(Labels(t.right), p.right, t.right)
      && s == Labels(t.left) + Labels(t.right) + {p}
      && Labels(t.left) !! Labels(t.right) !! {p}
      && Distinct(t.left) && Distinct(t.right)
  {
  }

  lemma CloseNode(n: Label, sl: set<Label>, l: Tree, sr: set<Label>, r: Tree)
    requires HoldsIn(sl, n.left, l) && HoldsIn(sr, n.right, r)
    ensures HoldsIn(sl + sr + {n}, n, Node(l, n, n.isRed, r))
  {
  }

  ghost predicate ContextIn(s: set<Label>, c: Context, hole: Label?)
    reads s`left, s`right, s`isRed
  {
    s == ContextLabels(c) && HoldsContext(c, hole, false)
  }

  /** The part of the repair invariant that does not look at the heap. */
  ghost predicate RepairPlan(c: Context, below: Tree, t: Tree, tree0: Tree, x: Label) {
    && Plug(c, below) == tree0 && Labels(t) == Labels(below) + {x}
    && Distinct(t) && DistinctContext(c) && ContextLabels(c) !! Labels(t)
    && Ascend(c, t) == InsertBelow(tree0, x)
  }

  /**
   * The repair stands below c with p, the root of t, in place of the old
   * subtree `below`, whose root the context still points at (`hole`).
   */
  ghost predicate Repairing(ls: set<Label>, root: Label?, c: Context, hole: Label?, below: Tree,
                            p: Label?, t: Tree, tree0: Tree, x: Label)
    reads ls`left, ls`right, ls`isRed
  {
    && Labels(t) + ContextLabels(c) == ls
    && HoldsIn(Labels(t), p, t) && ContextIn(ContextLabels(c), c, hole)
    && root == RootOf(c, hole)
    && RepairPlan(c, below, t, tree0, x)
  }

  /** The fixed-up tree one level higher. */
  ghost function FixAt(c: Context, t: Tree): Tree
    requires !c.Top?
  {
    if c.WentLeft? then FixLeft(t, c.node, c.red, c.right) else FixRight(c.left, c.node, c.red, t)
  }

  /** The tree one level higher without a fix-up. */
  ghost function Over(c: Context, t: Tree): Tree
    requires !c.Top?
  {
    if c.WentLeft? then Node(t, c.node, c.red, c.right) else Node(c.left, c.node, c.red, t)
  }

  lemma BlackenKeepsLabels(t: Tree)
    ensures Labels(Blacken(t)) == Labels(t) && Distinct(Blacken(t)) == Distinct(t)
  {
  }

  lemma FixKeepsLabels(c: Context, t: Tree)
    requires !c.Top? && Distinct(Over(c, t))
    ensures Distinct(FixAt(c, t)) && Labels(FixAt(c, t)) == Labels(Over(c, t))
  {
    BlackenKeepsLabels(t);
    BlackenKeepsLabels(Sibling(c));
    if IsRed(t) { BlackenKeepsLabels(t.left); }
  }

  lemma PlanOneUp(c: Context, below: Tree, t: Tree, tree0: Tree, x: Label)
    requires !c.Top? && RepairPlan(c, below, t, tree0, x)
    ensures RepairPlan(c.up, Over(c, below), FixAt(c, t), tree0, x)
    ensures Labels(FixAt(c, t)) == Labels(t) + Labels(Sibling(c)) + {c.node}
  {
    FixKeepsLabels(c, t);
  }

  lemma StartRepair(ls: set<Label>, root: Label?, c: Context, tree0: Tree, x: Label)
    requires StandsAt(ls, root, c, null, Leaf) && Plug(c, Leaf) == tree0 && ls == Labels(tree0)
    requires Distinct(tree0) && x !in ls && x.left == null && x.right == null && x.isRed
    requires Ascend(c, InsertBelow(Leaf, x)) == InsertBelow(tree0, x)
    ensures Repairing(ls + {x}, root, c, null, Leaf, x, Node(Leaf, x, true, Leaf), tree0, x)
  {
    DistinctPlug(c, Leaf);
    LabelsOfPlug(c, Leaf);
  }

  /** What the heap holds around the label n at the bottom of the context. */
  ghost predicate AroundHole(st: set<Label>, sib: set<Label>, rest: set<Label>, c: Context, p: Label?, t: Tree)
    reads st`left, st`right, st`isRed, sib`left, sib`right, sib`isRed, rest`left, rest`right, rest`isRed,
          (if c.Top? then {} else {c.node})`left, (if c.Top? then {} else {c.node})`right,
          (if c.Top? then {} else {c.node})`isRed
  {
    && !c.Top?
    && HoldsIn(st, p, t)
    && HoldsIn(sib, if c.WentLeft? then c.node.right else c.node.left, Sibling(c))
    && ContextIn(rest, c.up, c.node)
    && c.node.isRed == c.red
  }

  lemma OpenRepair(ls: set<Label>, root: Label?, c: Context, hole: Label?, below: Tree,
                   p: Label?, t: Tree, tree0: Tree, x: Label)
    requires Repairing(ls, root, c, hole, below, p, t, tree0, x) && !c.Top?
    ensures HoldsIn(Labels(t), p, t) && ContextIn(ContextLabels(c.up), c.up, c.node)
    ensures HoldsIn(Labels(Sibling(c)), if c.WentLeft? then c.node.right else c.node.left, Sibling(c))
    ensures c.node.isRed == c.red
    ensures ls == Labels(t) + Labels(Sibling(c)) + ContextLabels(c.up) + {c.node}
    ensures Labels(t) !! Labels(Sibling(c)) !! ContextLabels(c.up) !! {c.node}
    ensures Distinct(t) && Distinct(Sibling(c)) && root == RootOf(c.up, c.node)
    ensures RepairPlan(c, below, t, tree0, x)
  {
  }

  lemma CloseRepair(ls: set<Label>, root: Label?, c: Context, below: Tree,
                    top: Label?, t: Tree, tree0: Tree, x: Label)
    requires !c.Top? && RepairPlan(c, below, t, tree0, x) && root == RootOf(c.up, c.node)
    requires ls == Labels(t) + Labels(Sibling(c)) + ContextLabels(c.up) + {c.node}
    requires HoldsIn(Labels(t) + Labels(Sibling(c)) + {c.node}, top, FixAt(c, t))
    requires ContextIn(ContextLabels(c.up), c.up, c.node)
    ensures Repairing(ls, root, c.up, c.node, Over(c, below), top, FixAt(c, t), tree0, x)
  {
    PlanOneUp(c, below, t, tree0, x);
  }

  lemma CloseAround(st: set<Label>, sib: set<Label>, rest: set<Label>, c: Context, p: Label?, t: Tree)
    requires !c.Top? && HoldsIn(st, p, t) && ContextIn(rest, c.up, c.node) && c.node.isRed == c.red
    requires HoldsIn(sib, if c.WentLeft? then c.node.right else c.node.left, Sibling(c))
    ensures AroundHole(st, sib, rest, c, p, t)
  {
  }

  lemma StopEarly(ls: set<Label>, st: set<Label>, sib: set<Label>, rest: set<Label>, root: Label?, c: Context,
                  below: Tree, p: Label?, t: Tree, tree0: Tree, x: Label)
    requires AroundHole(st, sib, rest, c, p, t)
    requires p == if c.WentLeft? then c.node.left else c.node.right
    requires root == RootOf(c.up, c.node) && RepairPlan(c, below, t, tree0, x)
    requires LeftLeaning(tree0) && !IsRed(tree0) && !IsRed(t)
    requires ls == st + sib + rest + {c.node}
    ensures HoldsIn(ls, root, Insert(tree0, x))
  {
    EarlyExit(c, below, t);
    LabelsOfPlug(c, t);
    HoldsPlug(c, p, t);
  }

  lemma RepairedSomething(ls: set<Label>, root: Label?, c: Context, hole: Label?, below: Tree,
                          p: Label?, t: Tree, tree0: Tree, x: Label)
    requires Repairing(ls, root, c, hole, below, p, t, tree0, x)
    ensures p != null
  {
    assert x in Labels(t);
  }

  /** The loop has reached the root: blackening it yields the inserted tree. */
  lemma ReachedTop(ls: set<Label>, root: Label?, c: Context, hole: Label?, below: Tree,
                   p: Label?, t: Tree, tree0: Tree, x: Label)
    requires Repairing(ls, root, c, hole, below, p, t, tree0, x) && Depth(c) == 0
    ensures t == InsertBelow(tree0, x) && t.Node? && HoldsIn(Labels(t), p, t) && Distinct(t)
    ensures Insert(tree0, x) == t.(red := false) && Labels(t) == ls
  {
  }
}
