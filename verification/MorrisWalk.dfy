/**
 * find_cat_label and the Morris traversal, which threads the tree into a
 * cyclic graph while it runs. Lookups stay correct on the threaded graph.
 */
module MorrisWalk {
  import opened Names
  import opened LabelTree
  import opened LabelShape

  // ----- lookup -----

  /** Binary search on the tree as a value. */
  ghost function Lookup(t: Tree, key: Name): Label? {
    match t
    case Leaf => null
    case Node(l, n, _, r) =>
      if Compare(key, n.name) == 0 then n
      else if Compare(key, n.name) < 0 then Lookup(l, key)
      else Lookup(r, key)
  }

  /** In a sorted tree the search finds the one label with the name, if there is one. */
  lemma {:induction false} LookupExact(t: Tree, key: Name)
    requires Sorted(InOrder(t))
    ensures var y := Lookup(t, key);
            && (y != null ==> y in Labels(t) && y.name == key)
            && (y == null ==> forall z :: z in Labels(t) ==> z.name != key)
  {
    if t.Node? {
      var a, b := InOrder(t.left), InOrder(t.right);
      var s := a + [t.node] + b;
      assert a == s[..|a|] && b == s[|a| + 1..] && s[|a|] == t.node;
      LookupExact(t.left, key);
      LookupExact(t.right, key);
      LessTotal(key, t.node.name);
      forall z | z in Labels(t) && z.name == key ensures Lookup(t, key) != null {
        LessTotal(z.name, t.node.name);
        if z in Labels(t.left) {
          LabelsAreInOrder(t.left, z);
          var i :| 0 <= i < |a| && a[i] == z;
          assert s[i] == z;
        } else if z in Labels(t.right) {
          LabelsAreInOrder(t.right, z);
          var j :| 0 <= j < |b| && b[j] == z;
          assert s[|a| + 1 + j] == z;
        }
      }
    }
  }

  /**
   * p points at t, where any missing right child may instead be a thread to
   * the next label in name order (`next` for the last label of t).
   */
  ghost predicate Threaded(p: Label?, t: Tree, next: Label?)
    reads Labels(t)`left, Labels(t)`right
  {
    match t
    case Leaf => p == null || p == next
    case Node(l, n, _, r) =>
      && p == n
      && (if l.Leaf? then n.left == null else Threaded(n.left, l, n))
      && Threaded(n.right, r, next)
  }

  ghost predicate ThreadedIn(ls: set<Label>, p: Label?, t: Tree, next: Label?)
    reads ls`left, ls`right
  {
    Labels(t) <= ls && Threaded(p, t, next)
  }

  lemma ThreadedChildren(ls: set<Label>, p: Label, t: Tree, next: Label?)
    requires ThreadedIn(ls, p, t, next) && t.Node?
    ensures p == t.node
    ensures t.left.Leaf? ==> p.left == null
    ensures t.right.Leaf? ==> p.right == null || p.right == next
    ensures t.left.Node? ==> p.left != null
    ensures t.right.Node? ==> p.right == t.right.node
    ensures ThreadedIn(ls, p.left, t.left, p) && ThreadedIn(ls, p.right, t.right, next)
  {
    assert Threaded(p.right, t.right, next);
    if t.left.Node? { assert Threaded(p.left, t.left, p); }
  }

  /**
   * find_cat_label. Whatever threads are in place, the search ends and gives
   * the answer of the plain tree: a thread always leads to the milestone.
   */
  method FindCat(root: Label?, prefix: Name, name: Name, ghost ls: set<Label>, ghost t: Tree) returns (r: Label?)
    requires Sorted(InOrder(t)) && ThreadedIn(ls, root, t, null)
    ensures r == Lookup(t, prefix + name)
  {
    SortedIsDistinct(t);
    var explore, milestone: Label? := root, null;
    ghost var s := t;
    hide ThreadedIn, Threaded;
    while explore != null
      invariant Lookup(s, prefix + name) == Lookup(t, prefix + name)
      invariant ThreadedIn(ls, explore, s, milestone) && Distinct(s) && milestone !in Labels(s)
      invariant s.Leaf? <==> explore == null
      decreases s
    {
      ThreadedChildren(ls, explore, s, milestone);
      var c := CompareCat(prefix, name, explore.name);
      if c == 0 {
        return explore;
      } else if c < 0 {
        milestone := explore;
        explore := explore.left;
        s := s.left;
      } else {
        explore := explore.right;
        s := s.right;
        if explore == milestone { break; }
      }
    }
    assert s.Leaf?;
    r := null;
  }

  lemma {:induction false} HoldsIsThreaded(p: Label?, t: Tree, end: Label?)
    requires Holds(p, t, end)
    ensures Threaded(p, t, end)
    ensures end == null ==> forall x :: Threaded(p, t, x)
  {
    if t.Node? {
      HoldsIsThreaded(t.node.left, t.left, null);
      HoldsIsThreaded(t.node.right, t.right, end);
    }
  }

  lemma {:induction false} ThreadedPlug(c: Context, p: Label?, t: Tree)
    requires HoldsContext(c, p, true) && Threaded(p, t, Successor(c)) && t.Node?
    ensures Threaded(RootOf(c, p), Plug(c, t), null)
  {
    match c
    case Top =>
    case WentLeft(up, n, red, r) =>
      HoldsIsThreaded(n.right, r, Successor(up));
      ThreadedPlug(up, n, Node(t, n, red, r));
    case WentRight(up, n, red, l) =>
      HoldsIsThreaded(n.left, l, null);
      ThreadedPlug(up, n, Node(l, n, red, t));
  }

  // ----- the traversal -----

  /** The labels of the context that come before the hole in name order. */
  ghost function Before(c: Context): seq<Label> {
    match c
    case Top => []
    case WentLeft(up, _, _, _) => Before(up)
    case WentRight(up, n, _, l) => Before(up) + (InOrder(l) + [n])
  }

  ghost function After(c: Context): seq<Label> {
    match c
    case Top => []
    case WentLeft(up, n, _, r) => [n] + InOrder(r) + After(up)
    case WentRight(up, _, _, _) => After(up)
  }

  lemma Concatenations<T>(a: seq<T>, b: seq<T>, c: seq<T>, d: seq<T>)
    ensures a + (b + c) + d == a + b + (c + d)
    ensures a + (b + c) + d == (a + b) + c + d
  {
  }

  lemma {:induction false} InOrderOfPlug(c: Context, t: Tree)
    ensures InOrder(Plug(c, t)) == Before(c) + InOrder(t) + After(c)
  {
    match c
    case Top =>
    case WentLeft(up, n, red, r) =>
      InOrderOfPlug(up, Node(t, n, red, r));
      assert InOrder(t) + [n] + InOrder(r) == InOrder(t) + ([n] + InOrder(r));
      Concatenations(Before(up), InOrder(t), [n] + InOrder(r), After(up));
    case WentRight(up, n, red, l) =>
      InOrderOfPlug(up, Node(l, n, red, t));
      Concatenations(Before(up), InOrder(l) + [n], InOrder(t), After(up));
  }

  // Where the traversal stands. Fresh: at the root of t for the first time.
  // Returned: back there through the thread from its left subtree.
  datatype Place = Fresh(c: Context, t: Tree) | Returned(c: Context, t: Tree) | Finished

  /** Everything around the current label is linked as the traversal expects. */
  ghost predicate Around(ls: set<Label>, root: Label?, tree: Tree, c: Context, node: Label?, t: Tree)
    reads ls`left, ls`right, ls`isRed
  {
    && ls == Labels(tree) && Distinct(tree) && Plug(c, t) == tree && root == RootOf(c, node)
    && ContextLabels(c) <= ls && Labels(t) <= ls
    && t.Node? && node == t.node && node.isRed == t.red
    && HoldsContext(c, node, true)
    && Holds(node.right, t.right, Successor(c))
  }

  /** The invariant of the outer loop, after visiting the labels `visited`. */
  ghost predicate Walking(ls: set<Label>, root: Label?, tree: Tree, at: Place, node: Label?, visited: seq<Label>)
    reads ls`left, ls`right, ls`isRed
  {
    match at
    case Fresh(c, t) =>
      Around(ls, root, tree, c, node, t) && Holds(node.left, t.left, null) && visited == Before(c)
    case Returned(c, t) =>
      && Around(ls, root, tree, c, node, t) && Holds(node.left, t.left, node) && t.left.Node?
      && visited == Before(c) + InOrder(t.left)
    case Finished =>
      node == null && ls == Labels(tree) && Holds(root, tree, null) && visited == InOrder(tree)
  }

  /** The current label is about to be visited: its left subtree is done and restored. */
  ghost predicate Visiting(ls: set<Label>, root: Label?, tree: Tree, c: Context, t: Tree,
                           node: Label?, visited: seq<Label>)
    reads ls`left, ls`right, ls`isRed
  {
    && Around(ls, root, tree, c, node, t) && Holds(node.left, t.left, null)
    && visited == Before(c) + InOrder(t.left)
  }

  /** The traversal starts at the root of an ordinary tree. */
  lemma StartWalk(root: Label?, tree: Tree) returns (at: Place)
    requires Holds(root, tree, null) && Distinct(tree)
    ensures Walking(Labels(tree), root, tree, at, root, [])
    ensures !at.Returned?
  {
    at := if tree.Leaf? then Finished else Fresh(Top, tree);
  }

  /** Lookups are answered as on the plain tree at every visit. */
  lemma VisitingIsThreaded(ls: set<Label>, root: Label?, tree: Tree, c: Context, t: Tree,
                           node: Label?, visited: seq<Label>)
    requires Visiting(ls, root, tree, c, t, node, visited)
    ensures ThreadedIn(ls, root, tree, null)
  {
    HoldsIsThreaded(node.left, t.left, null);
    HoldsIsThreaded(node.right, t.right, Successor(c));
    ThreadedPlug(c, node, t);
  }

  /** From the end of a right spine back to where the walk turned left. */
  lemma {:induction false} BackUp(c: Context, p: Label?, t: Tree) returns (w: Context, l: Tree, q: Label?)
    requires HoldsContext(c, p, true) && Holds(p, t, Successor(c)) && t.Node?
    ensures l.Node? && Plug(w, l) == Plug(c, t) && RootOf(w, q) == RootOf(c, p)
    ensures w.Top? || w.WentLeft?
    ensures HoldsContext(w, q, true) && Holds(q, l, Successor(w))
    ensures Successor(w) == Successor(c)
    ensures Before(w) + InOrder(l) == Before(c) + InOrder(t)
    ensures ContextLabels(w) + Labels(l) == ContextLabels(c) + Labels(t)
  {
    match c
    case Top => w, l, q := c, t, p;
    case WentLeft(_, _, _, _) => w, l, q := c, t, p;
    case WentRight(up, n, red, left) => w, l, q := BackUp(up, n, Node(left, n, red, t));
  }

  /** node = node->right, after the visit. */
  lemma Leave(ls: set<Label>, root: Label?, tree: Tree, c: Context, t: Tree, node: Label, visited: seq<Label>)
    returns (at: Place)
    requires Visiting(ls, root, tree, c, t, node, visited)
    ensures Walking(ls, root, tree, at, node.right, visited + [node])
  {
    if t.right.Node? {
      at := Fresh(WentRight(c, node, t.red, t.left), t.right);
    } else {
      var w, l, q := BackUp(c, node, t);
      if w.Top? {
        at := Finished;
        assert visited + [node] == Before(c) + InOrder(t);
      } else {
        at := Returned(w.up, Node(l, w.node, w.red, w.right));
        assert visited + [node] == Before(w) + InOrder(l);
      }
    }
  }

  ghost predicate RightSpine(c: Context) {
    c.Top? || (c.WentRight? && RightSpine(c.up))
  }

  lemma {:induction false} HoldsRightSpine(c: Context, p: Label?, t: Tree, end: Label?)
    requires RightSpine(c) && HoldsContext(c, p, false) && Holds(p, t, end)
    ensures Holds(RootOf(c, p), Plug(c, t), end)
  {
    if c.WentRight? { HoldsRightSpine(c.up, c.node, Node(c.left, c.node, c.red, t), end); }
  }

  /** The right spine of l down to pre, its last label. */
  ghost predicate SpineTo(above: set<Label>, below: set<Label>, first: Label?, l: Tree, s: Tree, c: Context, pre: Label)
    reads above`left, above`right, above`isRed, below`left, below`right, below`isRed, pre`left, pre`isRed
  {
    && above == ContextLabels(c) && RightSpine(c) && HoldsContext(c, pre, false)
    && s.Node? && pre == s.node && pre.isRed == s.red
    && HoldsIn(below, pre.left, s.left)
    && Plug(c, s) == l && first == RootOf(c, pre)
  }

  /** The inner loop: pre becomes the label before node in name order. */
  method FindPre(node: Label, ghost t: Tree, ghost end: Label?) returns (pre: Label, ghost s: Tree, ghost c: Context)
    requires t.Node? && t.left.Node? && Distinct(t) && node == t.node
    requires Holds(node.left, t.left, end) && (end == null || end == node)
    ensures s.Node? && s.right == Leaf && pre.right == end
    ensures SpineTo(ContextLabels(c), Labels(s.left), node.left, t.left, s, c, pre)
    ensures pre in Labels(t.left) && pre !in Labels(s.left) && pre !in ContextLabels(c)
    ensures Labels(t.left) == Labels(s) + ContextLabels(c)
  {
    pre := node.left;
    s, c := t.left, Top;
    while pre.right != null && pre.right != node
      invariant RightSpine(c) && HoldsContext(c, pre, false) && s.Node? && Holds(pre, s, end)
      invariant Plug(c, s) == t.left && node.left == RootOf(c, pre)
      invariant Distinct(s) && DistinctContext(c) && ContextLabels(c) !! Labels(s)
      invariant Labels(t.left) == Labels(s) + ContextLabels(c)
      decreases s
    {
      c, s := WentRight(c, s.node, s.red, s.left), s.right;
      pre := pre.right;
    }
  }

  /** What stays put while the right pointer of the label before node changes. */
  ghost predicate RestOf(rest: set<Label>, c: Context, node: Label, t: Tree)
    reads rest`left, rest`right, rest`isRed, node`right, node`isRed
  {
    && t.Node? && rest == ContextLabels(c) + Labels(t.right)
    && node.isRed == t.red && HoldsContext(c, node, true) && Holds(node.right, t.right, Successor(c))
  }

  lemma OpenWalk(ls: set<Label>, root: Label?, tree: Tree, at: Place, node: Label, visited: seq<Label>)
    requires Walking(ls, root, tree, at, node, visited)
    ensures !at.Finished? && at.t.Node? && node == at.t.node && Around(ls, root, tree, at.c, node, at.t)
    ensures Distinct(at.t) && Distinct(at.t.left) && node !in Labels(at.t.left)
    ensures Holds(node.left, at.t.left, if at.Fresh? then null else node)
    ensures RestOf(ContextLabels(at.c) + Labels(at.t.right), at.c, node, at.t)
    ensures Labels(at.t.left) !! ContextLabels(at.c) + Labels(at.t.right)
    ensures Labels(at.t.left) <= ls
    ensures node.left == null <==> at.t.left == Leaf
    ensures visited == if at.Fresh? then Before(at.c) else Before(at.c) + InOrder(at.t.left)
    ensures at.t.left.Leaf? ==> Visiting(ls, root, tree, at.c, at.t, node, visited)
  {
    DistinctPlug(at.c, at.t);
  }

  lemma Rethreaded(ls: set<Label>, root: Label?, tree: Tree, c: Context, t: Tree, node: Label,
                   s: Tree, c2: Context, pre: Label, end: Label?, visited: seq<Label>)
    requires t.Node? && t.left.Node? && node == t.node && RestOf(ContextLabels(c) + Labels(t.right), c, node, t)
    requires s.Node? && s.right == Leaf && SpineTo(ContextLabels(c2), Labels(s.left), node.left, t.left, s, c2, pre)
    requires pre.right == end
    requires ls == Labels(tree) && Distinct(tree) && Plug(c, t) == tree && root == RootOf(c, node)
    ensures end == node && visited == Before(c) ==>
      Walking(ls, root, tree, Fresh(WentLeft(c, node, t.red, t.right), t.left), node.left, visited)
    ensures end == null && visited == Before(c) + InOrder(t.left) ==>
      Visiting(ls, root, tree, c, t, node, visited)
  {
    HoldsRightSpine(c2, pre, s, end);
    LabelsOfPlug(c, t);
  }

  /**
   * One round of the outer loop up to the visit: thread the label before node
   * and go left, or take that thread away again and visit node.
   */
  method Step(node: Label, ghost ls: set<Label>, ghost root: Label?, ghost tree: Tree, ghost at: Place,
              ghost visited: seq<Label>)
    returns (visit: bool, next: Label, ghost at': Place)
    requires Walking(ls, root, tree, at, node, visited)
    modifies ls`right
    ensures visit ==> !at.Finished? && next == node && Visiting(ls, root, tree, at.c, at.t, node, visited)
    ensures !visit ==> at.Fresh? && at'.Fresh? && at'.t < at.t && Walking(ls, root, tree, at', next, visited)
  {
    hide *;
    OpenWalk(ls, root, tree, at, node, visited);
    OpenAround(ls, root, tree, at.c, node, at.t);
    at' := at;
    next := node;
    visit := true;
    if node.left != null {
      ghost var rest := ContextLabels(at.c) + Labels(at.t.right);
      assert RestOf(rest, at.c, node, at.t);
      ghost var end := if at.Fresh? then null else node;
      var pre, s, c2 := FindPre(node, at.t, end);
      ghost var above, below := ContextLabels(c2), Labels(s.left);
      assert SpineTo(above, below, node.left, at.t.left, s, c2, pre);
      assert pre !in rest && pre in ls;
      if pre.right == null {
        pre.right := node;
        next := node.left;
        visit := false;
        at' := Fresh(WentLeft(at.c, node, at.t.red, at.t.right), at.t.left);
        Rethreaded(ls, root, tree, at.c, at.t, node, s, c2, pre, node, visited);
      } else {
        pre.right := null;
        Rethreaded(ls, root, tree, at.c, at.t, node, s, c2, pre, null, visited);
      }
    }
  }

  lemma OpenAround(ls: set<Label>, root: Label?, tree: Tree, c: Context, node: Label?, t: Tree)
    requires Around(ls, root, tree, c, node, t)
    ensures ls == Labels(tree) && Distinct(tree) && Plug(c, t) == tree && root == RootOf(c, node)
  {
  }
}
