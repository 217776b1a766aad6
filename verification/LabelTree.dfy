/**
 * The shape of the label index as a value: a binary tree whose nodes are the
 * label records. The functions read only the constant name of a record, so no
 * heap is involved; LabelIndex ties these trees to the pointers.
 */
module LabelTree {
  import opened Names
  import opened Words

  // One label record. RBL_GET_LEFT/RIGHT and the two flags are plain fields
  // here, as in every build except the DOS one (PackedPointers treats that).
  class Label {
    const name: Name
    var value: int
    var left: Label?
    var right: Label?
    var isRed: bool
    var isDeleted: bool

    constructor (name: Name, value: int)
      ensures this.name == name && this.value == value
      ensures left == null && right == null && isRed && !isDeleted
    {
      this.name := name;
      this.value := value;
      left, right, isRed, isDeleted := null, null, true, false;
    }
  }

  datatype Tree = Leaf | Node(left: Tree, node: Label, red: bool, right: Tree)

  ghost function InOrder(t: Tree): seq<Label> {
    match t
    case Leaf => []
    case Node(l, n, _, r) => InOrder(l) + [n] + InOrder(r)
  }

  ghost function Labels(t: Tree): set<Label> {
    match t
    case Leaf => {}
    case Node(l, n, _, r) => Labels(l) + {n} + Labels(r)
  }

  ghost function Size(t: Tree): nat {
    match t
    case Leaf => 0
    case Node(l, _, _, r) => Size(l) + 1 + Size(r)
  }

  /** No label occurs twice. */
  ghost predicate Distinct(t: Tree) {
    match t
    case Leaf => true
    case Node(l, n, _, r) =>
      n !in Labels(l) && n !in Labels(r) && Labels(l) !! Labels(r) && Distinct(l) && Distinct(r)
  }

  ghost predicate Sorted(s: seq<Label>) {
    forall i, j :: 0 <= i < j < |s| ==> Less(s[i].name, s[j].name)
  }

  predicate IsRed(t: Tree) {
    t.Node? && t.red
  }

  /** No red right child, no red node with a red left child. */
  ghost predicate LeftLeaning(t: Tree) {
    t.Node? ==>
      && !IsRed(t.right)
      && (t.red ==> !IsRed(t.left))
      && LeftLeaning(t.left) && LeftLeaning(t.right)
  }

  /** Like LeftLeaning, except that a red root may have a red left child. */
  ghost predicate NearlyLeftLeaning(t: Tree) {
    t.Node? ==> !IsRed(t.right) && LeftLeaning(t.left) && LeftLeaning(t.right)
  }

  ghost function BlackHeight(t: Tree): nat {
    match t
    case Leaf => 0
    case Node(l, _, red, _) => BlackHeight(l) + if red then 0 else 1
  }

  /** Every path from the root to a missing child passes the same number of black nodes. */
  ghost predicate EqualBlackHeights(t: Tree) {
    t.Node? ==>
      && BlackHeight(t.left) == BlackHeight(t.right)
      && EqualBlackHeights(t.left) && EqualBlackHeights(t.right)
  }

  ghost predicate RedBlack(t: Tree) {
    !IsRed(t) && LeftLeaning(t) && EqualBlackHeights(t)
  }

  ghost function Blacken(t: Tree): Tree {
    if t.Node? then t.(red := false) else t
  }

  // ----- insertion, as a recursive function on trees -----

  /** What one step of the fix-up does to a node whose left child was replaced. */
  ghost function FixLeft(left: Tree, n: Label, red: bool, right: Tree): Tree {
    if IsRed(left) && IsRed(left.left) then
      Node(Blacken(left.left), left.node, left.red, Node(left.right, n, red, right))
    else
      Node(left, n, red, right)
  }

  /** The same for the right child. */
  ghost function FixRight(left: Tree, n: Label, red: bool, right: Tree): Tree {
    if !IsRed(right) then Node(left, n, red, right)
    else if IsRed(left) then Node(Blacken(left), n, true, Blacken(right))
    else Node(Node(left, n, true, right.left), right.node, red, right.right)
  }

  ghost function InsertBelow(t: Tree, x: Label): Tree {
    match t
    case Leaf => Node(Leaf, x, true, Leaf)
    case Node(l, n, red, r) =>
      if Less(x.name, n.name) then FixLeft(InsertBelow(l, x), n, red, r)
      else FixRight(l, n, red, InsertBelow(r, x))
  }

  ghost function Insert(t: Tree, x: Label): Tree {
    Blacken(InsertBelow(t, x))
  }

  // ----- what insertion preserves -----

  lemma {:induction false} InsertBelowKeepsBalance(t: Tree, x: Label)
    requires LeftLeaning(t) && EqualBlackHeights(t)
    ensures var u := InsertBelow(t, x);
            && NearlyLeftLeaning(u) && EqualBlackHeights(u)
            && BlackHeight(u) == BlackHeight(t)
            && (!IsRed(t) ==> LeftLeaning(u))
  {
    if t.Node? {
      if Less(x.name, t.node.name) {
        InsertBelowKeepsBalance(t.left, x);
      } else {
        InsertBelowKeepsBalance(t.right, x);
      }
    }
  }

  /** Black root, left-leaning, equal black heights: all kept by one insertion. */
  lemma InsertKeepsRedBlack(t: Tree, x: Label)
    requires RedBlack(t)
    ensures RedBlack(Insert(t, x))
  {
    InsertBelowKeepsBalance(t, x);
  }

  /** x put in front of the first element with a larger name. */
  ghost function InsertSorted(s: seq<Label>, x: Label): seq<Label> {
    if s == [] then [x]
    else if Less(x.name, s[0].name) then [x] + s
    else [s[0]] + InsertSorted(s[1..], x)
  }

  lemma {:induction false} InsertSortedSkips(a: seq<Label>, b: seq<Label>, x: Label)
    requires forall y :: y in a ==> !Less(x.name, y.name)
    ensures InsertSorted(a + b, x) == a + InsertSorted(b, x)
  {
    if a == [] {
      assert a + b == b;
    } else {
      assert (a + b)[1..] == a[1..] + b;
      InsertSortedSkips(a[1..], b, x);
    }
  }

  lemma {:induction false} InsertSortedStops(a: seq<Label>, n: Label, b: seq<Label>, x: Label)
    requires Less(x.name, n.name)
    ensures InsertSorted(a + [n] + b, x) == InsertSorted(a, x) + [n] + b
  {
    if a == [] {
      assert a + [n] + b == [n] + b;
    } else {
      assert (a + [n] + b)[1..] == a[1..] + [n] + b;
      InsertSortedStops(a[1..], n, b, x);
    }
  }

  lemma {:induction false} InOrderOfFix(l: Tree, n: Label, red: bool, r: Tree)
    ensures InOrder(FixLeft(l, n, red, r)) == InOrder(l) + [n] + InOrder(r)
    ensures InOrder(FixRight(l, n, red, r)) == InOrder(l) + [n] + InOrder(r)
  {
    if IsRed(l) && IsRed(l.left) {
      assert InOrder(Blacken(l.left)) == InOrder(l.left);
    }
    if IsRed(r) && IsRed(l) {
      assert InOrder(Blacken(l)) == InOrder(l) && InOrder(Blacken(r)) == InOrder(r);
    }
  }

  lemma {:induction false} InsertBelowInOrder(t: Tree, x: Label)
    requires Sorted(InOrder(t))
    ensures InOrder(InsertBelow(t, x)) == InsertSorted(InOrder(t), x)
  {
    match t
    case Leaf =>
    case Node(l, n, red, r) =>
      var a, b := InOrder(l), InOrder(r);
      var s := a + [n] + b;
      assert s == InOrder(t);
      assert a == s[..|a|] && b == s[|a| + 1..];
      if Less(x.name, n.name) {
        InsertBelowInOrder(l, x);
        InOrderOfFix(InsertBelow(l, x), n, red, r);
        InsertSortedStops(a, n, b, x);
      } else {
        InsertBelowInOrder(r, x);
        InOrderOfFix(l, n, red, InsertBelow(r, x));
        forall y | y in a + [n] ensures !Less(x.name, y.name) {
          if y in a && Less(x.name, y.name) {
            var i :| 0 <= i < |a| && a[i] == y;
            assert s[i] == y && s[|a|] == n;
            LessTransitive(x.name, y.name, n.name);
          }
        }
        InsertSortedSkips(a + [n], b, x);
      }
  }

  lemma {:induction false} InsertSortedMembers(s: seq<Label>, x: Label, y: Label)
    ensures y in InsertSorted(s, x) <==> y == x || y in s
  {
    if s != [] && !Less(x.name, s[0].name) {
      InsertSortedMembers(s[1..], x, y);
      assert s == [s[0]] + s[1..];
    }
  }

  lemma {:induction false} InsertSortedSorted(s: seq<Label>, x: Label)
    requires Sorted(s) && forall y :: y in s ==> y.name != x.name
    ensures Sorted(InsertSorted(s, x))
  {
    if s == [] {
    } else if Less(x.name, s[0].name) {
      forall i | 0 < i < |s| ensures Less(x.name, s[i].name) {
        LessTransitive(x.name, s[0].name, s[i].name);
      }
    } else {
      assert forall y :: y in s[1..] ==> y in s;
      InsertSortedSorted(s[1..], x);
      var u := InsertSorted(s[1..], x);
      forall y | y in u ensures Less(s[0].name, y.name) {
        InsertSortedMembers(s[1..], x, y);
        LessTotal(x.name, s[0].name);
      }
    }
  }

  lemma {:induction false} LabelsAreInOrder(t: Tree, y: Label)
    ensures y in Labels(t) <==> y in InOrder(t)
  {
    if t.Node? {
      LabelsAreInOrder(t.left, y);
      LabelsAreInOrder(t.right, y);
    }
  }

  /** Strictly sorted names leave no room for a label to occur twice. */
  lemma {:induction false} SortedIsDistinct(t: Tree)
    requires Sorted(InOrder(t))
    ensures Distinct(t)
  {
    if t.Node? {
      var a, b := InOrder(t.left), InOrder(t.right);
      var s := a + [t.node] + b;
      assert a == s[..|a|] && b == s[|a| + 1..] && s[|a|] == t.node;
      SortedIsDistinct(t.left);
      SortedIsDistinct(t.right);
      forall y | y in Labels(t) ensures !(y in Labels(t.left) && y in Labels(t.right))
        ensures y == t.node ==> y !in Labels(t.left) && y !in Labels(t.right)
      {
        LabelsAreInOrder(t.left, y);
        LabelsAreInOrder(t.right, y);
        LessTotal(y.name, y.name);
        if y in a { var i :| 0 <= i < |a| && a[i] == y; assert s[i] == y; }
        if y in b { var j :| 0 <= j < |b| && b[j] == y; assert s[|a| + 1 + j] == y; }
      }
    }
  }

  /** The inserted tree lists the old labels and the new one, in name order. */
  lemma InsertInOrder(t: Tree, x: Label)
    requires Sorted(InOrder(t))
    requires forall y :: y in Labels(t) ==> y.name != x.name
    ensures InOrder(Insert(t, x)) == InsertSorted(InOrder(t), x)
    ensures Sorted(InOrder(Insert(t, x)))
    ensures Labels(Insert(t, x)) == Labels(t) + {x}
  {
    InsertBelowInOrder(t, x);
    var u := Insert(t, x);
    assert InOrder(u) == InOrder(InsertBelow(t, x));
    forall y | y in InOrder(t) ensures y.name != x.name { LabelsAreInOrder(t, y); }
    InsertSortedSorted(InOrder(t), x);
    forall y | y in Labels(u) + Labels(t) + {x}
      ensures y in Labels(u) <==> y in Labels(t) + {x}
    {
      LabelsAreInOrder(u, y);
      LabelsAreInOrder(t, y);
      InsertSortedMembers(InOrder(t), x, y);
    }
  }

  // ----- size against depth -----

  lemma {:induction false} Pow2Monotone(i: nat, j: nat)
    requires i <= j
    ensures Pow2(i) <= Pow2(j)
  {
    if i < j { Pow2Monotone(i, j - 1); }
  }

  lemma {:induction false} SizeFromBlackHeight(t: Tree)
    requires EqualBlackHeights(t)
    ensures Size(t) + 1 >= Pow2(BlackHeight(t))
  {
    if t.Node? {
      SizeFromBlackHeight(t.left);
      SizeFromBlackHeight(t.right);
    }
  }

  /** With at most 2^k - 2 labels the black height is below k. */
  lemma BlackHeightBelow(t: Tree, k: nat)
    requires EqualBlackHeights(t) && Size(t) + 2 <= Pow2(k)
    ensures BlackHeight(t) < k
  {
    SizeFromBlackHeight(t);
    if k <= BlackHeight(t) { Pow2Monotone(k, BlackHeight(t)); }
  }

  lemma {:induction false} SizeIsCount(t: Tree)
    requires Distinct(t)
    ensures |Labels(t)| == Size(t)
  {
    if t.Node? {
      SizeIsCount(t.left);
      SizeIsCount(t.right);
      assert |Labels(t.left) + {t.node}| == |Labels(t.left)| + 1;
    }
  }
}
