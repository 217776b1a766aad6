/**
 * The two functions that walk the whole label index: the sorted listing and
 * the reset of macros between passes, which looks labels up mid-walk.
 */
module LabelPasses {
  import opened Names
  import opened LabelTree
  import opened LabelShape
  import opened LabelIndex
  import opened MorrisWalk

  const MACRO_PREFIX := '~'
  const MACRO_CMDLINE := 1
  const MACRO_VALUE := 3

  predicate IsMacro(y: Label) {
    |y.name| > 0 && y.name[0] == MACRO_PREFIX
  }

  /** The low byte of a label's value, as reset_macros compares it. */
  function Kind(value: int): (kind: int)
    ensures 0 <= kind < 256 && (value - kind) % 256 == 0
  {
    value % 256
  }

  /** The listing shows every label that is not a macro definition. */
  function Listed(s: seq<Label>): seq<Label> {
    if s == [] then []
    else Listed(s[..|s| - 1]) + if IsMacro(s[|s| - 1]) then [] else [s[|s| - 1]]
  }

  lemma StillValid(ix: Index)
    requires ix.labels == Labels(ix.tree) && Holds(ix.labelList, ix.tree, null)
    requires Sorted(InOrder(ix.tree)) && RedBlack(ix.tree) && ix.path.Length == 2 * ix.log2MaxNodes
    ensures ix.Valid()
  {
  }

  lemma FinishedHolds(ls: set<Label>, root: Label?, tree: Tree, at: Place, visited: seq<Label>)
    requires Walking(ls, root, tree, at, null, visited)
    ensures at.Finished? && ls == Labels(tree) && Holds(root, tree, null) && visited == InOrder(tree)
  {
  }

  lemma NodeInOrder(t: Tree)
    requires t.Node?
    ensures InOrder(t) == InOrder(t.left) + [t.node] + InOrder(t.right)
  {
  }

  lemma Regroup<T>(a: seq<T>, b: seq<T>, c: seq<T>, d: seq<T>, e: seq<T>)
    ensures a + (b + c + d) + e == (a + b) + (c + (d + e))
  {
  }

  lemma VisitsAreLeft(ls: set<Label>, root: Label?, tree: Tree, c: Context, t: Tree,
                      node: Label?, visited: seq<Label>)
    requires Visiting(ls, root, tree, c, t, node, visited)
    ensures |visited| < |InOrder(tree)| && InOrder(tree)[|visited|] == node
    ensures visited == InOrder(tree)[..|visited|] && node in ls
  {
    InOrderOfPlug(c, t);
    var rest := InOrder(t.right) + After(c);
    NodeInOrder(t);
    hide InOrder, Before, After, Plug;
    Regroup(Before(c), InOrder(t.left), [node], InOrder(t.right), After(c));
    assert InOrder(tree) == visited + ([node] + rest);
  }

  /**
   * print_labels_sorted_to_listing: every ordinary label once, in increasing
   * name order, and every pointer back where it was.
   */
  method PrintSorted(ix: Index) returns (out: seq<Label>)
    requires ix.Valid()
    modifies ix.labels`right
    ensures ix.Valid()
    ensures out == Listed(InOrder(ix.tree))
    ensures Sorted(out) && forall y :: y in out <==> y in ix.labels && !IsMacro(y)
  {
    hide *;
    ix.OpenValid();
    ghost var ls, tree := ix.labels, ix.tree;
    var node := ix.labelList;
    ghost var visited: seq<Label> := [];
    ghost var at := StartWalk(node, tree);
    out := [];
    ListedNothing();
    while node != null
      invariant Walking(ls, ix.labelList, tree, at, node, visited)
      invariant out == Listed(visited)
      decreases |InOrder(tree)| - |visited|, if at.Finished? then Leaf else at.t
    {
      var visit, next, at' := Step(node, ls, ix.labelList, tree, at, visited);
      if visit {
        VisitsAreLeft(ls, ix.labelList, tree, at.c, at.t, node, visited);
        if !IsMacro(node) { out := out + [node]; }
        ListedOneMore(visited, node);
        at := Leave(ls, ix.labelList, tree, at.c, at.t, node, visited);
        visited := visited + [node];
        node := node.right;
      } else {
        node, at := next, at';
      }
    }
    FinishedHolds(ls, ix.labelList, tree, at, visited);
    StillValid(ix);
    AllListed(tree);
  }

  lemma SortedMore(s: seq<Label>, y: Label)
    requires Sorted(s) && forall z :: z in s ==> Less(z.name, y.name)
    ensures Sorted(s + [y])
  {
    forall i, j | 0 <= i < j < |s + [y]| ensures Less((s + [y])[i].name, (s + [y])[j].name) {
      assert s[i] in s;
    }
  }

  /** Nothing is left out but macros. */
  lemma {:induction false} ListedHas(s: seq<Label>, y: Label)
    ensures y in Listed(s) <==> y in s && !IsMacro(y)
  {
    if s != [] {
      var init, last := s[..|s| - 1], s[|s| - 1];
      ListedHas(init, y);
      assert s == init + [last];
    }
  }

  /** Nothing is listed twice or out of order. */
  lemma {:induction false} ListedSorted(s: seq<Label>)
    requires Sorted(s)
    ensures Sorted(Listed(s))
  {
    if s != [] {
      var init, last := s[..|s| - 1], s[|s| - 1];
      ListedSorted(init);
      forall y | y in Listed(init) ensures Less(y.name, last.name) {
        ListedHas(init, y);
        var i :| 0 <= i < |init| && init[i] == y;
        assert s[i] == y;
      }
      SortedMore(Listed(init), last);
    }
  }

  lemma AllListed(t: Tree)
    requires Sorted(InOrder(t))
    ensures Sorted(Listed(InOrder(t)))
    ensures forall y :: y in Listed(InOrder(t)) <==> y in Labels(t) && !IsMacro(y)
  {
    hide Sorted, InOrder, Labels, Listed;
    ListedSorted(InOrder(t));
    forall y ensures y in Listed(InOrder(t)) <==> y in Labels(t) && !IsMacro(y) {
      ListedHas(InOrder(t), y);
      LabelsAreInOrder(t, y);
    }
  }

  lemma ListedNothing()
    ensures Listed([]) == []
  {
  }

  lemma ListedOneMore(s: seq<Label>, y: Label)
    ensures Listed(s + [y]) == if IsMacro(y) then Listed(s) else Listed(s) + [y]
  {
    assert (s + [y])[..|s|] == s;
  }

  // ----- reset_macros -----

  /** Names as the parser makes them: '~' starts macros only, and sorts after every other start. */
  ghost predicate WellNamed(ls: set<Label>) {
    forall y :: y in ls ==>
      && |y.name| > 0
      && (if IsMacro(y) then |y.name| > 1 && y.name[1] < MACRO_PREFIX else y.name[0] < MACRO_PREFIX)
  }

  /** One of the labels in s is a macro for `name`, of the given kind. */
  ghost predicate HasMacro(s: set<Label>, name: Name, kind: int)
    reads s`value
  {
    exists m :: m in s && m.name == [MACRO_PREFIX] + name && Kind(m.value) == kind
  }

  /**
   * The deletion flag of y once the labels in s have been dealt with, whatever
   * the order: a macro is deleted unless it comes from the command line; in
   * the special pass an ordinary label is deleted unless a command-line macro
   * carries its name, otherwise it is deleted if a value macro does.
   */
  ghost predicate DeletedBy(s: set<Label>, y: Label, was: bool, special: bool)
    reads s`value, y`value
  {
    if IsMacro(y) then was || (y in s && Kind(y.value) != MACRO_CMDLINE)
    else if special then (if y in s then !HasMacro(s, y.name, MACRO_CMDLINE) else was)
    else was || HasMacro(s, y.name, MACRO_VALUE)
  }

  /** The deletion flag of y after label m alone has been visited. */
  ghost predicate DeletedAt(m: Label, y: Label, was: bool, special: bool)
    reads m`value
  {
    if y == m then was || (if IsMacro(m) then Kind(m.value) != MACRO_CMDLINE else special)
    else if IsMacro(m) && m.name[1..] == y.name then
      if special then was && Kind(m.value) != MACRO_CMDLINE
      else was || Kind(m.value) == MACRO_VALUE
    else was
  }

  /** The work done at one label, with the walk's threads in place. */
  method ResetLabel(ix: Index, node: Label, special: bool)
    requires ThreadedIn(ix.labels, ix.labelList, ix.tree, null) && Sorted(InOrder(ix.tree))
    requires ix.labels == Labels(ix.tree) && node in ix.labels && WellNamed(ix.labels)
    modifies ix.labels`isDeleted
    ensures forall y :: y in ix.labels ==> y.isDeleted == DeletedAt(node, y, old(y.isDeleted), special)
  {
    LookupExact(ix.tree, node.name[1..]);
    assert "" + node.name[1..] == node.name[1..];
    NamesDiffer(ix.tree);
    hide Threaded, ThreadedIn, Lookup, Sorted, InOrder, Labels;
    if node.name[0] == MACRO_PREFIX {
      var kind := Kind(node.value);
      if kind != MACRO_CMDLINE {
        node.isDeleted := true;
        if kind == MACRO_VALUE && !special {
          var value := FindCat(ix.labelList, "", node.name[1..], ix.labels, ix.tree);
          if value != null { value.isDeleted := true; }
        }
      } else if special {
        var value := FindCat(ix.labelList, "", node.name[1..], ix.labels, ix.tree);
        if value != null { value.isDeleted := false; }
      }
    } else if special {
      node.isDeleted := true;
    }
  }

  lemma NamesDiffer(t: Tree)
    requires Sorted(InOrder(t))
    ensures forall y, z :: y in Labels(t) && z in Labels(t) && y.name == z.name ==> y == z
  {
    forall y, z | y in Labels(t) && z in Labels(t) && y.name == z.name ensures y == z {
      LabelsAreInOrder(t, y);
      LabelsAreInOrder(t, z);
      LessTotal(y.name, z.name);
      var i :| 0 <= i < |InOrder(t)| && InOrder(t)[i] == y;
      var j :| 0 <= j < |InOrder(t)| && InOrder(t)[j] == z;
    }
  }

  /** An ordinary name sorts before the macro name made from it. */
  lemma OrdinaryFirst(ls: set<Label>, y: Label, m: Label)
    requires WellNamed(ls) && y in ls && m in ls && !IsMacro(y) && m.name == [MACRO_PREFIX] + y.name
    ensures Less(y.name, m.name)
  {
  }

  /** A label with a smaller name than the one being visited has been visited. */
  lemma SmallerIsVisited(tree: Tree, visited: seq<Label>, m: Label, y: Label)
    requires Sorted(InOrder(tree)) && m in Labels(tree) && y in Labels(tree)
    requires |visited| < |InOrder(tree)| && visited == InOrder(tree)[..|visited|] && m == InOrder(tree)[|visited|]
    ensures y in visited <==> Less(y.name, m.name)
  {
    var s := InOrder(tree);
    LabelsAreInOrder(tree, y);
    var i :| 0 <= i < |s| && s[i] == y;
    LessTotal(y.name, m.name);
    if i < |visited| {
      assert visited[i] == y;
    } else {
      forall j | 0 <= j < |visited| ensures visited[j] != y {
        assert Less(s[j].name, s[i].name);
        LessTotal(y.name, y.name);
      }
    }
  }

  lemma HasMacroGrows(s: set<Label>, m: Label, name: Name, kind: int)
    ensures HasMacro(s + {m}, name, kind) <==>
            HasMacro(s, name, kind) || (m.name == [MACRO_PREFIX] + name && Kind(m.value) == kind)
  {
  }

  /** Visiting in name order adds up to the order-independent description. */
  lemma OneMoreVisit(ls: set<Label>, s: set<Label>, tree: Tree, visited: seq<Label>, m: Label, y: Label,
                     was: bool, special: bool)
    requires ls == Labels(tree) && Sorted(InOrder(tree)) && WellNamed(ls) && m in ls && y in ls && s <= ls
    requires |visited| < |InOrder(tree)| && visited == InOrder(tree)[..|visited|] && m == InOrder(tree)[|visited|]
    requires forall z :: z in s <==> z in visited
    ensures DeletedBy(s + {m}, y, was, special) == DeletedAt(m, y, DeletedBy(s, y, was, special), special)
  {
    SmallerIsVisited(tree, visited, m, m);
    SmallerIsVisited(tree, visited, m, y);
    LessTotal(m.name, m.name);
    var own := [MACRO_PREFIX] + y.name;
    assert IsMacro(m) && m.name[1..] == y.name <==> m.name == own;
    HasMacroGrows(s, m, y.name, MACRO_CMDLINE);
    HasMacroGrows(s, m, y.name, MACRO_VALUE);
    if !IsMacro(y) {
      if m.name == own { OrdinaryFirst(ls, y, m); }
      if y == m && HasMacro(s, y.name, MACRO_CMDLINE) {
        var z :| z in s && z.name == own;
        SmallerIsVisited(tree, visited, m, z);
        OrdinaryFirst(ls, y, z);
        LessTotal(y.name, z.name);
      }
    }
  }

  /**
   * reset_macros: every deletion flag ends up as DeletedBy describes it for
   * the whole index, and the tree is as before.
   */
  method ResetMacros(ix: Index, hasMacros: bool, specialPass: int)
    requires ix.Valid() && WellNamed(ix.labels)
    modifies ix.labels`right, ix.labels`isDeleted
    ensures ix.Valid()
    ensures forall y :: y in ix.labels ==>
              y.isDeleted == if !hasMacros && specialPass != 1 then old(y.isDeleted)
                             else DeletedBy(ix.labels, y, old(y.isDeleted), specialPass == 1)
  {
    hide *;
    if !hasMacros && specialPass != 1 { return; }
    ix.OpenValid();
    ghost var ls, tree := ix.labels, ix.tree;
    var node := ix.labelList;
    ghost var visited: seq<Label>, done: set<Label> := [], {};
    ghost var at := StartWalk(node, tree);
    NothingDone(ls, specialPass == 1);
    while node != null
      invariant Walking(ls, ix.labelList, tree, at, node, visited)
      invariant done <= ls && forall z :: z in done <==> z in visited
      invariant forall y :: y in ls ==> y.isDeleted == DeletedBy(done, y, old(y.isDeleted), specialPass == 1)
      decreases |InOrder(tree)| - |visited|, if at.Finished? then Leaf else at.t
    {
      var visit, next, at' := Step(node, ls, ix.labelList, tree, at, visited);
      if visit {
        VisitsAreLeft(ls, ix.labelList, tree, at.c, at.t, node, visited);
        VisitingIsThreaded(ls, ix.labelList, tree, at.c, at.t, node, visited);
        ghost var flags := map y | y in ls :: y.isDeleted;
        ResetLabel(ix, node, specialPass == 1);
        forall y | y in ls
          ensures y.isDeleted == DeletedBy(done + {node}, y, old(y.isDeleted), specialPass == 1)
        {
          assert flags[y] == DeletedBy(done, y, old(y.isDeleted), specialPass == 1);
          OneMoreVisit(ls, done, tree, visited, node, y, old(y.isDeleted), specialPass == 1);
        }
        at := Leave(ls, ix.labelList, tree, at.c, at.t, node, visited);
        visited, done := visited + [node], done + {node};
        node := node.right;
      } else {
        node, at := next, at';
      }
    }
    FinishedHolds(ls, ix.labelList, tree, at, visited);
    StillValid(ix);
    forall y | y in ls ensures y in done { LabelsAreInOrder(tree, y); }
    assert done == ls;
  }

  lemma NothingDone(ls: set<Label>, special: bool)
    ensures forall y :: y in ls ==> y.isDeleted == DeletedBy({}, y, y.isDeleted, special)
  {
  }
}
