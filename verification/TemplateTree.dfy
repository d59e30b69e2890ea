/** The tree of what was derived from a template: a flat list of entries with parent links is grouped
    by parent and unfolded from the root, and an unselectable descendant makes its ancestors
    unselectable. */
module TemplateTree {

  type Id = string

  datatype Entry = Entry(id: Id, parent: Id, title: string, unselectable: bool)

  datatype Node = Node(entry: Entry, unselectable: bool, children: seq<Node>)

  /** Python gives up with RecursionError when the stack is `depth` calls deep. */
  datatype Tree = Tree(nodes: seq<Node>) | RecursionError

  /** The entries below a parent, in list order. */
  function Children(list: seq<Entry>, id: Id): (es: seq<Entry>)
    ensures forall e :: e in es <==> e in list && e.parent == id
  {
    if list == [] then []
    else (if list[0].parent == id then [list[0]] else []) + Children(list[1..], id)
  }

  type Levels = map<Id, seq<Entry>>

  /** The dictionary that groups a list by parent. */
  ghost predicate Groups(levels: Levels, list: seq<Entry>) {
    forall id :: LevelOf(levels, id) == Children(list, id)
  }

  function LevelOf(levels: Levels, id: Id): seq<Entry> {
    if id in levels then levels[id] else []
  }

  predicate AnyUnselectable(nodes: seq<Node>) {
    exists k :: 0 <= k < |nodes| && nodes[k].unselectable
  }

  function Unfold(list: seq<Entry>, id: Id, depth: nat): Tree
    decreases depth, 0
  {
    if depth == 0 then RecursionError else UnfoldAll(list, Children(list, id), depth - 1)
  }

  function UnfoldAll(list: seq<Entry>, es: seq<Entry>, depth: nat): Tree
    decreases depth, 1 + |es|
  {
    if es == [] then Tree([])
    else
      match Unfold(list, es[0].id, depth)
      case RecursionError => RecursionError
      case Tree(children) =>
        match UnfoldAll(list, es[1..], depth)
        case RecursionError => RecursionError
        case Tree(rest) => Tree([Grown(es[0], children)] + rest)
  }

  /** Two positions of a list, one before the other, that hold the given entries. */
  predicate InOrder(list: seq<Entry>, a: Entry, b: Entry) {
    exists m, n :: 0 <= m < n < |list| && list[m] == a && list[n] == b
  }

  lemma InOrderBehind(list: seq<Entry>, a: Entry, b: Entry)
    requires list != []
    ensures InOrder(list[1..], a, b) ==> InOrder(list, a, b)
    ensures list[0] == a && b in list[1..] ==> InOrder(list, a, b)
  {
    var rest := list[1..];
    if InOrder(rest, a, b) {
      var m, n :| 0 <= m < n < |rest| && rest[m] == a && rest[n] == b;
      assert list[m + 1] == a && list[n + 1] == b;
    }
    if list[0] == a && b in rest {
      var n :| 0 <= n < |rest| && rest[n] == b;
      assert list[n + 1] == b;
    }
  }

  /** The entries below a parent are those of the list that name it, in list order, and each as often. */
  lemma {:induction false} ChildrenKeepOrder(list: seq<Entry>, id: Id, i: nat, j: nat)
    requires i < j < |Children(list, id)|
    ensures InOrder(list, Children(list, id)[i], Children(list, id)[j])
    decreases |list|
  {
    ChildrenStep(list, id);
    hide *;
    var rest := Children(list[1..], id);
    InOrderBehind(list, Children(list, id)[i], Children(list, id)[j]);
    if list[0].parent != id {
      ChildrenKeepOrder(list[1..], id, i, j);
    } else if i > 0 {
      ChildrenKeepOrder(list[1..], id, i - 1, j - 1);
    } else {
      assert rest[j - 1] in rest;
    }
  }

  lemma ChildrenStep(list: seq<Entry>, id: Id)
    ensures list == [] ==> Children(list, id) == []
    ensures list != [] && list[0].parent == id ==> Children(list, id) == [list[0]] + Children(list[1..], id)
    ensures list != [] && list[0].parent != id ==> Children(list, id) == Children(list[1..], id)
  {
  }

  lemma {:induction false} ChildrenCount(list: seq<Entry>, id: Id, e: Entry)
    ensures multiset(Children(list, id))[e] == if e.parent == id then multiset(list)[e] else 0
    decreases |list|
  {
    if list != [] {
      ChildrenCount(list[1..], id, e);
      assert list == [list[0]] + list[1..];
    }
  }

  // ---------- The methods ----------

  lemma {:induction false} ChildrenSnoc(list: seq<Entry>, e: Entry, id: Id)
    ensures Children(list + [e], id) == Children(list, id) + if e.parent == id then [e] else []
  {
    if list == [] {
      assert list + [e] == [e];
      assert [e][1..] == [];
    } else {
      assert (list + [e])[1..] == list[1..] + [e];
      ChildrenSnoc(list[1..], e, id);
    }
  }

  /** `levels.setdefault(n["parent"], []).append(n)` for every entry. */
  method GroupByParent(derivated: seq<Entry>) returns (levels: Levels)
    ensures Groups(levels, derivated)
  {
    levels := map[];
    for k := 0 to |derivated|
      invariant Groups(levels, derivated[..k])
    {
      var n := derivated[k];
      ghost var before := levels;
      levels := levels[n.parent := LevelOf(levels, n.parent) + [n]];
      assert derivated[..k + 1] == derivated[..k] + [n];
      forall id ensures LevelOf(levels, id) == Children(derivated[..k + 1], id) {
        ChildrenSnoc(derivated[..k], n, id);
        assert LevelOf(before, id) == Children(derivated[..k], id);
      }
    }
    assert derivated[..|derivated|] == derivated;
  }

  /** The node of an entry whose subtree has been built. */
  function Grown(e: Entry, children: seq<Node>): Node {
    Node(e, e.unselectable || AnyUnselectable(children), children)
  }

  /** A copy of an entry given its children, and the flag of the first of them that has it. */
  method Adopt(e: Entry, children: seq<Node>) returns (n: Node)
    ensures n == Grown(e, children)
  {
    n := Node(e, e.unselectable, children);
    for c := 0 to |children|
      invariant n == Node(e, e.unselectable, children)
      invariant forall i :: 0 <= i < c ==> !children[i].unselectable
    {
      if children[c].unselectable {
        n := n.(unselectable := true);
        break;
      }
    }
  }

  /** Copies of the entries of one level, each given its children and then the flag of any of them. */
  method TemplateTreeRecursion(id: Id, levels: Levels, depth: nat, ghost list: seq<Entry>) returns (t: Tree)
    requires Groups(levels, list)
    ensures t == Unfold(list, id, depth)
    decreases depth
  {
    hide *;
    if depth == 0 {
      NoStack(list, id);
      return RecursionError;
    }
    var level := LevelOf(levels, id);
    AtTheStart(list, levels, id, depth);
    var nodes: seq<Node> := [];
    for k := 0 to |level|
      invariant Finished(list, level, k, depth - 1, nodes) == Unfold(list, id, depth)
    {
      var sub := TemplateTreeRecursion(level[k].id, levels, depth - 1, list);
      if sub.RecursionError? {
        OneFailed(list, level, k, depth - 1, nodes);
        return RecursionError;
      }
      var n := Adopt(level[k], sub.nodes);
      OneMore(list, level, k, depth - 1, nodes, sub.nodes, n);
      nodes := nodes + [n];
    }
    AtTheEnd(list, level, depth - 1, nodes);
    return Tree(nodes);
  }

  /** What the recursion gives once the first k entries of a level have become nodes. */
  ghost function Finished(list: seq<Entry>, level: seq<Entry>, k: nat, depth: nat, nodes: seq<Node>): Tree
    requires k <= |level|
  {
    Prepend(nodes, UnfoldAll(list, level[k..], depth))
  }

  lemma NoStack(list: seq<Entry>, id: Id)
    ensures Unfold(list, id, 0) == RecursionError
  {
  }

  lemma AtTheStart(list: seq<Entry>, levels: Levels, id: Id, depth: nat)
    requires Groups(levels, list) && depth > 0
    ensures Finished(list, LevelOf(levels, id), 0, depth - 1, []) == Unfold(list, id, depth)
  {
    hide UnfoldAll;
    var level := LevelOf(levels, id);
    assert level[0..] == level;
    var t := UnfoldAll(list, level, depth - 1);
    if t.Tree? {
      assert [] + t.nodes == t.nodes;
    }
  }

  lemma AtTheEnd(list: seq<Entry>, level: seq<Entry>, depth: nat, nodes: seq<Node>)
    ensures Finished(list, level, |level|, depth, nodes) == Tree(nodes)
  {
    assert nodes + [] == nodes;
  }

  lemma OneFailed(list: seq<Entry>, level: seq<Entry>, k: nat, depth: nat, nodes: seq<Node>)
    requires k < |level| && Unfold(list, level[k].id, depth) == RecursionError
    ensures Finished(list, level, k, depth, nodes) == RecursionError
  {
    hide Unfold, UnfoldAll, Prepend, Grown;
    assert level[k..][0] == level[k];
    UnfoldStep(list, level[k..], depth, nodes);
  }

  lemma OneMore(list: seq<Entry>, level: seq<Entry>, k: nat, depth: nat, nodes: seq<Node>, children: seq<Node>, n: Node)
    requires k < |level| && Unfold(list, level[k].id, depth) == Tree(children) && n == Grown(level[k], children)
    ensures Finished(list, level, k, depth, nodes) == Finished(list, level, k + 1, depth, nodes + [n])
  {
    hide Unfold, UnfoldAll, Prepend, Grown;
    assert level[k..][0] == level[k] && level[k..][1..] == level[k + 1..];
    UnfoldStep(list, level[k..], depth, nodes);
  }

  /** One entry more. */
  lemma UnfoldStep(list: seq<Entry>, es: seq<Entry>, depth: nat, nodes: seq<Node>)
    requires es != []
    ensures var sub := Unfold(list, es[0].id, depth);
            Prepend(nodes, UnfoldAll(list, es, depth)) ==
            if sub.RecursionError? then RecursionError
            else Prepend(nodes + [Grown(es[0], sub.nodes)], UnfoldAll(list, es[1..], depth))
  {
    hide Unfold, AnyUnselectable;
    var sub := Unfold(list, es[0].id, depth);
    if sub.Tree? {
      PrependStep(nodes, Grown(es[0], sub.nodes), UnfoldAll(list, es[1..], depth));
    }
  }

  function Prepend(nodes: seq<Node>, t: Tree): Tree {
    match t
    case RecursionError => RecursionError
    case Tree(rest) => Tree(nodes + rest)
  }

  lemma PrependStep(nodes: seq<Node>, n: Node, t: Tree)
    ensures Prepend(nodes, Prepend([n], t)) == Prepend(nodes + [n], t)
  {
    if t.Tree? {
      assert nodes + ([n] + t.nodes) == (nodes + [n]) + t.nodes;
    }
  }

  method GetTemplateTreeList(templateId: Id, derivated: seq<Entry>, depth: nat) returns (t: Tree)
    ensures t == Unfold(derivated, templateId, depth)
  {
    var levels := GroupByParent(derivated);
    t := TemplateTreeRecursion(templateId, levels, depth, derivated);
  }

  // ---------- Chains of parent links ----------

  predicate IsChild(list: seq<Entry>, parent: Id, id: Id) {
    exists e :: e in list && e.parent == parent && e.id == id
  }

  /** Each id names a child of the one before it. */
  predicate Chain(list: seq<Entry>, c: seq<Id>) {
    c != [] && forall k :: 0 < k < |c| ==> IsChild(list, c[k - 1], c[k])
  }

  predicate ChainFromTo(list: seq<Entry>, c: seq<Id>, a: Id, b: Id) {
    Chain(list, c) && c[0] == a && c[|c| - 1] == b
  }

  /** b is derived from a through one or more listed parents. */
  ghost predicate Below(list: seq<Entry>, a: Id, b: Id) {
    exists c: seq<Id> :: |c| > 1 && ChainFromTo(list, c, a, b)
  }

  lemma ChainTail(list: seq<Entry>, c: seq<Id>)
    requires Chain(list, c) && |c| > 1
    ensures Chain(list, c[1..]) && IsChild(list, c[0], c[1])
  {
    forall k | 0 < k < |c[1..]| ensures IsChild(list, c[1..][k - 1], c[1..][k]) {
      assert c[1..][k - 1] == c[k] && c[1..][k] == c[k + 1];
    }
  }

  lemma ChainCons(list: seq<Entry>, a: Id, c: seq<Id>)
    requires Chain(list, c) && IsChild(list, a, c[0])
    ensures Chain(list, [a] + c)
  {
    var d := [a] + c;
    forall k | 0 < k < |d| ensures IsChild(list, d[k - 1], d[k]) {
      if k > 1 {
        assert d[k - 1] == c[k - 2] && d[k] == c[k - 1];
      }
    }
  }

  // ---------- When the recursion ends ----------

  lemma {:induction false} LongChainOverflows(list: seq<Entry>, id: Id, depth: nat, c: seq<Id>)
    requires Chain(list, c) && c[0] == id && |c| > depth
    ensures Unfold(list, id, depth) == RecursionError
    decreases depth
  {
    hide UnfoldAll, Children, Chain;
    if depth > 0 {
      ChainTail(list, c);
      assert IsChild(list, id, c[1]);
      LongChainOverflows(list, c[1], depth - 1, c[1..]);
      var e :| e in list && e.parent == id && e.id == c[1];
      OneFails(list, Children(list, id), depth - 1, e);
    }
  }

  lemma {:induction false} OneFails(list: seq<Entry>, es: seq<Entry>, depth: nat, e: Entry)
    requires e in es && Unfold(list, e.id, depth) == RecursionError
    ensures UnfoldAll(list, es, depth) == RecursionError
    decreases |es|
  {
    if e != es[0] {
      OneFails(list, es[1..], depth, e);
    }
  }

  lemma {:induction false} OverflowHasLongChain(list: seq<Entry>, id: Id, depth: nat) returns (c: seq<Id>)
    requires Unfold(list, id, depth) == RecursionError
    ensures Chain(list, c) && c[0] == id && |c| > depth
    decreases depth, 0
  {
    if depth == 0 {
      c := [id];
    } else {
      var e, d := FailingChild(list, Children(list, id), depth - 1);
      assert IsChild(list, id, e.id);
      ChainCons(list, id, d);
      c := [id] + d;
    }
  }

  lemma {:induction false} FailingChild(list: seq<Entry>, es: seq<Entry>, depth: nat) returns (e: Entry, c: seq<Id>)
    requires UnfoldAll(list, es, depth) == RecursionError
    ensures e in es && Chain(list, c) && c[0] == e.id && |c| > depth
    decreases depth, 1 + |es|
  {
    if Unfold(list, es[0].id, depth) == RecursionError {
      e := es[0];
      c := OverflowHasLongChain(list, e.id, depth);
    } else {
      e, c := FailingChild(list, es[1..], depth);
    }
  }

  /** The recursion stays within the stack exactly when no chain of parent links from the root is longer
      than the stack. */
  lemma EndsIffChainsAreShort(list: seq<Entry>, root: Id, depth: nat)
    ensures Unfold(list, root, depth).Tree? <==> forall c: seq<Id> :: Chain(list, c) && c[0] == root ==> |c| <= depth
  {
    if Unfold(list, root, depth).Tree? {
      forall c: seq<Id> | Chain(list, c) && c[0] == root ensures |c| <= depth {
        if |c| > depth {
          LongChainOverflows(list, root, depth, c);
        }
      }
    } else {
      var c := OverflowHasLongChain(list, root, depth);
    }
  }

  /** A cycle of parent links through a that the root reaches. */
  ghost predicate CycleAt(list: seq<Entry>, root: Id, a: Id) {
    (root == a || Below(list, root, a)) && Below(list, a, a)
  }

  function Ids(list: seq<Entry>): set<Id> {
    set e | e in list :: e.id
  }

  lemma {:induction false} FewIds(list: seq<Entry>)
    ensures |Ids(list)| <= |list|
    decreases |list|
  {
    if list != [] {
      FewIds(list[1..]);
      assert Ids(list) == {list[0].id} + Ids(list[1..]);
    }
  }

  lemma {:induction false} Distinct(c: seq<Id>, ids: set<Id>)
    requires forall k :: 0 <= k < |c| ==> c[k] in ids
    requires forall i, j :: 0 <= i < j < |c| ==> c[i] != c[j]
    ensures |c| <= |ids|
    decreases |c|
  {
    if c != [] {
      Distinct(c[1..], ids - {c[0]});
    }
  }

  /** Pigeonhole: a chain longer than the list visits some id twice. */
  lemma LongChainRepeats(list: seq<Entry>, c: seq<Id>) returns (i: nat, j: nat)
    requires Chain(list, c) && |c| > |list| + 1
    ensures 0 < i < j < |c| && c[i] == c[j]
  {
    var d := c[1..];
    forall k | 0 <= k < |d| ensures d[k] in Ids(list) {
      assert IsChild(list, c[k], c[k + 1]);
    }
    FewIds(list);
    if forall i, j :: 0 <= i < j < |d| ==> d[i] != d[j] {
      Distinct(d, Ids(list));
    }
    var m, n :| 0 <= m < n < |d| && d[m] == d[n];
    i, j := m + 1, n + 1;
  }

  lemma ChainSlice(list: seq<Entry>, c: seq<Id>, i: nat, j: nat)
    requires Chain(list, c) && i < j < |c|
    ensures ChainFromTo(list, c[i..j + 1], c[i], c[j])
  {
    var d := c[i..j + 1];
    forall k | 0 < k < |d| ensures IsChild(list, d[k - 1], d[k]) {
      assert d[k - 1] == c[i + k - 1] && d[k] == c[i + k];
    }
  }

  /** With a stack deeper than the list is long, the recursion ends if and only if the root reaches no
      cycle of parent links, for any list at all. */
  lemma EndsIffNoCycle(list: seq<Entry>, root: Id, depth: nat)
    requires depth > |list|
    ensures Unfold(list, root, depth).Tree? <==> !exists a :: CycleAt(list, root, a)
  {
    hide Unfold, Chain;
    if a :| CycleAt(list, root, a) {
      CycleNeverEnds(list, root, a, depth);
    } else if Unfold(list, root, depth).RecursionError? {
      var c := OverflowHasLongChain(list, root, depth);
      var i, j := LongChainRepeats(list, c);
      ChainSlice(list, c, 0, i);
      ChainSlice(list, c, i, j);
      assert CycleAt(list, root, c[i]);
    }
  }

  /** A cycle that the root can reach makes every stack too small. */
  lemma CycleNeverEnds(list: seq<Entry>, root: Id, a: Id, depth: nat)
    requires (root == a || Below(list, root, a)) && Below(list, a, a)
    ensures Unfold(list, root, depth) == RecursionError
  {
    var loop :| |loop| > 1 && ChainFromTo(list, loop, a, a);
    var c := Wind(list, loop, depth);
    if root == a {
      LongChainOverflows(list, root, depth, c);
    } else {
      var d :| |d| > 1 && ChainFromTo(list, d, root, a);
      Join(list, d, c);
      LongChainOverflows(list, root, depth, d + c[1..]);
    }
  }

  lemma Join(list: seq<Entry>, c: seq<Id>, d: seq<Id>)
    requires Chain(list, c) && Chain(list, d) && c[|c| - 1] == d[0]
    ensures Chain(list, c + d[1..]) && (c + d[1..])[|c + d[1..]| - 1] == d[|d| - 1]
  {
    var j := c + d[1..];
    forall k | 0 < k < |j| ensures IsChild(list, j[k - 1], j[k]) {
      if k >= |c| {
        assert j[k] == d[k - |c| + 1] && j[k - 1] == d[k - |c|];
      }
    }
  }

  /** Going round a cycle often enough gives a chain of any length. */
  lemma {:induction false} Wind(list: seq<Entry>, loop: seq<Id>, n: nat) returns (c: seq<Id>)
    requires |loop| > 1 && ChainFromTo(list, loop, loop[0], loop[0])
    ensures Chain(list, c) && c[0] == loop[0] && |c| > n
  {
    if n == 0 {
      c := loop;
    } else {
      var d := Wind(list, loop, n - 1);
      Join(list, loop, d);
      c := loop + d[1..];
    }
  }

  // ---------- What the tree contains ----------

  /** All entries of a forest. */
  function Flatten(nodes: seq<Node>): seq<Entry> {
    if nodes == [] then []
    else [nodes[0].entry] + Flatten(nodes[0].children) + Flatten(nodes[1..])
  }

  lemma BelowChild(list: seq<Entry>, a: Id, b: Id, x: Id)
    requires IsChild(list, a, b) && (x == b || Below(list, b, x))
    ensures Below(list, a, x)
  {
    var c := [b];
    if x != b {
      c :| |c| > 1 && ChainFromTo(list, c, b, x);
    }
    ChainCons(list, a, c);
    assert ChainFromTo(list, [a] + c, a, x);
  }

  lemma {:induction false} OnlyDerived(list: seq<Entry>, id: Id, depth: nat, x: Entry)
    requires Unfold(list, id, depth).Tree? && x in Flatten(Unfold(list, id, depth).nodes)
    ensures x in list && Below(list, id, x.id)
    decreases depth, 0
  {
    var e := FromOneOf(list, Children(list, id), depth - 1, x);
    assert IsChild(list, id, e.id);
    BelowChild(list, id, e.id, x.id);
  }

  lemma {:induction false} FromOneOf(list: seq<Entry>, es: seq<Entry>, depth: nat, x: Entry) returns (e: Entry)
    requires forall k :: k in es ==> k in list
    requires UnfoldAll(list, es, depth).Tree? && x in Flatten(UnfoldAll(list, es, depth).nodes)
    ensures e in es && x in list && (x == e || Below(list, e.id, x.id))
    decreases depth, 1 + |es|
  {
    var nodes := UnfoldAll(list, es, depth).nodes;
    var rest := UnfoldAll(list, es[1..], depth).nodes;
    assert nodes[1..] == rest;
    if x == nodes[0].entry {
      e := es[0];
    } else if x in Flatten(nodes[0].children) {
      e := es[0];
      OnlyDerived(list, e.id, depth, x);
    } else {
      e := FromOneOf(list, es[1..], depth, x);
    }
  }

  lemma {:induction false} AllDerived(list: seq<Entry>, id: Id, depth: nat, c: seq<Id>)
    requires Unfold(list, id, depth).Tree? && |c| > 1 && Chain(list, c) && c[0] == id
    ensures exists x :: x in Flatten(Unfold(list, id, depth).nodes) && x.id == c[|c| - 1]
    decreases |c|
  {
    hide Unfold, Flatten;
    ChainTail(list, c);
    var e :| e in list && e.parent == id && e.id == c[1];
    ChildSubtree(list, id, depth, e);
    hide Chain, IsChild;
    if |c| > 2 {
      AllDerived(list, e.id, depth - 1, c[1..]);
    }
  }

  lemma ChildSubtree(list: seq<Entry>, id: Id, depth: nat, e: Entry)
    requires Unfold(list, id, depth).Tree? && e in list && e.parent == id
    ensures depth > 0 && Unfold(list, e.id, depth - 1).Tree?
    ensures e in Flatten(Unfold(list, id, depth).nodes)
    ensures forall x :: x in Flatten(Unfold(list, e.id, depth - 1).nodes) ==>
                          x in Flatten(Unfold(list, id, depth).nodes)
  {
    SubtreeIsThere(list, Children(list, id), depth - 1, e);
  }

  lemma {:induction false} SubtreeIsThere(list: seq<Entry>, es: seq<Entry>, depth: nat, e: Entry)
    requires UnfoldAll(list, es, depth).Tree? && e in es
    ensures Unfold(list, e.id, depth).Tree?
    ensures e in Flatten(UnfoldAll(list, es, depth).nodes)
    ensures forall x :: x in Flatten(Unfold(list, e.id, depth).nodes) ==> x in Flatten(UnfoldAll(list, es, depth).nodes)
    decreases |es|
  {
    var nodes := UnfoldAll(list, es, depth).nodes;
    assert nodes[1..] == UnfoldAll(list, es[1..], depth).nodes;
    if e != es[0] {
      SubtreeIsThere(list, es[1..], depth, e);
    }
  }

  ghost predicate UniqueIds(list: seq<Entry>) {
    forall e, f :: e in list && f in list && e.id == f.id ==> e == f
  }

  ghost predicate NoDuplicates(es: seq<Entry>) {
    forall i, j :: 0 <= i < j < |es| ==> es[i] != es[j]
  }

  /** With unique ids the ancestors of an entry are determined, so of two chains that end in the same
      entry the shorter is the end of the longer. */
  lemma {:induction false} AncestorsAgree(list: seq<Entry>, c: seq<Id>, d: seq<Id>, k: nat)
    requires UniqueIds(list) && Chain(list, c) && Chain(list, d) && c[|c| - 1] == d[|d| - 1]
    requires k < |c| && k < |d|
    ensures c[|c| - 1 - k] == d[|d| - 1 - k]
  {
    if k > 0 {
      AncestorsAgree(list, c, d, k - 1);
      assert IsChild(list, c[|c| - 1 - k], c[|c| - k]) && IsChild(list, d[|d| - 1 - k], d[|d| - k]);
    }
  }

  /** Two different children of one parent have no common descendant and are not below each other. */
  lemma SiblingsAreApart(list: seq<Entry>, e: Entry, f: Entry, x: Id, c: seq<Id>, d: seq<Id>)
    requires UniqueIds(list) && e in list && f in list && e.parent == f.parent && !Below(list, e.parent, e.parent)
    requires ChainFromTo(list, c, e.id, x) && ChainFromTo(list, d, f.id, x) && |c| <= |d|
    ensures e == f
  {
    AncestorsAgree(list, c, d, |c| - 1);
    var k := |d| - |c|;
    assert d[k] == e.id;
    if k > 0 {
      assert IsChild(list, d[k - 1], d[k]);
      assert d[k - 1] == e.parent;
      ChainPrefix(list, d, k);
      ChainCons(list, e.parent, d[..k]);
      assert ChainFromTo(list, [e.parent] + d[..k], e.parent, e.parent);
    }
  }

  lemma ChainPrefix(list: seq<Entry>, c: seq<Id>, k: nat)
    requires Chain(list, c) && 0 < k <= |c|
    ensures Chain(list, c[..k])
  {
    forall i | 0 < i < k ensures IsChild(list, c[..k][i - 1], c[..k][i]) {
      assert c[..k][i - 1] == c[i - 1] && c[..k][i] == c[i];
    }
  }

  lemma SelfOrBelow(list: seq<Entry>, a: Id, x: Id) returns (c: seq<Id>)
    requires x == a || Below(list, a, x)
    ensures ChainFromTo(list, c, a, x)
  {
    if x == a {
      c := [a];
    } else {
      c :| |c| > 1 && ChainFromTo(list, c, a, x);
    }
  }

  lemma SubtreesDisjoint(list: seq<Entry>, e: Entry, f: Entry, x: Id)
    requires UniqueIds(list) && e in list && f in list && e.parent == f.parent && !Below(list, e.parent, e.parent)
    requires (x == e.id || Below(list, e.id, x)) && (x == f.id || Below(list, f.id, x))
    ensures e == f
  {
    var c := SelfOrBelow(list, e.id, x);
    var d := SelfOrBelow(list, f.id, x);
    if |c| <= |d| {
      SiblingsAreApart(list, e, f, x, c, d);
    } else {
      SiblingsAreApart(list, f, e, x, d, c);
    }
  }

  /** Where the recursion ends there is no cycle to start from. */
  lemma NotBelowItself(list: seq<Entry>, a: Id, depth: nat)
    requires Unfold(list, a, depth).Tree?
    ensures !Below(list, a, a)
  {
    hide Unfold, Below;
    if Below(list, a, a) {
      CycleNeverEnds(list, a, a, depth);
    }
  }

  lemma ConcatNoDuplicates(a: seq<Entry>, b: seq<Entry>)
    requires NoDuplicates(a) && NoDuplicates(b) && forall x :: x in a ==> x !in b
    ensures NoDuplicates(a + b)
  {
    var s := a + b;
    forall i, j | 0 <= i < j < |s| ensures s[i] != s[j] {
      if i < |a| <= j {
        assert s[i] in a && s[j] in b;
      }
    }
  }

  lemma {:induction false} OnceEach(list: seq<Entry>, id: Id, depth: nat)
    requires UniqueIds(list) && NoDuplicates(list) && Unfold(list, id, depth).Tree?
    ensures NoDuplicates(Flatten(Unfold(list, id, depth).nodes))
    decreases depth, 0
  {
    ChildrenNoDuplicates(list, id);
    NotBelowItself(list, id, depth);
    OnceEachOf(list, Children(list, id), id, depth - 1);
  }

  lemma {:induction false} ChildrenNoDuplicates(list: seq<Entry>, id: Id)
    requires NoDuplicates(list)
    ensures NoDuplicates(Children(list, id))
  {
    if list != [] {
      assert NoDuplicates(list[1..]);
      ChildrenNoDuplicates(list[1..], id);
      if list[0].parent == id {
        assert list[0] !in list[1..];
        ConcatNoDuplicates([list[0]], Children(list[1..], id));
      }
    }
  }

  lemma {:induction false} OnceEachOf(list: seq<Entry>, es: seq<Entry>, parent: Id, depth: nat)
    requires UniqueIds(list) && NoDuplicates(list) && !Below(list, parent, parent) && NoDuplicates(es)
    requires forall e :: e in es ==> e in list && e.parent == parent
    requires UnfoldAll(list, es, depth).Tree?
    ensures NoDuplicates(Flatten(UnfoldAll(list, es, depth).nodes))
    decreases depth, 1 + |es|
  {
    if es != [] {
      var nodes := UnfoldAll(list, es, depth).nodes;
      var e := es[0];
      var own := Unfold(list, e.id, depth).nodes;
      var rest := UnfoldAll(list, es[1..], depth).nodes;
      assert nodes[1..] == rest && nodes[0].children == own && nodes[0].entry == e;
      OnceEach(list, e.id, depth);
      OnceEachOf(list, es[1..], parent, depth);
      forall x | x in Flatten(own) ensures x != e {
        OnlyDerived(list, e.id, depth, x);
        NotBelowItself(list, e.id, depth);
      }
      ConcatNoDuplicates([e], Flatten(own));
      forall x | x in [e] + Flatten(own) ensures x !in Flatten(rest) {
        if x in Flatten(rest) {
          if x != e {
            OnlyDerived(list, e.id, depth, x);
          }
          var f := FromOneOf(list, es[1..], depth, x);
          SubtreesDisjoint(list, e, f, x.id);
        }
      }
      ConcatNoDuplicates([e] + Flatten(own), Flatten(rest));
    }
  }

  /** For any list with unique ids: when the recursion ends, the tree holds every entry connected to the
      root through listed parents exactly once, and no other entry; and with a stack deeper than the
      list is long it ends if and only if no cycle of parent links can be reached from the root. */
  lemma TreeIsExactlyTheDerived(list: seq<Entry>, root: Id, depth: nat)
    requires UniqueIds(list) && NoDuplicates(list)
    ensures depth > |list| ==> (Unfold(list, root, depth).Tree? <==> !exists a :: CycleAt(list, root, a))
    ensures Unfold(list, root, depth).Tree? ==>
              var es := Flatten(Unfold(list, root, depth).nodes);
              && NoDuplicates(es)
              && forall x :: x in es <==> x in list && Below(list, root, x.id)
  {
    hide Unfold, Flatten, CycleAt;
    if depth > |list| {
      EndsIffNoCycle(list, root, depth);
    }
    if Unfold(list, root, depth).Tree? {
      OnceEach(list, root, depth);
      var es := Flatten(Unfold(list, root, depth).nodes);
      forall x ensures x in es <==> x in list && Below(list, root, x.id) {
        if x in es {
          OnlyDerived(list, root, depth, x);
        }
        if x in list && Below(list, root, x.id) {
          var c :| |c| > 1 && ChainFromTo(list, c, root, x.id);
          AllDerived(list, root, depth, c);
          var y :| y in es && y.id == x.id;
          OnlyDerived(list, root, depth, y);
        }
      }
    }
  }

  /** The nodes are those of the given entries, in order, and each stands over the entries that name it
      as their parent. */
  predicate Placed(list: seq<Entry>, es: seq<Entry>, nodes: seq<Node>)
    decreases nodes
  {
    && |nodes| == |es|
    && (nodes != [] ==>
          && nodes[0].entry == es[0]
          && Placed(list, Children(list, es[0].id), nodes[0].children)
          && Placed(list, es[1..], nodes[1..]))
  }

  /** Every node hangs under its parent, in list order. */
  lemma {:induction false} EveryNodeInPlace(list: seq<Entry>, id: Id, depth: nat)
    requires Unfold(list, id, depth).Tree?
    ensures Placed(list, Children(list, id), Unfold(list, id, depth).nodes)
    decreases depth, 0
  {
    AllInPlace(list, Children(list, id), depth - 1);
  }

  lemma {:induction false} AllInPlace(list: seq<Entry>, es: seq<Entry>, depth: nat)
    requires UnfoldAll(list, es, depth).Tree?
    ensures Placed(list, es, UnfoldAll(list, es, depth).nodes)
    decreases depth, 1 + |es|
  {
    if es != [] {
      EveryNodeInPlace(list, es[0].id, depth);
      AllInPlace(list, es[1..], depth);
      assert UnfoldAll(list, es, depth).nodes[1..] == UnfoldAll(list, es[1..], depth).nodes;
    }
  }

  // ---------- The flag ----------

  /** The node is marked exactly when some entry of its subtree was listed as unselectable. */
  predicate FlagRight(n: Node) {
    n.unselectable <==> Holds(Flatten([n]))
  }

  predicate AllFlagsRight(nodes: seq<Node>) {
    nodes == [] || (FlagRight(nodes[0]) && AllFlagsRight(nodes[0].children) && AllFlagsRight(nodes[1..]))
  }

  predicate Holds(es: seq<Entry>) {
    exists x :: x in es && x.unselectable
  }

  lemma FlattenCons(nodes: seq<Node>)
    requires nodes != []
    ensures Flatten(nodes) == Flatten([nodes[0]]) + Flatten(nodes[1..])
    ensures Flatten([nodes[0]]) == [nodes[0].entry] + Flatten(nodes[0].children)
  {
    var n := nodes[0];
    FlattenOne(n);
    hide Flatten;
    FlattenStep(nodes);
  }

  lemma FlattenStep(nodes: seq<Node>)
    requires nodes != []
    ensures Flatten(nodes) == [nodes[0].entry] + Flatten(nodes[0].children) + Flatten(nodes[1..])
  {
  }

  lemma FlattenOne(n: Node)
    ensures Flatten([n]) == [n.entry] + Flatten(n.children)
  {
    assert [n][1..] == [];
    FlattenStep([n]);
    var own := [n.entry] + Flatten(n.children);
    assert own + [] == own;
  }

  lemma HoldsAppend(a: seq<Entry>, b: seq<Entry>)
    ensures Holds(a + b) <==> Holds(a) || Holds(b)
  {
    if Holds(a) {
      var x :| x in a && x.unselectable;
      assert x in a + b;
    }
    if Holds(b) {
      var x :| x in b && x.unselectable;
      assert x in a + b;
    }
  }

  lemma AnyCons(nodes: seq<Node>)
    requires nodes != []
    ensures AnyUnselectable(nodes) <==> nodes[0].unselectable || AnyUnselectable(nodes[1..])
  {
    var rest := nodes[1..];
    if AnyUnselectable(rest) {
      var k :| 0 <= k < |rest| && rest[k].unselectable;
      assert nodes[k + 1].unselectable;
    }
    if AnyUnselectable(nodes) && !nodes[0].unselectable {
      var k :| 0 <= k < |nodes| && nodes[k].unselectable;
      assert rest[k - 1].unselectable;
    }
  }

  lemma {:induction false} FlagOfForest(nodes: seq<Node>)
    requires AllFlagsRight(nodes)
    ensures AnyUnselectable(nodes) <==> Holds(Flatten(nodes))
    decreases |nodes|
  {
    if nodes != [] {
      FlagOfForest(nodes[1..]);
      hide Flatten, Holds, AnyUnselectable;
      FlattenCons(nodes);
      HoldsAppend(Flatten([nodes[0]]), Flatten(nodes[1..]));
      AnyCons(nodes);
    }
  }

  /** In every tree, at every depth, a node is unselectable exactly when it or some node of its subtree
      was originally so. */
  lemma {:induction false} FlagsPropagate(list: seq<Entry>, id: Id, depth: nat)
    requires Unfold(list, id, depth).Tree?
    ensures AllFlagsRight(Unfold(list, id, depth).nodes)
    decreases depth, 0
  {
    FlagsPropagateAll(list, Children(list, id), depth - 1);
  }

  lemma {:induction false} FlagsPropagateAll(list: seq<Entry>, es: seq<Entry>, depth: nat)
    requires UnfoldAll(list, es, depth).Tree?
    ensures AllFlagsRight(UnfoldAll(list, es, depth).nodes)
    decreases depth, 1 + |es|
  {
    if es != [] {
      var nodes := UnfoldAll(list, es, depth).nodes;
      var n := nodes[0];
      FlagsPropagate(list, es[0].id, depth);
      FlagsPropagateAll(list, es[1..], depth);
      FlagOfForest(n.children);
      assert nodes[1..] == UnfoldAll(list, es[1..], depth).nodes;
      FlattenCons(nodes);
      HoldsAppend([n.entry], Flatten(n.children));
    }
  }
}
