/**
  The parsed HTML the build service works on (`scraper::Html`, an
  `ego_tree::Tree` of nodes): an ordered tree, both as an inductive value and
  as ego_tree's arena of nodes addressed by id, plus the queries the build
  service makes (`select`, `attr`, `text`) and `clone_subtree`.
 */
module Html {
  import opened Wrappers

  /** An ordered tree: a value and its children, in document order. */
  datatype Tree<T> = Tree(value: T, children: seq<Tree<T>>)

  /** The number of nodes of a tree. */
  function Size<T>(t: Tree<T>): (n: nat)
    ensures n >= 1
    decreases t, 1
  {
    1 + SizeSum(t.children)
  }

  /** The number of nodes of a forest. */
  function SizeSum<T>(ts: seq<Tree<T>>): nat
    decreases ts, 0
  {
    if ts == [] then 0 else SizeSum(ts[..|ts| - 1]) + Size(ts[|ts| - 1])
  }

  /** Forests add up from the front as well as from the back. */
  lemma {:induction false} SizeSumFront<T>(ts: seq<Tree<T>>)
    requires ts != []
    ensures SizeSum(ts) == Size(ts[0]) + SizeSum(ts[1..])
    decreases |ts|
  {
    var n := |ts| - 1;
    if n > 0 {
      SizeSumFront(ts[..n]);
      assert ts[..n][1..] == ts[1..][..n - 1];
    } else {
      assert ts[1..] == [];
      assert ts[..0] == [];
    }
  }

  /** Forests add up across a concatenation. */
  lemma {:induction false} SizeSumAppend<T>(a: seq<Tree<T>>, b: seq<Tree<T>>)
    ensures SizeSum(a + b) == SizeSum(a) + SizeSum(b)
    decreases |b|
  {
    if b == [] {
      assert a + b == a;
    } else {
      var n := |b| - 1;
      SizeSumAppend(a, b[..n]);
      assert (a + b)[..|a + b| - 1] == a + b[..n];
    }
  }

  /**
    The nodes of a queue of trees taken breadth first: the first tree's root,
    then the rest of the queue with that root's children queued behind it.
   */
  function LevelOrder<T>(q: seq<Tree<T>>): (r: seq<Tree<T>>)
    ensures |r| == SizeSum(q)
    decreases SizeSum(q)
  {
    if q == [] then []
    else
      SizeSumFront(q);
      SizeSumAppend(q[1..], q[0].children);
      [q[0]] + LevelOrder(q[1..] + q[0].children)
  }

  // ---------------------------------------------------------------------------
  // ego_tree's arena

  /**
    `ego_tree::Tree<T>`: node `i` holds `values[i]` and the ids of its
    children, in order; node 0 is the root.
   */
  datatype Arena<T> = Arena(values: seq<T>, children: seq<seq<nat>>)

  /**
    A well-formed arena whose children always have larger ids than their
    parent, as appending creates them.
   */
  ghost predicate Ordered<T>(a: Arena<T>) {
    && |a.values| == |a.children|
    && forall i, k :: 0 <= i < |a.children| && 0 <= k < |a.children[i]| ==>
         i < a.children[i][k] < |a.values|
  }

  /** The subtree rooted at node `i`, as an inductive tree. */
  ghost function Decode<T>(a: Arena<T>, i: nat): Tree<T>
    requires Ordered(a) && i < |a.values|
    decreases |a.values| - i
  {
    Tree(a.values[i], seq(|a.children[i]|, k requires 0 <= k < |a.children[i]| => Decode(a, a.children[i][k])))
  }

  /** `NodeMut::append`: a new last child of `parent`, with the next free id. */
  function AppendChild<T>(a: Arena<T>, parent: nat, v: T): (r: Arena<T>)
    requires |a.values| == |a.children| && parent < |a.values|
    ensures |r.values| == |r.children| == |a.values| + 1
    ensures r.values == a.values + [v]
    ensures r.children[parent] == a.children[parent] + [|a.values|] && r.children[|a.values|] == []
    ensures forall i :: 0 <= i < |a.values| && i != parent ==> r.children[i] == a.children[i]
  {
    Arena(a.values + [v], a.children[parent := a.children[parent] + [|a.values|]] + [[]])
  }

  /** The nodes still waiting in the queue, counted with their descendants. */
  function Pending<T>(q: seq<(Tree<T>, nat)>): nat {
    if q == [] then 0 else Pending(q[..|q| - 1]) + Size(q[|q| - 1].0)
  }

  lemma {:induction false} PendingFront<T>(q: seq<(Tree<T>, nat)>)
    requires q != []
    ensures Pending(q) == Size(q[0].0) + Pending(q[1..])
    decreases |q|
  {
    var n := |q| - 1;
    if n > 0 {
      PendingFront(q[..n]);
      assert q[..n][1..] == q[1..][..n - 1];
    } else {
      assert q[1..] == [];
      assert q[..0] == [];
    }
  }

  /** Every arena node holds the value of the source node it copies. */
  ghost predicate Mirrors<T>(tree: Arena<T>, src: seq<Tree<T>>) {
    && Ordered(tree) && |src| == |tree.values|
    && forall d :: 0 <= d < |src| ==> tree.values[d] == src[d].value
  }

  /** The queue holds the last `|queue|` copies, in id order, each paired with the source node it copies. */
  ghost predicate QueueTail<T>(src: seq<Tree<T>>, queue: seq<(Tree<T>, nat)>) {
    && |queue| <= |src|
    && forall k :: 0 <= k < |queue| ==> queue[k] == (src[|src| - |queue| + k], |src| - |queue| + k)
  }

  /** The copies waiting in the queue have no children yet. */
  ghost predicate Waiting<T>(tree: Arena<T>, src: seq<Tree<T>>, queue: seq<(Tree<T>, nat)>) {
    && |src| == |tree.children| && QueueTail(src, queue)
    && (forall d :: |src| - |queue| <= d < |src| ==> tree.children[d] == [])
  }

  /** The nodes below `n` have all their children copied. */
  ghost predicate CopiedBelow<T>(tree: Arena<T>, src: seq<Tree<T>>, n: nat)
    requires |src| == |tree.children| && n <= |src|
  {
    forall d :: 0 <= d < n ==> Copied(tree, src, d)
  }

  /**
    `clone_subtree`: a breadth-first copy of `source` into a new arena. Each
    queue entry pairs a source node with the id of its copy, whose children
    are appended in order when the entry is taken from the queue.
   */
  method CloneSubtree<T>(source: Tree<T>) returns (tree: Arena<T>)
    ensures Ordered(tree) && |tree.values| >= 1
    ensures Decode(tree, 0) == source
    ensures |tree.values| == |LevelOrder([source])|
    ensures forall d :: 0 <= d < |tree.values| ==> tree.values[d] == LevelOrder([source])[d].value
  {
    tree := Arena([source.value], [[]]);
    var queue: seq<(Tree<T>, nat)> := [(source, 0)];
    ghost var src := [source];
    assert src[..0] == [] && src[0..] == [source];
    while queue != []
      invariant Mirrors(tree, src) && Waiting(tree, src, queue) && |src| >= 1 && src[0] == source
      invariant CopiedBelow(tree, src, |src| - |queue|)
      invariant BreadthFirstSoFar(source, src, |src| - |queue|)
      decreases Pending(queue)
    {
      PendingFront(queue);
      Dequeue(tree, src, queue);
      var node, dest := queue[0].0, queue[0].1;
      queue := queue[1..];
      ghost var prev := src;
      tree, queue, src := CopyChildren(tree, queue, node, dest, src);
      assert src[0] == prev[0];
      LevelOrderStep(tree, prev, src, dest);
    }
    BreadthFirstDone(source, src);
    DecodeCopies(tree, src, 0);
  }

  /** Taking the front entry of the queue meets what copying its children needs. */
  lemma Dequeue<T>(tree: Arena<T>, src: seq<Tree<T>>, queue: seq<(Tree<T>, nat)>)
    requires Mirrors(tree, src) && Waiting(tree, src, queue) && queue != []
    requires CopiedBelow(tree, src, |src| - |queue|)
    ensures var node, dest, rest := queue[0].0, queue[0].1, queue[1..];
      && Waiting(tree, src, rest)
      && dest == |src| - |rest| - 1 && src[dest] == node && tree.children[dest] == []
      && CopiedBelow(tree, src, dest)
  {
    var rest := queue[1..];
    assert queue[0] == (src[|src| - |queue|], |src| - |queue|);
    forall k | 0 <= k < |rest|
      ensures rest[k] == (src[|src| - |rest| + k], |src| - |rest| + k)
    {
      assert rest[k] == queue[k + 1];
    }
  }

  /** With the queue empty, the copies are the whole breadth-first order. */
  lemma BreadthFirstDone<T>(source: Tree<T>, src: seq<Tree<T>>)
    requires BreadthFirstSoFar(source, src, |src|)
    ensures src == LevelOrder([source])
  {
    assert src[..|src|] == src && src[|src|..] == [];
  }

  /** The first `m` copies are the first `m` nodes of the breadth-first order, and the rest of it starts at copy `m`. */
  ghost predicate BreadthFirstSoFar<T>(source: Tree<T>, src: seq<Tree<T>>, m: nat)
    requires m <= |src|
  {
    src[..m] + LevelOrder(src[m..]) == LevelOrder([source])
  }

  /**
    Copying the children of the queue's front node moves that node from the
    waiting part of the breadth-first order to the copied part.
   */
  lemma LevelOrderStep<T>(tree: Arena<T>, prev: seq<Tree<T>>, src: seq<Tree<T>>, m: nat)
    requires |tree.children| == |src| && m < |prev| && m < |src|
    requires |src| == |prev| + |prev[m].children| && src[..|prev|] == prev
    requires FirstChildren(tree, src, m, prev[m], |prev|, |prev[m].children|)
    ensures prev[..m] + LevelOrder(prev[m..]) == src[..m + 1] + LevelOrder(src[m + 1..])
  {
    ChildrenAppended(tree, src, prev, m, prev[m]);
    assert prev[m..][0] == prev[m];
    assert prev[m..][1..] + prev[m].children == src[m + 1..];
    assert src[..m + 1] == prev[..m] + [prev[m]];
  }

  /**
    The body of `clone_subtree`'s loop for one dequeued entry: each child of
    `node` is appended under `dest` and queued.
   */
  method CopyChildren<T>(tree0: Arena<T>, queue0: seq<(Tree<T>, nat)>, node: Tree<T>, dest: nat, ghost src0: seq<Tree<T>>)
    returns (tree: Arena<T>, queue: seq<(Tree<T>, nat)>, ghost src: seq<Tree<T>>)
    requires Mirrors(tree0, src0) && Waiting(tree0, src0, queue0)
    requires dest == |src0| - |queue0| - 1 && src0[dest] == node && tree0.children[dest] == []
    requires CopiedBelow(tree0, src0, dest)
    ensures |src| == |src0| + |node.children| && src[..|src0|] == src0 && |queue| == |queue0| + |node.children|
    ensures Mirrors(tree, src) && Waiting(tree, src, queue)
    ensures FirstChildren(tree, src, dest, node, |src0|, |node.children|)
    ensures CopiedBelow(tree, src, |src| - |queue|)
    ensures Pending(queue) == Pending(queue0) + Size(node) - 1
  {
    tree, queue, src := tree0, queue0, src0;
    var k := 0;
    while k < |node.children|
      invariant k <= |node.children| && |src| == |src0| + k && src[..|src0|] == src0
      invariant Mirrors(tree, src) && |queue| == |queue0| + k && QueueTail(src, queue)
      invariant forall d :: dest < d < |src| ==> tree.children[d] == []
      invariant CopiedBelow(tree, src, dest)
      invariant FirstChildren(tree, src, dest, node, |src0|, k)
      invariant queue[..|queue0|] == queue0 && forall j :: 0 <= j < k ==> queue[|queue0| + j].0 == node.children[j]
    {
      var child := node.children[k];
      var id := |tree.values|;
      CopyStep(tree, src, queue, dest, child);
      FirstChildrenStep(tree, src, dest, node, |src0|, k);
      tree := AppendChild(tree, dest, child.value);
      queue := queue + [(child, id)];
      src := src + [child];
      k := k + 1;
    }
    FirstChildrenDone(tree, src, dest, node, |src0|);
    PendingExtend(queue0, queue, node.children);
  }

  /** Once all of `node`'s children are copied, the source order has grown by exactly those children. */
  lemma ChildrenAppended<T>(tree: Arena<T>, src: seq<Tree<T>>, src0: seq<Tree<T>>, dest: nat, node: Tree<T>)
    requires |tree.children| == |src| && dest < |src|
    requires |src| == |src0| + |node.children| && src[..|src0|] == src0
    requires FirstChildren(tree, src, dest, node, |src0|, |node.children|)
    ensures src == src0 + node.children
  {
    forall j | 0 <= j < |src|
      ensures src[j] == (src0 + node.children)[j]
    {
      if j < |src0| {
        assert src[..|src0|][j] == src[j];
      }
    }
  }

  /** The copy `dest` has as children the copies of `node`'s first `k` children, numbered from `base`. */
  ghost predicate FirstChildren<T>(tree: Arena<T>, src: seq<Tree<T>>, dest: nat, node: Tree<T>, base: nat, k: nat)
    requires |tree.children| == |src| && dest < |src|
  {
    && k <= |node.children| && base + k <= |src|
    && |tree.children[dest]| == k
    && forall j :: 0 <= j < k ==> tree.children[dest][j] == base + j && src[base + j] == node.children[j]
  }

  lemma FirstChildrenStep<T>(tree: Arena<T>, src: seq<Tree<T>>, dest: nat, node: Tree<T>, base: nat, k: nat)
    requires Ordered(tree) && |tree.children| == |src| && dest < |src| && k < |node.children|
    requires FirstChildren(tree, src, dest, node, base, k) && base + k == |src|
    ensures FirstChildren(AppendChild(tree, dest, node.children[k].value), src + [node.children[k]], dest, node, base, k + 1)
  {
  }

  lemma FirstChildrenDone<T>(tree: Arena<T>, src: seq<Tree<T>>, dest: nat, node: Tree<T>, base: nat)
    requires |tree.children| == |src| && dest < |src| && src[dest] == node
    requires FirstChildren(tree, src, dest, node, base, |node.children|)
    ensures Copied(tree, src, dest)
  {
  }

  /** Queueing a forest adds its size to what is pending. */
  lemma {:induction false} PendingExtend<T>(q0: seq<(Tree<T>, nat)>, q: seq<(Tree<T>, nat)>, ts: seq<Tree<T>>)
    requires |q| == |q0| + |ts| && q[..|q0|] == q0
    requires forall j :: 0 <= j < |ts| ==> q[|q0| + j].0 == ts[j]
    ensures Pending(q) == Pending(q0) + SizeSum(ts)
    decreases |ts|
  {
    if ts == [] {
      assert q == q0;
    } else {
      var n := |ts| - 1;
      PendingExtend(q0, q[..|q| - 1], ts[..n]);
    }
  }

  /** Appending one child under `dest` keeps every fact the copying loop relies on. */
  lemma CopyStep<T>(tree: Arena<T>, src: seq<Tree<T>>, queue: seq<(Tree<T>, nat)>, dest: nat, child: Tree<T>)
    requires Mirrors(tree, src) && QueueTail(src, queue) && dest < |src|
    requires forall d :: dest < d < |src| ==> tree.children[d] == []
    requires CopiedBelow(tree, src, dest)
    ensures var t := AppendChild(tree, dest, child.value);
      var s := src + [child];
      && Mirrors(t, s) && QueueTail(s, queue + [(child, |src|)])
      && (forall d :: dest < d < |s| ==> t.children[d] == [])
      && CopiedBelow(t, s, dest)
      && t.children[dest] == tree.children[dest] + [|src|]
  {
    var t := AppendChild(tree, dest, child.value);
    var s := src + [child];
    AppendKeepsOrder(tree, dest, child.value);
    forall d | 0 <= d < dest
      ensures Copied(t, s, d)
    {
      assert Copied(tree, src, d);
    }
  }

  /** Node `d` of the arena has exactly the children of the source node it copies. */
  ghost predicate Copied<T>(tree: Arena<T>, src: seq<Tree<T>>, d: nat)
    requires |src| == |tree.children| && d < |src|
  {
    && |tree.children[d]| == |src[d].children|
    && forall j :: 0 <= j < |tree.children[d]| ==>
         tree.children[d][j] < |src| && src[tree.children[d][j]] == src[d].children[j]
  }

  lemma AppendKeepsOrder<T>(a: Arena<T>, parent: nat, v: T)
    requires Ordered(a) && parent < |a.values|
    ensures Ordered(AppendChild(a, parent, v))
  {
    var r := AppendChild(a, parent, v);
    forall i, k | 0 <= i < |r.children| && 0 <= k < |r.children[i]|
      ensures i < r.children[i][k] < |r.values|
    {
      if i == parent && k == |a.children[parent]| {
      } else if i < |a.values| {
        assert r.children[i][k] == a.children[i][k];
      }
    }
  }

  /** Once every node is copied, each decodes to the source node it copies. */
  lemma {:induction false} DecodeCopies<T>(tree: Arena<T>, src: seq<Tree<T>>, d: nat)
    requires Ordered(tree) && |src| == |tree.values| && d < |src|
    requires forall e :: 0 <= e < |src| ==> tree.values[e] == src[e].value
    requires forall e :: 0 <= e < |src| ==> Copied(tree, src, e)
    ensures Decode(tree, d) == src[d]
    decreases |src| - d
  {
    var t := Decode(tree, d);
    assert Copied(tree, src, d);
    forall j | 0 <= j < |tree.children[d]|
      ensures t.children[j] == src[d].children[j]
    {
      DecodeCopies(tree, src, tree.children[d][j]);
    }
  }

  // ---------------------------------------------------------------------------
  // scraper's HTML nodes and queries

  /** `scraper::Node`, without doctypes and processing instructions. */
  datatype HtmlNode =
    | Document
    | Fragment
    | Element(name: string, attrs: seq<(string, string)>)
    | Text(text: string)
    | Comment(comment: string)

  type Html = Tree<HtmlNode>

  /** Whether a node is an element with the given local name. */
  predicate Named(t: Html, name: string) {
    t.value.Element? && t.value.name == name
  }

  /** Every node of a forest, each before its descendants, in document order. */
  function Nodes<T>(ts: seq<Tree<T>>): (r: seq<Tree<T>>)
    ensures |r| == SizeSum(ts)
    decreases ts
  {
    if ts == [] then []
    else
      SizeSumFront(ts);
      [ts[0]] + Nodes(ts[0].children) + Nodes(ts[1..])
  }

  /** The nodes of consecutive forests are the nodes of each, in turn. */
  lemma {:induction false} NodesAppend<T>(a: seq<Tree<T>>, b: seq<Tree<T>>)
    ensures Nodes(a + b) == Nodes(a) + Nodes(b)
    decreases |a|
  {
    if a == [] {
      assert a + b == b;
    } else {
      var ab := a + b;
      assert ab[0] == a[0] && ab[1..] == a[1..] + b;
      NodesAppend(a[1..], b);
      assert Nodes(ab) == [a[0]] + Nodes(a[0].children) + Nodes(a[1..] + b);
    }
  }

  /** Breadth-first and document order visit the same nodes. */
  lemma {:induction false} LevelOrderMembers<T>(q: seq<Tree<T>>, x: Tree<T>)
    ensures x in LevelOrder(q) <==> x in Nodes(q)
    decreases SizeSum(q)
  {
    if q != [] {
      SizeSumFront(q);
      SizeSumAppend(q[1..], q[0].children);
      LevelOrderMembers(q[1..] + q[0].children, x);
      NodesAppend(q[1..], q[0].children);
    }
  }

  /**
    `html.select(&Selector::parse(name))` for a plain tag name: the elements
    of that name, in document order.
   */
  function Select(ts: seq<Html>, name: string): (r: seq<Html>)
    ensures forall k :: 0 <= k < |r| ==> Named(r[k], name)
    decreases ts
  {
    if ts == [] then []
    else (if Named(ts[0], name) then [ts[0]] else []) + Select(ts[0].children, name) + Select(ts[1..], name)
  }

  /** `select` finds exactly the nodes of that name, in the order the document lists them. */
  lemma {:induction false} SelectIsFilteredNodes(ts: seq<Html>, name: string)
    ensures Select(ts, name) == Filter(Nodes(ts), name)
    decreases ts
  {
    if ts != [] {
      SelectIsFilteredNodes(ts[0].children, name);
      SelectIsFilteredNodes(ts[1..], name);
      var first := if Named(ts[0], name) then [ts[0]] else [];
      assert Nodes(ts) == [ts[0]] + Nodes(ts[0].children) + Nodes(ts[1..]);
      FilterAppend([ts[0]] + Nodes(ts[0].children), Nodes(ts[1..]), name);
      FilterAppend([ts[0]], Nodes(ts[0].children), name);
      assert Filter([ts[0]], name) == first by {
        assert [ts[0]][..0] == [];
      }
      assert Select(ts, name) == first + Select(ts[0].children, name) + Select(ts[1..], name);
    }
  }

  /** The nodes of `ns` with the given name, in order. */
  function Filter(ns: seq<Html>, name: string): seq<Html> {
    if ns == [] then []
    else Filter(ns[..|ns| - 1], name) + (if Named(ns[|ns| - 1], name) then [ns[|ns| - 1]] else [])
  }

  lemma {:induction false} FilterAppend(a: seq<Html>, b: seq<Html>, name: string)
    ensures Filter(a + b, name) == Filter(a, name) + Filter(b, name)
    decreases |b|
  {
    if b == [] {
      assert a + b == a;
    } else {
      var n := |b| - 1;
      FilterAppend(a, b[..n], name);
      assert (a + b)[..|a + b| - 1] == a + b[..n];
    }
  }

  /** `attr(name)`: the value of the first attribute of that name. */
  function Attr(attrs: seq<(string, string)>, name: string): (r: Option<string>)
    ensures r.Some? <==> exists k :: 0 <= k < |attrs| && attrs[k].0 == name
    ensures r.Some? ==> exists k :: (0 <= k < |attrs| && attrs[k] == (name, r.value) &&
      forall j :: 0 <= j < k ==> attrs[j].0 != name)
  {
    if attrs == [] then None
    else if attrs[0].0 == name then Some(attrs[0].1)
    else
      var r := Attr(attrs[1..], name);
      assert forall k :: 0 < k < |attrs| ==> attrs[k] == attrs[1..][k - 1];
      r
  }

  /** The text nodes of a forest, in document order (`text()`). */
  function Texts(ts: seq<Html>): seq<string>
    decreases ts
  {
    if ts == [] then []
    else (if ts[0].value.Text? then [ts[0].value.text] else []) + Texts(ts[0].children) + Texts(ts[1..])
  }

  /** `element.text().next().unwrap_or_default()`: the element's first text, or "". */
  function FirstText(t: Html): (r: string)
    ensures var ts := Texts(t.children); (ts == [] ==> r == "") && (ts != [] ==> r == ts[0])
  {
    var ts := Texts(t.children);
    if ts == [] then "" else ts[0]
  }
}
