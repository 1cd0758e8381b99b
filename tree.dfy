/**
  `Tree` of utils/utils.py: a tree of named nodes, its text rendering
  (`Tree.render`) and its construction from parent links (`Tree.build`).
*/
module Trees {
  import opened Wrappers
  import opened Text

  /** `Tree.Node`: the name shown when rendering, the payload, the children. */
  datatype Node<T> = Node(name: string, value: T, nodes: seq<Node<T>>)

  /** One row of `marker_styles`: `(line, fork, end, void)`. */
  datatype Markers = Markers(line: string, fork: string, end: string, void: string)

  /** The styles `render` accepts. */
  const StyleNames: seq<string> := ["strict", "smooth", "indent"]

  /** `marker_styles[style]`, or `None` for a style the table does not have. */
  function StyleMarkers(style: string): (m: Option<Markers>)
    ensures m.Some? <==> style in StyleNames
    ensures m.Some? ==> |m.value.line| == |m.value.fork| == |m.value.end| == |m.value.void| == 4
  {
    if style == "strict" then Some(Markers("│   ", "├── ", "└── ", "    "))
    else if style == "smooth" then Some(Markers("│   ", "├── ", "╰── ", "    "))
    else if style == "indent" then Some(Markers("    ", "    ", "    ", "    "))
    else None
  }

  // ---------------------------------------------------------------------------
  // render

  datatype StyleError = InvalidStyle(style: string)

  /**
    The nested `generate(nodes, prefix)` of `render`, from child i on: each
    child's line is the prefix, `end` for the last child and `fork` for the
    others, and the name; the child's own children follow, with the prefix
    grown by `void` after the last child and by `line` otherwise.
  */
  function Generate<T>(nodes: seq<Node<T>>, i: nat, prefix: string, m: Markers): seq<string>
    requires i <= |nodes|
    decreases nodes, |nodes| - i
  {
    if i == |nodes| then []
    else
      var last := i == |nodes| - 1;
      var item := nodes[i];
      [prefix + (if last then m.end else m.fork) + item.name]
      + (if item.nodes != [] then Generate(item.nodes, 0, prefix + (if last then m.void else m.line), m) else [])
      + Generate(nodes, i + 1, prefix, m)
  }

  /** The lines of a rendered tree: the root's name, then its descendants. */
  function Lines<T>(root: Node<T>, m: Markers): seq<string>
  {
    [root.name] + Generate(root.nodes, 0, [], m)
  }

  /**
    `Tree.render(style, empty)`: an unknown style is an error; an empty tree
    renders as `empty`; otherwise the lines joined with newlines.
  */
  function Render<T>(root: Option<Node<T>>, style: string, empty: string): (r: Result<string, StyleError>)
    ensures r.Err? <==> style !in StyleNames
    ensures r.Err? ==> r.error == InvalidStyle(style)
    ensures r.Ok? && root.None? ==> r.value == empty
  {
    match StyleMarkers(style)
    case None => Err(InvalidStyle(style))
    case Some(m) =>
      if root.None? then Ok(empty)
      else Ok(JoinWith("\n", Lines(root.value, m)))
  }

  // ---------------------------------------------------------------------------
  // What render produces, stated independently of `generate`

  /**
    A node met in a depth-first walk with the path leading to it: for each
    level below the root, whether the node on the path at that level is the
    last child of its parent (the last entry is about the node itself).
  */
  datatype Entry<T> = Entry(node: Node<T>, path: seq<bool>)

  /** The preorder walk of children i.. of a node reached along `path`. */
  function Walk<T>(nodes: seq<Node<T>>, i: nat, path: seq<bool>): seq<Entry<T>>
    requires i <= |nodes|
    decreases nodes, |nodes| - i
  {
    if i == |nodes| then []
    else
      var here := path + [i == |nodes| - 1];
      [Entry(nodes[i], here)] + Walk(nodes[i].nodes, 0, here) + Walk(nodes, i + 1, path)
  }

  /** Every node of the tree, in preorder, the root first. */
  function Preorder<T>(root: Node<T>): seq<Entry<T>>
  {
    [Entry(root, [])] + Walk(root.nodes, 0, [])
  }

  /** The indentation under a path of ancestors: `void` below a last child, `line` below any other. */
  function Indent(m: Markers, path: seq<bool>): string
  {
    if path == [] then []
    else Indent(m, path[..|path| - 1]) + (if path[|path| - 1] then m.void else m.line)
  }

  /**
    The line of one node: the root shows its bare name; any other node is
    indented under its ancestors and marked `end` when it is the last child
    of its parent and `fork` otherwise.
  */
  function LineOf<T>(m: Markers, e: Entry<T>): string
  {
    if e.path == [] then e.node.name
    else
      var up := e.path[..|e.path| - 1];
      Indent(m, up) + (if e.path[|e.path| - 1] then m.end else m.fork) + e.node.name
  }

  function LinesOf<T>(m: Markers, es: seq<Entry<T>>): (ls: seq<string>)
    ensures |ls| == |es|
    ensures forall k :: 0 <= k < |es| ==> ls[k] == LineOf(m, es[k])
  {
    seq(|es|, k requires 0 <= k < |es| => LineOf(m, es[k]))
  }

  lemma LinesOfConcat<T>(m: Markers, a: seq<Entry<T>>, b: seq<Entry<T>>)
    ensures LinesOf(m, a + b) == LinesOf(m, a) + LinesOf(m, b)
  {
  }

  lemma LinesOfStep<T>(m: Markers, e: Entry<T>, a: seq<Entry<T>>, b: seq<Entry<T>>)
    ensures LinesOf(m, [e] + a + b) == [LineOf(m, e)] + LinesOf(m, a) + LinesOf(m, b)
  {
    LinesOfConcat(m, [e] + a, b);
    LinesOfConcat(m, [e], a);
  }

  lemma ChildLine<T>(m: Markers, item: Node<T>, path: seq<bool>, last: bool)
    ensures Indent(m, path + [last]) == Indent(m, path) + (if last then m.void else m.line)
    ensures LineOf(m, Entry(item, path + [last])) == Indent(m, path) + (if last then m.end else m.fork) + item.name
  {
    assert (path + [last])[..|path|] == path;
  }

  lemma NoChildren<T>(nodes: seq<Node<T>>, prefix: string, path: seq<bool>, m: Markers)
    ensures (if nodes != [] then Generate(nodes, 0, prefix, m) else []) == Generate(nodes, 0, prefix, m)
    ensures nodes == [] ==> Walk(nodes, 0, path) == []
  {
  }

  /** `generate` writes one line per node of the walk, in the walk's order. */
  lemma {:induction false} GenerateWalk<T>(nodes: seq<Node<T>>, i: nat, path: seq<bool>, m: Markers)
    requires i <= |nodes|
    ensures Generate(nodes, i, Indent(m, path), m) == LinesOf(m, Walk(nodes, i, path))
    decreases nodes, |nodes| - i
  {
    if i < |nodes| {
      var last := i == |nodes| - 1;
      var here := path + [last];
      var item := nodes[i];
      GenerateWalk(item.nodes, 0, here, m);
      GenerateWalk(nodes, i + 1, path, m);
      ChildLine(m, item, path, last);
      NoChildren(item.nodes, Indent(m, here), here, m);
      LinesOfStep(m, Entry(item, here), Walk(item.nodes, 0, here), Walk(nodes, i + 1, path));
    }
  }

  /**
    The rendered lines are exactly the lines of the nodes in preorder: one
    line per node, the root's bare name first, every other node indented
    under its ancestors (`void` below a last child, `line` below the others)
    and marked `end` if it is its parent's last child, `fork` otherwise.
  */
  lemma RenderLines<T>(root: Node<T>, m: Markers)
    ensures Lines(root, m) == LinesOf(m, Preorder(root))
    ensures |Lines(root, m)| == |Preorder(root)| && Lines(root, m)[0] == root.name
  {
    var below := Walk(root.nodes, 0, []);
    GenerateWalk(root.nodes, 0, [], m);
    RootLine(root, below, m);
  }

  lemma RootLine<T>(root: Node<T>, below: seq<Entry<T>>, m: Markers)
    ensures Indent(m, []) == []
    ensures LinesOf(m, [Entry(root, [])] + below) == [root.name] + LinesOf(m, below)
  {
    LinesOfConcat(m, [Entry(root, [])], below);
  }

  /** Each level of nesting indents by the four characters of a marker. */
  lemma {:induction false} LineWidth<T>(m: Markers, e: Entry<T>)
    requires |m.line| == |m.fork| == |m.end| == |m.void| == 4
    ensures |LineOf(m, e)| == 4 * |e.path| + |e.node.name|
  {
    if e.path != [] {
      IndentWidth(m, e.path[..|e.path| - 1]);
    }
  }

  lemma {:induction false} IndentWidth(m: Markers, path: seq<bool>)
    requires |m.line| == |m.void| == 4
    ensures |Indent(m, path)| == 4 * |path|
    decreases |path|
  {
    if path != [] {
      IndentWidth(m, path[..|path| - 1]);
    }
  }

  /**
    The rendered text splits back into the lines, one per node, as long as
    no node name contains a newline.
  */
  lemma RenderSplits<T>(root: Node<T>, style: string, empty: string)
    requires style in StyleNames
    requires forall k :: 0 <= k < |Preorder(root)| ==> '\n' !in Preorder(root)[k].node.name
    ensures Render(Some(root), style, empty).Ok?
    ensures Split(Render(Some(root), style, empty).value, '\n') == LinesOf(StyleMarkers(style).value, Preorder(root))
  {
    var m := StyleMarkers(style).value;
    RenderLines(root, m);
    var es := Preorder(root);
    forall k | 0 <= k < |es| ensures '\n' !in LinesOf(m, es)[k] {
      MarkersFree(m, style);
      LineFree(m, es[k]);
    }
    SplitJoin(LinesOf(m, es), '\n');
  }

  lemma MarkersFree(m: Markers, style: string)
    requires StyleMarkers(style) == Some(m)
    ensures '\n' !in m.line && '\n' !in m.fork && '\n' !in m.end && '\n' !in m.void
  {
  }

  lemma {:induction false} LineFree<T>(m: Markers, e: Entry<T>)
    requires '\n' !in m.line && '\n' !in m.fork && '\n' !in m.end && '\n' !in m.void
    requires '\n' !in e.node.name
    ensures '\n' !in LineOf(m, e)
  {
    if e.path != [] {
      IndentFree(m, e.path[..|e.path| - 1]);
    }
  }

  lemma {:induction false} IndentFree(m: Markers, path: seq<bool>)
    requires '\n' !in m.line && '\n' !in m.void
    ensures '\n' !in Indent(m, path)
    decreases |path|
  {
    if path != [] {
      IndentFree(m, path[..|path| - 1]);
    }
  }

  // ---------------------------------------------------------------------------
  // Sorting children by name

  /** Python's `a <= b` on strings: lexicographic by code point. */
  predicate NameLe(a: string, b: string)
    decreases |a|
  {
    a == [] || (b != [] && (a[0] < b[0] || (a[0] == b[0] && NameLe(a[1..], b[1..]))))
  }

  lemma {:induction false} NameLeTotal(a: string, b: string)
    ensures NameLe(a, b) || NameLe(b, a)
    decreases |a|
  {
    if a != [] && b != [] && a[0] == b[0] {
      NameLeTotal(a[1..], b[1..]);
    }
  }

  lemma {:induction false} NameLeTrans(a: string, b: string, c: string)
    requires NameLe(a, b) && NameLe(b, c)
    ensures NameLe(a, c)
    decreases |a|
  {
    if a != [] && a[0] == b[0] && b[0] == c[0] {
      NameLeTrans(a[1..], b[1..], c[1..]);
    }
  }

  predicate SortedByName<T>(xs: seq<T>, name: T -> string)
  {
    forall i, j :: 0 <= i < j < |xs| ==> NameLe(name(xs[i]), name(xs[j]))
  }

  /** Insert x before the first element whose name is not below x's. */
  function InsertByName<T>(x: T, xs: seq<T>, name: T -> string): seq<T>
  {
    if xs == [] then [x]
    else if NameLe(name(x), name(xs[0])) then [x] + xs
    else [xs[0]] + InsertByName(x, xs[1..], name)
  }

  /** `list.sort(key=attrgetter('name'))`: a stable insertion sort on the names. */
  function SortByName<T>(xs: seq<T>, name: T -> string): seq<T>
  {
    if xs == [] then [] else InsertByName(xs[0], SortByName(xs[1..], name), name)
  }

  /** A sorted list stays sorted under a new head no later than any of its elements. */
  lemma ConsSorted<T>(x: T, xs: seq<T>, name: T -> string)
    requires SortedByName(xs, name)
    requires forall t :: 0 <= t < |xs| ==> NameLe(name(x), name(xs[t]))
    ensures SortedByName([x] + xs, name)
  {
    var r := [x] + xs;
    forall i, j | 0 <= i < j < |r| ensures NameLe(name(r[i]), name(r[j])) {
      if i > 0 {
        assert r[i] == xs[i - 1] && r[j] == xs[j - 1];
      }
    }
  }

  lemma TailSorted<T>(xs: seq<T>, name: T -> string)
    requires xs != [] && SortedByName(xs, name)
    ensures SortedByName(xs[1..], name)
    ensures forall t :: 0 <= t < |xs| - 1 ==> NameLe(name(xs[0]), name(xs[1..][t]))
  {
    var tail := xs[1..];
    forall i, j | 0 <= i < j < |tail| ensures NameLe(name(tail[i]), name(tail[j])) {
      assert tail[i] == xs[i + 1] && tail[j] == xs[j + 1];
    }
    forall t | 0 <= t < |tail| ensures NameLe(name(xs[0]), name(tail[t])) {
      assert tail[t] == xs[t + 1];
    }
  }

  /** A lower bound of x and of every element is a lower bound of the insertion. */
  lemma {:induction false} InsertBound<T>(x: T, xs: seq<T>, name: T -> string, b: string)
    requires NameLe(b, name(x))
    requires forall t :: 0 <= t < |xs| ==> NameLe(b, name(xs[t]))
    ensures forall t :: 0 <= t < |InsertByName(x, xs, name)| ==> NameLe(b, name(InsertByName(x, xs, name)[t]))
    decreases |xs|
  {
    if xs != [] && !NameLe(name(x), name(xs[0])) {
      var tail := xs[1..];
      forall t | 0 <= t < |tail| ensures NameLe(b, name(tail[t])) {
        assert tail[t] == xs[t + 1];
      }
      InsertBound(x, tail, name, b);
    }
  }

  lemma {:induction false} InsertMultiset<T>(x: T, xs: seq<T>, name: T -> string)
    ensures multiset(InsertByName(x, xs, name)) == multiset(xs) + multiset{x}
    decreases |xs|
  {
    if xs != [] {
      assert xs == [xs[0]] + xs[1..];
      if !NameLe(name(x), name(xs[0])) {
        InsertMultiset(x, xs[1..], name);
      }
    }
  }

  lemma {:induction false} InsertSorted<T>(x: T, xs: seq<T>, name: T -> string)
    requires SortedByName(xs, name)
    ensures SortedByName(InsertByName(x, xs, name), name)
    decreases |xs|
  {
    if xs != [] {
      TailSorted(xs, name);
      if NameLe(name(x), name(xs[0])) {
        forall t | 0 <= t < |xs| ensures NameLe(name(x), name(xs[t])) {
          if t > 0 {
            assert xs[t] == xs[1..][t - 1];
            NameLeTrans(name(x), name(xs[0]), name(xs[t]));
          }
        }
        ConsSorted(x, xs, name);
      } else {
        NameLeTotal(name(x), name(xs[0]));
        InsertSorted(x, xs[1..], name);
        InsertBound(x, xs[1..], name, name(xs[0]));
        ConsSorted(xs[0], InsertByName(x, xs[1..], name), name);
      }
    }
  }

  /**
    Sorting orders the children by name, keeps every one of them, and is
    stable: children of the same name stay in the order they were added.
  */
  lemma {:induction false} SortSpec<T>(xs: seq<T>, name: T -> string)
    ensures SortedByName(SortByName(xs, name), name)
    ensures multiset(SortByName(xs, name)) == multiset(xs)
    ensures forall n :: Named(SortByName(xs, name), name, n) == Named(xs, name, n)
    decreases |xs|
  {
    SortSorted(xs, name);
    SortPermutes(xs, name);
    forall n {
      SortStable(xs, name, n);
    }
  }

  /** The elements named n, in their order. */
  function Named<T>(xs: seq<T>, name: T -> string, n: string): (r: seq<T>)
    ensures |r| <= |xs|
  {
    if xs == [] then []
    else (if name(xs[0]) == n then [xs[0]] else []) + Named(xs[1..], name, n)
  }

  lemma {:induction false} NameLeRefl(a: string)
    ensures NameLe(a, a)
    decreases |a|
  {
    if a != [] {
      NameLeRefl(a[1..]);
    }
  }

  /**
    Insertion passes only elements whose names are below x's, so among the
    elements of one name x lands in front.
  */
  lemma {:induction false} InsertNamed<T>(x: T, xs: seq<T>, name: T -> string, n: string)
    ensures Named(InsertByName(x, xs, name), name, n) == (if name(x) == n then [x] else []) + Named(xs, name, n)
    decreases |xs|
  {
    if xs == [] {
      assert Named([x], name, n) == (if name(x) == n then [x] else []) + Named([], name, n);
    } else if NameLe(name(x), name(xs[0])) {
      assert ([x] + xs)[1..] == xs;
    } else {
      NameLeRefl(name(x));
      assert name(xs[0]) != name(x);
      InsertNamed(x, xs[1..], name, n);
      var r := [xs[0]] + InsertByName(x, xs[1..], name);
      assert r[1..] == InsertByName(x, xs[1..], name);
    }
  }

  /** The insertion sort keeps the elements of each name in their order. */
  lemma {:induction false} SortStable<T>(xs: seq<T>, name: T -> string, n: string)
    ensures Named(SortByName(xs, name), name, n) == Named(xs, name, n)
    decreases |xs|
  {
    if xs != [] {
      SortStable(xs[1..], name, n);
      InsertNamed(xs[0], SortByName(xs[1..], name), name, n);
    }
  }

  lemma {:induction false} SortSorted<T>(xs: seq<T>, name: T -> string)
    ensures SortedByName(SortByName(xs, name), name)
    decreases |xs|
  {
    if xs != [] {
      SortSorted(xs[1..], name);
      InsertSorted(xs[0], SortByName(xs[1..], name), name);
    }
  }

  lemma {:induction false} SortPermutes<T>(xs: seq<T>, name: T -> string)
    ensures multiset(SortByName(xs, name)) == multiset(xs)
    decreases |xs|
  {
    if xs != [] {
      SortPermutes(xs[1..], name);
      InsertMultiset(xs[0], SortByName(xs[1..], name), name);
      ConsMultiset(xs);
    }
  }

  lemma ConsMultiset<T>(xs: seq<T>)
    requires xs != []
    ensures multiset(xs) == multiset(xs[1..]) + multiset{xs[0]}
  {
    assert xs == [xs[0]] + xs[1..];
  }

  // ---------------------------------------------------------------------------
  // build

  /**
    An entry of `nodes_index`: the node made for an item. Each item gets one
    node, made once and shared by the index and its parent's child list, so
    the children are named here by their items.
  */
  datatype Record<T> = Record(name: string, value: T, nodes: seq<T>)

  /** The `RuntimeError` of `build`: two items without a parent. */
  datatype BuildError<T> = NotConnected(root: T, other: T)

  /** What `build` leaves behind: the root item, if any, and the index. */
  datatype Built<T> = Built(root: Option<T>, index: map<T, Record<T>>)

  /** The item n steps up the parent links from x, `None` past a parentless one. */
  function Up<T>(parent: T -> Option<T>, x: T, n: nat): Option<T>
  {
    if n == 0 then Some(x)
    else match Up(parent, x, n - 1)
      case None => None
      case Some(y) => parent(y)
  }

  /** y is an item or an ancestor of one. */
  ghost predicate Reachable<T>(items: seq<T>, parent: T -> Option<T>, y: T)
  {
    exists i, n: nat :: 0 <= i < |items| && Up(parent, items[i], n) == Some(y)
  }

  /** A set the parent links do not lead out of. */
  ghost predicate Closed<T>(s: set<T>, parent: T -> Option<T>)
  {
    forall x {:trigger parent(x)} :: x in s && parent(x).Some? ==> parent(x).value in s
  }

  ghost predicate Distinct<T>(xs: seq<T>)
  {
    forall y :: y in multiset(xs) ==> multiset(xs)[y] == 1
  }

  /** Every node records its own item and name. */
  ghost predicate Records<T>(index: map<T, Record<T>>, name: T -> string)
  {
    forall x :: x in index ==> index[x].name == name(x) && index[x].value == x
  }

  /**
    Every child list holds distinct children of its owner, and a falsy owner
    holds at most the one child it was created with.
  */
  ghost predicate ChildLists<T>(index: map<T, Record<T>>, parent: T -> Option<T>, truthy: T -> bool)
  {
    forall p :: p in index ==>
      && Distinct(index[p].nodes)
      && (!truthy(p) ==> |index[p].nodes| <= 1)
      && (forall y :: y in index[p].nodes ==> y in index && parent(y) == Some(p))
  }

  /** x's parent is indexed, and x is in its child list when the parent is truthy. */
  ghost predicate Linked<T>(index: map<T, Record<T>>, parent: T -> Option<T>, truthy: T -> bool, x: T)
  {
    parent(x).Some? ==>
      && parent(x).value in index
      && (truthy(parent(x).value) ==> x in index[parent(x).value].nodes)
  }

  /** Every indexed item but `climbing` is linked to its parent, or is the root. */
  ghost predicate Settled<T>(index: map<T, Record<T>>, parent: T -> Option<T>, truthy: T -> bool, root: Option<T>, climbing: Option<T>)
  {
    forall x {:trigger parent(x)} :: x in index && Some(x) != climbing ==>
      && Linked(index, parent, truthy, x)
      && (parent(x).None? ==> root == Some(x))
  }

  ghost predicate RootOk<T>(index: map<T, Record<T>>, parent: T -> Option<T>, root: Option<T>)
  {
    root.Some? ==> root.value in index && parent(root.value).None?
  }

  /** The index holds exactly the items and their ancestors. */
  ghost predicate Spans<T>(items: seq<T>, parent: T -> Option<T>, index: map<T, Record<T>>)
  {
    && (forall y :: y in index ==> Reachable(items, parent, y))
    && (forall i, n: nat :: 0 <= i < |items| && Up(parent, items[i], n).Some? ==> Up(parent, items[i], n).value in index)
  }

  /** The root, if any, is the one indexed item without a parent. */
  ghost predicate SoleRoot<T>(index: map<T, Record<T>>, parent: T -> Option<T>, root: Option<T>)
  {
    && (root.Some? ==> root.value in index)
    && (forall x :: x in index ==> (parent(x).None? <==> root == Some(x)))
  }

  ghost predicate ChildrenSorted<T>(index: map<T, Record<T>>, name: T -> string)
  {
    forall p :: p in index ==> SortedByName(index[p].nodes, name)
  }

  /** No child list holds y. */
  ghost predicate Unlisted<T>(index: map<T, Record<T>>, y: T)
  {
    forall p :: p in index ==> y !in index[p].nodes
  }

  /**
    `Tree.build(items, naming, parent)`. For each item not yet indexed, a
    node is made and the parent links are climbed, making a node for every
    ancestor not yet indexed with the node below it as its only child. The
    climb stops at an indexed ancestor, to whose children the last node made
    is appended, or at an item without a parent, which becomes the root; a
    second one is an error. Finally every child list is sorted by name.

    The names and parents are given as functions. `truthy` is Python's truth
    value of an item: the code appends to the indexed ancestor only when that
    ancestor is truthy. `universe` is a finite set of items closed under
    parent links; it exists whenever the climbs end.
  */
  method Build<T(==)>(items: seq<T>, name: T -> string, parent: T -> Option<T>, truthy: T -> bool, ghost universe: set<T>)
    returns (r: Result<Built<T>, BuildError<T>>)
    requires forall i :: 0 <= i < |items| ==> items[i] in universe
    requires Closed(universe, parent)
    ensures r.Err? ==>
      && r.error.root != r.error.other
      && parent(r.error.root).None? && parent(r.error.other).None?
      && Reachable(items, parent, r.error.root) && Reachable(items, parent, r.error.other)
    ensures r.Ok? ==> WellBuilt(items, name, parent, truthy, r.value)
  {
    var index: map<T, Record<T>> := map[];
    var root: Option<T> := None;
    var k := 0;
    while k < |items|
      invariant k <= |items|
      invariant forall i :: 0 <= i < k ==> items[i] in index
      invariant Indexed(items, index, universe, name, parent, truthy, root)
      decreases |items| - k
    {
      var placed := Place(index, root, items, k, name, parent, truthy, universe);
      if placed.Err? {
        return Err(placed.error);
      }
      Covered(items, k, index.Keys, placed.value.index.Keys);
      index, root := placed.value.index, placed.value.root;
      k := k + 1;
    }

    ghost var unsorted := index;
    index := SortChildren(index, name);
    SortedIndex(unsorted, index, name, parent, truthy, root);
    Conclude(items, parent, truthy, root, unsorted, index);
    r := Ok(Built(root, index));
  }

  /**
    What `build` returns: the index holds exactly the items and their
    ancestors, the root is the one of them without a parent, every node
    records its own item and name, the child lists are sound and sorted by
    name, and every item with a parent is linked to it.
  */
  ghost predicate WellBuilt<T>(items: seq<T>, name: T -> string, parent: T -> Option<T>, truthy: T -> bool, b: Built<T>)
  {
    && Spans(items, parent, b.index)
    && SoleRoot(b.index, parent, b.root)
    && Records(b.index, name)
    && ChildLists(b.index, parent, truthy)
    && ChildrenSorted(b.index, name)
    && Settled(b.index, parent, truthy, b.root, None)
  }

  /** A new node for an item starts a climb: it is in no child list and is not the root. */
  lemma NewStep<T>(index: map<T, Record<T>>, name: T -> string, parent: T -> Option<T>, truthy: T -> bool, root: Option<T>, item: T)
    requires item !in index
    requires Records(index, name) && ChildLists(index, parent, truthy)
    requires Settled(index, parent, truthy, root, None) && RootOk(index, parent, root)
    ensures var next := index[item := Record(name(item), item, [])];
      && Records(next, name) && ChildLists(next, parent, truthy)
      && Settled(next, parent, truthy, root, Some(item)) && RootOk(next, parent, root)
      && Unlisted(next, item) && root != Some(item)
  {
    var next := index[item := Record(name(item), item, [])];
    forall x | x in next && Some(x) != Some(item)
      ensures Linked(next, parent, truthy, x) && (parent(x).None? ==> root == Some(x))
    {
      LinkedFresh(index, parent, truthy, root, x, item, Record(name(item), item, []));
    }
  }

  /** Indexing a new item keeps every indexed item linked. */
  lemma LinkedFresh<T>(index: map<T, Record<T>>, parent: T -> Option<T>, truthy: T -> bool, root: Option<T>, x: T, item: T, rec: Record<T>)
    requires item !in index && x in index[item := rec] && x != item
    requires Settled(index, parent, truthy, root, None)
    ensures Linked(index[item := rec], parent, truthy, x) && (parent(x).None? ==> root == Some(x))
  {
    assert x in index && Linked(index, parent, truthy, x);
  }

  /**
    Climbing to an ancestor p not yet indexed: p gets a node whose only
    child is the node below; p is now the top of the climb.
  */
  lemma ClimbStep<T>(index: map<T, Record<T>>, name: T -> string, parent: T -> Option<T>, truthy: T -> bool, root: Option<T>, node: T, p: T)
    requires node in index && p !in index && parent(node) == Some(p)
    requires Records(index, name) && ChildLists(index, parent, truthy)
    requires Settled(index, parent, truthy, root, Some(node)) && RootOk(index, parent, root)
    requires Unlisted(index, node) && root != Some(node)
    ensures var next := index[p := Record(name(p), p, [node])];
      && Records(next, name) && ChildLists(next, parent, truthy)
      && Settled(next, parent, truthy, root, Some(p)) && RootOk(next, parent, root)
      && Unlisted(next, p) && root != Some(p)
  {
    var next := index[p := Record(name(p), p, [node])];
    assert multiset([node])[node] == 1;
    forall x | x in next && Some(x) != Some(p)
      ensures Linked(next, parent, truthy, x) && (parent(x).None? ==> root == Some(x))
    {
      if x != node {
        assert x in index && Linked(index, parent, truthy, x);
      }
    }
    forall q | q in next ensures p !in next[q].nodes {
      if q != p {
        assert forall y :: y in index[q].nodes ==> y in index;
      }
    }
  }

  /** The climb reached an item without a parent while there is no root yet: it becomes the root. */
  lemma RootStep<T>(index: map<T, Record<T>>, parent: T -> Option<T>, truthy: T -> bool, root: Option<T>, node: T)
    requires node in index && parent(node).None? && root.None?
    requires Settled(index, parent, truthy, root, Some(node))
    ensures Settled(index, parent, truthy, Some(node), None) && RootOk(index, parent, Some(node))
  {
    forall x | x in index
      ensures Linked(index, parent, truthy, x) && (parent(x).None? ==> Some(node) == Some(x))
    {
      if x != node {
        assert parent(x).None? ==> root == Some(x);
      }
    }
  }

  /**
    The climb reached an indexed ancestor p: the top node is appended to p's
    children when p is truthy (`if parent_item:`), and left out otherwise.
  */
  lemma AttachStep<T>(index: map<T, Record<T>>, name: T -> string, parent: T -> Option<T>, truthy: T -> bool, root: Option<T>, node: T, p: T)
    requires node in index && p in index && parent(node) == Some(p)
    requires Records(index, name) && ChildLists(index, parent, truthy)
    requires Settled(index, parent, truthy, root, Some(node)) && RootOk(index, parent, root)
    requires Unlisted(index, node) && root != Some(node)
    ensures var next := if truthy(p) then index[p := index[p].(nodes := index[p].nodes + [node])] else index;
      && Records(next, name) && ChildLists(next, parent, truthy)
      && Settled(next, parent, truthy, root, None) && RootOk(next, parent, root)
  {
    if truthy(p) {
      AppendChild(index, parent, truthy, p, node);
      AppendSettled(index, parent, truthy, root, node, p);
    } else {
      forall x | x in index
        ensures Linked(index, parent, truthy, x) && (parent(x).None? ==> root == Some(x))
      {
        if x != node {
          assert Linked(index, parent, truthy, x);
        }
      }
    }
  }

  /** Once the top of a climb is appended to its truthy parent's list, every indexed item is linked. */
  lemma AppendSettled<T>(index: map<T, Record<T>>, parent: T -> Option<T>, truthy: T -> bool, root: Option<T>, node: T, p: T)
    requires node in index && p in index && parent(node) == Some(p) && truthy(p) && root != Some(node)
    requires Settled(index, parent, truthy, root, Some(node))
    ensures Settled(index[p := index[p].(nodes := index[p].nodes + [node])], parent, truthy, root, None)
  {
    var next := index[p := index[p].(nodes := index[p].nodes + [node])];
    forall x | x in next
      ensures Linked(next, parent, truthy, x) && (parent(x).None? ==> root == Some(x))
    {
      LinkedAppend(index, parent, truthy, root, node, p, x);
    }
  }

  lemma LinkedAppend<T>(index: map<T, Record<T>>, parent: T -> Option<T>, truthy: T -> bool, root: Option<T>, node: T, p: T, x: T)
    requires node in index && p in index && parent(node) == Some(p) && truthy(p) && root != Some(node)
    requires Settled(index, parent, truthy, root, Some(node)) && x in index
    ensures Linked(index[p := index[p].(nodes := index[p].nodes + [node])], parent, truthy, x)
    ensures parent(x).None? ==> root == Some(x)
  {
    if x != node {
      assert Linked(index, parent, truthy, x);
    }
  }

  /** Appending an unlisted child to the list of its truthy parent keeps the child lists sound. */
  lemma AppendChild<T>(index: map<T, Record<T>>, parent: T -> Option<T>, truthy: T -> bool, p: T, node: T)
    requires ChildLists(index, parent, truthy) && Unlisted(index, node)
    requires p in index && node in index && parent(node) == Some(p) && truthy(p)
    ensures ChildLists(index[p := index[p].(nodes := index[p].nodes + [node])], parent, truthy)
  {
    var next := index[p := index[p].(nodes := index[p].nodes + [node])];
    forall q | q in next
      ensures Distinct(next[q].nodes)
      ensures !truthy(q) ==> |next[q].nodes| <= 1
      ensures forall y :: y in next[q].nodes ==> y in next && parent(y) == Some(q)
    {
      if q == p {
        AppendDistinct(index[p].nodes, node);
      } else {
        assert next[q] == index[q];
      }
    }
  }

  lemma AppendDistinct<T>(xs: seq<T>, y: T)
    requires Distinct(xs) && y !in xs
    ensures Distinct(xs + [y]) && forall z :: z in xs + [y] ==> z in xs || z == y
  {
    assert multiset(xs + [y]) == multiset(xs) + multiset{y};
  }

  /**
    The body of `build`'s loop for item k: an item already indexed is
    skipped; otherwise index it, climb its parent links indexing every
    ancestor not yet indexed, then attach the top of the climb to the indexed
    ancestor that stopped it, or make it the root when the climb ran out of
    parents.
  */
  method Place<T(==)>(index0: map<T, Record<T>>, root0: Option<T>, items: seq<T>, k: nat, name: T -> string, parent: T -> Option<T>, truthy: T -> bool, ghost universe: set<T>)
    returns (r: Result<Built<T>, BuildError<T>>)
    requires k < |items| && items[k] in universe && Closed(universe, parent)
    requires Indexed(items, index0, universe, name, parent, truthy, root0)
    ensures r.Err? ==>
      && r.error.root != r.error.other
      && parent(r.error.root).None? && parent(r.error.other).None?
      && Reachable(items, parent, r.error.root) && Reachable(items, parent, r.error.other)
    ensures r.Ok? ==>
      && index0.Keys <= r.value.index.Keys && items[k] in r.value.index
      && Indexed(items, r.value.index, universe, name, parent, truthy, r.value.root)
  {
    var item := items[k];
    if item in index0 {
      return Ok(Built(root0, index0));
    }
    NewStep(index0, name, parent, truthy, root0, item);
    var index := index0[item := Record(name(item), item, [])];
    ghost var added;
    var climbed;
    climbed, added := Climb(index, root0, item, name, parent, truthy, universe);
    if climbed.Err? {
      AddedReachable(items, k, parent, index0.Keys, index.Keys + climbed.error.reached, added);
      return Err(climbed.error.error);
    }
    var c := climbed.value;
    ghost var start := index;
    index := c.index;
    if c.above.Some? && truthy(c.above.value) {
      var p := c.above.value;
      index := index[p := index[p].(nodes := index[p].nodes + [c.top])];
    }
    Attached(items, k, index0, start, c, index, added, universe, name, parent, truthy);
    r := Ok(Built(c.root, index));
  }

  /** The items before k stay indexed once item k is. */
  lemma Covered<T>(items: seq<T>, k: nat, before: set<T>, after: set<T>)
    requires k < |items| && before <= after && items[k] in after
    requires forall i :: 0 <= i < k ==> items[i] in before
    ensures forall i :: 0 <= i < k + 1 ==> items[i] in after
  {
  }

  /**
    What `build` keeps between items: the index stays within `universe`,
    holds items and their ancestors only, every node records its own item,
    the child lists are sound and every node is linked to its parent or is
    the root.
  */
  ghost predicate Indexed<T>(items: seq<T>, index: map<T, Record<T>>, universe: set<T>, name: T -> string, parent: T -> Option<T>, truthy: T -> bool, root: Option<T>)
  {
    && index.Keys <= universe
    && (forall x :: x in index ==> Reachable(items, parent, x))
    && Records(index, name) && ChildLists(index, parent, truthy)
    && Settled(index, parent, truthy, root, None) && RootOk(index, parent, root)
  }

  /** The end of a climb from `start` that did not fail, as `Climb` promises it. */
  ghost predicate ClimbedOk<T>(start: map<T, Record<T>>, c: Climbed<T>, universe: set<T>, name: T -> string, parent: T -> Option<T>, truthy: T -> bool, added: seq<T>)
  {
    && start.Keys <= c.index.Keys <= universe
    && (forall x :: x in c.index ==> x in start || x in added)
    && Records(c.index, name) && ChildLists(c.index, parent, truthy) && RootOk(c.index, parent, c.root)
    && c.top in c.index && c.above == parent(c.top)
    && (c.above.None? ==> c.root == Some(c.top) && Settled(c.index, parent, truthy, c.root, None))
    && (c.above.Some? ==>
          && c.above.value in c.index
          && Settled(c.index, parent, truthy, c.root, Some(c.top))
          && Unlisted(c.index, c.top) && c.root != Some(c.top))
  }

  /** Appending the top of a finished climb to a truthy indexed ancestor restores what `build` keeps. */
  lemma Attached<T>(items: seq<T>, k: nat, index0: map<T, Record<T>>, start: map<T, Record<T>>, c: Climbed<T>, index: map<T, Record<T>>, added: seq<T>, universe: set<T>, name: T -> string, parent: T -> Option<T>, truthy: T -> bool)
    requires k < |items| && start == index0[items[k] := Record(name(items[k]), items[k], [])]
    requires forall x :: x in index0 ==> Reachable(items, parent, x)
    requires Chain(parent, items[k], added) && ClimbedOk(start, c, universe, name, parent, truthy, added)
    requires index == if c.above.Some? && truthy(c.above.value) then
      c.index[c.above.value := c.index[c.above.value].(nodes := c.index[c.above.value].nodes + [c.top])]
      else c.index
    ensures index0.Keys <= index.Keys && items[k] in index
    ensures Indexed(items, index, universe, name, parent, truthy, c.root)
  {
    assert index.Keys == c.index.Keys;
    StartCovered(index0.Keys, start.Keys, index.Keys, items[k], added);
    AddedReachable(items, k, parent, index0.Keys, index.Keys, added);
    if c.above.Some? {
      AttachStep(c.index, name, parent, truthy, c.root, c.top, c.above.value);
    }
  }

  lemma StartCovered<T>(before: set<T>, start: set<T>, after: set<T>, item: T, added: seq<T>)
    requires start == before + {item} && start <= after
    requires added != [] && added[0] == item
    requires forall x :: x in after ==> x in start || x in added
    ensures before <= after && item in after
    ensures forall x :: x in after ==> x in before || x in added
  {
  }

  /**
    Where a climb stops: the index, the root, the node on top of the climb,
    and `parent_item`, which is indexed or is `None` when the top became the root.
  */
  datatype Climbed<T> = Climbed(index: map<T, Record<T>>, root: Option<T>, top: T, above: Option<T>)

  /** A climb that found a second parentless item, with the items it indexed. */
  datatype Stuck<T> = Stuck(error: BuildError<T>, ghost reached: set<T>)

  /**
    The `while parent_item not in nodes_index` loop of `build`, from a node
    just made for an item: make a node for every ancestor not yet indexed,
    holding the node below as its only child, until an indexed ancestor or a
    parentless item is reached; the latter becomes the root, or is an error
    when there already is one. The test `parent_item is None` inside the
    loop can only pass once the climb has run out of ancestors, so it is made
    here after `Ascend` has climbed.
  */
  method Climb<T(==)>(index0: map<T, Record<T>>, root0: Option<T>, item: T, name: T -> string, parent: T -> Option<T>, truthy: T -> bool, ghost universe: set<T>)
    returns (r: Result<Climbed<T>, Stuck<T>>, ghost added: seq<T>)
    requires item in index0 && index0.Keys <= universe && Closed(universe, parent)
    requires Records(index0, name) && ChildLists(index0, parent, truthy)
    requires Settled(index0, parent, truthy, root0, Some(item)) && RootOk(index0, parent, root0)
    requires Unlisted(index0, item) && root0 != Some(item)
    ensures Chain(parent, item, added)
    ensures r.Err? ==>
      && var e := r.error.error;
      && e.root != e.other
      && parent(e.root).None? && parent(e.other).None?
      && e.root in index0 && e.other in r.error.reached
      && forall x :: x in r.error.reached ==> x in added
    ensures r.Ok? ==> ClimbedOk(index0, r.value, universe, name, parent, truthy, added)
  {
    var index, node;
    index, node, added := Ascend(index0, root0, item, name, parent, truthy, universe);
    var parentItem := parent(node);
    var root := root0;
    if parentItem.None? {
      if root.None? {
        RootStep(index, parent, truthy, root, node);
        root := Some(node);
      } else {
        return Err(Stuck(NotConnected(root.value, node), {node})), added;
      }
    }
    r := Ok(Climbed(index, root, node, parentItem));
  }

  /**
    The climb itself: while the parent of the top node is an item not yet
    indexed, index it with the top node as its only child and make it the
    new top. `added` lists the nodes made, the item's own first.
  */
  method Ascend<T(==)>(index0: map<T, Record<T>>, root: Option<T>, item: T, name: T -> string, parent: T -> Option<T>, truthy: T -> bool, ghost universe: set<T>)
    returns (index: map<T, Record<T>>, node: T, ghost added: seq<T>)
    requires item in index0 && index0.Keys <= universe && Closed(universe, parent)
    requires Records(index0, name) && ChildLists(index0, parent, truthy)
    requires Settled(index0, parent, truthy, root, Some(item)) && RootOk(index0, parent, root)
    requires Unlisted(index0, item) && root != Some(item)
    ensures Climbing(index0, index, universe, name, parent, truthy, root, item, added, node)
    ensures parent(node).None? || parent(node).value in index
  {
    index, node := index0, item;
    var parentItem := parent(item);
    added := [item];
    while parentItem.Some? && parentItem.value !in index
      invariant Climbing(index0, index, universe, name, parent, truthy, root, item, added, node)
      invariant parentItem == parent(node)
      decreases |universe - index.Keys|
    {
      var p := parentItem.value;
      ClimbOn(index0, index, universe, name, parent, truthy, root, item, added, node, p);
      index := index[p := Record(name(p), p, [node])];
      node := p;
      parentItem := parent(p);
      added := added + [p];
    }
  }

  /**
    The state of a climb: the index grew from `index0` within `universe` by
    the nodes of `added`, which runs up the parent links from the item to
    `node`; every node records its own item, the child lists are sound, and
    every node but `node`, which is in no child list, is linked to its parent.
  */
  ghost predicate Climbing<T>(index0: map<T, Record<T>>, index: map<T, Record<T>>, universe: set<T>, name: T -> string, parent: T -> Option<T>, truthy: T -> bool, root: Option<T>, item: T, added: seq<T>, node: T)
  {
    && index0.Keys <= index.Keys <= universe && node in index
    && (forall x :: x in index ==> x in index0 || x in added)
    && Chain(parent, item, added) && added[|added| - 1] == node
    && Records(index, name) && ChildLists(index, parent, truthy)
    && Settled(index, parent, truthy, root, Some(node)) && RootOk(index, parent, root)
    && Unlisted(index, node) && root != Some(node)
  }

  /** One round of the climb keeps its state and indexes one more item. */
  lemma ClimbOn<T>(index0: map<T, Record<T>>, index: map<T, Record<T>>, universe: set<T>, name: T -> string, parent: T -> Option<T>, truthy: T -> bool, root: Option<T>, item: T, added: seq<T>, node: T, p: T)
    requires Closed(universe, parent)
    requires Climbing(index0, index, universe, name, parent, truthy, root, item, added, node)
    requires parent(node) == Some(p) && p !in index
    ensures Climbing(index0, index[p := Record(name(p), p, [node])], universe, name, parent, truthy, root, item, added + [p], p)
    ensures |universe - index[p := Record(name(p), p, [node])].Keys| < |universe - index.Keys|
  {
    ClimbGrows(index0, index, universe, parent, item, added, p, Record(name(p), p, [node]));
    ClimbStep(index, name, parent, truthy, root, node, p);
  }

  /** One more ancestor indexed on a climb: the items indexed so far are the climb's, and fewer are left. */
  lemma ClimbGrows<T>(index0: map<T, Record<T>>, index: map<T, Record<T>>, universe: set<T>, parent: T -> Option<T>, item: T, added: seq<T>, p: T, rec: Record<T>)
    requires index.Keys <= universe && Closed(universe, parent)
    requires forall x :: x in index ==> x in index0 || x in added
    requires Chain(parent, item, added) && added[|added| - 1] in index
    requires parent(added[|added| - 1]) == Some(p) && p !in index
    ensures index[p := rec].Keys <= universe
    ensures forall x :: x in index[p := rec] ==> x in index0 || x in added + [p]
    ensures Chain(parent, item, added + [p])
    ensures |universe - index[p := rec].Keys| < |universe - index.Keys|
  {
    ChainGrows(parent, item, added);
    assert p in universe - index.Keys;
    assert universe - index[p := rec].Keys < universe - index.Keys;
  }

  /** `added` lists the item and its first ancestors, in order up the parent links. */
  ghost predicate Chain<T>(parent: T -> Option<T>, item: T, added: seq<T>)
  {
    && added != [] && added[0] == item
    && forall m :: 0 <= m < |added| ==> Up(parent, item, m) == Some(added[m])
  }

  lemma ChainGrows<T>(parent: T -> Option<T>, item: T, added: seq<T>)
    requires Chain(parent, item, added) && parent(added[|added| - 1]).Some?
    ensures Chain(parent, item, added + [parent(added[|added| - 1]).value])
  {
    var next := added + [parent(added[|added| - 1]).value];
    forall m | 0 <= m < |next| ensures Up(parent, item, m) == Some(next[m]) {
      if m < |added| {
        assert next[m] == added[m];
      } else {
        assert Up(parent, item, m - 1) == Some(added[m - 1]);
      }
    }
  }

  /** The ancestors met on a climb from an item are reachable. */
  lemma AddedReachable<T>(items: seq<T>, k: nat, parent: T -> Option<T>, before: set<T>, after: set<T>, added: seq<T>)
    requires k < |items|
    requires forall x :: x in before ==> Reachable(items, parent, x)
    requires forall x :: x in after ==> x in before || x in added
    requires Chain(parent, items[k], added)
    ensures forall x :: x in after ==> Reachable(items, parent, x)
  {
    forall x | x in after && x !in before ensures Reachable(items, parent, x) {
      var m :| 0 <= m < |added| && added[m] == x;
      assert Up(parent, items[k], m) == Some(x);
    }
  }

  /** `for node in nodes_index.values(): node.nodes.sort(key=attrgetter('name'))` */
  method SortChildren<T>(index: map<T, Record<T>>, name: T -> string) returns (sorted: map<T, Record<T>>)
    ensures sorted.Keys == index.Keys
    ensures forall x :: x in sorted ==> sorted[x] == index[x].(nodes := SortByName(index[x].nodes, name))
  {
    sorted := index;
    var pending := index.Keys;
    while pending != {}
      invariant pending <= sorted.Keys && sorted.Keys == index.Keys
      invariant forall x :: x in sorted ==>
        sorted[x] == if x in pending then index[x] else index[x].(nodes := SortByName(index[x].nodes, name))
      decreases |pending|
    {
      var x :| x in pending;
      sorted := sorted[x := sorted[x].(nodes := SortByName(sorted[x].nodes, name))];
      pending := pending - {x};
    }
  }

  /** Sorting every child list keeps what the lists hold and orders them. */
  lemma SortedIndex<T>(unsorted: map<T, Record<T>>, index: map<T, Record<T>>, name: T -> string, parent: T -> Option<T>, truthy: T -> bool, root: Option<T>)
    requires index.Keys == unsorted.Keys
    requires forall x :: x in index ==> index[x] == unsorted[x].(nodes := SortByName(unsorted[x].nodes, name))
    requires Records(unsorted, name) && ChildLists(unsorted, parent, truthy)
    requires Settled(unsorted, parent, truthy, root, None) && RootOk(unsorted, parent, root)
    ensures Records(index, name) && ChildLists(index, parent, truthy)
    ensures ChildrenSorted(index, name)
    ensures Settled(index, parent, truthy, root, None) && RootOk(index, parent, root)
    ensures Closed(index.Keys, parent)
  {
    forall p | p in index
      ensures SortedByName(index[p].nodes, name)
      ensures Distinct(index[p].nodes) && |index[p].nodes| == |unsorted[p].nodes|
      ensures forall y :: y in index[p].nodes <==> y in unsorted[p].nodes
    {
      SortSpec(unsorted[p].nodes, name);
      Permuted(unsorted[p].nodes, index[p].nodes);
    }
    forall x | x in index ensures Linked(index, parent, truthy, x) {
      assert Linked(unsorted, parent, truthy, x);
    }
  }

  /** Reordering a list keeps its members, its length and their distinctness. */
  lemma Permuted<T>(a: seq<T>, b: seq<T>)
    requires multiset(a) == multiset(b)
    requires Distinct(a)
    ensures Distinct(b) && |a| == |b|
    ensures forall y :: y in a <==> y in b
  {
    assert |a| == |multiset(a)|;
    forall y ensures y in a <==> y in b {
      assert y in a <==> y in multiset(a);
      assert y in b <==> y in multiset(b);
    }
  }

  /** Once every item is indexed and linked, the index holds exactly the reachable items and one root at most. */
  lemma Conclude<T>(items: seq<T>, parent: T -> Option<T>, truthy: T -> bool, root: Option<T>, unsorted: map<T, Record<T>>, index: map<T, Record<T>>)
    requires index.Keys == unsorted.Keys
    requires forall x :: x in unsorted ==> Reachable(items, parent, x)
    requires forall i :: 0 <= i < |items| ==> items[i] in unsorted
    requires Settled(index, parent, truthy, root, None) && RootOk(index, parent, root)
    requires Closed(index.Keys, parent)
    ensures Spans(items, parent, index) && SoleRoot(index, parent, root)
  {
    forall i, n: nat | 0 <= i < |items| && Up(parent, items[i], n).Some? ensures Up(parent, items[i], n).value in index {
      UpClosed(items[i], parent, index.Keys, n);
    }
    forall y | y in index ensures Reachable(items, parent, y) {
      assert y in unsorted;
    }
  }

  /** Following parent links from an indexed item never leaves a set closed under them. */
  lemma {:induction false} UpClosed<T>(x: T, parent: T -> Option<T>, keys: set<T>, n: nat)
    requires x in keys && Closed(keys, parent)
    ensures Up(parent, x, n).Some? ==> Up(parent, x, n).value in keys
  {
    if n > 0 {
      UpClosed(x, parent, keys, n - 1);
    }
  }

  // ---------------------------------------------------------------------------
  // `if parent_item:` tests truthiness

  /** Integer items: 0 has no parent, every other item has parent 0. */
  function StarParent(x: int): Option<int>
  {
    if x == 0 then None else Some(0)
  }

  /** Python's truth value of an integer. */
  predicate IntTruthy(x: int)
  {
    x != 0
  }

  /**
    As written, the climb's top is attached only to a truthy ancestor. With
    integer items 1 and 2 whose parent is 0, and 0 without a parent, both
    children are indexed but 0 (falsy) keeps only the child it was made with.
  */
  method LostChild() returns (r: Result<Built<int>, BuildError<int>>)
    ensures r.Ok? && 0 in r.value.index && 1 in r.value.index && 2 in r.value.index
    ensures !(1 in r.value.index[0].nodes && 2 in r.value.index[0].nodes)
  {
    r := Build([1, 2], (x: int) => "", StarParent, IntTruthy, {0, 1, 2});
    assert r.Ok? && WellBuilt([1, 2], (x: int) => "", StarParent, IntTruthy, r.value);
    StarIndex(r.value.index);
  }

  /** Any index `build` may make of items 1 and 2 under `StarParent` holds 0, 1 and 2, and 0 lists at most one child. */
  lemma StarIndex(index: map<int, Record<int>>)
    requires Spans([1, 2], StarParent, index) && ChildLists(index, StarParent, IntTruthy)
    ensures 0 in index && 1 in index && 2 in index
    ensures !(1 in index[0].nodes && 2 in index[0].nodes)
  {
    assert Up(StarParent, [1, 2][0], 0) == Some(1) && Up(StarParent, [1, 2][1], 0) == Some(2);
    assert Up(StarParent, [1, 2][0], 1) == Some(0);
    var nodes := index[0].nodes;
    assert |nodes| <= 1;
    assert nodes == [] || nodes == [nodes[0]];
  }

  /**
    `build` with `if parent_item is not None:`: every indexed item but the
    root is listed among its parent's children, and the child lists hold
    nothing else, each child once, sorted by name.
  */
  method BuildConnected<T(==)>(items: seq<T>, name: T -> string, parent: T -> Option<T>, ghost universe: set<T>)
    returns (r: Result<Built<T>, BuildError<T>>)
    requires forall i :: 0 <= i < |items| ==> items[i] in universe
    requires Closed(universe, parent)
    ensures r.Err? ==>
      && r.error.root != r.error.other
      && parent(r.error.root).None? && parent(r.error.other).None?
      && Reachable(items, parent, r.error.root) && Reachable(items, parent, r.error.other)
    ensures r.Ok? ==>
      && Spans(items, parent, r.value.index)
      && SoleRoot(r.value.index, parent, r.value.root)
      && Records(r.value.index, name)
      && ChildrenSorted(r.value.index, name)
      && (forall p :: p in r.value.index ==> Distinct(r.value.index[p].nodes))
      && (forall p, y :: p in r.value.index && y in r.value.index[p].nodes ==> y in r.value.index && parent(y) == Some(p))
      && (forall y :: y in r.value.index && parent(y).Some? ==>
            parent(y).value in r.value.index && y in r.value.index[parent(y).value].nodes)
  {
    r := Build(items, name, parent, _ => true, universe);
    if r.Ok? {
      var index := r.value.index;
      forall y | y in index && parent(y).Some?
        ensures parent(y).value in index && y in index[parent(y).value].nodes
      {
        assert Linked(index, parent, _ => true, y);
      }
    }
  }
}
