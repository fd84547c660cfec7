/** LiveFragment (livefragment.js): a "live" DocumentFragment over a run of
    consecutive children of one parent. Every edit made through the fragment is
    made to the parent in the host tree, and the fragment keeps its member list
    and its two anchors in step. */
module LiveFragments {
  import opened Dom
  import opened Exceptions
  import opened Ranges
  import opened RunEdits

  /** The argument shapes of `new LiveFragment(...)`, told apart by a tag
      instead of by probing `length` and `nodeType`. */
  datatype Shape =
    | Between(prev: Option<Node>, next: Option<Node>)   // new LiveFragment(prevSibling, nextSibling)
    | List(nodes: seq<Node>)                            // new LiveFragment([nodes])
    | Container(parent: Node)                           // new LiveFragment(parent)
    | Unsupported                                       // no arguments, or more than two

  /** The argument of appendChild and insertBefore: a node, a DocumentFragment
      (its children, which have no parent in the document), or another live
      fragment, which is first turned into a DocumentFragment. */
  datatype Arg = NodeArg(node: Node) | FragmentArg(nodes: seq<Node>) | LiveArg(fragment: LiveFragment)

  /** The objects besides the fragment and its document that an Arg lets a call change. */
  function Frame(arg: Arg): set<object>
  {
    if arg.LiveArg? then {arg.fragment} else {}
  }

  /** The nodes an Arg brings, in order: the node itself, the children of
      the DocumentFragment, or the members of the live fragment. */
  function ArgNodes(arg: Arg): seq<Node>
    reads Frame(arg)
  {
    match arg
    case NodeArg(x) => [x]
    case FragmentArg(xs) => xs
    case LiveArg(g) => g.childNodes
  }

  /** What the constructor builds from a tree and an argument shape: the parent
      and the range, or the error it throws (livefragment.js:47-89). */
  ghost function Construct(t: Tree, s: Shape): Result<(Node, Range)>
  {
    match s
    case Between(prev, next) => ConstructBetween(t, prev, next)
    case List(xs) => ConstructList(t, xs)
    case Container(p) => Ok((p, Range(Children(t, p), None, None)))
    case Unsupported => Err(NotSupportedError)
  }

  /** In the children k of the parent, the run strictly between prev and next:
      from prev's successor (the first child when prev is null) up to next, or
      to the end when next is null; None when next does not come after prev. */
  function RunBetween(k: seq<Node>, prev: Option<Node>, next: Option<Node>): Option<Range>
  {
    var start := if prev.Some? then IndexOf(k, prev.value) + 1 else 0;
    if next.None? then Some(Range(k[start..], prev, None))
    else
      var e := IndexFrom(k, start, next.value);
      if e < |k| then Some(Range(k[start..e], prev, next)) else None
  }

  /** In the children k of the parent, xs as a run that starts where xs[0]
      is; None when xs is not a run of consecutive children. */
  function RunOf(k: seq<Node>, xs: seq<Node>): Option<Range>
    requires xs != []
  {
    var a := IndexOf(k, xs[0]);
    if PrefixAt(k, a, xs, |xs|) then
      Some(Range(xs, At(k, a - 1), At(k, a + |xs|)))
    else None
  }

  ghost function ConstructBetween(t: Tree, prev: Option<Node>, next: Option<Node>): Result<(Node, Range)>
  {
    if prev.None? && next.None? then Err(NotSupportedError)
    else
      var parent := if prev.Some? then ParentOf(t, prev.value) else ParentOf(t, next.value);
      if parent.None? then
        // a null parent is dereferenced at :54, or, once the walk from a
        // detached prev finds nothing and next is null, at :95
        if prev.None? || next.None? then Err(TypeError) else Err(NotSupportedError)
      else
        match RunBetween(Children(t, parent.value), prev, next)
        case None => Err(NotSupportedError)
        case Some(r) => Ok((parent.value, r))
  }

  ghost function ConstructList(t: Tree, xs: seq<Node>): Result<(Node, Range)>
  {
    if xs == [] then Err(NotSupportedError)
    else
      match ParentOf(t, xs[0])
      // a single detached node passes the sibling check; its null parent is
      // dereferenced at :95
      case None => if |xs| == 1 then Err(TypeError) else Err(NotSupportedError)
      case Some(p) =>
        match RunOf(Children(t, p), xs)
        case None => Err(NotSupportedError)
        case Some(r) => Ok((p, r))
  }

  /** previousSibling.nextSibling leads back to the node. */
  lemma PreviousLinksBack(t: Tree, x: Node)
    requires WellFormed(t) && PreviousSiblingOf(t, x).Some?
    ensures NextSiblingOf(t, PreviousSiblingOf(t, x).value) == Some(x)
  {
    var p := ParentOf(t, x).value;
    var i := IndexOf(Children(t, p), x);
    SiblingsAt(t, p, i);
    SiblingsAt(t, p, i - 1);
  }

  lemma RunBetweenSplit(k: seq<Node>, prev: Option<Node>, next: Option<Node>) returns (h: seq<Node>, tl: seq<Node>)
    requires RunBetween(k, prev, next).Some? && (prev.Some? ==> prev.value in k)
    ensures var r := RunBetween(k, prev, next).value;
      k == h + r.members + tl && r.prev == Last(h) && r.next == First(tl)
  {
    var start := if prev.Some? then IndexOf(k, prev.value) + 1 else 0;
    var e := |k|;
    if next.Some? {
      e := IndexFrom(k, start, next.value);
    }
    h, tl := k[..start], k[e..];
    assert RunBetween(k, prev, next).value.members == k[start..e];
    assert k == h + k[start..e] + tl;
  }

  lemma RunOfSplit(k: seq<Node>, xs: seq<Node>) returns (h: seq<Node>, tl: seq<Node>)
    requires xs != [] && RunOf(k, xs).Some?
    ensures var r := RunOf(k, xs).value;
      k == h + r.members + tl && r.prev == Last(h) && r.next == First(tl)
  {
    var a := IndexOf(k, xs[0]);
    h, tl := k[..a], k[a + |xs|..];
    assert k[a..a + |xs|] == xs;
    assert k == h + k[a..a + |xs|] + tl;
  }

  /** A successful construction cuts the parent's children in three around the
      members, with the anchors at the cuts. */
  lemma ConstructSplit(t: Tree, s: Shape) returns (h: seq<Node>, tl: seq<Node>)
    requires Construct(t, s).Ok?
    ensures var (p, r) := Construct(t, s).value;
      Children(t, p) == h + r.members + tl && r.prev == Last(h) && r.next == First(tl)
  {
    match s
    case Between(prev, next) =>
      h, tl := BetweenSplit(t, prev, next);
    case List(xs) =>
      h, tl := ListSplit(t, xs);
    case Container(_) =>
      h, tl := [], [];
  }

  lemma BetweenSplit(t: Tree, prev: Option<Node>, next: Option<Node>) returns (h: seq<Node>, tl: seq<Node>)
    requires ConstructBetween(t, prev, next).Ok?
    ensures var (p, r) := ConstructBetween(t, prev, next).value;
      Children(t, p) == h + r.members + tl && r.prev == Last(h) && r.next == First(tl)
  {
    var (p, r) := ConstructBetween(t, prev, next).value;
    BetweenOk(t, prev, next);
    h, tl := RunBetweenSplit(Children(t, p), prev, next);
  }

  /** A successful construction from anchors found the run between them among
      the children of the anchors' parent. */
  lemma BetweenOk(t: Tree, prev: Option<Node>, next: Option<Node>)
    requires ConstructBetween(t, prev, next).Ok?
    ensures var (p, r) := ConstructBetween(t, prev, next).value;
      && (prev.Some? ==> prev.value in Children(t, p))
      && RunBetween(Children(t, p), prev, next) == Some(r)
  {
    if prev.Some? {
      ParentOfSome(t, prev.value);
    }
  }

  lemma ListSplit(t: Tree, xs: seq<Node>) returns (h: seq<Node>, tl: seq<Node>)
    requires ConstructList(t, xs).Ok?
    ensures var (p, r) := ConstructList(t, xs).value;
      Children(t, p) == h + r.members + tl && r.prev == Last(h) && r.next == First(tl)
  {
    var p := ConstructList(t, xs).value.0;
    h, tl := RunOfSplit(Children(t, p), xs);
  }

  /** Every successful construction satisfies the range invariant. */
  lemma ConstructSpans(t: Tree, s: Shape)
    requires Construct(t, s).Ok?
    ensures Spans(Children(t, Construct(t, s).value.0), Construct(t, s).value.1)
  {
    var h, tl := ConstructSplit(t, s);
    SplitSpans(h, Construct(t, s).value.1.members, tl);
  }

  /** The walk of new LiveFragment(prevSibling, nextSibling) along the
      parent's children from prev's successor until next or the end. */
  method Walk(k: seq<Node>, prev: Option<Node>, next: Option<Node>) returns (r: Option<Range>)
    ensures r == RunBetween(k, prev, next)
  {
    var start := if prev.Some? then IndexOf(k, prev.value) + 1 else 0;
    var j := start;
    var children := [];
    while j < |k| && Some(k[j]) != next
      invariant start <= j <= |k|
      invariant children == k[start..j]
      invariant forall m :: start <= m < j ==> Some(k[m]) != next
    {
      children := children + [k[j]];
      j := j + 1;
    }
    if next.None? {
      assert children == k[start..];
    } else {
      IndexFromFirst(k, start, next.value, j);
    }
    if j == |k| && next.Some? {
      return None;
    }
    return Some(Range(children, prev, next));
  }

  /** new LiveFragment(prevSibling, nextSibling) */
  method WalkBetween(d: Document, prev: Option<Node>, next: Option<Node>) returns (r: Result<(Node, Range)>)
    requires d.Valid()
    ensures r == ConstructBetween(d.kids, prev, next)
  {
    if prev.None? && next.None? {
      return Err(NotSupportedError);
    }
    var par: Option<Node>;
    if prev.Some? {
      par := d.ParentNode(prev.value);
    } else {
      par := d.ParentNode(next.value);
    }
    if par.None? {
      if prev.None? || next.None? {
        return Err(TypeError);
      }
      return Err(NotSupportedError);
    }
    var run := Walk(d.kids[par.value], prev, next);
    if run.None? {
      return Err(NotSupportedError);
    }
    return Ok((par.value, run.value));
  }

  /** xs[..i] lies in k from index a on. */
  predicate PrefixAt(k: seq<Node>, a: int, xs: seq<Node>, i: int)
  {
    0 <= a && 0 <= i <= |xs| && a + i <= |k| && forall m :: 0 <= m < i ==> k[a + m] == xs[m]
  }

  /** The check of new LiveFragment([nodes]) for the first i nodes: each
      one's nextSibling is the node after it. */
  ghost predicate Chained(t: Tree, xs: seq<Node>, i: int)
    requires 0 <= i <= |xs|
  {
    forall m :: 0 <= m < i - 1 ==> NextSiblingOf(t, xs[m]) == Some(xs[m + 1])
  }

  /** For nodes of one parent, passing the sibling check is lying
      consecutively in the parent's children from the first node on. */
  lemma {:induction false} ChainedPrefix(t: Tree, p: Node, xs: seq<Node>, i: int)
    requires WellFormed(t) && 1 <= i <= |xs| && xs[0] in Children(t, p)
    ensures Chained(t, xs, i) <==> PrefixAt(Children(t, p), IndexOf(Children(t, p), xs[0]), xs, i)
  {
    var k := Children(t, p);
    var a := IndexOf(k, xs[0]);
    if i > 1 {
      ChainedPrefix(t, p, xs, i - 1);
      ChainedLast(t, xs, i);
      if PrefixAt(k, a, xs, i - 1) {
        ChainStep(t, p, xs, i);
      }
    }
  }

  /** The check of i nodes is the check of i - 1 nodes and of the last pair. */
  lemma ChainedLast(t: Tree, xs: seq<Node>, i: int)
    requires 2 <= i <= |xs|
    ensures Chained(t, xs, i) <==> Chained(t, xs, i - 1) && NextSiblingOf(t, xs[i - 2]) == Some(xs[i - 1])
  {
    assert xs[i - 2 + 1] == xs[i - 1];
  }

  /** Given the first i - 1 nodes in place, the i-th passes the check exactly
      when it is the next child. */
  lemma ChainStep(t: Tree, p: Node, xs: seq<Node>, i: int)
    requires WellFormed(t) && 2 <= i <= |xs| && xs[0] in Children(t, p)
    requires PrefixAt(Children(t, p), IndexOf(Children(t, p), xs[0]), xs, i - 1)
    ensures NextSiblingOf(t, xs[i - 2]) == Some(xs[i - 1]) <==> PrefixAt(Children(t, p), IndexOf(Children(t, p), xs[0]), xs, i)
  {
    var k := Children(t, p);
    var a := IndexOf(k, xs[0]);
    var j := a + (i - 2);
    assert xs[i - 2] == k[j];
    SiblingsAt(t, p, j);
    assert j + 1 == a + (i - 1);
    if PrefixAt(k, a, xs, i) {
      assert k[a + (i - 1)] == xs[i - 1];
      assert At(k, j + 1) == Some(xs[i - 1]);
    }
    if At(k, j + 1) == Some(xs[i - 1]) {
      assert k[a + (i - 1)] == xs[i - 1];
    }
  }

  /** A detached node has no nextSibling, so only a single detached node
      passes the check. */
  lemma DetachedChained(t: Tree, xs: seq<Node>)
    requires xs != [] && ParentOf(t, xs[0]).None?
    ensures Chained(t, xs, |xs|) <==> |xs| == 1
  {
    if |xs| > 1 {
      assert NextSiblingOf(t, xs[0]) != Some(xs[0 + 1]);
    }
  }

  /** The range of a list that lies in its parent's children has the first
      node's previousSibling and the last node's nextSibling as anchors. */
  lemma RunOfAnchors(t: Tree, p: Node, xs: seq<Node>)
    requires WellFormed(t) && xs != [] && xs[0] in Children(t, p) && RunOf(Children(t, p), xs).Some?
    ensures RunOf(Children(t, p), xs) == Some(Range(xs, PreviousSiblingOf(t, xs[0]), NextSiblingOf(t, xs[|xs| - 1])))
  {
    var k := Children(t, p);
    var a := IndexOf(k, xs[0]);
    var j := a + |xs| - 1;
    assert RunOf(k, xs) == Some(Range(xs, At(k, a - 1), At(k, j + 1)));
    SiblingsAt(t, p, a);
    assert xs[|xs| - 1] == k[j];
    SiblingsAt(t, p, j);
  }

  /** The list constructor in the terms of its code: NotSupportedError when
      some node is not the nextSibling of the one before it, TypeError when
      the nodes have no parent, and otherwise the list with the first node's
      previousSibling and the last node's nextSibling as anchors. */
  lemma ListByChain(t: Tree, xs: seq<Node>)
    requires WellFormed(t) && xs != []
    ensures !Chained(t, xs, |xs|) ==> ConstructList(t, xs) == Err(NotSupportedError)
    ensures Chained(t, xs, |xs|) && ParentOf(t, xs[0]).None? ==> ConstructList(t, xs) == Err(TypeError)
    ensures Chained(t, xs, |xs|) && ParentOf(t, xs[0]).Some? ==>
      ConstructList(t, xs) == Ok((ParentOf(t, xs[0]).value, Range(xs, PreviousSiblingOf(t, xs[0]), NextSiblingOf(t, xs[|xs| - 1]))))
  {
    match ParentOf(t, xs[0])
    case None =>
      DetachedChained(t, xs);
    case Some(p) =>
      ParentOfSome(t, xs[0]);
      ChainedRun(t, p, xs);
  }

  /** For nodes of one parent, passing the check is forming a run of its
      children, whose anchors are the first node's previousSibling and the
      last node's nextSibling. */
  lemma ChainedRun(t: Tree, p: Node, xs: seq<Node>)
    requires WellFormed(t) && xs != [] && xs[0] in Children(t, p)
    ensures Chained(t, xs, |xs|) <==> RunOf(Children(t, p), xs).Some?
    ensures Chained(t, xs, |xs|) ==>
      RunOf(Children(t, p), xs).value == Range(xs, PreviousSiblingOf(t, xs[0]), NextSiblingOf(t, xs[|xs| - 1]))
  {
    ChainedPrefix(t, p, xs, |xs|);
    if RunOf(Children(t, p), xs).Some? {
      RunOfAnchors(t, p, xs);
    }
  }

  /** new LiveFragment([nodes]): checks, node by node, that each one is the
      nextSibling of the one before it (and of nodes[0].previousSibling). */
  method CheckList(d: Document, xs: seq<Node>) returns (r: Result<(Node, Range)>)
    requires d.Valid()
    ensures r == ConstructList(d.kids, xs)
  {
    if xs == [] {
      return Err(NotSupportedError);
    }
    ListByChain(d.kids, xs);
    var prev := d.PreviousSibling(xs[0]);
    if prev.Some? {
      PreviousLinksBack(d.kids, xs[0]);
    }
    var node := prev;
    var i := 0;
    while i < |xs|
      invariant 0 <= i <= |xs|
      invariant node == if i == 0 then prev else Some(xs[i - 1])
      invariant Chained(d.kids, xs, i)
    {
      if node.Some? {
        var after := d.NextSibling(node.value);
        if after != Some(xs[i]) {
          assert NextSiblingOf(d.kids, xs[i - 1]) != Some(xs[i]);
          return Err(NotSupportedError);
        }
      }
      node := Some(xs[i]);
      i := i + 1;
    }
    var next := d.NextSibling(xs[|xs| - 1]);
    var par := d.ParentNode(xs[0]);
    if par.None? {
      return Err(TypeError);
    }
    return Ok((par.value, Range(xs, prev, next)));
  }

  class LiveFragment {
    const doc: Document
    const parentNode: Node
    var childNodes: seq<Node>
    var previousSibling: Option<Node>
    var nextSibling: Option<Node>
    /** The parent's children before and after the members. */
    ghost var head: seq<Node>
    ghost var tail: seq<Node>

    /** The members are a run of consecutive children of the parent. */
    ghost predicate Placed()
      reads this, doc
    {
      doc.Valid() && Children(doc.kids, parentNode) == head + childNodes + tail
    }

    /** ... and the anchors are the children on either side of that run. */
    ghost predicate Valid()
      reads this, doc
    {
      Placed() && previousSibling == Last(head) && nextSibling == First(tail)
    }

    /** The bookkeeping as a value. */
    function Snapshot(): Range
      reads this
    {
      Range(childNodes, previousSibling, nextSibling)
    }

    /** The parent's children, as the host tree has them. */
    ghost function Siblings(): seq<Node>
      reads this, doc
    {
      Children(doc.kids, parentNode)
    }

    /** A node that may be put into the fragment: not a member (appending a
        member removes it from the parent twice), not an anchor and not the
        parent. */
    predicate Insertable(x: Node)
      reads this
    {
      x !in childNodes && Some(x) != previousSibling && Some(x) != nextSibling && x != parentNode
    }

    /** Nodes that can go into the fragment at once: distinct, not the parent,
        and without a parent of their own, as the children of a
        DocumentFragment are once it is out of the way. */
    ghost predicate Loose(xs: seq<Node>)
      reads this, doc
    {
      NoDup(xs) && parentNode !in xs && forall x :: x in xs ==> !Attached(doc.kids, x)
    }

    constructor Init(d: Document, parent: Node, r: Range, ghost h: seq<Node>, ghost tl: seq<Node>)
      requires d.Valid() && Children(d.kids, parent) == h + r.members + tl
      requires r.prev == Last(h) && r.next == First(tl)
      ensures Valid() && doc == d && parentNode == parent && Snapshot() == r
    {
      doc, parentNode := d, parent;
      childNodes, previousSibling, nextSibling := r.members, r.prev, r.next;
      head, tail := h, tl;
    }

    /** new LiveFragment(...): the shape decides how the parent, the members
        and the anchors are found. */
    static method New(d: Document, s: Shape) returns (r: Result<LiveFragment>)
      requires d.Valid()
      ensures Construct(d.kids, s).Err? ==> r == Err(Construct(d.kids, s).error)
      ensures Construct(d.kids, s).Ok? ==>
        && r.Ok? && fresh(r.value) && r.value.Valid() && r.value.doc == d
        && r.value.parentNode == Construct(d.kids, s).value.0
        && r.value.Snapshot() == Construct(d.kids, s).value.1
    {
      var c: Result<(Node, Range)>;
      match s {
        case Between(prev, next) =>
          c := WalkBetween(d, prev, next);
        case List(xs) =>
          c := CheckList(d, xs);
        case Container(p) =>
          c := Ok((p, Range(Children(d.kids, p), None, None)));
        case Unsupported =>
          c := Err(NotSupportedError);
      }
      if c.Err? {
        return Err(c.error);
      }
      ghost var h, tl := ConstructSplit(d.kids, s);
      var f := new LiveFragment.Init(d, c.value.0, c.value.1, h, tl);
      return Ok(f);
    }

    /** firstChild: the first member, or null. */
    function FirstChild(): (r: Option<Node>)
      reads this
      ensures r.None? <==> childNodes == []
      ensures r.Some? ==> r.value == childNodes[0]
    {
      First(childNodes)
    }

    /** lastChild: the last member, or null. */
    function LastChild(): (r: Option<Node>)
      reads this
      ensures r.None? <==> childNodes == []
      ensures r.Some? ==> r.value == childNodes[|childNodes| - 1]
    {
      Last(childNodes)
    }

    /** hasChildNodes() */
    function HasChildNodes(): (r: bool)
      reads this
      ensures r <==> childNodes != []
    {
      |childNodes| > 0
    }

    /** The range invariant, read through the host's own navigation: the
        members are children of parentNode in a run, previousSibling.nextSibling
        is firstChild (nextSibling when empty), nextSibling.previousSibling is
        lastChild (previousSibling when empty), and the parent is no member. */
    lemma RangeInvariant()
      requires Valid()
      ensures Spans(Siblings(), Snapshot())
      ensures forall x :: x in childNodes ==> ParentOf(doc.kids, x) == Some(parentNode)
      ensures forall j :: 0 <= j < |childNodes| - 1 ==> NextSiblingOf(doc.kids, childNodes[j]) == Some(childNodes[j + 1])
      ensures previousSibling.Some? ==>
        NextSiblingOf(doc.kids, previousSibling.value) == if HasChildNodes() then FirstChild() else nextSibling
      ensures nextSibling.Some? ==>
        PreviousSiblingOf(doc.kids, nextSibling.value) == if HasChildNodes() then LastChild() else previousSibling
      ensures parentNode !in childNodes
    {
      var k := Siblings();
      ChildrenNoDup(doc.kids, parentNode);
      SplitSpans(head, childNodes, tail);
      SiblingsOfSpan(k, Snapshot());
      forall x | x in childNodes ensures ParentOf(doc.kids, x) == Some(parentNode) {
        ParentOfChild(doc.kids, parentNode, x);
      }
      forall j | 0 <= j < |childNodes| - 1
        ensures NextSiblingOf(doc.kids, childNodes[j]) == Some(childNodes[j + 1])
      {
        ParentOfChild(doc.kids, parentNode, childNodes[j]);
      }
      if previousSibling.Some? {
        ParentOfChild(doc.kids, parentNode, previousSibling.value);
      }
      if nextSibling.Some? {
        ParentOfChild(doc.kids, parentNode, nextSibling.value);
      }
    }

    /** extend(node): take in the next anchor (checked first) or the previous
        anchor; the tree is not touched. */
    method Extend(node: Option<Node>) returns (r: Result<()>)
      requires Valid()
      modifies this
      ensures Valid()
      ensures r.Ok? <==> Extended(Siblings(), old(Snapshot()), node).Ok?
      ensures r.Ok? ==> Snapshot() == Extended(Siblings(), old(Snapshot()), node).value
      ensures r.Err? ==> r.error == NotFoundError && Snapshot() == old(Snapshot())
    {
      if node.Some? {
        var x := node.value;
        if node == nextSibling {
          NextAnchorTaken(doc.kids, parentNode, head, childNodes, tail);
          var after := doc.NextSibling(x);
          childNodes := childNodes + [x];
          nextSibling := after;
          tail := tail[1..];
          return Ok(());
        }
        if node == previousSibling {
          PrevAnchorTaken(doc.kids, parentNode, head, childNodes, tail);
          var before := doc.PreviousSibling(x);
          childNodes := [x] + childNodes;
          previousSibling := before;
          head := head[..|head| - 1];
          return Ok(());
        }
      }
      return Err(NotFoundError);
    }

    /** shrink(node): give up the first member (checked first) or the last
        member, which becomes the anchor on that side; the tree is not touched. */
    method Shrink(node: Option<Node>) returns (r: Result<()>)
      requires Valid()
      modifies this
      ensures Valid()
      ensures r.Ok? <==> Shrunk(old(Snapshot()), node).Ok?
      ensures r.Ok? ==> Snapshot() == Shrunk(old(Snapshot()), node).value
      ensures r.Err? ==> r.error == NotFoundError && Snapshot() == old(Snapshot())
    {
      if node.Some? {
        var x := node.value;
        if node == FirstChild() {
          ghost var k := Siblings();
          childNodes := childNodes[1..];
          previousSibling := node;
          head := head + [x];
          assert k == head + childNodes + tail;
          return Ok(());
        }
        if node == LastChild() {
          ghost var k := Siblings();
          childNodes := childNodes[..|childNodes| - 1];
          nextSibling := node;
          tail := [x] + tail;
          assert k == head + childNodes + tail;
          return Ok(());
        }
      }
      return Err(NotFoundError);
    }
  
    /** _removeChildNoFail(node): a member leaves the parent and the member
        list, at its index; anything else is ignored. */
    method RemoveChildNoFail(x: Node)
      requires Valid()
      modifies this, doc
      ensures Valid() && head == old(head) && tail == old(tail)
      ensures previousSibling == old(previousSibling) && nextSibling == old(nextSibling)
      ensures x !in old(childNodes) ==> doc.kids == old(doc.kids) && childNodes == old(childNodes)
      ensures x in old(childNodes) ==>
        var i := IndexOf(old(childNodes), x);
        && doc.kids == Detach(old(doc.kids), {x})
        && childNodes == old(childNodes[..i] + childNodes[i + 1..])
    {
      var i := IndexOf(childNodes, x);
      if i == -1 {
        return;
      }
      DropAt(i);
    }

    /** The member at index i leaves the parent and the member list
        (livefragment.js:178-179, :191-192). */
    method DropAt(i: int)
      requires Valid() && 0 <= i < |childNodes|
      modifies this, doc
      ensures Valid() && head == old(head) && tail == old(tail)
      ensures previousSibling == old(previousSibling) && nextSibling == old(nextSibling)
      ensures doc.kids == Detach(old(doc.kids), {old(childNodes)[i]})
      ensures childNodes == old(childNodes[..i] + childNodes[i + 1..])
    {
      var d, p, m := doc, parentNode, childNodes;
      ChildrenNoDup(d.kids, p);
      SpliceOut(d.kids, p, head, m, tail, i);
      d.RemoveChild(p, m[i]);
      childNodes := m[..i] + m[i + 1..];
    }

    /** removeChild(node): a member leaves the parent and the member list and
        is returned; any other node is a NotFoundError and changes nothing. */
    method RemoveChild(x: Node) returns (r: Result<Node>)
      requires Valid()
      modifies this, doc
      ensures Valid() && head == old(head) && tail == old(tail)
      ensures previousSibling == old(previousSibling) && nextSibling == old(nextSibling)
      ensures x !in old(childNodes) ==> r == Err(NotFoundError) && doc.kids == old(doc.kids) && childNodes == old(childNodes)
      ensures x in old(childNodes) ==>
        var i := IndexOf(old(childNodes), x);
        && r == Ok(x)
        && doc.kids == Detach(old(doc.kids), {x})
        && childNodes == old(childNodes[..i] + childNodes[i + 1..])
    {
      var i := IndexOf(childNodes, x);
      if i == -1 {
        return Err(NotFoundError);
      }
      DropAt(i);
      return Ok(x);
    }

    /** replaceChild(newNode, oldNode): newNode leaves its old place and takes
        oldNode's place in the parent and in the member list; oldNode is left
        without a parent and returned. A non-member oldNode is a NotFoundError
        and changes nothing. */
    method ReplaceChild(y: Node, x: Node) returns (r: Result<Node>)
      requires Valid() && Insertable(y)
      modifies this, doc
      ensures Valid()
      ensures previousSibling == old(previousSibling) && nextSibling == old(nextSibling)
      ensures x !in old(childNodes) ==> r == Err(NotFoundError) && doc.kids == old(doc.kids) && childNodes == old(childNodes)
      ensures x in old(childNodes) ==>
        && r == Ok(x)
        && x in Children(Detach(old(doc.kids), {y}), parentNode)
        && doc.kids == Replaced(Detach(old(doc.kids), {y}), parentNode, y, x)
        && childNodes == old(childNodes)[IndexOf(old(childNodes), x) := y]
        && !Attached(doc.kids, x)
    {
      var i := IndexOf(childNodes, x);
      if i == -1 {
        return Err(NotFoundError);
      }
      SwapAt(y, i);
      return Ok(x);
    }

    /** y takes the place of the member at index i, in the parent and in the
        member list (livefragment.js:205-206). */
    method SwapAt(y: Node, i: int)
      requires Valid() && Insertable(y) && 0 <= i < |childNodes|
      modifies this, doc
      ensures Valid()
      ensures previousSibling == old(previousSibling) && nextSibling == old(nextSibling)
      ensures old(childNodes)[i] in Children(Detach(old(doc.kids), {y}), parentNode)
      ensures doc.kids == Replaced(Detach(old(doc.kids), {y}), parentNode, y, old(childNodes)[i])
      ensures childNodes == old(childNodes)[i := y]
      ensures !Attached(doc.kids, old(childNodes)[i])
    {
      var d, p, m := doc, parentNode, childNodes;
      ghost var h, tl := Filter(head, {y}), Filter(tail, {y});
      ReplaceMember(d.kids, p, head, m, tail, i, y);
      FilterLast(head, {y});
      FilterFirst(tail, {y});
      d.ReplaceChild(p, y, m[i]);
      childNodes := m[i := y];
      head, tail := h, tl;
    }

    /** empty(): every member leaves the parent, in order, and the member list
        is cleared; the anchors stay. */
    method Empty()
      requires Placed()
      modifies this, doc
      ensures Placed() && childNodes == [] && head == old(head) && tail == old(tail)
      ensures previousSibling == old(previousSibling) && nextSibling == old(nextSibling)
      ensures doc.kids == Detach(old(doc.kids), Moved(Collection(old(childNodes))))
    {
      var d, p, m := doc, parentNode, childNodes;
      ghost var t, h, tl := d.kids, head, tail;
      DetachNone(t);
      var i := 0;
      while i < |m|
        invariant 0 <= i <= |m| && d.Valid()
        invariant Children(d.kids, p) == h + m[i..] + tl
        invariant d.kids == Detach(t, Moved(Collection(m[..i])))
        modifies d
      {
        var x := m[i];
        TakeNextMember(t, d.kids, p, h, m, tl, i);
        d.RemoveChild(p, x);
        i := i + 1;
      }
      RunDone(h, m, tl);
      childNodes := [];
    }

    /** getDocumentFragment(): the members move, in order, into a new
        DocumentFragment, leaving the parent; the member list is cleared and
        the anchors stay. */
    method GetDocumentFragment() returns (frag: seq<Node>)
      requires Valid()
      modifies this, doc
      ensures Valid() && childNodes == [] && head == old(head) && tail == old(tail)
      ensures previousSibling == old(previousSibling) && nextSibling == old(nextSibling)
      ensures frag == old(childNodes)
      ensures doc.kids == Detach(old(doc.kids), Moved(Collection(frag)))
    {
      var d, p, m := doc, parentNode, childNodes;
      ghost var t, h, tl := d.kids, head, tail;
      DetachNone(t);
      frag := [];
      var i := 0;
      while i < |m|
        invariant 0 <= i <= |m| && d.Valid()
        invariant frag == m[..i]
        invariant Children(d.kids, p) == h + m[i..] + tl
        invariant d.kids == Detach(t, Moved(Collection(m[..i])))
        modifies d
      {
        var x := m[i];
        TakeNextMember(t, d.kids, p, h, m, tl, i);
        PrefixGrows(m, i);
        d.Remove(x);
        frag := frag + [x];
        i := i + 1;
      }
      RunDone(h, m, tl);
      childNodes := [];
    }
  
    /** The first steps of appendChild and insertBefore for a single node
        (livefragment.js:112-116, :152-156): the node leaves its old parent,
        then _removeChildNoFail, which leaves a non-member alone. */
    method Unparent(x: Node)
      requires Valid() && Insertable(x)
      modifies this, doc
      ensures Valid() && childNodes == old(childNodes)
      ensures previousSibling == old(previousSibling) && nextSibling == old(nextSibling)
      ensures head == Filter(old(head), {x}) && tail == Filter(old(tail), {x})
      ensures doc.kids == Detach(old(doc.kids), {x}) && !Attached(doc.kids, x)
    {
      var d := doc;
      ghost var h, tl := Filter(head, {x}), Filter(tail, {x});
      Gap(d.kids, parentNode, head, childNodes, tail, {x});
      FilterLast(head, {x});
      FilterFirst(tail, {x});
      d.Remove(x);
      head, tail := h, tl;
      RemoveChildNoFail(x);
    }

    /** appendChild(node) for a single node: the node first leaves its old
        parent, then goes in as the last member. */
    method AppendNode(x: Node)
      requires Valid() && Insertable(x)
      modifies this, doc
      ensures Valid()
      ensures previousSibling == old(previousSibling) && nextSibling == old(nextSibling)
      ensures head == Filter(old(head), {x}) && tail == Filter(old(tail), {x})
      ensures childNodes == old(childNodes) + [x]
      ensures old(nextSibling).Some? ==> old(nextSibling).value in Children(Detach(old(doc.kids), {x}), parentNode)
      ensures doc.kids == Inserted(Detach(old(doc.kids), {x}), parentNode, [x], old(nextSibling))
    {
      Unparent(x);
      PushLoose(x);
    }

    /** The node, now without a parent, goes in before the next anchor (at
        the parent's end when that is null) and is pushed as the last member
        (livefragment.js:117-123). */
    method PushLoose(x: Node)
      requires Valid() && !Attached(doc.kids, x) && x != parentNode
      modifies this, doc
      ensures Valid() && head == old(head) && tail == old(tail)
      ensures previousSibling == old(previousSibling) && nextSibling == old(nextSibling)
      ensures childNodes == old(childNodes) + [x]
      ensures nextSibling.Some? ==> nextSibling.value in Children(old(doc.kids), parentNode)
      ensures doc.kids == Inserted(old(doc.kids), parentNode, [x], nextSibling)
    {
      var d, p, m := doc, parentNode, childNodes;
      ChildrenNoDup(d.kids, p);
      AppendInGap(d.kids, p, head, m, tail, [x]);
      DetachUnattached(d.kids, {x});
      if nextSibling.Some? {
        d.InsertBefore(p, Single(x), nextSibling);
      } else {
        d.AppendChild(p, x);
      }
      childNodes := m + [x];
    }

    /** One child of a DocumentFragment appended, as AppendNodes does it
        (livefragment.js:107): with xs[..i] already after the members of the
        run h + m + tl of the tree t, xs[i] follows them. */
    method AppendLoose(ghost t: Tree, ghost h: seq<Node>, m: seq<Node>, ghost tl: seq<Node>, xs: seq<Node>, i: int)
      requires 0 <= i < |xs| && Valid() && WellFormed(t) && Children(t, parentNode) == h + m + tl
      requires NoDup(xs) && parentNode !in xs && forall x :: x in xs ==> !Attached(t, x)
      requires head == h && tail == tl && childNodes == m + xs[..i]
      requires doc.kids == Inserted(t, parentNode, xs[..i], First(tl))
      modifies this, doc
      ensures Valid() && head == h && tail == tl && childNodes == m + xs[..i + 1]
      ensures previousSibling == old(previousSibling) && nextSibling == old(nextSibling)
      ensures doc.kids == Inserted(t, parentNode, xs[..i + 1], First(tl))
    {
      var x := xs[i];
      AppendStep(t, parentNode, h, m, tl, xs, i);
      FilterKeeps(h, {x});
      FilterKeeps(tl, {x});
      AppendNode(x);
      Grown(m, xs, i + 1);
    }

    /** appendChild(fragment) for a DocumentFragment: its children are
        appended one at a time, in order. */
    method AppendNodes(xs: seq<Node>)
      requires Valid() && Loose(xs)
      modifies this, doc
      ensures Valid() && head == old(head) && tail == old(tail)
      ensures previousSibling == old(previousSibling) && nextSibling == old(nextSibling)
      ensures childNodes == old(childNodes) + xs
      ensures doc.kids == Inserted(old(doc.kids), parentNode, xs, old(nextSibling))
    {
      ghost var t, h, tl := doc.kids, head, tail;
      var m := childNodes;
      Grown(m, xs, 0);
      var i := 0;
      while i < |xs|
        invariant 0 <= i <= |xs| && Valid()
        invariant head == h && tail == tl && previousSibling == old(previousSibling) && nextSibling == old(nextSibling)
        invariant childNodes == m + xs[..i]
        invariant doc.kids == Inserted(t, parentNode, xs[..i], First(tl))
      {
        AppendLoose(t, h, m, tl, xs, i);
        i := i + 1;
      }
      Grown(m, xs, i);
    }

    /** insertBefore(node, ref) for a single node and a non-null reference
        (livefragment.js:151-167): the node leaves its old parent first, so
        it is gone from there even when the reference then turns out not to
        be a member and NotFoundError is thrown. */
    method InsertNode(x: Node, ref: Node) returns (r: Result<Node>)
      requires Valid() && Insertable(x)
      modifies this, doc
      ensures Valid()
      ensures previousSibling == old(previousSibling) && nextSibling == old(nextSibling)
      ensures head == Filter(old(head), {x}) && tail == Filter(old(tail), {x})
      ensures ref !in old(childNodes) ==>
        && r == Err(NotFoundError) && childNodes == old(childNodes)
        && doc.kids == Detach(old(doc.kids), {x})
      ensures ref in old(childNodes) ==>
        var i := IndexOf(old(childNodes), ref);
        && r == Ok(x) && childNodes == old(childNodes)[..i] + [x] + old(childNodes)[i..]
        && ref in Children(Detach(old(doc.kids), {x}), parentNode)
        && doc.kids == Inserted(Detach(old(doc.kids), {x}), parentNode, [x], Some(ref))
    {
      Unparent(x);
      var i := IndexOf(childNodes, ref);
      if i == -1 {
        return Err(NotFoundError);
      }
      PushLooseAt(x, i);
      return Ok(x);
    }

    /** The node, now without a parent, goes in before the i-th member, in
        the host tree and in the member list (livefragment.js:164-165). */
    method PushLooseAt(x: Node, i: int)
      requires Valid() && !Attached(doc.kids, x) && x != parentNode && 0 <= i < |childNodes|
      modifies this, doc
      ensures Valid() && head == old(head) && tail == old(tail)
      ensures previousSibling == old(previousSibling) && nextSibling == old(nextSibling)
      ensures childNodes == old(childNodes)[..i] + [x] + old(childNodes)[i..]
      ensures old(childNodes)[i] in Children(old(doc.kids), parentNode)
      ensures doc.kids == Inserted(old(doc.kids), parentNode, [x], Some(old(childNodes)[i]))
    {
      var d, p, m := doc, parentNode, childNodes;
      ChildrenNoDup(d.kids, p);
      InsertInRun(d.kids, p, head, m, tail, i, [x]);
      DetachUnattached(d.kids, {x});
      d.InsertBefore(p, Single(x), Some(m[i]));
      childNodes := m[..i] + [x] + m[i..];
    }

    /** One child of a DocumentFragment inserted, as InsertNodes does it
        (livefragment.js:145-147): with ref a member of the run h + m + tl of
        the tree t and xs[..j] already before it, xs[j] goes in before it
        too; with ref not a member the first child makes the lookup fail
        and nothing has changed. */
    method InsertLoose(ghost t: Tree, ghost h: seq<Node>, m: seq<Node>, ghost tl: seq<Node>, xs: seq<Node>, j: int, ref: Node)
      returns (r: Result<Node>)
      requires 0 <= j < |xs| && Valid() && WellFormed(t) && Children(t, parentNode) == h + m + tl
      requires NoDup(xs) && parentNode !in xs && forall x :: x in xs ==> !Attached(t, x)
      requires head == h && tail == tl
      requires ref !in m ==> j == 0 && childNodes == m && doc.kids == t
      requires ref in m ==>
        && childNodes == m[..IndexOf(m, ref)] + xs[..j] + m[IndexOf(m, ref)..]
        && doc.kids == Inserted(t, parentNode, xs[..j], Some(ref))
      modifies this, doc
      ensures Valid() && head == h && tail == tl
      ensures previousSibling == old(previousSibling) && nextSibling == old(nextSibling)
      ensures ref !in m ==> r == Err(NotFoundError) && childNodes == m && doc.kids == t
      ensures ref in m ==>
        && r == Ok(xs[j])
        && childNodes == m[..IndexOf(m, ref)] + xs[..j + 1] + m[IndexOf(m, ref)..]
        && doc.kids == Inserted(t, parentNode, xs[..j + 1], Some(ref))
    {
      var x := xs[j];
      if ref in m {
        InsertStep(t, parentNode, h, m, tl, xs, IndexOf(m, ref), j);
      } else {
        LooseNode(t, parentNode, h, m, tl, x);
        DetachUnattached(t, {x});
      }
      FilterKeeps(h, {x});
      FilterKeeps(tl, {x});
      r := InsertNode(x, ref);
    }

    /** insertBefore(fragment, ref) for a DocumentFragment and a non-null
        reference: its children are inserted before ref one at a time, in
        order; when ref is not a member the first of them throws
        NotFoundError and nothing has moved. */
    method InsertNodes(xs: seq<Node>, ref: Node) returns (r: Result<()>)
      requires Valid() && Loose(xs)
      modifies this, doc
      ensures Valid() && head == old(head) && tail == old(tail)
      ensures previousSibling == old(previousSibling) && nextSibling == old(nextSibling)
      ensures xs == [] ==> r == Ok(()) && childNodes == old(childNodes) && doc.kids == old(doc.kids)
      ensures xs != [] && ref !in old(childNodes) ==>
        r == Err(NotFoundError) && childNodes == old(childNodes) && doc.kids == old(doc.kids)
      ensures ref in old(childNodes) ==>
        var i := IndexOf(old(childNodes), ref);
        && r == Ok(()) && childNodes == old(childNodes)[..i] + xs + old(childNodes)[i..]
        && ref in Children(old(doc.kids), parentNode)
        && doc.kids == Inserted(old(doc.kids), parentNode, xs, Some(ref))
    {
      if xs == [] {
        return Ok(());
      }
      ghost var t, h, tl := doc.kids, head, tail;
      var m := childNodes;
      if ref in m {
        ChildrenNoDup(t, parentNode);
        InsertInRun(t, parentNode, h, m, tl, IndexOf(m, ref), []);
        RunAround(m, xs, IndexOf(m, ref), 0);
      }
      var j := 0;
      var res := InsertLoose(t, h, m, tl, xs, j, ref);
      if res.Err? {
        return Err(res.error);
      }
      j := j + 1;
      InsertRest(t, h, m, tl, xs, ref, j);
      return Ok(());
    }

    /** The rest of the loop of InsertNodes, once its first i nodes have gone in
        before the member ref: the lookup of ref succeeds for every later
        node too, so none of them throws. */
    method InsertRest(ghost t: Tree, ghost h: seq<Node>, m: seq<Node>, ghost tl: seq<Node>, xs: seq<Node>, ref: Node, i: int)
      requires 0 <= i <= |xs| && ref in m && Valid() && WellFormed(t) && Children(t, parentNode) == h + m + tl
      requires NoDup(xs) && parentNode !in xs && forall x :: x in xs ==> !Attached(t, x)
      requires head == h && tail == tl
      requires childNodes == m[..IndexOf(m, ref)] + xs[..i] + m[IndexOf(m, ref)..]
      requires doc.kids == Inserted(t, parentNode, xs[..i], Some(ref))
      modifies this, doc
      ensures Valid() && head == h && tail == tl
      ensures previousSibling == old(previousSibling) && nextSibling == old(nextSibling)
      ensures childNodes == m[..IndexOf(m, ref)] + xs + m[IndexOf(m, ref)..]
      ensures doc.kids == Inserted(t, parentNode, xs, Some(ref))
    {
      var j := i;
      while j < |xs|
        invariant i <= j <= |xs| && Valid() && head == h && tail == tl
        invariant previousSibling == old(previousSibling) && nextSibling == old(nextSibling)
        invariant childNodes == m[..IndexOf(m, ref)] + xs[..j] + m[IndexOf(m, ref)..]
        invariant doc.kids == Inserted(t, parentNode, xs[..j], Some(ref))
      {
        var res := InsertLoose(t, h, m, tl, xs, j, ref);
        j := j + 1;
      }
      RunAround(m, xs, IndexOf(m, ref), j);
    }

    /** An empty fragment whose anchors are neighbours again in the lists h
        and tl, re-cut there. */
    ghost method Rejoin(h: seq<Node>, tl: seq<Node>)
      requires doc.Valid() && childNodes == [] && Children(doc.kids, parentNode) == h + tl
      requires previousSibling == Last(h) && nextSibling == First(tl)
      modifies this
      ensures Valid() && childNodes == [] && head == h && tail == tl
      ensures previousSibling == old(previousSibling) && nextSibling == old(nextSibling)
    {
      head, tail := h, tl;
    }

    /** A live fragment argument after its members were taken: still a valid
        fragment, now empty, over the same two anchors. */
    twostate predicate Emptied(g: LiveFragment)
      reads g, g.doc
    {
      g.Valid() && g.childNodes == []
      && g.previousSibling == old(g.previousSibling) && g.nextSibling == old(g.nextSibling)
    }

    /** What appendChild and insertBefore can be given: a node that is not
        already a member, an anchor or the parent; the children of a
        DocumentFragment; or another live fragment on the same document
        whose members could each be given on their own. */
    ghost predicate Accepts(arg: Arg)
      reads this, doc, Frame(arg), if arg.LiveArg? then {arg.fragment.doc} else {}
    {
      match arg
      case NodeArg(x) => Insertable(x)
      case FragmentArg(xs) => Loose(xs)
      case LiveArg(g) =>
        g != this && g.doc == doc && g.Valid() && forall y :: y in g.childNodes ==> Insertable(y)
    }

    /** Once nodes that are neither members nor anchors have left the tree t,
        the lists on either side of the run lose them. */
    method Settle(ghost t: Tree, ghost gone: set<Node>)
      requires doc.Valid() && WellFormed(t) && doc.kids == Detach(t, gone)
      requires Children(t, parentNode) == head + childNodes + tail
      requires previousSibling == Last(head) && nextSibling == First(tail)
      requires forall x :: x in gone ==> x !in childNodes && Some(x) != previousSibling && Some(x) != nextSibling
      modifies this
      ensures Valid() && head == Filter(old(head), gone) && tail == Filter(old(tail), gone)
      ensures childNodes == old(childNodes)
      ensures previousSibling == old(previousSibling) && nextSibling == old(nextSibling)
      ensures forall x :: x in gone ==> !Attached(doc.kids, x)
    {
      Gap(t, parentNode, head, childNodes, tail, gone);
      FilterLast(head, gone);
      FilterFirst(tail, gone);
      head, tail := Filter(head, gone), Filter(tail, gone);
    }

    /** The members of another live fragment, taken out as a DocumentFragment
        (livefragment.js:103-105, :140-142); returns them. */
    method TakeLive(g: LiveFragment) returns (frag: seq<Node>)
      requires Valid() && Accepts(LiveArg(g))
      modifies this, doc, g
      ensures Valid() && childNodes == old(childNodes) && g.childNodes == []
      ensures previousSibling == old(previousSibling) && nextSibling == old(nextSibling)
      ensures g.Valid() && g.head == old(g.head) && g.tail == old(g.tail)
      ensures g.previousSibling == old(g.previousSibling) && g.nextSibling == old(g.nextSibling)
      ensures frag == old(g.childNodes) && Loose(frag)
      ensures head == Filter(old(head), Moved(Collection(frag)))
      ensures tail == Filter(old(tail), Moved(Collection(frag)))
      ensures doc.kids == Detach(old(doc.kids), Moved(Collection(frag)))
    {
      ghost var t := doc.kids;
      ChildrenNoDup(t, g.parentNode);
      RunNoDup(g.head, g.childNodes, g.tail);
      frag := g.GetDocumentFragment();
      Settle(t, Moved(Collection(frag)));
    }

    /** appendChild(node) (livefragment.js:102-128): a live fragment is first
        emptied into a DocumentFragment, a DocumentFragment has its children
        appended one at a time, a node is appended itself and returned.
        In every case the nodes leave their old places and follow the old
        members in order, before the next anchor. */
    method AppendChild(arg: Arg) returns (r: Option<Node>)
      requires Valid() && Accepts(arg)
      modifies this, doc, Frame(arg)
      ensures Valid()
      ensures previousSibling == old(previousSibling) && nextSibling == old(nextSibling)
      ensures r == if arg.NodeArg? then Some(arg.node) else None
      ensures arg.LiveArg? ==> Emptied(arg.fragment)
      ensures var ns := old(ArgNodes(arg));
        && head == Filter(old(head), Moved(Collection(ns)))
        && tail == Filter(old(tail), Moved(Collection(ns)))
        && childNodes == old(childNodes) + ns
      ensures var ns := old(ArgNodes(arg));
        && (old(nextSibling).Some? ==>
              old(nextSibling).value in Children(Detach(old(doc.kids), Moved(Collection(ns))), parentNode))
        && doc.kids == Inserted(Detach(old(doc.kids), Moved(Collection(ns))), parentNode, ns, old(nextSibling))
    {
      match arg
      case NodeArg(x) =>
        assert Moved(Collection([x])) == {x};
        AppendNode(x);
        r := Some(x);
      case FragmentArg(xs) =>
        LooseKept(doc.kids, parentNode, head, childNodes, tail, xs);
        AppendNodes(xs);
        r := None;
      case LiveArg(g) =>
        AppendLive(g);
        r := None;
    }

    /** appendChild of another live fragment (livefragment.js:103-108): its
        members move, in order, after the old members; it is left empty and
        valid, over its old anchors. */
    method AppendLive(g: LiveFragment)
      requires Valid() && Accepts(LiveArg(g))
      modifies this, doc, g
      ensures Valid() && Emptied(g)
      ensures previousSibling == old(previousSibling) && nextSibling == old(nextSibling)
      ensures var ns := old(g.childNodes);
        && head == Filter(old(head), Moved(Collection(ns)))
        && tail == Filter(old(tail), Moved(Collection(ns)))
        && childNodes == old(childNodes) + ns
      ensures var ns := old(g.childNodes);
        && (old(nextSibling).Some? ==>
              old(nextSibling).value in Children(Detach(old(doc.kids), Moved(Collection(ns))), parentNode))
        && doc.kids == Inserted(Detach(old(doc.kids), Moved(Collection(ns))), parentNode, ns, old(nextSibling))
    {
      ghost var t0, h, m, tl := doc.kids, head, childNodes, tail;
      ghost var q, gh, gm, gt := g.parentNode, g.head, g.childNodes, g.tail;
      var frag := TakeLive(g);
      ghost var t1, h1, tl1 := doc.kids, head, tail;
      AppendNodes(frag);
      AtEnd(m, frag);
      if q != parentNode {
        InsertedElsewhere(t1, parentNode, frag, nextSibling, q);
      }
      ghost var gh2, gt2 := GapSurvives(t0, t1, doc.kids, parentNode, q, h, m, tl, gh, gm, gt, g.childNodes,
                                        h1, childNodes, tl1, |m|);
      g.Rejoin(gh2, gt2);
    }

    /** insertBefore(node, ref) (livefragment.js:133-168): a null reference
        appends; otherwise a live fragment is first emptied into a
        DocumentFragment and the nodes go in before ref one at a time. The
        nodes leave their old places before ref is looked up, so when ref is
        not a member NotFoundError is thrown with them already detached. */
    method InsertBefore(arg: Arg, ref: Option<Node>) returns (r: Result<Option<Node>>)
      requires Valid() && Accepts(arg)
      modifies this, doc, Frame(arg)
      ensures Valid()
      ensures previousSibling == old(previousSibling) && nextSibling == old(nextSibling)
      ensures arg.LiveArg? ==> Emptied(arg.fragment)
      ensures var ns := old(ArgNodes(arg));
        && head == Filter(old(head), Moved(Collection(ns)))
        && tail == Filter(old(tail), Moved(Collection(ns)))
      ensures ref.None? ==>
        var ns := old(ArgNodes(arg));
        && r == Ok(if arg.NodeArg? then Some(arg.node) else None)
        && childNodes == old(childNodes) + ns
        && (old(nextSibling).Some? ==>
              old(nextSibling).value in Children(Detach(old(doc.kids), Moved(Collection(ns))), parentNode))
        && doc.kids == Inserted(Detach(old(doc.kids), Moved(Collection(ns))), parentNode, ns, old(nextSibling))
      ensures ref.Some? && ref.value !in old(childNodes) ==>
        var ns := old(ArgNodes(arg));
        && r == (if ns == [] then Ok(None) else Err(NotFoundError))
        && childNodes == old(childNodes)
        && doc.kids == Detach(old(doc.kids), Moved(Collection(ns)))
      ensures ref.Some? && ref.value in old(childNodes) ==>
        var ns, i := old(ArgNodes(arg)), IndexOf(old(childNodes), ref.value);
        && r == Ok(if arg.NodeArg? then Some(arg.node) else None)
        && childNodes == old(childNodes)[..i] + ns + old(childNodes)[i..]
        && ref.value in Children(Detach(old(doc.kids), Moved(Collection(ns))), parentNode)
        && doc.kids == Inserted(Detach(old(doc.kids), Moved(Collection(ns))), parentNode, ns, ref)
    {
      if ref.None? {
        var a := AppendChild(arg);
        return Ok(a);
      }
      match arg
      case NodeArg(x) =>
        assert Moved(Collection([x])) == {x};
        var res := InsertNode(x, ref.value);
        if res.Err? {
          return Err(res.error);
        }
        r := Ok(Some(x));
      case FragmentArg(xs) =>
        LooseKept(doc.kids, parentNode, head, childNodes, tail, xs);
        var res := InsertNodes(xs, ref.value);
        if res.Err? {
          return Err(res.error);
        }
        r := Ok(None);
      case LiveArg(g) =>
        var res := InsertLive(g, ref.value);
        if res.Err? {
          return Err(res.error);
        }
        r := Ok(None);
    }

    /** insertBefore of another live fragment before ref (livefragment.js:140-148):
        it is emptied first, so its members have left the tree even when ref is
        not a member and NotFoundError follows; before a member ref they go in
        in order. Either way it is left empty and valid, over its old anchors. */
    method InsertLive(g: LiveFragment, ref: Node) returns (r: Result<()>)
      requires Valid() && Accepts(LiveArg(g))
      modifies this, doc, g
      ensures Valid() && Emptied(g)
      ensures previousSibling == old(previousSibling) && nextSibling == old(nextSibling)
      ensures var ns := old(g.childNodes);
        && head == Filter(old(head), Moved(Collection(ns)))
        && tail == Filter(old(tail), Moved(Collection(ns)))
      ensures ref !in old(childNodes) ==>
        var ns := old(g.childNodes);
        && r == (if ns == [] then Ok(()) else Err(NotFoundError))
        && childNodes == old(childNodes)
        && doc.kids == Detach(old(doc.kids), Moved(Collection(ns)))
      ensures ref in old(childNodes) ==>
        var ns, i := old(g.childNodes), IndexOf(old(childNodes), ref);
        && r == Ok(())
        && childNodes == old(childNodes)[..i] + ns + old(childNodes)[i..]
        && ref in Children(Detach(old(doc.kids), Moved(Collection(ns))), parentNode)
        && doc.kids == Inserted(Detach(old(doc.kids), Moved(Collection(ns))), parentNode, ns, Some(ref))
    {
      ghost var t0, h, m, tl := doc.kids, head, childNodes, tail;
      ghost var q, gh, gm, gt := g.parentNode, g.head, g.childNodes, g.tail;
      var frag := TakeLive(g);
      ghost var t1, h1, tl1 := doc.kids, head, tail;
      r := InsertNodes(frag, ref);
      if ref in m {
        if q != parentNode {
          InsertedElsewhere(t1, parentNode, frag, Some(ref), q);
        }
        ghost var gh2, gt2 := GapSurvives(t0, t1, doc.kids, parentNode, q, h, m, tl, gh, gm, gt, g.childNodes,
                                          h1, childNodes, tl1, IndexOf(m, ref));
        g.Rejoin(gh2, gt2);
      }
    }

    /** prepend(node) (livefragment.js:274-276): insertBefore with the first
        member as reference, which appends when there is none. */
    method Prepend(arg: Arg)
      requires Valid() && Accepts(arg)
      modifies this, doc, Frame(arg)
      ensures Valid()
      ensures previousSibling == old(previousSibling) && nextSibling == old(nextSibling)
      ensures arg.LiveArg? ==> Emptied(arg.fragment)
      ensures var ns := old(ArgNodes(arg));
        && head == Filter(old(head), Moved(Collection(ns)))
        && tail == Filter(old(tail), Moved(Collection(ns)))
        && childNodes == ns + old(childNodes)
      ensures var ns, ref := old(ArgNodes(arg)), if old(childNodes) != [] then Some(old(childNodes)[0]) else old(nextSibling);
        && (ref.Some? ==> ref.value in Children(Detach(old(doc.kids), Moved(Collection(ns))), parentNode))
        && doc.kids == Inserted(Detach(old(doc.kids), Moved(Collection(ns))), parentNode, ns, ref)
    {
      ghost var m, ns := childNodes, ArgNodes(arg);
      var r := InsertBefore(arg, FirstChild());
      InFront(m, ns);
    }

    /** append(node) (livefragment.js:279-281): appendChild, without its
        result. */
    method Append(arg: Arg)
      requires Valid() && Accepts(arg)
      modifies this, doc, Frame(arg)
      ensures Valid()
      ensures previousSibling == old(previousSibling) && nextSibling == old(nextSibling)
      ensures arg.LiveArg? ==> Emptied(arg.fragment)
      ensures var ns := old(ArgNodes(arg));
        && head == Filter(old(head), Moved(Collection(ns)))
        && tail == Filter(old(tail), Moved(Collection(ns)))
        && childNodes == old(childNodes) + ns
      ensures var ns := old(ArgNodes(arg));
        && (old(nextSibling).Some? ==>
              old(nextSibling).value in Children(Detach(old(doc.kids), Moved(Collection(ns))), parentNode))
        && doc.kids == Inserted(Detach(old(doc.kids), Moved(Collection(ns))), parentNode, ns, old(nextSibling))
    {
      var r := AppendChild(arg);
    }

    /** remove() (livefragment.js:328-330): empty(). */
    method Remove()
      requires Valid()
      modifies this, doc
      ensures Valid() && childNodes == [] && head == old(head) && tail == old(tail)
      ensures previousSibling == old(previousSibling) && nextSibling == old(nextSibling)
      ensures doc.kids == Detach(old(doc.kids), Moved(Collection(old(childNodes))))
    {
      Empty();
    }

    /** What before, after and replace can be given: a node that is not a
        member, not the next anchor and not the parent, or the children of a
        DocumentFragment, which have no parent in the tree. */
    ghost predicate Outside(c: Content)
      reads this, doc
    {
      && NoDup(Nodes(c)) && parentNode !in Nodes(c)
      && (forall x :: x in Nodes(c) ==> x !in childNodes && Some(x) != nextSibling)
      && (c.Collection? ==> forall x :: x in c.nodes ==> !Attached(doc.kids, x))
    }

    /** before(node) (livefragment.js:284-295): the nodes go in before the
        first member, or before the next anchor when there is none, and the
        last of them becomes the previous anchor; an empty DocumentFragment
        leaves the anchor as it was (see NewPrevious). */
    method Before(c: Content)
      requires Valid() && Outside(c)
      modifies this, doc
      ensures Valid() && childNodes == old(childNodes) && nextSibling == old(nextSibling)
      ensures previousSibling == NewPrevious(c, old(previousSibling))
      ensures head == Filter(old(head), Moved(c)) + Nodes(c) && tail == Filter(old(tail), Moved(c))
      ensures var ref := if old(childNodes) != [] then Some(old(childNodes)[0]) else old(nextSibling);
        && (ref.Some? ==> ref.value in Children(Detach(old(doc.kids), Moved(c)), parentNode))
        && doc.kids == Inserted(Detach(old(doc.kids), Moved(c)), parentNode, Nodes(c), ref)
    {
      PutBeforeRun(c);
      Reanchor(NewPrevious(c, previousSibling), Filter(head, Moved(c)) + Nodes(c), Filter(tail, Moved(c)));
    }

    /** Records a new previous anchor and the lists around the run. */
    method Reanchor(prev: Option<Node>, ghost h: seq<Node>, ghost tl: seq<Node>)
      modifies this
      ensures previousSibling == prev && head == h && tail == tl
      ensures childNodes == old(childNodes) && nextSibling == old(nextSibling)
    {
      previousSibling, head, tail := prev, h, tl;
    }

    /** The document half of before: the nodes go in right before the run,
        after what is left of the list in front of it. */
    method PutBeforeRun(c: Content)
      requires Valid() && Outside(c)
      modifies doc
      ensures doc.Valid()
      ensures Children(doc.kids, parentNode)
        == (Filter(head, Moved(c)) + Nodes(c)) + childNodes + Filter(tail, Moved(c))
      ensures Last(Filter(head, Moved(c)) + Nodes(c)) == NewPrevious(c, previousSibling)
      ensures First(Filter(tail, Moved(c))) == nextSibling
      ensures var ref := if childNodes != [] then Some(childNodes[0]) else nextSibling;
        && (ref.Some? ==> ref.value in Children(Detach(old(doc.kids), Moved(c)), parentNode))
        && doc.kids == Inserted(Detach(old(doc.kids), Moved(c)), parentNode, Nodes(c), ref)
    {
      var d, p, m := doc, parentNode, childNodes;
      BeforeCut(d.kids, p, head, m, tail, c);
      var ref := if m != [] then Some(m[0]) else nextSibling;
      d.InsertBefore(p, c, ref);
    }

    /** after(node) (livefragment.js:298-309): the nodes go in before the
        next anchor, and the first of them becomes the next anchor; an empty
        DocumentFragment leaves the anchor as it was (see NewNext). */
    method After(c: Content)
      requires Valid() && Outside(c) && forall x :: x in Nodes(c) ==> Some(x) != previousSibling
      modifies this, doc
      ensures Valid() && childNodes == old(childNodes) && previousSibling == old(previousSibling)
      ensures nextSibling == NewNext(c, old(nextSibling))
      ensures head == Filter(old(head), Moved(c)) && tail == Nodes(c) + Filter(old(tail), Moved(c))
      ensures old(nextSibling).Some? ==> old(nextSibling).value in Children(Detach(old(doc.kids), Moved(c)), parentNode)
      ensures doc.kids == Inserted(Detach(old(doc.kids), Moved(c)), parentNode, Nodes(c), old(nextSibling))
    {
      PutAfterRun(c);
      nextSibling := NewNext(c, nextSibling);
    }

    /** The first step of after and replace (livefragment.js:307, :321): the
        nodes go in before the next anchor, which is left as it was, so the
        nodes end up at the head of the tail. */
    method PutAfterRun(c: Content)
      requires Valid() && Outside(c) && forall x :: x in Nodes(c) ==> Some(x) != previousSibling
      modifies this, doc
      ensures Placed() && childNodes == old(childNodes)
      ensures previousSibling == old(previousSibling) && nextSibling == old(nextSibling)
      ensures head == Filter(old(head), Moved(c)) && tail == Nodes(c) + Filter(old(tail), Moved(c))
      ensures previousSibling == Last(head) && nextSibling == First(Filter(old(tail), Moved(c)))
      ensures First(tail) == NewNext(c, nextSibling)
      ensures nextSibling.Some? ==> nextSibling.value in Children(Detach(old(doc.kids), Moved(c)), parentNode)
      ensures doc.kids == Inserted(Detach(old(doc.kids), Moved(c)), parentNode, Nodes(c), nextSibling)
    {
      var d, p, m := doc, parentNode, childNodes;
      ghost var tl := Filter(tail, Moved(c));
      AfterCut(d.kids, p, head, m, tail, c);
      d.InsertBefore(p, c, nextSibling);
      Reanchor(previousSibling, Filter(head, Moved(c)), Nodes(c) + tl);
    }

    /** replace(node) (livefragment.js:312-325): the nodes go in before the
        next anchor, the old members are removed with empty(), and the new
        nodes become the members; the anchors stay. */
    method Replace(c: Content)
      requires Valid() && Outside(c) && forall x :: x in Nodes(c) ==> Some(x) != previousSibling
      modifies this, doc
      ensures Valid() && childNodes == Nodes(c)
      ensures previousSibling == old(previousSibling) && nextSibling == old(nextSibling)
      ensures head == Filter(old(head), Moved(c)) && tail == Filter(old(tail), Moved(c))
      ensures old(nextSibling).Some? ==> old(nextSibling).value in Children(Detach(old(doc.kids), Moved(c)), parentNode)
      ensures doc.kids == Detach(Inserted(Detach(old(doc.kids), Moved(c)), parentNode, Nodes(c), old(nextSibling)),
                                 Moved(Collection(old(childNodes))))
    {
      ghost var tl := Filter(tail, Moved(c));
      PutAfterRun(c);
      Empty();
      Adopt(Nodes(c), tl);
    }

    /** The last step of replace: the nodes just put after the (now empty)
        run become its members, and the tail shrinks back to what follows. */
    method Adopt(ns: seq<Node>, ghost tl: seq<Node>)
      requires Placed() && childNodes == [] && tail == ns + tl
      requires previousSibling == Last(head) && nextSibling == First(tl)
      modifies this
      ensures Valid() && childNodes == ns && head == old(head) && tail == tl
      ensures previousSibling == old(previousSibling) && nextSibling == old(nextSibling)
      ensures doc.kids == old(doc.kids)
    {
      childNodes := ns;
      tail := tl;
      Refill(head, ns, tl);
    }

    /** getDocumentFragment followed by appendChild of the DocumentFragment
        it returns, the use livefragment.js:258-261 describes, leaves the
        document and the fragment as they were. */
    method Reattach()
      requires Valid()
      modifies this, doc
      ensures Valid() && doc.kids == old(doc.kids) && Snapshot() == old(Snapshot())
      ensures head == old(head) && tail == old(tail)
    {
      ghost var t, h, m, tl := doc.kids, head, childNodes, tail;
      ghost var gone := Moved(Collection(m));
      ChildrenNoDup(t, parentNode);
      RunNoDup(h, m, tl);
      OutOfRun(h, m, tl);
      FilterKeeps(h, gone);
      FilterKeeps(tl, gone);
      DetachWellFormed(t, gone);
      DetachUnattached(Detach(t, gone), gone);
      RoundTrip(t, parentNode, h, m, tl);
      var frag := GetDocumentFragment();
      var r := AppendChild(FragmentArg(frag));
    }
  }
}
