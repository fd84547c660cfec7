/** The host tree that a live fragment sits in front of.

    Only the part of the DOM that the fragment consumes is modelled: every
    parent node owns an ordered list of children, and the host mutators
    (removeChild, insertBefore, appendChild, replaceChild, as in the "Mutation
    algorithms" of the WHATWG DOM Standard) are edits of those lists. A node
    that appears in no list is detached (its parentNode is null). */
module Dom {

  /** Node identities; the host's own node objects are not modelled. */
  type Node = nat

  /** A nullable node reference. */
  datatype Option<T> = None | Some(value: T)

  /** Children lists by parent. A parent with no entry has no children. */
  type Tree = map<Node, seq<Node>>

  /** A DOM node as an argument of insertBefore: a single node, or a
      DocumentFragment, whose children are inserted in order. */
  datatype Content = Single(node: Node) | Collection(nodes: seq<Node>)

  /** The nodes that an insertion of c places in the tree, in order. */
  function Nodes(c: Content): seq<Node>
  {
    match c
    case Single(n) => [n]
    case Collection(xs) => xs
  }

  /** The same nodes, as a set. */
  function Moved(c: Content): (r: set<Node>)
    ensures forall x :: x in r <==> x in Nodes(c)
  {
    match c
    case Single(n) => {n}
    case Collection(xs) => set x | x in xs
  }

  function Children(t: Tree, p: Node): seq<Node>
  {
    if p in t then t[p] else []
  }

  /** Positions i and j hold different nodes. */
  predicate Distinct(s: seq<Node>, i: int, j: int)
    requires 0 <= i < |s| && 0 <= j < |s|
  {
    s[i] != s[j]
  }

  /** No node appears twice in s. */
  predicate NoDup(s: seq<Node>)
  {
    forall i, j :: 0 <= i < j < |s| ==> Distinct(s, i, j)
  }

  /** Any two positions of a list without duplicates hold different nodes. */
  lemma NoDupAt(s: seq<Node>, i: int, j: int)
    requires NoDup(s) && 0 <= i < |s| && 0 <= j < |s| && i != j
    ensures s[i] != s[j]
  {
    if i < j {
      assert Distinct(s, i, j);
    } else {
      assert Distinct(s, j, i);
    }
  }

  function First(s: seq<Node>): Option<Node>
  {
    if s == [] then None else Some(s[0])
  }

  function Last(s: seq<Node>): Option<Node>
  {
    if s == [] then None else Some(s[|s| - 1])
  }

  /** The node at index i, or null outside the list. */
  function At(s: seq<Node>, i: int): Option<Node>
  {
    if 0 <= i < |s| then Some(s[i]) else None
  }

  /** Array.prototype.indexOf: the first index of x, or -1. */
  function IndexOf(s: seq<Node>, x: Node): (r: int)
    ensures -1 <= r < |s|
    ensures r == -1 <==> x !in s
    ensures 0 <= r ==> s[r] == x && forall j :: 0 <= j < r ==> s[j] != x
  {
    if s == [] then -1
    else if s[0] == x then 0
    else
      var i := IndexOf(s[1..], x);
      if i == -1 then -1
      else i + 1
  }

  /** In a list without duplicates, indexOf finds the one position of a node. */
  lemma IndexOfUnique(s: seq<Node>, i: int)
    requires NoDup(s) && 0 <= i < |s|
    ensures IndexOf(s, s[i]) == i
  {
    var r := IndexOf(s, s[i]);
    if r < i {
      NoDupAt(s, r, i);
    }
  }

  /** The first index from start on that holds x, or |s| when none does. */
  function IndexFrom(s: seq<Node>, start: int, x: Node): (e: int)
    requires 0 <= start <= |s|
    ensures start <= e <= |s|
    ensures e < |s| ==> s[e] == x
    ensures forall m :: start <= m < e ==> s[m] != x
    decreases |s| - start
  {
    if start == |s| then |s|
    else if s[start] == x then start
    else IndexFrom(s, start + 1, x)
  }

  /** An index e that holds x, or the end, with no x in between, is the one IndexFrom finds. */
  lemma IndexFromFirst(s: seq<Node>, start: int, x: Node, e: int)
    requires 0 <= start <= e <= |s| && (e < |s| ==> s[e] == x)
    requires forall m :: start <= m < e ==> s[m] != x
    ensures IndexFrom(s, start, x) == e
  {
  }

  lemma IndexOfConcat(a: seq<Node>, b: seq<Node>, x: Node)
    requires x in b && x !in a
    ensures IndexOf(a + b, x) == |a| + IndexOf(b, x)
  {
    var k := a + b;
    var j := IndexOf(b, x);
    assert k[|a| + j] == x;
    assert forall m :: 0 <= m < |a| ==> k[m] == a[m];
    assert forall m :: |a| <= m < |a| + j ==> k[m] == b[..j][m - |a|];
    assert k[..|a| + j + 1][|a| + j] == x;
  }

  /** The node after x in the list s (nextSibling), null when x is last or absent. */
  function SiblingAfter(s: seq<Node>, x: Node): Option<Node>
  {
    var i := IndexOf(s, x);
    if i < 0 then None else At(s, i + 1)
  }

  /** The node before x in the list s (previousSibling), null when x is first or absent. */
  function SiblingBefore(s: seq<Node>, x: Node): Option<Node>
  {
    var i := IndexOf(s, x);
    if i < 0 then None else At(s, i - 1)
  }

  /** s without the nodes in gone, order kept. */
  function Filter(s: seq<Node>, gone: set<Node>): (r: seq<Node>)
    ensures forall x :: x in r <==> x in s && x !in gone
    ensures |r| <= |s|
  {
    if s == [] then []
    else (if s[0] in gone then [] else [s[0]]) + Filter(s[1..], gone)
  }

  lemma {:induction false} FilterAppend(a: seq<Node>, b: seq<Node>, gone: set<Node>)
    ensures Filter(a + b, gone) == Filter(a, gone) + Filter(b, gone)
  {
    if a == [] {
      assert a + b == b;
    } else {
      assert (a + b)[1..] == a[1..] + b;
      FilterAppend(a[1..], b, gone);
    }
  }

  lemma {:induction false} FilterKeeps(s: seq<Node>, gone: set<Node>)
    requires forall x :: x in gone ==> x !in s
    ensures Filter(s, gone) == s
  {
    if s != [] {
      FilterKeeps(s[1..], gone);
    }
  }

  /** Joining two lists without duplicates that share no node. */
  lemma NoDupAppend(a: seq<Node>, b: seq<Node>)
    requires NoDup(a) && NoDup(b)
    requires forall x :: x in a ==> x !in b
    ensures NoDup(a + b)
  {
    var s := a + b;
    forall i, j | 0 <= i < j < |s| ensures Distinct(s, i, j) {
      if j < |a| {
        assert s[i] == a[i] && s[j] == a[j] && Distinct(a, i, j);
      } else if i < |a| {
        assert s[i] == a[i] && s[j] == b[j - |a|] && a[i] in a;
      } else {
        assert s[i] == b[i - |a|] && s[j] == b[j - |a|] && Distinct(b, i - |a|, j - |a|);
      }
    }
  }

  /** The two halves of a list without duplicates are such lists, and disjoint. */
  lemma NoDupSplit(s: seq<Node>, i: int)
    requires NoDup(s) && 0 <= i <= |s|
    ensures NoDup(s[..i]) && NoDup(s[i..])
    ensures forall x :: x in s[..i] ==> x !in s[i..]
  {
    forall a, b | 0 <= a < b < i ensures Distinct(s[..i], a, b) {
      assert Distinct(s, a, b);
    }
    forall a, b | 0 <= a < b < |s| - i ensures Distinct(s[i..], a, b) {
      assert Distinct(s, i + a, i + b);
    }
    forall x | x in s[..i] ensures x !in s[i..] {
      var a :| 0 <= a < i && s[a] == x;
      forall b | 0 <= b < |s| - i ensures s[i..][b] != x {
        assert Distinct(s, a, i + b);
      }
    }
  }

  lemma {:induction false} FilterNoDup(s: seq<Node>, gone: set<Node>)
    requires NoDup(s)
    ensures NoDup(Filter(s, gone))
  {
    if s != [] {
      NoDupSplit(s, 1);
      assert s == s[..1] + s[1..];
      FilterNoDup(s[1..], gone);
      var head := if s[0] in gone then [] else [s[0]];
      NoDupAppend(head, Filter(s[1..], gone));
    }
  }

  lemma FilterLast(s: seq<Node>, gone: set<Node>)
    requires Last(s).Some? ==> Last(s).value !in gone
    ensures Last(Filter(s, gone)) == Last(s)
  {
    if s != [] {
      var init := s[..|s| - 1];
      assert s == init + [s[|s| - 1]];
      FilterAppend(init, [s[|s| - 1]], gone);
    }
  }

  lemma FilterFirst(s: seq<Node>, gone: set<Node>)
    requires First(s).Some? ==> First(s).value !in gone
    ensures First(Filter(s, gone)) == First(s)
  {
  }

  lemma {:induction false} FilterFilter(s: seq<Node>, a: set<Node>, b: set<Node>)
    ensures Filter(Filter(s, a), b) == Filter(s, a + b)
  {
    if s != [] {
      FilterFilter(s[1..], a, b);
      var head := if s[0] in a then [] else [s[0]];
      FilterAppend(head, Filter(s[1..], a), b);
    }
  }

  /** The parent lists after every node of gone is removed from wherever it is. */
  function Detach(t: Tree, gone: set<Node>): Tree
  {
    map p | p in t :: Filter(t[p], gone)
  }

  /** A node has a parent. */
  ghost predicate Attached(t: Tree, x: Node)
  {
    exists p :: p in t && x in t[p]
  }

  /** No node is in the lists of both of two different parents. */
  ghost predicate SoleParent(t: Tree, p: Node, q: Node)
  {
    p in t && q in t && p != q ==> forall x :: x in t[p] ==> x !in t[q]
  }

  /** The shape every host tree has: no node twice in one list, no node
      under two parents, no node its own child. */
  ghost predicate WellFormed(t: Tree)
  {
    && (forall p :: p in t ==> NoDup(t[p]) && p !in t[p])
    && (forall p, q :: SoleParent(t, p, q))
  }

  /** A node's parent is unique. */
  lemma OneParent(t: Tree, p: Node, q: Node, x: Node)
    requires WellFormed(t) && x in Children(t, p) && x in Children(t, q)
    ensures p == q
  {
    assert SoleParent(t, p, q);
  }

  /** node.parentNode */
  ghost function ParentOf(t: Tree, x: Node): Option<Node>
  {
    if Attached(t, x) then Some(var p :| p in t && x in t[p]; p) else None
  }

  lemma ParentOfChild(t: Tree, p: Node, x: Node)
    requires WellFormed(t) && x in Children(t, p)
    ensures ParentOf(t, x) == Some(p)
  {
    OneParent(t, p, ParentOf(t, x).value, x);
  }

  lemma ParentOfSome(t: Tree, x: Node)
    requires ParentOf(t, x).Some?
    ensures x in Children(t, ParentOf(t, x).value)
  {
  }

  /** node.nextSibling */
  ghost function NextSiblingOf(t: Tree, x: Node): Option<Node>
  {
    match ParentOf(t, x)
    case None => None
    case Some(p) => SiblingAfter(Children(t, p), x)
  }

  /** node.previousSibling */
  ghost function PreviousSiblingOf(t: Tree, x: Node): Option<Node>
  {
    match ParentOf(t, x)
    case None => None
    case Some(p) => SiblingBefore(Children(t, p), x)
  }

  /** The siblings of the i-th child of p are its neighbours in p's list. */
  lemma SiblingsAt(t: Tree, p: Node, i: int)
    requires WellFormed(t) && 0 <= i < |Children(t, p)|
    ensures NextSiblingOf(t, Children(t, p)[i]) == At(Children(t, p), i + 1)
    ensures PreviousSiblingOf(t, Children(t, p)[i]) == At(Children(t, p), i - 1)
  {
    ChildrenNoDup(t, p);
    ParentOfChild(t, p, Children(t, p)[i]);
    IndexOfUnique(Children(t, p), i);
  }

  /** Detaching keeps the tree well formed, leaves every removed node without a
      parent, and keeps every other node where it was. */
  lemma DetachWellFormed(t: Tree, gone: set<Node>)
    requires WellFormed(t)
    ensures WellFormed(Detach(t, gone))
    ensures forall x :: x in gone ==> !Attached(Detach(t, gone), x)
    ensures forall p, x :: p in t && x !in gone ==> (x in Children(Detach(t, gone), p) <==> x in t[p])
  {
    var d := Detach(t, gone);
    forall p | p in d ensures NoDup(d[p]) && p !in d[p] {
      FilterNoDup(t[p], gone);
    }
    forall p, q ensures SoleParent(d, p, q) {
      assert SoleParent(t, p, q);
    }
  }

  /** A parent's list after detaching is its old list without the nodes. */
  lemma ChildrenDetach(t: Tree, gone: set<Node>, p: Node)
    ensures Children(Detach(t, gone), p) == Filter(Children(t, p), gone)
  {
  }

  /** Detaching nodes that have no parent changes nothing. */
  lemma DetachUnattached(t: Tree, gone: set<Node>)
    requires forall x :: x in gone ==> !Attached(t, x)
    ensures Detach(t, gone) == t
  {
    forall p | p in t ensures Filter(t[p], gone) == t[p] {
      FilterKeeps(t[p], gone);
    }
  }

  /** Removing a child from its parent's list detaches it: no other list held it. */
  lemma RemoveFromParent(t: Tree, p: Node, x: Node)
    requires WellFormed(t) && x in Children(t, p)
    ensures t[p := Filter(t[p], {x})] == Detach(t, {x})
  {
    forall q | q in t && q != p ensures Filter(t[q], {x}) == t[q] {
      assert SoleParent(t, p, q);
      FilterKeeps(t[q], {x});
    }
  }

  /** Detaching one set of nodes after another is detaching both. */
  lemma DetachDetach(t: Tree, a: set<Node>, b: set<Node>)
    ensures Detach(Detach(t, a), b) == Detach(t, a + b)
  {
    forall p | p in t ensures Filter(Filter(t[p], a), b) == Filter(t[p], a + b) {
      FilterFilter(t[p], a, b);
    }
  }

  /** A parent with no entry has an empty list, so every children list is duplicate free. */
  lemma ChildrenNoDup(t: Tree, p: Node)
    requires WellFormed(t)
    ensures NoDup(Children(t, p)) && p !in Children(t, p)
  {
  }

  /** Removing a node that occurs once splices it out. */
  lemma FilterSplice(a: seq<Node>, x: Node, b: seq<Node>)
    requires x !in a && x !in b
    ensures Filter(a + [x] + b, {x}) == a + b
  {
    var gone := {x};
    assert Filter([x], gone) == [] + Filter([], gone);
    FilterAppend(a, [x], gone);
    FilterKeeps(a, gone);
    assert Filter(a + [x], gone) == a;
    FilterAppend(a + [x], b, gone);
    FilterKeeps(b, gone);
  }

  /** Removing the node at index i of a list without duplicates splices out
      exactly that index. */
  lemma FilterOne(s: seq<Node>, i: int)
    requires NoDup(s) && 0 <= i < |s|
    ensures Filter(s, {s[i]}) == s[..i] + s[i + 1..]
  {
    var a, x, b := s[..i], s[i], s[i + 1..];
    assert s == a + [x] + b;
    forall m | 0 <= m < |a| ensures a[m] != x {
      NoDupAt(s, m, i);
    }
    forall m | 0 <= m < |b| ensures b[m] != x {
      NoDupAt(s, i + 1 + m, i);
    }
    FilterSplice(a, x, b);
  }

  /** The parent lists after xs is inserted in p before ref, or at the end
      when ref is null; inserting no node (an empty DocumentFragment) changes
      nothing. */
  function Inserted(t: Tree, p: Node, xs: seq<Node>, ref: Option<Node>): Tree
    requires ref.Some? ==> ref.value in Children(t, p)
  {
    if xs == [] then t
    else
      var k := Children(t, p);
      var i := if ref.None? then |k| else IndexOf(k, ref.value);
      t[p := k[..i] + xs + k[i..]]
  }

  /** Inserting into the gap at the head of b, where ref names that head. */
  lemma InsertedAt(t: Tree, p: Node, a: seq<Node>, b: seq<Node>, xs: seq<Node>, ref: Option<Node>)
    requires Children(t, p) == a + b && NoDup(a + b) && ref == First(b)
    ensures Children(Inserted(t, p, xs, ref), p) == a + xs + b
  {
    var k := a + b;
    if xs == [] {
      assert a + xs + b == k;
    } else {
      if ref.Some? {
        IndexOfUnique(k, |a|);
        assert k[|a|] == b[0];
      }
      assert k[..|a|] == a && k[|a|..] == b;
    }
  }

  /** Giving p a new list keeps the tree well formed when that list has no
      duplicates and takes only p's old children and detached nodes. */
  lemma UpdateWellFormed(t: Tree, p: Node, s: seq<Node>)
    requires WellFormed(t) && NoDup(s) && p !in s
    requires forall x :: x in s ==> x in Children(t, p) || !Attached(t, x)
    ensures WellFormed(t[p := s])
  {
    var u := t[p := s];
    forall a, b ensures SoleParent(u, a, b) {
      assert SoleParent(t, a, b);
      assert SoleParent(t, p, b);
      assert SoleParent(t, a, p);
    }
  }

  /** Inserting detached, distinct nodes keeps the tree well formed. */
  lemma InsertedWellFormed(t: Tree, p: Node, xs: seq<Node>, ref: Option<Node>)
    requires ref.Some? ==> ref.value in Children(t, p)
    requires WellFormed(t) && NoDup(xs) && p !in xs
    requires forall x :: x in xs ==> !Attached(t, x)
    ensures WellFormed(Inserted(t, p, xs, ref))
  {
    if xs != [] {
      var k := Children(t, p);
      var i := if ref.None? then |k| else IndexOf(k, ref.value);
      assert k == k[..i] + k[i..];
      NoDupSplit(k, i);
      assert forall x :: x in xs ==> x !in k;
      NoDupAppend(k[..i], xs);
      NoDupAppend(k[..i] + xs, k[i..]);
      UpdateWellFormed(t, p, k[..i] + xs + k[i..]);
    }
  }

  /** The parent lists after child is replaced in p by x. */
  function Replaced(t: Tree, p: Node, x: Node, child: Node): Tree
    requires child in Children(t, p)
  {
    var k := Children(t, p);
    t[p := k[IndexOf(k, child) := x]]
  }

  lemma ReplacedWellFormed(t: Tree, p: Node, x: Node, child: Node)
    requires WellFormed(t) && child in Children(t, p)
    requires !Attached(t, x) && x != p
    ensures WellFormed(Replaced(t, p, x, child))
    ensures !Attached(Replaced(t, p, x, child), child)
  {
    var k := Children(t, p);
    var i := IndexOf(k, child);
    var s := k[i := x];
    forall a, b | 0 <= a < b < |s| ensures Distinct(s, a, b) {
      if a != i && b != i {
        assert s[a] == k[a] && s[b] == k[b] && Distinct(k, a, b);
      } else if a == i {
        assert s[b] == k[b];
      } else {
        assert s[a] == k[a];
      }
    }
    forall j | 0 <= j < |s| && j != i ensures s[j] != child {
      NoDupAt(k, j, i);
    }
    UpdateWellFormed(t, p, s);
    forall q | q in t && q != p ensures child !in t[q] {
      assert SoleParent(t, p, q);
    }
  }

  /** The host document: its tree changes in place through the DOM mutators. */
  class Document {
    var kids: Tree

    ghost predicate Valid()
      reads this
    {
      WellFormed(kids)
    }

    constructor (t: Tree)
      requires WellFormed(t)
      ensures Valid() && kids == t
    {
      kids := t;
    }

    /** node.parentNode */
    method ParentNode(x: Node) returns (p: Option<Node>)
      requires Valid()
      ensures p == ParentOf(kids, x)
      ensures p.Some? ==> x in Children(kids, p.value)
    {
      if q :| q in kids && x in kids[q] {
        OneParent(kids, q, ParentOf(kids, x).value, x);
        p := Some(q);
      } else {
        p := None;
      }
    }

    /** node.nextSibling */
    method NextSibling(x: Node) returns (r: Option<Node>)
      requires Valid()
      ensures r == NextSiblingOf(kids, x)
    {
      var p := ParentNode(x);
      r := if p.Some? then SiblingAfter(kids[p.value], x) else None;
    }

    /** node.previousSibling */
    method PreviousSibling(x: Node) returns (r: Option<Node>)
      requires Valid()
      ensures r == PreviousSiblingOf(kids, x)
    {
      var p := ParentNode(x);
      r := if p.Some? then SiblingBefore(kids[p.value], x) else None;
    }

    /** parent.removeChild(child): the child leaves its parent's list. */
    method RemoveChild(p: Node, child: Node)
      requires Valid() && child in Children(kids, p)
      modifies this
      ensures Valid()
      ensures kids == Detach(old(kids), {child})
      ensures !Attached(kids, child)
    {
      RemoveFromParent(kids, p, child);
      DetachWellFormed(kids, {child});
      kids := kids[p := Filter(kids[p], {child})];
    }

    /** `if (node.parentNode) node.parentNode.removeChild(node)` */
    method Remove(x: Node)
      requires Valid()
      modifies this
      ensures Valid()
      ensures kids == Detach(old(kids), {x})
    {
      var p := ParentNode(x);
      if p.Some? {
        RemoveChild(p.value, x);
      } else {
        DetachUnattached(kids, {x});
      }
    }

    /** parent.insertBefore(node, ref): a single node is first taken from its
        old parent; a DocumentFragment gives up its children, in order. A null
        ref inserts at the end. */
    method InsertBefore(p: Node, c: Content, ref: Option<Node>)
      requires Valid()
      requires ref.Some? ==> ref.value in Children(kids, p) && ref.value !in Nodes(c)
      requires p !in Nodes(c) && NoDup(Nodes(c))
      requires c.Collection? ==> forall x :: x in c.nodes ==> !Attached(kids, x)
      modifies this
      ensures Valid()
      ensures ref.Some? ==> ref.value in Children(Detach(old(kids), Moved(c)), p)
      ensures kids == Inserted(Detach(old(kids), Moved(c)), p, Nodes(c), ref)
    {
      var gone := Moved(c);
      match c {
        case Single(n) =>
          Remove(n);
        case Collection(xs) =>
          DetachUnattached(kids, gone);
      }
      DetachWellFormed(old(kids), gone);
      InsertedWellFormed(kids, p, Nodes(c), ref);
      kids := Inserted(kids, p, Nodes(c), ref);
    }

    /** parent.appendChild(node), which is parent.insertBefore(node, null). */
    method AppendChild(p: Node, x: Node)
      requires Valid() && x != p
      modifies this
      ensures Valid()
      ensures kids == Inserted(Detach(old(kids), {x}), p, [x], None)
    {
      InsertBefore(p, Single(x), None);
    }

    /** parent.replaceChild(x, child): x is taken from its old parent and takes
        child's place; child is left without a parent. */
    method ReplaceChild(p: Node, x: Node, child: Node)
      requires Valid() && child in Children(kids, p) && x != child && x != p
      modifies this
      ensures Valid()
      ensures child in Children(Detach(old(kids), {x}), p)
      ensures kids == Replaced(Detach(old(kids), {x}), p, x, child)
      ensures !Attached(kids, child)
    {
      Remove(x);
      DetachWellFormed(old(kids), {x});
      ReplacedWellFormed(kids, p, x, child);
      kids := Replaced(kids, p, x, child);
    }
  }
}
