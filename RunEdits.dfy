/** Edits of a parent's children around a run of them: the list is cut as
    head + members + tail, and each lemma says where an edit leaves the cut. */
module RunEdits {
  import opened Dom
  import opened Ranges

  /** The next anchor's own nextSibling is the child after it; taking the
      anchor in moves the cut between members and tail by one. */
  lemma NextAnchorTaken(t: Tree, p: Node, h: seq<Node>, m: seq<Node>, tl: seq<Node>)
    requires WellFormed(t) && Children(t, p) == h + m + tl && tl != []
    ensures NextSiblingOf(t, tl[0]) == SiblingAfter(h + m + tl, tl[0]) == First(tl[1..])
    ensures Children(t, p) == h + (m + [tl[0]]) + tl[1..]
  {
    var k := h + m + tl;
    var i := |h| + |m|;
    assert k[i] == tl[0];
    SiblingsAt(t, p, i);
    ParentOfChild(t, p, tl[0]);
    if |tl| > 1 {
      assert k[i + 1] == tl[1];
    }
    assert k == h + (m + [tl[0]]) + tl[1..];
  }

  /** The previous anchor's own previousSibling is the child before it. */
  lemma PrevAnchorTaken(t: Tree, p: Node, h: seq<Node>, m: seq<Node>, tl: seq<Node>)
    requires WellFormed(t) && Children(t, p) == h + m + tl && h != []
    ensures PreviousSiblingOf(t, h[|h| - 1]) == SiblingBefore(h + m + tl, h[|h| - 1]) == Last(h[..|h| - 1])
    ensures Children(t, p) == h[..|h| - 1] + ([h[|h| - 1]] + m) + tl
  {
    var k := h + m + tl;
    var i := |h| - 1;
    assert k[i] == h[i];
    SiblingsAt(t, p, i);
    ParentOfChild(t, p, h[i]);
    if i > 0 {
      assert k[i - 1] == h[i - 1];
    }
    assert k == h[..i] + ([h[i]] + m) + tl;
  }

  /** Removing the member at index i splices it out of the run. */
  lemma SpliceOut(t: Tree, p: Node, h: seq<Node>, m: seq<Node>, tl: seq<Node>, i: int)
    requires NoDup(Children(t, p)) && Children(t, p) == h + m + tl && 0 <= i < |m|
    ensures m[i] in Children(t, p)
    ensures Children(Detach(t, {m[i]}), p) == h + (m[..i] + m[i + 1..]) + tl
  {
    var k := h + m + tl;
    var j := |h| + i;
    assert k[j] == m[i];
    ChildrenDetach(t, {m[i]}, p);
    FilterOne(k, j);
    assert Filter(k, {k[j]}) == Filter(k, {m[i]});
    SpliceSlices(h, m, tl, i);
  }

  lemma SpliceSlices(h: seq<Node>, m: seq<Node>, tl: seq<Node>, i: int)
    requires 0 <= i < |m|
    ensures (h + m + tl)[..|h| + i] + (h + m + tl)[|h| + i + 1..] == h + (m[..i] + m[i + 1..]) + tl
  {
    var k := h + m + tl;
    var j := |h| + i;
    assert k[..j] == h + m[..i];
    assert k[j + 1..] == m[i + 1..] + tl;
  }

  /** Taking nodes that are no members out of wherever they are leaves the
      run whole and drops them from the head and the tail. */
  lemma TakeOut(t: Tree, p: Node, h: seq<Node>, m: seq<Node>, tl: seq<Node>, gone: set<Node>)
    requires Children(t, p) == h + m + tl && forall x :: x in gone ==> x !in m
    ensures Children(Detach(t, gone), p) == Filter(h, gone) + m + Filter(tl, gone)
  {
    ChildrenDetach(t, gone, p);
    FilterAppend(h + m, tl, gone);
    FilterAppend(h, m, gone);
    FilterKeeps(m, gone);
  }

  /** The tree once the nodes of gone, none of them a member, have left their
      parents: still well formed, and the run sits between the head and the
      tail without those nodes. */
  lemma Gap(t: Tree, p: Node, h: seq<Node>, m: seq<Node>, tl: seq<Node>, gone: set<Node>)
    requires WellFormed(t) && Children(t, p) == h + m + tl && forall x :: x in gone ==> x !in m
    ensures WellFormed(Detach(t, gone))
    ensures forall x :: x in gone ==> !Attached(Detach(t, gone), x)
    ensures Children(Detach(t, gone), p) == Filter(h, gone) + m + Filter(tl, gone)
    ensures NoDup(Filter(h, gone) + m + Filter(tl, gone))
  {
    TakeOut(t, p, h, m, tl, gone);
    DetachWellFormed(t, gone);
    ChildrenNoDup(Detach(t, gone), p);
  }

  /** Inserting before the next anchor, or at the end when it is null, puts
      the nodes right after the members. */
  lemma AppendInGap(t: Tree, p: Node, h: seq<Node>, m: seq<Node>, tl: seq<Node>, xs: seq<Node>)
    requires Children(t, p) == h + m + tl && NoDup(h + m + tl)
    ensures First(tl).Some? ==> First(tl).value in Children(t, p)
    ensures Children(Inserted(t, p, xs, First(tl)), p) == h + (m + xs) + tl
    ensures h + (m + xs) + tl == h + m + (xs + tl)
  {
    InsertedAt(t, p, h + m, tl, xs, First(tl));
  }

  /** Inserting before the i-th member puts the nodes at index i of the run. */
  lemma InsertInRun(t: Tree, p: Node, h: seq<Node>, m: seq<Node>, tl: seq<Node>, i: int, xs: seq<Node>)
    requires Children(t, p) == h + m + tl && NoDup(h + m + tl) && 0 <= i < |m|
    ensures m[i] in Children(t, p)
    ensures Children(Inserted(t, p, xs, Some(m[i])), p) == h + (m[..i] + xs + m[i..]) + tl
  {
    var a, b := h + m[..i], m[i..] + tl;
    assert h + m + tl == a + b;
    assert First(b) == Some(m[i]);
    InsertedAt(t, p, a, b, xs, Some(m[i]));
    assert a + xs + b == h + (m[..i] + xs + m[i..]) + tl;
  }

  /** Inserting before the first member, or before the next anchor when
      there is none, puts the nodes right before the members. */
  lemma BeforeInGap(t: Tree, p: Node, h: seq<Node>, m: seq<Node>, tl: seq<Node>, xs: seq<Node>)
    requires Children(t, p) == h + m + tl && NoDup(h + m + tl)
    ensures First(m + tl) == (if m != [] then Some(m[0]) else First(tl))
    ensures First(m + tl).Some? ==> First(m + tl).value in Children(t, p)
    ensures Children(Inserted(t, p, xs, First(m + tl)), p) == (h + xs) + m + tl
  {
    assert h + m + tl == h + (m + tl);
    InsertedAt(t, p, h, m + tl, xs, First(m + tl));
  }

  /** Replacing the member at index i by x puts x at that index. */
  lemma ReplaceIn(t: Tree, p: Node, h: seq<Node>, m: seq<Node>, tl: seq<Node>, i: int, x: Node)
    requires WellFormed(t) && Children(t, p) == h + m + tl && 0 <= i < |m|
    ensures m[i] in Children(t, p)
    ensures Children(Replaced(t, p, x, m[i]), p) == h + m[i := x] + tl
  {
    var k := h + m + tl;
    var j := |h| + i;
    assert k[j] == m[i];
    ChildrenNoDup(t, p);
    IndexOfUnique(k, j);
    assert k[j := x] == h + m[i := x] + tl;
  }

  /** Removing the first member. */
  lemma DropFirst(t: Tree, p: Node, h: seq<Node>, m: seq<Node>, tl: seq<Node>)
    requires NoDup(Children(t, p)) && Children(t, p) == h + m + tl && m != []
    ensures m[0] in Children(t, p)
    ensures Children(Detach(t, {m[0]}), p) == h + m[1..] + tl
  {
    CutFirst(h, m, tl);
    ChildrenDetach(t, {m[0]}, p);
    FilterOne(h + m + tl, |h|);
  }

  /** The cut around the first member of a run. */
  lemma CutFirst(h: seq<Node>, m: seq<Node>, tl: seq<Node>)
    requires m != []
    ensures (h + m + tl)[|h|] == m[0]
    ensures (h + m + tl)[..|h|] + (h + m + tl)[|h| + 1..] == h + m[1..] + tl
  {
    var k := h + m + tl;
    assert k[..|h|] == h && k[|h| + 1..] == m[1..] + tl;
  }

  /** Detaching the nodes of xs one at a time. */
  lemma DetachMore(t: Tree, xs: seq<Node>, i: int)
    requires 0 <= i < |xs|
    ensures Detach(Detach(t, Moved(Collection(xs[..i]))), {xs[i]}) == Detach(t, Moved(Collection(xs[..i + 1])))
  {
    DetachDetach(t, Moved(Collection(xs[..i])), {xs[i]});
    assert xs[..i + 1] == xs[..i] + [xs[i]];
    assert Moved(Collection(xs[..i])) + {xs[i]} == Moved(Collection(xs[..i + 1]));
  }

  /** Detaching no node changes nothing. */
  lemma DetachNone(t: Tree)
    ensures Detach(t, Moved(Collection([]))) == t
  {
    assert Moved(Collection([])) == {};
    DetachUnattached(t, {});
  }

  /** One step of taking the members out in order: with m[..i] gone, the
      next one is the first of the run that is left. */
  lemma TakeNextMember(t0: Tree, t: Tree, p: Node, h: seq<Node>, m: seq<Node>, tl: seq<Node>, i: int)
    requires WellFormed(t) && 0 <= i < |m|
    requires Children(t, p) == h + m[i..] + tl && t == Detach(t0, Moved(Collection(m[..i])))
    ensures m[i] in Children(t, p)
    ensures Children(Detach(t, {m[i]}), p) == h + m[i + 1..] + tl
    ensures Detach(t, {m[i]}) == Detach(t0, Moved(Collection(m[..i + 1])))
  {
    var rest := m[i..];
    assert rest[0] == m[i] && rest[1..] == m[i + 1..];
    ChildrenNoDup(t, p);
    DropFirst(t, p, h, rest, tl);
    DetachMore(t0, m, i);
  }

  /** A prefix one longer is the prefix and the next element. */
  lemma PrefixGrows(m: seq<Node>, i: int)
    requires 0 <= i < |m|
    ensures m[..i + 1] == m[..i] + [m[i]]
  {
  }

  /** Once the whole run is gone, the cut holds nothing in the middle. */
  lemma RunDone(h: seq<Node>, m: seq<Node>, tl: seq<Node>)
    ensures m[..|m|] == m && h + m[|m|..] + tl == h + [] + tl
  {
  }

  /** replaceChild(y, m[i]) on the cut: y leaves wherever it was and takes
      the place of the i-th member. */
  lemma ReplaceMember(t: Tree, p: Node, h: seq<Node>, m: seq<Node>, tl: seq<Node>, i: int, y: Node)
    requires WellFormed(t) && Children(t, p) == h + m + tl && 0 <= i < |m| && y !in m
    ensures m[i] in Children(Detach(t, {y}), p)
    ensures Children(Replaced(Detach(t, {y}), p, y, m[i]), p) == Filter(h, {y}) + m[i := y] + Filter(tl, {y})
  {
    TakeOut(t, p, h, m, tl, {y});
    DetachWellFormed(t, {y});
    ReplaceIn(Detach(t, {y}), p, Filter(h, {y}), m, Filter(tl, {y}), i, y);
  }

  /** A node that is in no parent's list is in none of the head, the run
      and the tail, and is neither anchor. */
  lemma LooseNode(t: Tree, p: Node, h: seq<Node>, m: seq<Node>, tl: seq<Node>, x: Node)
    requires Children(t, p) == h + m + tl && !Attached(t, x)
    ensures x !in h && x !in m && x !in tl
    ensures Last(h) != Some(x) && First(tl) != Some(x)
  {
    if p in t {
      assert x !in t[p];
    }
    assert h != [] ==> h[|h| - 1] in h + m + tl;
    assert tl != [] ==> tl[0] in h + m + tl;
  }

  /** Inserting other nodes leaves a loose node loose. */
  lemma LooseAfterInsert(t: Tree, p: Node, ys: seq<Node>, ref: Option<Node>, x: Node)
    requires ref.Some? ==> ref.value in Children(t, p)
    requires !Attached(t, x) && x !in ys
    ensures !Attached(Inserted(t, p, ys, ref), x)
  {
    var k := Inserted(t, p, ys, ref);
    if p in t {
      assert x !in t[p];
    }
    forall q | q in k ensures x !in k[q] {
      if q != p {
        assert q in t && x !in t[q];
      }
    }
  }

  /** The list around index i after ys is inserted there. */
  lemma SliceAround(k: seq<Node>, i: int, ys: seq<Node>)
    requires 0 <= i <= |k|
    ensures (k[..i] + ys + k[i..])[..i + |ys|] == k[..i] + ys
    ensures (k[..i] + ys + k[i..])[i + |ys|..] == k[i..]
  {
  }

  /** After ys is inserted before ref, ref has moved right by |ys|. */
  lemma RefMoves(k: seq<Node>, ys: seq<Node>, x: Node)
    requires x in k && x !in ys
    ensures IndexOf(k[..IndexOf(k, x)] + ys + k[IndexOf(k, x)..], x) == IndexOf(k, x) + |ys|
  {
    var i := IndexOf(k, x);
    assert k[i..][0] == x;
    assert x !in k[..i];
    IndexOfConcat(k[..i] + ys, k[i..], x);
  }

  /** Inserted, for a non-empty insertion, gives p its new list. */
  lemma InsertedIs(t: Tree, p: Node, xs: seq<Node>, ref: Option<Node>)
    requires ref.Some? ==> ref.value in Children(t, p)
    requires xs != []
    ensures var i := if ref.None? then |Children(t, p)| else IndexOf(Children(t, p), ref.value);
      Inserted(t, p, xs, ref) == t[p := Children(t, p)[..i] + xs + Children(t, p)[i..]]
  {
  }

  /** Giving p a list twice keeps the second. */
  lemma Refill(h: seq<Node>, xs: seq<Node>, tl: seq<Node>)
    ensures h + [] + (xs + tl) == h + xs + tl
  {
  }

  /** Inserting before the first member, or into an empty run, puts the
      nodes in front. */
  lemma InFront(m: seq<Node>, xs: seq<Node>)
    ensures m != [] ==> IndexOf(m, m[0]) == 0 && m[..0] + xs + m[0..] == xs + m
    ensures m == [] ==> m + xs == xs + m
  {
  }

  lemma UpdateTwice(t: Tree, p: Node, a: seq<Node>, b: seq<Node>)
    ensures t[p := a][p := b] == t[p := b]
  {
  }

  /** The lists around a run with xs spliced in at index i. */
  lemma Spliced(a: seq<Node>, m: seq<Node>, xs: seq<Node>, b: seq<Node>, i: int)
    requires 0 <= i <= |m|
    ensures a + m + b == (a + m[..i]) + (m[i..] + b)
    ensures a + (m[..i] + xs + m[i..]) + b == (a + m[..i]) + xs + (m[i..] + b)
  {
    assert m == m[..i] + m[i..];
  }

  /** Appending is inserting at the end. */
  lemma AtEnd(m: seq<Node>, xs: seq<Node>)
    ensures m + xs == m[..|m|] + xs + m[|m|..]
  {
    assert m[..|m|] == m && m[|m|..] == [];
  }

  lemma Regroup(a: seq<Node>, ys: seq<Node>, zs: seq<Node>, b: seq<Node>)
    ensures (a + ys) + zs + b == a + (ys + zs) + b
  {
  }

  /** The list part of inserting twice before the same reference. */
  lemma SpliceTwice(k: seq<Node>, ys: seq<Node>, zs: seq<Node>, ref: Option<Node>)
    requires ref.Some? ==> ref.value in k && ref.value !in ys
    ensures var i := if ref.None? then |k| else IndexOf(k, ref.value);
      var k1 := k[..i] + ys + k[i..];
      && (ref.Some? ==> ref.value in k1)
      && var i1 := if ref.None? then |k1| else IndexOf(k1, ref.value);
      k1[..i1] + zs + k1[i1..] == k[..i] + (ys + zs) + k[i..]
  {
    var i := if ref.None? then |k| else IndexOf(k, ref.value);
    var k1 := k[..i] + ys + k[i..];
    if ref.Some? {
      RefMoves(k, ys, ref.value);
    }
    SliceAround(k, i, ys);
    Regroup(k[..i], ys, zs, k[i..]);
  }

  /** Inserting ys and then zs before the same reference is inserting ys + zs. */
  lemma InsertedTwice(t: Tree, p: Node, ys: seq<Node>, zs: seq<Node>, ref: Option<Node>)
    requires ref.Some? ==> ref.value in Children(t, p) && ref.value !in ys
    ensures ref.Some? ==> ref.value in Children(Inserted(t, p, ys, ref), p)
    ensures Inserted(Inserted(t, p, ys, ref), p, zs, ref) == Inserted(t, p, ys + zs, ref)
  {
    if ys == [] {
      assert ys + zs == zs;
    } else if zs == [] {
      assert ys + zs == ys;
    } else {
      var k := Children(t, p);
      var i := if ref.None? then |k| else IndexOf(k, ref.value);
      var k1 := k[..i] + ys + k[i..];
      InsertedIs(t, p, ys, ref);
      SpliceTwice(k, ys, zs, ref);
      var t1 := t[p := k1];
      assert Children(t1, p) == k1;
      InsertedIs(t1, p, zs, ref);
      InsertedIs(t, p, ys + zs, ref);
      var i1 := if ref.None? then |k1| else IndexOf(k1, ref.value);
      UpdateTwice(t, p, k1, k1[..i1] + zs + k1[i1..]);
    }
  }

  /** One step of appending the nodes of a DocumentFragment: with xs[..i]
      in place after the members, xs[i] is still loose, and appending it is
      inserting xs[..i + 1] at once. */
  lemma AppendStep(t: Tree, p: Node, h: seq<Node>, m: seq<Node>, tl: seq<Node>, xs: seq<Node>, i: int)
    requires WellFormed(t) && Children(t, p) == h + m + tl && 0 <= i < |xs|
    requires NoDup(xs) && forall x :: x in xs ==> !Attached(t, x)
    ensures xs[i] !in h && xs[i] !in m + xs[..i] && xs[i] !in tl
    ensures Last(h) != Some(xs[i]) && First(tl) != Some(xs[i])
    ensures First(tl).Some? ==> First(tl).value in Children(Inserted(t, p, xs[..i], First(tl)), p)
    ensures Detach(Inserted(t, p, xs[..i], First(tl)), {xs[i]}) == Inserted(t, p, xs[..i], First(tl))
    ensures Inserted(Inserted(t, p, xs[..i], First(tl)), p, [xs[i]], First(tl)) == Inserted(t, p, xs[..i + 1], First(tl))
  {
    var x := xs[i];
    LooseNode(t, p, h, m, tl, x);
    ChildrenNoDup(t, p);
    AppendInGap(t, p, h, m, tl, []);
    forall j | 0 <= j < i ensures xs[j] != x {
      NoDupAt(xs, j, i);
    }
    assert x !in xs[..i];
    if First(tl).Some? {
      assert First(tl).value !in xs[..i] by {
        forall j | 0 <= j < i ensures xs[j] != First(tl).value {
          LooseNode(t, p, h, m, tl, xs[j]);
        }
      }
    }
    LooseAfterInsert(t, p, xs[..i], First(tl), x);
    DetachUnattached(Inserted(t, p, xs[..i], First(tl)), {x});
    InsertedTwice(t, p, xs[..i], [x], First(tl));
    PrefixGrows(xs, i);
  }

  /** Where the member ref = m[r] is once xs[..j] sits before it. */
  lemma RunIndex(m: seq<Node>, xs: seq<Node>, r: int, j: int)
    requires NoDup(m) && 0 <= r < |m| && 0 <= j < |xs| && m[r] !in xs
    ensures IndexOf(m[..r] + xs[..j] + m[r..], m[r]) == r + j
    ensures (m[..r] + xs[..j] + m[r..])[..r + j] + [xs[j]] + (m[..r] + xs[..j] + m[r..])[r + j..]
      == m[..r] + xs[..j + 1] + m[r..]
  {
    var cn := m[..r] + xs[..j] + m[r..];
    forall l | 0 <= l < r ensures m[l] != m[r] {
      NoDupAt(m, l, r);
    }
    assert m[r] !in m[..r] + xs[..j];
    assert m[r..][0] == m[r];
    IndexOfConcat(m[..r] + xs[..j], m[r..], m[r]);
    assert cn[..r + j] == m[..r] + xs[..j] && cn[r + j..] == m[r..];
    PrefixGrows(xs, j);
  }

  /** One step of inserting the nodes of a DocumentFragment before the member
      ref = m[r]: with xs[..j] in place before it, xs[j] is still loose, and
      inserting it before ref is inserting xs[..j + 1] at once. */
  lemma InsertStep(t: Tree, p: Node, h: seq<Node>, m: seq<Node>, tl: seq<Node>, xs: seq<Node>, r: int, j: int)
    requires WellFormed(t) && Children(t, p) == h + m + tl && 0 <= r < |m| && 0 <= j < |xs|
    requires NoDup(xs) && forall x :: x in xs ==> !Attached(t, x)
    ensures xs[j] !in h && xs[j] !in m[..r] + xs[..j] + m[r..] && xs[j] !in tl
    ensures Last(h) != Some(xs[j]) && First(tl) != Some(xs[j])
    ensures IndexOf(m[..r] + xs[..j] + m[r..], m[r]) == r + j
    ensures (m[..r] + xs[..j] + m[r..])[..r + j] + [xs[j]] + (m[..r] + xs[..j] + m[r..])[r + j..]
      == m[..r] + xs[..j + 1] + m[r..]
    ensures m[r] in Children(Inserted(t, p, xs[..j], Some(m[r])), p)
    ensures Detach(Inserted(t, p, xs[..j], Some(m[r])), {xs[j]}) == Inserted(t, p, xs[..j], Some(m[r]))
    ensures Inserted(Inserted(t, p, xs[..j], Some(m[r])), p, [xs[j]], Some(m[r])) == Inserted(t, p, xs[..j + 1], Some(m[r]))
  {
    var x, ref := xs[j], m[r];
    LooseNode(t, p, h, m, tl, x);
    forall l | 0 <= l < j ensures xs[l] != x {
      NoDupAt(xs, l, j);
    }
    assert m == m[..r] + m[r..];
    assert x !in xs[..j] && x !in m[..r] && x !in m[r..];
    assert ref !in xs by {
      forall l | 0 <= l < |xs| ensures xs[l] != ref {
        LooseNode(t, p, h, m, tl, xs[l]);
      }
    }
    ChildrenNoDup(t, p);
    NoDupSplit(h + m + tl, |h|);
    assert (h + m + tl)[|h|..] == m + tl;
    NoDupSplit(m + tl, |m|);
    assert (m + tl)[..|m|] == m;
    RunIndex(m, xs, r, j);
    assert ref in Children(t, p);
    LooseAfterInsert(t, p, xs[..j], Some(ref), x);
    DetachUnattached(Inserted(t, p, xs[..j], Some(ref)), {x});
    InsertedTwice(t, p, xs[..j], [x], Some(ref));
    PrefixGrows(xs, j);
  }

  /** The run m grown by the first i nodes of xs, one node at a time. */
  lemma Grown(m: seq<Node>, xs: seq<Node>, i: int)
    requires 0 <= i <= |xs|
    ensures i == 0 ==> m + xs[..i] == m
    ensures i > 0 ==> m + xs[..i - 1] + [xs[i - 1]] == m + xs[..i]
    ensures i == |xs| ==> xs[..i] == xs
  {
    if i > 0 {
      assert xs[..i] == xs[..i - 1] + [xs[i - 1]];
    }
  }

  /** The run with none of xs inserted before its k-th member is the run
      itself; with all of them, the slices of xs are xs. */
  lemma RunAround(m: seq<Node>, xs: seq<Node>, k: int, j: int)
    requires 0 <= k <= |m| && (j == 0 || j == |xs|)
    ensures j == 0 ==> m[..k] + xs[..j] + m[k..] == m
    ensures j == |xs| ==> m[..k] + xs[..j] + m[k..] == m[..k] + xs + m[k..]
    ensures j == |xs| ==> xs[..j] == xs
  {
    if j == 0 {
      assert m[..k] + xs[..j] + m[k..] == m[..k] + m[k..];
    }
    if j == |xs| {
      assert xs[..j] == xs;
    }
  }

  /** The run of a list without duplicates has none. */
  lemma RunNoDup(h: seq<Node>, m: seq<Node>, tl: seq<Node>)
    requires NoDup(h + m + tl)
    ensures NoDup(m)
  {
    NoDupSplit(h + m + tl, |h|);
    assert (h + m + tl)[|h|..] == m + tl;
    NoDupSplit(m + tl, |m|);
    assert (m + tl)[..|m|] == m;
  }

  /** Nodes without a parent are none of the parent's children, so taking
      them out changes neither the tree nor the lists around the run. */
  lemma LooseKept(t: Tree, p: Node, h: seq<Node>, m: seq<Node>, tl: seq<Node>, xs: seq<Node>)
    requires Children(t, p) == h + m + tl && forall x :: x in xs ==> !Attached(t, x)
    ensures Filter(h, Moved(Collection(xs))) == h && Filter(tl, Moved(Collection(xs))) == tl
    ensures Detach(t, Moved(Collection(xs))) == t
  {
    forall x | x in xs ensures x !in h && x !in tl {
      LooseNode(t, p, h, m, tl, x);
    }
    FilterKeeps(h, Moved(Collection(xs)));
    FilterKeeps(tl, Moved(Collection(xs)));
    DetachUnattached(t, Moved(Collection(xs)));
  }

  /** The last of a list followed by the inserted nodes: the last inserted
      one, or the list's own last when nothing was inserted. */
  lemma LastOfJoin(a: seq<Node>, xs: seq<Node>)
    ensures Last(a + xs) == if xs == [] then Last(a) else Last(xs)
  {
    if xs == [] {
      assert a + xs == a;
    }
  }

  /** Nodes that are neither in the run nor its anchors, put right after the
      run once they have left their old places: the run keeps its place and
      the first of them is the new next anchor. */
  lemma AfterCut(t: Tree, p: Node, h: seq<Node>, m: seq<Node>, tl: seq<Node>, c: Content)
    requires WellFormed(t) && Children(t, p) == h + m + tl
    requires forall x :: x in Nodes(c) ==> x !in m && Some(x) != Last(h) && Some(x) != First(tl)
    ensures WellFormed(Detach(t, Moved(c)))
    ensures First(tl).Some? ==> First(tl).value in Children(Detach(t, Moved(c)), p)
    ensures Children(Inserted(Detach(t, Moved(c)), p, Nodes(c), First(tl)), p)
      == Filter(h, Moved(c)) + m + (Nodes(c) + Filter(tl, Moved(c)))
    ensures Last(Filter(h, Moved(c))) == Last(h) && First(Filter(tl, Moved(c))) == First(tl)
    ensures First(Nodes(c) + Filter(tl, Moved(c))) == NewNext(c, First(tl))
  {
    var gone := Moved(c);
    Gap(t, p, h, m, tl, gone);
    FilterLast(h, gone);
    FilterFirst(tl, gone);
    AppendInGap(Detach(t, gone), p, Filter(h, gone), m, Filter(tl, gone), Nodes(c));
    if Nodes(c) == [] {
      assert Nodes(c) + Filter(tl, gone) == Filter(tl, gone);
    }
  }

  /** Nodes that are not in the run nor its next anchor, put before the
      first member (or before the next anchor when the run is empty), land
      right after what is left of the list in front, and the last of them is
      the new last node before the run. */
  lemma BeforeCut(t: Tree, p: Node, h: seq<Node>, m: seq<Node>, tl: seq<Node>, c: Content)
    requires WellFormed(t) && Children(t, p) == h + m + tl
    requires forall x :: x in Nodes(c) ==> x !in m && Some(x) != First(tl)
    ensures First(m + tl) == (if m != [] then Some(m[0]) else First(tl))
    ensures First(m + tl).Some? ==> First(m + tl).value in Children(Detach(t, Moved(c)), p)
    ensures Children(Inserted(Detach(t, Moved(c)), p, Nodes(c), First(m + tl)), p)
      == (Filter(h, Moved(c)) + Nodes(c)) + m + Filter(tl, Moved(c))
    ensures Last(Filter(h, Moved(c)) + Nodes(c)) == NewPrevious(c, Last(h))
    ensures First(Filter(tl, Moved(c))) == First(tl)
  {
    var gone := Moved(c);
    Gap(t, p, h, m, tl, gone);
    FilterFirst(tl, gone);
    BeforeInGap(Detach(t, gone), p, Filter(h, gone), m, Filter(tl, gone), Nodes(c));
    LastOfJoin(Filter(h, gone), Nodes(c));
    if Nodes(c) == [] {
      FilterLast(h, gone);
    }
  }

  /** The run shares no node with the lists around it, and those lists
      joined have no duplicates either. */
  lemma OutOfRun(h: seq<Node>, m: seq<Node>, tl: seq<Node>)
    requires NoDup(h + m + tl)
    ensures forall x :: x in m ==> x !in h && x !in tl
    ensures NoDup(h + tl)
  {
    var k := h + m + tl;
    forall x | x in m ensures x !in h && x !in tl {
      var i :| 0 <= i < |m| && m[i] == x;
      assert k[|h| + i] == x;
      if x in h {
        var j :| 0 <= j < |h| && h[j] == x;
        assert k[j] == x;
        NoDupAt(k, j, |h| + i);
      }
      if x in tl {
        var j :| 0 <= j < |tl| && tl[j] == x;
        assert k[|h| + |m| + j] == x;
        NoDupAt(k, |h| + i, |h| + |m| + j);
      }
    }
    var s := h + tl;
    forall i, j | 0 <= i < j < |s| ensures Distinct(s, i, j) {
      var a := if i < |h| then i else i + |m|;
      var b := if j < |h| then j else j + |m|;
      assert s[i] == k[a] && s[j] == k[b];
      NoDupAt(k, a, b);
    }
  }

  /** Filtering out every node of a list leaves nothing. */
  lemma FilterAll(s: seq<Node>, gone: set<Node>)
    requires forall x :: x in s ==> x in gone
    ensures Filter(s, gone) == []
  {
  }

  /** Filtering the run out of a list without duplicates joins the parts
      around it. */
  lemma FilterRun(h: seq<Node>, m: seq<Node>, tl: seq<Node>)
    requires NoDup(h + m + tl)
    ensures Filter(h + m + tl, Moved(Collection(m))) == h + tl && NoDup(h + tl)
  {
    var gone := Moved(Collection(m));
    OutOfRun(h, m, tl);
    FilterAppend(h + m, tl, gone);
    FilterAppend(h, m, gone);
    FilterKeeps(h, gone);
    FilterKeeps(tl, gone);
    FilterAll(m, gone);
    assert h + [] == h;
  }

  /** Taking the whole run out leaves the lists around it joined. */
  lemma RunFiltered(t: Tree, p: Node, h: seq<Node>, m: seq<Node>, tl: seq<Node>)
    requires WellFormed(t) && Children(t, p) == h + m + tl
    ensures Children(Detach(t, Moved(Collection(m))), p) == h + tl && NoDup(h + tl)
  {
    ChildrenNoDup(t, p);
    ChildrenDetach(t, Moved(Collection(m)), p);
    FilterRun(h, m, tl);
  }

  /** ... and the other parents' lists as they were. */
  lemma OthersKept(t: Tree, p: Node, m: seq<Node>)
    requires WellFormed(t) && forall x :: x in m ==> x in Children(t, p)
    ensures forall q :: q in t && q != p ==> Detach(t, Moved(Collection(m)))[q] == t[q]
  {
    var gone := Moved(Collection(m));
    forall q | q in t && q != p ensures Detach(t, gone)[q] == t[q] {
      forall x | x in gone ensures x !in t[q] {
        assert SoleParent(t, p, q);
      }
      FilterKeeps(t[q], gone);
    }
  }

  /** A map that agrees with t everywhere but at p, given t's value at p, is t. */
  lemma Restored(t: Tree, d: Tree, p: Node, v: seq<Node>)
    requires p in t && d.Keys == t.Keys && v == t[p]
    requires forall q :: q in t && q != p ==> d[q] == t[q]
    ensures d[p := v] == t
  {
  }

  /** Taking the run out of the tree and inserting it again before the
      child that followed it gives the tree back: the DocumentFragment of
      getDocumentFragment, appended again, restores the document. */
  lemma {:induction false} RoundTrip(t: Tree, p: Node, h: seq<Node>, m: seq<Node>, tl: seq<Node>)
    requires WellFormed(t) && Children(t, p) == h + m + tl
    ensures First(tl).Some? ==> First(tl).value in Children(Detach(t, Moved(Collection(m))), p)
    ensures Inserted(Detach(t, Moved(Collection(m))), p, m, First(tl)) == t
  {
    var d := Detach(t, Moved(Collection(m)));
    RunFiltered(t, p, h, m, tl);
    if m == [] {
      DetachUnattached(t, Moved(Collection(m)));
    } else {
      OthersKept(t, p, m);
      InsertedAt(d, p, h, tl, m, First(tl));
      InsertedIs(d, p, m, First(tl));
      var r := Inserted(d, p, m, First(tl));
      Restored(t, d, p, r[p]);
    }
  }

  /** Nodes going into a list at a position other than the gap between gh and
      gt leave that gap where it was: the node before it and the node after
      it stay neighbours. */
  lemma ShiftedGap(gh: seq<Node>, gt: seq<Node>, x: seq<Node>, ns: seq<Node>, y: seq<Node>)
      returns (gh2: seq<Node>, gt2: seq<Node>)
    requires gh + gt == x + y && (|x| != |gh| || ns == [])
    ensures x + ns + y == gh2 + gt2 && Last(gh2) == Last(gh) && First(gt2) == First(gt)
  {
    var k := gh + gt;
    assert gh == k[..|gh|] && gt == k[|gh|..] && x == k[..|x|] && y == k[|x|..];
    if |x| < |gh| {
      gh2, gt2 := x + ns + k[|x|..|gh|], gt;
      assert y == k[|x|..|gh|] + gt;
    } else if |x| > |gh| {
      gh2, gt2 := gh, k[|gh|..|x|] + ns + y;
      assert x == gh + k[|gh|..|x|];
    } else {
      gh2, gt2 := gh, gt;
    }
  }

  /** Two disjoint runs gm and m of one list, where gm holds neither node next
      to m: once gm is filtered out, no position from the start of m to its
      end is where gm was. */
  lemma GapsApart(h: seq<Node>, m: seq<Node>, tl: seq<Node>, gh: seq<Node>, gm: seq<Node>, gt: seq<Node>, j: int)
    requires h + m + tl == gh + gm + gt && NoDup(h + m + tl) && gm != [] && 0 <= j <= |m|
    requires forall y :: y in gm ==> y !in m && Some(y) != Last(h) && Some(y) != First(tl)
    ensures |Filter(h, Moved(Collection(gm)))| + j != |gh|
  {
    var k, a, b := h + m + tl, |gh|, |h|;
    var gone := Moved(Collection(gm));
    assert forall i :: a <= i < a + |gm| ==> k[i] in gm;
    assert forall i :: b <= i < b + |m| ==> k[i] in m;
    assert Last(h) == if b > 0 then Some(k[b - 1]) else None;
    assert First(tl) == if b + |m| < |k| then Some(k[b + |m|]) else None;
    assert k[a] in gm;
    if a < b {
      assert a + |gm| < b;
      NoDupSplit(k, b);
      assert k[..b] == h;
      assert h == gh + gm + k[a + |gm|..b];
      FilterRun(gh, gm, k[a + |gm|..b]);
    } else {
      assert a > b + |m|;
      forall x | x in gone ensures x !in h {
        var i :| 0 <= i < |gm| && gm[i] == x;
        assert k[a + i] == x;
        if x in h {
          var c :| 0 <= c < |h| && h[c] == x;
          assert k[c] == x;
          NoDupAt(k, c, a + i);
        }
      }
      FilterKeeps(h, gone);
    }
  }

  /** Inserting into p leaves the list of every other parent as it was when
      the inserted nodes had no parent. */
  lemma InsertedElsewhere(t: Tree, p: Node, xs: seq<Node>, ref: Option<Node>, q: Node)
    requires ref.Some? ==> ref.value in Children(t, p)
    requires q != p
    ensures Children(Inserted(t, p, xs, ref), q) == Children(t, q)
  {
  }

  /** Another fragment's run gm, emptied out of the tree t0 and then inserted
      into the run m of p at index i, leaves behind a gap between gh and gt
      whose two sides are still neighbours afterwards: in p's list when the
      other fragment has the same parent (its gap is never the insertion
      point, as gm holds no member of m and neither node next to m), and
      trivially in another parent's list. */
  lemma GapSurvives(t0: Tree, t1: Tree, t2: Tree, p: Node, q: Node, h: seq<Node>, m: seq<Node>, tl: seq<Node>,
                    gh: seq<Node>, gm: seq<Node>, gt: seq<Node>, e: seq<Node>,
                    h1: seq<Node>, m2: seq<Node>, tl1: seq<Node>, i: int)
      returns (gh2: seq<Node>, gt2: seq<Node>)
    requires WellFormed(t0) && 0 <= i <= |m|
    requires Children(t0, p) == h + m + tl && Children(t0, q) == gh + gm + gt
    requires forall y :: y in gm ==> y !in m && Some(y) != Last(h) && Some(y) != First(tl)
    requires e == [] && Children(t1, q) == gh + e + gt
    requires h1 == Filter(h, Moved(Collection(gm))) && tl1 == Filter(tl, Moved(Collection(gm)))
    requires Children(t1, p) == h1 + m + tl1
    requires Children(t2, p) == h1 + m2 + tl1 && m2 == m[..i] + gm + m[i..]
    requires q != p ==> Children(t2, q) == Children(t1, q)
    ensures Children(t2, q) == gh2 + gt2 && Last(gh2) == Last(gh) && First(gt2) == First(gt)
  {
    assert gh + e + gt == gh + gt;
    if q != p {
      gh2, gt2 := gh, gt;
    } else {
      var x, y := h1 + m[..i], m[i..] + tl1;
      Spliced(h1, m, gm, tl1, i);
      assert Children(t1, p) == x + y;
      assert Children(t2, p) == x + gm + y;
      if gm != [] {
        ChildrenNoDup(t0, p);
        GapsApart(h, m, tl, gh, gm, gt, i);
      }
      gh2, gt2 := ShiftedGap(gh, gt, x, gm, y);
    }
  }

}
