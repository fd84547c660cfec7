/** The bookkeeping of a live fragment as a value: its member list and its two
    anchors, read against the children list k of its parent. */
module Ranges {
  import opened Dom
  import opened Exceptions

  /** members (_childNodes), prev (_previousSibling), next (_nextSibling). */
  datatype Range = Range(members: seq<Node>, prev: Option<Node>, next: Option<Node>)

  /** The members sit in k from index i on, prev is the node just before them
      and next the node just after them (null at either end of k). */
  predicate SpansAt(k: seq<Node>, r: Range, i: int)
  {
    && 0 <= i && i + |r.members| <= |k|
    && k[i..i + |r.members|] == r.members
    && r.prev == At(k, i - 1)
    && r.next == At(k, i + |r.members|)
  }

  /** The range invariant: there is such an index. */
  ghost predicate Spans(k: seq<Node>, r: Range)
  {
    exists i :: SpansAt(k, r, i)
  }

  /** A list cut in three spans its middle part, with the anchors that border it. */
  lemma SplitSpans(h: seq<Node>, m: seq<Node>, t: seq<Node>)
    ensures SpansAt(h + m + t, Range(m, Last(h), First(t)), |h|)
  {
    var k := h + m + t;
    assert k[|h|..|h| + |m|] == m;
    if h != [] {
      assert k[|h| - 1] == h[|h| - 1];
    }
    if t != [] {
      assert k[|h| + |m|] == t[0];
    }
  }

  /** prev.nextSibling is the first member, or next when there is none. */
  lemma PrevLinked(k: seq<Node>, r: Range, i: int)
    requires NoDup(k) && SpansAt(k, r, i) && r.prev.Some?
    ensures SiblingAfter(k, r.prev.value) == (if r.members == [] then r.next else First(r.members))
  {
    IndexOfUnique(k, i - 1);
    if r.members != [] {
      assert k[i..i + |r.members|][0] == k[i];
    }
  }

  /** next.previousSibling is the last member, or prev when there is none. */
  lemma NextLinked(k: seq<Node>, r: Range, i: int)
    requires NoDup(k) && SpansAt(k, r, i) && r.next.Some?
    ensures SiblingBefore(k, r.next.value) == (if r.members == [] then r.prev else Last(r.members))
  {
    var n := |r.members|;
    IndexOfUnique(k, i + n);
    if n > 0 {
      assert k[i..i + n][n - 1] == k[i + n - 1];
    }
  }

  /** Each member's nextSibling is the member after it. */
  lemma MembersLinked(k: seq<Node>, r: Range, i: int, j: int)
    requires NoDup(k) && SpansAt(k, r, i) && 0 <= j < |r.members| - 1
    ensures SiblingAfter(k, r.members[j]) == Some(r.members[j + 1])
  {
    var n := |r.members|;
    assert k[i..i + n][j] == k[i + j] && k[i..i + n][j + 1] == k[i + j + 1];
    IndexOfUnique(k, i + j);
  }

  /** In a list without duplicates, the anchors and the members are linked as
      DOM siblings: prev.nextSibling is the first member (next when there is
      none), each member's nextSibling is the member after it, and
      next.previousSibling is the last member (prev when there is none). */
  lemma SiblingsOfSpan(k: seq<Node>, r: Range)
    requires NoDup(k) && Spans(k, r)
    ensures r.prev.Some? ==> SiblingAfter(k, r.prev.value) == (if r.members == [] then r.next else First(r.members))
    ensures r.next.Some? ==> SiblingBefore(k, r.next.value) == (if r.members == [] then r.prev else Last(r.members))
    ensures forall j :: 0 <= j < |r.members| - 1 ==> SiblingAfter(k, r.members[j]) == Some(r.members[j + 1])
  {
    var i :| SpansAt(k, r, i);
    if r.prev.Some? {
      PrevLinked(k, r, i);
    }
    if r.next.Some? {
      NextLinked(k, r, i);
    }
    forall j | 0 <= j < |r.members| - 1 ensures SiblingAfter(k, r.members[j]) == Some(r.members[j + 1]) {
      MembersLinked(k, r, i, j);
    }
  }

  /** A range in a list without duplicates holds no duplicates and neither
      anchor is a member. */
  lemma SpanDistinct(k: seq<Node>, r: Range)
    requires NoDup(k) && Spans(k, r)
    ensures NoDup(r.members)
    ensures r.prev.Some? ==> r.prev.value !in r.members && r.prev != r.next
    ensures r.next.Some? ==> r.next.value !in r.members
  {
    var i :| SpansAt(k, r, i);
    var n := |r.members|;
    assert forall j :: 0 <= j < n ==> r.members[j] == k[i + j];
    forall a, b | 0 <= a < b < n ensures Distinct(r.members, a, b) {
      assert Distinct(k, i + a, i + b);
    }
    if r.prev.Some? {
      forall j | 0 <= j < n ensures r.members[j] != r.prev.value {
        assert Distinct(k, i - 1, i + j);
      }
      if r.next.Some? {
        assert Distinct(k, i - 1, i + n);
      }
    }
    if r.next.Some? {
      forall j | 0 <= j < n ensures r.members[j] != r.next.value {
        assert Distinct(k, i + j, i + n);
      }
    }
  }

  /** extend(node): grow by the next anchor (checked first) or the previous
      anchor; the new anchor is that node's sibling on the far side. Anything
      else, null included, is a NotFoundError. */
  function Extended(k: seq<Node>, r: Range, node: Option<Node>): Result<Range>
  {
    if node.Some? && node == r.next then
      Ok(Range(r.members + [node.value], r.prev, SiblingAfter(k, node.value)))
    else if node.Some? && node == r.prev then
      Ok(Range([node.value] + r.members, SiblingBefore(k, node.value), r.next))
    else
      Err(NotFoundError)
  }

  /** shrink(node): give up the first member (checked first) or the last
      member, which becomes the anchor on that side; anything else is a
      NotFoundError. */
  function Shrunk(r: Range, node: Option<Node>): Result<Range>
  {
    if node.Some? && node == First(r.members) then
      Ok(Range(r.members[1..], node, r.next))
    else if node.Some? && node == Last(r.members) then
      Ok(Range(r.members[..|r.members| - 1], r.prev, node))
    else
      Err(NotFoundError)
  }

  lemma ExtendAtNext(k: seq<Node>, r: Range, i: int)
    requires NoDup(k) && SpansAt(k, r, i) && r.next.Some?
    ensures SpansAt(k, Extended(k, r, r.next).value, i)
  {
    var n := |r.members|;
    IndexOfUnique(k, i + n);
    assert k[i..i + n + 1] == r.members + [r.next.value];
  }

  lemma ExtendAtPrev(k: seq<Node>, r: Range, i: int)
    requires NoDup(k) && SpansAt(k, r, i) && r.prev.Some? && r.prev != r.next
    ensures SpansAt(k, Extended(k, r, r.prev).value, i - 1)
  {
    var n := |r.members|;
    IndexOfUnique(k, i - 1);
    assert k[i - 1..i + n] == [r.prev.value] + r.members;
  }

  /** extend succeeds exactly on an anchor, keeps the range invariant, and
      fails on null, on a member and on any other node. */
  lemma ExtendedSpans(k: seq<Node>, r: Range, node: Option<Node>)
    requires NoDup(k) && Spans(k, r)
    ensures Extended(k, r, node).Ok? <==> node.Some? && (node == r.prev || node == r.next)
    ensures Extended(k, r, node).Ok? ==> Spans(k, Extended(k, r, node).value)
    ensures node.Some? && node.value in r.members ==> Extended(k, r, node) == Err(NotFoundError)
  {
    SpanDistinct(k, r);
    var i :| SpansAt(k, r, i);
    if node.Some? && node == r.next {
      ExtendAtNext(k, r, i);
    } else if node.Some? && node == r.prev {
      ExtendAtPrev(k, r, i);
    }
  }

  /** shrink succeeds exactly on the first or last member and keeps the range
      invariant. */
  lemma ShrunkSpans(k: seq<Node>, r: Range, node: Option<Node>)
    requires Spans(k, r)
    ensures Shrunk(r, node).Ok? <==> node.Some? && r.members != [] && (node == First(r.members) || node == Last(r.members))
    ensures Shrunk(r, node).Ok? ==> Spans(k, Shrunk(r, node).value)
  {
    var i :| SpansAt(k, r, i);
    if node.Some? && node == First(r.members) {
      ShrinkAtFirst(k, r, i);
    } else if node.Some? && node == Last(r.members) {
      ShrinkAtLast(k, r, i);
    }
  }

  /** Dropping the first member moves the start of the range one child on. */
  lemma ShrinkAtFirst(k: seq<Node>, r: Range, i: int)
    requires SpansAt(k, r, i) && r.members != []
    ensures SpansAt(k, Range(r.members[1..], First(r.members), r.next), i + 1)
  {
    var n := |r.members|;
    assert k[i..i + n][0] == k[i];
    assert k[i + 1..i + n] == r.members[1..];
  }

  /** Dropping the last member leaves the start of the range where it was. */
  lemma ShrinkAtLast(k: seq<Node>, r: Range, i: int)
    requires SpansAt(k, r, i) && r.members != []
    ensures SpansAt(k, Range(r.members[..|r.members| - 1], r.prev, Last(r.members)), i)
  {
    var n := |r.members|;
    assert k[i..i + n][n - 1] == k[i + n - 1];
    assert k[i..i + n - 1] == r.members[..n - 1];
  }

  /** extend(x) then shrink(x) gives the range back exactly when the range was
      not empty or x was the previous anchor: an empty range extended at its
      end ends up with x as its previous anchor instead. */
  lemma ShrinkUndoesExtend(k: seq<Node>, r: Range, x: Node)
    requires NoDup(k) && Spans(k, r) && Extended(k, r, Some(x)).Ok?
    ensures Shrunk(Extended(k, r, Some(x)).value, Some(x)) == Ok(r) <==> r.members != [] || Some(x) == r.prev
  {
    SpanDistinct(k, r);
    var i :| SpansAt(k, r, i);
    var e := Extended(k, r, Some(x)).value;
    if Some(x) == r.next {
      if r.members == [] {
        IndexOfUnique(k, i);
        assert e.members == [x];
        assert Shrunk(e, Some(x)).value.prev == Some(x) != r.prev;
      } else {
        assert e.members[0] == r.members[0] != x;
        assert e.members[..|e.members| - 1] == r.members;
      }
    } else {
      assert e.members[1..] == r.members;
    }
  }

  /** The anchor that before(c) sets, as written (livefragment.js:287-294): the
      node itself, or the DocumentFragment's lastChild, which is null for an
      empty DocumentFragment. */
  function NewPreviousAsWritten(c: Content): Option<Node>
  {
    match c
    case Single(n) => Some(n)
    case Collection(xs) => Last(xs)
  }

  /** The anchor that after(c) sets, as written (livefragment.js:301-308). */
  function NewNextAsWritten(c: Content): Option<Node>
  {
    match c
    case Single(n) => Some(n)
    case Collection(xs) => First(xs)
  }

  /** The previous anchor after before(c): the last inserted node, or the old
      anchor when nothing was inserted. */
  function NewPrevious(c: Content, prev: Option<Node>): Option<Node>
  {
    if Nodes(c) == [] then prev else Last(Nodes(c))
  }

  /** The next anchor after after(c): the first inserted node, or the old
      anchor when nothing was inserted. */
  function NewNext(c: Content, next: Option<Node>): Option<Node>
  {
    if Nodes(c) == [] then next else First(Nodes(c))
  }

  /** before(c) inserts the nodes of c between the previous anchor and the
      members; with the corrected anchor the range invariant holds after it. */
  lemma BeforeSpans(h: seq<Node>, m: seq<Node>, t: seq<Node>, c: Content)
    ensures Spans(h + Nodes(c) + m + t, Range(m, NewPrevious(c, Last(h)), First(t)))
  {
    var xs := Nodes(c);
    SplitSpans(h + xs, m, t);
    if xs == [] {
      assert h + xs == h;
    } else {
      assert (h + xs)[|h + xs| - 1] == xs[|xs| - 1];
    }
  }

  /** after(c) inserts the nodes of c between the members and the next anchor;
      with the corrected anchor the range invariant holds after it. */
  lemma AfterSpans(h: seq<Node>, m: seq<Node>, t: seq<Node>, c: Content)
    ensures Spans(h + m + Nodes(c) + t, Range(m, Last(h), NewNext(c, First(t))))
  {
    var xs := Nodes(c);
    SplitSpans(h, m, xs + t);
    assert h + m + (xs + t) == h + m + xs + t;
    if xs == [] {
      assert xs + t == t;
    }
  }

  /** The anchors as written lose the previous sibling: range [2] after node 1,
      before(empty DocumentFragment) inserts nothing, yet the fragment now
      claims to start at its parent's first child. */
  lemma BeforeAsWrittenBreaksSpan()
    ensures Spans([1, 2], Range([2], Some(1), None))
    ensures !Spans([1, 2], Range([2], NewPreviousAsWritten(Collection([])), None))
  {
    var k: seq<Node> := [1, 2];
    assert SpansAt(k, Range([2], Some(1), None), 1);
    forall i ensures !SpansAt(k, Range([2], None, None), i) {
      if 0 <= i && i + 1 <= |k| && k[i..i + 1] == [2] {
        assert k[i] == 2;
      }
    }
  }

  /** The same for after(empty DocumentFragment) and the next anchor. */
  lemma AfterAsWrittenBreaksSpan()
    ensures Spans([1, 2], Range([1], None, Some(2)))
    ensures !Spans([1, 2], Range([1], None, NewNextAsWritten(Collection([]))))
  {
    var k: seq<Node> := [1, 2];
    assert SpansAt(k, Range([1], None, Some(2)), 0);
    forall i ensures !SpansAt(k, Range([1], None, None), i) {
      if 0 <= i && i + 1 <= |k| && k[i..i + 1] == [1] {
        assert k[i] == 1;
      }
    }
  }
}
