/**
 * The splices of core/node.cpp and core/html_node.cpp exactly as they are
 * written, on the raw link fields of a few numbered nodes.  The rest of
 * the model uses the intended splices of module Tree; this module keeps
 * the written ones only to exhibit where the two part ways.
 */
module RawLinks {
  /** A pointer field: null, or the number of a node. */
  datatype Ptr = Null | To(id: nat)

  /** The four link fields of a node (node.h). */
  datatype Links = Links(parent: Ptr, next: Ptr, prev: Ptr, firstChild: Ptr)

  /** The link fields of every node, by number. */
  type Heap = map<nat, Links>

  /** The links of node `n`; a node missing from `h` reads as all null. */
  function Get(h: Heap, n: nat): (l: Links)
    ensures n in h ==> l == h[n]
  {
    if n in h then h[n] else Links(Null, Null, Null, Null)
  }

  // ---------------------------------------------------------------------
  // Field writes

  function SetParent(h: Heap, n: nat, p: Ptr): (h': Heap)
    ensures h'.Keys == h.Keys
  {
    if n in h then h[n := h[n].(parent := p)] else h
  }

  function SetNext(h: Heap, n: nat, p: Ptr): (h': Heap)
    ensures h'.Keys == h.Keys
  {
    if n in h then h[n := h[n].(next := p)] else h
  }

  function SetPrev(h: Heap, n: nat, p: Ptr): (h': Heap)
    ensures h'.Keys == h.Keys
  {
    if n in h then h[n := h[n].(prev := p)] else h
  }

  function SetFirstChild(h: Heap, n: nat, p: Ptr): (h': Heap)
    ensures h'.Keys == h.Keys
  {
    if n in h then h[n := h[n].(firstChild := p)] else h
  }

  // ---------------------------------------------------------------------
  // Look-ups (node.cpp:66-160)

  /** `while (last->next_sibling_) last = last->next_sibling_;`, at most `fuel` steps. */
  function WalkNext(h: Heap, n: nat, fuel: nat): (m: nat)
    decreases fuel
  {
    if fuel == 0 || Get(h, n).next.Null? then n else WalkNext(h, Get(h, n).next.id, fuel - 1)
  }

  /** `while (first->prev_sibling_ != last) first = first->prev_sibling_;`, at most `fuel` steps. */
  function WalkPrev(h: Heap, n: nat, last: Ptr, fuel: nat): (m: nat)
    decreases fuel
  {
    if fuel == 0 || Get(h, n).prev == last || Get(h, n).prev.Null? then n else WalkPrev(h, Get(h, n).prev.id, last, fuel - 1)
  }

  /**
   * `lastSibling()` (node.cpp:117-128): the back-link of the parent's
   * first child, or the end of the forward walk for a parentless node.
   * A walk longer than the number of nodes never ends in the source; it
   * stops here after that many steps.
   */
  function LastSibling(h: Heap, n: nat): (p: Ptr)
  {
    var P := Get(h, n).parent;
    if P.To? then
      (if Get(h, P.id).firstChild.To? then Get(h, Get(h, P.id).firstChild.id).prev else Null)
    else To(WalkNext(h, n, |h|))
  }

  /** `firstSibling()` (node.cpp:93-105): the parent's first child, or the end of the backward walk. */
  function FirstSibling(h: Heap, n: nat): (p: Ptr)
  {
    var P := Get(h, n).parent;
    if P.To? then Get(h, P.id).firstChild
    else To(WalkPrev(h, n, LastSibling(h, n), |h|))
  }

  /** `prevSibling()` (node.cpp:66-72): none for the first sibling, else the stored back-link. */
  function PrevSibling(h: Heap, n: nat): (p: Ptr)
  {
    if FirstSibling(h, n) == To(n) then Null else Get(h, n).prev
  }

  /** `isFirst()` (node.cpp:152-156): the back-link points at a node with no next sibling. */
  predicate IsFirst(h: Heap, n: nat)
  {
    Get(h, n).prev.To? && Get(h, Get(h, n).prev.id).next.Null?
  }

  /** `lastChild()` (node.cpp:148-151): the back-link of the first child. */
  function LastChild(h: Heap, n: nat): (p: Ptr)
  {
    if Get(h, n).firstChild.To? then Get(h, Get(h, n).firstChild.id).prev else Null
  }

  // ---------------------------------------------------------------------
  // Splices (node.cpp:46-187, html_node.cpp:45-70)

  /**
   * `detach()` as written (node.cpp:161-187).  When `n` has a previous
   * sibling only that sibling's forward link is stitched; the back-link
   * of the first sibling, which points at the last one, is not touched
   * even when `n` is that last one.
   */
  function Detach(h: Heap, n: nat): (h': Heap)
    ensures h'.Keys == h.Keys
    ensures n in h ==> h'[n].parent == Null && h'[n].next == Null && h'[n].prev == To(n)
  {
    var next, prev := Get(h, n).next, PrevSibling(h, n);
    var h1 :=
      if prev.To? then
        var a := SetNext(h, prev.id, next);
        if next.To? then SetPrev(a, next.id, prev) else a
      else
        var P := Get(h, n).parent;
        var a := if P.To? then SetFirstChild(h, P.id, next) else h;
        if next.To? then SetPrev(a, next.id, Get(h, n).prev) else a;
    SetPrev(SetNext(SetParent(h1, n, Null), n, Null), n, To(n))
  }

  /** `nextSibling(s)` as written (node.cpp:46-65): `s` is detached and linked in after `t`. */
  function InsertAfter(h: Heap, t: nat, s: nat): (h': Heap)
    ensures h'.Keys == h.Keys
  {
    var d := Detach(h, s);
    var a := SetPrev(d, s, To(t));
    var b := SetNext(a, s, Get(a, t).next);
    var c :=
      if Get(b, t).next.To? then
        SetPrev(b, Get(b, t).next.id, To(s))
      else
        var first := FirstSibling(b, t);
        if first.To? then SetPrev(b, first.id, To(s)) else b;
    var e := SetNext(c, t, To(s));
    SetParent(e, s, Get(e, t).parent)
  }

  /** `prevSibling(s)` as written (node.cpp:73-92): `s` is detached and linked in before `t`. */
  function InsertBefore(h: Heap, t: nat, s: nat): (h': Heap)
    ensures h'.Keys == h.Keys
  {
    var d := Detach(h, s);
    var a := SetPrev(d, s, Get(d, t).prev);
    var b := SetNext(a, s, To(t));
    var c :=
      if IsFirst(b, t) then
        (if Get(b, t).parent.To? then SetFirstChild(b, Get(b, t).parent.id, To(s)) else b)
      else if Get(b, t).prev.To? then
        SetNext(b, Get(b, t).prev.id, To(s))
      else b;
    var e := SetPrev(c, t, To(s));
    SetParent(e, s, Get(e, t).parent)
  }

  /** `firstSibling(s)` as written (node.cpp:112-116): `s` is put before the current first sibling. */
  function InsertFirstSibling(h: Heap, t: nat, s: nat): (h': Heap)
    ensures h'.Keys == h.Keys
  {
    var first := FirstSibling(h, t);
    if first.To? then InsertBefore(h, first.id, s) else h
  }

  /** `lastSibling(s)` as written (node.cpp:135-139): `s` is put after the current last sibling. */
  function InsertLastSibling(h: Heap, t: nat, s: nat): (h': Heap)
    ensures h'.Keys == h.Keys
  {
    var last := LastSibling(h, t);
    if last.To? then InsertAfter(h, last.id, s) else h
  }

  /**
   * `HtmlNode::append(child)` as written (html_node.cpp:45-57): the child
   * is detached, given `p` as parent, and linked after `lastChild()`.
   */
  function Append(h: Heap, p: nat, c: nat): (h': Heap)
    ensures h'.Keys == h.Keys
  {
    var d := Detach(h, c);
    var a := SetParent(d, c, To(p));
    if Get(a, p).firstChild.Null? then
      SetFirstChild(a, p, To(c))
    else
      var last := LastChild(a, p);
      if last.To? then InsertAfter(a, last.id, c) else a
  }

  // ---------------------------------------------------------------------
  // What the written splices do to a parent with two children

  /** Node 0 is a parent whose children are node 1 and then node 2. */
  function TwoChildren(): (h: Heap)
  {
    map[0 := Links(Null, Null, Null, To(1)),
        1 := Links(To(0), To(2), To(2), Null),
        2 := Links(To(0), Null, To(1), Null)]
  }

  /**
   * Detaching the last child leaves the first child's back-link on it:
   * node 1 now has no next sibling, yet its back-link, which should name
   * the last child (node 1 itself), still names the detached node 2, so
   * `lastChild()` of the parent answers node 2.
   */
  lemma StaleBackLink()
    ensures var h := Detach(TwoChildren(), 2);
      && h[0].firstChild == To(1) && h[1].next == Null
      && h[1].prev == To(2) && LastChild(h, 0) == To(2)
  {
  }

  /** The same two nodes once node 2 is detached as written: node 1 still points back at it. */
  function Stale(): (h: Heap)
    ensures 0 in h && 1 in h
    ensures h[0] == Links(Null, Null, Null, To(1)) && h[1] == Links(To(0), Null, To(2), Null)
  {
    map[0 := Links(Null, Null, Null, To(1)),
        1 := Links(To(0), Null, To(2), Null),
        2 := Links(Null, Null, To(2), Null)]
  }

  /** Detaching the last child as written gives `Stale()`. */
  lemma DetachedStale(h0: Heap)
    requires h0 == TwoChildren()
    ensures Detach(h0, 2) == Stale()
  {
    assert PrevSibling(h0, 2) == To(1);
  }

  /** `append` of node 2 to node 0 from `Stale()` links node 2 after what `lastChild()` names: itself. */
  lemma AppendStale(h1: Heap)
    requires h1 == Stale()
    ensures Append(h1, 0, 2) == InsertAfter(h1[2 := Links(To(0), Null, To(2), Null)], 2, 2)
  {
    DetachLoose(h1, 2);
    var a := SetParent(h1, 2, To(0));
    assert a == h1[2 := Links(To(0), Null, To(2), Null)];
    assert a[0].firstChild == To(1) && LastChild(a, 0) == To(2);
  }

  /** Node 2 linked after itself: the detach finds it behind itself and it ends its own next sibling. */
  lemma AfterItself(h1: Heap)
    requires h1 == Stale()
    ensures InsertAfter(h1[2 := Links(To(0), Null, To(2), Null)], 2, 2) == h1[2 := Links(Null, To(2), To(2), Null)]
  {
    var a := h1[2 := Links(To(0), Null, To(2), Null)];
    assert PrevSibling(a, 2) == To(2);
    assert Detach(a, 2) == h1;
    DetachLoose(h1, 2);
    assert FirstSibling(h1, 2) == To(2);
  }

  /**
   * Appending the detached node back to its parent then links it after
   * itself: it ends its own next sibling and parentless, and the parent
   * keeps node 1 alone.
   */
  lemma AppendAfterDetachLoops(h0: Heap)
    requires h0 == TwoChildren()
    ensures var h := Append(Detach(h0, 2), 0, 2);
      && h[2].next == To(2) && h[2].parent == Null
      && h[0].firstChild == To(1) && h[1].next == Null
  {
    DetachedStale(h0);
    var h1 := Detach(h0, 2);
    AppendStale(h1);
    AfterItself(h1);
  }

  /** Detaching a node that is already a parentless singleton changes nothing. */
  lemma DetachLoose(h: Heap, n: nat)
    requires n in h && h[n].parent == Null && h[n].next == Null && h[n].prev == To(n)
    ensures Detach(h, n) == h
  {
    assert LastSibling(h, n) == To(n);
    assert PrevSibling(h, n) == Null;
    assert h[n := h[n]] == h;
  }

  /**
   * `firstSibling(s)` with `s` already the first sibling puts `s` before
   * itself: node 1 ends its own next sibling, parentless, and the parent
   * keeps node 2 alone.
   */
  lemma FirstBeforeItself()
    ensures var h := InsertFirstSibling(TwoChildren(), 1, 1);
      && h[1].next == To(1) && h[1].parent == Null
      && h[0].firstChild == To(2) && h[2].next == Null
  {
  }

  /**
   * `lastSibling(s)` with `s` already the last sibling puts `s` after
   * itself: node 2 ends its own next sibling and parentless.
   */
  lemma LastAfterItself()
    ensures var h := InsertLastSibling(TwoChildren(), 2, 2);
      && h[2].next == To(2) && h[2].parent == Null
      && h[0].firstChild == To(1) && h[1].next == Null
  {
  }
}
