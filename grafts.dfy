/** How a forest changes when copies are appended to a node that already has a place. */
module Growth {
  import opened Tree
  import opened Snapshot
  import opened Standing

  /** Every node of `E` is in `G`, with the parent it had in `E`. */
  ghost predicate ParentsKept(E: Forest, G: Forest)
  {
    Domains(E) && Domains(G) && E.nodes <= G.nodes && forall y | y in E.nodes :: G.par[y] == E.par[y]
  }

  /** No node at or below `c` in `G` is a node of `E`. */
  ghost predicate NewBelow(E: Forest, G: Forest, c: Node)
  {
    Wf(G) && c in G.nodes && forall y | y in G.nodes && Under(G, c, y) :: y !in E.nodes
  }

  /** `C` grows `E` by the root `c`, a clone whose attributes `BC` holds with those of `B`. */
  ghost predicate Sprouted(E: Forest, B: Table, C: Forest, BC: Table, c: Node)
  {
    && Wf(E) && Wf(C) && Root(C, c) && c !in E.nodes && Grows(E, C) && Keeps(B, BC)
    && BC.Keys == C.nodes
  }

  /** `G` is `E` with the new node `c` added as the last child of `t`, nothing else of `E` moving. */
  ghost predicate Added(E: Forest, G: Forest, t: Node, c: Node)
  {
    && Wf(E) && t in E.nodes && c !in E.nodes && NewBelow(E, G, c) && ParentsKept(E, G)
    && G.kids[t] == E.kids[t] + [c] && G.par[c] == t
    && Outside(E, G, t)
  }

  /**
   * The loop of `Grafts.Assign` after `k` rounds, apart from the heap: the
   * children of `r` are its children in `F`, read as `base`, followed by
   * copies of the first `k` children of `x`, and `node` is the next child of
   * `x`.
   */
  ghost predicate Paste(F: Forest, A: Table, x: Node, want: seq<Doc>, k: nat, node: Node?,
                        r: Node, base: seq<Doc>, G: Forest, B: Table)
  {
    && Walk(F, A, x, want, k, node) && Wf(G) && B.Keys == G.nodes && r in F.nodes && !r.kind.Text?
    && x != r && !Under(F, x, r)
    && Outside(F, G, r) && ParentsKept(F, G) && Keeps(A, B)
    && base == SnapAll(F, A, r, F.kids[r])
    && SnapAll(G, B, r, G.kids[r]) == base + Copies(want[..k])
  }

  /** The same, with the forest `G` on the heap. */
  ghost predicate Pasting(F: Forest, A: Table, x: Node, want: seq<Doc>, k: nat, node: Node?,
                          r: Node, base: seq<Doc>, G: Forest, B: Table)
    reads G.nodes`parent, G.nodes`next, G.nodes`prev, G.nodes`firstChild, G.nodes`attrs
  {
    Paste(F, A, x, want, k, node, r, base, G, B) && Source(G, B, r)
  }
}

/**
 * The copy constructor and the assignment operator of an element
 * (html_node.cpp:21-44): both append a clone of each child of the other
 * element, the first to a new element, the second to an existing one.
 */
module Grafts {
  import opened Tree
  import opened Snapshot
  import opened Standing
  import opened Stages
  import opened Growth
  import Cloning

  /**
   * `HtmlNode(const HtmlNode& other)` (html_node.cpp:21-32): a new element
   * with the tag of `x` and copies of its children, but none of its
   * attributes.  The self-copy guard of html_node.cpp:24-26 cannot fire for
   * an object under construction.
   */
  method CopyOf(ghost F: Forest, ghost A: Table, x: Node) returns (r: Node, ghost G: Forest, ghost B: Table)
    requires Source(F, A, x) && !x.kind.Text?
    ensures Cloned(F, A, G, B, r) && fresh(r)
    ensures Snap(G, B, r) == Copy(Snap(F, A, x)).(attrs := map[])
  {
    r, G, B := Cloning.CopyElement(F, A, x, map[]);
  }

  // ---------------------------------------------------------------------
  // Ancestry in a forest whose old nodes keep their parents

  /** Nodes keep their ancestors when every old node keeps its parent. */
  lemma {:induction false} UnderKept(E: Forest, G: Forest, a: Node, y: Node)
    requires Wf(E) && Wf(G) && ParentsKept(E, G) && y in E.nodes
    ensures Under(G, a, y) == Under(E, a, y)
    decreases E.level[y]
  {
    if y != a && E.par[y] != null {
      UnderKept(E, G, a, E.par[y]);
    }
  }

  /** Only nodes of `E` are ancestors of nodes of `E`. */
  lemma {:induction false} UnderIn(E: Forest, a: Node, y: Node)
    requires Wf(E) && y in E.nodes && Under(E, a, y)
    ensures a in E.nodes
    decreases E.level[y]
  {
    if y != a {
      UnderIn(E, a, E.par[y]);
    }
  }

  /** A node that is not in `E` is no ancestor of a node of `E`. */
  lemma NewNotAbove(E: Forest, G: Forest, c: Node, y: Node)
    requires Wf(E) && Wf(G) && ParentsKept(E, G) && y in E.nodes && c !in E.nodes
    ensures !Under(G, c, y)
  {
    UnderKept(E, G, c, y);
    if Under(E, c, y) {
      UnderIn(E, c, y);
    }
  }

  // ---------------------------------------------------------------------
  // One append of a clone

  /**
   * `t.append(s->clone())` (html_node.cpp:29, 40): a clone of `s` becomes
   * the last child of the element `t`, whose children end at `head` and
   * `tail`.  Nothing else of the forest moves and no attribute changes.
   */
  method AppendClone(ghost E: Forest, ghost B: Table, t: Node, s: Node, ghost head: Node, ghost tail: Node)
    returns (c: Node, ghost G: Forest, ghost BG: Table)
    requires Source(E, B, s) && t in E.nodes && !t.kind.Text? && EndsAre(E, t, head, tail)
    modifies t`firstChild, head`parent, head`next, head`prev, tail`parent, tail`next, tail`prev
    ensures fresh(c) && Source(G, BG, t) && Keeps(B, BG) && Added(E, G, t, c)
    ensures Snap(G, BG, c) == Copy(Snap(E, B, s))
    ensures EndsAre(G, t, if E.kids[t] == [] then c else head, c)
  {
    ghost var C: Forest, BC: Table;
    c, C, BC := Cloning.Clone(E, B, s);
    Hangable(E, B, C, BC, t, c);
    G := Cloning.AppendRoot(C, t, c, head, tail);
    BG := BC;
    HungOn(E, B, C, BC, t, c, head, tail, G);
  }

  /** The clone `c` may be appended to `t`, whose children are those it had in `E`. */
  lemma Hangable(E: Forest, B: Table, C: Forest, BC: Table, t: Node, c: Node)
    requires Wf(E) && Cloned(E, B, C, BC, c) && t in E.nodes && !t.kind.Text?
    ensures Appendable(C, t, c) && C.kids[t] == E.kids[t] && Sprouted(E, B, C, BC, c)
  {
    ParentsGrow(E, C);
    NewNotAbove(E, C, c, t);
  }

  lemma ParentsGrow(E: Forest, C: Forest)
    requires Grows(E, C)
    ensures ParentsKept(E, C)
  {
  }

  /** The forest once the clone `c` hangs below `t`. */
  lemma HungOn(E: Forest, B: Table, C: Forest, BC: Table, t: Node, c: Node, head: Node, tail: Node, G: Forest)
    requires Sprouted(E, B, C, BC, c) && t in E.nodes && !t.kind.Text? && EndsAre(E, t, head, tail)
    requires AppendedTo(C, t, c, G) && Tabled(C.nodes, BC)
    ensures Source(G, BC, t) && Added(E, G, t, c) && Snap(G, BC, c) == Snap(C, BC, c)
    ensures EndsAre(G, t, if E.kids[t] == [] then c else head, c)
  {
    Cloning.AppendedPlaces(C, t, c);
    ParentsGrow(E, C);
    HungParents(E, C, G, t, c);
    HungBelow(E, C, G, t, c);
    HungSnap(C, BC, G, t, c);
    KidsOf(E, t);
    Cloning.EndsSnoc(E.kids[t], c, t, head, tail);
  }

  lemma HungParents(E: Forest, C: Forest, G: Forest, t: Node, c: Node)
    requires Domains(G) && ParentsKept(E, C) && Grows(E, C) && c !in E.nodes && t in E.nodes
    requires c in C.nodes && G.nodes == C.nodes && G.par == C.par[c := t]
    requires forall y | y in C.nodes && y != t :: G.kids[y] == C.kids[y]
    requires forall y | y in C.nodes && y != c && C.par[y] != t :: G.chain[y] == C.chain[y]
    ensures ParentsKept(E, G) && Outside(E, G, t)
  {
    forall y | y in E.nodes
      ensures G.par[y] == E.par[y]
    {
      assert y != c;
    }
    forall y | y in E.nodes && E.par[y] != t
      ensures G.chain[y] == E.chain[y]
    {
      assert y != c && C.par[y] == E.par[y];
    }
  }

  /** Only new nodes lie below the clone once it hangs below `t`. */
  lemma HungBelow(E: Forest, C: Forest, G: Forest, t: Node, c: Node)
    requires Wf(E) && Wf(C) && Wf(G) && ParentsKept(E, C) && ParentsKept(E, G) && c !in E.nodes && t in E.nodes
    requires c in C.nodes && G.nodes == C.nodes
    ensures NewBelow(E, G, c)
  {
    forall y | y in G.nodes && Under(G, c, y)
      ensures y !in E.nodes
    {
      if y in E.nodes {
        NewNotAbove(E, G, c, y);
      }
    }
  }

  /** The clone reads the same once it hangs below `t`, which is not below it. */
  lemma HungSnap(C: Forest, BC: Table, G: Forest, t: Node, c: Node)
    requires Wf(C) && Wf(G) && c in C.nodes && t in C.nodes && G.nodes == C.nodes && !Under(C, c, t)
    requires forall y | y in C.nodes && y != t :: G.kids[y] == C.kids[y]
    ensures Snap(G, BC, c) == Snap(C, BC, c)
  {
    SnapFrame(C, BC, G, BC, c);
  }

  // ---------------------------------------------------------------------
  // Assignment

  /**
   * `r = x` (html_node.cpp:33-44): unless `r` is `x`, a clone of each child
   * of `x` is appended to `r`, after the children `r` already has.  Nothing
   * is removed from `r`, its attributes stay, and `x` is left as it was.
   * `head` and `tail` are the ends of the children of `r`.
   */
  method Assign(ghost F: Forest, ghost A: Table, r: Node, x: Node, ghost head: Node, ghost tail: Node)
    returns (ghost G: Forest, ghost B: Table)
    requires Source(F, A, x) && r in F.nodes && !r.kind.Text? && !x.kind.Text? && EndsAre(F, r, head, tail)
    requires r != x ==> !Under(F, x, r)
    modifies r`firstChild, head`parent, head`next, head`prev, tail`parent, tail`next, tail`prev
    ensures r == x ==> G == F && B == A
    ensures Source(G, B, r) && Keeps(A, B) && Outside(F, G, r) && ParentsKept(F, G)
    ensures r != x ==> Snap(G, B, r) == Snap(F, A, r).(kids := Snap(F, A, r).kids + Copies(Snap(F, A, x).kids))
    ensures Snap(G, B, x) == Snap(F, A, x)
  {
    if r == x {
      G, B := F, A;
      return;
    }
    ghost var want := SnapAll(F, A, x, F.kids[x]);
    ghost var base := SnapAll(F, A, r, F.kids[r]);
    Cloning.Children(F, A, x);
    StartPasting(F, A, x, want, r, base);
    var node := x.firstChild;
    ghost var k := 0;
    G, B := F, A;
    ghost var h, t := head, tail;
    while node != null
      invariant Pasting(F, A, x, want, k, node, r, base, G, B)
      invariant EndsAre(G, r, h, t) && (h == head || fresh(h)) && (t == tail || fresh(t))
      decreases |want| - k
    {
      PasteReady(F, A, x, want, k, node, r, base, G, B);
      var c;
      ghost var G', B';
      c, G', B' := AppendClone(G, B, r, node, h, t);
      Pasted(F, A, x, want, k, node, r, base, G, B, G', B', c);
      h, t := if G.kids[r] == [] then c else h, c;
      k := k + 1;
      node := node.next;
      G, B := G', B';
    }
    Assigned(F, A, x, want, k, r, base, G, B);
  }

  /** The loop of `Assign` before its first round. */
  lemma StartPasting(F: Forest, A: Table, x: Node, want: seq<Doc>, r: Node, base: seq<Doc>)
    requires Source(F, A, x) && r in F.nodes && !r.kind.Text? && x != r && !Under(F, x, r)
    requires Walk(F, A, x, want, 0, x.firstChild) && base == SnapAll(F, A, r, F.kids[r])
    ensures Pasting(F, A, x, want, 0, x.firstChild, r, base, F, A)
  {
    assert want[..0] == [];
    assert base + Copies([]) == base;
  }

  /** The next child of `x` reads as it did in `F`. */
  lemma PasteReady(F: Forest, A: Table, x: Node, want: seq<Doc>, k: nat, node: Node, r: Node, base: seq<Doc>,
                   G: Forest, B: Table)
    requires Pasting(F, A, x, want, k, node, r, base, G, B)
    ensures k < |want| && node == F.kids[x][k] && Source(G, B, node) && want[k] == Snap(G, B, node)
  {
    KidsOf(F, x);
    SnapAllAt(F, A, x, F.kids[x], k);
    forall y | y in F.nodes && Under(F, node, y)
      ensures y in G.nodes && G.kids[y] == F.kids[y] && AttrsAt(B, y) == AttrsAt(A, y)
    {
      UnderParent(F, node, y);
      assert y != r;
    }
    SnapFrame(F, A, G, B, node);
  }

  /** One round of the loop of `Assign`. */
  lemma Pasted(F: Forest, A: Table, x: Node, want: seq<Doc>, k: nat, node: Node, r: Node, base: seq<Doc>,
               G: Forest, B: Table, G': Forest, B': Table, c: Node)
    requires Paste(F, A, x, want, k, node, r, base, G, B)
    requires k < |want| && node == F.kids[x][k] && want[k] == Snap(G, B, node)
    requires Source(G', B', r) && Keeps(B, B') && Added(G, G', r, c) && Snap(G', B', c) == Copy(Snap(G, B, node))
    ensures Pasting(F, A, x, want, k + 1, node.next, r, base, G', B')
  {
    PastedShape(F, G, G', r, c);
    PastedSnap(G, B, G', B', r, c);
    TakeOneMore(want, k);
    CopiesSnoc(want[..k], want[k]);
    Assoc(base, Copies(want[..k]), Copy(want[k]));
    PastedWalk(F, G', x, k, r);
  }

  lemma Assoc<T>(a: seq<T>, b: seq<T>, z: T)
    ensures (a + b) + [z] == a + (b + [z])
  {
  }

  /** Nodes of `F` other than `r` keep their place through one more append to `r`. */
  lemma PastedShape(F: Forest, G: Forest, G': Forest, r: Node, c: Node)
    requires Wf(F) && Outside(F, G, r) && ParentsKept(F, G) && Added(G, G', r, c)
    ensures Outside(F, G', r) && ParentsKept(F, G')
  {
  }

  /** The children of `r` read as before, followed by the new one. */
  lemma PastedSnap(G: Forest, B: Table, G': Forest, B': Table, r: Node, c: Node)
    requires Wf(G) && B.Keys == G.nodes && Keeps(B, B') && Added(G, G', r, c)
    ensures SnapAll(G', B', r, G'.kids[r]) == SnapAll(G, B, r, G.kids[r]) + [Snap(G', B', c)]
  {
    KidsOf(G, r);
    KidsOf(G', r);
    forall k, y | k in G.kids[r] && y in G.nodes && Under(G, k, y)
      ensures y in G'.nodes && G'.kids[y] == G.kids[y] && AttrsAt(B', y) == AttrsAt(B, y)
    {
      UnderLevel(G, k, y);
    }
    SnapAllFrame(G, B, G', B', r, G.kids[r]);
    SnapAllSnoc(G', B', r, G.kids[r], c);
  }

  /** The walk over the children of `x` goes on in a forest where only the children of `r` grew. */
  lemma PastedWalk(F: Forest, G: Forest, x: Node, k: nat, r: Node)
    requires Wf(F) && Valid(G) && Outside(F, G, r) && x in F.nodes && x != r && k < |F.kids[x]|
    ensures F.kids[x][k].next == (if k + 1 < |F.kids[x]| then F.kids[x][k + 1] else null)
  {
    KidsOf(F, x);
    var y := F.kids[x][k];
    assert G.chain[y] == F.kids[x];
    assert G.chain[y][k] == y;
  }

  /** What `Assign` leaves once every child of `x` is copied. */
  lemma Assigned(F: Forest, A: Table, x: Node, want: seq<Doc>, k: nat, r: Node, base: seq<Doc>, G: Forest, B: Table)
    requires Pasting(F, A, x, want, k, null, r, base, G, B)
    ensures Snap(G, B, r) == Snap(F, A, r).(kids := Snap(F, A, r).kids + Copies(Snap(F, A, x).kids))
    ensures Snap(G, B, x) == Snap(F, A, x)
  {
    assert want[..k] == want;
    forall y | y in F.nodes && Under(F, x, y)
      ensures y in G.nodes && G.kids[y] == F.kids[y] && AttrsAt(B, y) == AttrsAt(A, y)
    {
      assert y != r;
    }
    SnapFrame(F, A, G, B, x);
  }
}
