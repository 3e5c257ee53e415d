/**
 * Deep copies (html_node.cpp:21-44, 178-188; text_node.cpp:39-42): a clone
 * is built from fresh nodes, one child at a time, with the looped appends of
 * the source, and its snapshot is the copy of the original's snapshot.  The
 * clone grows inside the same forest as the original, which it leaves as it
 * was.
 */
/** The states a clone goes through. */
module Standing {
  import opened Tree
  import opened Snapshot

  /** `x` is a node of the valid forest `F`, whose attributes `A` holds. */
  ghost predicate Source(F: Forest, A: Table, x: Node)
    reads F.nodes`parent, F.nodes`next, F.nodes`prev, F.nodes`firstChild, F.nodes`attrs
  {
    Valid(F) && x in F.nodes && Tabled(F.nodes, A)
  }

  /** `r` stands alone at the top of its own chain in `E`. */
  ghost predicate Root(E: Forest, r: Node)
  {
    r in E.nodes && r in E.par && E.par[r] == null && r in E.chain && E.chain[r] == [r]
  }

  /** `G` has the nodes of `F` with the parents, children and chains they had in `F`. */
  ghost predicate Grows(F: Forest, G: Forest)
  {
    && Domains(F) && Domains(G) && F.nodes <= G.nodes
    && forall y | y in F.nodes :: G.par[y] == F.par[y] && G.kids[y] == F.kids[y] && G.chain[y] == F.chain[y]
  }

  /** `B` has the entries of `A`. */
  ghost predicate Keeps(A: Table, B: Table)
  {
    forall y | y in A :: y in B && B[y] == A[y]
  }

  /** After `k` rounds of the loop in `Cloning.CopyChildren`, `node` is the `k`-th child of `x`. */
  ghost predicate Walk(F: Forest, A: Table, x: Node, want: seq<Doc>, k: nat, node: Node?)
  {
    && Wf(F) && x in F.nodes && A.Keys == F.nodes
    && want == SnapAll(F, A, x, F.kids[x]) && |want| == |F.kids[x]|
    && k <= |want| && node == (if k < |want| then F.kids[x][k] else null)
  }

  /** The element `r` is a root of `E` whose children are copies of `done`. */
  ghost predicate Copied(E: Forest, B: Table, r: Node, done: seq<Doc>)
  {
    Wf(E) && Root(E, r) && !r.kind.Text? && SnapAll(E, B, r, E.kids[r]) == Copies(done)
  }
  /** `r` holds copies of the first `k` children of `x`, and `node` is the next one. */
  ghost predicate Partway(F: Forest, A: Table, x: Node, want: seq<Doc>, k: nat, node: Node?,
                          r: Node, G: Forest, B: Table)
    reads G.nodes`parent, G.nodes`next, G.nodes`prev, G.nodes`firstChild, G.nodes`attrs
  {
    && Walk(F, A, x, want, k, node) && Source(G, B, r) && Copied(G, B, r, want[..k])
    && Grows(F, G) && Keeps(A, B) && r !in F.nodes
  }

  /** The standalone `c` may be appended to the root element `r` of `E`, a forest that `C` grows. */
  ghost predicate Graftable(E: Forest, B: Table, r: Node, C: Forest, c: Node)
  {
    && Wf(E) && Root(E, r) && !r.kind.Text? && B.Keys == E.nodes
    && Wf(C) && Root(C, c) && c !in E.nodes && Grows(E, C) && CanAttach(C, r, c)
  }

  /** Nodes of `E` other than `r` keep their parents and children in `G`, and those not under `r` their chains. */
  ghost predicate Outside(E: Forest, G: Forest, r: Node)
  {
    && Domains(E) && Domains(G) && E.nodes <= G.nodes
    && (forall y | y in E.nodes && y != r :: G.par[y] == E.par[y] && G.kids[y] == E.kids[y])
    && (forall y | y in E.nodes && E.par[y] != r :: G.chain[y] == E.chain[y])
  }

  /** `G` is `C` with `c` appended to `r`, whose children in `E` were copies of `done`, the new one a copy of `w`. */
  ghost predicate Hang(E: Forest, r: Node, c: Node, C: Forest, done: seq<Doc>, w: Doc, G: Forest, BG: Table)
  {
    && Copied(G, BG, r, done + [w]) && G.nodes == C.nodes
    && r in E.kids && G.kids[r] == E.kids[r] + [c] && Outside(E, G, r)
  }

  ghost predicate AppendedOk(F: Forest, p: Node, s: Node, G: Forest)
    reads G.nodes`parent, G.nodes`next, G.nodes`prev, G.nodes`firstChild
  {
    CanAttach(F, p, s) && G == Appended(F, p, s) && Valid(G)
  }

  /** `s` may go after `last`, the tail of a chain headed by `first`, in the valid forest `F`. */
  ghost predicate Tail(F: Forest, last: Node, s: Node, first: Node)
    reads F.nodes`parent, F.nodes`next, F.nodes`prev, F.nodes`firstChild
  {
    && Valid(F) && last in F.nodes && CanInsert(F, last, s, F.pos[last] + 1)
    && F.pos[last] + 1 == |F.chain[last]| && first == F.chain[last][0]
  }

  /** `r` may take the standalone `s` as its last child. */
  ghost predicate CanAppend(F: Forest, p: Node, s: Node)
    reads F.nodes`parent, F.nodes`next, F.nodes`prev, F.nodes`firstChild
  {
    Valid(F) && CanAttach(F, p, s)
  }

  /** `head` is the first child of `r` and `tail` its last, or both are `r` when it has none. */
  ghost predicate EndsAre(E: Forest, r: Node, head: Node, tail: Node)
  {
    && r in E.kids
    && if E.kids[r] == [] then head == r && tail == r
       else head == E.kids[r][0] && tail == Last(E.kids[r])
  }
}

/** The states of a clone, bundled so that each is one fact. */
module Stages {
  import opened Tree
  import opened Snapshot
  import opened Standing

  /** `r` is the root of a clone grown from `F` into `G`, which keeps `F` and its attributes as they were. */
  ghost predicate Cloned(F: Forest, A: Table, G: Forest, B: Table, r: Node)
    reads G.nodes`parent, G.nodes`next, G.nodes`prev, G.nodes`firstChild, G.nodes`attrs
  {
    Source(G, B, r) && Root(G, r) && r !in F.nodes && Grows(F, G) && Keeps(A, B)
  }

  ghost predicate Grafting(E: Forest, B: Table, r: Node, C: Forest, c: Node)
  {
    Graftable(E, B, r, C, c)
  }

  /** The forests after `Cloning.AttachClone`. */
  ghost predicate Hung(E: Forest, r: Node, c: Node, C: Forest, done: seq<Doc>, w: Doc, G: Forest, BG: Table)
  {
    Hang(E, r, c, C, done, w, G, BG)
  }

  /** `G` is `p` with the standalone `s` appended, in a valid forest whose links are on the heap. */
  ghost predicate AppendedTo(F: Forest, p: Node, s: Node, G: Forest)
    reads G.nodes`parent, G.nodes`next, G.nodes`prev, G.nodes`firstChild
  {
    AppendedOk(F, p, s, G)
  }

  ghost predicate AtTail(F: Forest, last: Node, s: Node, first: Node)
    reads F.nodes`parent, F.nodes`next, F.nodes`prev, F.nodes`firstChild
  {
    Tail(F, last, s, first)
  }

  ghost predicate Appendable(F: Forest, p: Node, s: Node)
    reads F.nodes`parent, F.nodes`next, F.nodes`prev, F.nodes`firstChild
  {
    CanAppend(F, p, s)
  }

  /** The loop of `Cloning.CopyChildren` after `k` rounds, with `attrs` on the copy `r`. */
  ghost predicate Growing(F: Forest, A: Table, x: Node, want: seq<Doc>, k: nat, node: Node?,
                          r: Node, attrs: map<string, string>, G: Forest, B: Table)
    reads G.nodes`parent, G.nodes`next, G.nodes`prev, G.nodes`firstChild, G.nodes`attrs
  {
    Partway(F, A, x, want, k, node, r, G, B) && AttrsAt(B, r) == attrs
  }
}

module Cloning {
  import opened Tree
  import opened Snapshot
  import opened Standing
  import opened Stages
  import Html

  /** `x.clone()`: a new root whose subtree is a copy of `x`'s, made of fresh nodes only. */
  method Clone(ghost F: Forest, ghost A: Table, x: Node) returns (r: Node, ghost G: Forest, ghost B: Table)
    requires Source(F, A, x)
    ensures Cloned(F, A, G, B, r) && fresh(r)
    ensures forall y | y in G.nodes - F.nodes :: fresh(y)
    ensures Snap(G, B, r) == Copy(Snap(F, A, x))
    decreases Snap(F, A, x), 2
  {
    if x.kind.Text? {
      r := new Node(Text, "", x.payload);
      assert r !in F.nodes;
      G, B := Adjoin(F, r), A[r := r.attrs];
      Joined(F, A, x, r, B);
    } else {
      r, G, B := CopyElement(F, A, x, x.attrs);
    }
  }

  /**
   * A fresh element with the tag of `x` and the attributes `attrs`, to which
   * a clone of each child of `x` is appended in order: the loop shared by
   * clone() (html_node.cpp:178-188) and the copy constructor
   * (html_node.cpp:21-32).
   */
  method CopyElement(ghost F: Forest, ghost A: Table, x: Node, attrs: map<string, string>)
    returns (r: Node, ghost G: Forest, ghost B: Table)
    requires Source(F, A, x)
    ensures Cloned(F, A, G, B, r) && fresh(r)
    ensures forall y | y in G.nodes - F.nodes :: fresh(y)
    ensures Snap(G, B, r) == Doc(Element, x.tag, "", attrs, Copies(SnapAll(F, A, x, F.kids[x])))
    decreases Snap(F, A, x), 1
  {
    ghost var want := SnapAll(F, A, x, F.kids[x]);
    Children(F, A, x);
    r, G, B := CopyChildren(F, A, x, want, attrs);
    Finished(F, A, x, want, r, attrs, G, B);
  }

  /** The fresh copy of `x` and the loop that appends to it a clone of each child of `x`. */
  method CopyChildren(ghost F: Forest, ghost A: Table, x: Node, ghost want: seq<Doc>, attrs: map<string, string>)
    returns (r: Node, ghost G: Forest, ghost B: Table)
    requires Source(F, A, x) && Walk(F, A, x, want, 0, x.firstChild)
    ensures Growing(F, A, x, want, |want|, null, r, attrs, G, B) && fresh(r)
    ensures r.kind == Element && r.tag == x.tag && r.payload == ""
    ensures forall y | y in G.nodes - F.nodes :: fresh(y)
    decreases Snap(F, A, x), 0
  {
    r, G, B := FreshElement(F, A, x, want, attrs);
    var node := x.firstChild;
    ghost var k := 0;
    ghost var head, tail := r, r;
    while node != null
      invariant Growing(F, A, x, want, k, node, r, attrs, G, B)
      invariant forall y | y in G.nodes - F.nodes :: fresh(y)
      invariant EndsAre(G, r, head, tail) && (head == r || fresh(head)) && (tail == r || fresh(tail))
      decreases |want| - k
    {
      var c;
      ghost var G0 := G;
      c, G, B := CloneNext(F, A, x, want, k, node, r, attrs, G, B, head, tail);
      forall y | y in G.nodes - F.nodes
        ensures fresh(y)
      {
        if y !in G0.nodes {
          assert y in G.nodes - G0.nodes;
        } else {
          assert y in G0.nodes - F.nodes;
        }
      }
      head, tail := if head == r then c else head, c;
      k := k + 1;
      node := node.next;
    }
    Exhausted(F, A, x, want, k, r, attrs, G, B);
  }

  /** The fresh element that becomes the copy of `x` (html_node.cpp:180-181). */
  method FreshElement(ghost F: Forest, ghost A: Table, x: Node, ghost want: seq<Doc>, attrs: map<string, string>)
    returns (r: Node, ghost E: Forest, ghost BE: Table)
    requires Source(F, A, x) && Walk(F, A, x, want, 0, x.firstChild)
    ensures fresh(r) && E.nodes == F.nodes + {r}
    ensures r.kind == Element && r.tag == x.tag && r.payload == ""
    ensures Growing(F, A, x, want, 0, x.firstChild, r, attrs, E, BE) && E.kids[r] == []
  {
    r := new Node(Element, x.tag, "");
    assert r !in F.nodes;
    r.attrs := attrs;
    E, BE := Adjoin(F, r), A[r := attrs];
    Joined(F, A, x, r, BE);
    Grew(F, A, x, want, 0, x.firstChild, r, attrs, E, BE);
  }

  /** A new node joins the forest as a root with no children. */
  lemma Joined(F: Forest, A: Table, x: Node, r: Node, B: Table)
    requires Source(F, A, x) && r !in F.nodes
    requires r.parent == null && r.next == null && r.prev == r && r.firstChild == null
    requires B == A[r := r.attrs]
    ensures var G := Adjoin(F, r);
      && Cloned(F, A, G, B, r) && G.nodes == F.nodes + {r} && G.kids[r] == []
      && (!r.kind.Text? ==> Copied(G, B, r, []))
  {
    AdjoinValid(F, r);
  }

  /** The walk ends after the last child. */
  lemma Exhausted(F: Forest, A: Table, x: Node, want: seq<Doc>, k: nat, r: Node, attrs: map<string, string>,
                  G: Forest, B: Table)
    requires Growing(F, A, x, want, k, null, r, attrs, G, B)
    ensures k == |want|
  {
  }

  /** Once every child is copied, the copy's snapshot holds copies of all of `want`. */
  lemma Finished(F: Forest, A: Table, x: Node, want: seq<Doc>, r: Node, attrs: map<string, string>, G: Forest, B: Table)
    requires Growing(F, A, x, want, |want|, null, r, attrs, G, B)
    ensures Snap(G, B, r) == Doc(r.kind, r.tag, r.payload, attrs, Copies(want))
  {
    assert want[..|want|] == want;
  }

  /** The walk over the children of `x` starts at its first child. */
  lemma Children(F: Forest, A: Table, x: Node)
    requires Source(F, A, x)
    ensures Walk(F, A, x, SnapAll(F, A, x, F.kids[x]), 0, x.firstChild)
  {
    KidsOf(F, x);
    SnapAllLength(F, A, x, F.kids[x]);
  }

  /** The `k`-th child of `x` has the `k`-th subtree, and it reads the same in the forest grown from `F`. */
  lemma ChildAt(F: Forest, A: Table, x: Node, want: seq<Doc>, k: nat, node: Node, r: Node, E: Forest, B: Table)
    requires Partway(F, A, x, want, k, node, r, E, B) && k < |want|
    ensures Source(E, B, node) && want[k] == Snap(F, A, node) == Snap(E, B, node)
  {
    KidsOf(F, x);
    SnapAllAt(F, A, x, F.kids[x], k);
    SnapFrame(F, A, E, B, node);
  }

  /** The link from the `k`-th child of `x` to the next, in a forest grown from `F`. */
  lemma NextChild(F: Forest, G: Forest, x: Node, k: nat)
    requires Valid(G) && Grows(F, G) && x in F.nodes && k < |F.kids[x]|
    ensures F.kids[x][k].next == (if k + 1 < |F.kids[x]| then F.kids[x][k + 1] else null)
  {
    KidsOf(G, x);
  }

  /** One round of the loop: the clone `c` of `node` goes after the clones made so far. */
  method CloneNext(ghost F: Forest, ghost A: Table, x: Node, ghost want: seq<Doc>, ghost k: nat, node: Node,
                   r: Node, ghost attrs: map<string, string>, ghost E: Forest, ghost B: Table,
                   ghost head: Node, ghost tail: Node)
    returns (c: Node, ghost G: Forest, ghost BG: Table)
    requires Growing(F, A, x, want, k, node, r, attrs, E, B) && k < |want| && EndsAre(E, r, head, tail)
    modifies r`firstChild, head`parent, head`next, head`prev, tail`parent, tail`next, tail`prev
    ensures Growing(F, A, x, want, k + 1, node.next, r, attrs, G, BG)
    ensures fresh(c) && EndsAre(G, r, if head == r then c else head, c)
    ensures forall y | y in G.nodes - E.nodes :: fresh(y)
    decreases want[k], 3
  {
    ChildAt(F, A, x, want, k, node, r, E, B);
    ghost var C: Forest, BC: Table;
    c, C, BC := Clone(E, B, node);
    KidsOf(E, r);
    EndsSnoc(E.kids[r], c, r, head, tail);
    G, BG := AttachClone(E, B, r, c, C, BC, want[..k], want[k], head, tail);
    Outgrown(F, E, G, r);
    NextChild(F, G, x, k);
    TakeOneMore(want, k);
    Grew(F, A, x, want, k + 1, node.next, r, attrs, G, BG);
  }

  /** The loop state, from its parts. */
  lemma Grew(F: Forest, A: Table, x: Node, want: seq<Doc>, k: nat, node: Node?,
             r: Node, attrs: map<string, string>, G: Forest, B: Table)
    requires Partway(F, A, x, want, k, node, r, G, B) && AttrsAt(B, r) == attrs
    ensures Growing(F, A, x, want, k, node, r, attrs, G, B)
  {
  }
  /** Nodes of `F` keep their place through a step that only changes the children of `r`, a node outside `F`. */
  lemma Outgrown(F: Forest, E: Forest, G: Forest, r: Node)
    requires Wf(F) && Grows(F, E) && r !in F.nodes && Outside(E, G, r)
    ensures Grows(F, G)
  {
    forall y | y in F.nodes
      ensures G.par[y] == F.par[y] && G.kids[y] == F.kids[y] && G.chain[y] == F.chain[y]
    {
      assert F.par[y] == null || F.par[y] in F.nodes;
    }
  }

  /**
   * Appends the clone `c` to `r` (html_node.cpp:184).  The `detach` that
   * `append` starts with does nothing to a fresh root (`DetachStandalone`).
   */
  method AttachClone(ghost E: Forest, ghost B: Table, r: Node, c: Node, ghost C: Forest, ghost BC: Table,
                     ghost done: seq<Doc>, ghost w: Doc, ghost head: Node, ghost tail: Node)
    returns (ghost G: Forest, ghost BG: Table)
    requires Copied(E, B, r, done) && B.Keys == E.nodes && EndsAre(E, r, head, tail)
    requires Cloned(E, B, C, BC, c) && Snap(C, BC, c) == Copy(w)
    modifies r`firstChild, c`parent, c`next, c`prev
    modifies head`parent, head`next, head`prev, tail`parent, tail`next, tail`prev
    ensures Source(G, BG, r) && BG == BC && Hung(E, r, c, C, done, w, G, BG)
  {
    assert C.kids[r] == E.kids[r];
    G := AppendRoot(C, r, c, head, tail);
    BG := BC;
    Grafted(E, B, C, G, r, c, BC, done, w);
  }

  /** The ends of a list of siblings before and after one more is added at its end. */
  lemma EndsSnoc(cs: seq<Node>, c: Node, r: Node, head: Node, tail: Node)
    requires r !in cs
    requires if cs == [] then head == r && tail == r else head == cs[0] && tail == Last(cs)
    ensures (cs + [c])[0] == (if head == r then c else head) && Last(cs + [c]) == c
  {
  }

  /**
   * `Html.Append` of a parentless singleton `s`: only `p`, `s` and the two
   * ends of the children of `p` are written.
   */
  method AppendRoot(ghost F: Forest, p: Node, s: Node, ghost head: Node, ghost tail: Node) returns (ghost G: Forest)
    requires Appendable(F, p, s) && EndsAre(F, p, head, tail)
    modifies p`firstChild, s`parent, s`next, s`prev
    modifies head`parent, head`next, head`prev, tail`parent, tail`next, tail`prev
    ensures AppendedTo(F, p, s, G) && unchanged(F.nodes`attrs)
  {
    if p.firstChild == null {
      G := AdoptRoot(F, p, s);
    } else {
      G := AppendLast(F, p, s, head, tail);
    }
  }

  /** The first child of a childless element (html_node.cpp:49-51). */
  method AdoptRoot(ghost F: Forest, p: Node, s: Node) returns (ghost G: Forest)
    requires Appendable(F, p, s) && p.firstChild == null
    modifies p`firstChild, s`parent
    ensures AppendedTo(F, p, s, G) && unchanged(F.nodes`attrs)
  {
    KidsOf(F, p);
    G := Html.Adopt(F, p, s);
  }

  /** A child after the last one (html_node.cpp:52-55). */
  method AppendLast(ghost F: Forest, p: Node, s: Node, ghost head: Node, ghost tail: Node) returns (ghost G: Forest)
    requires Appendable(F, p, s) && EndsAre(F, p, head, tail) && p.firstChild != null
    modifies s`parent, s`next, s`prev, head`prev, tail`next
    ensures AppendedTo(F, p, s, G) && unchanged(F.nodes`attrs)
  {
    LastOf(F, p, s);
    var last := p.firstChild.prev;
    G := PutLast(F, last, s, p.firstChild);
  }

  /** The tail of the children of `p`, found through the head's back-link, is where `s` goes. */
  lemma LastOf(F: Forest, p: Node, s: Node)
    requires Appendable(F, p, s) && p.firstChild != null
    ensures var c := F.kids[p];
      && c != [] && p.firstChild == c[0] && c[0].prev == Last(c) && AtTail(F, Last(c), s, c[0])
      && Appended(F, p, s) == Inserted(F, Last(c), s, F.pos[Last(c)] + 1)
  {
    KidsOf(F, p);
    AttachAnchors(F, p, s);
    AppendedAfterLast(F, p, s);
  }

  /** `Node.InsertAfter` of the standalone `s` after `last`, the tail of a chain headed by `first`. */
  method PutLast(ghost F: Forest, last: Node, s: Node, first: Node) returns (ghost G: Forest)
    requires AtTail(F, last, s, first)
    modifies last`next, s`parent, s`next, s`prev, first`prev
    ensures G == Inserted(F, last, s, F.pos[last] + 1) && Valid(G) && unchanged(F.nodes`attrs)
  {
    var k := F.pos[last] + 1;
    InsertApart(F, last, s, k);
    ghost var c := F.chain[last];
    assert Before(c, k) == last && last.next == After(c, k) == null;
    assert BackTo(c, k) == first;
    LinkLast(last, s, first);
    G := Inserted(F, last, s, k);
    SplicedValid(F, last, s, k);
  }

  /**
   * The writes of `Node.LinkAfter` when `last` ends its chain and `first`
   * heads it (node.cpp:46-65).
   */
  method LinkLast(last: Node, s: Node, first: Node)
    requires s != last && s != first
    modifies last`next, s`parent, s`next, s`prev, first`prev
    ensures s.prev == last && s.next == old(last.next) && s.parent == old(last.parent)
    ensures last.next == s && first.prev == s
    ensures last != first ==> last.prev == old(last.prev)
    ensures first != last ==> first.next == old(first.next)
  {
    s.prev := last;
    s.next := last.next;
    first.prev := s;
    last.next := s;
    s.parent := last.parent;
  }

  /** Appending the root `s` to `p` changes the parent of `s`, the children of `p` and the chain of those. */
  lemma AppendedPlaces(F: Forest, p: Node, s: Node)
    requires CanAttach(F, p, s)
    ensures var G := Appended(F, p, s);
      && Wf(G) && G.nodes == F.nodes && G.par == F.par[s := p] && G.kids[p] == F.kids[p] + [s]
      && G.chain[p] == F.chain[p]
      && (forall y | y in F.nodes && y != p :: G.kids[y] == F.kids[y])
      && (forall y | y in F.nodes && y != s && F.par[y] != p :: G.chain[y] == F.chain[y])
  {
    AppendedKids(F, p, s);
    AttachedOthers(F, p, s);
    AttachedKeeps(F, p, s);
    if F.kids[p] != [] {
      AttachAnchors(F, p, s);
      ChainMembers(F, F.kids[p][0]);
    }
  }

  /** The state after the append in `AttachClone`, read from the states before. */
  lemma Grafted(E: Forest, B: Table, C: Forest, G: Forest, r: Node, c: Node, T: Table, done: seq<Doc>, w: Doc)
    requires Grafting(E, B, r, C, c) && G == Appended(C, r, c) && Keeps(B, T)
    requires Copied(E, B, r, done) && Snap(C, T, c) == Copy(w)
    ensures Hung(E, r, c, C, done, w, G, T)
  {
    GraftShape(E, B, r, C, c);
    GraftSnap(E, B, r, C, c, T);
    CopiesSnoc(done, w);
    assert Copied(G, T, r, done + [w]);
  }

  /** Where the nodes are once `c` is appended to `r`. */
  lemma GraftShape(E: Forest, B: Table, r: Node, C: Forest, c: Node)
    requires Grafting(E, B, r, C, c)
    ensures var G := Appended(C, r, c);
      Wf(G) && Root(G, r) && G.nodes == C.nodes && G.kids[r] == E.kids[r] + [c] && Outside(E, G, r)
  {
    AppendedPlaces(C, r, c);
  }

  /** The subtrees of the children of `r` once `c` is appended to it. */
  lemma GraftSnap(E: Forest, B: Table, r: Node, C: Forest, c: Node, T: Table)
    requires Grafting(E, B, r, C, c) && Keeps(B, T)
    ensures var G := Appended(C, r, c);
      Wf(G) && r in G.nodes && SnapAll(G, T, r, G.kids[r]) == SnapAll(E, B, r, E.kids[r]) + [Snap(C, T, c)]
  {
    var G := Appended(C, r, c);
    AppendedPlaces(C, r, c);
    KidsOf(E, r);
    KidsOf(G, r);
    SnapFrame(C, T, G, T, c);
    forall k, y | k in E.kids[r] && y in E.nodes && Under(E, k, y)
      ensures y in G.nodes && G.kids[y] == E.kids[y] && AttrsAt(T, y) == AttrsAt(B, y)
    {
      UnderLevel(E, k, y);
    }
    SnapAllFrame(E, B, G, T, r, E.kids[r]);
    SnapAllSnoc(G, T, r, E.kids[r], c);
  }

}
