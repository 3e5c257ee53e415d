/**
 * A node's subtree read as a value.  Serialisation (html_node.cpp:75-95)
 * prints this value, and a clone (html_node.cpp:178-188) reproduces it in
 * fresh nodes.
 */
module Snapshot {
  import opened Tree

  datatype Doc = Doc(kind: Kind, tag: string, payload: string, attrs: map<string, string>, kids: seq<Doc>)

  /** The first `k + 1` documents are the first `k` and the next one. */
  lemma TakeOneMore(s: seq<Doc>, k: nat)
    requires k < |s|
    ensures s[..k + 1] == s[..k] + [s[k]]
  {
  }

  /** The attribute maps of a set of nodes, read off the heap once. */
  type Table = map<Node, map<string, string>>

  /** `A` holds the current attributes of exactly the nodes `S`. */
  ghost predicate Tabled(S: set<Node>, A: Table)
    reads S`attrs
  {
    A.Keys == S && forall y | y in S :: A[y] == y.attrs
  }

  function AttrsAt(A: Table, x: Node): map<string, string>
  {
    if x in A then A[x] else map[]
  }

  /** `x` is a node of `F`, whose maps cover all its nodes. */
  ghost predicate Within(F: Forest, x: Node)
  {
    Domains(F) && x in F.nodes
  }

  /**
   * The subtree of `x`: its own data and, in order, the subtrees of its
   * children, with the attributes of each node taken from `A`.
   */
  ghost function Snap(F: Forest, A: Table, x: Node): (t: Doc)
    requires Within(F, x)
    decreases Below(F, x), 1, 0
  {
    Doc(x.kind, x.tag, x.payload, AttrsAt(A, x), SnapAll(F, A, x, F.kids[x]))
  }

  /**
   * The subtrees of the nodes `cs`, children of `x`.  The guard holds in
   * every well-formed forest (`KidsOf`); it only makes the function total.
   */
  ghost function SnapAll(F: Forest, A: Table, x: Node, cs: seq<Node>): (ts: seq<Doc>)
    requires Within(F, x)
    decreases Below(F, x), 0, |cs|
  {
    if cs == [] || cs[0] !in F.nodes || F.level[cs[0]] <= F.level[x] then []
    else
      BelowShrinks(F, x, cs[0]);
      [Snap(F, A, cs[0])] + SnapAll(F, A, x, cs[1..])
  }

  /** The `i`-th subtree is the subtree of the `i`-th node. */
  lemma {:induction false} SnapAllAt(F: Forest, A: Table, x: Node, cs: seq<Node>, i: nat)
    requires Wf(F) && x in F.nodes
    requires forall c | c in cs :: c in F.nodes && F.level[x] < F.level[c]
    requires i < |cs|
    ensures |SnapAll(F, A, x, cs)| == |cs| && SnapAll(F, A, x, cs)[i] == Snap(F, A, cs[i])
    decreases i
  {
    if i > 0 {
      SnapAllAt(F, A, x, cs[1..], i - 1);
    } else {
      SnapAllLength(F, A, x, cs);
    }
  }

  lemma {:induction false} SnapAllLength(F: Forest, A: Table, x: Node, cs: seq<Node>)
    requires Wf(F) && x in F.nodes
    requires forall c | c in cs :: c in F.nodes && F.level[x] < F.level[c]
    ensures |SnapAll(F, A, x, cs)| == |cs|
    decreases |cs|
  {
    if cs != [] {
      SnapAllLength(F, A, x, cs[1..]);
    }
  }

  /** Reading the subtrees of a list that grows at its end. */
  lemma {:induction false} SnapAllSnoc(F: Forest, A: Table, x: Node, cs: seq<Node>, c: Node)
    requires Wf(F) && x in F.nodes
    requires forall y | y in cs + [c] :: y in F.nodes && F.level[x] < F.level[y]
    ensures SnapAll(F, A, x, cs + [c]) == SnapAll(F, A, x, cs) + [Snap(F, A, c)]
    decreases |cs|
  {
    if cs != [] {
      assert (cs + [c])[1..] == cs[1..] + [c];
      SnapAllSnoc(F, A, x, cs[1..], c);
    }
  }

  /**
   * The subtree of `x` depends only on the children lists and attributes of
   * the nodes at or below `x`: any other forest and table that agree on
   * those give the same snapshot.
   */
  lemma {:induction false} SnapFrame(F: Forest, A: Table, G: Forest, B: Table, x: Node)
    requires Wf(F) && Wf(G) && x in F.nodes && x in G.nodes
    requires forall y | y in F.nodes && Under(F, x, y) ::
      y in G.nodes && G.kids[y] == F.kids[y] && AttrsAt(B, y) == AttrsAt(A, y)
    ensures Snap(G, B, x) == Snap(F, A, x)
    decreases Below(F, x), 1
  {
    KidsOf(F, x);
    KidsOf(G, x);
    forall c, y | c in F.kids[x] && y in F.nodes && Under(F, c, y)
      ensures y in G.nodes && G.kids[y] == F.kids[y] && AttrsAt(B, y) == AttrsAt(A, y)
    {
      UnderParent(F, c, y);
    }
    SnapAllFrame(F, A, G, B, x, F.kids[x]);
  }

  /** The subtrees of `cs` depend only on the children lists and attributes at or below them. */
  lemma {:induction false} SnapAllFrame(F: Forest, A: Table, G: Forest, B: Table, x: Node, cs: seq<Node>)
    requires Wf(F) && Wf(G) && x in F.nodes && x in G.nodes
    requires forall c | c in cs :: c in F.nodes && F.level[x] < F.level[c]
    requires forall c | c in cs :: c in G.nodes && G.level[x] < G.level[c]
    requires forall c, y | c in cs && y in F.nodes && Under(F, c, y) ::
      y in G.nodes && G.kids[y] == F.kids[y] && AttrsAt(B, y) == AttrsAt(A, y)
    ensures SnapAll(G, B, x, cs) == SnapAll(F, A, x, cs)
    decreases Below(F, x), 0, |cs|
  {
    if cs != [] {
      BelowShrinks(F, x, cs[0]);
      SnapFrame(F, A, G, B, cs[0]);
      SnapAllFrame(F, A, G, B, x, cs[1..]);
    }
  }

  // ---------------------------------------------------------------------
  // What a clone reproduces

  /**
   * The value a clone has: every element becomes a plain element (clone()
   * builds an HtmlNode, html_node.cpp:180, even for a Dom) with the same tag
   * and attributes, and every text node a text node with the same payload
   * (text_node.cpp:39-42).
   */
  ghost function Copy(t: Doc): Doc
    decreases t, 1
  {
    if t.kind.Text? then Doc(Text, "", t.payload, map[], [])
    else Doc(Element, t.tag, "", t.attrs, Copies(t.kids))
  }

  ghost function Copies(ts: seq<Doc>): (us: seq<Doc>)
    ensures |us| == |ts|
    decreases ts, 0
  {
    if ts == [] then [] else [Copy(ts[0])] + Copies(ts[1..])
  }

  lemma {:induction false} CopiesSnoc(ts: seq<Doc>, t: Doc)
    ensures Copies(ts + [t]) == Copies(ts) + [Copy(t)]
    decreases |ts|
  {
    if ts != [] {
      assert (ts + [t])[1..] == ts[1..] + [t];
      CopiesSnoc(ts[1..], t);
    }
  }

  /** Copying twice is copying once. */
  lemma {:induction false} CopyIdempotent(t: Doc)
    ensures Copy(Copy(t)) == Copy(t)
    decreases t, 1
  {
    if !t.kind.Text? {
      CopiesIdempotent(t.kids);
    }
  }

  lemma {:induction false} CopiesIdempotent(ts: seq<Doc>)
    ensures Copies(Copies(ts)) == Copies(ts)
    decreases ts, 0
  {
    if ts != [] {
      CopyIdempotent(ts[0]);
      CopiesIdempotent(ts[1..]);
    }
  }
}
