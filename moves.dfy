/**
 * A captured node changing place (collection.cpp:36-133): where the node
 * ends up, and how the shared table follows it.  `remove()` takes each
 * captured node out of its tree; the fan-outs put each one at a target.
 */
module Moves {
  import opened Tree
  import opened Ownership
  import opened Captures
  import Html

  /** The forest, the table and the nodes released so far by a run of moves. */
  datatype Sweep = Sweep(forest: Forest, count: Counts, freed: set<Node>)

  /** A run of moves that has not started. */
  function Start(F: Forest, c: Counts): Sweep
  {
    Sweep(F, c, {})
  }

  // ---------------------------------------------------------------------
  // Where a fan-out puts a node

  /**
   * The four fan-outs: `append` and `prepend` make the node the last or
   * first child of the target (an element; a text node ignores them,
   * text_node.cpp:48-52), `after` and `before` make it the next or
   * previous sibling of the target.
   */
  datatype Place = AsLastChild | AsFirstChild | AsNextSibling | AsPrevSibling

  /** `s` can be put at `t`: it is not `t` or one of its ancestors. */
  ghost predicate Movable(G: Forest, t: Node, s: Node)
  {
    Wf(G) && t in G.nodes && s in G.nodes && !Under(G, s, t)
  }

  /** The node that becomes the parent of what is put at `t`. */
  ghost function Host(G: Forest, t: Node, op: Place): Node?
    requires Wf(G) && t in G.nodes
  {
    if op.AsLastChild? || op.AsFirstChild? then t else G.par[t]
  }

  /** `op` at the text node `t` does nothing. */
  predicate Ignored(t: Node, op: Place)
  {
    (op.AsLastChild? || op.AsFirstChild?) && t.kind.Text?
  }

  /**
   * The forest once `s` has been taken from where it was and put at `t`
   * (node.cpp:46-92, html_node.cpp:49-70): only `s` changes parent, and
   * only the lists of children of its old and its new parent change.
   */
  ghost function Put(G: Forest, t: Node, s: Node, op: Place): (H: Forest)
    requires Movable(G, t, s)
    ensures Wf(H) && H.nodes == G.nodes
  {
    DetachWf(G, s);
    var D := Detached(G, s);
    if Ignored(t, op) then G
    else if op.AsLastChild? then
      DetachedCanAttach(G, s, t);
      AppendedKids(D, t, s);
      Appended(D, t, s)
    else if op.AsFirstChild? then
      DetachedCanAttach(G, s, t);
      PrependedKids(D, t, s);
      Prepended(D, t, s)
    else
      DetachedCanInsert(G, s, t);
      var k := if op.AsNextSibling? then D.pos[t] + 1 else D.pos[t];
      InsertWf(D, t, s, k);
      Inserted(D, t, s, k)
  }

  /**
   * Putting `s` at `t` changes the parent of `s` only, to the host, and
   * the children of the old and the new parent only; at a text node in
   * place of an element it changes nothing.
   */
  lemma PutFrame(G: Forest, t: Node, s: Node, op: Place)
    requires Movable(G, t, s)
    ensures var H := Put(G, t, s, op);
      && (Ignored(t, op) ==> H == G)
      && (!Ignored(t, op) ==> H.par == G.par[s := Host(G, t, op)])
      && (!Ignored(t, op) ==>
        forall y | y in G.nodes && y != G.par[s] && y != Host(G, t, op) :: H.kids[y] == G.kids[y])
  {
    if !Ignored(t, op) {
      DetachedFrame(G, s);
      if op.AsLastChild? || op.AsFirstChild? {
        PutChildFrame(G, t, s, op);
      } else {
        PutSiblingFrame(G, t, s, op);
      }
      Overwritten(G.par, s, null, Host(G, t, op));
    }
  }

  /** Putting `s` at `t` changes no other node's parent. */
  lemma PutOthers(G: Forest, t: Node, s: Node, op: Place)
    requires Movable(G, t, s)
    ensures forall y | y in G.nodes && y != s :: Put(G, t, s, op).par[y] == G.par[y]
  {
    PutFrame(G, t, s, op);
  }

  /** A second update of the same key overrides the first. */
  lemma Overwritten(m: map<Node, Node?>, k: Node, a: Node?, b: Node?)
    ensures m[k := a][k := b] == m[k := b]
  {
  }

  /** Detaching changes the parent of `n` and the children of its parent, nothing else. */
  lemma DetachedFrame(G: Forest, n: Node)
    requires Wf(G) && n in G.nodes
    ensures var D := Detached(G, n);
      && Wf(D) && D.par == G.par[n := null]
      && forall y | y in G.nodes && y != G.par[n] :: D.kids[y] == G.kids[y]
  {
    DetachWf(G, n);
    DetachedKids(G, n);
  }

  lemma PutChildFrame(G: Forest, t: Node, s: Node, op: Place)
    requires Movable(G, t, s) && !t.kind.Text? && (op.AsLastChild? || op.AsFirstChild?)
    ensures var H, D := Put(G, t, s, op), Detached(G, s);
      && H.par == D.par[s := t]
      && forall y | y in G.nodes && y != t :: H.kids[y] == D.kids[y]
  {
    DetachWf(G, s);
    DetachedCanAttach(G, s, t);
    if op.AsLastChild? {
      AppendedFrame(Detached(G, s), t, s);
    } else {
      PrependedFrame(Detached(G, s), t, s);
    }
  }

  lemma PutSiblingFrame(G: Forest, t: Node, s: Node, op: Place)
    requires Movable(G, t, s) && (op.AsNextSibling? || op.AsPrevSibling?)
    ensures var H, D := Put(G, t, s, op), Detached(G, s);
      && H.par == D.par[s := G.par[t]]
      && forall y | y in G.nodes && y != G.par[t] :: H.kids[y] == D.kids[y]
  {
    PutBeside(G, t, s, op);
    DetachedFrame(G, s);
    if op.AsNextSibling? {
      BesideFrame(Detached(G, s), t, s, Detached(G, s).pos[t] + 1, G.par[t]);
    } else {
      BesideFrame(Detached(G, s), t, s, Detached(G, s).pos[t], G.par[t]);
    }
  }

  /** Inserting next to `a`, whose parent is `p`, changes the parent of `s` to `p` and the children of `p` only. */
  lemma BesideFrame(D: Forest, a: Node, s: Node, k: nat, p: Node?)
    requires CanInsert(D, a, s, k) && D.par[a] == p
    ensures var I := Inserted(D, a, s, k);
      && I.par == D.par[s := p]
      && forall y | y in D.nodes && y != p :: I.kids[y] == D.kids[y]
  {
    InsertedFrame(D, a, s, k);
  }

  /** Inserting changes the parent of `s`, to that of the chain, and the children of that parent only. */
  lemma InsertedFrame(F: Forest, a: Node, s: Node, k: nat)
    requires CanInsert(F, a, s, k)
    ensures var I := Inserted(F, a, s, k);
      && I.par == F.par[s := F.par[a]]
      && forall y | y in F.nodes && y != F.par[a] :: I.kids[y] == F.kids[y]
  {
  }

  /** Appending changes the parent of `s` and the children of `p`, nothing else. */
  lemma AppendedFrame(F: Forest, p: Node, s: Node)
    requires CanAttach(F, p, s)
    ensures var G := Appended(F, p, s);
      && Wf(G) && G.nodes == F.nodes && G.par == F.par[s := p]
      && forall y | y in F.nodes && y != p :: G.kids[y] == F.kids[y]
  {
    AppendedKids(F, p, s);
    if F.kids[p] != [] {
      AttachAnchors(F, p, s);
    }
  }

  /** Prepending changes the parent of `s` and the children of `p`, nothing else. */
  lemma PrependedFrame(F: Forest, p: Node, s: Node)
    requires CanAttach(F, p, s)
    ensures var G := Prepended(F, p, s);
      && Wf(G) && G.nodes == F.nodes && G.par == F.par[s := p]
      && forall y | y in F.nodes && y != p :: G.kids[y] == F.kids[y]
  {
    PrependedKids(F, p, s);
    if F.kids[p] != [] {
      AttachAnchors(F, p, s);
    }
  }

  // ---------------------------------------------------------------------
  // Roots through a move

  /** A node whose ancestors all keep their parents keeps its root. */
  lemma {:induction false} RootKept(G: Forest, H: Forest, x: Node)
    requires Wf(G) && Wf(H) && x in G.nodes && G.nodes <= H.nodes
    requires forall y | y in G.nodes && Under(G, y, x) :: H.par[y] == G.par[y]
    ensures RootOf(H, x) == RootOf(G, x)
    decreases G.level[x]
  {
    if G.par[x] != null {
      var p := G.par[x];
      forall y | y in G.nodes && Under(G, y, p)
        ensures H.par[y] == G.par[y]
      {
        assert Under(G, y, x);
      }
      RootKept(G, H, p);
    }
  }

  /** A node whose ancestors all keep their parents keeps its ancestors. */
  lemma {:induction false} AboveKept(G: Forest, H: Forest, a: Node, x: Node)
    requires Wf(G) && Wf(H) && x in G.nodes && G.nodes <= H.nodes
    requires forall y | y in G.nodes && Under(G, y, x) :: H.par[y] == G.par[y]
    ensures Under(H, a, x) == Under(G, a, x)
    decreases G.level[x]
  {
    if x != a && G.par[x] != null {
      var p := G.par[x];
      forall y | y in G.nodes && Under(G, y, p)
        ensures H.par[y] == G.par[y]
      {
        assert Under(G, y, x);
      }
      AboveKept(G, H, a, p);
    }
  }

  /** Putting `s` at `t` keeps the ancestors of `t` and of its ancestors. */
  lemma PutKeepsAbove(G: Forest, t: Node, s: Node, op: Place, a: Node, x: Node)
    requires Movable(G, t, s) && x in G.nodes && Under(G, x, t)
    ensures Under(Put(G, t, s, op), a, x) == Under(G, a, x)
  {
    PutOthers(G, t, s, op);
    var H := Put(G, t, s, op);
    forall y | y in G.nodes && Under(G, y, x)
      ensures H.par[y] == G.par[y]
    {
      UnderTrans(G, y, x, t);
      assert y != s;
    }
    AboveKept(G, H, a, x);
  }

  /** An ancestor of an ancestor is an ancestor. */
  lemma {:induction false} UnderTrans(G: Forest, a: Node, b: Node, x: Node)
    requires Wf(G) && b in G.nodes && x in G.nodes && Under(G, a, b) && Under(G, b, x)
    ensures Under(G, a, x)
    decreases G.level[x]
  {
    if x != b {
      UnderTrans(G, a, b, G.par[x]);
    }
  }

  /**
   * After `s` is put at `t`, whatever lies below `a` lay below `a`
   * before, or `t` did.
   */
  lemma {:induction false} PutUnder(G: Forest, t: Node, s: Node, op: Place, a: Node, x: Node)
    requires Movable(G, t, s) && x in G.nodes
    ensures Under(Put(G, t, s, op), a, x) ==> Under(G, a, x) || Under(G, a, t)
    decreases Put(G, t, s, op).level[x]
  {
    PutFrame(G, t, s, op);
    var H := Put(G, t, s, op);
    if !Ignored(t, op) && x != a && H.par[x] != null {
      var p := H.par[x];
      if x != s {
        PutUnder(G, t, s, op, a, p);
      } else if op.AsLastChild? || op.AsFirstChild? {
        assert Under(G, t, t);
        PutKeepsAbove(G, t, s, op, a, t);
      } else {
        assert Under(G, p, t);
        PutKeepsAbove(G, t, s, op, a, p);
      }
    }
  }

  /** Where the fan-out's sources may go: nodes of the forest none of which lies above the target. */
  ghost predicate Shiftable(G: Forest, t: Node, ss: seq<Node>)
  {
    Wf(G) && t in G.nodes && Inside(G, ss) && forall s | s in ss :: !Under(G, s, t)
  }

  /**
   * The moves of a fan-out (collection.cpp:50-56, 73-79, 94-100, 115-121):
   * each source in turn is put at the target `t` and the table follows.
   */
  ghost function Shifted(p: Sweep, t: Node, ss: seq<Node>, op: Place): (q: Sweep)
    requires Shiftable(p.forest, t, ss)
    ensures Wf(q.forest) && q.forest.nodes == p.forest.nodes
    ensures forall y | y in p.forest.nodes && y !in ss :: q.forest.par[y] == p.forest.par[y]
  {
    if ss == [] then p
    else
      var n := |ss| - 1;
      var q := Shifted(p, t, ss[..n], op);
      ShiftedAbove(p, t, ss, op, ss[n]);
      PutFrame(q.forest, t, ss[n], op);
      Moved(q, ss[n], Put(q.forest, t, ss[n], op))
  }

  /** The last move of a fan-out, after the ones before it. */
  lemma ShiftedStep(p: Sweep, t: Node, ss: seq<Node>, op: Place)
    requires Shiftable(p.forest, t, ss) && ss != []
    ensures Shiftable(p.forest, t, ss[..|ss| - 1])
    ensures var n := |ss| - 1; var q := Shifted(p, t, ss[..n], op);
      && Movable(q.forest, t, ss[n])
      && Shifted(p, t, ss, op) == Moved(q, ss[n], Put(q.forest, t, ss[n], op))
      && Shifted(p, t, ss, op).forest == Put(q.forest, t, ss[n], op)
  {
    var n := |ss| - 1;
    assert Shiftable(p.forest, t, ss[..n]);
    ShiftedAbove(p, t, ss, op, ss[n]);
  }

  /** The moves before the last one keep the target's ancestors. */
  lemma ShiftedAbove(p: Sweep, t: Node, ss: seq<Node>, op: Place, a: Node)
    requires Shiftable(p.forest, t, ss) && ss != [] && Shiftable(p.forest, t, ss[..|ss| - 1])
    ensures Under(Shifted(p, t, ss[..|ss| - 1], op).forest, a, t) == Under(p.forest, a, t)
  {
    var G, H := p.forest, Shifted(p, t, ss[..|ss| - 1], op).forest;
    forall y | y in G.nodes && Under(G, y, t)
      ensures H.par[y] == G.par[y]
    {
      assert y !in ss[..|ss| - 1];
    }
    AboveKept(G, H, a, t);
  }

  /** After the moves, whatever lies below `a` lay below `a` before, or the target did. */
  lemma {:induction false} ShiftedUnder(p: Sweep, t: Node, ss: seq<Node>, op: Place, a: Node, x: Node)
    requires Shiftable(p.forest, t, ss) && x in p.forest.nodes
    ensures Under(Shifted(p, t, ss, op).forest, a, x) ==> Under(p.forest, a, x) || Under(p.forest, a, t)
  {
    if ss != [] {
      var n := |ss| - 1;
      ShiftedStep(p, t, ss, op);
      var q := Shifted(p, t, ss[..n], op);
      ShiftedAbove(p, t, ss, op, a);
      ShiftedUnder(p, t, ss[..n], op, a, x);
      PutUnder(q.forest, t, ss[n], op, a, x);
    }
  }

  /** `s` is captured once in `caps`, and no other capture lies below it. */
  ghost predicate Alone(G: Forest, caps: seq<Node>, s: Node)
    requires Wf(G) && Inside(G, caps)
  {
    multiset(caps)[s] == 1 && forall x | x in caps && Under(G, s, x) :: x == s
  }

  /** No root of `caps` comes after `r` in its top-level chain. */
  ghost predicate Trailing(H: Forest, r: Node, caps: seq<Node>)
    requires Wf(H) && r in H.nodes && Inside(H, caps)
  {
    forall k | H.pos[r] < k < |H.chain[r]| :: H.chain[r][k] !in RootsOf(H, caps)
  }

  // ---------------------------------------------------------------------
  // One move, in the order of the fan-outs

  /**
   * The captured `s` has moved, giving the forest `H` (collection.cpp:49-54,
   * 93-98, 116-121): the root it now lies under is counted once more, then
   * its old root is let go; an old root that now has a parent loses its
   * entry, and one whose count drops to zero is deleted.
   */
  ghost function Moved(p: Sweep, s: Node, H: Forest): (q: Sweep)
    requires Wf(p.forest) && Wf(H) && s in p.forest.nodes && p.forest.nodes == H.nodes
    ensures q.forest == H
  {
    var from, to := RootOf(p.forest, s), RootOf(H, s);
    var st := Decremented(Incremented(p.count, to), from, H.par[from] != null);
    Sweep(H, st.count, p.freed + if st.freed then Freed(H, from) else {})
  }

  /**
   * A parentless `s` that the move gives a parent takes the attached branch
   * of `decrement_root`: its entry is erased, the count of its new root
   * goes up, and nothing is released.
   */
  lemma MovedAttached(p: Sweep, s: Node, H: Forest)
    requires Wf(p.forest) && Wf(H) && s in p.forest.nodes && p.forest.nodes == H.nodes
    requires p.forest.par[s] == null && H.par[s] != null
    ensures var q := Moved(p, s, H);
      && q.freed == p.freed && s !in q.count
      && CountOf(q.count, RootOf(H, s)) == CountOf(p.count, RootOf(H, s)) + 1
  {
    assert RootOf(p.forest, s) == s;
    AttachedStep(p.count, s, RootOf(H, s));
  }

  /** Counting the new root, then dropping the entry of the attached node `s`. */
  lemma AttachedStep(c: Counts, s: Node, to: Node)
    requires to != s
    ensures var st := Decremented(Incremented(c, to), s, true);
      !st.freed && s !in st.count && CountOf(st.count, to) == CountOf(c, to) + 1
  {
  }

  /** An entry counted once can be erased along with its one capture. */
  lemma TallyErase(c: Counts, m: multiset<Node>, r: Node)
    requires Tallies(c, m) && m[r] == 1
    ensures Tallies(c - {r}, m - multiset{r})
  {
    forall y | y in c - {r}
      ensures (c - {r})[y] == (m - multiset{r})[y]
    {
    }
  }

  /** The roots of the captures other than `s` stay where they were. */
  lemma OthersKept(G: Forest, H: Forest, caps: seq<Node>, s: Node, i: nat)
    requires Wf(G) && Wf(H) && G.nodes == H.nodes && Inside(G, caps) && Alone(G, caps, s)
    requires forall y | y in G.nodes && y != s :: H.par[y] == G.par[y]
    requires i < |caps| && caps[i] != s
    ensures RootOf(H, caps[i]) == RootOf(G, caps[i])
  {
    var x := caps[i];
    assert x in caps;
    forall y | y in G.nodes && Under(G, y, x)
      ensures H.par[y] == G.par[y]
    {
    }
    RootKept(G, H, x);
  }

  /** A node found at two indices is captured at least twice. */
  lemma Twice(caps: seq<Node>, s: Node, i: nat, j: nat)
    requires i < |caps| && j < |caps| && i != j && caps[i] == s
    ensures caps[j] == s ==> multiset(caps)[s] >= 2
  {
    var lo, hi := if i < j then i else j, if i < j then j else i;
    assert caps == caps[..hi] + caps[hi..];
    assert caps[..hi][lo] == caps[lo] && caps[hi..][0] == caps[hi];
    assert multiset(caps) == multiset(caps[..hi]) + multiset(caps[hi..]);
  }

  /** The roots of all captures, with the one of `s` replaced. */
  lemma RootsMoved(G: Forest, H: Forest, caps: seq<Node>, s: Node, i: nat)
    requires Wf(G) && Wf(H) && G.nodes == H.nodes && Inside(G, caps) && Alone(G, caps, s)
    requires forall y | y in G.nodes && y != s :: H.par[y] == G.par[y]
    requires i < |caps| && caps[i] == s
    ensures multiset(RootsOf(H, caps)) == multiset(RootsOf(G, caps)) - multiset{RootOf(G, s)} + multiset{RootOf(H, s)}
  {
    var a, b := RootsOf(G, caps), RootsOf(H, caps);
    forall j | 0 <= j < |caps| && j != i
      ensures b[j] == a[j]
    {
      Twice(caps, s, i, j);
      OthersKept(G, H, caps, s, j);
    }
    assert b == a[i := RootOf(H, s)];
  }

  /** Two sequences that hold `v` and `w` at the same indices hold them equally often. */
  lemma SameCount(a: seq<Node>, b: seq<Node>, v: Node, w: Node)
    requires |a| == |b| && forall j | 0 <= j < |a| :: a[j] == v <==> b[j] == w
    ensures multiset(a)[v] == multiset(b)[w]
  {
    if a != [] {
      var n := |a| - 1;
      assert a == a[..n] + [a[n]] && b == b[..n] + [b[n]];
      SameCount(a[..n], b[..n], v, w);
    }
  }

  /** A captured parentless `s` that no other capture lies under is the root of one capture only. */
  lemma RootOnce(G: Forest, caps: seq<Node>, s: Node)
    requires Wf(G) && Inside(G, caps) && Alone(G, caps, s) && s in G.nodes && G.par[s] == null
    ensures multiset(RootsOf(G, caps))[s] == 1
  {
    var rs := RootsOf(G, caps);
    forall j | 0 <= j < |caps|
      ensures rs[j] == s <==> caps[j] == s
    {
      assert caps[j] in caps;
    }
    SameCount(rs, caps, s, s);
  }

  /** The root of a capture is among the roots of the captures. */
  lemma RootIn(F: Forest, caps: seq<Node>, x: Node)
    requires Wf(F) && Inside(F, caps) && x in caps
    ensures RootOf(F, x) in RootsOf(F, caps)
  {
    var i :| 0 <= i < |caps| && caps[i] == x;
    assert RootsOf(F, caps)[i] == RootOf(F, x);
  }

  /** The multiset of roots once `s` has moved from the tree of `from` to that of `to`. */
  lemma RootsAfter(G: Forest, H: Forest, caps: seq<Node>, s: Node)
    requires Wf(G) && Wf(H) && G.nodes == H.nodes && Inside(G, caps) && s in caps && Alone(G, caps, s)
    requires forall y | y in H.nodes && y != s :: H.par[y] == G.par[y]
    ensures var m := multiset(RootsOf(G, caps));
      RootOf(G, s) in m && multiset(RootsOf(H, caps)) == m + multiset{RootOf(H, s)} - multiset{RootOf(G, s)}
  {
    var i :| 0 <= i < |caps| && caps[i] == s;
    var from, to := RootOf(G, s), RootOf(H, s);
    var m := multiset(RootsOf(G, caps));
    RootsMoved(G, H, caps, s, i);
    RootIn(G, caps, s);
    SwapSingles(m, from, to);
  }

  /** Taking out a member and putting in another can be done in either order. */
  lemma SwapSingles(m: multiset<Node>, a: Node, b: Node)
    requires a in m
    ensures m - multiset{a} + multiset{b} == m + multiset{b} - multiset{a}
  {
  }

  /** Moving the one capture `s` keeps the table counting the roots of the captures. */
  lemma MoveAccounts(p: Sweep, caps: seq<Node>, s: Node, H: Forest)
    requires Accounts(p.forest, p.count, caps) && Wf(H) && p.forest.nodes == H.nodes
    requires s in caps && Alone(p.forest, caps, s)
    requires forall y | y in H.nodes && y != s :: H.par[y] == p.forest.par[y]
    ensures Accounts(H, Moved(p, s, H).count, caps)
  {
    var G := p.forest;
    var from, to := RootOf(G, s), RootOf(H, s);
    var m := multiset(RootsOf(G, caps));
    RootsAfter(G, H, caps, s);
    TallyIncrement(p.count, m, to);
    if H.par[from] != null {
      assert from == s;
      RootOnce(G, caps, s);
      TallyErase(Incremented(p.count, to), m + multiset{to}, from);
    } else {
      TallyDecrement(Incremented(p.count, to), m + multiset{to}, from);
    }
  }

  /** A root that is no capture's root, and that no captured root follows, is no capture's root from its place on. */
  lemma Unfollowed(H: Forest, r: Node, caps: seq<Node>, x: Node)
    requires Wf(H) && r in H.nodes && Inside(H, caps) && x in caps
    requires Trailing(H, r, caps) && r !in RootsOf(H, caps)
    ensures forall k | H.pos[r] <= k < |H.chain[r]| :: H.chain[r][k] != RootOf(H, x)
  {
    RootIn(H, caps, x);
    assert H.chain[r][H.pos[r]] == r;
  }

  /**
   * When a move deletes the old root, no capture lies in what goes with
   * it, provided no captured root follows it at the top level.
   */
  lemma MoveSpares(p: Sweep, caps: seq<Node>, s: Node, H: Forest)
    requires Accounts(p.forest, p.count, caps) && Wf(H) && p.forest.nodes == H.nodes
    requires s in caps && Alone(p.forest, caps, s)
    requires forall y | y in H.nodes && y != s :: H.par[y] == p.forest.par[y]
    requires H.par[RootOf(p.forest, s)] == null ==> Trailing(H, RootOf(p.forest, s), caps)
    ensures forall x | x in caps && x in Moved(p, s, H).freed :: x in p.freed
  {
    var G := p.forest;
    var from, to := RootOf(G, s), RootOf(H, s);
    var m := multiset(RootsOf(G, caps));
    RootsAfter(G, H, caps, s);
    TallyIncrement(p.count, m, to);
    var c1 := Incremented(p.count, to);
    if H.par[from] == null {
      TallyDecrement(c1, m + multiset{to}, from);
      if Decremented(c1, from, false).freed {
        assert from !in RootsOf(H, caps) by {
          assert multiset(RootsOf(H, caps))[from] == 0;
        }
        forall x | x in caps
          ensures !Doomed(H, from, x)
        {
          Unfollowed(H, from, caps, x);
          Spared(H, from, x);
        }
      }
    }
  }

  // ---------------------------------------------------------------------
  // remove(), as written and in the order of the fan-outs

  /**
   * One step of `remove()` (collection.cpp:126-131): the root over `e` is
   * let go first, then `e` is detached and counted as a root of its own.
   * When the root's count drops to zero its trees are released before `e`
   * is detached.
   */
  ghost function Removed(p: Sweep, e: Node): (q: Sweep)
    requires Wf(p.forest) && e in p.forest.nodes
    ensures Wf(q.forest) && q.forest.nodes == p.forest.nodes && q.forest.par == p.forest.par[e := null]
  {
    var st := LetGo(p, RootOf(p.forest, e));
    DetachWf(p.forest, e);
    Sweep(Detached(p.forest, e), Incremented(st.count, e), st.freed)
  }

  /**
   * `decrement_root` on the root `from` of `p`'s forest: the table it
   * leaves, and the nodes released so far with the trees it deletes.
   */
  ghost function LetGo(p: Sweep, from: Node): (q: Sweep)
    requires Wf(p.forest) && from in p.forest.nodes
    ensures q.forest == p.forest && p.freed <= q.freed
  {
    var G := p.forest;
    var st := Decremented(p.count, from, G.par[from] != null);
    Sweep(G, st.count, p.freed + if st.freed then Freed(G, from) else {})
  }

  /** `remove()` over the captures `es`, one after the other. */
  ghost function Swept(F: Forest, c: Counts, es: seq<Node>): (q: Sweep)
    requires Wf(F) && Inside(F, es)
    ensures Wf(q.forest) && q.forest.nodes == F.nodes
  {
    if es == [] then Start(F, c)
    else Removed(Swept(F, c, es[..|es| - 1]), es[|es| - 1])
  }

  /** The step `remove()` takes at index `i`, the table and the released set spelt out. */
  lemma SweptStep(F: Forest, c: Counts, es: seq<Node>, i: nat)
    requires Wf(F) && Inside(F, es) && i < |es|
    ensures Inside(F, es[..i]) && Inside(F, es[..i + 1])
    ensures es[i] in Swept(F, c, es[..i]).forest.nodes
    ensures Swept(F, c, es[..i + 1]) == Removed(Swept(F, c, es[..i]), es[i])
  {
    assert es[..i + 1][..i] == es[..i];
    assert es[i] in es;
  }

  /** A step of `remove()`, its table and released set spelt out. */
  lemma RemovedSpelt(p: Sweep, e: Node)
    requires Wf(p.forest) && e in p.forest.nodes
    ensures var from := RootOf(p.forest, e);
      var st := Decremented(p.count, from, p.forest.par[from] != null);
      && Removed(p, e).forest == Detached(p.forest, e)
      && Removed(p, e).count == Incremented(st.count, e)
      && Removed(p, e).freed == p.freed + if st.freed then Freed(p.forest, from) else {}
  {
  }

  /** Releasing earlier does not change what a step of `remove()` adds. */
  lemma RemovedShift(p: Sweep, e: Node, gone: set<Node>)
    requires Wf(p.forest) && e in p.forest.nodes
    ensures Removed(p.(freed := gone + p.freed), e) == Removed(p, e).(freed := gone + Removed(p, e).freed)
  {
  }

  /** One pass of `remove()`'s loop (collection.cpp:127-130) on the captured `e`. */
  method Extract(registry: Registry, ghost G: Forest, e: Node) returns (ghost D: Forest)
    requires Valid(G) && e in G.nodes
    modifies G.nodes`parent, G.nodes`next, G.nodes`prev, G.nodes`firstChild
    modifies registry`count, registry`released
    ensures var q := Removed(Sweep(G, old(registry.count), old(registry.released)), e);
      Valid(D) && D == q.forest && registry.count == q.count && registry.released == q.freed
  {
    RemovedSpelt(Sweep(G, registry.count, registry.released), e);
    Unroot(registry, G, e);
    D := Rehome(registry, G, e);
  }

  /** The first half of that pass: the root over `e` is let go. */
  method Unroot(registry: Registry, ghost G: Forest, e: Node)
    requires Member(G, e)
    modifies registry`count, registry`released
    ensures var from := RootOf(G, e); var st := Decremented(old(registry.count), from, G.par[from] != null);
      registry.count == st.count && registry.released == old(registry.released) + if st.freed then Freed(G, from) else {}
  {
    var r := GetRoot(G, e);
    registry.Decrement(G, r);
  }

  /** The second half of that pass: `e` is detached and counted as a root. */
  method Rehome(registry: Registry, ghost G: Forest, e: Node) returns (ghost D: Forest)
    requires Member(G, e)
    modifies G.nodes`parent, G.nodes`next, G.nodes`prev, G.nodes`firstChild, registry`count
    ensures Valid(D) && D == Detached(G, e) && registry.count == Incremented(old(registry.count), e)
  {
    var _, H := e.Detach(G);
    registry.Increment(e);
    D := H;
  }

  /** The parent map with each of `es` made parentless. */
  ghost function Cut(par: map<Node, Node?>, es: seq<Node>): map<Node, Node?>
  {
    if es == [] then par else Cut(par, es[..|es| - 1])[es[|es| - 1] := null]
  }

  /** `remove()` makes the captures parentless and changes no other parent. */
  lemma {:induction false} SweptCuts(F: Forest, c: Counts, es: seq<Node>)
    requires Wf(F) && Inside(F, es)
    ensures Swept(F, c, es).forest.par == Cut(F.par, es)
  {
    if es != [] {
      SweptCuts(F, c, es[..|es| - 1]);
    }
  }

  /** After `remove()` every capture is parentless and every other node keeps its parent. */
  lemma {:induction false} CutParents(par: map<Node, Node?>, es: seq<Node>, y: Node)
    requires y in par
    ensures y in Cut(par, es) && Cut(par, es)[y] == if y in es then null else par[y]
  {
    if es != [] {
      CutParents(par, es[..|es| - 1], y);
      InLast(es, y);
    }
  }

  /** A sequence holds what its front holds and its last element. */
  lemma InLast(es: seq<Node>, y: Node)
    requires es != []
    ensures y in es <==> y in es[..|es| - 1] || y == es[|es| - 1]
  {
    assert es == es[..|es| - 1] + [es[|es| - 1]];
  }


  /**
   * When the handle holds the only capture of the tree of `e`, the step
   * releases that tree, `e` included, and then counts the released `e`
   * as a live root.
   */
  lemma RemoveReleasesCaptured(p: Sweep, e: Node)
    requires Wf(p.forest) && e in p.forest.nodes && CountOf(p.count, RootOf(p.forest, e)) == 1
    ensures var q := Removed(p, e); e in q.freed && e in q.count
  {
    var G := p.forest;
    var from := RootOf(G, e);
    FreedTrees(G, from, G.pos[from]);
    assert e in Subtree(G, from);
  }

  /** With the root counted more than once, the step releases nothing. */
  lemma RemoveSafe(p: Sweep, e: Node)
    requires Wf(p.forest) && e in p.forest.nodes && CountOf(p.count, RootOf(p.forest, e)) > 1
    ensures Removed(p, e).freed == p.freed
  {
  }

  /**
   * One step of `remove()` in the order the fan-outs use: `e` is detached
   * and counted as a root first, and only then is its old root let go.
   */
  ghost function Unhooked(p: Sweep, e: Node): (q: Sweep)
    requires Wf(p.forest) && e in p.forest.nodes
    ensures Wf(q.forest) && q.forest.nodes == p.forest.nodes
  {
    DetachWf(p.forest, e);
    Moved(p, e, Detached(p.forest, e))
  }

  /** The detached capture counts as its own root, and keeps the table counting every capture. */
  lemma UnhookAccounts(p: Sweep, caps: seq<Node>, e: Node)
    requires Accounts(p.forest, p.count, caps) && e in caps && Alone(p.forest, caps, e)
    ensures var q := Unhooked(p, e);
      Accounts(q.forest, q.count, caps) && q.forest.par[e] == null && CountOf(q.count, e) > 0
  {
    var G := p.forest;
    DetachWf(G, e);
    var H := Detached(G, e);
    MoveAccounts(p, caps, e, H);
    RootIn(H, caps, e);
  }

  /**
   * The step releases nothing that is captured, provided no captured
   * root follows the old root at the top level.
   */
  lemma UnhookSpares(p: Sweep, caps: seq<Node>, e: Node)
    requires Accounts(p.forest, p.count, caps) && e in caps && Alone(p.forest, caps, e)
    requires Wf(Detached(p.forest, e)) && Trailing(Detached(p.forest, e), RootOf(p.forest, e), caps)
    ensures forall x | x in caps && x in Unhooked(p, e).freed :: x in p.freed
  {
    DetachWf(p.forest, e);
    MoveSpares(p, caps, e, Detached(p.forest, e));
  }

  /** `remove()` over the captures `es` in the corrected order, one after the other. */
  ghost function AllUnhooked(F: Forest, c: Counts, es: seq<Node>): (q: Sweep)
    requires Wf(F) && Inside(F, es)
    ensures Wf(q.forest) && q.forest.nodes == F.nodes
  {
    if es == [] then Start(F, c)
    else Unhooked(AllUnhooked(F, c, es[..|es| - 1]), es[|es| - 1])
  }

  /** The step the corrected `remove()` takes at index `i`. */
  lemma AllUnhookedStep(F: Forest, c: Counts, es: seq<Node>, i: nat)
    requires Wf(F) && Inside(F, es) && i < |es|
    ensures Inside(F, es[..i]) && Inside(F, es[..i + 1])
    ensures es[i] in AllUnhooked(F, c, es[..i]).forest.nodes
    ensures AllUnhooked(F, c, es[..i + 1]) == Unhooked(AllUnhooked(F, c, es[..i]), es[i])
  {
    assert es[..i + 1][..i] == es[..i];
    assert es[i] in es;
  }

  /** Releasing earlier does not change what a step of the corrected `remove()` adds. */
  lemma UnhookedShift(p: Sweep, e: Node, gone: set<Node>)
    requires Wf(p.forest) && e in p.forest.nodes
    ensures Unhooked(p.(freed := gone + p.freed), e) == Unhooked(p, e).(freed := gone + Unhooked(p, e).freed)
  {
  }

  /** One pass of the corrected `remove()` on the captured `e`: `e` is detached and counted, then its old root let go. */
  method Unhook(registry: Registry, ghost G: Forest, e: Node) returns (ghost D: Forest)
    requires Valid(G) && e in G.nodes
    modifies G.nodes`parent, G.nodes`next, G.nodes`prev, G.nodes`firstChild
    modifies registry`count, registry`released
    ensures var q := Unhooked(Sweep(G, old(registry.count), old(registry.released)), e);
      Valid(D) && D == q.forest && registry.count == q.count && registry.released == q.freed
  {
    var from := GetRoot(G, e);
    var _, H := e.Detach(G);
    MovedSpelt(Sweep(G, registry.count, registry.released), e, H);
    Recount(registry, H, e, from);
    D := H;
  }

  /** Detaching `e` gives no node a new ancestor. */
  lemma {:induction false} DetachedUnder(G: Forest, e: Node, a: Node, x: Node)
    requires Wf(G) && e in G.nodes && x in G.nodes
    ensures Wf(Detached(G, e))
    ensures Under(Detached(G, e), a, x) ==> Under(G, a, x)
    decreases G.level[x]
  {
    DetachedFrame(G, e);
    var D := Detached(G, e);
    if x != a && D.par[x] != null {
      DetachedUnder(G, e, a, D.par[x]);
    }
  }

  /** The corrected `remove()` gives no node a new ancestor. */
  lemma {:induction false} AllUnhookedUnder(F: Forest, c: Counts, es: seq<Node>, a: Node, x: Node)
    requires Wf(F) && Inside(F, es) && x in F.nodes
    ensures Under(AllUnhooked(F, c, es).forest, a, x) ==> Under(F, a, x)
  {
    if es != [] {
      var n := |es| - 1;
      assert Inside(F, es[..n]) && es[n] in es;
      var p := AllUnhooked(F, c, es[..n]);
      AllUnhookedUnder(F, c, es[..n], a, x);
      DetachedUnder(p.forest, es[n], a, x);
    }
  }

  /** Each capture the corrected `remove()` reaches is still alone when it is reached. */
  lemma StillLone(F: Forest, c: Counts, es: seq<Node>, caps: seq<Node>, e: Node)
    requires Wf(F) && Inside(F, caps) && Inside(F, es) && e in F.nodes && Alone(F, caps, e)
    ensures Inside(AllUnhooked(F, c, es).forest, caps) && Alone(AllUnhooked(F, c, es).forest, caps, e)
  {
    var G := AllUnhooked(F, c, es).forest;
    forall x | x in caps && Under(G, e, x)
      ensures x == e
    {
      AllUnhookedUnder(F, c, es, e, x);
    }
  }

  /**
   * The corrected `remove()` keeps the table counting the roots of the
   * captures, when each of its captures is captured once with no other
   * capture below it.
   */
  lemma {:induction false} RemoveSafelyAccounts(F: Forest, c: Counts, es: seq<Node>, caps: seq<Node>)
    requires Accounts(F, c, caps) && Lone(F, caps, es)
    ensures Inside(F, es)
    ensures var q := AllUnhooked(F, c, es); Accounts(q.forest, q.count, caps)
  {
    if es != [] {
      var n := |es| - 1;
      assert Lone(F, caps, es[..n]) && es[n] in es;
      RemoveSafelyAccounts(F, c, es[..n], caps);
      var p := AllUnhooked(F, c, es[..n]);
      StillLone(F, c, es[..n], caps, es[n]);
      UnhookAccounts(p, caps, es[n]);
    }
  }

  /** Detaching a capture that is alone keeps every captured root standing alone. */
  lemma DetachSpaced(G: Forest, caps: seq<Node>, e: Node)
    requires Wf(G) && Inside(G, caps) && Spaced(G, caps) && e in caps && Alone(G, caps, e)
    ensures Wf(Detached(G, e)) && Spaced(Detached(G, e), caps)
  {
    DetachedFrame(G, e);
    var D := Detached(G, e);
    assert G.par[e] == null ==> RootOf(G, e) == e;
    forall x | x in caps
      ensures D.chain[RootOf(D, x)] == [RootOf(D, x)]
    {
      if x != e {
        DetachKeepsRoot(G, caps, e, x);
      }
    }
  }

  /** Detaching a capture that is alone keeps the root of every other capture, and that root's chain. */
  lemma DetachKeepsRoot(G: Forest, caps: seq<Node>, e: Node, x: Node)
    requires Wf(G) && Inside(G, caps) && Spaced(G, caps) && e in caps && Alone(G, caps, e)
    requires x in caps && x != e
    ensures Wf(Detached(G, e)) && RootOf(Detached(G, e), x) == RootOf(G, x)
    ensures Detached(G, e).chain[RootOf(G, x)] == [RootOf(G, x)]
  {
    DetachedFrame(G, e);
    var D := Detached(G, e);
    var r := RootOf(G, x);
    assert !Under(G, e, x);
    forall y | y in G.nodes && Under(G, y, x)
      ensures D.par[y] == G.par[y]
    {
      if y == e {
        UnderTrans(G, e, y, x);
      }
    }
    RootKept(G, D, x);
    assert G.par[e] == null ==> RootOf(G, e) == e;
    DetachedChain(G, e, r);
  }

  /**
   * The corrected `remove()` releases no captured node, when each of its
   * captures is captured once with no other capture below it and every
   * captured root stands alone at the top level.
   */
  lemma {:induction false} RemoveSafelySpares(F: Forest, c: Counts, es: seq<Node>, caps: seq<Node>)
    requires Accounts(F, c, caps) && Lone(F, caps, es) && Spaced(F, caps)
    ensures Inside(F, es)
    ensures var q := AllUnhooked(F, c, es);
      && Inside(q.forest, caps) && Spaced(q.forest, caps)
      && forall x | x in caps :: x !in q.freed
  {
    if es != [] {
      var n := |es| - 1;
      var e := es[n];
      assert Lone(F, caps, es[..n]) && e in es;
      RemoveSafelySpares(F, c, es[..n], caps);
      RemoveSafelyAccounts(F, c, es[..n], caps);
      var p := AllUnhooked(F, c, es[..n]);
      StillLone(F, c, es[..n], caps, e);
      UnhookKeepsSpaced(p, caps, e);
    }
  }

  /** One step of the corrected `remove()` on a capture that is alone, among captured roots that stand alone. */
  lemma UnhookKeepsSpaced(p: Sweep, caps: seq<Node>, e: Node)
    requires Accounts(p.forest, p.count, caps) && Spaced(p.forest, caps) && e in caps && Alone(p.forest, caps, e)
    ensures var q := Unhooked(p, e);
      && Inside(q.forest, caps) && Spaced(q.forest, caps)
      && forall x | x in caps && x in q.freed :: x in p.freed
  {
    DetachSpaced(p.forest, caps, e);
    var D := Detached(p.forest, e);
    var r := RootOf(p.forest, e);
    assert D.par[r] == null;
    SpacedTrailing(D, r, caps);
    UnhookSpares(p, caps, e);
  }

  // ---------------------------------------------------------------------
  // The table through the moves of a fan-out

  /** Every source is captured, once, with no other capture below it. */
  ghost predicate Lone(G: Forest, caps: seq<Node>, ss: seq<Node>)
    requires Wf(G) && Inside(G, caps)
  {
    forall s | s in ss :: s in caps && Alone(G, caps, s)
  }

  /**
   * The moves of a fan-out keep the table counting the roots of the
   * captures, when no source lies above the target and each source is
   * captured once with no other capture below it.
   */
  lemma {:induction false} ShiftAccounts(p: Sweep, t: Node, ss: seq<Node>, op: Place, caps: seq<Node>)
    requires Shiftable(p.forest, t, ss) && Accounts(p.forest, p.count, caps) && Lone(p.forest, caps, ss)
    ensures var q := Shifted(p, t, ss, op); Accounts(q.forest, q.count, caps)
  {
    if ss != [] {
      var n := |ss| - 1;
      ShiftedStep(p, t, ss, op);
      assert Lone(p.forest, caps, ss[..n]);
      ShiftAccounts(p, t, ss[..n], op, caps);
      var q := Shifted(p, t, ss[..n], op);
      var s := ss[n];
      StillAlone(p, t, ss, op, caps);
      PutOthers(q.forest, t, s, op);
      MoveAccounts(q, caps, s, Put(q.forest, t, s, op));
    }
  }

  /** The last source is still alone after the moves before it. */
  lemma StillAlone(p: Sweep, t: Node, ss: seq<Node>, op: Place, caps: seq<Node>)
    requires Shiftable(p.forest, t, ss) && Accounts(p.forest, p.count, caps) && Lone(p.forest, caps, ss) && ss != []
    ensures Shiftable(p.forest, t, ss[..|ss| - 1])
    ensures var G := Shifted(p, t, ss[..|ss| - 1], op).forest; Inside(G, caps) && Alone(G, caps, ss[|ss| - 1])
  {
    var n := |ss| - 1;
    var s := ss[n];
    assert Shiftable(p.forest, t, ss[..n]);
    var G := Shifted(p, t, ss[..n], op).forest;
    assert s in ss;
    assert Alone(p.forest, caps, s) && !Under(p.forest, s, t);
    forall x | x in caps && Under(G, s, x)
      ensures x == s
    {
      ShiftedUnder(p, t, ss[..n], op, s, x);
      assert Under(p.forest, s, x);
    }
  }

  // ---------------------------------------------------------------------
  // What the moves of a fan-out release

  /** Every captured root stands alone at the top level, without siblings. */
  ghost predicate Spaced(G: Forest, caps: seq<Node>)
    requires Wf(G) && Inside(G, caps)
  {
    forall x | x in caps :: G.chain[RootOf(G, x)] == [RootOf(G, x)]
  }

  /** A parentless node other than `s` keeps its chain through the detaching of `s`. */
  lemma DetachedChain(G: Forest, s: Node, y: Node)
    requires Wf(G) && s in G.nodes && (G.par[s] == null ==> G.chain[s] == [s])
    requires y in G.nodes && y != s && G.par[y] == null
    ensures Detached(G, s).chain[y] == G.chain[y]
  {
    forall i | 0 <= i < |G.chain[s]|
      ensures G.chain[s][i] != y
    {
      assert G.par[G.chain[s][i]] == G.par[s];
    }
  }

  /** A chain with a parent holds no parentless node. */
  lemma ChainHasParent(D: Forest, a: Node, y: Node)
    requires Wf(D) && a in D.nodes && y in D.nodes && D.par[a] != null && D.par[y] == null
    ensures y !in D.chain[a]
  {
    forall i | 0 <= i < |D.chain[a]|
      ensures D.chain[a][i] != y
    {
      assert D.par[D.chain[a][i]] == D.par[a];
    }
  }

  /**
   * A parentless node other than `s` that stands alone keeps standing
   * alone when `s` is put at a place with a parent.
   */
  lemma PutAlone(G: Forest, t: Node, s: Node, op: Place, y: Node)
    requires Movable(G, t, s) && Host(G, t, op) != null && !Ignored(t, op)
    requires G.par[s] == null ==> G.chain[s] == [s]
    requires y in G.nodes && y != s && G.par[y] == null && G.chain[y] == [y]
    ensures Put(G, t, s, op).par[y] == null && Put(G, t, s, op).chain[y] == [y]
  {
    PutFrame(G, t, s, op);
    DetachWf(G, s);
    DetachedChain(G, s, y);
    if op.AsLastChild? || op.AsFirstChild? {
      PutAloneBelow(G, t, s, op, y);
    } else {
      PutAloneBeside(G, t, s, op, y);
    }
  }

  /** The same, for `append` and `prepend`. */
  lemma PutAloneBelow(G: Forest, t: Node, s: Node, op: Place, y: Node)
    requires Movable(G, t, s) && !Ignored(t, op) && (op.AsLastChild? || op.AsFirstChild?)
    requires y in G.nodes && y != s && Wf(Detached(G, s))
    requires Detached(G, s).par[y] == null && Detached(G, s).chain[y] == [y]
    ensures Put(G, t, s, op).chain[y] == [y]
  {
    PutUnderneath(G, t, s, op);
    var D := Detached(G, s);
    var c := D.kids[t];
    if c != [] {
      AttachAnchors(D, t, s);
      ChainHasParent(D, c[0], y);
      ChainHasParent(D, Last(c), y);
    }
  }

  /** The same, for `nextSibling` and `prevSibling`. */
  lemma PutAloneBeside(G: Forest, t: Node, s: Node, op: Place, y: Node)
    requires Movable(G, t, s) && (op.AsNextSibling? || op.AsPrevSibling?) && G.par[t] != null
    requires y in G.nodes && y != s && Wf(Detached(G, s))
    requires Detached(G, s).par[y] == null && Detached(G, s).chain[y] == [y]
    ensures Put(G, t, s, op).chain[y] == [y]
  {
    PutBeside(G, t, s, op);
    DetachedFrame(G, s);
    var D := Detached(G, s);
    assert D.par[t] == G.par[t];
    ChainHasParent(D, t, y);
  }

  /** The nodes at or above `t` keep their parents when `s`, not among them, is put anywhere. */
  lemma PutKeepsRoot(G: Forest, t: Node, s: Node, op: Place, x: Node)
    requires Movable(G, t, s) && x in G.nodes && !Under(G, s, x)
    ensures RootOf(Put(G, t, s, op), x) == RootOf(G, x)
  {
    PutOthers(G, t, s, op);
    var H := Put(G, t, s, op);
    forall y | y in G.nodes && Under(G, y, x)
      ensures H.par[y] == G.par[y]
    {
      assert y != s;
    }
    RootKept(G, H, x);
  }

  /** The root of what is put at `t` is the root `t` had. */
  lemma PutRoot(G: Forest, t: Node, s: Node, op: Place)
    requires Movable(G, t, s) && !Ignored(t, op) && Host(G, t, op) != null
    ensures RootOf(Put(G, t, s, op), s) == RootOf(G, t)
  {
    PutFrame(G, t, s, op);
    var H := Put(G, t, s, op);
    var h := Host(G, t, op);
    assert H.par[s] == h;
    assert RootOf(H, s) == RootOf(H, h);
    if op.AsLastChild? || op.AsFirstChild? {
      PutKeepsRoot(G, t, s, op, t);
    } else {
      assert Under(G, h, t);
      assert !Under(G, s, h);
      PutKeepsRoot(G, t, s, op, h);
      assert RootOf(G, t) == RootOf(G, h);
    }
  }

  /**
   * Putting the captured `s` at the captured `t` keeps every captured root
   * standing alone, when the place has a parent.
   */
  lemma PutSpaced(G: Forest, t: Node, s: Node, op: Place, caps: seq<Node>)
    requires Movable(G, t, s) && Inside(G, caps) && Spaced(G, caps) && (Host(G, t, op) == null ==> Ignored(t, op))
    requires s in caps && Alone(G, caps, s) && t in caps
    ensures Spaced(Put(G, t, s, op), caps)
  {
    PutFrame(G, t, s, op);
    var H := Put(G, t, s, op);
    if !Ignored(t, op) {
      assert G.par[s] == null ==> RootOf(G, s) == s;
      forall x | x in caps
        ensures H.chain[RootOf(H, x)] == [RootOf(H, x)]
      {
        var z := if x == s then t else x;
        assert !Under(G, s, z);
        var r := RootOf(G, z);
        assert Under(G, r, z);
        assert r != s;
        if x == s {
          PutRoot(G, t, s, op);
        } else {
          PutKeepsRoot(G, t, s, op, x);
        }
        assert G.chain[r] == [r];
        PutAlone(G, t, s, op, r);
      }
    }
  }

  /** A captured root standing alone has no captured root after it. */
  lemma SpacedTrailing(H: Forest, r: Node, caps: seq<Node>)
    requires Wf(H) && Inside(H, caps) && Spaced(H, caps) && r in H.nodes && H.par[r] == null
    ensures Trailing(H, r, caps)
  {
    var rs := RootsOf(H, caps);
    forall k | H.pos[r] < k < |H.chain[r]|
      ensures H.chain[r][k] !in rs
    {
      var y := H.chain[r][k];
      assert |H.chain[y]| >= 2;
      forall i | 0 <= i < |caps|
        ensures rs[i] != y
      {
        assert caps[i] in caps;
        assert |H.chain[rs[i]]| == 1;
      }
    }
  }

  /**
   * The moves of a fan-out to a captured target whose place has a parent
   * keep every captured root standing alone and release no captured node.
   */
  lemma {:induction false} ShiftSpares(p: Sweep, t: Node, ss: seq<Node>, op: Place, caps: seq<Node>)
    requires Shiftable(p.forest, t, ss) && Accounts(p.forest, p.count, caps) && Lone(p.forest, caps, ss)
    requires Spaced(p.forest, caps) && t in caps && (Host(p.forest, t, op) == null ==> Ignored(t, op))
    ensures var q := Shifted(p, t, ss, op);
      && Spaced(q.forest, caps)
      && forall x | x in caps && x in q.freed :: x in p.freed
  {
    if ss != [] {
      var n := |ss| - 1;
      ShiftedStep(p, t, ss, op);
      assert Lone(p.forest, caps, ss[..n]);
      ShiftSpares(p, t, ss[..n], op, caps);
      ShiftAccounts(p, t, ss[..n], op, caps);
      var q := Shifted(p, t, ss[..n], op);
      var s := ss[n];
      StillAlone(p, t, ss, op, caps);
      assert t !in ss[..n];
      assert Host(q.forest, t, op) == Host(p.forest, t, op);
      assert !Under(q.forest, s, t) by {
        ShiftedAbove(p, t, ss, op, s);
      }
      PutSpaced(q.forest, t, s, op, caps);
      PutOthers(q.forest, t, s, op);
      var H := Put(q.forest, t, s, op);
      var r := RootOf(q.forest, s);
      if H.par[r] == null {
        SpacedTrailing(H, r, caps);
      }
      MoveSpares(q, caps, s, H);
    }
  }

  // ---------------------------------------------------------------------
  // The second loop of a fan-out

  /**
   * `(*last)->append(s)`, `prepend(s)`, `nextSibling(s)` or
   * `prevSibling(s)` (html_node.cpp:45-70, node.cpp:46-92): `s` is put at
   * `t` as `op` says.
   */
  method PutAt(ghost G: Forest, t: Node, s: Node, op: Place) returns (ghost H: Forest)
    requires Valid(G) && Movable(G, t, s)
    modifies G.nodes`parent, G.nodes`next, G.nodes`prev, G.nodes`firstChild
    ensures Valid(H) && H == Put(G, t, s, op)
  {
    if op.AsLastChild? || op.AsFirstChild? {
      H := PutBelow(G, t, s, op);
    } else {
      H := PutNextTo(G, t, s, op);
    }
  }

  /** `t->append(s)` or `t->prepend(s)`. */
  method PutBelow(ghost G: Forest, t: Node, s: Node, op: Place) returns (ghost H: Forest)
    requires Valid(G) && Movable(G, t, s) && (op.AsLastChild? || op.AsFirstChild?)
    modifies G.nodes`parent, G.nodes`next, G.nodes`prev, G.nodes`firstChild
    ensures Valid(H) && H == Put(G, t, s, op)
  {
    PutUnderneath(G, t, s, op);
    if op.AsLastChild? {
      var _, H' := Html.Append(G, t, s);
      H := H';
    } else {
      var _, H' := Html.Prepend(G, t, s);
      H := H';
    }
  }

  /** `t->nextSibling(s)` or `t->prevSibling(s)`. */
  method PutNextTo(ghost G: Forest, t: Node, s: Node, op: Place) returns (ghost H: Forest)
    requires Valid(G) && Movable(G, t, s) && (op.AsNextSibling? || op.AsPrevSibling?)
    modifies G.nodes`parent, G.nodes`next, G.nodes`prev, G.nodes`firstChild
    ensures Valid(H) && H == Put(G, t, s, op)
  {
    PutBeside(G, t, s, op);
    if op.AsNextSibling? {
      H := t.InsertAfter(G, s);
    } else {
      H := t.InsertBefore(G, s);
    }
  }

  /** Putting `s` under `t` appends or prepends it once it is taken out, unless `t` is a text node. */
  lemma PutUnderneath(G: Forest, t: Node, s: Node, op: Place)
    requires Movable(G, t, s) && (op.AsLastChild? || op.AsFirstChild?)
    ensures t.kind.Text? ==> Put(G, t, s, op) == G
    ensures !t.kind.Text? ==> Wf(Detached(G, s)) && CanAttach(Detached(G, s), t, s)
    ensures !t.kind.Text? && op.AsLastChild? ==> Put(G, t, s, op) == Appended(Detached(G, s), t, s)
    ensures !t.kind.Text? && op.AsFirstChild? ==> Put(G, t, s, op) == Prepended(Detached(G, s), t, s)
  {
    DetachWf(G, s);
    if !t.kind.Text? {
      DetachedCanAttach(G, s, t);
    }
  }

  /** A node already taken out is taken out again to no effect. */
  lemma DetachedTwice(G: Forest, s: Node)
    requires Wf(G) && s in G.nodes
    ensures Wf(Detached(G, s)) && Detached(Detached(G, s), s) == Detached(G, s)
  {
    DetachWf(G, s);
    DetachStandalone(Detached(G, s), s);
  }

  /** Putting a node beside another takes it out first, so taking it out beforehand changes nothing. */
  lemma PutDetached(G: Forest, t: Node, s: Node, op: Place)
    requires Movable(G, t, s) && (op.AsNextSibling? || op.AsPrevSibling?)
    ensures Movable(Detached(G, s), t, s) && Put(Detached(G, s), t, s, op) == Put(G, t, s, op)
  {
    UnderDetached(G, s, t);
    DetachedTwice(G, s);
    PutBeside(Detached(G, s), t, s, op);
    PutBeside(G, t, s, op);
    assert Put(Detached(G, s), t, s, op) == Put(G, t, s, op) by {
      if op.AsNextSibling? {
        assert Detached(Detached(G, s), s).pos[t] == Detached(G, s).pos[t];
      }
    }
  }

  /** Putting `s` beside `t` inserts it into the chain of `t` once it is taken out. */
  lemma PutBeside(G: Forest, t: Node, s: Node, op: Place)
    requires Movable(G, t, s) && (op.AsNextSibling? || op.AsPrevSibling?)
    ensures Wf(Detached(G, s)) && t in Detached(G, s).nodes
    ensures var D := Detached(G, s); var k := if op.AsNextSibling? then D.pos[t] + 1 else D.pos[t];
      CanInsert(D, t, s, k) && Put(G, t, s, op) == Inserted(D, t, s, k)
  {
    DetachWf(G, s);
    DetachedCanInsert(G, s, t);
    assert !Ignored(t, op) && !op.AsLastChild? && !op.AsFirstChild?;
  }

  /**
   * One pass of the second loop of a fan-out (collection.cpp:50-56,
   * 73-79, 94-100, 115-121): the root over `s` is read, `s` is put at the
   * last target `t` (`after` and `before` detach it first), the new root
   * over `s` is counted and the old one let go.
   */
  method Relocate(registry: Registry, ghost G: Forest, t: Node, s: Node, op: Place) returns (ghost H: Forest)
    requires Valid(G) && Movable(G, t, s)
    modifies G.nodes`parent, G.nodes`next, G.nodes`prev, G.nodes`firstChild
    modifies registry`count, registry`released
    ensures var q := Moved(Sweep(G, old(registry.count), old(registry.released)), s, Put(G, t, s, op));
      Valid(H) && H == q.forest && registry.count == q.count && registry.released == q.freed
  {
    ghost var p := Sweep(G, registry.count, registry.released);
    ghost var P := Put(G, t, s, op);
    MovedSpelt(p, s, P);
    var from := GetRoot(G, s);
    H := Transplant(G, t, s, op);
    assert H == P && Member(H, s);
    Recount(registry, H, s, from);
  }

  /** What a move does to the table and the released set, spelt out. */
  lemma MovedSpelt(p: Sweep, s: Node, H: Forest)
    requires Wf(p.forest) && Wf(H) && s in p.forest.nodes && p.forest.nodes == H.nodes
    ensures var from := RootOf(p.forest, s);
      var st := Decremented(Incremented(p.count, RootOf(H, s)), from, H.par[from] != null);
      && Moved(p, s, H).count == st.count
      && Moved(p, s, H).freed == p.freed + if st.freed then Freed(H, from) else {}
  {
  }

  /** The middle of that pass: `s` goes to its new place. */
  method Transplant(ghost G: Forest, t: Node, s: Node, op: Place) returns (ghost H: Forest)
    requires Valid(G) && Movable(G, t, s)
    modifies G.nodes`parent, G.nodes`next, G.nodes`prev, G.nodes`firstChild
    ensures Valid(H) && H == Put(G, t, s, op)
  {
    ghost var D := G;
    if op.AsNextSibling? || op.AsPrevSibling? {
      var _, D' := s.Detach(G);
      D := D';
      PutDetached(G, t, s, op);
    }
    H := PutAt(D, t, s, op);
  }

  /** The end of that pass: the new root over `s` is counted and the old root `from` let go. */
  method Recount(registry: Registry, ghost H: Forest, s: Node, from: Node)
    requires Member(H, s) && from in H.nodes
    modifies registry`count, registry`released
    ensures Valid(H)
    ensures var st := Decremented(Incremented(old(registry.count), RootOf(H, s)), from, H.par[from] != null);
      registry.count == st.count && registry.released == old(registry.released) + if st.freed then Freed(H, from) else {}
  {
    var to := GetRoot(H, s);
    registry.Increment(to);
    registry.Decrement(H, from);
  }

  /**
   * The second loop of a fan-out: each of `ss` in turn is moved to the
   * last target `t`, the table following each move.
   */
  method Spread(registry: Registry, ghost G: Forest, t: Node, ss: seq<Node>, op: Place) returns (ghost H: Forest)
    requires Valid(G) && Shiftable(G, t, ss)
    modifies G.nodes`parent, G.nodes`next, G.nodes`prev, G.nodes`firstChild
    modifies registry`count, registry`released
    ensures var q := Shifted(Sweep(G, old(registry.count), old(registry.released)), t, ss, op);
      Valid(H) && H == q.forest && registry.count == q.count && registry.released == q.freed
  {
    ghost var p := Sweep(G, registry.count, registry.released);
    ghost var q := p;
    H := G;
    assert ss[..0] == [];
    for i := 0 to |ss|
      invariant Shiftable(G, t, ss[..i]) && q == Shifted(p, t, ss[..i], op)
      invariant Valid(H) && Sweep(H, registry.count, registry.released) == q
    {
      H, q := Advance(registry, p, H, t, ss, i, op, q);
    }
    assert ss[..|ss|] == ss;
  }

  /** One round of that loop, on the `i`-th node. */
  method Advance(registry: Registry, ghost p: Sweep, ghost H: Forest, t: Node, ss: seq<Node>, i: nat, op: Place,
                 ghost q: Sweep) returns (ghost H': Forest, ghost q': Sweep)
    requires Shiftable(p.forest, t, ss) && i < |ss| && Shiftable(p.forest, t, ss[..i])
    requires q == Shifted(p, t, ss[..i], op) && Valid(H) && H == q.forest
    requires registry.count == q.count && registry.released == q.freed
    modifies H.nodes`parent, H.nodes`next, H.nodes`prev, H.nodes`firstChild
    modifies registry`count, registry`released
    ensures Shiftable(p.forest, t, ss[..i + 1]) && q' == Shifted(p, t, ss[..i + 1], op)
    ensures Valid(H') && H' == q'.forest
    ensures registry.count == q'.count && registry.released == q'.freed
  {
    ShiftedAt(p, t, ss, i, op);
    H' := Relocate(registry, H, t, ss[i], op);
    q' := Moved(q, ss[i], Put(q.forest, t, ss[i], op));
  }

  /** The `i`-th move of a fan-out, after the ones before it. */
  lemma ShiftedAt(p: Sweep, t: Node, ss: seq<Node>, i: nat, op: Place)
    requires Shiftable(p.forest, t, ss) && i < |ss| && Shiftable(p.forest, t, ss[..i])
    ensures var q := Shifted(p, t, ss[..i], op);
      && Shiftable(p.forest, t, ss[..i + 1]) && Movable(q.forest, t, ss[i])
      && Shifted(p, t, ss[..i + 1], op) == Moved(q, ss[i], Put(q.forest, t, ss[i], op))
  {
    assert ss[..i + 1][..i] == ss[..i];
    assert Shiftable(p.forest, t, ss[..i + 1]);
    ShiftedStep(p, t, ss[..i + 1], op);
  }
}
