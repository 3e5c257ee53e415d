/**
 * The four fan-outs of a handle (collection.cpp:36-123): `append`,
 * `prepend`, `after` and `before` give every captured target but the last
 * a clone of each node of the other handle, in order, then move the nodes
 * themselves to the last target.
 */
module Fanouts {
  import opened Tree
  import opened Snapshot
  import opened Standing
  import opened Stages
  import opened Growth
  import opened Ownership
  import opened Captures
  import opened Moves
  import Cloning
  import Grafts

  // ---------------------------------------------------------------------
  // Which clone goes where

  /** A clone of `source` is put at `target`. */
  datatype Aim = Aim(target: Node, source: Node)

  /** The inner loop of the first phase: a clone of each of `ss` in turn goes to `t`. */
  ghost function Row(t: Node, ss: seq<Node>): (row: seq<Aim>)
    ensures |row| == |ss|
  {
    if ss == [] then [] else Row(t, ss[..|ss| - 1]) + [Aim(t, ss[|ss| - 1])]
  }

  /** Both loops of the first phase: the rows of the targets `ts`, one after the other. */
  ghost function Aims(ts: seq<Node>, ss: seq<Node>): (aims: seq<Aim>)
    ensures |aims| == |ts| * |ss|
  {
    if ts == [] then [] else Aims(ts[..|ts| - 1], ss) + Row(ts[|ts| - 1], ss)
  }

  /** The `j`-th clone of a row is a clone of the `j`-th source. */
  lemma {:induction false} RowAt(t: Node, ss: seq<Node>, j: nat)
    requires j < |ss|
    ensures Row(t, ss)[j] == Aim(t, ss[j])
    decreases |ss|
  {
    var n := |ss| - 1;
    if j < n {
      RowAt(t, ss[..n], j);
    }
  }

  /**
   * The clone made in round `j` of the inner loop of round `i` of the outer
   * loop is a clone of the `j`-th source put at the `i`-th target.
   */
  lemma {:induction false} AimsAt(ts: seq<Node>, ss: seq<Node>, i: nat, j: nat)
    requires i < |ts| && j < |ss|
    ensures i * |ss| + j < |Aims(ts, ss)| && Aims(ts, ss)[i * |ss| + j] == Aim(ts[i], ss[j])
    decreases |ts|
  {
    var n := |ts| - 1;
    var front, row := Aims(ts[..n], ss), Row(ts[n], ss);
    assert Aims(ts, ss) == front + row;
    if i < n {
      AimsAt(ts[..n], ss, i, j);
      RowsBefore(i, n, |ss|, j);
      assert ts[..n][i] == ts[i];
    } else {
      RowAt(ts[n], ss, j);
      assert (front + row)[|front| + j] == row[j];
    }
  }

  /** A place in an earlier row comes before every place of row `n`. */
  lemma {:induction false} RowsBefore(i: nat, n: nat, w: nat, j: nat)
    requires i < n && j < w
    ensures i * w + j < n * w
    decreases n
  {
    if i < n - 1 {
      RowsBefore(i, n - 1, w, j);
    }
    assert n * w == (n - 1) * w + w;
  }

  // ---------------------------------------------------------------------
  // The first phase: a trace of clones

  /**
   * One round of the first phase: `clone` is a new root grown onto the
   * forest before the round, whose subtree copies that of the source as it
   * is at that moment, and `forest` is the forest once it is put at the
   * target.
   */
  datatype Graft = Graft(aim: Aim, clone: Node, sprouted: Forest, table: Table, forest: Forest)

  ghost predicate Grafted(G: Forest, B: Table, op: Place, g: Graft)
  {
    && Wf(G) && g.aim.source in G.nodes && g.aim.target in G.nodes
    && Sprouted(G, B, g.sprouted, g.table, g.clone)
    && Snap(g.sprouted, g.table, g.clone) == Copy(Snap(G, B, g.aim.source))
    && Movable(g.sprouted, g.aim.target, g.clone)
    && g.forest == Put(g.sprouted, g.aim.target, g.clone, op)
  }

  /** The rounds of the first phase so far, the last one outermost. */
  datatype Trace = Start | Then(before: Trace, last: Graft)

  /** Where the rounds `tr` put their clones, in order. */
  ghost function AimsOf(tr: Trace): seq<Aim>
  {
    if tr.Start? then [] else AimsOf(tr.before) + [tr.last.aim]
  }

  /** Where a replay of rounds gets to: a forest and its attributes, or a round that does not follow. */
  datatype Outcome = Stuck | Reached(forest: Forest, table: Table)

  /**
   * The rounds `tr` replayed from the forest `G` with the attributes `B`:
   * each must do what `Grafted` says, from where the round before left.
   */
  ghost function Replay(G: Forest, B: Table, op: Place, tr: Trace): Outcome
  {
    if tr.Start? then Reached(G, B)
    else
      var p := Replay(G, B, op, tr.before);
      if p.Reached? && Grafted(p.forest, p.table, op, tr.last) then Reached(tr.last.forest, tr.last.table) else Stuck
  }

  /**
   * `t->append(s->clone())` and its three siblings (collection.cpp:46,
   * 68, 89, 110): a clone of `s` is made and put at `t`.
   */
  method GraftOne(ghost G: Forest, ghost B: Table, t: Node, s: Node, op: Place)
    returns (ghost g: Graft, ghost H: Forest, ghost BH: Table)
    requires Source(G, B, s) && t in G.nodes
    modifies G.nodes`parent, G.nodes`next, G.nodes`prev, G.nodes`firstChild
    ensures Grafted(G, B, op, g) && g.aim == Aim(t, s) && H == g.forest && BH == g.table
    ensures Valid(H) && Tabled(H.nodes, BH)
    ensures forall y | y in H.nodes :: y in G.nodes || fresh(y)
  {
    var c; ghost var C;
    c, C, BH := Sprout(G, B, t, s);
    H := PutKeeping(C, BH, t, c, op);
    g := Graft(Aim(t, s), c, C, BH, H);
  }

  /** `Moves.PutAt`, which writes no attribute. */
  method PutKeeping(ghost C: Forest, ghost BC: Table, t: Node, c: Node, op: Place) returns (ghost H: Forest)
    requires Valid(C) && Movable(C, t, c) && Tabled(C.nodes, BC)
    modifies C.nodes`parent, C.nodes`next, C.nodes`prev, C.nodes`firstChild
    ensures Valid(H) && H == Put(C, t, c, op) && Tabled(H.nodes, BC)
  {
    H := PutAt(C, t, c, op);
  }

  /** `s->clone()`: a new root that may be put at `t`. */
  method Sprout(ghost G: Forest, ghost B: Table, t: Node, s: Node) returns (c: Node, ghost C: Forest, ghost BC: Table)
    requires Source(G, B, s) && t in G.nodes
    ensures Sprouted(G, B, C, BC, c) && Snap(C, BC, c) == Copy(Snap(G, B, s)) && Movable(C, t, c)
    ensures Valid(C) && Tabled(C.nodes, BC)
    ensures forall y | y in C.nodes :: y in G.nodes || fresh(y)
  {
    c, C, BC := Cloning.Clone(G, B, s);
    Grafts.ParentsGrow(G, C);
    Grafts.NewNotAbove(G, C, c, t);
    forall y | y in C.nodes
      ensures y in G.nodes || fresh(y)
    {
      if y !in G.nodes {
        assert y in C.nodes - G.nodes;
      }
    }
  }

  /** The row of one more source is the row so far and one more clone. */
  lemma RowStep(t: Node, ss: seq<Node>, j: nat)
    requires j < |ss|
    ensures Row(t, ss[..j + 1]) == Row(t, ss[..j]) + [Aim(t, ss[j])]
  {
    assert ss[..j + 1][..j] == ss[..j];
  }

  lemma Regroup(a: seq<Aim>, b: seq<Aim>, x: Aim)
    ensures (a + b) + [x] == a + (b + [x])
  {
  }

  /** The rows of one more target are the rows so far and its row. */
  lemma AimsStep(ts: seq<Node>, ss: seq<Node>, i: nat)
    requires i < |ts|
    ensures Aims(ts[..i + 1], ss) == Aims(ts[..i], ss) + Row(ts[i], ss)
  {
    assert ts[..i + 1][..i] == ts[..i];
  }

  /** The inner loop, after `j` rounds that extend the rounds `tr0` to `tr`, leaving `H` and `BH`. */
  ghost predicate Rowed(G: Forest, B: Table, op: Place, tr0: Trace, t: Node, ss: seq<Node>, j: nat,
                        tr: Trace, H: Forest, BH: Table)
  {
    j <= |ss| && Replay(G, B, op, tr) == Reached(H, BH) && AimsOf(tr) == AimsOf(tr0) + Row(t, ss[..j])
  }

  /**
   * The inner loop of the first phase (collection.cpp:45-47, 67-69,
   * 88-90, 109-111): a clone of each of `ss` in turn is put at `t`, after
   * the rounds `tr` that left the forest `H`.
   */
  method GraftRow(ghost G: Forest, ghost B: Table, ghost tr: Trace, ghost H: Forest, ghost BH: Table,
                  t: Node, ss: seq<Node>, op: Place)
    returns (ghost tr': Trace, ghost H': Forest, ghost BH': Table)
    requires Replay(G, B, op, tr) == Reached(H, BH)
    requires Valid(H) && Tabled(H.nodes, BH) && t in H.nodes && Inside(H, ss)
    modifies H.nodes`parent, H.nodes`next, H.nodes`prev, H.nodes`firstChild
    ensures Rowed(G, B, op, tr, t, ss, |ss|, tr', H', BH')
    ensures Valid(H') && Tabled(H'.nodes, BH') && H.nodes <= H'.nodes
    ensures forall y | y in H'.nodes :: y in H.nodes || fresh(y)
  {
    tr', H', BH' := tr, H, BH;
    for j := 0 to |ss|
      invariant Rowed(G, B, op, tr, t, ss, j, tr', H', BH')
      invariant Valid(H') && Tabled(H'.nodes, BH') && H.nodes <= H'.nodes
      invariant forall y | y in H'.nodes :: y in H.nodes || fresh(y)
    {
      ghost var H0 := H';
      tr', H', BH' := GraftNext(G, B, op, tr, t, ss, j, tr', H', BH');
      forall y | y in H'.nodes
        ensures y in H.nodes || fresh(y)
      {
        if y in H0.nodes {
        }
      }
    }
  }

  /** One round of the inner loop: a clone of the `j`-th source goes to `t`. */
  method GraftNext(ghost G: Forest, ghost B: Table, op: Place, ghost tr0: Trace, t: Node, ss: seq<Node>, j: nat,
                   ghost tr: Trace, ghost H: Forest, ghost BH: Table)
    returns (ghost tr': Trace, ghost H': Forest, ghost BH': Table)
    requires Rowed(G, B, op, tr0, t, ss, j, tr, H, BH) && j < |ss|
    requires Valid(H) && Tabled(H.nodes, BH) && t in H.nodes && Inside(H, ss)
    modifies H.nodes`parent, H.nodes`next, H.nodes`prev, H.nodes`firstChild
    ensures Rowed(G, B, op, tr0, t, ss, j + 1, tr', H', BH')
    ensures Valid(H') && Tabled(H'.nodes, BH') && H.nodes <= H'.nodes
    ensures forall y | y in H'.nodes :: y in H.nodes || fresh(y)
  {
    ghost var g;
    g, H', BH' := GraftOne(H, BH, t, ss[j], op);
    RowedStep(G, B, op, tr0, t, ss, j, tr, H, BH, g);
    tr' := Then(tr, g);
  }

  lemma RowedStep(G: Forest, B: Table, op: Place, tr0: Trace, t: Node, ss: seq<Node>, j: nat,
                  tr: Trace, H: Forest, BH: Table, g: Graft)
    requires Rowed(G, B, op, tr0, t, ss, j, tr, H, BH) && j < |ss|
    requires Grafted(H, BH, op, g) && g.aim == Aim(t, ss[j])
    ensures Rowed(G, B, op, tr0, t, ss, j + 1, Then(tr, g), g.forest, g.table)
  {
    RowStep(t, ss, j);
    Regroup(AimsOf(tr0), Row(t, ss[..j]), g.aim);
  }

  /** The outer loop, after the rows of the first `i` targets, leaving `H` and `BH`. */
  ghost predicate Planted(G: Forest, B: Table, op: Place, ts: seq<Node>, ss: seq<Node>, i: nat,
                          tr: Trace, H: Forest, BH: Table)
  {
    i <= |ts| && Replay(G, B, op, tr) == Reached(H, BH) && AimsOf(tr) == Aims(ts[..i], ss)
  }

  /**
   * The first phase (collection.cpp:44-48, 66-70, 87-91, 108-112): each
   * target of `ts` in turn receives a clone of each of `ss` in turn.
   */
  method GraftAll(ghost G: Forest, ghost B: Table, ts: seq<Node>, ss: seq<Node>, op: Place)
    returns (ghost tr: Trace, ghost H: Forest, ghost BH: Table)
    requires Valid(G) && Tabled(G.nodes, B) && Inside(G, ts) && Inside(G, ss)
    modifies G.nodes`parent, G.nodes`next, G.nodes`prev, G.nodes`firstChild
    ensures Replay(G, B, op, tr) == Reached(H, BH) && AimsOf(tr) == Aims(ts, ss)
    ensures Valid(H) && Tabled(H.nodes, BH) && G.nodes <= H.nodes
    ensures forall y | y in H.nodes :: y in G.nodes || fresh(y)
  {
    tr, H, BH := Start, G, B;
    for i := 0 to |ts|
      invariant Planted(G, B, op, ts, ss, i, tr, H, BH)
      invariant Valid(H) && Tabled(H.nodes, BH) && G.nodes <= H.nodes
      invariant forall y | y in H.nodes :: y in G.nodes || fresh(y)
    {
      ghost var H0 := H;
      tr, H, BH := PlantNext(G, B, op, ts, ss, i, tr, H, BH);
      forall y | y in H.nodes
        ensures y in G.nodes || fresh(y)
      {
        if y in H0.nodes {
        }
      }
    }
    assert ts[..|ts|] == ts;
  }

  /** One round of the outer loop: the row of the `i`-th target. */
  method PlantNext(ghost G: Forest, ghost B: Table, op: Place, ts: seq<Node>, ss: seq<Node>, i: nat,
                   ghost tr: Trace, ghost H: Forest, ghost BH: Table)
    returns (ghost tr': Trace, ghost H': Forest, ghost BH': Table)
    requires Planted(G, B, op, ts, ss, i, tr, H, BH) && i < |ts|
    requires Valid(H) && Tabled(H.nodes, BH) && G.nodes <= H.nodes && Inside(G, ts) && Inside(G, ss)
    modifies H.nodes`parent, H.nodes`next, H.nodes`prev, H.nodes`firstChild
    ensures Planted(G, B, op, ts, ss, i + 1, tr', H', BH')
    ensures Valid(H') && Tabled(H'.nodes, BH') && H.nodes <= H'.nodes
    ensures forall y | y in H'.nodes :: y in H.nodes || fresh(y)
  {
    tr', H', BH' := GraftRow(G, B, tr, H, BH, ts[i], ss, op);
    AimsStep(ts, ss, i);
    assert ss[..|ss|] == ss;
  }

  // ---------------------------------------------------------------------
  // What the first phase keeps

  /** A round of the first phase gives no node that was there before it a new parent. */
  lemma GraftKeeps(G: Forest, B: Table, op: Place, g: Graft)
    requires Grafted(G, B, op, g)
    ensures Wf(g.forest) && ParentsKept(G, g.forest)
  {
    Grafts.ParentsGrow(G, g.sprouted);
    PutOthers(g.sprouted, g.aim.target, g.clone, op);
  }

  /**
   * The first phase gives no node that was there before it a new parent:
   * only the clones are hung (collection.cpp:44-48).
   */
  lemma {:induction false} ReplayKeeps(G: Forest, B: Table, op: Place, tr: Trace, H: Forest, BH: Table)
    requires Wf(G) && Replay(G, B, op, tr) == Reached(H, BH)
    ensures Wf(H) && ParentsKept(G, H)
  {
    if tr.Then? {
      var p := Replay(G, B, op, tr.before);
      ReplayKeeps(G, B, op, tr.before, p.forest, p.table);
      GraftKeeps(p.forest, p.table, op, tr.last);
    }
  }

  /** A node that was there before the first phase keeps its root and what lies above it. */
  lemma ReplayKeepsRoots(G: Forest, B: Table, op: Place, tr: Trace, H: Forest, BH: Table, x: Node, a: Node)
    requires Wf(G) && Replay(G, B, op, tr) == Reached(H, BH) && x in G.nodes
    ensures Wf(H) && x in H.nodes && RootOf(H, x) == RootOf(G, x) && Under(H, a, x) == Under(G, a, x)
  {
    ReplayKeeps(G, B, op, tr, H, BH);
    RootKept(G, H, x);
    Grafts.UnderKept(G, H, a, x);
  }

  /** Every target of `ts` is a node of `G` where what is put gets a parent, or a text node that ignores it. */
  ghost predicate Hosted(G: Forest, ts: seq<Node>, op: Place)
  {
    Wf(G) && forall t | t in ts :: t in G.nodes && (Host(G, t, op) != null || Ignored(t, op))
  }

  /** Every clone goes to one of `ts` and copies one of `ss`. */
  lemma {:induction false} AimsFrom(ts: seq<Node>, ss: seq<Node>, a: Aim)
    requires a in Aims(ts, ss)
    ensures a.target in ts && a.source in ss
    decreases |ts|
  {
    var n := |ts| - 1;
    if a in Aims(ts[..n], ss) {
      AimsFrom(ts[..n], ss, a);
    } else {
      RowFrom(ts[n], ss, a);
    }
  }

  lemma {:induction false} RowFrom(t: Node, ss: seq<Node>, a: Aim)
    requires a in Row(t, ss)
    ensures a.target == t && a.source in ss
    decreases |ss|
  {
    var n := |ss| - 1;
    if a != Aim(t, ss[n]) {
      RowFrom(t, ss[..n], a);
    }
  }

  /** A parentless node alone in its chain stays so through a round whose target gives the clone a parent. */
  lemma GraftKeepsAlone(G: Forest, B: Table, op: Place, g: Graft, y: Node)
    requires Grafted(G, B, op, g) && Hosted(G, [g.aim.target], op)
    requires y in G.nodes && G.par[y] == null && G.chain[y] == [y]
    ensures Wf(g.forest) && y in g.forest.nodes && g.forest.par[y] == null && g.forest.chain[y] == [y]
  {
    var C, t, c := g.sprouted, g.aim.target, g.clone;
    PutFrame(C, t, c, op);
    if !Ignored(t, op) {
      assert Host(C, t, op) == Host(G, t, op);
      PutAlone(C, t, c, op, y);
    }
  }

  /** The same through the whole first phase, when every target gives the clones a parent. */
  lemma {:induction false} ReplayKeepsAlone(G: Forest, B: Table, op: Place, tr: Trace, H: Forest, BH: Table,
                                            ts: seq<Node>, y: Node)
    requires Wf(G) && Replay(G, B, op, tr) == Reached(H, BH) && Hosted(G, ts, op)
    requires forall a | a in AimsOf(tr) :: a.target in ts
    requires y in G.nodes && G.par[y] == null && G.chain[y] == [y]
    ensures Wf(H) && y in H.nodes && H.par[y] == null && H.chain[y] == [y]
  {
    if tr.Then? {
      var p := Replay(G, B, op, tr.before);
      ReplayKeepsAlone(G, B, op, tr.before, p.forest, p.table, ts, y);
      ReplayKeeps(G, B, op, tr.before, p.forest, p.table);
      var t := tr.last.aim.target;
      assert t in ts;
      assert Hosted(p.forest, [t], op);
      GraftKeepsAlone(p.forest, p.table, op, tr.last, y);
    }
  }

  // ---------------------------------------------------------------------
  // The whole fan-out

  /**
   * What a fan-out needs: the targets `ts` and the sources `ss` are nodes
   * of the valid forest `F`, whose attributes `A` holds, and no source lies
   * at or above the last target (putting one there would close a cycle).
   */
  ghost predicate Fanning(F: Forest, A: Table, ts: seq<Node>, ss: seq<Node>)
    reads F.nodes`parent, F.nodes`next, F.nodes`prev, F.nodes`firstChild, F.nodes`attrs
  {
    && Valid(F) && Tabled(F.nodes, A) && Inside(F, ts) && Inside(F, ss)
    && (ts != [] ==> forall s | s in ss :: !Under(F, s, ts[|ts| - 1]))
  }

  /**
   * The fan-out of `ss` over `ts` from the forest `F`, the table `c` and
   * the released set `freed` ends in `G`, `c'` and `freed'`: with no
   * target nothing happens; otherwise the rounds `tr` put a clone of each
   * source at each target but the last, in order, and then the sources
   * themselves are moved to the last target.
   */
  ghost predicate FannedOut(F: Forest, A: Table, c: Counts, freed: set<Node>, ts: seq<Node>, ss: seq<Node>, op: Place,
                            tr: Trace, G: Forest, c': Counts, freed': set<Node>)
  {
    if ts == [] then tr == Start && G == F && c' == c && freed' == freed
    else
      var n, o := |ts| - 1, Replay(F, A, op, tr);
      && o.Reached? && AimsOf(tr) == Aims(ts[..n], ss) && Shiftable(o.forest, ts[n], ss)
      && Shifted(Sweep(o.forest, c, freed), ts[n], ss, op) == Sweep(G, c', freed')
  }

  /** The sources can still move to the last target once the clones are placed. */
  lemma ReplayShiftable(F: Forest, A: Table, op: Place, tr: Trace, H: Forest, BH: Table, t: Node, ss: seq<Node>)
    requires Wf(F) && Replay(F, A, op, tr) == Reached(H, BH) && t in F.nodes && Inside(F, ss)
    requires forall s | s in ss :: !Under(F, s, t)
    ensures Shiftable(H, t, ss)
  {
    ReplayKeeps(F, A, op, tr, H, BH);
    forall s | s in ss
      ensures !Under(H, s, t)
    {
      Grafts.UnderKept(F, H, s, t);
    }
  }

  /**
   * `append`, `prepend`, `after` and `before` (collection.cpp:36-123),
   * with `op` telling which: a handle with no target does nothing.
   */
  method FanOut(registry: Registry, ghost F: Forest, ghost A: Table, ts: seq<Node>, ss: seq<Node>, op: Place)
    returns (ghost tr: Trace, ghost G: Forest)
    requires Fanning(F, A, ts, ss)
    modifies F.nodes`parent, F.nodes`next, F.nodes`prev, F.nodes`firstChild
    modifies registry`count, registry`released
    ensures Valid(G)
    ensures FannedOut(F, A, old(registry.count), old(registry.released), ts, ss, op, tr, G,
                      registry.count, registry.released)
  {
    if ts == [] {
      tr, G := Start, F;
    } else {
      tr, G := FanOutLast(registry, F, A, ts, ss, op);
    }
  }

  /** A fan-out over at least one target: the clones first, then the moves to the last target. */
  method FanOutLast(registry: Registry, ghost F: Forest, ghost A: Table, ts: seq<Node>, ss: seq<Node>, op: Place)
    returns (ghost tr: Trace, ghost G: Forest)
    requires Fanning(F, A, ts, ss) && ts != []
    modifies F.nodes`parent, F.nodes`next, F.nodes`prev, F.nodes`firstChild
    modifies registry`count, registry`released
    ensures Valid(G)
    ensures FannedOut(F, A, old(registry.count), old(registry.released), ts, ss, op, tr, G,
                      registry.count, registry.released)
  {
    var n := |ts| - 1;
    ghost var H;
    tr, H := Clones(F, A, ts, ss, op);
    G := Spread(registry, H, ts[n], ss, op);
  }

  /** The first phase of a fan-out, after which the sources can still move to the last target. */
  method Clones(ghost F: Forest, ghost A: Table, ts: seq<Node>, ss: seq<Node>, op: Place)
    returns (ghost tr: Trace, ghost H: Forest)
    requires Fanning(F, A, ts, ss) && ts != []
    modifies F.nodes`parent, F.nodes`next, F.nodes`prev, F.nodes`firstChild
    ensures var o := Replay(F, A, op, tr);
      && o.Reached? && o.forest == H && AimsOf(tr) == Aims(ts[..|ts| - 1], ss)
      && Valid(H) && Shiftable(H, ts[|ts| - 1], ss)
    ensures forall y | y in H.nodes :: y in F.nodes || fresh(y)
  {
    var n := |ts| - 1;
    ghost var BH;
    tr, H, BH := GraftAll(F, A, ts[..n], ss, op);
    ReplayShiftable(F, A, op, tr, H, BH, ts[n], ss);
  }

  // ---------------------------------------------------------------------
  // The table through a whole fan-out

  /** The first phase keeps the root of every captured node. */
  lemma ReplayRoots(F: Forest, A: Table, op: Place, tr: Trace, H: Forest, BH: Table, caps: seq<Node>)
    requires Replay(F, A, op, tr) == Reached(H, BH) && Wf(F) && Inside(F, caps)
    ensures Wf(H) && Inside(H, caps) && RootsOf(H, caps) == RootsOf(F, caps)
  {
    ReplayKeeps(F, A, op, tr, H, BH);
    forall i | 0 <= i < |caps|
      ensures RootOf(H, caps[i]) == RootOf(F, caps[i])
    {
      ReplayKeepsRoots(F, A, op, tr, H, BH, caps[i], caps[i]);
    }
  }

  /** The first phase puts no captured node below a source. */
  lemma ReplayLone(F: Forest, A: Table, op: Place, tr: Trace, H: Forest, BH: Table, caps: seq<Node>, ss: seq<Node>)
    requires Replay(F, A, op, tr) == Reached(H, BH) && Wf(F) && Inside(F, caps) && Lone(F, caps, ss)
    ensures Wf(H) && Inside(H, caps) && Lone(H, caps, ss)
  {
    ReplayKeeps(F, A, op, tr, H, BH);
    forall s, x | s in ss && x in caps && Under(H, s, x)
      ensures x == s
    {
      ReplayKeepsRoots(F, A, op, tr, H, BH, x, s);
      assert Alone(F, caps, s);
    }
  }

  /** The first phase keeps the table counting the captured roots, and every source alone. */
  lemma ReplayAccounts(F: Forest, A: Table, op: Place, tr: Trace, H: Forest, BH: Table,
                       c: Counts, caps: seq<Node>, ss: seq<Node>)
    requires Replay(F, A, op, tr) == Reached(H, BH) && Accounts(F, c, caps) && Lone(F, caps, ss)
    ensures Accounts(H, c, caps) && Lone(H, caps, ss)
  {
    ReplayRoots(F, A, op, tr, H, BH, caps);
    ReplayLone(F, A, op, tr, H, BH, caps, ss);
  }

  /**
   * A fan-out keeps the table counting, for each root, the captured nodes
   * in its tree (collection.h:54), when each source is captured once with
   * no other capture below it.
   */
  lemma FanOutAccounts(F: Forest, A: Table, c: Counts, freed: set<Node>, ts: seq<Node>, ss: seq<Node>, op: Place,
                       tr: Trace, G: Forest, c': Counts, freed': set<Node>, caps: seq<Node>)
    requires FannedOut(F, A, c, freed, ts, ss, op, tr, G, c', freed')
    requires Accounts(F, c, caps) && Lone(F, caps, ss)
    ensures Accounts(G, c', caps)
  {
    if ts != [] {
      var o := Replay(F, A, op, tr);
      ReplayAccounts(F, A, op, tr, o.forest, o.table, c, caps, ss);
      ShiftAccounts(Sweep(o.forest, c, freed), ts[|ts| - 1], ss, op, caps);
    }
  }

  /** The first phase keeps every captured root alone at the top level when every target gives the clones a parent. */
  lemma ReplaySpaced(F: Forest, A: Table, op: Place, tr: Trace, H: Forest, BH: Table, ts: seq<Node>, caps: seq<Node>)
    requires Replay(F, A, op, tr) == Reached(H, BH) && Hosted(F, ts, op)
    requires forall a | a in AimsOf(tr) :: a.target in ts
    requires Wf(F) && Inside(F, caps) && Spaced(F, caps)
    ensures Wf(H) && Inside(H, caps) && Spaced(H, caps)
  {
    ReplayKeeps(F, A, op, tr, H, BH);
    forall x | x in caps
      ensures H.chain[RootOf(H, x)] == [RootOf(H, x)]
    {
      ReplayKeepsRoots(F, A, op, tr, H, BH, x, x);
      ReplayKeepsAlone(F, A, op, tr, H, BH, ts, RootOf(F, x));
    }
  }

  /**
   * A fan-out over captured targets whose places have a parent releases no
   * captured node (collection.cpp:248-251), and leaves every captured root
   * alone at the top level.
   */
  lemma FanOutSpares(F: Forest, A: Table, c: Counts, freed: set<Node>, ts: seq<Node>, ss: seq<Node>, op: Place,
                     tr: Trace, G: Forest, c': Counts, freed': set<Node>, caps: seq<Node>)
    requires FannedOut(F, A, c, freed, ts, ss, op, tr, G, c', freed')
    requires Accounts(F, c, caps) && Lone(F, caps, ss) && Spaced(F, caps)
    requires Hosted(F, ts, op) && (ts != [] ==> ts[|ts| - 1] in caps)
    ensures Wf(G) && Inside(G, caps) && Spaced(G, caps)
    ensures forall x | x in caps && x in freed' :: x in freed
  {
    if ts == [] {
      return;
    }
    var n := |ts| - 1;
    var t := ts[n];
    var o := Replay(F, A, op, tr);
    var H := o.forest;
    forall a | a in AimsOf(tr)
      ensures a.target in ts
    {
      AimsFrom(ts[..n], ss, a);
    }
    ReplaySpaced(F, A, op, tr, H, o.table, ts, caps);
    ReplayAccounts(F, A, op, tr, H, o.table, c, caps, ss);
    ReplayKeeps(F, A, op, tr, H, o.table);
    assert t in ts;
    assert Host(H, t, op) == Host(F, t, op);
    ShiftSpares(Sweep(H, c, freed), t, ss, op, caps);
    ShiftAccounts(Sweep(H, c, freed), t, ss, op, caps);
  }
}
