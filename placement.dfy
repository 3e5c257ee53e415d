/**
 * Where a fan-out leaves the nodes it moves to its last target
 * (collection.cpp:50-56, 73-79, 94-100, 115-121). Each source in turn is put
 * at the target, so `append` lines them up at the end of the target's
 * children and `before` just ahead of the target, both in order, while
 * `prepend` and `after` put each one right next to the target and so leave
 * them in reverse order.
 */
module Placements {
  import opened Tree
  import opened Snapshot
  import opened Ownership
  import opened Moves
  import opened Fanouts

  /** `ss`, last first: the `i`-th of the reversal is the `i`-th from the end. */
  function Reversed(ss: seq<Node>): (r: seq<Node>)
    ensures |r| == |ss|
  {
    seq(|ss|, i requires 0 <= i < |ss| => ss[|ss| - 1 - i])
  }

  /**
   * The order in which `op` leaves the sources `ss` put at one target one
   * after the other: as given when appended or put before the target, last
   * first when prepended or put after it.
   */
  function Arranged(ss: seq<Node>, op: Place): (r: seq<Node>)
    ensures |r| == |ss|
  {
    if op.AsFirstChild? || op.AsNextSibling? then Reversed(ss) else ss
  }

  /** The block `b` once `s` joins it by `op`: at its front for prepend and after, at its end otherwise. */
  function Joined(b: seq<Node>, s: Node, op: Place): (r: seq<Node>)
    ensures |r| == |b| + 1
  {
    if op.AsFirstChild? || op.AsNextSibling? then [s] + b else b + [s]
  }

  /**
   * The block `b` stands where `op` puts nodes at `t`: it ends the children
   * of `t`, starts them, follows `t` right after it, or precedes `t` right
   * before it.
   */
  ghost predicate Lined(G: Forest, t: Node, b: seq<Node>, op: Place)
  {
    && t in G.kids && t in G.chain && t in G.pos
    && match op
       case AsLastChild => |b| <= |G.kids[t]| && G.kids[t][|G.kids[t]| - |b|..] == b
       case AsFirstChild => |b| <= |G.kids[t]| && G.kids[t][..|b|] == b
       case AsNextSibling => G.pos[t] + |b| < |G.chain[t]| && G.chain[t][G.pos[t] + 1..G.pos[t] + 1 + |b|] == b
       case AsPrevSibling => |b| <= G.pos[t] <= |G.chain[t]| && G.chain[t][G.pos[t] - |b|..G.pos[t]] == b
  }

  /**
   * `r` and `a'` are the chain `c` and the place `a` of a node in it once
   * `s` was taken out of it at `p`, when `taken`, and `c` and `a` unchanged
   * otherwise.
   */
  ghost predicate TakenOut(c: seq<Node>, a: nat, p: nat, r: seq<Node>, a': nat, s: Node, taken: bool)
  {
    && (taken ==> p < |c| && c[p] == s && r == Remove(c, p) && a' == if a > p then a - 1 else a)
    && (!taken ==> r == c && a' == a)
  }

  /** `r` is the children `k` once `s` was taken out of them at `p`, when `taken`, and `k` unchanged otherwise. */
  ghost predicate Dropped(k: seq<Node>, p: nat, r: seq<Node>, s: Node, taken: bool)
  {
    && (taken ==> p < |k| && k[p] == s && r == Remove(k, p))
    && (!taken ==> r == k)
  }

  // ---------------------------------------------------------------------
  // Sequences

  /** Taking out an element outside the block `c[lo..hi]` keeps the block, one place lower when it stood before it. */
  lemma RemoveKeeps(c: seq<Node>, p: nat, lo: nat, hi: nat)
    requires lo <= hi <= |c| && p < |c| && (p < lo || hi <= p)
    ensures var d := if p < lo then 1 else 0;
      hi - d <= |Remove(c, p)| && Remove(c, p)[lo - d..hi - d] == c[lo..hi]
  {
    var d := if p < lo then 1 else 0;
    var r := Remove(c, p);
    assert forall j | 0 <= j < hi - lo :: r[lo - d..hi - d][j] == c[lo..hi][j];
  }

  /** Inserting at `k` within the block `c[lo..hi]` splits it there. */
  lemma InsertSplits(c: seq<Node>, k: nat, x: Node, lo: nat, hi: nat)
    requires lo <= k <= hi <= |c|
    ensures InsertAt(c, k, x)[lo..hi + 1] == c[lo..k] + [x] + c[k..hi]
  {
    var r := InsertAt(c, k, x);
    assert forall j | 0 <= j < hi + 1 - lo :: r[lo..hi + 1][j] == (c[lo..k] + [x] + c[k..hi])[j];
  }

  /** The reversal holds the same nodes. */
  lemma ReversedHolds(ss: seq<Node>, x: Node)
    ensures x in Reversed(ss) <==> x in ss
  {
    var r := Reversed(ss);
    if x in ss {
      var i :| 0 <= i < |ss| && ss[i] == x;
      assert r[|ss| - 1 - i] == x;
    }
    if x in r {
      var i :| 0 <= i < |r| && r[i] == x;
      assert ss[|ss| - 1 - i] == x;
    }
  }

  /** A node not among `ss` is not in its reversal either. */
  lemma ReversedLacks(ss: seq<Node>, x: Node)
    requires x !in ss
    ensures x !in Reversed(ss)
  {
    ReversedHolds(ss, x);
  }

  /** The arrangement holds the same nodes. */
  lemma ArrangedHolds(ss: seq<Node>, op: Place, x: Node)
    requires x !in ss
    ensures x !in Arranged(ss, op)
  {
    ReversedLacks(ss, x);
  }

  /** The last of distinct nodes is none of the others, which are distinct too. */
  lemma DistinctLast(ss: seq<Node>)
    requires Distinct(ss) && ss != []
    ensures Distinct(ss[..|ss| - 1]) && ss[|ss| - 1] !in ss[..|ss| - 1]
  {
    var n := |ss| - 1;
    assert forall i | 0 <= i < n :: ss[..n][i] == ss[i] && ss[i] != ss[n];
  }

  /** A non-empty sequence is its front followed by its last element. */
  lemma FrontLast(ss: seq<Node>)
    requires ss != []
    ensures ss[..|ss| - 1] + [ss[|ss| - 1]] == ss
  {
  }

  /** Adding `s` at the end of `ss` puts it at the front of the reversal. */
  lemma ReversedSnoc(ss: seq<Node>, s: Node)
    ensures Reversed(ss + [s]) == [s] + Reversed(ss)
  {
    assert forall i | 0 <= i <= |ss| :: Reversed(ss + [s])[i] == ([s] + Reversed(ss))[i];
  }

  /** One more source, put at the target by `op`, joins the arrangement of the ones before it. */
  lemma ArrangedSnoc(ss: seq<Node>, s: Node, op: Place)
    ensures Arranged(ss + [s], op) == Joined(Arranged(ss, op), s, op)
  {
    ReversedSnoc(ss, s);
  }

  /** A block ending `r` still ends it, followed by `s`, once `s` is added at the end. */
  lemma LastBlock(r: seq<Node>, c: seq<Node>, b: seq<Node>, s: Node)
    requires |b| <= |r| && r[|r| - |b|..] == b && c == r + [s]
    ensures |b + [s]| <= |c| && c[|c| - |b + [s]|..] == b + [s]
  {
    assert c[|r| - |b|..] == r[|r| - |b|..] + [s];
  }

  /** A block starting `r` still starts it, after `s`, once `s` is added at the front. */
  lemma FirstBlock(r: seq<Node>, c: seq<Node>, b: seq<Node>, s: Node)
    requires |b| <= |r| && r[..|b|] == b && c == [s] + r
    ensures |[s] + b| <= |c| && c[..|[s] + b|] == [s] + b
  {
    assert c[..|b| + 1] == [s] + r[..|b|];
  }

  /** Inserting `s` right after `c[a]` puts it at the front of the block that follows. */
  lemma NextBlock(c: seq<Node>, a: nat, b: seq<Node>, s: Node)
    requires a + |b| < |c| && c[a + 1..a + 1 + |b|] == b
    ensures var c' := InsertAt(c, a + 1, s); a + |[s] + b| < |c'| && c'[a + 1..a + 1 + |[s] + b|] == [s] + b
  {
    InsertSplits(c, a + 1, s, a + 1, a + 1 + |b|);
  }

  /** Inserting `s` right before `c[a]` puts it at the end of the block that precedes, and `c[a]` one place up. */
  lemma PrevBlock(c: seq<Node>, a: nat, b: seq<Node>, s: Node)
    requires |b| <= a <= |c| && c[a - |b|..a] == b
    ensures var c' := InsertAt(c, a, s); |b + [s]| <= a + 1 <= |c'| && c'[a + 1 - |b + [s]|..a + 1] == b + [s]
  {
    InsertSplits(c, a, s, a - |b|, a);
  }

  /** An element of a block that does not hold `x` is not `x`. */
  lemma OutsideBlock(c: seq<Node>, p: nat, lo: nat, hi: nat, x: Node, block: seq<Node>)
    requires lo <= hi <= |c| && p < |c| && c[p] == x && c[lo..hi] == block && x !in block
    ensures p < lo || hi <= p
  {
  }

  /** A block ending the children `k` still ends them once `s`, not in it, may have been taken out. */
  lemma KeepLast(k: seq<Node>, r: seq<Node>, p: nat, b: seq<Node>, s: Node, taken: bool)
    requires |b| <= |k| && k[|k| - |b|..] == b && s !in b
    requires Dropped(k, p, r, s, taken)
    ensures |b| <= |r| && r[|r| - |b|..] == b
  {
    if taken {
      OutsideBlock(k, p, |k| - |b|, |k|, s, b);
      RemoveKeeps(k, p, |k| - |b|, |k|);
      assert r[|r| - |b|..] == k[|k| - |b|..];
    }
  }

  /** A block starting the children `k` still starts them once `s`, not in it, may have been taken out. */
  lemma KeepFirst(k: seq<Node>, r: seq<Node>, p: nat, b: seq<Node>, s: Node, taken: bool)
    requires |b| <= |k| && k[..|b|] == b && s !in b
    requires Dropped(k, p, r, s, taken)
    ensures |b| <= |r| && r[..|b|] == b
  {
    if taken {
      OutsideBlock(k, p, 0, |b|, s, b);
      RemoveKeeps(k, p, 0, |b|);
      assert r[..|b|] == k[..|b|];
    }
  }

  /** The block after `c[a]` still follows it once `s`, neither it nor in the block, may have been taken out. */
  lemma KeepAfter(c: seq<Node>, a: nat, r: seq<Node>, a': nat, p: nat, b: seq<Node>, s: Node, taken: bool)
    requires a + |b| < |c| && c[a + 1..a + 1 + |b|] == b && c[a] != s && s !in b
    requires TakenOut(c, a, p, r, a', s, taken)
    ensures a' + |b| < |r| && r[a' + 1..a' + 1 + |b|] == b
  {
    if taken {
      OutsideBlock(c, p, a + 1, a + 1 + |b|, s, b);
      RemoveKeeps(c, p, a + 1, a + 1 + |b|);
      if p < a {
        assert a' == a - 1;
        assert r[a' + 1..a' + 1 + |b|] == c[a + 1..a + 1 + |b|];
      } else {
        assert a' == a;
        assert r[a' + 1..a' + 1 + |b|] == c[a + 1..a + 1 + |b|];
      }
    }
  }

  /** The block before `c[a]` still precedes it once `s`, neither it nor in the block, may have been taken out. */
  lemma KeepBefore(c: seq<Node>, a: nat, r: seq<Node>, a': nat, p: nat, b: seq<Node>, s: Node, taken: bool)
    requires |b| <= a < |c| && c[a - |b|..a] == b && c[a] != s && s !in b
    requires TakenOut(c, a, p, r, a', s, taken)
    ensures |b| <= a' <= |r| && r[a' - |b|..a'] == b
  {
    if taken {
      OutsideBlock(c, p, a - |b|, a, s, b);
      RemoveKeeps(c, p, a - |b|, a);
      if p < a - |b| {
        assert a' == a - 1;
        assert r[a' - |b|..a'] == c[a - |b|..a];
      } else {
        assert a' == a;
        assert r[a' - |b|..a'] == c[a - |b|..a];
      }
    }
  }

  // ---------------------------------------------------------------------
  // One move

  /** Taking `s` out of `G` leaves the chain and the place of another node `t` as the detach says. */
  lemma DetachedAt(G: Forest, s: Node, t: Node)
    requires Wf(G) && s in G.nodes && t in G.nodes && s != t
    ensures var D := Detached(G, s); var c, a, p := G.chain[t], G.pos[t], G.pos[s];
      && t in D.kids && t in D.chain && t in D.pos && a < |c| && c[a] == t
      && TakenOut(c, a, p, D.chain[t], D.pos[t], s, G.chain[s] == c)
  {
    var c := G.chain[s];
    assert G.chain[t][G.pos[t]] == t;
    if t in c {
      var i :| 0 <= i < |c| && c[i] == t;
      assert G.chain[c[i]] == c;
    }
  }

  /** Inserting `s` at `k` of the chain of `a` puts it into that chain and moves `a` up when it stood at `k` or after. */
  lemma InsertedAt(D: Forest, a: Node, s: Node, k: nat)
    requires CanInsert(D, a, s, k)
    ensures var I := Inserted(D, a, s, k);
      && I.chain[a] == InsertAt(D.chain[a], k, s)
      && I.pos[a] == if D.pos[a] >= k then D.pos[a] + 1 else D.pos[a]
  {
    InsertApart(D, a, s, k);
    assert D.chain[a][D.pos[a]] == a;
  }

  /** Taking `s` out of `G` leaves the children of `t` as the detach says. */
  lemma DetachedKidsAt(G: Forest, s: Node, t: Node)
    requires Wf(G) && s in G.nodes && t in G.nodes
    ensures var D := Detached(G, s); var taken := G.par[s] == t;
      && t in G.kids && t in D.kids && t in D.chain && t in D.pos
      && Dropped(G.kids[t], G.pos[s], D.kids[t], s, taken)
  {
    DetachedKids(G, s);
    assert G.chain[s][G.pos[s]] == s;
  }

  /** Appending `s` to `t` adds it at the end of the children `t` had once `s` was taken out. */
  lemma KidsLast(G: Forest, t: Node, s: Node)
    requires Movable(G, t, s) && !t.kind.Text?
    ensures var H, D := Put(G, t, s, AsLastChild), Detached(G, s);
      && t in H.kids && t in H.chain && t in H.pos && t in D.kids && H.kids[t] == D.kids[t] + [s]
  {
    PutUnderneath(G, t, s, AsLastChild);
    AppendedKids(Detached(G, s), t, s);
  }

  /** Prepending `s` to `t` adds it at the front of the children `t` had once `s` was taken out. */
  lemma KidsFirst(G: Forest, t: Node, s: Node)
    requires Movable(G, t, s) && !t.kind.Text?
    ensures var H, D := Put(G, t, s, AsFirstChild), Detached(G, s);
      && t in H.kids && t in H.chain && t in H.pos && t in D.kids && H.kids[t] == [s] + D.kids[t]
  {
    PutUnderneath(G, t, s, AsFirstChild);
    PrependedKids(Detached(G, s), t, s);
  }

  /** Putting `s` right after `t` inserts it into the chain of `t`, as it was once `s` was taken out, just after `t`. */
  lemma ChainAfter(G: Forest, t: Node, s: Node)
    requires Movable(G, t, s)
    ensures var H, D := Put(G, t, s, AsNextSibling), Detached(G, s);
      && t in H.kids && t in H.chain && t in H.pos && t in D.chain && t in D.pos && D.pos[t] < |D.chain[t]|
      && H.chain[t] == InsertAt(D.chain[t], D.pos[t] + 1, s) && H.pos[t] == D.pos[t]
  {
    PutBeside(G, t, s, AsNextSibling);
    var D := Detached(G, s);
    assert D.pos[t] < |D.chain[t]|;
    InsertedAt(D, t, s, D.pos[t] + 1);
  }

  /** Putting `s` right before `t` inserts it into the chain of `t`, as it was once `s` was taken out, just ahead of `t`. */
  lemma ChainBefore(G: Forest, t: Node, s: Node)
    requires Movable(G, t, s)
    ensures var H, D := Put(G, t, s, AsPrevSibling), Detached(G, s);
      && t in H.kids && t in H.chain && t in H.pos && t in D.chain && t in D.pos && D.pos[t] < |D.chain[t]|
      && H.chain[t] == InsertAt(D.chain[t], D.pos[t], s) && H.pos[t] == D.pos[t] + 1
  {
    PutBeside(G, t, s, AsPrevSibling);
    var D := Detached(G, s);
    assert D.pos[t] < |D.chain[t]|;
    InsertedAt(D, t, s, D.pos[t]);
  }

  /**
   * `s` appended to `t` goes to the end of the block `b` that ends its
   * children: `D` is `G` once `s` was taken out, `H` is `D` once `s` went in
   * under `t`.
   */
  lemma LastOnKids(G: Forest, D: Forest, H: Forest, t: Node, s: Node, b: seq<Node>, p: nat, taken: bool)
    requires Lined(G, t, b, AsLastChild) && s !in b
    requires t in D.kids && Dropped(G.kids[t], p, D.kids[t], s, taken)
    requires t in H.kids && t in H.chain && t in H.pos && H.kids[t] == D.kids[t] + [s]
    ensures Lined(H, t, b + [s], AsLastChild)
  {
    KeepLast(G.kids[t], D.kids[t], p, b, s, taken);
    LastBlock(D.kids[t], H.kids[t], b, s);
  }

  /**
   * `s` prepended to `t` goes to the front of the block `b` that starts its
   * children: `D` is `G` once `s` was taken out, `H` is `D` once `s` went in
   * under `t`.
   */
  lemma FirstOnKids(G: Forest, D: Forest, H: Forest, t: Node, s: Node, b: seq<Node>, p: nat, taken: bool)
    requires Lined(G, t, b, AsFirstChild) && s !in b
    requires t in D.kids && Dropped(G.kids[t], p, D.kids[t], s, taken)
    requires t in H.kids && t in H.chain && t in H.pos && H.kids[t] == [s] + D.kids[t]
    ensures Lined(H, t, [s] + b, AsFirstChild)
  {
    KeepFirst(G.kids[t], D.kids[t], p, b, s, taken);
    FirstBlock(D.kids[t], H.kids[t], b, s);
  }

  /**
   * `s` put right after `t` goes to the front of the block `b` that follows
   * `t`: `D` is `G` once `s` was taken out, `H` is `D` once `s` went in
   * after `t`.
   */
  lemma NextOnChains(G: Forest, D: Forest, H: Forest, t: Node, s: Node, b: seq<Node>, p: nat, taken: bool)
    requires Lined(G, t, b, AsNextSibling) && G.chain[t][G.pos[t]] != s && s !in b
    requires t in D.chain && t in D.pos && TakenOut(G.chain[t], G.pos[t], p, D.chain[t], D.pos[t], s, taken)
    requires t in H.kids && t in H.chain && t in H.pos && D.pos[t] < |D.chain[t]|
    requires H.chain[t] == InsertAt(D.chain[t], D.pos[t] + 1, s) && H.pos[t] == D.pos[t]
    ensures Lined(H, t, [s] + b, AsNextSibling)
  {
    KeepAfter(G.chain[t], G.pos[t], D.chain[t], D.pos[t], p, b, s, taken);
    NextBlock(D.chain[t], D.pos[t], b, s);
  }

  /**
   * `s` put right before `t` goes to the end of the block `b` that precedes
   * `t`: `D` is `G` once `s` was taken out, `H` is `D` once `s` went in
   * before `t`.
   */
  lemma PrevOnChains(G: Forest, D: Forest, H: Forest, t: Node, s: Node, b: seq<Node>, p: nat, taken: bool)
    requires Lined(G, t, b, AsPrevSibling) && G.pos[t] < |G.chain[t]| && G.chain[t][G.pos[t]] != s && s !in b
    requires t in D.chain && t in D.pos && TakenOut(G.chain[t], G.pos[t], p, D.chain[t], D.pos[t], s, taken)
    requires t in H.kids && t in H.chain && t in H.pos && D.pos[t] <= |D.chain[t]|
    requires H.chain[t] == InsertAt(D.chain[t], D.pos[t], s) && H.pos[t] == D.pos[t] + 1
    ensures Lined(H, t, b + [s], AsPrevSibling)
  {
    KeepBefore(G.chain[t], G.pos[t], D.chain[t], D.pos[t], p, b, s, taken);
    PrevBlock(D.chain[t], D.pos[t], b, s);
  }

  /** Appending `s` to `t` adds it to the end of the block that ends the children of `t`. */
  lemma PutLast(G: Forest, t: Node, s: Node, b: seq<Node>)
    requires Movable(G, t, s) && !t.kind.Text? && s !in b && Lined(G, t, b, AsLastChild)
    ensures Lined(Put(G, t, s, AsLastChild), t, b + [s], AsLastChild)
  {
    KidsLast(G, t, s);
    DetachedKidsAt(G, s, t);
    LastOnKids(G, Detached(G, s), Put(G, t, s, AsLastChild), t, s, b, G.pos[s], G.par[s] == t);
  }

  /** Prepending `s` to `t` adds it to the front of the block that starts the children of `t`. */
  lemma PutFirst(G: Forest, t: Node, s: Node, b: seq<Node>)
    requires Movable(G, t, s) && !t.kind.Text? && s !in b && Lined(G, t, b, AsFirstChild)
    ensures Lined(Put(G, t, s, AsFirstChild), t, [s] + b, AsFirstChild)
  {
    KidsFirst(G, t, s);
    DetachedKidsAt(G, s, t);
    FirstOnKids(G, Detached(G, s), Put(G, t, s, AsFirstChild), t, s, b, G.pos[s], G.par[s] == t);
  }

  /** Putting `s` right after `t` adds it to the front of the block that follows `t`. */
  lemma PutNext(G: Forest, t: Node, s: Node, b: seq<Node>)
    requires Movable(G, t, s) && s !in b && Lined(G, t, b, AsNextSibling)
    ensures Lined(Put(G, t, s, AsNextSibling), t, [s] + b, AsNextSibling)
  {
    ChainAfter(G, t, s);
    assert Under(G, s, s);
    DetachedAt(G, s, t);
    NextOnChains(G, Detached(G, s), Put(G, t, s, AsNextSibling), t, s, b, G.pos[s], G.chain[s] == G.chain[t]);
  }

  /** Putting `s` right before `t` adds it to the end of the block that precedes `t`. */
  lemma PutPrev(G: Forest, t: Node, s: Node, b: seq<Node>)
    requires Movable(G, t, s) && s !in b && Lined(G, t, b, AsPrevSibling)
    ensures Lined(Put(G, t, s, AsPrevSibling), t, b + [s], AsPrevSibling)
  {
    ChainBefore(G, t, s);
    assert Under(G, s, s);
    DetachedAt(G, s, t);
    PrevOnChains(G, Detached(G, s), Put(G, t, s, AsPrevSibling), t, s, b, G.pos[s], G.chain[s] == G.chain[t]);
  }

  /** Putting `s` at `t` by `op` joins it to the block `b` that `op` keeps next to `t`. */
  lemma PutLined(G: Forest, t: Node, s: Node, b: seq<Node>, op: Place)
    requires Movable(G, t, s) && !Ignored(t, op) && s !in b && Lined(G, t, b, op)
    ensures Lined(Put(G, t, s, op), t, Joined(b, s, op), op)
  {
    match op
    case AsLastChild => PutLast(G, t, s, b);
    case AsFirstChild => PutFirst(G, t, s, b);
    case AsNextSibling => PutNext(G, t, s, b);
    case AsPrevSibling => PutPrev(G, t, s, b);
  }

  // ---------------------------------------------------------------------
  // All the moves of a fan-out

  /** No node is lined up yet. */
  lemma LinedNone(G: Forest, t: Node, op: Place)
    requires Wf(G) && t in G.nodes
    ensures Lined(G, t, [], op)
  {
    assert G.pos[t] < |G.chain[t]|;
    match op
    case AsLastChild =>
    case AsFirstChild =>
    case AsNextSibling =>
    case AsPrevSibling =>
  }

  /**
   * The moves of a fan-out (collection.cpp:50-56, 73-79, 94-100, 115-121)
   * leave distinct sources `ss` where `op` puts them, in the order
   * `Arranged` gives.
   */
  lemma {:induction false} ShiftedLined(p: Sweep, t: Node, ss: seq<Node>, op: Place)
    requires Shiftable(p.forest, t, ss) && Distinct(ss) && !Ignored(t, op)
    ensures Lined(Shifted(p, t, ss, op).forest, t, Arranged(ss, op), op)
    decreases |ss|
  {
    if ss == [] {
      LinedNone(p.forest, t, op);
    } else {
      var n := |ss| - 1;
      ShiftedStep(p, t, ss, op);
      DistinctLast(ss);
      ShiftedLined(p, t, ss[..n], op);
      ArrangedHolds(ss[..n], op, ss[n]);
      PutLined(Shifted(p, t, ss[..n], op).forest, t, ss[n], Arranged(ss[..n], op), op);
      ArrangedSnoc(ss[..n], ss[n], op);
      FrontLast(ss);
    }
  }

  /** Nothing is moved when the sources were to become children of a text node. */
  lemma {:induction false} ShiftedIgnored(p: Sweep, t: Node, ss: seq<Node>, op: Place)
    requires Shiftable(p.forest, t, ss) && Ignored(t, op)
    ensures Shifted(p, t, ss, op).forest == p.forest
    decreases |ss|
  {
    if ss != [] {
      var n := |ss| - 1;
      ShiftedStep(p, t, ss, op);
      ShiftedIgnored(p, t, ss[..n], op);
    }
  }

  /**
   * After a whole fan-out over at least one target, the distinct sources
   * `ss` stand at the last target where `op` puts them, in the order
   * `Arranged` gives.
   */
  lemma FanOutLined(F: Forest, A: Table, c: Counts, freed: set<Node>, ts: seq<Node>, ss: seq<Node>, op: Place,
                    tr: Trace, G: Forest, c': Counts, freed': set<Node>)
    requires FannedOut(F, A, c, freed, ts, ss, op, tr, G, c', freed') && ts != [] && Distinct(ss)
    requires !Ignored(ts[|ts| - 1], op)
    ensures Wf(G) && ts[|ts| - 1] in G.nodes && Lined(G, ts[|ts| - 1], Arranged(ss, op), op)
  {
    var n, o := |ts| - 1, Replay(F, A, op, tr);
    ShiftedLined(Sweep(o.forest, c, freed), ts[n], ss, op);
  }
}
