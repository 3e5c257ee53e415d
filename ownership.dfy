/**
 * The root-ownership table of core/collection.cpp:237-266: a count per
 * root node of how many captured nodes live in its tree.  The table is
 * first given as values and transitions on them, then as the class
 * `Registry` whose methods follow collection.cpp.  Freeing a tree is
 * recorded by adding its nodes to the ghost set `released`.
 */
module Ownership {
  import opened Tree

  // ---------------------------------------------------------------------
  // Roots

  /** `get_root(x)` (collection.cpp:258-264): the topmost ancestor of `x`. */
  ghost function RootOf(F: Forest, x: Node): (r: Node)
    requires Wf(F) && x in F.nodes
    ensures r in F.nodes && F.par[r] == null && Under(F, r, x)
    decreases F.level[x]
  {
    if F.par[x] == null then x else RootOf(F, F.par[x])
  }

  /** The nodes at or below `r`. */
  ghost function Subtree(F: Forest, r: Node): set<Node>
    requires Wf(F)
  {
    set y | y in F.nodes && Under(F, r, y)
  }

  /** The tree of a parentless node is exactly the set of nodes whose root it is. */
  lemma {:induction false} TreeOfRoot(F: Forest, r: Node, y: Node)
    requires Wf(F) && r in F.nodes && F.par[r] == null && y in F.nodes
    ensures y in Subtree(F, r) <==> RootOf(F, y) == r
    decreases F.level[y]
  {
    if F.par[y] != null {
      TreeOfRoot(F, r, F.par[y]);
      assert y != r;
    }
  }

  /** A node shares its root with every node below it. */
  lemma {:induction false} SameRoot(F: Forest, x: Node, y: Node)
    requires Wf(F) && x in F.nodes && y in F.nodes && Under(F, x, y)
    ensures RootOf(F, y) == RootOf(F, x)
    decreases F.level[y]
  {
    if y != x {
      SameRoot(F, x, F.par[y]);
    }
  }

  /**
   * `y` is deleted by `delete r` (node.cpp:7-11) for a parentless `r`: it
   * lies in the tree of `r` or, through `delete nextSibling()`, in the tree
   * of a node after `r` in its top-level chain.
   */
  ghost predicate Doomed(F: Forest, r: Node, y: Node)
    requires Wf(F) && y in F.nodes
  {
    r in F.nodes && exists k | F.pos[r] <= k < |F.chain[r]| :: Under(F, F.chain[r][k], y)
  }

  /** The nodes `delete r` frees. */
  ghost function Freed(F: Forest, r: Node): set<Node>
    requires Wf(F)
  {
    set y | y in F.nodes && Doomed(F, r, y)
  }

  /**
   * Deleting a parentless node frees its own tree, and also the tree of
   * every node after it in its top-level chain, whether or not anything
   * still counts that node as a root.
   */
  lemma FreedTrees(F: Forest, r: Node, k: nat)
    requires Wf(F) && r in F.nodes && F.pos[r] <= k < |F.chain[r]|
    ensures Subtree(F, r) <= Freed(F, r)
    ensures Subtree(F, F.chain[r][k]) <= Freed(F, r)
  {
    forall y | y in Subtree(F, r)
      ensures Doomed(F, r, y)
    {
      assert F.chain[r][F.pos[r]] == r;
    }
  }

  /** For a node alone in its top-level chain, only its own tree is freed. */
  lemma FreedAlone(F: Forest, r: Node)
    requires Wf(F) && r in F.nodes && F.chain[r] == [r]
    ensures Freed(F, r) == Subtree(F, r)
  {
    FreedTrees(F, r, F.pos[r]);
  }

  /** `x` is a node of the valid forest `F`. */
  ghost predicate Member(F: Forest, x: Node)
    reads F.nodes`parent, F.nodes`next, F.nodes`prev, F.nodes`firstChild
  {
    Valid(F) && x in F.nodes
  }

  /** `get_root` follows the parent links up to a parentless node. */
  method GetRoot(ghost F: Forest, x: Node) returns (r: Node)
    requires Member(F, x)
    ensures r == RootOf(F, x) && r.parent == null
  {
    r := x;
    while r.parent != null
      invariant r in F.nodes && RootOf(F, r) == RootOf(F, x)
      decreases F.level[r]
    {
      r := r.parent;
    }
  }

  // ---------------------------------------------------------------------
  // The table as a value

  /** `root_count`: a map from nodes to signed counts (collection.h:54). */
  type Counts = map<Node, int>

  /** `root_count[r]`, where a missing key reads as zero. */
  function CountOf(c: Counts, r: Node): int
  {
    if r in c then c[r] else 0
  }

  /** `++root_count[root]` (collection.cpp:242-245). */
  function Incremented(c: Counts, r: Node): (d: Counts)
  {
    c[r := CountOf(c, r) + 1]
  }

  /** What `decrement_root` leaves: the new table and whether the tree of the node was freed. */
  datatype Step = Step(count: Counts, freed: bool)

  /**
   * `decrement_root(root)` (collection.cpp:246-257): a node that has a
   * parent loses its entry and nothing is freed; otherwise its count drops,
   * and at zero it loses its entry and its tree is freed.
   */
  function Decremented(c: Counts, r: Node, attached: bool): (s: Step)
  {
    if attached then Step(c - {r}, false)
    else if CountOf(c, r) - 1 == 0 then Step(c - {r}, true)
    else Step(c[r := CountOf(c, r) - 1], false)
  }

  /** Every entry of the table is positive. */
  ghost predicate Positive(c: Counts)
  {
    forall y | y in c :: c[y] > 0
  }

  /** Incrementing adds one to the count of `r` only, creating the entry if need be. */
  lemma IncrementOne(c: Counts, r: Node, y: Node)
    ensures y in Incremented(c, r) <==> y in c || y == r
    ensures CountOf(Incremented(c, r), y) == CountOf(c, y) + (if y == r then 1 else 0)
    ensures Positive(c) ==> Positive(Incremented(c, r))
  {
  }

  /**
   * A tree is freed exactly when its parentless root had the count one;
   * an attached node is never freed.  Positive counts stay positive as
   * long as the node decremented has an entry or a parent.
   */
  lemma DecrementFrees(c: Counts, r: Node, attached: bool)
    requires Positive(c)
    ensures Decremented(c, r, attached).freed <==> !attached && r in c && c[r] == 1
    ensures attached || r in c ==> Positive(Decremented(c, r, attached).count)
    ensures !attached && r !in c ==> Decremented(c, r, attached).count[r] == -1
    ensures r !in Decremented(c, r, attached).count <==> attached || (r in c && c[r] == 1)
  {
  }

  /** Capturing a node of a counted tree and letting it go again changes nothing. */
  lemma CaptureRelease(c: Counts, r: Node)
    requires Positive(c) && r in c
    ensures Decremented(Incremented(c, r), r, false) == Step(c, false)
  {
    assert c[r := c[r] + 1][r := c[r]] == c;
  }

  /** Setting an entry adds a key exactly when it was missing. */
  lemma SetSize(c: Counts, r: Node, v: int)
    ensures |c[r := v]| == |c| + (if r in c then 0 else 1)
  {
    if r !in c {
      assert c[r := v].Keys == c.Keys + {r};
    } else {
      assert c[r := v].Keys == c.Keys;
    }
  }

  /** Dropping an entry removes a key exactly when it was there. */
  lemma DropSize(c: Counts, r: Node)
    ensures |c - {r}| == |c| - (if r in c then 1 else 0)
  {
    if r in c {
      assert (c - {r}).Keys == c.Keys - {r};
    } else {
      assert (c - {r}).Keys == c.Keys;
    }
  }

  /** Counting a node adds a root exactly when the node had no entry. */
  lemma IncrementRoots(c: Counts, r: Node)
    ensures |Incremented(c, r)| == |c| + (if r in c then 0 else 1)
  {
    SetSize(c, r, CountOf(c, r) + 1);
  }

  /**
   * Letting a node go removes a root exactly when its entry is dropped, and
   * adds one only for a parentless node that had no entry.
   */
  lemma DecrementRoots(c: Counts, r: Node, attached: bool)
    ensures var d := Decremented(c, r, attached).count;
      |d| == |c| + (if r in d && r !in c then 1 else 0) - (if r in c && r !in d then 1 else 0)
  {
    if attached || CountOf(c, r) - 1 == 0 {
      DropSize(c, r);
    } else {
      SetSize(c, r, CountOf(c, r) - 1);
    }
  }

  // ---------------------------------------------------------------------
  // The table against the captures it counts

  /**
   * `c` counts the multiset `m` of roots: each root has an entry exactly
   * when it occurs in `m`, and the entry is the number of occurrences.
   */
  ghost predicate Tallies(c: Counts, m: multiset<Node>)
  {
    && Positive(c)
    && (forall r | r in c :: c[r] == m[r])
    && (forall r | r in m :: r in c)
  }

  /** A multiset has at most one table that counts it. */
  lemma TalliesUnique(c: Counts, d: Counts, m: multiset<Node>)
    requires Tallies(c, m) && Tallies(d, m)
    ensures c == d
  {
    forall r
      ensures r in c <==> r in d
    {
      assert CountOf(c, r) == CountOf(d, r);
    }
    forall r | r in c
      ensures c[r] == d[r]
    {
      assert CountOf(c, r) == CountOf(d, r);
    }
  }

  /** Capturing a node adds its root to the multiset counted. */
  lemma TallyIncrement(c: Counts, m: multiset<Node>, r: Node)
    requires Tallies(c, m)
    ensures Tallies(Incremented(c, r), m + multiset{r})
  {
    var d := Incremented(c, r);
    forall y
      ensures CountOf(d, y) == (m + multiset{r})[y]
    {
      IncrementOne(c, r, y);
    }
    IncrementOne(c, r, r);
  }

  /**
   * Letting go of a capture of the parentless root `r` takes `r` out of the
   * multiset once, and frees the tree of `r` exactly when that was its last
   * capture.
   */
  lemma TallyDecrement(c: Counts, m: multiset<Node>, r: Node)
    requires Tallies(c, m) && r in m
    ensures var s := Decremented(c, r, false);
      Tallies(s.count, m - multiset{r}) && (s.freed <==> m[r] == 1)
  {
    assert CountOf(c, r) == m[r];
    var s := Decremented(c, r, false);
    forall y
      ensures CountOf(s.count, y) == (m - multiset{r})[y]
    {
      assert CountOf(c, y) == m[y];
    }
  }

  /** The table after `increment_root` of each of `rs` in turn. */
  function Counted(c: Counts, rs: seq<Node>): Counts
    decreases |rs|
  {
    if rs == [] then c else Incremented(Counted(c, rs[..|rs| - 1]), rs[|rs| - 1])
  }

  /** Counting `a` and then `b` is counting `a + b`. */
  lemma {:induction false} CountedConcat(c: Counts, a: seq<Node>, b: seq<Node>)
    ensures Counted(Counted(c, a), b) == Counted(c, a + b)
    decreases |b|
  {
    if b != [] {
      var n := |b| - 1;
      CountedConcat(c, a, b[..n]);
      assert (a + b)[..|a + b| - 1] == a + b[..n];
    } else {
      assert a + b == a;
    }
  }

  /**
   * Capturing the roots `rs` registers exactly those roots: the keys after
   * counting are the old keys and the roots, so the number of registered
   * roots grows only by roots that were not registered yet.
   */
  lemma {:induction false} CountedKeys(c: Counts, rs: seq<Node>)
    ensures Counted(c, rs).Keys == c.Keys + set r | r in rs
    decreases |rs|
  {
    if rs != [] {
      var n := |rs| - 1;
      CountedKeys(c, rs[..n]);
      assert rs == rs[..n] + [rs[n]];
      assert (set r | r in rs) == (set r | r in rs[..n]) + {rs[n]};
    }
  }

  datatype Tally = Tally(count: Counts, freed: set<Node>)

  /** The table and the roots freed after `decrement_root` of each parentless root of `rs` in turn. */
  function Dropped(c: Counts, rs: seq<Node>): Tally
    decreases |rs|
  {
    if rs == [] then Tally(c, {})
    else
      var t := Dropped(c, rs[..|rs| - 1]);
      var s := Decremented(t.count, rs[|rs| - 1], false);
      Tally(s.count, t.freed + if s.freed then {rs[|rs| - 1]} else {})
  }

  /** Capturing nodes whose roots are `rs` adds `rs` to the multiset counted. */
  lemma {:induction false} CountedTallies(c: Counts, m: multiset<Node>, rs: seq<Node>)
    requires Tallies(c, m)
    ensures Tallies(Counted(c, rs), m + multiset(rs))
    decreases |rs|
  {
    if rs != [] {
      var n := |rs| - 1;
      CountedTallies(c, m, rs[..n]);
      TallyIncrement(Counted(c, rs[..n]), m + multiset(rs[..n]), rs[n]);
      assert rs == rs[..n] + [rs[n]];
    }
  }

  /**
   * Letting go of captures whose roots are `rs` takes them out of the
   * multiset counted, and frees exactly the roots of `rs` that nothing
   * else captures.
   */
  lemma {:induction false} DroppedTallies(c: Counts, m: multiset<Node>, rs: seq<Node>)
    requires Tallies(c, m) && multiset(rs) <= m
    ensures Tallies(Dropped(c, rs).count, m - multiset(rs))
    ensures forall r :: r in Dropped(c, rs).freed <==> r in rs && m[r] == multiset(rs)[r]
    decreases |rs|
  {
    if rs != [] {
      var n := |rs| - 1;
      var r := rs[n];
      assert rs == rs[..n] + [r];
      var before := multiset(rs[..n]);
      assert before + multiset{r} == multiset(rs);
      DroppedTallies(c, m, rs[..n]);
      var t := Dropped(c, rs[..n]);
      assert (m - before)[r] == m[r] - before[r] >= 1;
      TallyDecrement(t.count, m - before, r);
      assert m - before - multiset{r} == m - multiset(rs);
      forall y
        ensures y in Dropped(c, rs).freed <==> y in rs && m[y] == multiset(rs)[y]
      {
        if y != r {
          assert multiset(rs)[y] == before[y];
          assert y in rs <==> y in rs[..n];
        }
      }
    }
  }

  /**
   * Capturing nodes with the roots `rs` and letting them go again leaves the
   * table as it was, and frees the trees of those roots it did not count.
   */
  lemma CaptureDrop(c: Counts, m: multiset<Node>, rs: seq<Node>)
    requires Tallies(c, m)
    ensures Dropped(Counted(c, rs), rs).count == c
    ensures forall r :: r in Dropped(Counted(c, rs), rs).freed <==> r in rs && r !in c
  {
    CountedTallies(c, m, rs);
    var d := Dropped(Counted(c, rs), rs);
    DroppedTallies(Counted(c, rs), m + multiset(rs), rs);
    assert m + multiset(rs) - multiset(rs) == m;
    TalliesUnique(d.count, c, m);
    forall r
      ensures r in d.freed <==> r in rs && r !in c
    {
      assert r in c <==> r in m;
    }
  }

  // ---------------------------------------------------------------------
  // The table as an object

  /** The static `root_count` of collection.cpp:266, with the trees it has freed. */
  class Registry {
    var count: Counts
    /** The nodes `delete` has been called on, directly or through a parent. */
    ghost var released: set<Node>

    constructor ()
      ensures count == map[] && released == {}
    {
      count := map[];
      released := {};
    }

    /** `increment_root` (collection.cpp:242-245). */
    method Increment(r: Node)
      modifies this`count
      ensures count == Incremented(old(count), r)
    {
      count := count[r := CountOf(count, r) + 1];
    }

    /**
     * `decrement_root` (collection.cpp:246-257), reading whether `r` has a
     * parent from the heap.  When `r` is deleted, the nodes `delete` reaches
     * are released; an attached `r` releases nothing.
     */
    method Decrement(ghost F: Forest, r: Node)
      requires Member(F, r)
      modifies this`count, this`released
      ensures var s := Decremented(old(count), r, F.par[r] != null);
        count == s.count && released == old(released) + (if s.freed then Freed(F, r) else {})
    {
      if r.parent != null {
        count := count - {r};
        return;
      }
      var n := CountOf(count, r) - 1;
      if n == 0 {
        count := count - {r};
        released := released + Freed(F, r);
      } else {
        count := count[r := n];
      }
    }

    /** `roots()` (collection.cpp:238-241): the number of entries. */
    method Roots() returns (n: nat)
      ensures n == |count|
    {
      n := |count|;
    }
  }
}
