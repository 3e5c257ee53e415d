/**
 * What a handle captures, read off the forest: the roots of the captured
 * nodes, the trees of a set of roots, and the nodes the handle's queries
 * gather.
 */
module Captures {
  import opened Tree
  import opened Snapshot
  import opened Ownership
  import Search
  import Standing
  import Documents

  /** `E` is the forest of the new document `d`, blank in the table `A`. */
  ghost predicate Founded(E: Forest, A: Table, d: Node)
    reads E.nodes`parent, E.nodes`next, E.nodes`prev, E.nodes`firstChild, E.nodes`attrs
  {
    Valid(E) && Tabled(E.nodes, A) && Standing.Root(E, d) && Snap(E, A, d) == Documents.Blank
  }

  /** A valid forest holding every node of `ns`. */
  ghost predicate Holding(F: Forest, ns: seq<Node>)
    reads F.nodes`parent, F.nodes`next, F.nodes`prev, F.nodes`firstChild
  {
    Valid(F) && Inside(F, ns)
  }

  /** The roots of the nodes `ns`, in order. */
  ghost function RootsOf(F: Forest, ns: seq<Node>): (rs: seq<Node>)
    requires Wf(F) && forall n | n in ns :: n in F.nodes
    ensures |rs| == |ns|
  {
    seq(|ns|, i requires 0 <= i < |ns| => RootOf(F, ns[i]))
  }

  /** Every node of `ns` is a node of `F`. */
  ghost predicate Inside(F: Forest, ns: seq<Node>)
  {
    forall n | n in ns :: n in F.nodes
  }

  /** The nodes freed by deleting the roots `S`. */
  ghost function Trees(F: Forest, S: set<Node>): set<Node>
    requires Wf(F)
  {
    set y | y in F.nodes && exists r | r in S :: Doomed(F, r, y)
  }

  /** The subtrees of the nodes `ns`, in order. */
  ghost function Snaps(F: Forest, A: Table, ns: seq<Node>): (ts: seq<Doc>)
    requires Domains(F) && forall n | n in ns :: n in F.nodes
    ensures |ts| == |ns|
  {
    seq(|ns|, i requires 0 <= i < |ns| => Snap(F, A, ns[i]))
  }

  /** The children of the nodes `ns`, one node's after the other's. */
  ghost function KidsAll(F: Forest, ns: seq<Node>): (ks: seq<Node>)
    requires Wf(F) && forall n | n in ns :: n in F.nodes
    ensures forall k | k in ks :: k in F.nodes
    decreases |ns|
  {
    if ns == [] then []
    else KidsOf(F, ns[|ns| - 1]); KidsAll(F, ns[..|ns| - 1]) + F.kids[ns[|ns| - 1]]
  }

  /**
   * What one captured node `x` contributes to a query: for `#id`, the first
   * element with that id at or below `x`, if any; for a tag or `.class`,
   * every topmost match at or below `x`.
   */
  ghost function Answer(F: Forest, x: Node, q: Search.Query): seq<Node>
    requires Wf(F) && x in F.nodes
    reads F.nodes`attrs
  {
    if q.ById? then
      var r := Search.ElementById(F, x, q.id);
      if r == null then [] else [r]
    else Search.Found(F, x, q)
  }

  /** What a query answers from `x` lies at or below `x`, in its tree. */
  lemma AnswerBelow(F: Forest, x: Node, q: Search.Query)
    requires Wf(F) && x in F.nodes
    ensures forall z | z in Answer(F, x, q) :: z in F.nodes && Under(F, x, z) && RootOf(F, z) == RootOf(F, x)
  {
    if q.ById? {
      var r := Search.ElementById(F, x, q.id);
      Search.ElementByIdSpec(F, x, q.id);
      if r != null {
        SameRoot(F, x, r);
      }
    } else {
      forall z | z in Search.Found(F, x, q)
        ensures z in F.nodes && Under(F, x, z) && RootOf(F, z) == RootOf(F, x)
      {
        Search.FoundSound(F, x, q, z);
        SameRoot(F, x, z);
      }
    }
  }

  /** The answers of a query from each of the nodes `ns`, one after the other. */
  ghost function Answered(F: Forest, ns: seq<Node>, q: Search.Query): (rs: seq<Node>)
    requires Wf(F) && Inside(F, ns)
    reads F.nodes`attrs
    ensures Inside(F, rs)
    decreases |ns|
  {
    if ns == [] then []
    else AnswerBelow(F, ns[|ns| - 1], q); Answered(F, ns[..|ns| - 1], q) + Answer(F, ns[|ns| - 1], q)
  }

  /** One more node's answers. */
  lemma AnsweredStep(F: Forest, ns: seq<Node>, i: nat, q: Search.Query)
    requires Stepping(F, ns, i)
    ensures Inside(F, ns[..i + 1])
    ensures Answered(F, ns[..i + 1], q) == Answered(F, ns[..i], q) + Answer(F, ns[i], q)
  {
    assert ns[..i + 1][..i] == ns[..i];
  }

  /** The roots of the nodes `ns`, as a set. */
  ghost function RootSet(F: Forest, ns: seq<Node>): set<Node>
    requires Wf(F) && Inside(F, ns)
  {
    set n | n in ns :: RootOf(F, n)
  }

  /** A query stays in the trees of the nodes it starts from. */
  lemma {:induction false} AnsweredInside(F: Forest, ns: seq<Node>, q: Search.Query)
    requires Wf(F) && Inside(F, ns)
    ensures forall z | z in Answered(F, ns, q) :: RootOf(F, z) in RootSet(F, ns)
    decreases |ns|
  {
    if ns != [] {
      var n := |ns| - 1;
      AnsweredInside(F, ns[..n], q);
      AnswerBelow(F, ns[n], q);
      forall z | z in Answered(F, ns, q)
        ensures RootOf(F, z) in RootSet(F, ns)
      {
        if z in Answered(F, ns[..n], q) {
          var m :| m in ns[..n] && RootOf(F, m) == RootOf(F, z);
          assert m in ns;
        } else {
          assert ns[n] in ns;
        }
      }
    }
  }

  /** The children of the nodes `ns` stay in their trees. */
  lemma {:induction false} KidsInside(F: Forest, ns: seq<Node>)
    requires Wf(F) && Inside(F, ns)
    ensures forall z | z in KidsAll(F, ns) :: RootOf(F, z) in RootSet(F, ns)
    decreases |ns|
  {
    if ns != [] {
      var n := |ns| - 1;
      KidsInside(F, ns[..n]);
      KidsOf(F, ns[n]);
      forall z | z in KidsAll(F, ns)
        ensures RootOf(F, z) in RootSet(F, ns)
      {
        if z in KidsAll(F, ns[..n]) {
          var m :| m in ns[..n] && RootOf(F, m) == RootOf(F, z);
          assert m in ns;
        } else {
          assert ns[n] in ns;
          SameRoot(F, ns[n], z);
        }
      }
    }
  }

  /**
   * When every root a handle captures is registered, capturing the nodes
   * its queries return registers no new root: `roots()` is unchanged.
   */
  lemma QueriesKeepRoots(F: Forest, c: Counts, ns: seq<Node>, q: Search.Query)
    requires Holding(F, ns) && RootSet(F, ns) <= c.Keys
    ensures Counted(c, RootsOf(F, Answered(F, ns, q))).Keys == c.Keys
    ensures Counted(c, RootsOf(F, KidsAll(F, ns))).Keys == c.Keys
  {
    AnsweredInside(F, ns, q);
    RootsKept(F, c, ns, Answered(F, ns, q));
    KidsInside(F, ns);
    RootsKept(F, c, ns, KidsAll(F, ns));
  }

  lemma RootsKept(F: Forest, c: Counts, ns: seq<Node>, ks: seq<Node>)
    requires Wf(F) && Inside(F, ns) && Inside(F, ks) && RootSet(F, ns) <= c.Keys
    requires forall z | z in ks :: RootOf(F, z) in RootSet(F, ns)
    ensures Counted(c, RootsOf(F, ks)).Keys == c.Keys
  {
    CountedKeys(c, RootsOf(F, ks));
    forall r | r in RootsOf(F, ks)
      ensures r in c.Keys
    {
      var j :| 0 <= j < |ks| && RootsOf(F, ks)[j] == r;
      assert ks[j] in ks;
    }
  }

  /** Counting the roots of `a` and then of `b` is counting the roots of `a + b`. */
  lemma CountedRoots(F: Forest, c: Counts, a: seq<Node>, b: seq<Node>)
    requires Wf(F) && Inside(F, a) && Inside(F, b)
    ensures Inside(F, a + b)
    ensures Counted(Counted(c, RootsOf(F, a)), RootsOf(F, b)) == Counted(c, RootsOf(F, a + b))
  {
    assert RootsOf(F, a + b) == RootsOf(F, a) + RootsOf(F, b);
    CountedConcat(c, RootsOf(F, a), RootsOf(F, b));
  }

  /** Deleting one more root adds what that deletion frees. */
  lemma TreesAdd(F: Forest, S: set<Node>, r: Node)
    requires Wf(F)
    ensures Trees(F, S) + Freed(F, r) == Trees(F, S + {r})
  {
  }

  /** `i` indexes the nodes `ns` of the well-formed forest `F`. */
  ghost predicate Stepping(F: Forest, ns: seq<Node>, i: nat)
  {
    Wf(F) && Inside(F, ns) && i < |ns|
  }

  /** The children of one more node, and the captures of their roots. */
  lemma ChildrenStep(F: Forest, c: Counts, ns: seq<Node>, i: nat)
    requires Stepping(F, ns, i)
    ensures KidsAll(F, ns[..i + 1]) == KidsAll(F, ns[..i]) + F.kids[ns[i]]
    ensures Counted(Counted(c, RootsOf(F, KidsAll(F, ns[..i]))), RootsOf(F, F.kids[ns[i]]))
      == Counted(c, RootsOf(F, KidsAll(F, ns[..i + 1])))
  {
    assert ns[..i + 1][..i] == ns[..i];
    KidsOf(F, ns[i]);
    CountedRoots(F, c, KidsAll(F, ns[..i]), F.kids[ns[i]]);
  }

  /** Counting one more root. */
  lemma CountedStep(c: Counts, rs: seq<Node>, i: nat)
    requires i < |rs|
    ensures Counted(c, rs[..i + 1]) == Incremented(Counted(c, rs[..i]), rs[i])
  {
    assert rs[..i + 1][..i] == rs[..i];
  }

  /** After `i` rounds of the destructor's loop over `ns`, `t` is what the rounds left. */
  ghost predicate Dropping(F: Forest, c: Counts, ns: seq<Node>, i: nat, t: Tally)
  {
    Wf(F) && Inside(F, ns) && i < |ns| && t == Dropped(c, RootsOf(F, ns)[..i])
  }

  /** One more `decrement_root` of a parentless root. */
  lemma DropStep(F: Forest, c: Counts, ns: seq<Node>, i: nat, t: Tally)
    requires Dropping(F, c, ns, i, t)
    ensures var r := RootOf(F, ns[i]); var s := Decremented(t.count, r, false);
      && Dropped(c, RootsOf(F, ns)[..i + 1]) == Tally(s.count, t.freed + if s.freed then {r} else {})
      && Trees(F, Dropped(c, RootsOf(F, ns)[..i + 1]).freed) == Trees(F, t.freed) + if s.freed then Freed(F, r) else {}
  {
    var rs := RootsOf(F, ns);
    assert rs[..i + 1][..i] == rs[..i];
    TreesAdd(F, t.freed, rs[i]);
  }

  // ---------------------------------------------------------------------
  // The table against every live capture

  /**
   * The invariant of `root_count` (collection.h:54): `caps` are the nodes
   * captured by all live handles, and the table counts, for each root, how
   * many of them lie in its tree.
   */
  ghost predicate Accounts(F: Forest, c: Counts, caps: seq<Node>)
  {
    Wf(F) && Inside(F, caps) && Tallies(c, multiset(RootsOf(F, caps)))
  }

  /** No two roots of `caps` share a top-level chain. */
  ghost predicate Apart(F: Forest, caps: seq<Node>)
    requires Wf(F) && Inside(F, caps)
  {
    var rs := RootsOf(F, caps);
    forall a, b | a in rs && b in rs && a in F.chain[b] :: a == b
  }

  /** The roots of `a + b` are the roots of `a` followed by those of `b`. */
  lemma RootsConcat(F: Forest, a: seq<Node>, b: seq<Node>)
    requires Wf(F) && Inside(F, a) && Inside(F, b)
    ensures Inside(F, a + b) && RootsOf(F, a + b) == RootsOf(F, a) + RootsOf(F, b)
  {
  }

  /** Deleting the parentless `r` spares a node whose root is neither `r` nor after it in its top-level chain. */
  lemma Spared(F: Forest, r: Node, x: Node)
    requires Wf(F) && r in F.nodes && F.par[r] == null && x in F.nodes
    requires forall k | F.pos[r] <= k < |F.chain[r]| :: F.chain[r][k] != RootOf(F, x)
    ensures !Doomed(F, r, x)
  {
    forall k | F.pos[r] <= k < |F.chain[r]|
      ensures !Under(F, F.chain[r][k], x)
    {
      TreeOfRoot(F, F.chain[r][k], x);
    }
  }

  /** A root is freed only when it is a dropped root that no remaining capture counts. */
  lemma FreedUncaptured(c: Counts, mo: multiset<Node>, rn: seq<Node>, r: Node)
    requires Tallies(c, mo + multiset(rn)) && r in Dropped(c, rn).freed
    ensures r in rn && r !in mo
  {
    DroppedTallies(c, mo + multiset(rn), rn);
    assert (mo + multiset(rn))[r] == multiset(rn)[r];
  }

  /** Deleting a root of `caps` spares the captures in other trees when the roots are apart. */
  lemma SparedCapture(F: Forest, caps: seq<Node>, x: Node, r: Node)
    requires Wf(F) && Inside(F, caps) && Apart(F, caps) && x in caps
    requires r in RootsOf(F, caps) && RootOf(F, x) != r
    ensures !Doomed(F, r, x)
  {
    var rs := RootsOf(F, caps);
    var i :| 0 <= i < |caps| && caps[i] == x;
    assert rs[i] == RootOf(F, x) && rs[i] in rs;
    Spared(F, r, x);
  }

  /** `push_back` (collection.cpp:231-235) keeps the invariant with one more capture. */
  lemma CaptureAccounts(F: Forest, c: Counts, caps: seq<Node>, n: Node)
    requires Accounts(F, c, caps) && n in F.nodes
    ensures Accounts(F, Incremented(c, RootOf(F, n)), caps + [n])
  {
    RootsConcat(F, caps, [n]);
    TallyIncrement(c, multiset(RootsOf(F, caps)), RootOf(F, n));
  }

  /**
   * The destructor (collection.cpp:12-17) keeps the invariant for the
   * captures `others` of the remaining handles, and when their roots lie in
   * different top-level chains it releases none of them: a tree is freed
   * only once nothing captures a node of it.
   */
  lemma DestroyAccounts(F: Forest, c: Counts, others: seq<Node>, ns: seq<Node>)
    requires Wf(F) && Inside(F, others) && Inside(F, ns)
    requires Accounts(F, c, others + ns) && Apart(F, others + ns)
    ensures var t := Dropped(c, RootsOf(F, ns));
      Accounts(F, t.count, others) && forall x | x in others :: x !in Trees(F, t.freed)
  {
    RootsConcat(F, others, ns);
    var ro, rn := RootsOf(F, others), RootsOf(F, ns);
    var mo, mn := multiset(ro), multiset(rn);
    DroppedTallies(c, mo + mn, rn);
    assert mo + mn - mn == mo;
    var t := Dropped(c, rn);
    forall x, r | x in others && r in t.freed
      ensures !Doomed(F, r, x)
    {
      FreedUncaptured(c, mo, rn, r);
      var i :| 0 <= i < |others| && others[i] == x;
      assert ro[i] == RootOf(F, x) && ro[i] in ro;
      assert x in others + ns && r in ro + rn;
      SparedCapture(F, others + ns, x, r);
    }
  }
}

/**
 * The selection handle of core/collection.cpp: a list of captured nodes,
 * each capture counted in the shared table for the root of the node's
 * tree.  The forest the nodes live in is passed in as a ghost value, as
 * everywhere else in the model.
 */
module Collections {
  import opened Tree
  import opened Snapshot
  import opened Ownership
  import Html
  import Search
  import Render
  import Documents
  import Standing
  import opened Captures
  import opened Moves
  import opened Fanouts

  class Collection {
    /** `children_`: the captured nodes, in capture order. */
    var entries: seq<Node>
    /** The table shared by every handle (`root_count` is static). */
    const registry: Registry

    /** `Collection()`: an empty handle. */
    constructor (registry: Registry)
      ensures entries == [] && this.registry == registry
    {
      entries := [];
      this.registry := registry;
    }

    /** `push_back(node)` (collection.cpp:231-235). */
    method PushBack(ghost F: Forest, n: Node)
      requires Member(F, n)
      modifies this`entries, registry`count
      ensures entries == old(entries) + [n]
      ensures registry.count == Incremented(old(registry.count), RootOf(F, n))
    {
      entries := entries + [n];
      var r := GetRoot(F, n);
      registry.Increment(r);
    }

    /** `push_back` of each of `ns` in turn. */
    method PushAll(ghost F: Forest, ns: seq<Node>)
      requires Holding(F, ns)
      modifies this`entries, registry`count
      ensures entries == old(entries) + ns
      ensures registry.count == Counted(old(registry.count), RootsOf(F, ns))
    {
      ghost var rs := RootsOf(F, ns);
      var i := 0;
      while i < |ns|
        invariant i <= |ns| && entries == old(entries) + ns[..i]
        invariant registry.count == Counted(old(registry.count), rs[..i])
      {
        CountedStep(old(registry.count), rs, i);
        PushBack(F, ns[i]);
        i := i + 1;
      }
      assert ns[..i] == ns && rs[..i] == rs;
    }

    /** `Collection(const Collection&)` (collection.cpp:6-11): captures the other handle's nodes again. */
    constructor Copy(ghost F: Forest, other: Collection)
      requires Holding(F, other.entries)
      modifies other.registry`count
      ensures entries == other.entries && registry == other.registry
      ensures registry.count == Counted(old(other.registry.count), RootsOf(F, other.entries))
    {
      entries := [];
      registry := other.registry;
      new;
      PushAll(F, other.entries);
    }

    /**
     * `operator=` (collection.cpp:18-27): the other handle's nodes are
     * captured again after this handle's own, which are kept; assigning a
     * handle to itself changes nothing.
     */
    method Assign(ghost F: Forest, other: Collection)
      requires Holding(F, other.entries) && other.registry == registry
      modifies this`entries, registry`count
      ensures this == other ==> entries == old(entries) && registry.count == old(registry.count)
      ensures this != other ==> entries == old(entries) + old(other.entries)
      ensures this != other ==> registry.count == Counted(old(registry.count), RootsOf(F, old(other.entries)))
    {
      if this == other {
        return;
      }
      PushAll(F, other.entries);
    }

    /**
     * `~Collection()` (collection.cpp:12-17): every capture is let go.  The
     * trees whose count drops to zero are released.
     */
    method Destroy(ghost F: Forest)
      requires Holding(F, entries)
      modifies registry`count, registry`released
      ensures var t := Dropped(old(registry.count), RootsOf(F, entries));
        registry.count == t.count && registry.released == old(registry.released) + Trees(F, t.freed)
    {
      var ns := entries;
      ghost var rs := RootsOf(F, ns);
      ghost var t := Dropped(registry.count, rs[..0]);
      var i := 0;
      while i < |ns|
        invariant i <= |ns| && t == Dropped(old(registry.count), rs[..i])
        invariant registry.count == t.count && registry.released == old(registry.released) + Trees(F, t.freed)
      {
        DestroyOne(F, ns, i, old(registry.count), old(registry.released), t);
        t := Dropped(old(registry.count), rs[..i + 1]);
        i := i + 1;
      }
      assert rs[..i] == rs;
    }

    /** One pass of the loop of `Destroy`: the root of `ns[i]` loses a capture. */
    method DestroyOne(ghost F: Forest, ns: seq<Node>, i: nat, ghost c: Counts, ghost gone: set<Node>, ghost t: Tally)
      requires Holding(F, ns) && i < |ns| && t == Dropped(c, RootsOf(F, ns)[..i])
      requires registry.count == t.count && registry.released == gone + Trees(F, t.freed)
      modifies registry`count, registry`released
      ensures var u := Dropped(c, RootsOf(F, ns)[..i + 1]);
        registry.count == u.count && registry.released == gone + Trees(F, u.freed)
    {
      DropStep(F, c, ns, i, t);
      var r := GetRoot(F, ns[i]);
      registry.Decrement(F, r);
    }

    /**
     * `append(c)` (collection.cpp:36-58): a clone of each of `c`'s nodes
     * becomes the last child of every captured node but the last, and
     * `c`'s nodes themselves become the last children of the last one.
     */
    method Append(ghost F: Forest, ghost A: Table, other: Collection) returns (ghost tr: Trace, ghost G: Forest)
      requires Fanning(F, A, entries, other.entries)
      modifies F.nodes`parent, F.nodes`next, F.nodes`prev, F.nodes`firstChild
      modifies registry`count, registry`released
      ensures Valid(G)
      ensures FannedOut(F, A, old(registry.count), old(registry.released), entries, other.entries, AsLastChild,
                        tr, G, registry.count, registry.released)
    {
      tr, G := FanOut(registry, F, A, entries, other.entries, AsLastChild);
    }

    /** `prepend(c)` (collection.cpp:59-81): the same, as first children. */
    method Prepend(ghost F: Forest, ghost A: Table, other: Collection) returns (ghost tr: Trace, ghost G: Forest)
      requires Fanning(F, A, entries, other.entries)
      modifies F.nodes`parent, F.nodes`next, F.nodes`prev, F.nodes`firstChild
      modifies registry`count, registry`released
      ensures Valid(G)
      ensures FannedOut(F, A, old(registry.count), old(registry.released), entries, other.entries, AsFirstChild,
                        tr, G, registry.count, registry.released)
    {
      tr, G := FanOut(registry, F, A, entries, other.entries, AsFirstChild);
    }

    /** `after(c)` (collection.cpp:82-102): the same, as next siblings. */
    method After(ghost F: Forest, ghost A: Table, other: Collection) returns (ghost tr: Trace, ghost G: Forest)
      requires Fanning(F, A, entries, other.entries)
      modifies F.nodes`parent, F.nodes`next, F.nodes`prev, F.nodes`firstChild
      modifies registry`count, registry`released
      ensures Valid(G)
      ensures FannedOut(F, A, old(registry.count), old(registry.released), entries, other.entries, AsNextSibling,
                        tr, G, registry.count, registry.released)
    {
      tr, G := FanOut(registry, F, A, entries, other.entries, AsNextSibling);
    }

    /** `before(c)` (collection.cpp:103-123): the same, as previous siblings. */
    method Before(ghost F: Forest, ghost A: Table, other: Collection) returns (ghost tr: Trace, ghost G: Forest)
      requires Fanning(F, A, entries, other.entries)
      modifies F.nodes`parent, F.nodes`next, F.nodes`prev, F.nodes`firstChild
      modifies registry`count, registry`released
      ensures Valid(G)
      ensures FannedOut(F, A, old(registry.count), old(registry.released), entries, other.entries, AsPrevSibling,
                        tr, G, registry.count, registry.released)
    {
      tr, G := FanOut(registry, F, A, entries, other.entries, AsPrevSibling);
    }

    /**
     * `remove()` (collection.cpp:124-133): each captured node in turn lets
     * go of its root, is detached, and is counted as a root of its own.
     */
    method Remove(ghost F: Forest) returns (ghost G: Forest)
      requires Holding(F, entries)
      modifies F.nodes`parent, F.nodes`next, F.nodes`prev, F.nodes`firstChild
      modifies registry`count, registry`released
      ensures var q := Swept(F, old(registry.count), entries);
        && Valid(G) && G == q.forest && registry.count == q.count
        && registry.released == old(registry.released) + q.freed
    {
      var ns := entries;
      ghost var c, gone := registry.count, registry.released;
      ghost var q := Swept(F, c, ns[..0]);
      G := F;
      var i := 0;
      while i < |ns|
        invariant i <= |ns| && q == Swept(F, c, ns[..i])
        invariant Valid(G) && G == q.forest
        invariant registry.count == q.count && registry.released == gone + q.freed
      {
        SweptStep(F, c, ns, i);
        RemovedShift(q, ns[i], gone);
        G := Extract(registry, G, ns[i]);
        q := Removed(q, ns[i]);
        i := i + 1;
      }
      assert ns[..i] == ns;
    }

    /**
     * `remove()` in the corrected order: each captured node in turn is
     * detached and counted as a root of its own, and only then is its old
     * root let go, so the old root is never released while `e` lies in it.
     */
    method RemoveSafely(ghost F: Forest) returns (ghost G: Forest)
      requires Holding(F, entries)
      modifies F.nodes`parent, F.nodes`next, F.nodes`prev, F.nodes`firstChild
      modifies registry`count, registry`released
      ensures var q := AllUnhooked(F, old(registry.count), entries);
        && Valid(G) && G == q.forest && registry.count == q.count
        && registry.released == old(registry.released) + q.freed
    {
      var ns := entries;
      ghost var c, gone := registry.count, registry.released;
      ghost var q := AllUnhooked(F, c, ns[..0]);
      G := F;
      var i := 0;
      while i < |ns|
        invariant i <= |ns| && q == AllUnhooked(F, c, ns[..i])
        invariant Valid(G) && G == q.forest
        invariant registry.count == q.count && registry.released == gone + q.freed
      {
        AllUnhookedStep(F, c, ns, i);
        UnhookedShift(q, ns[i], gone);
        G := Unhook(registry, G, ns[i]);
        q := Unhooked(q, ns[i]);
        i := i + 1;
      }
      assert ns[..i] == ns;
    }

    /** `size()` (collection.cpp:134-137). */
    method Size() returns (n: nat)
      ensures n == |entries|
    {
      n := |entries|;
    }

    /**
     * `serialize()` (collection.cpp:28-35): each captured node's
     * serialisation at depth 0, followed by a newline.
     */
    method Serialize(ghost F: Forest, ghost A: Table, order: Render.KeyOrder) returns (s: string)
      requires Holding(F, entries) && Tabled(F.nodes, A) && Render.EachKeyOnce(order)
      ensures s == Render.PrintAll(Snaps(F, A, entries), 0, order)
    {
      var ns := entries;
      ghost var ts := Snaps(F, A, ns);
      s := "";
      var i := 0;
      while i < |ns|
        invariant i <= |ns| && s == Render.PrintAll(ts[..i], 0, order)
      {
        s := SerializeOne(F, A, ns, ts, i, s, order);
        i := i + 1;
      }
      assert ts[..i] == ts;
    }

    /** One pass of the loop of `Serialize`: the line of `ns[i]` follows those before it. */
    static method SerializeOne(ghost F: Forest, ghost A: Table, ns: seq<Node>, ghost ts: seq<Doc>,
                               i: nat, s: string, order: Render.KeyOrder) returns (more: string)
      requires Holding(F, ns) && Tabled(F.nodes, A) && ts == Snaps(F, A, ns) && i < |ns|
      requires Render.EachKeyOnce(order) && s == Render.PrintAll(ts[..i], 0, order)
      ensures more == Render.PrintAll(ts[..i + 1], 0, order)
    {
      var line := Render.Serialize(F, A, ns[i], 0, order);
      Render.PrintAllSnoc(ts[..i], ts[i], 0, order);
      TakeOneMore(ts, i);
      more := s + line + "\n";
    }

    /** `operator[](index)` (collection.cpp:196-205): a new handle capturing entry `index`, or nothing. */
    method At(ghost F: Forest, index: nat) returns (result: Collection)
      requires Holding(F, entries)
      modifies registry`count
      ensures fresh(result) && result.registry == registry
      ensures result.entries == if index < |entries| then [entries[index]] else []
      ensures registry.count == Counted(old(registry.count), RootsOf(F, result.entries))
    {
      result := new Collection(registry);
      if index < |entries| {
        result.PushAll(F, [entries[index]]);
      } else {
        assert RootsOf(F, []) == [];
      }
    }

    /** `children()` (collection.cpp:206-215): a new handle capturing the children of every entry in turn. */
    method Children(ghost F: Forest) returns (result: Collection)
      requires Holding(F, entries)
      modifies registry`count
      ensures fresh(result) && result.registry == registry
      ensures result.entries == KidsAll(F, entries)
      ensures registry.count == Counted(old(registry.count), RootsOf(F, result.entries))
    {
      var ns := entries;
      result := new Collection(registry);
      var i := 0;
      while i < |ns|
        invariant i <= |ns| && result.entries == KidsAll(F, ns[..i])
        invariant registry.count == Counted(old(registry.count), RootsOf(F, result.entries))
      {
        ChildrenStep(F, old(registry.count), ns, i);
        result.PushKids(F, ns[i]);
        i := i + 1;
      }
      assert ns[..i] == ns;
    }

    /** The inner loop of `children()`: captures the children of `n`. */
    method PushKids(ghost F: Forest, n: Node)
      requires Member(F, n)
      modifies this`entries, registry`count
      ensures entries == old(entries) + F.kids[n] && Inside(F, F.kids[n])
      ensures registry.count == Counted(old(registry.count), RootsOf(F, F.kids[n]))
    {
      var kids := n.GetChildren(F);
      KidsOf(F, n);
      PushAll(F, kids);
    }

    /**
     * The `#id`, tag and `.class` queries (collection.cpp:162-189): a new
     * handle capturing, for each entry in turn, what the query answers at
     * or below it.
     */
    method Query(ghost F: Forest, q: Search.Query) returns (result: Collection)
      requires Holding(F, entries)
      modifies registry`count
      ensures fresh(result) && result.registry == registry
      ensures result.entries == old(Answered(F, entries, q))
      ensures registry.count == Counted(old(registry.count), RootsOf(F, result.entries))
    {
      var found := Gather(F, entries, q);
      result := new Collection(registry);
      result.PushAll(F, found);
    }

    /** The loops of the queries, gathering what `q` answers at or below each of `ns` in turn. */
    static method Gather(ghost F: Forest, ns: seq<Node>, q: Search.Query) returns (found: seq<Node>)
      requires Holding(F, ns)
      ensures found == Answered(F, ns, q)
    {
      found := [];
      var i := 0;
      while i < |ns|
        invariant i <= |ns| && found == Answered(F, ns[..i], q)
      {
        found := GatherOne(F, ns, i, found, q);
        i := i + 1;
      }
      assert ns[..i] == ns;
    }

    /** One pass of the loop of `Gather`: the answers at `ns[i]` follow those before it. */
    static method GatherOne(ghost F: Forest, ns: seq<Node>, i: nat, found: seq<Node>, q: Search.Query)
      returns (more: seq<Node>)
      requires Holding(F, ns) && i < |ns| && found == Answered(F, ns[..i], q)
      ensures Inside(F, ns[..i + 1]) && more == Answered(F, ns[..i + 1], q)
    {
      AnsweredStep(F, ns, i, q);
      var answer := Ask(F, ns[i], q);
      more := found + answer;
    }

    /** The inner step of the queries: what `q` answers at or below `n`, found by walking the links. */
    static method Ask(ghost F: Forest, n: Node, q: Search.Query) returns (answer: seq<Node>)
      requires Member(F, n)
      ensures answer == Captures.Answer(F, n, q)
    {
      if q.ById? {
        var node := Search.GetElementById(F, n, q.id);
        answer := if node == null then [] else [node];
      } else {
        answer := Search.Select(F, n, q);
      }
    }

    /**
     * The `<tag/>` query (collection.cpp:149-154): a new handle capturing a
     * new element with that tag, whose attributes and text children come
     * from `attributes`.  The element heads a forest `E` of new nodes, so
     * the registry gains a key it did not have; `MergeValid` puts `E`
     * beside the caller's forest.
     */
    method Create(tag: string, attributes: seq<Html.Attribute>) returns (result: Collection, ghost n: Node, ghost E: Forest)
      modifies registry`count
      ensures fresh(result) && result.registry == registry && result.entries == [n]
      ensures fresh(n) && n.kind == Element && n.tag == tag && n.attrs == Html.Collected(attributes)
      ensures fresh(E.nodes) && Html.TextParent(E, n, Html.Texts(attributes))
      ensures n !in old(registry.count) && registry.count == old(registry.count)[n := 1]
    {
      var element;
      element, E := Html.NewElement(tag, attributes);
      n := element;
      result := Capture(registry, E, element);
    }

    /** `attr(key)` (collection.cpp:216-222): the attribute of the first entry, or the empty string. */
    method GetAttr(key: string) returns (v: string)
      ensures entries == [] ==> v == ""
      ensures entries != [] ==> v == Html.GetAttr(entries[0], key)
    {
      if entries == [] {
        return "";
      }
      v := Html.GetAttr(entries[0], key);
    }

    /** `attr(key, value)` (collection.cpp:223-229): the attribute is set on every entry. */
    method SetAttr(key: string, value: string)
      modifies (set n | n in entries)`attrs
      ensures forall n | n in entries :: Html.GetAttr(n, key) == if n.kind.Text? then "" else value
      ensures forall n, k | n in entries && k != key :: Html.GetAttr(n, k) == old(Html.GetAttr(n, k))
      ensures forall n | n in entries :: n.attrs == if n.kind.Text? then old(n.attrs) else old(n.attrs)[key := value]
    {
      var i := 0;
      while i < |entries|
        invariant i <= |entries|
        invariant forall n | n in entries[..i] :: Html.GetAttr(n, key) == if n.kind.Text? then "" else value
        invariant forall n, k | n in entries && k != key :: Html.GetAttr(n, k) == old(Html.GetAttr(n, k))
        invariant forall n | n in entries[..i] ::
          n.attrs == if n.kind.Text? then old(n.attrs) else old(n.attrs)[key := value]
        invariant forall n | n in entries && n !in entries[..i] :: n.attrs == old(n.attrs)
      {
        Html.SetAttr(entries[i], key, value);
        i := i + 1;
      }
      assert entries[..i] == entries;
    }
  }

  /**
   * `SeeQuery()` (collection.cpp:268-271): a handle capturing a new
   * document, which heads a forest `E` of new nodes and so is a root the
   * registry did not have.
   */
  method NewSeeQuery(registry: Registry) returns (q: Collection, ghost d: Node, ghost E: Forest, ghost A: Table)
    modifies registry`count
    ensures fresh(q) && q.registry == registry && q.entries == [d]
    ensures fresh(d) && Founded(E, A, d)
    ensures d !in old(registry.count) && registry.count == old(registry.count)[d := 1]
  {
    var dom;
    dom, E, A := Documents.NewDom();
    d := dom;
    assert Founded(E, A, d);
    q := Capture(registry, E, dom);
  }

  /** `Collection result; result.push_back(n)` for the parentless node `n`. */
  method Capture(registry: Registry, ghost E: Forest, n: Node) returns (q: Collection)
    requires Member(E, n) && E.par[n] == null
    modifies registry`count
    ensures fresh(q) && q.registry == registry && q.entries == [n]
    ensures registry.count == Incremented(old(registry.count), n)
  {
    q := new Collection(registry);
    q.PushBack(E, n);
  }
}
