/**
 * The intrusive sibling-chain tree (core/node.h, core/node.cpp).
 *
 * Every node carries four mutable links.  Siblings form a chain linked by
 * `next` and `prev`; the head of a chain does not store a real predecessor
 * in `prev` but a back-link to the tail, which makes appending O(1).
 * A parent only stores the head of its children's chain in `firstChild`.
 *
 * The links are explained by a ghost value, a `Forest`, that every
 * operation receives and, when it changes the links, returns updated.  For
 * each node it records the parent, the whole chain the node belongs to (the
 * same sequence for all members, also for parentless chains), the node's
 * index in it, its children and a rank that grows from parent to child (it
 * is what makes walks up and down the tree terminate).  `Valid(F)` says
 * that the forest is well formed and that the links agree with it.
 */
module Tree {

  /** Spaces of indentation per nesting level (node.h:10). */
  const IndentWidth: nat := 2

  /** The closed set of node variants: HtmlNode, TextNode and Dom. */
  datatype Kind = Element | Text | Document

  class Node {
    var parent: Node?
    var next: Node?
    /** For the head of a chain: the tail.  Otherwise: the predecessor. */
    var prev: Node?
    var firstChild: Node?

    const kind: Kind
    /** Tag name of an element (empty for a text node). */
    const tag: string
    /** Text payload of a text node (empty for an element). */
    const payload: string
    /** Attribute map of an element; a text node keeps it empty. */
    var attrs: map<string, string>

    /** A fresh node is a standalone singleton chain (node.h:59-63). */
    constructor (kind: Kind, tag: string, payload: string)
      ensures this.kind == kind && this.tag == tag && this.payload == payload
      ensures parent == null && next == null && firstChild == null && prev == this
      ensures attrs == map[]
    {
      this.kind := kind;
      this.tag := tag;
      this.payload := payload;
      parent := null;
      next := null;
      firstChild := null;
      attrs := map[];
      new;
      prev := this;
    }

    // ---------------------------------------------------------------------
    // Queries (node.cpp).  None of them changes anything.

    /** node.cpp:42-45 */
    method NextSibling(ghost F: Forest) returns (r: Node?)
      requires Valid(F) && this in F.nodes
      ensures r == null <==> F.pos[this] == |F.chain[this]| - 1
      ensures r != null ==> r in F.nodes && r == F.chain[this][F.pos[this] + 1]
    {
      r := next;
    }

    /** The tail of this node's chain (node.cpp:117-128). */
    method LastSibling(ghost F: Forest) returns (r: Node)
      requires Valid(F) && this in F.nodes
      ensures r == Last(F.chain[this]) && r in F.nodes && r.next == null
    {
      if parent != null {
        var first := parent.firstChild;
        assert F.chain[first] == F.chain[this];
        r := first.prev;
      } else {
        r := this;
        ghost var i := F.pos[this];
        while r.next != null
          invariant 0 <= i < |F.chain[this]| && r == F.chain[this][i]
          decreases |F.chain[this]| - i
        {
          r := r.next;
          i := i + 1;
        }
      }
    }

    /** The head of this node's chain (node.cpp:93-105). */
    method FirstSibling(ghost F: Forest) returns (r: Node)
      requires Valid(F) && this in F.nodes
      ensures r == F.chain[this][0] && r in F.nodes
    {
      if parent != null {
        r := parent.firstChild;
      } else {
        var last := LastSibling(F);
        r := this;
        ghost var i := F.pos[this];
        while r.prev != last
          invariant 0 <= i < |F.chain[this]| && r == F.chain[this][i]
          decreases i
        {
          if i == 0 {
            assert false;
          }
          r := r.prev;
          i := i - 1;
        }
        ChainDistinct(F, this);
      }
    }

    /** The getter hides the head's back-link (node.cpp:66-72). */
    method PrevSibling(ghost F: Forest) returns (r: Node?)
      requires Valid(F) && this in F.nodes
      ensures r == null <==> F.pos[this] == 0
      ensures r != null ==> r in F.nodes && r == F.chain[this][F.pos[this] - 1]
    {
      var first := FirstSibling(F);
      if this == first {
        r := null;
      } else {
        r := prev;
      }
    }

    /** node.cpp:157-160 */
    method IsLast(ghost F: Forest) returns (b: bool)
      requires Valid(F) && this in F.nodes
      ensures b <==> this == Last(F.chain[this])
    {
      b := next == null;
      ChainDistinct(F, this);
    }

    /** The head is the node whose stored `prev` is the tail (node.cpp:152-156). */
    method IsFirst(ghost F: Forest) returns (b: bool)
      requires Valid(F) && this in F.nodes
      ensures b <==> this == F.chain[this][0]
    {
      b := prev.next == null;
      ChainDistinct(F, this);
    }

    /** The tail of the children's chain, found through the head's back-link (node.cpp:148-151). */
    method LastChild(ghost F: Forest) returns (r: Node)
      requires Valid(F) && this in F.nodes && F.kids[this] != []
      ensures r == Last(F.kids[this]) && r in F.nodes
    {
      var first := firstChild;
      assert F.chain[first] == F.kids[this];
      r := first.prev;
    }

    /** The children, walked from the first child along `next` (node.cpp:24-33). */
    method GetChildren(ghost F: Forest) returns (r: seq<Node>)
      requires Valid(F) && this in F.nodes
      ensures r == F.kids[this]
    {
      r := [];
      var node := firstChild;
      if node != null {
        assert F.chain[node] == F.kids[this];
      }
      while node != null
        invariant |r| <= |F.kids[this]| && r == F.kids[this][..|r|]
        invariant node == (if |r| < |F.kids[this]| then F.kids[this][|r|] else null)
        invariant node != null ==> node in F.nodes && F.chain[node] == F.kids[this] && F.pos[node] == |r|
        decreases |F.kids[this]| - |r|
      {
        r := r + [node];
        node := node.next;
      }
    }

    // ---------------------------------------------------------------------
    // Splices (node.cpp).

    /**
     * Cuts this node out of its chain (node.cpp:161-187): the neighbours are
     * linked to each other, the parent's first child moves on when this was
     * the head, and this node is left a parentless singleton with its own
     * children.  When this node is the tail behind a predecessor, the head's
     * back-link is moved to the new tail; node.cpp:165-170 leaves it behind.
     */
    method Detach(ghost F: Forest) returns (r: Node, ghost G: Forest)
      requires Valid(F) && this in F.nodes
      modifies F.nodes`parent, F.nodes`next, F.nodes`prev, F.nodes`firstChild
      ensures r == this && G == Detached(F, this) && Valid(G)
    {
      var nx := next;
      var pv := PrevSibling(F);
      var head: Node? := null;
      if pv != null && nx == null {
        head := FirstSibling(F);
      }
      Unlink(F.nodes, pv, nx, head);
      r := this;
      G := Detached(F, this);
      UnlinkedValid(F, this, pv, nx, head);
    }

    /** The pointer writes of `Detach`, given the neighbours it has looked up. */
    method Unlink(ghost U: set<Node>, pv: Node?, nx: Node?, head: Node?)
      requires this in U && (parent != null ==> parent in U)
      requires pv != null ==> pv in U
      requires nx != null ==> nx in U
      requires head != null ==> head in U && pv != null && nx == null
      requires pv != null ==> pv == prev
      modifies U`parent, U`next, U`prev, U`firstChild
      ensures parent == null && next == null && prev == this
      ensures forall x {:trigger x.parent} | x in U && x != this :: x.parent == old(x.parent)
      ensures forall x {:trigger x.next} | x in U && x != this ::
        x.next == (if x == pv then nx else old(x.next))
      ensures forall x {:trigger x.prev} | x in U && x != this ::
        x.prev == (if x == nx then old(prev) else if x == head then pv else old(x.prev))
      ensures forall x {:trigger x.firstChild} | x in U ::
        x.firstChild == (if x == old(parent) && pv == null then nx else old(x.firstChild))
    {
      if pv != null {
        if head != null {
          head.prev := pv;
        }
        pv.next := nx;
        if nx != null {
          nx.prev := pv;
        }
      } else {
        if parent != null {
          parent.firstChild := nx;
        }
        if nx != null {
          nx.prev := prev;
        }
      }
      parent := null;
      next := null;
      prev := this;
    }

    /**
     * Moves `s` to just after this node (node.cpp:46-65): `s` is first cut
     * out of wherever it was, then linked in behind this node with this
     * node's parent; a null `s` changes nothing.  `s` must not be this node
     * or one of its ancestors.
     */
    method InsertAfter(ghost F: Forest, s: Node?) returns (ghost G: Forest)
      requires Valid(F) && this in F.nodes
      requires s != null ==> s in F.nodes && !Under(F, s, this)
      modifies F.nodes`parent, F.nodes`next, F.nodes`prev, F.nodes`firstChild
      ensures s == null ==> G == F
      ensures s != null ==> var D := Detached(F, s);
        CanInsert(D, this, s, D.pos[this] + 1) && G == Inserted(D, this, s, D.pos[this] + 1)
      ensures Valid(G)
    {
      if s == null {
        G := F;
        return;
      }
      DetachedCanInsert(F, s, this);
      var _, D := s.Detach(F);
      G := PutAfter(D, s);
    }

    /** `InsertAfter` once `s` stands alone. */
    method PutAfter(ghost F: Forest, s: Node) returns (ghost G: Forest)
      requires Valid(F) && this in F.nodes && CanInsert(F, this, s, F.pos[this] + 1)
      modifies F.nodes`parent, F.nodes`next, F.nodes`prev
      ensures G == Inserted(F, this, s, F.pos[this] + 1) && Valid(G)
    {
      var k := F.pos[this] + 1;
      InsertApart(F, this, s, k);
      ghost var c := F.chain[this];
      assert Before(c, k) == this && next == After(c, k);
      var head: Node? := null;
      if next == null {
        head := FirstSibling(F);
      }
      assert BackTo(c, k) == if next != null then next else head;
      LinkAfter(F.nodes, s, head);
      G := Inserted(F, this, s, k);
      SplicedValid(F, this, s, k);
    }

    /** The pointer writes of `InsertAfter`, given the head of the chain when this node is its tail. */
    method LinkAfter(ghost U: set<Node>, s: Node, head: Node?)
      requires this in U && s in U && s != this
      requires next != null ==> next in U && next != s
      requires next == null ==> head != null && head in U && head != s
      modifies U`parent, U`next, U`prev
      ensures forall x {:trigger x.parent} | x in U :: x.parent == (if x == s then old(parent) else old(x.parent))
      ensures forall x {:trigger x.next} | x in U ::
        x.next == (if x == this then s else if x == s then old(next) else old(x.next))
      ensures forall x {:trigger x.prev} | x in U ::
        x.prev == (if x == s then this else if x == (if old(next) != null then old(next) else head) then s else old(x.prev))
    {
      s.prev := this;
      s.next := next;
      if next != null {
        next.prev := s;
      } else {
        head.prev := s;
      }
      next := s;
      s.parent := parent;
    }

    /**
     * Moves `s` to just before this node (node.cpp:73-92): `s` is first cut
     * out of wherever it was; when this node heads its chain `s` becomes the
     * parent's first child.  A null `s` changes nothing.  `s` must not be
     * this node or one of its ancestors.
     */
    method InsertBefore(ghost F: Forest, s: Node?) returns (ghost G: Forest)
      requires Valid(F) && this in F.nodes
      requires s != null ==> s in F.nodes && !Under(F, s, this)
      modifies F.nodes`parent, F.nodes`next, F.nodes`prev, F.nodes`firstChild
      ensures s == null ==> G == F
      ensures s != null ==> var D := Detached(F, s);
        CanInsert(D, this, s, D.pos[this]) && G == Inserted(D, this, s, D.pos[this])
      ensures Valid(G)
    {
      if s == null {
        G := F;
        return;
      }
      DetachedCanInsert(F, s, this);
      var _, D := s.Detach(F);
      G := PutBefore(D, s);
    }

    /** `InsertBefore` once `s` stands alone. */
    method PutBefore(ghost F: Forest, s: Node) returns (ghost G: Forest)
      requires Valid(F) && this in F.nodes && CanInsert(F, this, s, F.pos[this])
      modifies F.nodes`parent, F.nodes`next, F.nodes`prev, F.nodes`firstChild
      ensures G == Inserted(F, this, s, F.pos[this]) && Valid(G)
    {
      var k := F.pos[this];
      InsertApart(F, this, s, k);
      var first := IsFirst(F);
      LinkBefore(F.nodes, s, first);
      G := Inserted(F, this, s, k);
      SplicedValid(F, this, s, k);
    }

    /**
     * Moves `s` to the head of this node's chain by inserting it before the
     * current head (node.cpp:112-116).  When `s` already heads the chain
     * nothing changes; node.cpp:114-115 would insert the head before itself.
     */
    method InsertFirstSibling(ghost F: Forest, s: Node?) returns (ghost G: Forest)
      requires Valid(F) && this in F.nodes
      requires s != null ==> s in F.nodes && (F.par[this] != null ==> !Under(F, s, F.par[this]))
      modifies F.nodes`parent, F.nodes`next, F.nodes`prev, F.nodes`firstChild
      ensures s == null || s == F.chain[this][0] ==> G == F
      ensures s != null && s != F.chain[this][0] ==> var h, D := F.chain[this][0], Detached(F, s);
        CanInsert(D, h, s, 0) && G == Inserted(D, h, s, 0)
      ensures Valid(G)
    {
      var first := FirstSibling(F);
      if s == null || s == first {
        G := F;
        return;
      }
      assert F.par[first] == F.par[this] && F.pos[first] == 0;
      G := first.InsertBefore(F, s);
    }

    /**
     * Moves `s` to the tail of this node's chain by inserting it after the
     * current tail (node.cpp:135-139).  When `s` already is the tail nothing
     * changes; node.cpp:137-138 would insert the tail after itself.
     */
    method InsertLastSibling(ghost F: Forest, s: Node?) returns (ghost G: Forest)
      requires Valid(F) && this in F.nodes
      requires s != null ==> s in F.nodes && (F.par[this] != null ==> !Under(F, s, F.par[this]))
      modifies F.nodes`parent, F.nodes`next, F.nodes`prev, F.nodes`firstChild
      ensures s == null || s == Last(F.chain[this]) ==> G == F
      ensures s != null && s != Last(F.chain[this]) ==> var l, D := Last(F.chain[this]), Detached(F, s);
        CanInsert(D, l, s, |D.chain[l]|) && G == Inserted(D, l, s, |D.chain[l]|)
      ensures Valid(G)
    {
      var last := LastSibling(F);
      if s == null || s == last {
        G := F;
        return;
      }
      assert F.par[last] == F.par[this] && F.pos[last] == |F.chain[this]| - 1;
      TailStaysTail(F, s, last);
      G := last.InsertAfter(F, s);
    }

    /** The pointer writes of `InsertBefore`, given whether this node heads its chain. */
    method LinkBefore(ghost U: set<Node>, s: Node, first: bool)
      requires this in U && s in U && s != this && prev in U && prev != s
      requires parent != null ==> parent in U && parent != s
      requires !first ==> prev != this
      modifies U`parent, U`next, U`prev, U`firstChild
      ensures forall x {:trigger x.parent} | x in U :: x.parent == (if x == s then old(parent) else old(x.parent))
      ensures forall x {:trigger x.next} | x in U ::
        x.next == (if x == s then this else if x == old(prev) && !first then s else old(x.next))
      ensures forall x {:trigger x.prev} | x in U ::
        x.prev == (if x == s then old(prev) else if x == this then s else old(x.prev))
      ensures forall x {:trigger x.firstChild} | x in U ::
        x.firstChild == (if x == old(parent) && first then s else old(x.firstChild))
    {
      s.prev := prev;
      s.next := this;
      if first {
        if parent != null {
          parent.firstChild := s;
        }
      } else {
        prev.next := s;
      }
      prev := s;
      s.parent := parent;
    }
  }

  // ---------------------------------------------------------------------
  // Sequences of nodes

  ghost function Last(c: seq<Node>): Node
    requires |c| > 0
  {
    c[|c| - 1]
  }

  /** `c` without its element at index `i`. */
  ghost function Remove(c: seq<Node>, i: nat): (r: seq<Node>)
    requires i < |c|
    ensures |r| == |c| - 1
    ensures forall j | 0 <= j < |r| :: r[j] == if j < i then c[j] else c[j + 1]
  {
    c[..i] + c[i + 1..]
  }

  /** `c` with `x` inserted at index `i`. */
  ghost function InsertAt(c: seq<Node>, i: nat, x: Node): (r: seq<Node>)
    requires i <= |c|
    ensures |r| == |c| + 1 && r[i] == x
    ensures forall j | 0 <= j < |r| && j != i :: r[j] == if j < i then c[j] else c[j - 1]
  {
    c[..i] + [x] + c[i..]
  }

  /** The successor of index `k` in `s`, or null at the tail. */
  ghost function NextAt(s: seq<Node>, k: nat): Node?
    requires k < |s|
  {
    if k + 1 < |s| then s[k + 1] else null
  }

  /** The back-link stored at index `k` of `s`: the predecessor, or at the head the tail. */
  ghost function PrevAt(s: seq<Node>, k: nat): Node
    requires k < |s|
  {
    if k > 0 then s[k - 1] else Last(s)
  }

  /** The successor in `c` of any element other than the one removed. */
  lemma RemoveNext(c: seq<Node>, p: nat, j: nat)
    requires p < |c| && j < |c| && j != p
    ensures var k := if j < p then j else j - 1;
      k < |Remove(c, p)| &&
      NextAt(Remove(c, p), k) == if j + 1 == p then NextAt(c, p) else NextAt(c, j)
  {
  }

  /**
   * The back-link in `c` of any element other than the one removed: the
   * successor of the removed element inherits its back-link, and when the
   * tail is removed the head's back-link moves to the new tail.
   */
  lemma RemovePrev(c: seq<Node>, p: nat, j: nat)
    requires p < |c| && j < |c| && j != p
    ensures var k := if j < p then j else j - 1;
      k < |Remove(c, p)| &&
      PrevAt(Remove(c, p), k) ==
        if j == p + 1 then PrevAt(c, p)
        else if j == 0 && p + 1 == |c| then c[p - 1]
        else PrevAt(c, j)
  {
  }

  /** The node before index `k` of `c`, after which an insertion at `k` lands. */
  ghost function Before(c: seq<Node>, k: nat): Node?
    requires k <= |c|
  {
    if k > 0 then c[k - 1] else null
  }

  /** The node at index `k` of `c`, before which an insertion at `k` lands. */
  ghost function After(c: seq<Node>, k: nat): Node?
    requires k <= |c|
  {
    if k < |c| then c[k] else null
  }

  /**
   * The member of `c` whose back-link points to a node inserted at index
   * `k`: its successor, or the head when the new node becomes the tail.
   */
  ghost function BackTo(c: seq<Node>, k: nat): Node
    requires 0 < |c| && k <= |c|
  {
    if k < |c| then c[k] else c[0]
  }

  /** The successor in `InsertAt(c, k, x)` of each old element, and of `x`. */
  lemma InsertNext(c: seq<Node>, k: nat, x: Node, j: nat)
    requires k <= |c| && j < |c|
    ensures var j' := if j < k then j else j + 1;
      j' < |InsertAt(c, k, x)| &&
      NextAt(InsertAt(c, k, x), j') == if j + 1 == k then x else NextAt(c, j)
    ensures NextAt(InsertAt(c, k, x), k) == After(c, k)
  {
  }

  /** The back-link in `InsertAt(c, k, x)` of each old element, and of `x`. */
  lemma InsertPrev(c: seq<Node>, k: nat, x: Node, j: nat)
    requires k <= |c| && j < |c|
    ensures var j' := if j < k then j else j + 1;
      j' < |InsertAt(c, k, x)| &&
      PrevAt(InsertAt(c, k, x), j') == if (j == k && k < |c|) || (j == 0 && k == |c|) then x else PrevAt(c, j)
    ensures PrevAt(InsertAt(c, k, x), k) == if k > 0 then c[k - 1] else Last(c)
  {
  }

  lemma RemoveInsertAt(c: seq<Node>, k: nat, x: Node)
    requires k <= |c|
    ensures Remove(InsertAt(c, k, x), k) == c
  {
  }

  lemma InsertAtRemove(c: seq<Node>, p: nat)
    requires p < |c|
    ensures InsertAt(Remove(c, p), p, c[p]) == c
  {
  }

  lemma InsertAtEnds(c: seq<Node>, x: Node)
    ensures InsertAt(c, 0, x) == [x] + c && InsertAt(c, |c|, x) == c + [x]
  {
  }

  ghost predicate Distinct(c: seq<Node>)
  {
    forall i, j | 0 <= i < j < |c| :: c[i] != c[j]
  }

  // ---------------------------------------------------------------------
  // The shape of the forest

  datatype Forest = Forest(
    nodes: set<Node>,
    par: map<Node, Node?>,
    chain: map<Node, seq<Node>>,
    pos: map<Node, nat>,
    kids: map<Node, seq<Node>>,
    level: map<Node, nat>)

  /**
   * Every node sits at its index in its chain; chains are closed and shared
   * by their members, which all have the same parent; a parent's children
   * are the chain of any of them; ranks grow downwards; text nodes have no
   * children.
   */
  ghost predicate Wf(F: Forest)
  {
    Domains(F) && Placed(F) && Closed(F) && Parented(F) && Headed(F) && Leaves(F)
  }

  ghost predicate Domains(F: Forest)
  {
    && F.nodes <= F.par.Keys && F.nodes <= F.chain.Keys && F.nodes <= F.pos.Keys
    && F.nodes <= F.kids.Keys && F.nodes <= F.level.Keys
  }

  /** Every node sits at its index in its chain. */
  ghost predicate Placed(F: Forest)
    requires Domains(F)
  {
    forall x {:trigger F.pos[x]} {:trigger F.chain[x]} | x in F.nodes ::
      F.pos[x] < |F.chain[x]| && F.chain[x][F.pos[x]] == x
  }

  /** A chain is shared by all its members, which have the same parent. */
  ghost predicate Closed(F: Forest)
    requires Domains(F)
  {
    forall x, i {:trigger F.chain[x][i]} | x in F.nodes && 0 <= i < |F.chain[x]| ::
      && F.chain[x][i] in F.nodes
      && F.chain[F.chain[x][i]] == F.chain[x]
      && F.pos[F.chain[x][i]] == i
      && F.par[F.chain[x][i]] == F.par[x]
  }

  /** A parent's children are the chain of any of them, and ranks grow downwards. */
  ghost predicate Parented(F: Forest)
    requires Domains(F)
  {
    forall x {:trigger F.par[x]} | x in F.nodes && F.par[x] != null ::
      && F.par[x] in F.nodes
      && F.kids[F.par[x]] == F.chain[x]
      && F.level[F.par[x]] < F.level[x]
  }

  /** The first of a node's children has it as parent. */
  ghost predicate Headed(F: Forest)
    requires Domains(F)
  {
    forall p {:trigger F.kids[p]} | p in F.nodes && F.kids[p] != [] ::
      F.kids[p][0] in F.nodes && F.par[F.kids[p][0]] == p
  }

  /** Text nodes have no children. */
  ghost predicate Leaves(F: Forest)
    requires Domains(F)
  {
    forall x {:trigger x.kind} | x in F.nodes && x.kind.Text? :: F.kids[x] == []
  }

  /** What `next` must hold: the successor, or null at the tail. */
  ghost function NextIn(F: Forest, x: Node): Node?
    requires Domains(F) && x in F.nodes && F.pos[x] < |F.chain[x]|
  {
    NextAt(F.chain[x], F.pos[x])
  }

  /** What `prev` must hold: the predecessor, or at the head the tail (node.h:61). */
  ghost function PrevIn(F: Forest, x: Node): Node
    requires Domains(F) && x in F.nodes && F.pos[x] < |F.chain[x]|
  {
    PrevAt(F.chain[x], F.pos[x])
  }

  /** What `firstChild` must hold. */
  ghost function FirstIn(F: Forest, x: Node): Node?
    requires Domains(F) && x in F.nodes
  {
    if F.kids[x] == [] then null else F.kids[x][0]
  }

  /** The four links of every node agree with the forest. */
  ghost predicate Links(F: Forest)
    requires Wf(F)
    reads F.nodes`parent, F.nodes`next, F.nodes`prev, F.nodes`firstChild
  {
    ParentLinks(F) && NextLinks(F) && PrevLinks(F) && FirstLinks(F)
  }

  ghost predicate ParentLinks(F: Forest)
    requires Domains(F)
    reads F.nodes`parent
  {
    forall x {:trigger x.parent} | x in F.nodes :: x.parent == F.par[x]
  }

  ghost predicate NextLinks(F: Forest)
    requires Domains(F) && Placed(F)
    reads F.nodes`next
  {
    forall x {:trigger x.next} | x in F.nodes :: x.next == NextIn(F, x)
  }

  ghost predicate PrevLinks(F: Forest)
    requires Domains(F) && Placed(F)
    reads F.nodes`prev
  {
    forall x {:trigger x.prev} | x in F.nodes :: x.prev == PrevIn(F, x)
  }

  ghost predicate FirstLinks(F: Forest)
    requires Domains(F)
    reads F.nodes`firstChild
  {
    forall x {:trigger x.firstChild} | x in F.nodes :: x.firstChild == FirstIn(F, x)
  }

  ghost predicate Valid(F: Forest)
    reads F.nodes`parent, F.nodes`next, F.nodes`prev, F.nodes`firstChild
  {
    Wf(F) && Links(F)
  }

  // ---------------------------------------------------------------------
  // Detaching a node (node.cpp:161-187)

  /** The neighbours of `n` in its chain, and the head when `n` is a tail with a predecessor. */
  ghost function PrevOf(F: Forest, n: Node): Node?
    requires Wf(F) && n in F.nodes
  {
    if F.pos[n] > 0 then F.chain[n][F.pos[n] - 1] else null
  }

  ghost function HeadToFix(F: Forest, n: Node): Node?
    requires Wf(F) && n in F.nodes
  {
    if PrevOf(F, n) != null && NextIn(F, n) == null then F.chain[n][0] else null
  }

  /**
   * The forest after `n` has been cut out of its chain: `n` becomes a
   * parentless singleton keeping its own children, the rest of its chain
   * closes up, and its former parent's children lose it.
   */
  ghost function Detached(F: Forest, n: Node): Forest
    requires Wf(F) && n in F.nodes
  {
    var c, p, P := F.chain[n], F.pos[n], F.par[n];
    var rest := Remove(c, p);
    F.(par := F.par[n := null],
       chain := map x | x in F.chain :: if x == n then [n] else if x in c then rest else F.chain[x],
       pos := map x | x in F.pos :: if x == n then 0 else if x in c && F.pos[x] > p then F.pos[x] - 1 else F.pos[x],
       kids := if P == null then F.kids else F.kids[P := rest])
  }

  lemma DetachWf(F: Forest, n: Node)
    requires Wf(F) && n in F.nodes
    ensures Wf(Detached(F, n))
  {
    DetachPlaced(F, n);
    DetachClosed(F, n);
    DetachParented(F, n);
    DetachHeaded(F, n);
  }

  lemma DetachPlaced(F: Forest, n: Node)
    requires Wf(F) && n in F.nodes
    ensures Domains(Detached(F, n)) && Placed(Detached(F, n))
  {
    var G := Detached(F, n);
    forall x {:trigger G.pos[x]} | x in F.nodes
      ensures G.pos[x] < |G.chain[x]| && G.chain[x][G.pos[x]] == x
    {
      DetachPlacedAt(F, n, x);
    }
  }

  lemma DetachPlacedAt(F: Forest, n: Node, x: Node)
    requires Wf(F) && n in F.nodes && x in F.nodes
    ensures var G := Detached(F, n); G.pos[x] < |G.chain[x]| && G.chain[x][G.pos[x]] == x
  {
    var G := Detached(F, n);
    var c, p := F.chain[n], F.pos[n];
    if x == n {
      assert G.chain[x] == [n] && G.pos[x] == 0;
    } else if x in c {
      ChainMembers(F, n);
      assert F.pos[x] != p;
      assert G.chain[x] == Remove(c, p);
      assert G.pos[x] == if F.pos[x] > p then F.pos[x] - 1 else F.pos[x];
    } else {
      assert G.chain[x] == F.chain[x] && G.pos[x] == F.pos[x];
    }
  }

  lemma DetachClosed(F: Forest, n: Node)
    requires Wf(F) && n in F.nodes
    ensures Domains(Detached(F, n)) && Closed(Detached(F, n))
  {
    var G := Detached(F, n);
    forall x, i {:trigger G.chain[x][i]} | x in F.nodes && 0 <= i < |G.chain[x]|
      ensures G.chain[x][i] in F.nodes && G.chain[G.chain[x][i]] == G.chain[x]
      ensures G.pos[G.chain[x][i]] == i && G.par[G.chain[x][i]] == G.par[x]
    {
      DetachClosedAt(F, n, x, i);
    }
  }

  lemma DetachClosedAt(F: Forest, n: Node, x: Node, i: nat)
    requires Wf(F) && n in F.nodes && x in F.nodes
    requires i < |Detached(F, n).chain[x]|
    ensures var G := Detached(F, n);
      && G.chain[x][i] in F.nodes && G.chain[G.chain[x][i]] == G.chain[x]
      && G.pos[G.chain[x][i]] == i && G.par[G.chain[x][i]] == G.par[x]
  {
    if x != n && x in F.chain[n] {
      DetachClosedSibling(F, n, x, i);
    } else if x != n {
      var d := F.chain[x];
      assert F.chain[d[i]] == d != F.chain[n];
    }
  }

  /** The case of `DetachClosedAt` where `x` is one of the siblings `n` leaves behind. */
  lemma DetachClosedSibling(F: Forest, n: Node, x: Node, i: nat)
    requires Wf(F) && n in F.nodes && x in F.chain[n] && x != n
    requires i < |F.chain[n]| - 1
    ensures var G := Detached(F, n);
      && G.chain[x][i] in F.nodes && G.chain[G.chain[x][i]] == G.chain[x]
      && G.pos[G.chain[x][i]] == i && G.par[G.chain[x][i]] == G.par[x]
  {
    var c, p := F.chain[n], F.pos[n];
    var rest := Remove(c, p);
    ChainMembers(F, n);
    var j := if i < p then i else i + 1;
    var y := c[j];
    assert rest[i] == y && F.pos[y] == j && y != n;
  }

  lemma DetachParented(F: Forest, n: Node)
    requires Wf(F) && n in F.nodes
    ensures Domains(Detached(F, n)) && Parented(Detached(F, n))
  {
    var G := Detached(F, n);
    var c, P := F.chain[n], F.par[n];
    ChainMembers(F, n);
    forall x {:trigger G.par[x]} | x in F.nodes && G.par[x] != null
      ensures G.par[x] in F.nodes && G.kids[G.par[x]] == G.chain[x] && G.level[G.par[x]] < G.level[x]
    {
      if x in c {
        assert F.par[x] == P;
      }
    }
  }

  lemma DetachHeaded(F: Forest, n: Node)
    requires Wf(F) && n in F.nodes
    ensures Domains(Detached(F, n)) && Headed(Detached(F, n)) && Leaves(Detached(F, n))
  {
    var G := Detached(F, n);
    var c, p, P := F.chain[n], F.pos[n], F.par[n];
    var rest := Remove(c, p);
    forall q {:trigger G.kids[q]} | q in F.nodes && G.kids[q] != []
      ensures G.kids[q][0] in F.nodes && G.par[G.kids[q][0]] == q
    {
      if q == P {
        assert rest[0] == (if p == 0 then c[1] else c[0]);
      }
    }
  }

  /** The links written by `Node.Unlink` are those of the detached forest. */
  lemma UnlinkedValid(F: Forest, n: Node, pv: Node?, nx: Node?, head: Node?)
    requires Wf(F) && n in F.nodes
    requires pv == PrevOf(F, n) && nx == NextIn(F, n) && head == HeadToFix(F, n)
    requires n.parent == null && n.next == null && n.prev == n
    requires forall x {:trigger x.parent} | x in F.nodes && x != n :: x.parent == F.par[x]
    requires forall x {:trigger x.next} | x in F.nodes && x != n ::
      x.next == (if x == pv then nx else NextIn(F, x))
    requires forall x {:trigger x.prev} | x in F.nodes && x != n ::
      x.prev == (if x == nx then PrevIn(F, n) else if x == head then pv else PrevIn(F, x))
    requires forall x {:trigger x.firstChild} | x in F.nodes ::
      x.firstChild == (if x == F.par[n] && F.pos[n] == 0 then nx else FirstIn(F, x))
    ensures Valid(Detached(F, n))
  {
    DetachWf(F, n);
    UnlinkedParents(F, n);
    UnlinkedNext(F, n, pv, nx);
    UnlinkedPrev(F, n, pv, nx, head);
    UnlinkedFirst(F, n, nx);
  }

  lemma UnlinkedParents(F: Forest, n: Node)
    requires Wf(F) && n in F.nodes && Wf(Detached(F, n))
    requires n.parent == null
    requires forall x {:trigger x.parent} | x in F.nodes && x != n :: x.parent == F.par[x]
    ensures ParentLinks(Detached(F, n))
  {
  }

  lemma UnlinkedNext(F: Forest, n: Node, pv: Node?, nx: Node?)
    requires Wf(F) && n in F.nodes
    requires pv == PrevOf(F, n) && nx == NextIn(F, n)
    requires n.next == null
    requires forall x {:trigger x.next} | x in F.nodes && x != n ::
      x.next == (if x == pv then nx else NextIn(F, x))
    ensures Wf(Detached(F, n)) && NextLinks(Detached(F, n))
  {
    DetachWf(F, n);
    var G := Detached(F, n);
    forall x | x in G.nodes
      ensures x.next == NextIn(G, x)
    {
      if x == n {
        assert G.chain[n] == [n] && G.pos[n] == 0;
      } else {
        DetachLinksAt(F, n, x);
      }
    }
  }

  lemma UnlinkedPrev(F: Forest, n: Node, pv: Node?, nx: Node?, head: Node?)
    requires Wf(F) && n in F.nodes
    requires pv == PrevOf(F, n) && nx == NextIn(F, n) && head == HeadToFix(F, n)
    requires n.prev == n
    requires forall x {:trigger x.prev} | x in F.nodes && x != n ::
      x.prev == (if x == nx then PrevIn(F, n) else if x == head then pv else PrevIn(F, x))
    ensures Wf(Detached(F, n)) && PrevLinks(Detached(F, n))
  {
    DetachWf(F, n);
    var G := Detached(F, n);
    forall x | x in G.nodes
      ensures x.prev == PrevIn(G, x)
    {
      if x == n {
        assert G.chain[n] == [n] && G.pos[n] == 0;
      } else {
        DetachLinksAt(F, n, x);
      }
    }
  }

  lemma UnlinkedFirst(F: Forest, n: Node, nx: Node?)
    requires Wf(F) && n in F.nodes
    requires nx == NextIn(F, n)
    requires forall x {:trigger x.firstChild} | x in F.nodes ::
      x.firstChild == (if x == F.par[n] && F.pos[n] == 0 then nx else FirstIn(F, x))
    ensures Wf(Detached(F, n)) && FirstLinks(Detached(F, n))
  {
    DetachWf(F, n);
    DetachFirst(F, n);
  }

  lemma DetachFirst(F: Forest, n: Node)
    requires Wf(F) && n in F.nodes
    ensures var G := Detached(F, n);
      forall x {:trigger FirstIn(G, x)} | x in F.nodes ::
        FirstIn(G, x) == (if x == F.par[n] && F.pos[n] == 0 then NextIn(F, n) else FirstIn(F, x))
  {
    var G := Detached(F, n);
    if F.par[n] != null {
      assert F.kids[F.par[n]] == F.chain[n];
    }
  }

  /**
   * How the expected links change: only the neighbours of `n`, the head when
   * `n` was the tail behind a predecessor, and the parent's first child.
   */
  lemma DetachLinksAt(F: Forest, n: Node, x: Node)
    requires Wf(F) && n in F.nodes && x in F.nodes && x != n
    ensures var G := Detached(F, n); Domains(G) && G.pos[x] < |G.chain[x]|
    ensures var G, pv, nx, hd := Detached(F, n), PrevOf(F, n), NextIn(F, n), HeadToFix(F, n);
      && NextIn(G, x) == (if x == pv then nx else NextIn(F, x))
      && PrevIn(G, x) == (if x == nx then PrevIn(F, n) else if x == hd then pv else PrevIn(F, x))
  {
    ChainMembers(F, n);
    if x in F.chain[n] {
      DetachNextInside(F, n, x);
      DetachPrevInside(F, n, x);
    }
  }

  lemma DetachNextInside(F: Forest, n: Node, x: Node)
    requires Wf(F) && n in F.nodes && x in F.nodes && x != n && F.chain[x] == F.chain[n]
    ensures var G := Detached(F, n); Domains(G) && G.pos[x] < |G.chain[x]|
    ensures NextIn(Detached(F, n), x) == if x == PrevOf(F, n) then NextIn(F, n) else NextIn(F, x)
  {
    var c, p, j := F.chain[n], F.pos[n], F.pos[x];
    assert c[j] == x && j != p;
    assert x in c;
    var G := Detached(F, n);
    assert G.chain[x] == Remove(c, p);
    assert G.pos[x] == if j < p then j else j - 1;
    if p > 0 {
      assert (x == c[p - 1]) == (j + 1 == p) by {
        assert F.pos[c[p - 1]] == p - 1;
      }
    }
    RemoveNext(c, p, j);
  }

  lemma DetachPrevInside(F: Forest, n: Node, x: Node)
    requires Wf(F) && n in F.nodes && x in F.nodes && x != n && F.chain[x] == F.chain[n]
    ensures var G := Detached(F, n); Domains(G) && G.pos[x] < |G.chain[x]|
    ensures var G, pv, nx, hd := Detached(F, n), PrevOf(F, n), NextIn(F, n), HeadToFix(F, n);
      PrevIn(G, x) == (if x == nx then PrevIn(F, n) else if x == hd then pv else PrevIn(F, x))
  {
    var c, p, j := F.chain[n], F.pos[n], F.pos[x];
    assert c[j] == x && j != p;
    assert x in c;
    var G := Detached(F, n);
    assert G.chain[x] == Remove(c, p);
    assert G.pos[x] == if j < p then j else j - 1;
    if p + 1 < |c| {
      assert (x == c[p + 1]) == (j == p + 1) by {
        assert F.pos[c[p + 1]] == p + 1;
      }
    }
    assert (x == c[0]) == (j == 0) by {
      assert F.pos[c[0]] == 0;
    }
    RemovePrev(c, p, j);
  }

  /** A tail other than the detached node stays the tail of its chain. */
  lemma TailStaysTail(F: Forest, n: Node, l: Node)
    requires Wf(F) && n in F.nodes && l in F.nodes && l != n && F.pos[l] == |F.chain[l]| - 1
    ensures var D := Detached(F, n); Domains(D) && D.pos[l] + 1 == |D.chain[l]|
  {
    ChainMembers(F, n);
    if l in F.chain[n] {
      assert F.pos[l] != F.pos[n] by {
        assert F.chain[n][F.pos[n]] == n;
      }
    }
  }

  // ---------------------------------------------------------------------
  // Ancestry

  /** `a` is `x` itself or one of its ancestors. */
  ghost predicate Under(F: Forest, a: Node, x: Node)
    requires Wf(F) && x in F.nodes
    decreases F.level[x]
  {
    x == a || (F.par[x] != null && Under(F, a, F.par[x]))
  }

  /** Ranks do not decrease from an ancestor down to its descendants. */
  lemma {:induction false} UnderLevel(F: Forest, a: Node, x: Node)
    requires Wf(F) && a in F.nodes && x in F.nodes && Under(F, a, x)
    ensures F.level[a] <= F.level[x]
    decreases F.level[x]
  {
    if x != a {
      UnderLevel(F, a, F.par[x]);
    }
  }

  /** Detaching `s` gives it no new descendants. */
  lemma {:induction false} UnderDetached(F: Forest, s: Node, x: Node)
    requires Wf(F) && s in F.nodes && x in F.nodes
    ensures Wf(Detached(F, s))
    ensures Under(Detached(F, s), s, x) ==> Under(F, s, x)
    decreases F.level[x]
  {
    DetachWf(F, s);
    var G := Detached(F, s);
    if x != s && G.par[x] != null && Under(G, s, G.par[x]) {
      UnderDetached(F, s, G.par[x]);
    }
  }

  /** Once detached, a node that is not an ancestor of `a` may go anywhere in `a`'s chain. */
  lemma DetachedCanInsert(F: Forest, s: Node, a: Node)
    requires Wf(F) && s in F.nodes && a in F.nodes && !Under(F, s, a)
    ensures var D := Detached(F, s);
      Wf(D) && a in D.nodes && D.pos[a] < |D.chain[a]|
      && CanInsert(D, a, s, D.pos[a]) && CanInsert(D, a, s, D.pos[a] + 1)
  {
    UnderDetached(F, s, a);
    var D := Detached(F, s);
    assert D.par[s] == null && D.chain[s] == [s];
  }

  // ---------------------------------------------------------------------
  // Inserting a standalone node into a chain (node.cpp:46-92)

  /** `s` is a parentless singleton that may go at index `k` of `a`'s chain without forming a cycle. */
  ghost predicate CanInsert(F: Forest, a: Node, s: Node, k: nat)
  {
    && Wf(F) && a in F.nodes && s in F.nodes
    && F.par[s] == null && F.chain[s] == [s]
    && !Under(F, s, a) && k <= |F.chain[a]|
  }

  /**
   * The forest after the standalone `s` has been put at index `k` of `a`'s
   * chain: it joins the chain and takes the chain's parent, and its subtree
   * is re-ranked below that parent.
   */
  ghost function Inserted(F: Forest, a: Node, s: Node, k: nat): Forest
    requires CanInsert(F, a, s, k)
  {
    var c, P := F.chain[a], F.par[a];
    var c' := InsertAt(c, k, s);
    var lift := if P == null then 0 else F.level[P] + 1;
    F.(par := F.par[s := P],
       chain := map x | x in F.chain :: if x == s || x in c then c' else F.chain[x],
       pos := map x | x in F.pos :: if x == s then k else if x in c && F.pos[x] >= k then F.pos[x] + 1 else F.pos[x],
       kids := if P == null then F.kids else F.kids[P := c'],
       level := map x | x in F.level :: if x in F.nodes && Under(F, s, x) then F.level[x] + lift else F.level[x])
  }

  /** `s` is none of `a`'s chain and not its parent. */
  lemma InsertApart(F: Forest, a: Node, s: Node, k: nat)
    requires CanInsert(F, a, s, k)
    ensures s !in F.chain[a] && s != a && F.par[a] != s
    ensures F.par[a] != null ==> F.par[a] in F.nodes && !Under(F, s, F.par[a])
  {
    assert Under(F, s, s);
  }

  lemma InsertWf(F: Forest, a: Node, s: Node, k: nat)
    requires CanInsert(F, a, s, k)
    ensures Wf(Inserted(F, a, s, k))
  {
    InsertPlaced(F, a, s, k);
    InsertClosed(F, a, s, k);
    InsertParented(F, a, s, k);
    InsertHeaded(F, a, s, k);
    InsertLeaves(F, a, s, k);
  }

  lemma InsertPlaced(F: Forest, a: Node, s: Node, k: nat)
    requires CanInsert(F, a, s, k)
    ensures Domains(Inserted(F, a, s, k)) && Placed(Inserted(F, a, s, k))
  {
    var G := Inserted(F, a, s, k);
    InsertApart(F, a, s, k);
    ChainMembers(F, a);
    forall x {:trigger G.pos[x]} | x in F.nodes
      ensures G.pos[x] < |G.chain[x]| && G.chain[x][G.pos[x]] == x
    {
      if x != s && x in F.chain[a] {
        var j := F.pos[x];
        assert G.chain[x] == InsertAt(F.chain[a], k, s) && G.pos[x] == (if j < k then j else j + 1);
      }
    }
  }

  lemma InsertClosed(F: Forest, a: Node, s: Node, k: nat)
    requires CanInsert(F, a, s, k)
    ensures Domains(Inserted(F, a, s, k)) && Closed(Inserted(F, a, s, k))
  {
    var G := Inserted(F, a, s, k);
    forall x, i {:trigger G.chain[x][i]} | x in F.nodes && 0 <= i < |G.chain[x]|
      ensures G.chain[x][i] in F.nodes && G.chain[G.chain[x][i]] == G.chain[x]
      ensures G.pos[G.chain[x][i]] == i && G.par[G.chain[x][i]] == G.par[x]
    {
      InsertClosedAt(F, a, s, k, x, i);
    }
  }

  lemma InsertClosedAt(F: Forest, a: Node, s: Node, k: nat, x: Node, i: nat)
    requires CanInsert(F, a, s, k) && x in F.nodes
    requires i < |Inserted(F, a, s, k).chain[x]|
    ensures var G := Inserted(F, a, s, k);
      && G.chain[x][i] in F.nodes && G.chain[G.chain[x][i]] == G.chain[x]
      && G.pos[G.chain[x][i]] == i && G.par[G.chain[x][i]] == G.par[x]
  {
    InsertApart(F, a, s, k);
    ChainMembers(F, a);
    if x == s || x in F.chain[a] {
      InsertClosedJoined(F, a, s, k, x, i);
    } else {
      InsertClosedOther(F, a, s, k, x, i);
    }
  }

  /** Closure of the chain that `s` joins. */
  lemma InsertClosedJoined(F: Forest, a: Node, s: Node, k: nat, x: Node, i: nat)
    requires CanInsert(F, a, s, k) && x in F.nodes && (x == s || x in F.chain[a])
    requires i <= |F.chain[a]|
    ensures var G := Inserted(F, a, s, k);
      && G.chain[x] == InsertAt(F.chain[a], k, s) && G.par[x] == F.par[a]
      && G.chain[x][i] in F.nodes && G.chain[G.chain[x][i]] == G.chain[x]
      && G.pos[G.chain[x][i]] == i && G.par[G.chain[x][i]] == F.par[a]
  {
    var c := F.chain[a];
    InsertApart(F, a, s, k);
    ChainMembers(F, a);
    if x != s {
      assert c[F.pos[x]] == x;
    }
    if i != k {
      InsertClosedShifted(F, a, s, k, i);
    }
  }

  /** An old member of the chain that `s` joins keeps its place relative to the others. */
  lemma InsertClosedShifted(F: Forest, a: Node, s: Node, k: nat, i: nat)
    requires CanInsert(F, a, s, k) && i <= |F.chain[a]| && i != k
    ensures var G, c' := Inserted(F, a, s, k), InsertAt(F.chain[a], k, s);
      && c'[i] in F.nodes && G.chain[c'[i]] == c'
      && G.pos[c'[i]] == i && G.par[c'[i]] == F.par[a]
  {
    var c := F.chain[a];
    InsertApart(F, a, s, k);
    var j := if i < k then i else i - 1;
    var y := c[j];
    assert InsertAt(c, k, s)[i] == y && F.pos[y] == j && F.chain[y] == c && y in c;
  }

  /** Chains other than the one `s` joins are unchanged. */
  lemma InsertClosedOther(F: Forest, a: Node, s: Node, k: nat, x: Node, i: nat)
    requires CanInsert(F, a, s, k) && x in F.nodes && x != s && x !in F.chain[a]
    requires i < |F.chain[x]|
    ensures var G := Inserted(F, a, s, k);
      && G.chain[x] == F.chain[x] && G.par[x] == F.par[x]
      && G.chain[x][i] in F.nodes && G.chain[G.chain[x][i]] == G.chain[x]
      && G.pos[G.chain[x][i]] == i && G.par[G.chain[x][i]] == G.par[x]
  {
    var c, d := F.chain[a], F.chain[x];
    InsertApart(F, a, s, k);
    ChainMembers(F, a);
    var y := d[i];
    assert F.chain[y] == d != c;
    assert y != s by {
      assert d[F.pos[x]] == x;
    }
  }

  lemma InsertParented(F: Forest, a: Node, s: Node, k: nat)
    requires CanInsert(F, a, s, k)
    ensures Domains(Inserted(F, a, s, k)) && Parented(Inserted(F, a, s, k))
  {
    var G := Inserted(F, a, s, k);
    var c, P := F.chain[a], F.par[a];
    InsertApart(F, a, s, k);
    ChainMembers(F, a);
    forall x {:trigger G.par[x]} | x in F.nodes && G.par[x] != null
      ensures G.par[x] in F.nodes && G.kids[G.par[x]] == G.chain[x] && G.level[G.par[x]] < G.level[x]
    {
      if x != s {
        var y := F.par[x];
        assert Under(F, s, y) ==> Under(F, s, x);
        assert y == P ==> x in c;
        assert x in c ==> F.par[x] == P by {
          if x in c {
            assert c[F.pos[x]] == x;
          }
        }
      }
    }
  }

  lemma InsertHeaded(F: Forest, a: Node, s: Node, k: nat)
    requires CanInsert(F, a, s, k)
    ensures Domains(Inserted(F, a, s, k)) && Headed(Inserted(F, a, s, k))
  {
    var G := Inserted(F, a, s, k);
    var c, P := F.chain[a], F.par[a];
    InsertApart(F, a, s, k);
    forall q {:trigger G.kids[q]} | q in F.nodes && G.kids[q] != []
      ensures G.kids[q][0] in F.nodes && G.par[G.kids[q][0]] == q
    {
      if q == P {
        assert c[0] in c && F.chain[c[0]] == c;
      }
    }
  }

  lemma InsertLeaves(F: Forest, a: Node, s: Node, k: nat)
    requires CanInsert(F, a, s, k)
    ensures Domains(Inserted(F, a, s, k)) && Leaves(Inserted(F, a, s, k))
  {
    var P := F.par[a];
    if P != null {
      assert F.kids[P] == F.chain[a] != [];
    }
  }

  /** The links written by `Node.LinkAfter` and `Node.LinkBefore` are those of the forest after the insertion. */
  lemma SplicedValid(F: Forest, a: Node, s: Node, k: nat)
    requires CanInsert(F, a, s, k)
    requires s.parent == F.par[a] && s.next == After(F.chain[a], k)
    requires s.prev == if k > 0 then F.chain[a][k - 1] else Last(F.chain[a])
    requires forall x {:trigger x.parent} | x in F.nodes && x != s :: x.parent == F.par[x]
    requires forall x {:trigger x.next} | x in F.nodes && x != s ::
      x.next == (if x == Before(F.chain[a], k) then s else NextIn(F, x))
    requires forall x {:trigger x.prev} | x in F.nodes && x != s ::
      x.prev == (if x == BackTo(F.chain[a], k) then s else PrevIn(F, x))
    requires forall x {:trigger x.firstChild} | x in F.nodes ::
      x.firstChild == (if x == F.par[a] && k == 0 then s else FirstIn(F, x))
    ensures Valid(Inserted(F, a, s, k))
  {
    InsertWf(F, a, s, k);
    SplicedParents(F, a, s, k);
    SplicedNext(F, a, s, k);
    SplicedPrev(F, a, s, k);
    SplicedFirst(F, a, s, k);
  }

  lemma SplicedParents(F: Forest, a: Node, s: Node, k: nat)
    requires CanInsert(F, a, s, k) && Wf(Inserted(F, a, s, k))
    requires s.parent == F.par[a]
    requires forall x {:trigger x.parent} | x in F.nodes && x != s :: x.parent == F.par[x]
    ensures ParentLinks(Inserted(F, a, s, k))
  {
  }

  lemma SplicedNext(F: Forest, a: Node, s: Node, k: nat)
    requires CanInsert(F, a, s, k) && Wf(Inserted(F, a, s, k))
    requires s.next == After(F.chain[a], k)
    requires forall x {:trigger x.next} | x in F.nodes && x != s ::
      x.next == (if x == Before(F.chain[a], k) then s else NextIn(F, x))
    ensures NextLinks(Inserted(F, a, s, k))
  {
    var G := Inserted(F, a, s, k);
    forall x | x in F.nodes
      ensures x.next == NextIn(G, x)
    {
      if x == s {
        InsertSelf(F, a, s, k);
      } else {
        InsertLinksAt(F, a, s, k, x);
      }
    }
  }

  lemma SplicedPrev(F: Forest, a: Node, s: Node, k: nat)
    requires CanInsert(F, a, s, k) && Wf(Inserted(F, a, s, k))
    requires s.prev == if k > 0 then F.chain[a][k - 1] else Last(F.chain[a])
    requires forall x {:trigger x.prev} | x in F.nodes && x != s ::
      x.prev == (if x == BackTo(F.chain[a], k) then s else PrevIn(F, x))
    ensures PrevLinks(Inserted(F, a, s, k))
  {
    var G := Inserted(F, a, s, k);
    forall x | x in F.nodes
      ensures x.prev == PrevIn(G, x)
    {
      if x == s {
        InsertSelf(F, a, s, k);
      } else {
        InsertLinksAt(F, a, s, k, x);
      }
    }
  }

  lemma SplicedFirst(F: Forest, a: Node, s: Node, k: nat)
    requires CanInsert(F, a, s, k) && Wf(Inserted(F, a, s, k))
    requires forall x {:trigger x.firstChild} | x in F.nodes ::
      x.firstChild == (if x == F.par[a] && k == 0 then s else FirstIn(F, x))
    ensures FirstLinks(Inserted(F, a, s, k))
  {
    InsertFirst(F, a, s, k);
  }

  lemma InsertSelf(F: Forest, a: Node, s: Node, k: nat)
    requires CanInsert(F, a, s, k)
    ensures var G := Inserted(F, a, s, k); Domains(G) && G.pos[s] < |G.chain[s]|
    ensures var G, c := Inserted(F, a, s, k), F.chain[a];
      && G.par[s] == F.par[a] && NextIn(G, s) == After(c, k)
      && PrevIn(G, s) == (if k > 0 then c[k - 1] else Last(c))
  {
    var G, c := Inserted(F, a, s, k), F.chain[a];
    assert G.chain[s] == InsertAt(c, k, s) && G.pos[s] == k;
    InsertNext(c, k, s, F.pos[a]);
    InsertPrev(c, k, s, F.pos[a]);
  }

  lemma InsertFirst(F: Forest, a: Node, s: Node, k: nat)
    requires CanInsert(F, a, s, k)
    ensures var G := Inserted(F, a, s, k);
      forall x {:trigger FirstIn(G, x)} | x in F.nodes ::
        FirstIn(G, x) == (if x == F.par[a] && k == 0 then s else FirstIn(F, x))
  {
    InsertApart(F, a, s, k);
    if F.par[a] != null {
      assert F.kids[F.par[a]] == F.chain[a];
    }
  }

  lemma InsertLinksAt(F: Forest, a: Node, s: Node, k: nat, x: Node)
    requires CanInsert(F, a, s, k) && x in F.nodes && x != s
    ensures var G := Inserted(F, a, s, k); Domains(G) && G.pos[x] < |G.chain[x]|
    ensures var G, c := Inserted(F, a, s, k), F.chain[a];
      && NextIn(G, x) == (if x == Before(c, k) then s else NextIn(F, x))
      && PrevIn(G, x) == (if x == BackTo(c, k) then s else PrevIn(F, x))
  {
    InsertApart(F, a, s, k);
    ChainMembers(F, a);
    if x in F.chain[a] {
      InsertNextInside(F, a, s, k, x);
      InsertPrevInside(F, a, s, k, x);
    }
  }

  lemma InsertNextInside(F: Forest, a: Node, s: Node, k: nat, x: Node)
    requires CanInsert(F, a, s, k) && x in F.nodes && x != s && F.chain[x] == F.chain[a]
    ensures var G := Inserted(F, a, s, k); Domains(G) && G.pos[x] < |G.chain[x]|
    ensures NextIn(Inserted(F, a, s, k), x) == if x == Before(F.chain[a], k) then s else NextIn(F, x)
  {
    var c, j := F.chain[a], F.pos[x];
    InsertApart(F, a, s, k);
    assert c[j] == x && x in c;
    var G := Inserted(F, a, s, k);
    assert G.chain[x] == InsertAt(c, k, s);
    assert G.pos[x] == if j < k then j else j + 1;
    if k > 0 {
      assert (x == c[k - 1]) == (j + 1 == k) by {
        assert F.pos[c[k - 1]] == k - 1;
      }
    }
    InsertNext(c, k, s, j);
  }

  lemma InsertPrevInside(F: Forest, a: Node, s: Node, k: nat, x: Node)
    requires CanInsert(F, a, s, k) && x in F.nodes && x != s && F.chain[x] == F.chain[a]
    ensures var G := Inserted(F, a, s, k); Domains(G) && G.pos[x] < |G.chain[x]|
    ensures PrevIn(Inserted(F, a, s, k), x) == if x == BackTo(F.chain[a], k) then s else PrevIn(F, x)
  {
    var c, j := F.chain[a], F.pos[x];
    InsertApart(F, a, s, k);
    assert c[j] == x && x in c;
    var G := Inserted(F, a, s, k);
    assert G.chain[x] == InsertAt(c, k, s);
    assert G.pos[x] == if j < k then j else j + 1;
    if k < |c| {
      assert (x == c[k]) == (j == k) by {
        assert F.pos[c[k]] == k;
      }
    } else {
      assert (x == c[0]) == (j == 0) by {
        assert F.pos[c[0]] == 0;
      }
    }
    InsertPrev(c, k, s, j);
  }

  // ---------------------------------------------------------------------
  // Making a standalone node the only child of a childless element
  // (html_node.cpp:50-51, 64-65)

  /** `s` is a parentless singleton that may become a child of the element `p` without forming a cycle. */
  ghost predicate CanAttach(F: Forest, p: Node, s: Node)
  {
    && Wf(F) && p in F.nodes && s in F.nodes && !p.kind.Text?
    && F.par[s] == null && F.chain[s] == [s] && !Under(F, s, p)
  }

  ghost predicate CanAdopt(F: Forest, p: Node, s: Node)
  {
    CanAttach(F, p, s) && F.kids[p] == []
  }

  /** The forest after the standalone `s` has become the only child of `p`. */
  ghost function Adopted(F: Forest, p: Node, s: Node): Forest
    requires CanAdopt(F, p, s)
  {
    F.(par := F.par[s := p],
       kids := F.kids[p := [s]],
       level := map x | x in F.level :: if x in F.nodes && Under(F, s, x) then F.level[x] + F.level[p] + 1 else F.level[x])
  }

  lemma AdoptWf(F: Forest, p: Node, s: Node)
    requires CanAdopt(F, p, s)
    ensures Wf(Adopted(F, p, s))
  {
    AdoptClosed(F, p, s);
    AdoptParented(F, p, s);
    AdoptHeaded(F, p, s);
  }

  lemma AdoptClosed(F: Forest, p: Node, s: Node)
    requires CanAdopt(F, p, s)
    ensures Domains(Adopted(F, p, s)) && Closed(Adopted(F, p, s))
  {
    var G := Adopted(F, p, s);
    forall x, i {:trigger G.chain[x][i]} | x in F.nodes && 0 <= i < |G.chain[x]|
      ensures G.chain[x][i] in F.nodes && G.chain[G.chain[x][i]] == G.chain[x]
      ensures G.pos[G.chain[x][i]] == i && G.par[G.chain[x][i]] == G.par[x]
    {
      var y := F.chain[x][i];
      if y == s {
        assert F.chain[x] == [s] && x == F.chain[x][F.pos[x]];
      }
    }
  }

  lemma AdoptParented(F: Forest, p: Node, s: Node)
    requires CanAdopt(F, p, s)
    ensures Domains(Adopted(F, p, s)) && Parented(Adopted(F, p, s))
  {
    var G := Adopted(F, p, s);
    assert Under(F, s, s);
    forall x {:trigger G.par[x]} | x in F.nodes && G.par[x] != null
      ensures G.par[x] in F.nodes && G.kids[G.par[x]] == G.chain[x] && G.level[G.par[x]] < G.level[x]
    {
      if x != s {
        var y := F.par[x];
        assert Under(F, s, y) ==> Under(F, s, x);
        assert y != p by {
          assert F.kids[y] == F.chain[x] && F.chain[x][F.pos[x]] == x;
        }
      }
    }
  }

  lemma AdoptHeaded(F: Forest, p: Node, s: Node)
    requires CanAdopt(F, p, s)
    ensures Domains(Adopted(F, p, s)) && Headed(Adopted(F, p, s)) && Leaves(Adopted(F, p, s))
  {
  }

  /** The links written for a first child are those of the adopting forest. */
  lemma AdoptedValid(F: Forest, p: Node, s: Node)
    requires CanAdopt(F, p, s)
    requires s.parent == p && p.firstChild == s
    requires forall x {:trigger x.parent} | x in F.nodes && x != s :: x.parent == F.par[x]
    requires forall x {:trigger x.next} | x in F.nodes :: x.next == NextIn(F, x)
    requires forall x {:trigger x.prev} | x in F.nodes :: x.prev == PrevIn(F, x)
    requires forall x {:trigger x.firstChild} | x in F.nodes && x != p :: x.firstChild == FirstIn(F, x)
    ensures Valid(Adopted(F, p, s))
  {
    AdoptWf(F, p, s);
  }


  /** The children of `p` may take `s` at either end. */
  lemma AttachAnchors(F: Forest, p: Node, s: Node)
    requires CanAttach(F, p, s) && F.kids[p] != []
    ensures var c := F.kids[p];
      && F.chain[c[0]] == c && F.chain[Last(c)] == c && F.pos[c[0]] == 0
      && F.par[c[0]] == p && F.par[Last(c)] == p && F.pos[Last(c)] == |c| - 1
      && CanInsert(F, c[0], s, 0) && CanInsert(F, Last(c), s, |c|)
  {
    var c := F.kids[p];
    assert c[0] in F.nodes && F.par[c[0]] == p;
    assert F.chain[c[0]] == c;
    assert Last(c) in F.nodes && F.chain[Last(c)] == c;
    assert F.pos[F.chain[c[0]][|c| - 1]] == |c| - 1;
    assert F.par[Last(c)] == p;
    assert c[0] != s && Last(c) != s;
  }

  /** The forest after the standalone `s` has been added after the children of `p` (html_node.cpp:45-57). */
  ghost function Appended(F: Forest, p: Node, s: Node): Forest
    requires CanAttach(F, p, s)
  {
    var c := F.kids[p];
    if c == [] then Adopted(F, p, s)
    else AttachAnchors(F, p, s); Inserted(F, Last(c), s, |c|)
  }

  /** The forest after the standalone `s` has been added before the children of `p` (html_node.cpp:58-70). */
  ghost function Prepended(F: Forest, p: Node, s: Node): Forest
    requires CanAttach(F, p, s)
  {
    var c := F.kids[p];
    if c == [] then Adopted(F, p, s)
    else AttachAnchors(F, p, s); Inserted(F, c[0], s, 0)
  }

  /** Appending makes `s` the last child of `p`, after the old children in their order. */
  lemma AppendedKids(F: Forest, p: Node, s: Node)
    requires CanAttach(F, p, s)
    ensures var G := Appended(F, p, s);
      Wf(G) && G.nodes == F.nodes && G.kids[p] == F.kids[p] + [s] && G.par[s] == p
  {
    if F.kids[p] == [] {
      AdoptedKids(F, p, s);
    } else {
      AppendedAfterLast(F, p, s);
    }
  }

  lemma AppendedAfterLast(F: Forest, p: Node, s: Node)
    requires CanAttach(F, p, s) && F.kids[p] != []
    ensures var c := F.kids[p]; CanInsert(F, Last(c), s, |c|) && Appended(F, p, s) == Inserted(F, Last(c), s, |c|)
    ensures var G := Appended(F, p, s);
      Wf(G) && G.nodes == F.nodes && G.kids[p] == F.kids[p] + [s] && G.par[s] == p
  {
    var c := F.kids[p];
    AttachAnchors(F, p, s);
    InsertedKids(F, Last(c), s, |c|);
    InsertAtEnds(c, s);
  }

  /** Prepending makes `s` the first child of `p`, before the old children in their order. */
  lemma PrependedKids(F: Forest, p: Node, s: Node)
    requires CanAttach(F, p, s)
    ensures var G := Prepended(F, p, s);
      Wf(G) && G.nodes == F.nodes && G.kids[p] == [s] + F.kids[p] && G.par[s] == p
  {
    if F.kids[p] == [] {
      AdoptedKids(F, p, s);
    } else {
      PrependedBeforeFirst(F, p, s);
    }
  }

  lemma PrependedBeforeFirst(F: Forest, p: Node, s: Node)
    requires CanAttach(F, p, s) && F.kids[p] != []
    ensures var c := F.kids[p]; CanInsert(F, c[0], s, 0) && Prepended(F, p, s) == Inserted(F, c[0], s, 0)
    ensures var G := Prepended(F, p, s);
      Wf(G) && G.nodes == F.nodes && G.kids[p] == [s] + F.kids[p] && G.par[s] == p
  {
    var c := F.kids[p];
    AttachAnchors(F, p, s);
    InsertedKids(F, c[0], s, 0);
    InsertAtEnds(c, s);
  }

  /** Attaching `s` below `p` changes the children of no other node. */
  lemma AttachedOthers(F: Forest, p: Node, s: Node)
    requires CanAttach(F, p, s)
    ensures forall x {:trigger Appended(F, p, s).kids[x]} | x in F.nodes && x != p ::
      Appended(F, p, s).kids[x] == F.kids[x]
    ensures forall x {:trigger Prepended(F, p, s).kids[x]} | x in F.nodes && x != p ::
      Prepended(F, p, s).kids[x] == F.kids[x]
  {
    if F.kids[p] != [] {
      AttachAnchors(F, p, s);
    }
  }

  /** Attaching `s` below `p` leaves `p` itself where it was. */
  lemma AttachedKeeps(F: Forest, p: Node, s: Node)
    requires CanAttach(F, p, s)
    ensures var G := Appended(F, p, s); G.par[p] == F.par[p] && G.chain[p] == F.chain[p] && G.pos[p] == F.pos[p]
    ensures var G := Prepended(F, p, s); G.par[p] == F.par[p] && G.chain[p] == F.chain[p] && G.pos[p] == F.pos[p]
  {
    assert p != s by {
      assert Under(F, s, s);
    }
    if F.kids[p] != [] {
      var c := F.kids[p];
      AttachAnchors(F, p, s);
      forall i | 0 <= i < |c|
        ensures c[i] != p
      {
        assert F.par[F.chain[c[0]][i]] == p;
      }
    }
  }

  /** Detaching takes `n` out of its parent's children and changes no other node's children. */
  lemma DetachedKids(F: Forest, n: Node)
    requires Wf(F) && n in F.nodes
    ensures var D := Detached(F, n);
      && (F.par[n] != null ==> D.kids[F.par[n]] == Remove(F.kids[F.par[n]], F.pos[n]))
      && forall x {:trigger D.kids[x]} | x in F.nodes && x != F.par[n] :: D.kids[x] == F.kids[x]
  {
  }

  lemma AdoptedKids(F: Forest, p: Node, s: Node)
    requires CanAdopt(F, p, s)
    ensures var G := Adopted(F, p, s);
      Wf(G) && G.nodes == F.nodes && G.par[s] == p && G.kids[p] == [s]
  {
    AdoptWf(F, p, s);
  }

  lemma InsertedKids(F: Forest, a: Node, s: Node, k: nat)
    requires CanInsert(F, a, s, k) && F.par[a] != null
    ensures var G := Inserted(F, a, s, k);
      Wf(G) && G.nodes == F.nodes && G.par[s] == F.par[a] && G.kids[F.par[a]] == InsertAt(F.chain[a], k, s)
  {
    InsertWf(F, a, s, k);
  }

  /** Once detached, a node that is not an ancestor of the element `p` may become its child. */
  lemma DetachedCanAttach(F: Forest, s: Node, p: Node)
    requires Wf(F) && s in F.nodes && p in F.nodes && !p.kind.Text? && !Under(F, s, p)
    ensures CanAttach(Detached(F, s), p, s)
  {
    UnderDetached(F, s, p);
    var D := Detached(F, s);
    assert D.par[s] == null && D.chain[s] == [s];
  }

  // ---------------------------------------------------------------------
  // Standalone nodes and round trips

  /** Two forests that agree on everything but the ranks. */
  ghost predicate SameShape(F: Forest, G: Forest)
    requires Domains(F) && Domains(G)
  {
    && F.nodes == G.nodes
    && forall x {:trigger G.par[x]} {:trigger G.chain[x]} {:trigger G.pos[x]} {:trigger G.kids[x]} | x in F.nodes ::
      && G.par[x] == F.par[x] && G.chain[x] == F.chain[x]
      && G.pos[x] == F.pos[x] && G.kids[x] == F.kids[x]
  }

  /** `F` with the fresh node `n` added as a parentless childless singleton. */
  ghost function Adjoin(F: Forest, n: Node): Forest
  {
    Forest(F.nodes + {n}, F.par[n := null], F.chain[n := [n]], F.pos[n := 0], F.kids[n := []], F.level[n := 0])
  }

  /** A fresh node may join a valid forest (node.h:59-63). */
  lemma AdjoinValid(F: Forest, n: Node)
    requires Valid(F) && n !in F.nodes
    requires n.parent == null && n.next == null && n.prev == n && n.firstChild == null
    ensures Valid(Adjoin(F, n)) && n in Adjoin(F, n).nodes
    ensures Adjoin(F, n).par[n] == null && Adjoin(F, n).chain[n] == [n] && Adjoin(F, n).kids[n] == []
  {
    AdjoinWf(F, n);
    var G := Adjoin(F, n);
    forall x | x in G.nodes
      ensures x.next == NextIn(G, x) && x.prev == PrevIn(G, x)
    {
      if x == n {
        assert G.chain[n] == [n] && G.pos[n] == 0;
      } else {
        assert G.chain[x] == F.chain[x] && G.pos[x] == F.pos[x];
      }
    }
  }

  lemma AdjoinWf(F: Forest, n: Node)
    requires Wf(F) && n !in F.nodes
    ensures Wf(Adjoin(F, n))
  {
    AdjoinPlaced(F, n);
    AdjoinClosed(F, n);
    AdjoinParented(F, n);
    AdjoinHeaded(F, n);
  }

  lemma AdjoinPlaced(F: Forest, n: Node)
    requires Wf(F) && n !in F.nodes
    ensures Domains(Adjoin(F, n)) && Placed(Adjoin(F, n))
  {
  }

  lemma AdjoinParented(F: Forest, n: Node)
    requires Wf(F) && n !in F.nodes
    ensures Domains(Adjoin(F, n)) && Parented(Adjoin(F, n)) && Leaves(Adjoin(F, n))
  {
    var G := Adjoin(F, n);
    forall x {:trigger G.par[x]} | x in G.nodes && G.par[x] != null
      ensures G.par[x] in G.nodes && G.kids[G.par[x]] == G.chain[x] && G.level[G.par[x]] < G.level[x]
    {
      assert x != n && F.par[x] in F.nodes;
    }
  }

  lemma AdjoinClosed(F: Forest, n: Node)
    requires Wf(F) && n !in F.nodes
    ensures Domains(Adjoin(F, n)) && Closed(Adjoin(F, n))
  {
    var G := Adjoin(F, n);
    forall x, i {:trigger G.chain[x][i]} | x in G.nodes && 0 <= i < |G.chain[x]|
      ensures G.chain[x][i] in G.nodes && G.chain[G.chain[x][i]] == G.chain[x]
      ensures G.pos[G.chain[x][i]] == i && G.par[G.chain[x][i]] == G.par[x]
    {
      if x != n {
        assert F.chain[x][i] in F.nodes;
      }
    }
  }

  lemma AdjoinHeaded(F: Forest, n: Node)
    requires Wf(F) && n !in F.nodes
    ensures Domains(Adjoin(F, n)) && Headed(Adjoin(F, n))
  {
    var G := Adjoin(F, n);
    forall p {:trigger G.kids[p]} | p in G.nodes && G.kids[p] != []
      ensures G.kids[p][0] in G.nodes && G.par[G.kids[p][0]] == p
    {
      assert F.kids[p][0] in F.nodes;
    }
  }

  /** `G` has all nodes of `F`, placed as in `F`. */
  ghost predicate Extends(G: Forest, F: Forest)
    requires Domains(F) && Domains(G)
  {
    && F.nodes <= G.nodes
    && forall x {:trigger G.par[x]} {:trigger G.chain[x]} {:trigger G.pos[x]} {:trigger G.kids[x]} | x in F.nodes ::
      && G.par[x] == F.par[x] && G.chain[x] == F.chain[x]
      && G.pos[x] == F.pos[x] && G.kids[x] == F.kids[x]
  }

  /** The forest with no nodes. */
  ghost const Empty: Forest := Forest({}, map[], map[], map[], map[], map[])

  /** The union of two forests. */
  ghost function Merge(F: Forest, E: Forest): Forest
    requires Domains(F) && Domains(E)
  {
    var N := F.nodes + E.nodes;
    Forest(N,
      map x | x in N :: if x in E.nodes then E.par[x] else F.par[x],
      map x | x in N :: if x in E.nodes then E.chain[x] else F.chain[x],
      map x | x in N :: if x in E.nodes then E.pos[x] else F.pos[x],
      map x | x in N :: if x in E.nodes then E.kids[x] else F.kids[x],
      map x | x in N :: if x in E.nodes then E.level[x] else F.level[x])
  }

  /** Two valid forests on disjoint nodes make one, which extends both. */
  lemma MergeValid(F: Forest, E: Forest)
    requires Valid(F) && Valid(E) && F.nodes !! E.nodes
    ensures Valid(Merge(F, E)) && Merge(F, E).nodes == F.nodes + E.nodes
    ensures Extends(Merge(F, E), F) && Extends(Merge(F, E), E)
  {
    MergeWf(F, E);
    MergeExtends(F, E);
    MergeParents(F, E);
    MergeFirsts(F, E);
    MergeSiblings(F, E);
  }

  lemma MergeExtends(F: Forest, E: Forest)
    requires Domains(F) && Domains(E) && F.nodes !! E.nodes
    ensures Extends(Merge(F, E), F) && Extends(Merge(F, E), E)
  {
  }

  lemma MergeParents(F: Forest, E: Forest)
    requires Domains(F) && Domains(E) && F.nodes !! E.nodes
    requires ParentLinks(F) && ParentLinks(E)
    ensures Domains(Merge(F, E)) && ParentLinks(Merge(F, E))
  {
  }

  lemma MergeFirsts(F: Forest, E: Forest)
    requires Domains(F) && Domains(E) && F.nodes !! E.nodes
    requires FirstLinks(F) && FirstLinks(E)
    ensures Domains(Merge(F, E)) && FirstLinks(Merge(F, E))
  {
    var G := Merge(F, E);
    forall x | x in G.nodes
      ensures x.firstChild == FirstIn(G, x)
    {
      if x in E.nodes {
        assert G.kids[x] == E.kids[x];
      } else {
        assert G.kids[x] == F.kids[x];
      }
    }
  }

  lemma MergeSiblings(F: Forest, E: Forest)
    requires Wf(F) && Wf(E) && F.nodes !! E.nodes && Wf(Merge(F, E))
    requires NextLinks(F) && NextLinks(E) && PrevLinks(F) && PrevLinks(E)
    ensures NextLinks(Merge(F, E)) && PrevLinks(Merge(F, E))
  {
    var G := Merge(F, E);
    forall x | x in G.nodes
      ensures x.next == NextIn(G, x) && x.prev == PrevIn(G, x)
    {
      if x in E.nodes {
        assert G.chain[x] == E.chain[x] && G.pos[x] == E.pos[x];
      } else {
        assert G.chain[x] == F.chain[x] && G.pos[x] == F.pos[x];
      }
    }
  }

  lemma MergeWf(F: Forest, E: Forest)
    requires Wf(F) && Wf(E) && F.nodes !! E.nodes
    ensures Wf(Merge(F, E))
  {
    MergeClosed(F, E);
    MergeParented(F, E);
    MergeHeaded(F, E);
  }

  lemma MergeClosed(F: Forest, E: Forest)
    requires Wf(F) && Wf(E) && F.nodes !! E.nodes
    ensures Domains(Merge(F, E)) && Placed(Merge(F, E)) && Closed(Merge(F, E))
  {
    MergeAgrees(F, E);
    ClosedUnion(F, E, Merge(F, E));
  }

  /** A forest that places each node of two well-formed forests as they do is placed and closed. */
  lemma ClosedUnion(F: Forest, E: Forest, G: Forest)
    requires Wf(F) && Wf(E) && Domains(G) && G.nodes == F.nodes + E.nodes
    requires forall y | y in F.nodes :: G.par[y] == F.par[y] && G.chain[y] == F.chain[y] && G.pos[y] == F.pos[y]
    requires forall y | y in E.nodes :: G.par[y] == E.par[y] && G.chain[y] == E.chain[y] && G.pos[y] == E.pos[y]
    ensures Placed(G) && Closed(G)
  {
    forall x, i {:trigger G.chain[x][i]} | x in G.nodes && 0 <= i < |G.chain[x]|
      ensures G.chain[x][i] in G.nodes && G.chain[G.chain[x][i]] == G.chain[x]
      ensures G.pos[G.chain[x][i]] == i && G.par[G.chain[x][i]] == G.par[x]
    {
      if x in E.nodes {
        MergedChain(E, G, x, i);
      } else {
        MergedChain(F, G, x, i);
      }
    }
  }

  /** The merge keeps the place of every node of either forest. */
  lemma MergeAgrees(F: Forest, E: Forest)
    requires Wf(F) && Wf(E) && F.nodes !! E.nodes
    ensures var G := Merge(F, E);
      && Domains(G) && G.nodes == F.nodes + E.nodes
      && (forall y | y in F.nodes :: G.par[y] == F.par[y] && G.chain[y] == F.chain[y] && G.pos[y] == F.pos[y])
      && (forall y | y in E.nodes :: G.par[y] == E.par[y] && G.chain[y] == E.chain[y] && G.pos[y] == E.pos[y])
  {
  }

  /** A chain of one of two merged forests is a chain of the merge. */
  lemma MergedChain(P: Forest, G: Forest, x: Node, i: nat)
    requires Wf(P) && Domains(G) && P.nodes <= G.nodes && x in P.nodes && i < |P.chain[x]|
    requires forall y | y in P.nodes :: G.par[y] == P.par[y] && G.chain[y] == P.chain[y] && G.pos[y] == P.pos[y]
    ensures var z := P.chain[x][i];
      z in G.nodes && G.chain[z] == G.chain[x] && G.pos[z] == i && G.par[z] == G.par[x]
  {
    assert P.chain[x][i] in P.nodes;
  }

  lemma MergeParented(F: Forest, E: Forest)
    requires Wf(F) && Wf(E) && F.nodes !! E.nodes
    ensures Domains(Merge(F, E)) && Parented(Merge(F, E)) && Leaves(Merge(F, E))
  {
    var G := Merge(F, E);
    forall x {:trigger G.par[x]} | x in G.nodes && G.par[x] != null
      ensures G.par[x] in G.nodes && G.kids[G.par[x]] == G.chain[x] && G.level[G.par[x]] < G.level[x]
    {
      if x in E.nodes {
        assert E.par[x] in E.nodes;
      } else {
        assert F.par[x] in F.nodes;
      }
    }
  }

  lemma MergeHeaded(F: Forest, E: Forest)
    requires Wf(F) && Wf(E) && F.nodes !! E.nodes
    ensures Domains(Merge(F, E)) && Headed(Merge(F, E))
  {
    var G := Merge(F, E);
    forall p {:trigger G.kids[p]} | p in G.nodes && G.kids[p] != []
      ensures G.kids[p][0] in G.nodes && G.par[G.kids[p][0]] == p
    {
      if p in E.nodes {
        assert E.kids[p][0] in E.nodes;
      } else {
        assert F.kids[p][0] in F.nodes;
      }
    }
  }

  /** Detaching a parentless singleton changes nothing (node.cpp:161-187). */
  lemma DetachStandalone(F: Forest, n: Node)
    requires Wf(F) && n in F.nodes && F.par[n] == null && F.chain[n] == [n]
    ensures Detached(F, n) == F
  {
    var D := Detached(F, n);
    assert D.chain == F.chain;
    assert D.pos == F.pos;
    assert D.par == F.par;
  }

  /** Detaching a node and putting it back at its index restores the shape of the forest. */
  lemma ReinsertDetached(F: Forest, n: Node)
    requires Wf(F) && n in F.nodes && |F.chain[n]| > 1
    ensures var c, p := F.chain[n], F.pos[n];
      var a, D := (if p == 0 then c[1] else c[0]), Detached(F, n);
      CanInsert(D, a, n, p) && SameShape(Inserted(D, a, n, p), F)
  {
    var c, p := F.chain[n], F.pos[n];
    var a, D := (if p == 0 then c[1] else c[0]), Detached(F, n);
    DetachWf(F, n);
    assert a in c && a != n && F.chain[a] == c && D.chain[a] == Remove(c, p) by {
      assert F.chain[n][p] == n;
      ChainMembers(F, n);
    }
    UnderDetached(F, n, a);
    if F.par[a] != null {
      if Under(F, n, F.par[a]) {
        UnderLevel(F, n, F.par[a]);
      }
    }
    assert !Under(F, n, a);
    assert CanInsert(D, a, n, p);
    ReinsertShape(F, n, a);
  }

  lemma ReinsertShape(F: Forest, n: Node, a: Node)
    requires Wf(F) && n in F.nodes && a in F.nodes && a != n && F.chain[a] == F.chain[n]
    requires CanInsert(Detached(F, n), a, n, F.pos[n])
    ensures var D := Detached(F, n); Wf(D) && SameShape(Inserted(D, a, n, F.pos[n]), F)
  {
    var c, p, D := F.chain[n], F.pos[n], Detached(F, n);
    var G := Inserted(D, a, n, p);
    DetachWf(F, n);
    InsertWf(D, a, n, p);
    ChainMembers(F, n);
    ChainMembers(D, a);
    InsertAtRemove(c, p);
    assert D.chain[a] == Remove(c, p);
    forall x | x in F.nodes
      ensures G.par[x] == F.par[x] && G.chain[x] == F.chain[x] && G.pos[x] == F.pos[x] && G.kids[x] == F.kids[x]
    {
      if x in c && x != n {
        assert F.pos[x] != p by {
          assert c[p] == n;
        }
        assert F.par[x] == F.par[n];
      }
    }
  }

  /** Putting a standalone node into a chain and detaching it again restores the shape of the forest. */
  lemma DetachInserted(F: Forest, a: Node, s: Node, k: nat)
    requires CanInsert(F, a, s, k)
    ensures Wf(Inserted(F, a, s, k)) && SameShape(Detached(Inserted(F, a, s, k), s), F)
  {
    InsertWf(F, a, s, k);
    var D := Detached(Inserted(F, a, s, k), s);
    forall x | x in F.nodes
      ensures D.par[x] == F.par[x] && D.chain[x] == F.chain[x] && D.pos[x] == F.pos[x] && D.kids[x] == F.kids[x]
    {
      DetachInsertedAt(F, a, s, k, x);
    }
  }

  lemma DetachInsertedAt(F: Forest, a: Node, s: Node, k: nat, x: Node)
    requires CanInsert(F, a, s, k) && x in F.nodes
    ensures Wf(Inserted(F, a, s, k))
    ensures var D := Detached(Inserted(F, a, s, k), s);
      D.par[x] == F.par[x] && D.chain[x] == F.chain[x] && D.pos[x] == F.pos[x] && D.kids[x] == F.kids[x]
  {
    DetachInsertedKids(F, a, s, k);
    ChainMembers(F, a);
    if x in F.chain[a] {
      DetachInsertedMember(F, a, s, k, x);
    } else {
      DetachInsertedOther(F, a, s, k, x);
    }
  }

  lemma DetachInsertedMember(F: Forest, a: Node, s: Node, k: nat, x: Node)
    requires CanInsert(F, a, s, k) && x in F.nodes && x in F.chain[a]
    ensures Wf(Inserted(F, a, s, k))
    ensures var D := Detached(Inserted(F, a, s, k), s);
      D.par[x] == F.par[x] && D.chain[x] == F.chain[x] && D.pos[x] == F.pos[x]
  {
    var c := F.chain[a];
    var G := Inserted(F, a, s, k);
    InsertWf(F, a, s, k);
    InsertApart(F, a, s, k);
    ChainMembers(F, a);
    assert G.chain[s] == InsertAt(c, k, s) && G.pos[s] == k;
    assert G.chain[x] == G.chain[s] && x != s;
    RemoveInsertAt(c, k, s);
  }

  lemma DetachInsertedOther(F: Forest, a: Node, s: Node, k: nat, x: Node)
    requires CanInsert(F, a, s, k) && x in F.nodes && x !in F.chain[a]
    ensures Wf(Inserted(F, a, s, k))
    ensures var D := Detached(Inserted(F, a, s, k), s);
      D.par[x] == F.par[x] && D.chain[x] == F.chain[x] && D.pos[x] == F.pos[x]
  {
    var c := F.chain[a];
    var G := Inserted(F, a, s, k);
    InsertWf(F, a, s, k);
    InsertApart(F, a, s, k);
    assert G.chain[s] == InsertAt(c, k, s);
    if x != s {
      assert x !in G.chain[s];
    } else {
      assert F.pos[s] == 0;
    }
  }

  lemma DetachInsertedKids(F: Forest, a: Node, s: Node, k: nat)
    requires CanInsert(F, a, s, k)
    ensures Wf(Inserted(F, a, s, k)) && Detached(Inserted(F, a, s, k), s).kids == F.kids
  {
    var c, P := F.chain[a], F.par[a];
    var G := Inserted(F, a, s, k);
    InsertWf(F, a, s, k);
    InsertApart(F, a, s, k);
    assert G.chain[s] == InsertAt(c, k, s) && G.pos[s] == k && G.par[s] == P;
    RemoveInsertAt(c, k, s);
    var D := Detached(G, s);
    if P != null {
      assert F.kids[P] == c;
      assert G.kids == F.kids[P := InsertAt(c, k, s)];
      assert D.kids == G.kids[P := c];
    } else {
      assert D.kids == G.kids;
    }
  }

  lemma ChainDistinct(F: Forest, x: Node)
    requires Wf(F) && x in F.nodes
    ensures Distinct(F.chain[x])
  {
    forall i, j | 0 <= i < j < |F.chain[x]| ensures F.chain[x][i] != F.chain[x][j] {
      assert F.pos[F.chain[x][i]] == i && F.pos[F.chain[x][j]] == j;
    }
  }

  /** The members of `n`'s chain are exactly the nodes that share it. */
  lemma ChainMembers(F: Forest, n: Node)
    requires Wf(F) && n in F.nodes
    ensures forall x {:trigger F.chain[x]} {:trigger x in F.chain[n]} | x in F.nodes ::
      x in F.chain[n] <==> F.chain[x] == F.chain[n]
  {
    forall x {:trigger F.chain[x]} | x in F.nodes && x in F.chain[n] ensures F.chain[x] == F.chain[n] {
      var i :| 0 <= i < |F.chain[n]| && F.chain[n][i] == x;
    }
  }

  // ---------------------------------------------------------------------
  // Walking down the forest

  /** The nodes not above `x`; it shrinks on every step down, so it bounds the recursion. */
  ghost function Below(F: Forest, x: Node): set<Node>
    requires Domains(F) && x in F.nodes
  {
    set y | y in F.nodes && F.level[x] <= F.level[y]
  }

  /** The children of `x` are nodes whose parent is `x`, each at its index of the shared chain. */
  lemma KidsOf(F: Forest, x: Node)
    requires Wf(F) && x in F.nodes
    ensures forall i | 0 <= i < |F.kids[x]| ::
      && F.kids[x][i] in F.nodes && F.par[F.kids[x][i]] == x
      && F.chain[F.kids[x][i]] == F.kids[x] && F.pos[F.kids[x][i]] == i
    ensures forall c | c in F.kids[x] :: c in F.nodes && F.level[x] < F.level[c]
  {
    if F.kids[x] != [] {
      var h := F.kids[x][0];
      assert F.chain[h] == F.kids[x];
      forall i | 0 <= i < |F.kids[x]|
        ensures F.kids[x][i] in F.nodes && F.par[F.kids[x][i]] == x
      {
        assert F.chain[h][i] == F.kids[x][i];
      }
    }
  }

  /** Stepping down to a child leaves `x` behind. */
  lemma BelowShrinks(F: Forest, x: Node, c: Node)
    requires Domains(F) && x in F.nodes && c in F.nodes && F.level[x] < F.level[c]
    ensures Below(F, c) < Below(F, x)
  {
    assert x in Below(F, x) - Below(F, c);
  }

  // ---------------------------------------------------------------------
  // Ancestry

  /** Stepping from a node to its parent keeps it below any proper ancestor. */
  lemma {:induction false} UnderParent(F: Forest, c: Node, z: Node)
    requires Wf(F) && c in F.nodes && z in F.nodes && F.par[c] != null && Under(F, c, z)
    ensures Under(F, F.par[c], z)
    decreases F.level[z]
  {
    if z != c {
      UnderParent(F, c, F.par[z]);
    }
  }

  /** Two ancestors of the same node are one above the other. */
  lemma {:induction false} UnderLinear(F: Forest, a: Node, b: Node, z: Node)
    requires Wf(F) && a in F.nodes && b in F.nodes && z in F.nodes
    requires Under(F, a, z) && Under(F, b, z)
    ensures Under(F, a, b) || Under(F, b, a)
    decreases F.level[z]
  {
    if z != a && z != b {
      UnderLinear(F, a, b, F.par[z]);
    }
  }

  /** A proper descendant of `x` lies below one of `x`'s children. */
  lemma {:induction false} UnderSomeKid(F: Forest, x: Node, y: Node) returns (i: nat)
    requires Wf(F) && x in F.nodes && y in F.nodes && Under(F, x, y) && y != x
    ensures i < |F.kids[x]| && Under(F, F.kids[x][i], y)
    decreases F.level[y]
  {
    var p := F.par[y];
    if p == x {
      i := F.pos[y];
      assert F.kids[x] == F.chain[y];
    } else {
      i := UnderSomeKid(F, x, p);
      KidsOf(F, x);
    }
  }

  /** A node is above nothing that is above it, except itself. */
  lemma UnderAntisym(F: Forest, a: Node, b: Node)
    requires Wf(F) && a in F.nodes && b in F.nodes
    ensures Under(F, a, b) && Under(F, b, a) ==> a == b
  {
    ProperUnderLevel(F, a, b);
    if Under(F, b, a) {
      UnderLevel(F, b, a);
    }
  }

  /** A proper ancestor has a strictly smaller rank. */
  lemma {:induction false} ProperUnderLevel(F: Forest, a: Node, b: Node)
    requires Wf(F) && a in F.nodes && b in F.nodes
    ensures Under(F, a, b) && a != b ==> F.level[a] < F.level[b]
    decreases F.level[b]
  {
    if Under(F, a, b) && a != b && F.par[b] != a {
      ProperUnderLevel(F, a, F.par[b]);
    }
  }
}
