/**
 * Element nodes (core/html_node.cpp) and text nodes (core/text_node.cpp).
 *
 * Both variants are `Tree.Node`s told apart by their `kind`; a document
 * (core/dom.cpp) is an element too.  The member functions of the variants
 * become methods and functions of this module that take the node as their
 * first argument.  Every mutator of a text node does nothing.
 */
module Html {
  import opened Tree

  // ---------------------------------------------------------------------
  // Adding children

  /**
   * `p.append(child)` (html_node.cpp:45-57): `child` is cut out of wherever
   * it was and becomes the last child of `p`.  For a text node it does
   * nothing and leaves `child` where it is (text_node.cpp:43-47).  `child`
   * must not be `p` or one of its ancestors.
   */
  method Append(ghost F: Forest, p: Node, child: Node) returns (r: Node, ghost G: Forest)
    requires Valid(F) && p in F.nodes && child in F.nodes
    requires !p.kind.Text? ==> !Under(F, child, p)
    modifies F.nodes`parent, F.nodes`next, F.nodes`prev, F.nodes`firstChild
    ensures r == p && Valid(G)
    ensures p.kind.Text? ==> G == F
    ensures !p.kind.Text? ==> CanAttach(Detached(F, child), p, child) && G == Appended(Detached(F, child), p, child)
  {
    r := p;
    if p.kind.Text? {
      G := F;
      return;
    }
    DetachedCanAttach(F, child, p);
    var _, D := child.Detach(F);
    if p.firstChild == null {
      G := Adopt(D, p, child);
    } else {
      var last := p.LastChild(D);
      AttachAnchors(D, p, child);
      G := last.PutAfter(D, child);
    }
  }

  /**
   * `p.prepend(child)` (html_node.cpp:58-70): `child` is cut out of wherever
   * it was and becomes the first child of `p`; a text node ignores it
   * (text_node.cpp:48-52).
   */
  method Prepend(ghost F: Forest, p: Node, child: Node) returns (r: Node, ghost G: Forest)
    requires Valid(F) && p in F.nodes && child in F.nodes
    requires !p.kind.Text? ==> !Under(F, child, p)
    modifies F.nodes`parent, F.nodes`next, F.nodes`prev, F.nodes`firstChild
    ensures r == p && Valid(G)
    ensures p.kind.Text? ==> G == F
    ensures !p.kind.Text? ==> CanAttach(Detached(F, child), p, child) && G == Prepended(Detached(F, child), p, child)
  {
    r := p;
    if p.kind.Text? {
      G := F;
      return;
    }
    DetachedCanAttach(F, child, p);
    var _, D := child.Detach(F);
    var first := p.firstChild;
    if first == null {
      G := Adopt(D, p, child);
    } else {
      AttachAnchors(D, p, child);
      G := first.PutBefore(D, child);
    }
  }

  /** The writes that make the standalone `s` the only child of `p` (html_node.cpp:49-51, 62-65). */
  method Adopt(ghost F: Forest, p: Node, s: Node) returns (ghost G: Forest)
    requires Valid(F) && CanAdopt(F, p, s)
    modifies s`parent, p`firstChild
    ensures G == Adopted(F, p, s) && Valid(G)
  {
    s.parent := p;
    p.firstChild := s;
    AdoptedValid(F, p, s);
    G := Adopted(F, p, s);
  }

  /**
   * What `append` does to the children lists, stated on the forest before
   * the call: `child` leaves its old parent and ends the children of `p`,
   * and no other node's children change.  Re-appending a child of `p` thus
   * keeps the number of children and moves it to the end.
   */
  lemma AppendMoves(F: Forest, p: Node, child: Node)
    requires Wf(F) && p in F.nodes && child in F.nodes && !p.kind.Text? && !Under(F, child, p)
    ensures CanAttach(Detached(F, child), p, child)
    ensures var G, Q := Appended(Detached(F, child), p, child), F.par[child];
      && Wf(G) && G.nodes == F.nodes && G.par[child] == p
      && G.kids[p] == (if Q == p then Remove(F.kids[p], F.pos[child]) else F.kids[p]) + [child]
      && (Q != null && Q != p ==> G.kids[Q] == Remove(F.kids[Q], F.pos[child]))
      && forall x {:trigger G.kids[x]} | x in F.nodes && x != p && x != Q :: G.kids[x] == F.kids[x]
  {
    DetachedCanAttach(F, child, p);
    DetachedKids(F, child);
    var D := Detached(F, child);
    AppendedKids(D, p, child);
    AttachedOthers(D, p, child);
  }

  /** The same for `prepend`: `child` leaves its old parent and starts the children of `p`. */
  lemma PrependMoves(F: Forest, p: Node, child: Node)
    requires Wf(F) && p in F.nodes && child in F.nodes && !p.kind.Text? && !Under(F, child, p)
    ensures CanAttach(Detached(F, child), p, child)
    ensures var G, Q := Prepended(Detached(F, child), p, child), F.par[child];
      && Wf(G) && G.nodes == F.nodes && G.par[child] == p
      && G.kids[p] == [child] + (if Q == p then Remove(F.kids[p], F.pos[child]) else F.kids[p])
      && (Q != null && Q != p ==> G.kids[Q] == Remove(F.kids[Q], F.pos[child]))
      && forall x {:trigger G.kids[x]} | x in F.nodes && x != p && x != Q :: G.kids[x] == F.kids[x]
  {
    DetachedCanAttach(F, child, p);
    DetachedKids(F, child);
    var D := Detached(F, child);
    PrependedKids(D, p, child);
    AttachedOthers(D, p, child);
  }

  // ---------------------------------------------------------------------
  // Attributes

  /** A constructor argument: a key and its value (html_node.h:12-33). */
  datatype Attribute = Attribute(key: string, value: string)

  /** The key the constructor turns into a text child (html_node.cpp:14). */
  const TextKey: string := "text"

  /** `unordered_map::insert`: a key that is already present keeps its value. */
  function Insert(m: map<string, string>, k: string, v: string): map<string, string>
  {
    if k in m then m else m[k := v]
  }

  /** The attribute map built by the constructor from `attrs` (html_node.cpp:12-19). */
  function Collected(attrs: seq<Attribute>): map<string, string>
  {
    if attrs == [] then map[]
    else
      var m, a := Collected(attrs[..|attrs| - 1]), attrs[|attrs| - 1];
      if a.key == TextKey then m else Insert(m, a.key, a.value)
  }

  /** The payloads of the text children built by the constructor, in order. */
  function Texts(attrs: seq<Attribute>): seq<string>
  {
    if attrs == [] then []
    else
      var t, a := Texts(attrs[..|attrs| - 1]), attrs[|attrs| - 1];
      if a.key == TextKey then t + [a.value] else t
  }

  /**
   * The constructor keeps every key but the text key, with the value of its
   * first occurrence: later duplicates are ignored (html_node.cpp:17).
   */
  lemma {:induction false} FirstValueWins(attrs: seq<Attribute>, k: string)
    ensures k in Collected(attrs) <==> k != TextKey && exists i | 0 <= i < |attrs| :: attrs[i].key == k
    ensures k in Collected(attrs) ==> exists i | 0 <= i < |attrs| ::
      && attrs[i].key == k && Collected(attrs)[k] == attrs[i].value
      && forall j | 0 <= j < i :: attrs[j].key != k
  {
    if attrs != [] {
      var init := attrs[..|attrs| - 1];
      FirstValueWins(init, k);
      if k in Collected(init) {
        var i :| 0 <= i < |init| && init[i].key == k && Collected(init)[k] == init[i].value
          && forall j | 0 <= j < i :: init[j].key != k;
        assert attrs[i] == init[i];
      } else if k in Collected(attrs) {
        assert attrs[|attrs| - 1].key == k;
        forall j | 0 <= j < |attrs| - 1
          ensures attrs[j].key != k
        {
          assert attrs[j] == init[j];
        }
      }
      if k != TextKey && exists i | 0 <= i < |attrs| :: attrs[i].key == k {
        var i :| 0 <= i < |attrs| && attrs[i].key == k;
        if i < |attrs| - 1 {
          assert init[i] == attrs[i];
        }
      }
    }
  }

  /**
   * `attr(Attribute)` (html_node.cpp:71-74): inserts the pair unless the key
   * is already present.  It exists on elements only.
   */
  method AddAttribute(n: Node, a: Attribute)
    requires !n.kind.Text?
    modifies n`attrs
    ensures n.attrs == Insert(old(n.attrs), a.key, a.value)
  {
    n.attrs := Insert(n.attrs, a.key, a.value);
  }

  /** `attr(key)`: the stored value, or the empty string (html_node.cpp:114-121; text_node.cpp:21-23). */
  function GetAttr(n: Node, key: string): string
    reads n
  {
    if !n.kind.Text? && key in n.attrs then n.attrs[key] else ""
  }

  /**
   * `attr(key, value)` creates or overwrites the attribute; a text node
   * ignores it (html_node.cpp:122-125; text_node.cpp:24-26).
   */
  method SetAttr(n: Node, key: string, value: string)
    modifies n`attrs
    ensures n.kind.Text? ==> n.attrs == old(n.attrs)
    ensures !n.kind.Text? ==> n.attrs == old(n.attrs)[key := value]
    ensures forall k :: GetAttr(n, k) == if k == key && !n.kind.Text? then value else old(GetAttr(n, k))
  {
    if !n.kind.Text? {
      n.attrs := n.attrs[key := value];
    }
  }

  /** Reading back what `attr(key, value)` wrote, and what `insert` kept. */
  lemma AttrRoundTrip(m: map<string, string>, key: string, value: string, other: string)
    ensures key in Insert(m, key, value) && Insert(m, key, value)[key] == (if key in m then m[key] else value)
    ensures other != key ==> (other in Insert(m, key, value) <==> other in m)
    ensures other != key && other in m ==> Insert(m, key, value)[other] == m[other]
  {
  }

  // ---------------------------------------------------------------------
  // Construction

  /** The payloads of a sequence of nodes. */
  function Payloads(ns: seq<Node>): seq<string>
  {
    seq(|ns|, i requires 0 <= i < |ns| => ns[i].payload)
  }

  /**
   * `HtmlNode(tag, attributes)` (html_node.cpp:8-20): a new parentless
   * element whose `"text"` arguments became text children, in order, and
   * whose other arguments fill the attribute map, first value winning.  It
   * is returned with the forest of its own fresh nodes.
   */
  method NewElement(tag: string, attributes: seq<Attribute>) returns (n: Node, ghost E: Forest)
    ensures fresh(n) && n.kind == Element && n.tag == tag && n.attrs == Collected(attributes)
    ensures fresh(E.nodes) && TextParent(E, n, Texts(attributes))
  {
    var m;
    n, m, E := ReadArguments(tag, attributes);
    n.attrs := m;
  }

  /** `n` is a parentless element of `E` whose children are text nodes with the payloads `texts`. */
  ghost predicate TextParent(E: Forest, n: Node, texts: seq<string>)
    reads E.nodes`parent, E.nodes`next, E.nodes`prev, E.nodes`firstChild
  {
    && Valid(E) && n in E.nodes && !n.kind.Text? && E.par[n] == null && E.chain[n] == [n]
    && Payloads(E.kids[n]) == texts && forall c | c in E.kids[n] :: c.kind.Text?
  }

  /**
   * The loop of the constructor (html_node.cpp:12-19): text arguments are
   * appended as text children at once, the others are gathered into the
   * map that becomes the element's attributes.
   */
  method ReadArguments(tag: string, attributes: seq<Attribute>) returns (n: Node, m: map<string, string>, ghost E: Forest)
    ensures fresh(n) && n.kind == Element && n.tag == tag && m == Collected(attributes)
    ensures fresh(E.nodes) && TextParent(E, n, Texts(attributes))
  {
    n, E := NewParent(tag);
    m := map[];
    var i := 0;
    while i < |attributes|
      invariant 0 <= i <= |attributes| && m == Collected(attributes[..i])
      invariant fresh(E.nodes) && TextParent(E, n, Texts(attributes[..i]))
    {
      ArgumentStep(attributes, i);
      m, E := TakeArgument(E, n, m, attributes[i], Texts(attributes[..i]));
      i := i + 1;
    }
    assert attributes[..i] == attributes;
  }

  /** A new element standing alone in a forest of its own. */
  method NewParent(tag: string) returns (n: Node, ghost E: Forest)
    ensures fresh(n) && n.kind == Element && n.tag == tag && n.attrs == map[]
    ensures fresh(E.nodes) && TextParent(E, n, [])
  {
    n := new Node(Element, tag, "");
    AdjoinValid(Empty, n);
    E := Adjoin(Empty, n);
  }

  /** How one more constructor argument changes the attribute map and the text payloads. */
  lemma ArgumentStep(attrs: seq<Attribute>, i: nat)
    requires i < |attrs|
    ensures var a := attrs[i];
      && Collected(attrs[..i + 1]) == (if a.key == TextKey then Collected(attrs[..i]) else Insert(Collected(attrs[..i]), a.key, a.value))
      && Texts(attrs[..i + 1]) == (if a.key == TextKey then Texts(attrs[..i]) + [a.value] else Texts(attrs[..i]))
  {
    assert attrs[..i + 1][..i] == attrs[..i];
  }

  /** The children of `n` stay its text nodes when one more is appended. */
  lemma TextChildStep(E: Forest, G: Forest, n: Node, t: Node, texts: seq<string>)
    requires n in E.kids && n in G.kids
    requires Payloads(E.kids[n]) == texts
    requires forall c | c in E.kids[n] :: c.kind.Text?
    requires G.kids[n] == E.kids[n] + [t] && t.kind.Text?
    ensures Payloads(G.kids[n]) == texts + [t.payload]
    ensures forall c | c in G.kids[n] :: c.kind.Text?
  {
    assert forall c :: c in G.kids[n] <==> c in E.kids[n] || c == t;
  }

  /** One round of the constructor's loop (html_node.cpp:14-18). */
  method TakeArgument(ghost E: Forest, n: Node, m: map<string, string>, a: Attribute, ghost texts: seq<string>)
    returns (m': map<string, string>, ghost G: Forest)
    requires TextParent(E, n, texts)
    modifies E.nodes`parent, E.nodes`next, E.nodes`prev, E.nodes`firstChild
    ensures m' == if a.key == TextKey then m else Insert(m, a.key, a.value)
    ensures fresh(G.nodes - E.nodes) && E.nodes <= G.nodes
    ensures TextParent(G, n, if a.key == TextKey then texts + [a.value] else texts)
  {
    if a.key == TextKey {
      m' := m;
      var _, G' := AppendText(E, n, a.value, texts);
      G := G';
    } else {
      m' := Insert(m, a.key, a.value);
      G := E;
    }
  }

  /** Appends a new text node with payload `v` to the parentless element `n` (html_node.cpp:15). */
  method AppendText(ghost E: Forest, n: Node, v: string, ghost texts: seq<string>) returns (t: Node, ghost G: Forest)
    requires TextParent(E, n, texts)
    modifies E.nodes`parent, E.nodes`next, E.nodes`prev, E.nodes`firstChild
    ensures fresh(t) && G.nodes == E.nodes + {t} && TextParent(G, n, texts + [v])
  {
    t := new Node(Text, "", v);
    G := AppendFresh(E, n, t, texts);
  }

  /** Appends the fresh text node `t` to the parentless element `n`. */
  method AppendFresh(ghost E: Forest, n: Node, t: Node, ghost texts: seq<string>) returns (ghost G: Forest)
    requires TextParent(E, n, texts) && t !in E.nodes && t.kind.Text?
    requires t.parent == null && t.next == null && t.prev == t && t.firstChild == null
    modifies E.nodes`parent, E.nodes`next, E.nodes`prev, E.nodes`firstChild
    modifies t`parent, t`next, t`prev, t`firstChild
    ensures G.nodes == E.nodes + {t} && TextParent(G, n, texts + [t.payload])
  {
    AdjoinValid(E, t);
    var E' := Adjoin(E, t);
    assert !Under(E', t, n);
    assert E'.par[t] == null && E'.kids[n] == E.kids[n] && E'.chain[n] == E.chain[n];
    AppendMoves(E', n, t);
    AttachedKeeps(Detached(E', t), n, t);
    DetachStandalone(E', t);
    var _, G' := Append(E', n, t);
    G := G';
    TextChildStep(E, G, n, t, texts);
  }
}
