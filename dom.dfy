/** The states a new document goes through. */
module Dressing {
  import opened Tree
  import opened Snapshot
  import opened Standing

  /** The table in which every node of `S` has no attributes. */
  ghost function Bare(S: set<Node>): Table
  {
    map y | y in S :: map[]
  }

  /** Every node of `E` is without attributes. */
  ghost predicate Unadorned(E: Forest)
    reads E.nodes`attrs
  {
    Tabled(E.nodes, Bare(E.nodes))
  }

  /** `G` is `E` with the new node `s` appended to the root `d`, and `head` and `s` the ends of its children. */
  ghost predicate Extended(E: Forest, d: Node, s: Node, head: Node, G: Forest)
  {
    && Domains(E) && Wf(G) && Root(G, d) && G.nodes == E.nodes + {s} && d in E.kids
    && G.kids[d] == E.kids[d] + [s] && G.par[s] == d && G.kids[s] == []
    && (forall y | y in E.nodes && y != d :: G.kids[y] == E.kids[y])
    && EndsAre(G, d, if E.kids[d] == [] then s else head, s)
  }

  /** `d` is a root element of `E`, whose children `head` and `tail` end, and no node has attributes. */
  ghost predicate Begun(E: Forest, d: Node, head: Node, tail: Node)
    reads E.nodes`parent, E.nodes`next, E.nodes`prev, E.nodes`firstChild, E.nodes`attrs
  {
    Valid(E) && Unadorned(E) && Root(E, d) && !d.kind.Text? && EndsAre(E, d, head, tail)
  }

  /** The new node `s` may be appended to the root `d` of `E`, whose children `head` and `tail` end. */
  ghost predicate Ready(E: Forest, d: Node, s: Node, head: Node, tail: Node)
    reads E.nodes`parent, E.nodes`next, E.nodes`prev, E.nodes`firstChild, E.nodes`attrs
    reads s`parent, s`next, s`prev, s`firstChild, s`attrs
  {
    && Valid(E) && Unadorned(E) && Root(E, d) && !d.kind.Text? && s !in E.nodes && EndsAre(E, d, head, tail)
    && s.parent == null && s.next == null && s.prev == s && s.firstChild == null && s.attrs == map[]
  }
}

/**
 * The document (core/dom.cpp): an `html` element of kind `Document` that
 * starts with an empty `head` and an empty `body`, and whose serialisation
 * is preceded by the doctype line.
 */
module Documents {
  import opened Tree
  import opened Snapshot
  import opened Render
  import opened Standing
  import opened Stages
  import opened Dressing
  import Cloning

  /** An element with `tag`, no attributes and no children. */
  function Empty(tag: string): Doc
  {
    Doc(Element, tag, "", map[], [])
  }

  /** What a new document holds (dom.cpp:6-12). */
  const Blank: Doc := Doc(Document, "html", "", map[], [Empty("head"), Empty("body")])

  /**
   * `Dom()` (dom.cpp:6-12): a new parentless `html` document to which a new
   * `head` and then a new `body` are appended.  It is returned with the
   * forest of its three nodes and their attribute table.
   */
  method NewDom() returns (d: Node, ghost E: Forest, ghost A: Table)
    ensures fresh(d) && d.kind == Document && d.tag == "html"
    ensures Valid(E) && Tabled(E.nodes, A) && Root(E, d) && |E.kids[d]| == 2
    ensures Snap(E, A, d) == Blank
  {
    d := new Node(Document, "html", "");
    AdjoinValid(Tree.Empty, d);
    E := Adjoin(Tree.Empty, d);
    assert Unadorned(E);
    var head, body;
    head, body, E := Furnish(E, d);
    A := Bare(E.nodes);
    BlankSnap(E, A, d, head, body);
  }

  /** The two appends of the constructor (dom.cpp:10-11): `head`, then `body`, under the childless root `d`. */
  method Furnish(ghost E: Forest, d: Node) returns (head: Node, body: Node, ghost G: Forest)
    requires Begun(E, d, d, d) && E.kids[d] == []
    modifies d`firstChild, d`parent, d`next, d`prev
    ensures fresh(head) && head.kind == Element && head.tag == "head" && head.payload == ""
    ensures fresh(body) && body.kind == Element && body.tag == "body" && body.payload == ""
    ensures Valid(G) && Unadorned(G) && Root(G, d) && G.kids[d] == [head, body]
    ensures head in G.nodes && body in G.nodes && G.kids[head] == [] && G.kids[body] == []
  {
    ghost var H;
    head, H := NewChild(E, d, "head", d, d);
    body, G := NewChild(H, d, "body", head, head);
    Pair(head, body);
  }

  /** `d.append(new HtmlNode(tag))` (dom.cpp:10-11). */
  method NewChild(ghost E: Forest, d: Node, tag: string, ghost head: Node, ghost tail: Node) returns (s: Node, ghost G: Forest)
    requires Begun(E, d, head, tail)
    modifies d`firstChild, head`parent, head`next, head`prev, tail`parent, tail`next, tail`prev
    ensures fresh(s) && s.kind == Element && s.tag == tag && s.payload == ""
    ensures Valid(G) && Unadorned(G) && Extended(E, d, s, head, G)
  {
    s := new Node(Element, tag, "");
    G := AppendNew(E, d, s, head, tail);
  }

  /**
   * `d.append(new HtmlNode(tag))` (dom.cpp:10-11) for the new node `s`:
   * it joins the forest and ends the children of `d`.
   */
  method AppendNew(ghost E: Forest, d: Node, s: Node, ghost head: Node, ghost tail: Node) returns (ghost G: Forest)
    requires Ready(E, d, s, head, tail)
    modifies d`firstChild, s`parent, s`next, s`prev
    modifies head`parent, head`next, head`prev, tail`parent, tail`next, tail`prev
    ensures Valid(G) && Unadorned(G) && Extended(E, d, s, head, G)
  {
    AdjoinValid(E, s);
    ghost var J := Adjoin(E, s);
    assert Unadorned(J);
    Joinable(E, d, s, head, tail);
    G := Cloning.AppendRoot(J, d, s, head, tail);
    Extends(E, d, s, head, tail);
  }

  /** The new node may be appended to `d` once it has joined the forest. */
  lemma Joinable(E: Forest, d: Node, s: Node, head: Node, tail: Node)
    requires Wf(E) && Root(E, d) && !d.kind.Text? && s !in E.nodes && EndsAre(E, d, head, tail)
    ensures CanAttach(Adjoin(E, s), d, s) && EndsAre(Adjoin(E, s), d, head, tail)
  {
    AdjoinWf(E, s);
    assert !Under(Adjoin(E, s), s, d);
  }

  /** What appending the new node does to the forest. */
  lemma Extends(E: Forest, d: Node, s: Node, head: Node, tail: Node)
    requires Wf(E) && Root(E, d) && !d.kind.Text? && s !in E.nodes && EndsAre(E, d, head, tail)
    requires CanAttach(Adjoin(E, s), d, s)
    ensures Extended(E, d, s, head, Appended(Adjoin(E, s), d, s))
  {
    ExtendsShape(E, d, s);
    ExtendsOthers(E, d, s);
    EndsSnoc(E.kids[d], s, d, head, tail);
  }

  lemma ExtendsShape(E: Forest, d: Node, s: Node)
    requires Wf(E) && Root(E, d) && s !in E.nodes && CanAttach(Adjoin(E, s), d, s)
    ensures var G := Appended(Adjoin(E, s), d, s);
      Wf(G) && Root(G, d) && G.nodes == E.nodes + {s} && G.kids[d] == E.kids[d] + [s] && G.par[s] == d
  {
    AppendedKids(Adjoin(E, s), d, s);
    AttachedKeeps(Adjoin(E, s), d, s);
  }

  lemma ExtendsOthers(E: Forest, d: Node, s: Node)
    requires Wf(E) && s !in E.nodes && CanAttach(Adjoin(E, s), d, s)
    ensures var G := Appended(Adjoin(E, s), d, s);
      G.kids[s] == [] && forall y | y in E.nodes && y != d :: G.kids[y] == E.kids[y]
  {
    AttachedOthers(Adjoin(E, s), d, s);
  }

  /** The ends of the children once `s` has been added after them. */
  lemma EndsSnoc(cs: seq<Node>, s: Node, d: Node, head: Node, tail: Node)
    requires if cs == [] then head == d && tail == d else head == cs[0] && tail == Last(cs)
    ensures (cs + [s])[0] == (if cs == [] then s else head) && Last(cs + [s]) == s
  {
  }

  /** The children list `NewDom` builds, as a pair (kept apart from `NewDom`, whose context makes it costly). */
  lemma Pair(h: Node, b: Node)
    ensures [] + [h] + [b] == [h, b]
  {
  }

  /** The snapshot of an `html` document whose only children are an empty `head` and an empty `body`. */
  lemma BlankSnap(E: Forest, A: Table, d: Node, h: Node, b: Node)
    requires Valid(E)
    requires d in E.nodes
    requires E.kids[d] == [h, b]
    requires h in E.nodes
    requires b in E.nodes
    requires E.kids[h] == []
    requires E.kids[b] == []
    requires d.kind == Document && d.tag == "html" && d.payload == ""
    requires h.kind == Element && h.tag == "head" && h.payload == ""
    requires b.kind == Element && b.tag == "body" && b.payload == ""
    requires AttrsAt(A, d) == map[]
    requires AttrsAt(A, h) == map[]
    requires AttrsAt(A, b) == map[]
    ensures Snap(E, A, d) == Blank
  {
    KidsOf(E, d);
    assert [h, b][1..] == [b];
    assert Snap(E, A, h) == Empty("head");
    assert Snap(E, A, b) == Empty("body");
    assert SnapAll(E, A, d, [b]) == [Snap(E, A, b)] + SnapAll(E, A, d, []);
    assert SnapAll(E, A, d, [h, b]) == [Snap(E, A, h)] + SnapAll(E, A, d, [b]);
  }

  /** No attribute is printed for an empty map, whatever order is given. */
  lemma {:induction false} NoAttrText(keys: seq<string>)
    ensures AttrText(map[], keys) == ""
    decreases |keys|
  {
    if keys != [] {
      NoAttrText(keys[1..]);
    }
  }

  /** A childless element without attributes is one self-closing line. */
  lemma EmptyLines(tag: string, depth: nat, order: KeyOrder)
    ensures LinesOf(Empty(tag), depth, order) == [Line(depth, "<" + tag + "/>")]
  {
    NoAttrText(order(map[]));
    assert OpenTag(Empty(tag), order) == "<" + tag;
  }

  /** The five lines of a new document. */
  function BlankLines(): seq<Line>
  {
    [Line(0, Doctype), Line(0, "<html>"), Line(1, "<head/>"), Line(1, "<body/>"), Line(0, "</html>")]
  }

  /**
   * `Dom::serialize(0)` of a new document (dom.cpp:14-18) is five lines:
   * the doctype, `<html>`, then `<head/>` and `<body/>` one level deeper,
   * and `</html>`.
   */
  lemma BlankPrinted(order: KeyOrder)
    ensures Print(Blank, 0, order) == Join(BlankLines())
  {
    PrintIsLines(Blank, 0, order);
    BlankLinesOf(order);
  }

  lemma BlankLinesOf(order: KeyOrder)
    ensures LinesOf(Blank, 0, order) == BlankLines()
  {
    NoAttrText(order(map[]));
    assert OpenTag(Blank, order) + ">" == "<html>";
    assert CloseTag(Blank) == "</html>";
    ChildLines(order);
    var a, b, c, d, e := Line(0, Doctype), Line(0, "<html>"), Line(1, "<head/>"), Line(1, "<body/>"), Line(0, "</html>");
    assert [a] + ([b] + [c, d] + [e]) == [a, b, c, d, e];
  }

  lemma ChildLines(order: KeyOrder)
    ensures LinesAll(Blank.kids, 1, order) == [Line(1, "<head/>"), Line(1, "<body/>")]
  {
    var kids := [Empty("head"), Empty("body")];
    EmptyLines("head", 1, order);
    EmptyLines("body", 1, order);
    assert "<" + "head" + "/>" == "<head/>";
    assert "<" + "body" + "/>" == "<body/>";
    assert kids[1..] == [Empty("body")];
    assert LinesAll(kids[1..], 1, order) == [Line(1, "<body/>")] + LinesAll([], 1, order);
    assert LinesAll(kids, 1, order) == [Line(1, "<head/>")] + LinesAll(kids[1..], 1, order);
  }
}
