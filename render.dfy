/**
 * Serialisation (html_node.cpp:75-113, text_node.cpp:9-20, dom.cpp:14-18).
 *
 * `Print` is what `serialize(depth)` returns for a subtree read as a value:
 * a text node is its payload behind the indentation of its depth; an
 * element without children is one self-closing tag; an element with
 * children is its opening tag, each child one level deeper followed by a
 * newline, and its closing tag; a document first prints the doctype line.
 * `LinesOf` is an independent, line-by-line reading of the same output, and
 * the two are proved to agree.  The methods walk the links as the source
 * does and are proved to return `Print` of the snapshot.
 */
module Render {
  import opened Tree
  import opened Snapshot

  /** The doctype a document prints on a line of its own (dom.cpp:8, 16). */
  const Doctype: string := "<!DOCTYPE html>"

  /**
   * The order in which an attribute map lists its keys.  The source prints
   * them in the iteration order of an unordered_map (html_node.cpp:80-82),
   * which it does not fix, so it is a parameter here.
   */
  type KeyOrder = map<string, string> -> seq<string>

  /** `ks` lists each key of `m` exactly once, as iterating over the map does. */
  ghost predicate Lists(m: map<string, string>, ks: seq<string>)
  {
    && (forall k :: k in ks <==> k in m)
    && (forall i, j | 0 <= i < j < |ks| :: ks[i] != ks[j])
  }

  /** `order` is an iteration order: it lists the keys of every map, each once. */
  ghost predicate EachKeyOnce(order: KeyOrder)
  {
    forall m :: Lists(m, order(m))
  }

  /** Under such an order every attribute is printed, and printed once: there are as many keys listed as attributes. */
  lemma ListedOnce(m: map<string, string>, ks: seq<string>)
    requires Lists(m, ks)
    ensures |ks| == |m|
  {
    Distinct(ks);
    assert m.Keys == set k | k in ks;
  }

  /** A sequence without repetitions has as many distinct elements as it is long. */
  lemma {:induction false} Distinct(ks: seq<string>)
    requires forall i, j | 0 <= i < j < |ks| :: ks[i] != ks[j]
    ensures |set k | k in ks| == |ks|
  {
    if ks != [] {
      var n := |ks| - 1;
      Distinct(ks[..n]);
      assert (set k | k in ks) == (set k | k in ks[..n]) + {ks[n]};
      assert ks[n] !in ks[..n];
    }
  }

  /** `depth * INDENT_WIDTH` spaces (html_node.cpp:77, text_node.cpp:11). */
  function Indent(depth: nat): (s: string)
    ensures |s| == depth * IndentWidth
    ensures forall i | 0 <= i < |s| :: s[i] == ' '
  {
    seq(depth * IndentWidth, _ => ' ')
  }

  /** ` k="v"` for each listed key of `m` (html_node.cpp:80-82). */
  function AttrText(m: map<string, string>, keys: seq<string>): string
  {
    if keys == [] then ""
    else (if keys[0] in m then " " + keys[0] + "=\"" + m[keys[0]] + "\"" else "") + AttrText(m, keys[1..])
  }

  /** `<tag` followed by the attributes. */
  function OpenTag(t: Doc, order: KeyOrder): string
  {
    "<" + t.tag + AttrText(t.attrs, order(t.attrs))
  }

  function CloseTag(t: Doc): string
  {
    "</" + t.tag + ">"
  }

  /** `serialize(depth)` of the subtree `t`. */
  function Print(t: Doc, depth: nat, order: KeyOrder): string
    decreases t, 1
  {
    if t.kind.Text? then Indent(depth) + t.payload
    else
      (if t.kind.Document? then Doctype + "\n" else "")
      + Indent(depth) + OpenTag(t, order)
      + if t.kids == [] then "/>"
        else ">\n" + PrintAll(t.kids, depth + 1, order) + Indent(depth) + CloseTag(t)
  }

  /** Each subtree of `ts` at `depth`, each followed by a newline (html_node.cpp:87-91). */
  function PrintAll(ts: seq<Doc>, depth: nat, order: KeyOrder): string
    decreases ts, 0
  {
    if ts == [] then "" else Print(ts[0], depth, order) + "\n" + PrintAll(ts[1..], depth, order)
  }

  /** `text()`: a text node's payload, or an element's children at depth 0 (html_node.cpp:100-109, text_node.cpp:13-16). */
  function TextOf(t: Doc, order: KeyOrder): string
  {
    if t.kind.Text? then t.payload else PrintAll(t.kids, 0, order)
  }

  /** `html()`: the serialisation at depth 0 (html_node.cpp:110-113, text_node.cpp:17-20). */
  function HtmlOf(t: Doc, order: KeyOrder): string
  {
    Print(t, 0, order)
  }

  // ---------------------------------------------------------------------
  // The same output, line by line

  /** One line of output: its content behind the indentation of `depth`. */
  datatype Line = Line(depth: nat, text: string)

  function Show(l: Line): string
  {
    Indent(l.depth) + l.text
  }

  /** Lines separated by newlines, with none after the last. */
  function Join(ls: seq<Line>): string
  {
    if ls == [] then "" else if |ls| == 1 then Show(ls[0]) else Show(ls[0]) + "\n" + Join(ls[1..])
  }

  /**
   * The lines of `t` at `depth`: a text node is one line; a childless
   * element one self-closing line; an element with children an opening
   * line, its children's lines one level deeper and a closing line; a
   * document is preceded by the doctype at column 0.
   */
  function LinesOf(t: Doc, depth: nat, order: KeyOrder): (ls: seq<Line>)
    ensures ls != []
    decreases t, 1
  {
    if t.kind.Text? then [Line(depth, t.payload)]
    else
      (if t.kind.Document? then [Line(0, Doctype)] else [])
      + if t.kids == [] then [Line(depth, OpenTag(t, order) + "/>")]
        else [Line(depth, OpenTag(t, order) + ">")] + LinesAll(t.kids, depth + 1, order) + [Line(depth, CloseTag(t))]
  }

  function LinesAll(ts: seq<Doc>, depth: nat, order: KeyOrder): (ls: seq<Line>)
    ensures ts != [] ==> ls != []
    decreases ts, 0
  {
    if ts == [] then [] else LinesOf(ts[0], depth, order) + LinesAll(ts[1..], depth, order)
  }

  lemma {:induction false} JoinAppend(a: seq<Line>, b: seq<Line>)
    requires a != [] && b != []
    ensures Join(a + b) == Join(a) + "\n" + Join(b)
    decreases |a|
  {
    if |a| > 1 {
      assert (a + b)[1..] == a[1..] + b;
      JoinAppend(a[1..], b);
    }
  }

  /** An opening line, some lines, a closing line. */
  lemma JoinWrap(o: Line, inner: seq<Line>, c: Line)
    requires inner != []
    ensures Join([o] + inner + [c]) == Show(o) + "\n" + Join(inner) + "\n" + Show(c)
  {
    JoinAppend(inner, [c]);
    JoinAppend([o], inner + [c]);
    assert [o] + inner + [c] == [o] + (inner + [c]);
  }

  lemma Regroup(I: string, O: string, P: string, C: string)
    ensures (I + (O + ">")) + "\n" + P + "\n" + (I + C) == I + O + (">\n" + (P + "\n") + I + C)
  {
  }

  lemma Regroup4(a: string, b: string, c: string, d: string)
    ensures a + b + c + d == a + (b + c + d)
  {
  }

  /** The serialisation is the lines of `LinesOf`, joined by newlines. */
  lemma {:induction false} PrintIsLines(t: Doc, depth: nat, order: KeyOrder)
    ensures Print(t, depth, order) == Join(LinesOf(t, depth, order))
    decreases t, 1
  {
    if !t.kind.Text? {
      if t.kids != [] {
        PrintAllIsLines(t.kids, depth + 1, order);
      }
      Wrapped(t, depth, order);
      Prefixed(t, depth, order);
    }
  }

  /** An element's own lines, around those of its children, print as its tags around its children. */
  lemma Wrapped(t: Doc, depth: nat, order: KeyOrder)
    requires !t.kind.Text?
    requires t.kids != [] ==> PrintAll(t.kids, depth + 1, order) == Join(LinesAll(t.kids, depth + 1, order)) + "\n"
    ensures var O := OpenTag(t, order);
      Join(if t.kids == [] then [Line(depth, O + "/>")]
        else [Line(depth, O + ">")] + LinesAll(t.kids, depth + 1, order) + [Line(depth, CloseTag(t))])
      == Indent(depth) + O + if t.kids == [] then "/>"
        else ">\n" + PrintAll(t.kids, depth + 1, order) + Indent(depth) + CloseTag(t)
  {
    if t.kids != [] {
      var I, O, C := Indent(depth), OpenTag(t, order), CloseTag(t);
      var inner := LinesAll(t.kids, depth + 1, order);
      JoinWrap(Line(depth, O + ">"), inner, Line(depth, C));
      Regroup(I, O, Join(inner), C);
    }
  }

  /** The doctype line of a document comes first in both forms. */
  lemma Prefixed(t: Doc, depth: nat, order: KeyOrder)
    requires !t.kind.Text?
    requires var O := OpenTag(t, order);
      Join(if t.kids == [] then [Line(depth, O + "/>")]
        else [Line(depth, O + ">")] + LinesAll(t.kids, depth + 1, order) + [Line(depth, CloseTag(t))])
      == Indent(depth) + O + if t.kids == [] then "/>"
        else ">\n" + PrintAll(t.kids, depth + 1, order) + Indent(depth) + CloseTag(t)
    ensures Print(t, depth, order) == Join(LinesOf(t, depth, order))
  {
    var I, O, C := Indent(depth), OpenTag(t, order), CloseTag(t);
    var body := if t.kids == [] then [Line(depth, O + "/>")]
      else [Line(depth, O + ">")] + LinesAll(t.kids, depth + 1, order) + [Line(depth, C)];
    var rest := if t.kids == [] then "/>" else ">\n" + PrintAll(t.kids, depth + 1, order) + I + C;
    assert LinesOf(t, depth, order) == (if t.kind.Document? then [Line(0, Doctype)] else []) + body;
    if t.kind.Document? {
      JoinAppend([Line(0, Doctype)], body);
      assert Show(Line(0, Doctype)) == Doctype;
      Regroup4(Doctype + "\n", I, O, rest);
    } else {
      assert [] + body == body;
      Regroup4("", I, O, rest);
    }
  }

  /** The children's part: the lines of all subtrees, with a newline after the last. */
  lemma {:induction false} PrintAllIsLines(ts: seq<Doc>, depth: nat, order: KeyOrder)
    ensures PrintAll(ts, depth, order) == if ts == [] then "" else Join(LinesAll(ts, depth, order)) + "\n"
    decreases ts, 0
  {
    if ts != [] {
      var head, tail := LinesOf(ts[0], depth, order), LinesAll(ts[1..], depth, order);
      assert LinesAll(ts, depth, order) == head + tail;
      PrintIsLines(ts[0], depth, order);
      PrintAllIsLines(ts[1..], depth, order);
      if ts[1..] != [] {
        JoinAppend(head, tail);
      } else {
        assert head + tail == head;
      }
    }
  }

  /** `text()` of an element is the lines of its children at depth 0, each ended by a newline. */
  lemma TextIsChildLines(t: Doc, order: KeyOrder)
    requires !t.kind.Text?
    ensures TextOf(t, order) == if t.kids == [] then "" else Join(LinesAll(t.kids, 0, order)) + "\n"
  {
    PrintAllIsLines(t.kids, 0, order);
  }

  // ---------------------------------------------------------------------
  // Clones print like their originals

  /** No document occurs in `t`. */
  predicate NoDocument(t: Doc)
    decreases t
  {
    !t.kind.Document? && forall i | 0 <= i < |t.kids| :: NoDocument(t.kids[i])
  }

  /**
   * `order` and `copyOrder` list the keys of every attribute map in `t`
   * alike.  A clone copy-assigns each map (html_node.cpp:181), and nothing
   * makes the copy iterate in the original's order: the clone's order is a
   * parameter of its own.
   */
  ghost predicate SameOrders(t: Doc, order: KeyOrder, copyOrder: KeyOrder)
    decreases t
  {
    && order(t.attrs) == copyOrder(t.attrs)
    && forall i | 0 <= i < |t.kids| :: SameOrders(t.kids[i], order, copyOrder)
  }

  /**
   * A clone serialises exactly as the subtree it was made from, when that
   * holds no document and the clone's maps iterate in the original's order.
   */
  lemma {:induction false} ClonePrintsAlike(t: Doc, depth: nat, order: KeyOrder, copyOrder: KeyOrder)
    requires NoDocument(t) && SameOrders(t, order, copyOrder)
    ensures Print(Copy(t), depth, copyOrder) == Print(t, depth, order)
    decreases t, 1
  {
    if !t.kind.Text? {
      ClonesPrintAlike(t.kids, depth + 1, order, copyOrder);
    }
  }

  lemma {:induction false} ClonesPrintAlike(ts: seq<Doc>, depth: nat, order: KeyOrder, copyOrder: KeyOrder)
    requires forall i | 0 <= i < |ts| :: NoDocument(ts[i]) && SameOrders(ts[i], order, copyOrder)
    ensures PrintAll(Copies(ts), depth, copyOrder) == PrintAll(ts, depth, order)
    decreases ts, 0
  {
    if ts != [] {
      ClonePrintsAlike(ts[0], depth, order, copyOrder);
      ClonesPrintAlike(ts[1..], depth, order, copyOrder);
    }
  }

  /**
   * A clone of a document is a plain `html` element (clone() is not
   * overridden by Dom, dom.h): it prints without the doctype line.
   */
  lemma CloneDropsDoctype(t: Doc, depth: nat, order: KeyOrder, copyOrder: KeyOrder)
    requires t.kind.Document? && SameOrders(t, order, copyOrder)
    requires forall i | 0 <= i < |t.kids| :: NoDocument(t.kids[i])
    ensures Print(t, depth, order) == Doctype + "\n" + Print(Copy(t), depth, copyOrder)
  {
    ClonesPrintAlike(t.kids, depth + 1, order, copyOrder);
    var c := Copy(t);
    assert OpenTag(c, copyOrder) == OpenTag(t, order);
    var rest := if t.kids == [] then "/>"
      else ">\n" + PrintAll(t.kids, depth + 1, order) + Indent(depth) + CloseTag(t);
    assert Print(c, depth, copyOrder) == "" + Indent(depth) + OpenTag(t, order) + rest;
    assert Print(t, depth, order) == Doctype + "\n" + Indent(depth) + OpenTag(t, order) + rest;
    Regroup4(Doctype + "\n", Indent(depth), OpenTag(t, order), rest);
  }

  // ---------------------------------------------------------------------
  // Walking the links

  lemma PrintAllSnoc(ts: seq<Doc>, t: Doc, depth: nat, order: KeyOrder)
    ensures PrintAll(ts + [t], depth, order) == PrintAll(ts, depth, order) + Print(t, depth, order) + "\n"
  {
    if ts != [] {
      assert (ts + [t])[1..] == ts[1..] + [t];
      PrintAllSnoc(ts[1..], t, depth, order);
      var a, b, c := Print(ts[0], depth, order), PrintAll(ts[1..], depth, order), Print(t, depth, order);
      assert PrintAll(ts + [t], depth, order) == a + "\n" + (b + c + "\n");
      Regroup4(a + "\n", b, c, "\n");
    }
  }

  /** `serialize(depth)` of the node `x` (html_node.cpp:75-95, text_node.cpp:9-12, dom.cpp:14-18). */
  method Serialize(ghost F: Forest, ghost A: Table, x: Node, depth: nat, order: KeyOrder) returns (s: string)
    requires Valid(F) && x in F.nodes && Tabled(F.nodes, A)
    requires EachKeyOnce(order)
    ensures s == Print(Snap(F, A, x), depth, order)
    decreases Below(F, x), 1
  {
    var indent := Indent(depth);
    if x.kind.Text? {
      return indent + x.payload;
    }
    var open := "<" + x.tag + AttrText(x.attrs, order(x.attrs));
    var rest;
    if x.firstChild == null {
      rest := "/>";
    } else {
      var inner := SerializeChildren(F, A, x, depth + 1, order);
      rest := ">\n" + inner + indent + "</" + x.tag + ">";
    }
    var pre := if x.kind.Document? then Doctype + "\n" else "";
    s := pre + indent + open + rest;
    SnapParts(F, A, x);
  }

  /** The snapshot of an element carries its kind, tag and attributes, and has children when the node has a first child. */
  lemma SnapParts(F: Forest, A: Table, x: Node)
    requires Valid(F) && x in F.nodes && Tabled(F.nodes, A)
    ensures var t := Snap(F, A, x);
      && t.kind == x.kind && t.tag == x.tag && t.attrs == x.attrs && t.payload == x.payload
      && t.kids == SnapAll(F, A, x, F.kids[x]) && (t.kids == [] <==> x.firstChild == null)
  {
    KidsOf(F, x);
    SnapAllLength(F, A, x, F.kids[x]);
  }

  /** The children of `x`, each serialised at `depth` and followed by a newline (html_node.cpp:87-91, 103-107). */
  method SerializeChildren(ghost F: Forest, ghost A: Table, x: Node, depth: nat, order: KeyOrder) returns (s: string)
    requires Valid(F) && x in F.nodes && Tabled(F.nodes, A)
    requires EachKeyOnce(order)
    ensures s == PrintAll(SnapAll(F, A, x, F.kids[x]), depth, order)
    decreases Below(F, x), 0
  {
    KidsOf(F, x);
    ghost var cs := F.kids[x];
    s := "";
    var node := x.firstChild;
    ghost var k := 0;
    while node != null
      invariant k <= |cs| && node == (if k < |cs| then cs[k] else null)
      invariant s == PrintAll(SnapAll(F, A, x, cs[..k]), depth, order)
      decreases |cs| - k
    {
      BelowShrinks(F, x, node);
      var line := Serialize(F, A, node, depth, order);
      PrintOneMore(F, A, x, cs, k, depth, order);
      s := s + line + "\n";
      node := node.next;
      k := k + 1;
    }
    assert cs[..k] == cs;
  }

  /** The children up to `cs[k]` print as those before it, then the subtree of `cs[k]` and a newline. */
  lemma PrintOneMore(F: Forest, A: Table, x: Node, cs: seq<Node>, k: nat, depth: nat, order: KeyOrder)
    requires Wf(F) && x in F.nodes && cs == F.kids[x] && k < |cs|
    ensures PrintAll(SnapAll(F, A, x, cs[..k + 1]), depth, order)
      == PrintAll(SnapAll(F, A, x, cs[..k]), depth, order) + Print(Snap(F, A, cs[k]), depth, order) + "\n"
  {
    KidsOf(F, x);
    assert cs[..k + 1] == cs[..k] + [cs[k]];
    SnapAllSnoc(F, A, x, cs[..k], cs[k]);
    PrintAllSnoc(SnapAll(F, A, x, cs[..k]), Snap(F, A, cs[k]), depth, order);
  }

  /** `text()` of the node `x` (html_node.cpp:100-109, text_node.cpp:13-16). */
  method Text(ghost F: Forest, ghost A: Table, x: Node, order: KeyOrder) returns (s: string)
    requires Valid(F) && x in F.nodes && Tabled(F.nodes, A)
    requires EachKeyOnce(order)
    ensures s == TextOf(Snap(F, A, x), order)
  {
    if x.kind.Text? {
      return x.payload;
    }
    s := SerializeChildren(F, A, x, 0, order);
  }
}
