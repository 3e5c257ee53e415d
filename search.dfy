/**
 * The searches of html_node.cpp:126-177 and text_node.cpp:27-38.
 *
 * `Found` is the specification shared by getElementsByTagName and
 * getElementsByClassName: a matching node is returned alone, otherwise the
 * results of the children are concatenated in order.  `ElementById` follows
 * getElementById: the node itself when its `id` matches, otherwise the first
 * non-null result of the children.  Both are proved sound, complete and
 * maximal, and the two are tied together: the id search returns the head of
 * the general search.  The methods walk the links as the source does.
 */
module Search {
  import opened Tree

  /** The three kinds of search an element answers. */
  datatype Query = ById(id: string) | ByTag(tag: string) | ByClass(name: string)

  /** Does `x` itself answer `q`?  A text node never does. */
  predicate Matches(x: Node, q: Query)
    reads x`attrs
  {
    !x.kind.Text? &&
    match q
    case ById(id) => "id" in x.attrs && x.attrs["id"] == id
    case ByTag(t) => x.tag == t
    case ByClass(c) => "class" in x.attrs && x.attrs["class"] == c
  }

  // ---------------------------------------------------------------------
  // The specifications

  /**
   * getElementsByTagName / getElementsByClassName (html_node.cpp:141-177,
   * text_node.cpp:31-38): a match is returned alone, otherwise the
   * children's results follow each other in order.
   */
  ghost function Found(F: Forest, x: Node, q: Query): seq<Node>
    requires Wf(F) && x in F.nodes
    reads F.nodes`attrs
    decreases Below(F, x), 1, 0
  {
    if x.kind.Text? then []
    else if Matches(x, q) then [x]
    else KidsOf(F, x); FoundAll(F, x, F.kids[x], q)
  }

  /** The concatenated results of the nodes `cs`, all of them below `x`. */
  ghost function FoundAll(F: Forest, x: Node, cs: seq<Node>, q: Query): seq<Node>
    requires Wf(F) && x in F.nodes
    requires forall c | c in cs :: c in F.nodes && F.level[x] < F.level[c]
    reads F.nodes`attrs
    decreases Below(F, x), 0, |cs|
  {
    if cs == [] then []
    else
      BelowShrinks(F, x, cs[0]);
      Found(F, cs[0], q) + FoundAll(F, x, cs[1..], q)
  }

  /** getElementById (html_node.cpp:126-140, text_node.cpp:27-30). */
  ghost function ElementById(F: Forest, x: Node, id: string): Node?
    requires Wf(F) && x in F.nodes
    reads F.nodes`attrs
    decreases Below(F, x), 1, 0
  {
    if x.kind.Text? then null
    else if Matches(x, ById(id)) then x
    else KidsOf(F, x); FirstById(F, x, F.kids[x], id)
  }

  /** The first non-null result among the nodes `cs`, all of them below `x`. */
  ghost function FirstById(F: Forest, x: Node, cs: seq<Node>, id: string): Node?
    requires Wf(F) && x in F.nodes
    requires forall c | c in cs :: c in F.nodes && F.level[x] < F.level[c]
    reads F.nodes`attrs
    decreases Below(F, x), 0, |cs|
  {
    if cs == [] then null
    else
      BelowShrinks(F, x, cs[0]);
      var r := ElementById(F, cs[0], id);
      if r != null then r else FirstById(F, x, cs[1..], id)
  }

  ghost function Head(s: seq<Node>): Node?
  {
    if s == [] then null else s[0]
  }

  // ---------------------------------------------------------------------
  // What the searches return

  /** No node strictly between `x` and `z` (`x` included) answers `q`. */
  ghost predicate Topmost(F: Forest, x: Node, z: Node, q: Query)
    requires Wf(F) && x in F.nodes && z in F.nodes
    reads F.nodes`attrs
  {
    forall w | w in F.nodes && w != z && Under(F, x, w) && Under(F, w, z) :: !Matches(w, q)
  }

  /**
   * Soundness: every result is a node at or below `x` that answers `q`,
   * and the search did not pass a match on the way down to it.
   */
  lemma {:induction false} FoundSound(F: Forest, x: Node, q: Query, z: Node)
    requires Wf(F) && x in F.nodes && z in Found(F, x, q)
    ensures z in F.nodes && Matches(z, q) && Under(F, x, z) && Topmost(F, x, z, q)
    decreases Below(F, x), 1, 0
  {
    if Matches(x, q) {
      forall w | w in F.nodes && w != x && Under(F, x, w)
        ensures !Under(F, w, x)
      {
        UnderAntisym(F, w, x);
      }
    } else if !x.kind.Text? {
      KidsOf(F, x);
      var i := FoundAllSound(F, x, F.kids[x], q, z);
      var c := F.kids[x][i];
      UnderParent(F, c, z);
      forall w | w in F.nodes && w != z && Under(F, x, w) && Under(F, w, z)
        ensures !Matches(w, q)
      {
        if w != x {
          UnderLinear(F, c, w, z);
          UnderAntisym(F, w, x);
        }
      }
    }
  }

  /** A result of the concatenation comes from one of the nodes `cs`. */
  lemma {:induction false} FoundAllSound(F: Forest, x: Node, cs: seq<Node>, q: Query, z: Node) returns (i: nat)
    requires Wf(F) && x in F.nodes
    requires forall c | c in cs :: c in F.nodes && F.level[x] < F.level[c]
    requires z in FoundAll(F, x, cs, q)
    ensures i < |cs| && z in F.nodes && Matches(z, q) && Under(F, cs[i], z) && Topmost(F, cs[i], z, q)
    decreases Below(F, x), 0, |cs|
  {
    BelowShrinks(F, x, cs[0]);
    if z in Found(F, cs[0], q) {
      FoundSound(F, cs[0], q, z);
      i := 0;
    } else {
      i := FoundAllSound(F, x, cs[1..], q, z);
      i := i + 1;
    }
  }

  /** Completeness: every match at or below `x` lies at or below some result. */
  lemma {:induction false} FoundComplete(F: Forest, x: Node, q: Query, y: Node) returns (z: Node)
    requires Wf(F) && x in F.nodes && y in F.nodes && Under(F, x, y) && Matches(y, q)
    ensures z in Found(F, x, q) && Under(F, z, y)
    decreases Below(F, x), 1, 0
  {
    if Matches(x, q) {
      z := x;
    } else {
      var i := UnderSomeKid(F, x, y);
      KidsOf(F, x);
      z := FoundAllComplete(F, x, F.kids[x], q, i, y);
    }
  }

  lemma {:induction false} FoundAllComplete(F: Forest, x: Node, cs: seq<Node>, q: Query, i: nat, y: Node) returns (z: Node)
    requires Wf(F) && x in F.nodes
    requires forall c | c in cs :: c in F.nodes && F.level[x] < F.level[c]
    requires i < |cs| && y in F.nodes && Under(F, cs[i], y) && Matches(y, q)
    ensures z in FoundAll(F, x, cs, q) && Under(F, z, y)
    decreases Below(F, x), 0, |cs|
  {
    BelowShrinks(F, x, cs[0]);
    if i == 0 {
      z := FoundComplete(F, cs[0], q, y);
    } else {
      z := FoundAllComplete(F, x, cs[1..], q, i - 1, y);
    }
  }

  /** The search comes back empty exactly when nothing at or below `x` answers `q`. */
  lemma FoundEmpty(F: Forest, x: Node, q: Query)
    requires Wf(F) && x in F.nodes
    ensures Found(F, x, q) == [] <==> forall y | y in F.nodes && Under(F, x, y) :: !Matches(y, q)
  {
    if Found(F, x, q) != [] {
      FoundSound(F, x, q, Found(F, x, q)[0]);
    }
    forall y | y in F.nodes && Under(F, x, y) && Matches(y, q)
      ensures Found(F, x, q) != []
    {
      var z := FoundComplete(F, x, q, y);
    }
  }

  /** getElementById returns the first node the general search returns for the `id` query. */
  lemma {:induction false} ByIdIsFirstFound(F: Forest, x: Node, id: string)
    requires Wf(F) && x in F.nodes
    ensures ElementById(F, x, id) == Head(Found(F, x, ById(id)))
    decreases Below(F, x), 1, 0
  {
    if !x.kind.Text? && !Matches(x, ById(id)) {
      KidsOf(F, x);
      FirstByIdIsFirstFound(F, x, F.kids[x], id);
    }
  }

  lemma {:induction false} FirstByIdIsFirstFound(F: Forest, x: Node, cs: seq<Node>, id: string)
    requires Wf(F) && x in F.nodes
    requires forall c | c in cs :: c in F.nodes && F.level[x] < F.level[c]
    ensures FirstById(F, x, cs, id) == Head(FoundAll(F, x, cs, ById(id)))
    decreases Below(F, x), 0, |cs|
  {
    if cs != [] {
      BelowShrinks(F, x, cs[0]);
      ByIdIsFirstFound(F, cs[0], id);
      FirstByIdIsFirstFound(F, x, cs[1..], id);
    }
  }

  /** So getElementById finds a matching node at or below `x` exactly when there is one. */
  lemma ElementByIdSpec(F: Forest, x: Node, id: string)
    requires Wf(F) && x in F.nodes
    ensures var r := ElementById(F, x, id);
      && (r != null ==> r in F.nodes && Matches(r, ById(id)) && Under(F, x, r))
      && (r == null <==> forall y | y in F.nodes && Under(F, x, y) :: !Matches(y, ById(id)))
  {
    ByIdIsFirstFound(F, x, id);
    FoundEmpty(F, x, ById(id));
    if Found(F, x, ById(id)) != [] {
      FoundSound(F, x, ById(id), Found(F, x, ById(id))[0]);
    }
  }

  // ---------------------------------------------------------------------
  // The searches, walking the links

  lemma FoundAllSnoc(F: Forest, x: Node, cs: seq<Node>, q: Query, k: nat)
    requires Wf(F) && x in F.nodes
    requires forall c | c in cs :: c in F.nodes && F.level[x] < F.level[c]
    requires k < |cs|
    ensures FoundAll(F, x, cs[..k + 1], q) == FoundAll(F, x, cs[..k], q) + Found(F, cs[k], q)
  {
    if k > 0 {
      assert cs[..k + 1][1..] == cs[1..][..k];
      assert cs[..k][1..] == cs[1..][..k - 1];
      FoundAllSnoc(F, x, cs[1..], q, k - 1);
    } else {
      assert cs[..1][1..] == [];
    }
  }

  /** getElementsByTagName and getElementsByClassName (html_node.cpp:141-177). */
  method Select(ghost F: Forest, x: Node, q: Query) returns (r: seq<Node>)
    requires Valid(F) && x in F.nodes
    ensures r == Found(F, x, q)
    decreases Below(F, x)
  {
    if x.kind.Text? || Matches(x, q) {
      return if x.kind.Text? then [] else [x];
    }
    KidsOf(F, x);
    ghost var cs := F.kids[x];
    r := [];
    var node := x.firstChild;
    ghost var k := 0;
    while node != null
      invariant k <= |cs| && node == (if k < |cs| then cs[k] else null)
      invariant r == FoundAll(F, x, cs[..k], q)
      decreases |cs| - k
    {
      BelowShrinks(F, x, node);
      var found := Select(F, node, q);
      FoundAllSnoc(F, x, cs, q, k);
      r := r + found;
      node := node.next;
      k := k + 1;
    }
    assert cs[..k] == cs;
  }

  /** getElementById (html_node.cpp:126-140). */
  method GetElementById(ghost F: Forest, x: Node, id: string) returns (r: Node?)
    requires Valid(F) && x in F.nodes
    ensures r == ElementById(F, x, id)
    decreases Below(F, x)
  {
    if x.kind.Text? {
      return null;
    }
    if "id" in x.attrs && x.attrs["id"] == id {
      return x;
    }
    KidsOf(F, x);
    ghost var cs := F.kids[x];
    var node := x.firstChild;
    ghost var k := 0;
    while node != null
      invariant k <= |cs| && node == (if k < |cs| then cs[k] else null)
      invariant ElementById(F, x, id) == FirstById(F, x, cs[k..], id)
      decreases |cs| - k
    {
      BelowShrinks(F, x, node);
      var found := GetElementById(F, node, id);
      assert cs[k..][1..] == cs[k + 1..];
      if found != null {
        return found;
      }
      node := node.next;
      k := k + 1;
    }
    return null;
  }
}
