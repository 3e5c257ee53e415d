# seequery core, modelled in Dafny

seequery is a small C++ library that builds and queries HTML documents in
the manner of jQuery. The model covers its core:

- **The node tree** (`core/node.h`, `core/node.cpp`). Every node holds four
  links: `parent_`, `next_sibling_`, `prev_sibling_` and `first_child_`. A
  chain's first node keeps the chain's last node in its `prev_sibling_`, so
  that appending is cheap. `detach()`, `nextSibling(s)`, `prevSibling(s)`,
  `firstSibling(s)` and `lastSibling(s)` splice nodes in and out of these
  chains.
- **Elements, text nodes and the document** (`core/html_node.cpp`,
  `core/text_node.cpp`, `core/dom.cpp`). These cover attributes, `append` and
  `prepend`, deep copy, searches by id, tag and class, and serialisation with
  two spaces of indentation per level. The document prints a doctype line
  first.
- **Collections** (`core/collection.cpp`). A collection is a handle on a list
  of nodes. A static table, `root_count`, counts how many captures each tree
  root has. When the count of a parentless root drops to zero, its tree is
  deleted. The handles fan nodes out to other nodes (`append`, `prepend`,
  `after`, `before`), move them out (`remove`), query them and read or set
  their attributes.

## How it is built

- `tree.dfy` (module `Tree`): the `Node` class with the four links as
  mutable fields.
  - Its methods are the operations of `node.cpp`.
  - They are proved against a ghost `Forest` value. For every node it holds
    the parent, the sibling chain, the index in that chain, the children and
    a rank that gives termination.
  - `Valid(F)` ties the heap's links to `F`. Every splice returns the new
    forest and proves it equal to a pure function of the old one
    (`Detached`, `Inserted`, `Appended`, `Prepended`).
- `html.dfy`, `clone.dfy`, `grafts.dfy`, `dom.dfy`: the element operations,
  deep copy, copy-assignment and the new document.
- `snapshot.dfy` reads a subtree as a `Doc` value. `render.dfy` prints that
  value; `search.dfy` searches the forest.
- `ownership.dfy` holds the `root_count` table and its `Registry` class. The
  registry records the set of nodes deleted so far as `released`.
- `collection.dfy` holds the `Collection` class, plus the invariant
  `Accounts`: the table counts exactly the roots of all live captures.
  `moves.dfy` and `fanout.dfy` hold the two loops of the fan-outs and of
  `remove()`.
- `placement.dfy` (module `Placements`) says where the moved nodes end up
  at the last target, and in which order: `append` and `before` keep the
  handle's order, `prepend` and `after` reverse it.
- `findings.dfy` (module `RawLinks`) models the splices exactly as written,
  on a plain map of links. Its lemmas exhibit the defects listed under
  "## Findings".

## Model

| member | source | states |
|---|---|---|
| Tree.Node.constructor | core/node.h:59-63 | a new node has no parent, no next sibling and no child, and its back-link points to itself |
| Tree.Node.NextSibling | core/node.cpp:42-45 | null exactly at the end of the chain, otherwise the node after this one in its chain |
| Tree.Node.PrevSibling | core/node.cpp:66-72 | null exactly for the head (whose stored back-link points at the tail), otherwise the node before this one |
| Tree.Node.FirstSibling | core/node.cpp:93-105 | the head of this node's chain |
| Tree.Node.LastSibling | core/node.cpp:117-128 | the tail of this node's chain, which has no next sibling |
| Tree.Node.IsFirst | core/node.cpp:152-156 | true exactly when this node heads its chain |
| Tree.Node.IsLast | core/node.cpp:157-160 | true exactly when this node ends its chain |
| Tree.Node.LastChild | core/node.cpp:148-151 | for a node with children, the last child, reached through the first child's back-link |
| Tree.Node.GetChildren | core/node.cpp:24-33 | the children of the node, in order |
| Tree.Node.Detach | core/node.cpp:161-187 | the node is cut out of its chain, every link stays consistent (including the head's back-link), and the node is left standalone |
| Tree.Node.InsertAfter | core/node.cpp:46-65 | null does nothing; otherwise `s` is detached and inserted right after this node, in this node's chain and under this node's parent |
| Tree.Node.InsertBefore | core/node.cpp:73-92 | null does nothing; otherwise `s` is detached and inserted right before this node |
| Tree.Node.InsertFirstSibling | core/node.cpp:112-116 | `s` becomes the head of this node's chain; nothing changes when it already is the head |
| Tree.Node.InsertLastSibling | core/node.cpp:135-139 | `s` becomes the tail of this node's chain; nothing changes when it already is the tail |
| Tree.DetachStandalone | core/node.cpp:161-187 | detaching a parentless node without siblings changes nothing |
| Tree.DetachedKids | core/node.cpp:161-187 | detaching takes the node out of its parent's children at its index and changes no other children list |
| Tree.ReinsertDetached | core/node.cpp:161-187 | inserting a detached node back at its old index restores the forest's shape |
| Tree.DetachInserted | core/node.cpp:46-92 | detaching a node just inserted restores the forest's shape |
| Tree.InsertedKids | core/node.cpp:46-92 | inserting next to a child puts the node at that index of the parent's children, under the same parent |
| Tree.RemoveInsertAt | core/node.cpp:46-92 | inserting into a chain at an index and removing that index gives back the chain |
| Tree.InsertAtRemove | core/node.cpp:161-187 | removing a chain element and inserting it again at its index gives back the chain |
| Tree.AppendedKids | core/html_node.cpp:45-57 | appending makes the node the last child, after the old children in their order |
| Tree.AppendedAfterLast | core/html_node.cpp:52-55 | appending to a parent with children is inserting after its last child |
| Tree.PrependedKids | core/html_node.cpp:58-70 | prepending makes the node the first child, before the old children in their order |
| Tree.PrependedBeforeFirst | core/html_node.cpp:66-68 | prepending to a parent with children is inserting before its first child |
| Tree.MergeValid | core/collection.cpp:149-154 | a new element's forest and the caller's forest, on disjoint nodes, form one valid forest that extends both |
| Html.Append | core/html_node.cpp:45-57 | on a text node nothing changes (text_node.cpp:43-47); otherwise the child is detached and becomes the last child |
| Html.Prepend | core/html_node.cpp:58-70 | on a text node nothing changes (text_node.cpp:48-52); otherwise the child is detached and becomes the first child |
| Html.AppendMoves | core/html_node.cpp:45-57 | after append, the child's old parent loses it at its index, the new parent ends with it, and every other children list is unchanged |
| Html.PrependMoves | core/html_node.cpp:58-70 | the same for prepend, with the child first |
| Html.NewElement | core/html_node.cpp:8-20 | a new element whose attributes are the non-`text` arguments and whose children are one text node per `text` argument, in order |
| Html.FirstValueWins | core/html_node.cpp:12-19 | a key is an attribute exactly when some non-`text` argument has it, and its value is the first such argument's value |
| Html.AddAttribute | core/html_node.cpp:71-74 | the pair is inserted unless the key is already present |
| Html.AttrRoundTrip | core/html_node.cpp:71-74 | insertion keeps an existing value, adds a missing one and leaves every other key as it was |
| Html.SetAttr | core/html_node.cpp:122-125 | an element's attribute is overwritten, a text node ignores the call (text_node.cpp:25-26), and reading any other key is unchanged |
| Cloning.Clone | core/html_node.cpp:178-188 | the clone is a fresh tree whose snapshot is the copy of the original's (a text node copies its payload; an element or document becomes an element with the same tag, attributes and cloned children), and the original is untouched |
| Cloning.CopyElement | core/html_node.cpp:180-187 | a fresh element with the given tag and attributes, whose children are the clones of the original's children in order |
| Grafts.CopyOf | core/html_node.cpp:21-32 | the copy constructor gives a fresh element with the same tag, no attributes and clones of the children |
| Grafts.Assign | core/html_node.cpp:33-44 | self-assignment changes nothing; otherwise clones of the source's children are added after the target's own children, and the source is unchanged |
| Snapshot.CopyIdempotent | core/html_node.cpp:178-188 | cloning a clone gives the same tree as cloning once |
| Snapshot.SnapFrame | core/html_node.cpp:75-95 | a subtree's value depends only on the children and attributes at or below its root |
| Render.Serialize | core/html_node.cpp:75-95 | `serialize(depth)` returns the printed form of the node's subtree (text: indented payload; element: open tag, children one level deeper, close tag or `/>`; document: doctype line first) |
| Render.SerializeChildren | core/html_node.cpp:87-91 | the children, each serialised one level deeper and followed by a newline |
| Render.Text | core/html_node.cpp:100-109 | `text()` of an element is its children serialised at depth 0, each followed by a newline; of a text node, its payload |
| Render.PrintIsLines | core/html_node.cpp:75-95 | the printed form of a subtree is its lines joined by newlines, a child's lines indented one level more |
| Render.TextIsChildLines | core/html_node.cpp:100-109 | `text()` of an element is the lines of its children at depth 0, each ended by a newline |
| Render.ClonePrintsAlike | core/html_node.cpp:178-188 | a clone of a subtree holding no document prints the same as the original at every depth, provided the clone's copied attribute maps iterate in the original's order (`SameOrders`) |
| Render.CloneDropsDoctype | core/dom.cpp:14-18 | a document prints as the doctype line followed by how its clone prints, since the clone is a plain element, under the same `SameOrders` proviso |
| Render.ListedOnce | core/html_node.cpp:80-82 | an iteration order that lists each key of the attribute map once lists exactly as many keys as the map holds |
| Render.Indent | core/text_node.cpp:9-12 | the indentation is `depth * 2` spaces |
| Search.Select | core/html_node.cpp:141-177 | getElementsByTagName and getElementsByClassName return `Found`: the node itself if it matches, otherwise the children's results concatenated in order |
| Search.GetElementById | core/html_node.cpp:126-140 | getElementById returns the node if its `id` matches, otherwise the first child result that is not null |
| Search.FoundSound | core/html_node.cpp:141-177 | everything found matches, lies at or below the start node, and has no matching ancestor between itself and the start |
| Search.FoundComplete | core/html_node.cpp:141-177 | every matching node below the start lies at or below a node that was found |
| Search.FoundEmpty | core/html_node.cpp:141-177 | nothing is found exactly when no node at or below the start matches |
| Search.ByIdIsFirstFound | core/html_node.cpp:126-140 | getElementById returns the first node the id query would find |
| Search.ElementByIdSpec | core/html_node.cpp:126-140 | the result, when not null, matches and lies below the start; it is null exactly when no node below matches |
| Documents.NewDom | core/dom.cpp:6-12 | a new parentless document tagged `html` with exactly two children, whose snapshot is `html` holding an empty `head` and an empty `body` |
| Documents.BlankPrinted | core/dom.cpp:14-18 | a new document prints as the doctype, `<html>`, indented `<head/>` and `<body/>`, and `</html>` |
| Ownership.RootOf | core/collection.cpp:258-264 | the root is parentless and lies at or above the node |
| Ownership.GetRoot | core/collection.cpp:258-264 | the walk up the parent links returns the node's root |
| Ownership.SameRoot | core/collection.cpp:258-264 | every node below `x` has the root `x` has |
| Ownership.TreeOfRoot | core/collection.cpp:258-264 | the subtree of a parentless node is exactly the set of nodes whose root it is |
| Ownership.FreedTrees | core/node.cpp:5-23 | deleting a parentless node frees its tree and the tree of every node after it in its top-level chain |
| Ownership.IncrementOne | core/collection.cpp:242-245 | `++root_count[r]` raises r's count by one (from zero if missing) and changes no other count |
| Ownership.DecrementFrees | core/collection.cpp:246-257 | a root that has a parent loses its entry and is not deleted; otherwise the count drops by one and the root is deleted exactly when it reaches zero; a missing entry becomes -1 |
| Ownership.CaptureRelease | core/collection.cpp:242-257 | capturing a root and letting it go again leaves the table as it was |
| Ownership.TallyIncrement | core/collection.cpp:242-245 | a table counting a multiset of roots counts that multiset plus the new root after an increment |
| Ownership.TallyDecrement | core/collection.cpp:246-257 | after a decrement the table counts the multiset minus the root, and the root is deleted exactly when it was counted once |
| Ownership.CaptureDrop | core/collection.cpp:6-17 | capturing roots and letting the same roots go restores the table, and frees exactly the roots that were not counted before |
| Ownership.IncrementRoots | core/collection.cpp:238-245 | an increment adds one to `roots()` exactly when the root had no entry |
| Ownership.DecrementRoots | core/collection.cpp:238-257 | a decrement changes `roots()` by the entries it adds or erases |
| Ownership.CountedKeys | core/collection.cpp:231-235 | after capturing roots, the registered roots are the old ones plus the new roots |
| Ownership.DroppedTallies | core/collection.cpp:12-17 | letting go of captures removes their roots from the counted multiset and frees exactly the roots nothing else captures |
| Ownership.Registry.constructor | core/collection.cpp:266 | the table starts empty and nothing has been deleted |
| Ownership.Registry.Increment | core/collection.cpp:242-245 | the table becomes the incremented table |
| Ownership.Registry.Decrement | core/collection.cpp:246-257 | the table becomes the decremented table, and the root's tree (with its later top-level siblings) is added to the deleted nodes exactly when the root is deleted |
| Ownership.Registry.Roots | core/collection.cpp:238-241 | `roots()` is the number of entries in the table |
| Collections.Collection.constructor | core/collection.h:20 | a new handle captures nothing |
| Collections.Collection.PushBack | core/collection.cpp:231-235 | the node is appended to the entries and its root is counted once more |
| Collections.Collection.Copy | core/collection.cpp:6-11 | the copy captures the same nodes, and each of their roots is counted once more |
| Collections.Collection.Assign | core/collection.cpp:18-27 | self-assignment changes nothing; otherwise the other handle's nodes are appended and their roots counted |
| Collections.Collection.Destroy | core/collection.cpp:12-17 | every capture is let go: the table drops each entry's root, and the trees whose count reaches zero are deleted |
| Collections.Collection.Append | core/collection.cpp:36-58 | an empty handle does nothing; otherwise every entry but the last gains clones of the other handle's nodes as last children, the nodes themselves move to the last entry (where `Placements.FanOutLined` lines them up at the end of its children in the handle's order), and the table follows each move |
| Collections.Collection.Prepend | core/collection.cpp:59-81 | the same, as first children; each node goes in front of the one moved before it, so the moved nodes start the children in reverse order |
| Collections.Collection.After | core/collection.cpp:82-102 | the same, as next siblings; each node goes right after the entry, ahead of the one moved before it, so the moved nodes follow the entry in reverse order |
| Collections.Collection.Before | core/collection.cpp:103-123 | the same, as previous siblings; each node goes right before the entry, after the one moved before it, so the moved nodes precede the entry in the handle's order |
| Collections.Collection.Remove | core/collection.cpp:124-133 | as written: for each entry, its root is let go, then the entry is detached and counted as a root of its own |
| Collections.Collection.RemoveSafely | core/collection.cpp:124-133 | the corrected order: each entry is detached and counted before its old root is let go |
| Collections.Collection.Size | core/collection.cpp:134-137 | the number of entries |
| Collections.Collection.Serialize | core/collection.cpp:28-35 | every entry serialised at depth 0, each followed by a newline |
| Collections.Collection.Query | core/collection.cpp:162-189 | a new handle capturing, entry after entry, the first node with the id (`#id`) or every topmost node with the tag (`tag`) or class (`.class`), with their roots counted |
| Collections.Collection.Create | core/collection.cpp:149-154 | `<tag/>` gives a new handle capturing a new element built from the arguments, registered with count 1 |
| Collections.Collection.At | core/collection.cpp:196-205 | a new handle capturing entry `index` when it exists, else nothing |
| Collections.Collection.Children | core/collection.cpp:206-215 | a new handle capturing the children of every entry in turn |
| Collections.Collection.GetAttr | core/collection.cpp:216-222 | the empty string for an empty handle, otherwise the first entry's attribute |
| Collections.Collection.SetAttr | core/collection.cpp:223-229 | every element entry's attribute map becomes its old map with `key` set to `value` (the key is then present, even for the empty value); text entries keep their map and read the empty string; no other key changes |
| Collections.NewSeeQuery | core/collection.cpp:268-271 | a handle capturing a new blank document, registered with count 1 |
| Captures.QueriesKeepRoots | core/collection.cpp:162-215 | queries and `children()` capture nodes in trees already registered, so `roots()` is unchanged |
| Captures.AnswerBelow | core/collection.cpp:162-189 | what a query answers from an entry lies at or below it, in the entry's tree |
| Captures.CaptureAccounts | core/collection.cpp:231-235 | `push_back` keeps the invariant that the table counts exactly the roots of the live captures |
| Captures.DestroyAccounts | core/collection.cpp:12-17 | the destructor keeps that invariant for the other captures and frees none of them, when the captured roots are apart |
| Captures.FreedUncaptured | core/collection.cpp:246-257 | a root is freed only when it is a dropped root that no remaining capture counts |
| Moves.Put | core/node.cpp:46-92 | where the node is put, only its parent changes and the forest stays well formed |
| Moves.PutAt | core/html_node.cpp:45-70 | `append`, `prepend`, `nextSibling(s)` and `prevSibling(s)` at a target produce the forest `Put` describes |
| Moves.Spread | core/collection.cpp:49-55 | the last loop of a fan-out moves every source to the last target, and the table and deleted set follow `Shifted` |
| Moves.MovedAttached | core/collection.cpp:248-251 | a parentless source that gets a parent takes the attached branch of `decrement_root`: its entry is erased, its new root gains one, nothing is deleted |
| Moves.ShiftAccounts | core/collection.cpp:49-55 | the moves keep the table counting the captures' roots, when each source is captured once with no other capture below it |
| Moves.ShiftSpares | core/collection.cpp:49-55 | the moves to a target whose place has a parent delete no captured node and keep every captured root alone at the top level |
| Moves.Removed | core/collection.cpp:126-131 | the as-written step of `remove()` makes exactly the entry parentless |
| Moves.SweptCuts | core/collection.cpp:124-133 | `remove()` makes every entry parentless and changes no other parent |
| Moves.RemoveReleasesCaptured | core/collection.cpp:126-131 | as written, an entry whose root is counted once is deleted with its tree and then counted as a live root |
| Moves.RemoveSafe | core/collection.cpp:126-131 | as written, an entry whose root is counted more than once deletes nothing |
| Moves.UnhookAccounts | core/collection.cpp:126-131 | in the corrected order the detached entry counts as its own root and the table keeps counting every capture |
| Moves.UnhookSpares | core/collection.cpp:126-131 | in the corrected order a step deletes no captured node when no captured root follows the old root |
| Moves.Unhook | core/collection.cpp:127-130 | one pass of the corrected `remove()`: the heap and the table end as `Unhooked` says |
| Moves.RemoveSafelyAccounts | core/collection.cpp:124-133 | the corrected `remove()` keeps the table counting the captures' roots |
| Moves.RemoveSafelySpares | core/collection.cpp:124-133 | the corrected `remove()` deletes no captured node, when every captured root stands alone at the top level |
| Fanouts.FanOut | core/collection.cpp:36-123 | a fan-out results in the forest, table and deleted set that `FannedOut` describes |
| Fanouts.Clones | core/collection.cpp:44-48 | the first loop hangs one clone for every (earlier target, source) pair, row by row, and leaves the sources free to move to the last target |
| Fanouts.AimsAt | core/collection.cpp:44-48 | the clone of source `j` for target `i` is the `i * |sources| + j`-th one hung |
| Fanouts.ReplayKeeps | core/collection.cpp:44-48 | the first loop gives no existing node a new parent |
| Fanouts.ReplayKeepsRoots | core/collection.cpp:44-48 | every existing node keeps its root and its ancestors through the first loop |
| Fanouts.FanOutAccounts | core/collection.cpp:36-123 | a whole fan-out keeps the table counting the roots of the live captures |
| Fanouts.FanOutSpares | core/collection.cpp:36-123 | a fan-out whose targets all give a parent deletes no captured node and keeps the captured roots alone |
| Placements.Reversed | core/collection.cpp:73-79 | the `i`-th node of the reversal is the `i`-th from the end, and it has as many nodes |
| Placements.ReversedHolds | core/collection.cpp:73-79 | the reversal holds exactly the nodes of the sequence |
| Placements.ReversedSnoc | core/collection.cpp:73-79 | one more node at the end of the sequence comes first in its reversal |
| Placements.ArrangedSnoc | core/collection.cpp:50-56 | one more source joins the order of the sources moved before it: at the front for `prepend` and `after`, at the end for `append` and `before` |
| Placements.DetachedAt | core/node.cpp:51 | detaching `s` takes it out of the chain of another node `t` exactly when it shared that chain, and moves `t` one place down when it stood after `s` |
| Placements.DetachedKidsAt | core/html_node.cpp:48 | detaching `s` takes it out of the children of `t` exactly when `t` was its parent, and leaves them as they were otherwise |
| Placements.KidsLast | core/html_node.cpp:45-57 | appending makes the children of the target those it had after the detach, followed by the node |
| Placements.KidsFirst | core/html_node.cpp:58-70 | prepending makes the children of the target the node followed by those it had after the detach |
| Placements.ChainAfter | core/node.cpp:46-65 | `nextSibling(s)` inserts `s` into the target's chain, as it was after the detach, right after the target, which keeps its place |
| Placements.ChainBefore | core/node.cpp:73-92 | `prevSibling(s)` inserts `s` into the target's chain right ahead of the target, which moves one place up |
| Placements.PutLast | core/html_node.cpp:45-57 | appending a node that is not among the nodes ending the target's children puts it after them, at the very end |
| Placements.PutFirst | core/html_node.cpp:58-70 | prepending a node that is not among the nodes starting the target's children puts it in front of them |
| Placements.PutNext | core/node.cpp:46-65 | `nextSibling(s)` puts `s` right after the target, in front of the nodes that followed it |
| Placements.PutPrev | core/node.cpp:73-92 | `prevSibling(s)` puts `s` right before the target, after the nodes that preceded it |
| Placements.PutLined | core/html_node.cpp:45-70 | each of the four ways to put a node joins it to the block of nodes that way keeps next to the target, at the block's front for prepend and after, at its end otherwise |
| Placements.LinedNone | core/collection.cpp:50 | before any move, the empty block stands at every target |
| Placements.ShiftedLined | core/collection.cpp:50-56 | moving distinct sources one after the other to a target leaves them where the operation puts nodes, in the handle's order for `append` and `before` and reversed for `prepend` and `after` |
| Placements.ShiftedIgnored | core/text_node.cpp:43-52 | moving sources to be children of a text node changes nothing |
| Placements.FanOutLined | core/collection.cpp:36-123 | after a whole fan-out, the distinct sources stand at the last entry where the operation puts them, in the handle's order for `append` and `before` and reversed for `prepend` and `after` |
| RawLinks.Detach | core/node.cpp:161-187 | as written: keeps the node set and leaves the node parentless, without a next sibling and pointing back to itself |
| RawLinks.StaleBackLink | core/node.cpp:165-170 | as written, detaching the last of two children leaves the first child's back-link, and so `lastChild()`, on the detached node |
| RawLinks.AppendAfterDetachLoops | core/html_node.cpp:45-57 | as written, appending that detached node to the parent again links it after itself and leaves it parentless |
| RawLinks.FirstBeforeItself | core/node.cpp:112-116 | as written, `firstSibling(s)` with `s` the current head links `s` to itself and cuts it from its parent |
| RawLinks.LastAfterItself | core/node.cpp:135-139 | as written, `lastSibling(s)` with `s` the current tail links `s` to itself |
| RawLinks.DetachLoose | core/node.cpp:161-187 | detaching a node already standalone changes nothing |

## Left out

- The query parser (collection.cpp:141-148, 156-161, 190-194) is left out. It
  uses `std::regex`, which is not modelled. `Query` takes the already-parsed
  `#id` / tag / `.class` query instead, and `Create` takes the parsed
  `<tag/>`. An empty query returns a copy of the handle, which is
  `Collection.Copy`; a query that matches no form returns an empty handle.
- The iteration order of `std::unordered_map` is not modelled. Serialisation
  takes it as a parameter `order` that lists each key once (`EachKeyOnce`).
- Tree.Node.InsertAfter, Tree.Node.InsertBefore, Html.Append and Html.Prepend:
  detach the moved node with the corrected `Tree.Node.Detach` (Findings row
  1). When the moved node is the tail of a chain with a predecessor, the
  source leaves the old head's back-link on it (node.cpp:165-170); for
  children `a, b, c` and `a->nextSibling(c)` the source ends with
  `a.prev == c`, the model with `a.prev == b`, so a later `lastChild()` or
  append on the old parent differs.
- Moves.Put and Moves.PutAt: the same corrected detach, so the same
  difference for a moved tail.
- Collections.Collection.Append, Collections.Collection.Prepend,
  Collections.Collection.After, Collections.Collection.Before and
  Collections.Collection.Remove: every node they move or take out is
  detached with the corrected detach, with the same difference for a tail.
- Render.ClonePrintsAlike and Render.CloneDropsDoctype: hold only when the
  clone's copied attribute maps iterate in the original's order
  (`SameOrders`). A clone copy-assigns each `std::unordered_map`
  (html_node.cpp:181), and C++ does not promise the copy iterates alike, so a
  clone may print its attributes in another order.
- Stream output (`operator<<`, node.cpp:188-192, collection.cpp:273-277) is
  left out: it only forwards `serialize()`.
- `html()` and `tagName()` are plain forwards and field reads, and have no
  method of their own. `Render.HtmlOf` is `Print` at depth 0.
- Deleting is modelled as the set `released` of nodes freed so far. Freed
  memory is not modelled, so use-after-free shows up only as a freed node that
  is still captured.
- Grafts.Assign: requires that the target does not lie below the source. The
  source also handles that case, so this contract is narrower than the code.
- Fanouts.FanOut: requires that no source lies at or above the last target. The
  source would link a node under its own descendant there and build a cycle.
- Fanouts.FanOutAccounts: holds only when each source is captured once, with
  no other capture below it. A nested or repeated capture is not covered.
- Fanouts.FanOutSpares: holds only when every target gives the nodes a parent
  (`Hosted`) and every captured root stands alone at the top level
  (`Spaced`). `after`/`before` on a parentless target, and the clones made for
  text targets (which `append` ignores and which are never freed), are not
  covered.
- Moves.RemoveSafelySpares: the same `Spaced` assumption.
- Captures.DestroyAccounts: holds only for captured roots that are apart, with
  no two in one top-level chain.
- Cloning.Clone: stated on snapshots. Every new node of the clone is fresh,
  but which heap objects the clone shares with nothing else is stated only
  through `Cloned`.
- Collections.Collection.Create and Collections.NewSeeQuery: return the new
  element's own forest. They do not return it merged with the caller's forest;
  `Tree.MergeValid` states the merge separately.
- Placements.FanOutLined: states the order of the moved nodes at the last
  target only. The clones hung at the earlier targets are put there by the
  same operation one source at a time, so they take the same order, but no
  lemma states it.
- RawLinks: walks along `next` and `prev` carry a fuel bound equal to the
  number of nodes, because as-written links may form cycles. A walk that runs
  out of fuel reads null.
- Node accessors that only read or write one field (`parent()`, `parent(p)`,
  `firstChild(c)`, `nextSibling()`) are the fields of the `Node` class.
- The destructor's iterative and recursive deletion (node.cpp:5-23) is
  modelled only as the set of nodes it frees (`Ownership.Freed`).

## Findings

| source | as written | input that shows it | evidently intended | confidence | as-written member | corrected member |
|---|---|---|---|---|---|---|
| core/node.cpp:165-170 | `detach()` of a tail that has a previous sibling does not move the head's back-link, so the head still points at the detached node | a parent with children `a, b`; `b->detach()`; then `lastChild()` is `b`, and appending `b` again links `b` after itself with no parent | the head's back-link moves to the new tail; every operation that detaches first (`nextSibling(s)`, `prevSibling(s)`, `append`, `prepend`, the fan-outs and `remove()`) uses this corrected detach in the model | not executed | RawLinks.AppendAfterDetachLoops | Tree.Node.Detach |
| core/node.cpp:112-116 | `firstSibling(s)` with `s` already the head inserts `s` before itself | a parent with children `a, b`; `a->firstSibling(a)` gives `a.next == a` and `a` loses its parent | nothing changes when `s` already heads the chain | not executed | RawLinks.FirstBeforeItself | Tree.Node.InsertFirstSibling |
| core/node.cpp:135-139 | `lastSibling(s)` with `s` already the tail inserts `s` after itself | a parent with children `a, b`; `b->lastSibling(b)` gives `b.next == b` | nothing changes when `s` already ends the chain | not executed | RawLinks.LastAfterItself | Tree.Node.InsertLastSibling |
| core/collection.cpp:126-131 | `remove()` lets go of the entry's root before detaching the entry, so a root counted once is deleted while the entry still lies in it; the freed entry is then detached and counted | `SeeQuery()("<p/>").remove()`: the new `p` is counted once, deleted, then detached and counted again | detach and count the entry first, then let go of the old root, as the fan-outs do | not executed | Moves.RemoveReleasesCaptured | Moves.RemoveSafelySpares |
