/** The DOM of one document as a node store. Every node has an id, a kind,
    character data, a parent link, an ordered list of children and an
    ordered list of attributes. The operations are the DOM calls the
    compiler makes: `removeChild`, `replaceChild`, `insertBefore`,
    `appendChild`, `setAttribute`, `removeAttribute`, `importNode` of a
    detached tree, and reading a subtree back out. */
module Dom {
  import opened Values

  type NodeId = nat

  /** The document node itself. */
  const DocId: NodeId := 0

  datatype Kind = DocumentNode | Element(name: string) | TextNode | CDataNode | CommentNode

  datatype Node = Node(kind: Kind, data: string, parent: Option<NodeId>, children: seq<NodeId>, attrs: seq<Attr>)

  /** The nodes, and the next id that has not been handed out yet. */
  datatype Store = Store(nodes: map<NodeId, Node>, next: NodeId)

  /** The document node exists and every id in use was handed out already. */
  predicate Valid(st: Store) {
    DocId in st.nodes && st.nodes[DocId].kind == DocumentNode
    && forall id :: id in st.nodes ==> id < st.next
  }

  /** Child lists and parent links agree: a child names its parent. */
  predicate Linked(st: Store) {
    forall p, c :: p in st.nodes && c in st.nodes[p].children ==> c in st.nodes && st.nodes[c].parent == Some(p)
  }

  /** A new, empty document (PHP `new DOMDocument`), which hands out ids from `next` on. */
  function EmptyDocument(next: NodeId): (r: Store)
    ensures Valid(r) && Linked(r)
    ensures r.nodes.Keys == {DocId} && r.nodes[DocId].children == []
    ensures r.next >= next
  {
    Store(map[DocId := Node(DocumentNode, "", None, [], [])], if next == 0 then 1 else next)
  }

  function Kids(st: Store, id: NodeId): seq<NodeId> {
    if id in st.nodes then st.nodes[id].children else []
  }

  function ParentOf(st: Store, id: NodeId): Option<NodeId> {
    if id in st.nodes then st.nodes[id].parent else None
  }

  predicate IsElement(st: Store, id: NodeId) {
    id in st.nodes && st.nodes[id].kind.Element?
  }

  /** Text, CDATA and comment nodes cannot take children (PHP's
      `appendChild` returns false for them). */
  predicate IsCharacterData(k: Kind) {
    k.TextNode? || k.CDataNode? || k.CommentNode?
  }

  // ---------------------------------------------------------------- attributes

  /** Whether an attribute called `name` is present. */
  predicate HasAttrIn(attrs: seq<Attr>, name: string)
    decreases |attrs|
  {
    |attrs| > 0 && (attrs[0].name == name || HasAttrIn(attrs[1..], name))
  }

  /** `DOMElement::getAttribute`: the value of the first attribute called
      `name`, or "" when there is none. */
  function AttrValueIn(attrs: seq<Attr>, name: string): string
    decreases |attrs|
  {
    if |attrs| == 0 then ""
    else if attrs[0].name == name then attrs[0].value
    else AttrValueIn(attrs[1..], name)
  }

  /** `setAttribute`: an existing attribute keeps its place and gets the new
      value; a new one goes last. */
  function SetAttrIn(attrs: seq<Attr>, name: string, v: string): (r: seq<Attr>)
    ensures HasAttrIn(r, name) && AttrValueIn(r, name) == v
    ensures forall m :: m != name ==> HasAttrIn(r, m) == HasAttrIn(attrs, m) && AttrValueIn(r, m) == AttrValueIn(attrs, m)
    ensures |r| == |attrs| + (if HasAttrIn(attrs, name) then 0 else 1)
    decreases |attrs|
  {
    if |attrs| == 0 then [Attr(name, v)]
    else if attrs[0].name == name then [Attr(name, v)] + attrs[1..]
    else
      var rest := SetAttrIn(attrs[1..], name, v);
      assert ([attrs[0]] + rest)[1..] == rest;
      [attrs[0]] + rest
  }

  /** `removeAttribute` / `removeAttributeNode`: every other attribute stays, in order. */
  function RemoveAttrIn(attrs: seq<Attr>, name: string): (r: seq<Attr>)
    ensures !HasAttrIn(r, name)
    ensures forall m :: m != name ==> HasAttrIn(r, m) == HasAttrIn(attrs, m) && AttrValueIn(r, m) == AttrValueIn(attrs, m)
    ensures !HasAttrIn(attrs, name) ==> r == attrs
    decreases |attrs|
  {
    if |attrs| == 0 then []
    else if attrs[0].name == name then RemoveAttrIn(attrs[1..], name)
    else
      var rest := RemoveAttrIn(attrs[1..], name);
      var r := [attrs[0]] + rest;
      assert r[0] == attrs[0] && r[1..] == rest;
      assert forall m :: HasAttrIn(r, m) == (attrs[0].name == m || HasAttrIn(rest, m));
      assert forall m :: AttrValueIn(r, m) == if attrs[0].name == m then attrs[0].value else AttrValueIn(rest, m);
      assert !HasAttrIn(attrs, name) ==> rest == attrs[1..] && r == attrs;
      r
  }

  predicate HasAttr(st: Store, id: NodeId, name: string) {
    id in st.nodes && HasAttrIn(st.nodes[id].attrs, name)
  }

  function GetAttr(st: Store, id: NodeId, name: string): string {
    if id in st.nodes then AttrValueIn(st.nodes[id].attrs, name) else ""
  }

  /** Everything but the attributes of node `id` is as in `st`. */
  predicate OnlyAttrsChanged(st: Store, r: Store, id: NodeId) {
    r.next == st.next && r.nodes.Keys == st.nodes.Keys
    && (forall x :: x in st.nodes && x != id ==> r.nodes[x] == st.nodes[x])
    && (id in st.nodes ==> r.nodes[id] == st.nodes[id].(attrs := r.nodes[id].attrs))
  }

  function SetAttr(st: Store, id: NodeId, name: string, v: string): (r: Store)
    ensures OnlyAttrsChanged(st, r, id)
    ensures id in st.nodes ==> HasAttr(r, id, name) && GetAttr(r, id, name) == v
    ensures forall m :: m != name ==> HasAttr(r, id, m) == HasAttr(st, id, m) && GetAttr(r, id, m) == GetAttr(st, id, m)
  {
    if id in st.nodes then
      st.(nodes := st.nodes[id := st.nodes[id].(attrs := SetAttrIn(st.nodes[id].attrs, name, v))])
    else st
  }

  function RemoveAttr(st: Store, id: NodeId, name: string): (r: Store)
    ensures OnlyAttrsChanged(st, r, id)
    ensures !HasAttr(r, id, name)
    ensures forall m :: m != name ==> HasAttr(r, id, m) == HasAttr(st, id, m) && GetAttr(r, id, m) == GetAttr(st, id, m)
  {
    if id in st.nodes then
      st.(nodes := st.nodes[id := st.nodes[id].(attrs := RemoveAttrIn(st.nodes[id].attrs, name))])
    else st
  }

  /** Replace the character data of a text, CDATA or comment node. */
  function SetData(st: Store, id: NodeId, s: string): (r: Store)
    ensures r.next == st.next && r.nodes.Keys == st.nodes.Keys
    ensures forall x :: x in st.nodes && x != id ==> r.nodes[x] == st.nodes[x]
    ensures id in st.nodes ==> r.nodes[id] == st.nodes[id].(data := s)
  {
    if id in st.nodes then st.(nodes := st.nodes[id := st.nodes[id].(data := s)]) else st
  }

  // ---------------------------------------------------------------- child lists

  /** The first position of `x` in `s`. */
  function IndexOf(s: seq<NodeId>, x: NodeId): (r: Option<nat>)
    ensures r.Some? ==> r.value < |s| && s[r.value] == x && x !in s[..r.value]
    ensures r.None? <==> x !in s
    decreases |s|
  {
    if |s| == 0 then None
    else if s[0] == x then Some(0)
    else
      match IndexOf(s[1..], x)
      case None => None
      case Some(k) =>
        assert s[1..][..k] == s[1..k + 1];
        assert s[..k + 1] == [s[0]] + s[1..k + 1];
        Some(k + 1)
  }

  /** `s` with every occurrence of `x` dropped, the rest in order. */
  function Without(s: seq<NodeId>, x: NodeId): (r: seq<NodeId>)
    ensures x !in r && |r| <= |s|
    ensures forall y :: y != x ==> (y in r <==> y in s)
    ensures x in s ==> |r| < |s|
    ensures x !in s ==> r == s
    decreases |s|
  {
    if |s| == 0 then []
    else if s[0] == x then Without(s[1..], x)
    else [s[0]] + Without(s[1..], x)
  }

  /** Give every node of `ids` the parent `p`. */
  function SetParents(st: Store, ids: seq<NodeId>, p: Option<NodeId>): (r: Store)
    ensures r.next == st.next && r.nodes.Keys == st.nodes.Keys
    ensures forall x :: x in st.nodes ==> r.nodes[x] == if x in ids then st.nodes[x].(parent := p) else st.nodes[x]
    decreases |ids|
  {
    if |ids| == 0 then st
    else
      var st1 := if ids[0] in st.nodes then st.(nodes := st.nodes[ids[0] := st.nodes[ids[0]].(parent := p)]) else st;
      SetParents(st1, ids[1..], p)
  }

  /** Give node `p` the child list `kids`, and the nodes of `adopted` the parent `p`. */
  function WithChildren(st: Store, p: NodeId, kids: seq<NodeId>, adopted: seq<NodeId>): (r: Store)
    requires p in st.nodes
    ensures r.next == st.next && r.nodes.Keys == st.nodes.Keys
    ensures p !in adopted ==> r.nodes[p] == st.nodes[p].(children := kids)
    ensures forall x :: x in st.nodes && x != p ==>
      r.nodes[x] == if x in adopted then st.nodes[x].(parent := Some(p)) else st.nodes[x]
  {
    SetParents(st.(nodes := st.nodes[p := st.nodes[p].(children := kids)]), adopted, Some(p))
  }

  /** `p->removeChild(c)`: `c` leaves the child list of `p` and has no parent
      any more; nothing else changes. When `c` is not a child of `p` (PHP
      raises a not-found error) the store is left as it is. */
  function RemoveChild(st: Store, p: NodeId, c: NodeId): (r: Store)
    ensures r.next == st.next && r.nodes.Keys == st.nodes.Keys
    ensures forall x :: x in st.nodes && x != p && x != c ==> r.nodes[x] == st.nodes[x]
    ensures c in Kids(st, p) ==> Kids(r, p) == Without(Kids(st, p), c) && |Kids(r, p)| < |Kids(st, p)|
    ensures c in Kids(st, p) && c in st.nodes ==> ParentOf(r, c) == None
    ensures c !in Kids(st, p) ==> r == st
    ensures p in st.nodes && p != c ==> r.nodes[p] == st.nodes[p].(children := r.nodes[p].children)
    ensures c in st.nodes && p != c ==> r.nodes[c] == st.nodes[c].(parent := r.nodes[c].parent)
  {
    if p in st.nodes && c in st.nodes[p].children then
      var st1 := st.(nodes := st.nodes[p := st.nodes[p].(children := Without(st.nodes[p].children, c))]);
      if c in st1.nodes then st1.(nodes := st1.nodes[c := st1.nodes[c].(parent := None)]) else st1
    else st
  }

  /** Removing a child keeps child lists and parent links in agreement. */
  lemma RemoveChildLinked(st: Store, p: NodeId, c: NodeId)
    requires Linked(st)
    ensures Linked(RemoveChild(st, p, c))
  {
    var r := RemoveChild(st, p, c);
    if c in Kids(st, p) {
      forall q, d | q in r.nodes && d in r.nodes[q].children
        ensures d in r.nodes && r.nodes[d].parent == Some(q)
      {
        if q == p {
          assert d in st.nodes[p].children && d != c;
        } else {
          assert d in st.nodes[q].children;
        }
      }
    }
  }

  /** Removing an attribute keeps the links as they are. */
  lemma RemoveAttrLinked(st: Store, id: NodeId, name: string)
    requires Linked(st)
    ensures Linked(RemoveAttr(st, id, name))
  {
    var r := RemoveAttr(st, id, name);
    forall q, d | q in r.nodes && d in r.nodes[q].children
      ensures d in r.nodes && r.nodes[d].parent == Some(q)
    {
      assert r.nodes[q].children == st.nodes[q].children;
    }
  }

  /** Child lists and parent links agree in both directions. */
  predicate Consistent(st: Store) {
    Linked(st)
    && forall c :: c in st.nodes && st.nodes[c].parent.Some? ==>
         st.nodes[c].parent.value in st.nodes && c in st.nodes[st.nodes[c].parent.value].children
  }

  /** Node `id` is out of the tree: it has no parent and is nobody's child. */
  predicate Detached(st: Store, id: NodeId) {
    ParentOf(st, id) == None && forall q :: q in st.nodes ==> id !in st.nodes[q].children
  }

  /** In a consistent store a node without a parent is in no child list. */
  lemma ParentlessIsDetached(st: Store, id: NodeId)
    requires Consistent(st) && ParentOf(st, id) == None
    ensures Detached(st, id)
  {
  }

  lemma EmptyDocumentConsistent(next: NodeId)
    ensures Consistent(EmptyDocument(next))
  {
  }

  lemma RemoveChildConsistent(st: Store, p: NodeId, c: NodeId)
    requires Consistent(st)
    ensures Consistent(RemoveChild(st, p, c))
  {
    RemoveChildLinked(st, p, c);
    var r := RemoveChild(st, p, c);
    if c in Kids(st, p) {
      forall x | x in r.nodes && r.nodes[x].parent.Some?
        ensures r.nodes[x].parent.value in r.nodes && x in r.nodes[r.nodes[x].parent.value].children
      {
        assert x != c;
        assert r.nodes[x].parent == st.nodes[x].parent;
        var q := r.nodes[x].parent.value;
        assert x in st.nodes[q].children;
        if q == p {
          assert x in Without(Kids(st, p), c);
        } else if q == c {
          assert r.nodes[c].children == st.nodes[c].children;
        } else {
          assert r.nodes[q] == st.nodes[q];
        }
      }
    }
  }

  lemma RemoveAttrConsistent(st: Store, id: NodeId, name: string)
    requires Consistent(st)
    ensures Consistent(RemoveAttr(st, id, name))
  {
    RemoveAttrLinked(st, id, name);
    var r := RemoveAttr(st, id, name);
    forall x | x in r.nodes && r.nodes[x].parent.Some?
      ensures r.nodes[x].parent.value in r.nodes && x in r.nodes[r.nodes[x].parent.value].children
    {
      var q := r.nodes[x].parent.value;
      assert r.nodes[x].parent == st.nodes[x].parent;
      assert r.nodes[q].children == st.nodes[q].children;
    }
  }

  /** `p->replaceChild(new, oldChild)` for a (possibly empty) fragment of fresh
      nodes `ids`: they take the place of `old`, which loses its parent. */
  function ReplaceChild(st: Store, p: NodeId, oldChild: NodeId, ids: seq<NodeId>): (r: Store)
    ensures r.next == st.next && r.nodes.Keys == st.nodes.Keys
  {
    if p !in st.nodes then st
    else
      var k := st.nodes[p].children;
      match IndexOf(k, oldChild)
      case None => st
      case Some(i) => SetParents(WithChildren(st, p, k[..i] + ids + k[i + 1..], ids), [oldChild], None)
  }

  /** `p->insertBefore(new, ref)`: the fragment goes right before `ref`. */
  function InsertBefore(st: Store, p: NodeId, ref: NodeId, ids: seq<NodeId>): (r: Store)
    ensures r.next == st.next && r.nodes.Keys == st.nodes.Keys
  {
    if p !in st.nodes then st
    else
      var k := st.nodes[p].children;
      match IndexOf(k, ref)
      case None => st
      case Some(i) => WithChildren(st, p, k[..i] + ids + k[i..], ids)
  }

  /** `p->appendChild(new)`: the fragment goes last. */
  function AppendChildren(st: Store, p: NodeId, ids: seq<NodeId>): (r: Store)
    ensures r.next == st.next && r.nodes.Keys == st.nodes.Keys
    ensures p in st.nodes ==> forall x :: x in st.nodes && x != p ==>
      r.nodes[x] == if x in ids then st.nodes[x].(parent := Some(p)) else st.nodes[x]
    ensures p !in st.nodes ==> r == st
    ensures p in st.nodes && p !in ids ==> r.nodes[p] == st.nodes[p].(children := st.nodes[p].children + ids)
  {
    if p !in st.nodes then st else WithChildren(st, p, st.nodes[p].children + ids, ids)
  }

  /** `$node->nextSibling`. */
  function NextSibling(st: Store, id: NodeId): Option<NodeId> {
    match ParentOf(st, id)
    case None => None
    case Some(p) =>
      match IndexOf(Kids(st, p), id)
      case None => None
      case Some(i) => if i + 1 < |Kids(st, p)| then Some(Kids(st, p)[i + 1]) else None
  }

  /** The placement after a node as the compiler writes it: append to the
      parent when the node is the last child, else insert before its next
      sibling. */
  function InsertAfter(st: Store, p: NodeId, ref: NodeId, ids: seq<NodeId>): (r: Store)
    ensures r.next == st.next && r.nodes.Keys == st.nodes.Keys
  {
    match NextSibling(st, ref)
    case None => AppendChildren(st, p, ids)
    case Some(n) => InsertBefore(st, p, n, ids)
  }

  predicate Distinct(s: seq<NodeId>) {
    forall a, b :: 0 <= a < b < |s| ==> s[a] != s[b]
  }

  lemma IndexOfDistinct(s: seq<NodeId>, i: nat)
    requires Distinct(s) && i < |s|
    ensures IndexOf(s, s[i]) == Some(i)
  {
  }

  /** Replacement: the fragment takes exactly the place of the old child; the
      children before and after it stay where they were, and the old child
      is detached. */
  lemma ReplaceChildPlaces(st: Store, p: NodeId, oldChild: NodeId, ids: seq<NodeId>, i: nat)
    requires p in st.nodes && i < |Kids(st, p)| && Kids(st, p)[i] == oldChild && Distinct(Kids(st, p))
    requires oldChild in st.nodes && oldChild !in ids && p !in ids && p != oldChild
    ensures var r := ReplaceChild(st, p, oldChild, ids);
      Kids(r, p) == Kids(st, p)[..i] + ids + Kids(st, p)[i + 1..]
      && ParentOf(r, oldChild) == None
      && (forall x :: x in ids && x in st.nodes ==> ParentOf(r, x) == Some(p))
  {
    IndexOfDistinct(Kids(st, p), i);
  }

  /** Insertion before a child: the fragment goes at its position, and no
      other child moves relative to the rest. */
  lemma InsertBeforePlaces(st: Store, p: NodeId, ref: NodeId, ids: seq<NodeId>, i: nat)
    requires p in st.nodes && i < |Kids(st, p)| && Kids(st, p)[i] == ref && Distinct(Kids(st, p))
    requires p !in ids
    ensures var r := InsertBefore(st, p, ref, ids);
      Kids(r, p) == Kids(st, p)[..i] + ids + Kids(st, p)[i..]
      && (forall x :: x in ids && x in st.nodes ==> ParentOf(r, x) == Some(p))
  {
    IndexOfDistinct(Kids(st, p), i);
  }

  /** Both branches of the placement after a node put the fragment right
      after it: when it is the last child the append does the same as an
      insertion before its (absent) next sibling would. */
  lemma InsertAfterPlaces(st: Store, p: NodeId, ref: NodeId, ids: seq<NodeId>, i: nat)
    requires p in st.nodes && i < |Kids(st, p)| && Kids(st, p)[i] == ref && Distinct(Kids(st, p))
    requires ParentOf(st, ref) == Some(p) && p !in ids
    ensures var r := InsertAfter(st, p, ref, ids);
      Kids(r, p) == Kids(st, p)[..i + 1] + ids + Kids(st, p)[i + 1..]
      && (forall x :: x in ids && x in st.nodes ==> ParentOf(r, x) == Some(p))
  {
    var k := Kids(st, p);
    IndexOfDistinct(k, i);
    if i + 1 < |k| {
      IndexOfDistinct(k, i + 1);
      assert k[..i + 1] + ids + k[i + 1..] == k[..i + 1] + ids + k[i + 1..];
    } else {
      assert k[i + 1..] == [] && k[..i + 1] == k;
    }
  }

  /** Appending: the fragment follows the existing children. */
  lemma AppendChildrenPlaces(st: Store, p: NodeId, ids: seq<NodeId>)
    requires p in st.nodes && p !in ids
    ensures var r := AppendChildren(st, p, ids);
      Kids(r, p) == Kids(st, p) + ids
      && (forall x :: x in ids && x in st.nodes ==> ParentOf(r, x) == Some(p))
  {
  }

  // ---------------------------------------------------------------- trees in and out

  function NodeOfTree(t: Tree, parent: Option<NodeId>): Node {
    match t
    case TElement(n, a, _) => Node(Element(n), "", parent, [], a)
    case TText(s) => Node(TextNode, s, parent, [], [])
    case TCData(s) => Node(CDataNode, s, parent, [], [])
    case TComment(s) => Node(CommentNode, s, parent, [], [])
  }

  /** The fresh numbers of a forest: the root's number, then the rest's. */
  lemma ConsIdsIncreasing(id: NodeId, rest: seq<NodeId>, lo: nat, hi: nat)
    requires id < lo && id < hi
    requires forall k :: 0 <= k < |rest| ==> lo <= rest[k] < hi
    requires forall a, b :: 0 <= a < b < |rest| ==> rest[a] < rest[b]
    ensures var ids := [id] + rest;
      (forall k :: 0 <= k < |ids| ==> id <= ids[k] < hi)
      && (forall a, b :: 0 <= a < b < |ids| ==> ids[a] < ids[b])
  {
    var ids := [id] + rest;
    assert forall k :: 1 <= k < |ids| ==> ids[k] == rest[k - 1];
  }

  /** The records of a forest's roots: the first root's, then the rest's. */
  lemma ConsIdsNodes(nodes: map<NodeId, Node>, id: NodeId, rest: seq<NodeId>, ts: seq<Tree>, parent: Option<NodeId>)
    requires |ts| == |rest| + 1 && id in nodes
    requires nodes[id] == NodeOfTree(ts[0], parent).(children := nodes[id].children)
    requires !ts[0].TElement? ==> nodes[id].children == []
    requires forall k :: 0 <= k < |rest| ==>
      (rest[k] in nodes
       && nodes[rest[k]] == NodeOfTree(ts[1..][k], parent).(children := nodes[rest[k]].children)
       && (!ts[1..][k].TElement? ==> nodes[rest[k]].children == []))
    ensures var ids := [id] + rest;
      forall k :: 0 <= k < |ids| ==>
        (ids[k] in nodes && nodes[ids[k]].parent == parent
         && nodes[ids[k]] == NodeOfTree(ts[k], parent).(children := nodes[ids[k]].children)
         && (!ts[k].TElement? ==> nodes[ids[k]].children == []))
  {
    var ids := [id] + rest;
    forall k | 0 <= k < |ids|
      ensures ids[k] in nodes && nodes[ids[k]].parent == parent
        && nodes[ids[k]] == NodeOfTree(ts[k], parent).(children := nodes[ids[k]].children)
        && (!ts[k].TElement? ==> nodes[ids[k]].children == [])
    {
      if k > 0 {
        assert ids[k] == rest[k - 1] && ts[k] == ts[1..][k - 1];
      }
    }
  }

  /** `importNode($tree, true)` for each tree of a forest: fresh nodes, numbered
      from `st.next` on, with the given parent link for the roots. Nodes that
      existed keep their records. */
  function AddForest(st: Store, ts: seq<Tree>, parent: Option<NodeId>): (r: (Store, seq<NodeId>))
    ensures |r.1| == |ts|
    ensures st.next <= r.0.next
    ensures forall x :: x in st.nodes && x < st.next ==> x in r.0.nodes && r.0.nodes[x] == st.nodes[x]
    ensures forall x :: x in r.0.nodes ==> x in st.nodes || st.next <= x < r.0.next
    ensures forall k :: 0 <= k < |r.1| ==>
      st.next <= r.1[k] < r.0.next && r.1[k] in r.0.nodes && r.0.nodes[r.1[k]].parent == parent
    ensures forall a, b :: 0 <= a < b < |r.1| ==> r.1[a] < r.1[b]
    ensures |ts| > 0 ==> r.1[0] == st.next
    ensures forall k :: 0 <= k < |r.1| ==>
      r.0.nodes[r.1[k]] == NodeOfTree(ts[k], parent).(children := r.0.nodes[r.1[k]].children)
      && (!ts[k].TElement? ==> r.0.nodes[r.1[k]].children == [])
    decreases ts
  {
    if |ts| == 0 then (st, [])
    else
      var t := ts[0];
      var id := st.next;
      var st1 := Store(st.nodes[id := NodeOfTree(t, parent)], st.next + 1);
      var sub := if t.TElement? then AddForest(st1, t.children, Some(id)) else (st1, []);
      var st3 := sub.0.(nodes := sub.0.nodes[id := sub.0.nodes[id].(children := sub.1)]);
      var rest := AddForest(st3, ts[1..], parent);
      assert id in rest.0.nodes && rest.0.nodes[id] == st3.nodes[id];
      ConsIdsIncreasing(id, rest.1, st3.next, rest.0.next);
      ConsIdsNodes(rest.0.nodes, id, rest.1, ts, parent);
      (rest.0, [id] + rest.1)
  }

  /** In a valid store, adding a forest keeps every existing record. */
  lemma AddForestKeeps(st: Store, ts: seq<Tree>, parent: Option<NodeId>)
    requires Valid(st)
    ensures var a := AddForest(st, ts, parent).0;
      st.next !in st.nodes && forall y :: y in st.nodes ==> y in a.nodes && a.nodes[y] == st.nodes[y]
  {
  }

  /** The trees rooted at `ids`, read back out of the store (`cloneNode(true)`);
      `fuel` bounds the depth that is read. */
  function ToForest(st: Store, ids: seq<NodeId>, fuel: nat): seq<Tree>
    decreases fuel, |ids|
  {
    if |ids| == 0 then [] else ToTreeList(st, ids[0], fuel) + ToForest(st, ids[1..], fuel)
  }

  function ToTreeList(st: Store, id: NodeId, fuel: nat): seq<Tree>
    decreases fuel, 0
  {
    if fuel == 0 || id !in st.nodes then []
    else
      var n := st.nodes[id];
      match n.kind
      case Element(name) => [TElement(name, n.attrs, ToForest(st, n.children, fuel - 1))]
      case TextNode => [TText(n.data)]
      case CDataNode => [TCData(n.data)]
      case CommentNode => [TComment(n.data)]
      case DocumentNode => []
  }

  /** Document order below the nodes `ids` (each node before its descendants). */
  function Preorder(st: Store, ids: seq<NodeId>, fuel: nat): seq<NodeId>
    decreases fuel, |ids|
  {
    if |ids| == 0 then [] else PreorderOne(st, ids[0], fuel) + Preorder(st, ids[1..], fuel)
  }

  function PreorderOne(st: Store, id: NodeId, fuel: nat): seq<NodeId>
    decreases fuel, 0
  {
    if fuel == 0 || id !in st.nodes then [] else [id] + Preorder(st, st.nodes[id].children, fuel - 1)
  }

  lemma {:induction false} PreorderInStore(st: Store, ids: seq<NodeId>, fuel: nat)
    ensures forall x :: x in Preorder(st, ids, fuel) ==> x in st.nodes
    decreases fuel, |ids|
  {
    if |ids| > 0 {
      PreorderInStore(st, ids[1..], fuel);
      if fuel > 0 && ids[0] in st.nodes {
        PreorderInStore(st, st.nodes[ids[0]].children, fuel - 1);
      }
    }
  }

  function FilterElements(st: Store, ids: seq<NodeId>): (r: seq<NodeId>)
    ensures forall x :: x in r <==> x in ids && IsElement(st, x)
    decreases |ids|
  {
    if |ids| == 0 then []
    else (if IsElement(st, ids[0]) then [ids[0]] else []) + FilterElements(st, ids[1..])
  }

  /** The elements of the document in document order (every element below the document node). The depth
      read is bounded by the number of ids handed out. */
  function Elements(st: Store): (r: seq<NodeId>)
    ensures forall x :: x in r ==> IsElement(st, x)
  {
    FilterElements(st, Preorder(st, Kids(st, DocId), st.next))
  }

  /** The document element: the first element child of the document node. */
  function DocumentElement(st: Store): (r: Option<NodeId>)
    ensures r.Some? ==> IsElement(st, r.value) && r.value in Kids(st, DocId)
  {
    FirstElementIn(st, Kids(st, DocId))
  }

  /** The position of the first element among `ids`. */
  function FirstElementIndex(st: Store, ids: seq<NodeId>): (r: Option<nat>)
    ensures r.Some? ==> (r.value < |ids| && IsElement(st, ids[r.value])
      && forall j :: 0 <= j < r.value ==> !IsElement(st, ids[j]))
    ensures r.None? <==> forall k :: 0 <= k < |ids| ==> !IsElement(st, ids[k])
    decreases |ids|
  {
    if |ids| == 0 then None
    else if IsElement(st, ids[0]) then Some(0)
    else
      match FirstElementIndex(st, ids[1..])
      case None => None
      case Some(k) => Some(k + 1)
  }

  /** The first element among `ids` (the first-child-element step on a child list). */
  function FirstElementIn(st: Store, ids: seq<NodeId>): (r: Option<NodeId>)
    ensures r.Some? ==> IsElement(st, r.value) && r.value in ids
  {
    match FirstElementIndex(st, ids)
    case None => None
    case Some(k) => Some(ids[k])
  }

  // ---------------------------------------------------------------- deleting below a node

  /** `r` came from `st` by removing children only: the same ids, child
      lists no longer than before, every other field as before except the
      parent link, and a node without a parent still has none. */
  predicate Shrinks(st: Store, r: Store) {
    r.next == st.next && r.nodes.Keys == st.nodes.Keys
    && (forall x :: x in st.nodes ==> |r.nodes[x].children| <= |st.nodes[x].children|)
    && (forall x :: x in st.nodes ==>
          r.nodes[x] == st.nodes[x].(children := r.nodes[x].children, parent := r.nodes[x].parent))
    && (forall x :: x in st.nodes && st.nodes[x].parent.None? ==> r.nodes[x].parent.None?)
    && (forall x, y :: x in st.nodes && y in r.nodes[x].children ==> y in st.nodes[x].children)
  }

  /** Removing children keeps a node and never lengthens its child list. */
  lemma ShrinksKids(st: Store, r: Store, id: NodeId)
    requires Shrinks(st, r) && id in st.nodes
    ensures id in r.nodes && |Kids(r, id)| <= |Kids(st, id)|
  {
  }

  /** A node that is out of the tree stays out when children are only removed. */
  lemma ShrinksKeepsDetached(st: Store, r: Store, id: NodeId)
    requires Shrinks(st, r) && Detached(st, id)
    ensures Detached(r, id)
  {
  }

  lemma ShrinksTrans(a: Store, b: Store, c: Store)
    requires Shrinks(a, b) && Shrinks(b, c)
    ensures Shrinks(a, c)
  {
  }

  lemma RemoveChildShrinks(st: Store, p: NodeId, c: NodeId)
    ensures Shrinks(st, RemoveChild(st, p, c))
  {
  }

  /** `deleteDescendants`: while the node has a first child, delete below that
      child, then remove the (current) first child. `depth` bounds the
      recursion; the loop itself runs until the child list is empty. */
  /** The depth bound one level down. */
  function Below(depth: nat): nat
    requires depth > 0
  {
    depth - 1
  }

  function DeleteDescendants(st: Store, id: NodeId, depth: nat): (r: Store)
    ensures Shrinks(st, r)
    ensures depth > 0 && id in st.nodes ==> r.nodes[id].children == []
    decreases depth, |Kids(st, id)|
  {
    if depth == 0 || id !in st.nodes || |st.nodes[id].children| == 0 then st
    else
      var st1 := DeleteDescendants(st, st.nodes[id].children[0], Below(depth));
      if |Kids(st1, id)| == 0 then st1
      else
        var st2 := RemoveChild(st1, id, Kids(st1, id)[0]);
        RemoveChildShrinks(st1, id, Kids(st1, id)[0]);
        var r := DeleteDescendants(st2, id, depth);
        ShrinksTrans(st1, st2, r);
        ShrinksTrans(st, st1, r);
        r
  }

  /** The store after one round of the `deleteDescendants` loop: everything
      below the first child deleted, then the first child detached. */
  function DeleteRound(st: Store, id: NodeId, depth: nat): Store
    requires depth > 0 && id in st.nodes && |st.nodes[id].children| > 0
  {
    var st1 := DeleteDescendants(st, st.nodes[id].children[0], Below(depth));
    if |Kids(st1, id)| == 0 then st1 else RemoveChild(st1, id, Kids(st1, id)[0])
  }

  /** A round shortens the child list and leaves the final result as it was. */
  lemma DeleteDescendantsRound(st: Store, id: NodeId, depth: nat)
    requires depth > 0 && id in st.nodes && |st.nodes[id].children| > 0
    ensures var r := DeleteRound(st, id, depth);
      id in r.nodes && |r.nodes[id].children| < |st.nodes[id].children|
      && DeleteDescendants(r, id, depth) == DeleteDescendants(st, id, depth)
  {
    var st1 := DeleteDescendants(st, st.nodes[id].children[0], Below(depth));
    ShrinksKids(st, st1, id);
    DeleteDescendantsStep(st, id, depth);
    if |Kids(st1, id)| == 0 {
      assert DeleteDescendants(st1, id, depth) == st1;
    }
  }

  /** One round of the `deleteDescendants` loop, as an equation. */
  lemma DeleteDescendantsStep(st: Store, id: NodeId, depth: nat)
    requires depth > 0 && id in st.nodes && |st.nodes[id].children| > 0
    ensures var st1 := DeleteDescendants(st, st.nodes[id].children[0], Below(depth));
      DeleteDescendants(st, id, depth)
        == if |Kids(st1, id)| == 0 then st1 else DeleteDescendants(RemoveChild(st1, id, Kids(st1, id)[0]), id, depth)
  {
  }
}
