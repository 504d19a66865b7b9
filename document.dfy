/** The document layer (`Document.php`): one XML document with its error log,
    and the operations the template compiler edits it with. `set` is the
    single mutation primitive: a path with an optional gap step and an
    optional trailing attribute step selects targets, and a value replaces,
    precedes, follows or is appended to each of them. `get`, `consume` and
    `count` read through the same target selection. */
module Doc {
  import opened Strings
  import opened Values
  import opened Markup
  import opened Paths
  import opened Dom

  /** A result of a query: a node, or the attribute `name` of element `owner`. */
  datatype Loc = NodeLoc(id: NodeId) | AttrLoc(owner: NodeId, name: string)

  /** What libxml's fragment parser makes of a string: the nodes, and the
      warnings it reported, as the error handler logs them. */
  datatype Parsed = Parsed(nodes: seq<Tree>, warnings: string)

  /** What the model takes as given: the fragment parser, the XML-name check
      of `validName`, and XPath evaluation for the paths the model does not
      evaluate itself (`None` when the expression is invalid). */
  datatype Env = Env(
    parse: string -> Parsed,
    validName: string -> bool,
    evaluate: (Store, string, Option<NodeId>) -> Option<seq<Loc>>)

  /** The state of a document: its nodes, its error log, whether a document is
      loaded at all, and whether a PHP fatal error or uncaught exception ended
      the request (after which nothing else happens). */
  datatype DocState = DocState(store: Store, errs: string, loaded: bool, fault: Option<string>)

  /** The values `set` is given: null, a scalar (already converted by
      `strval`), a node (a document, a node or a compiled view, as the tree of
      its root), a node list, or anything else (`array`, an unknown object). */
  datatype SetValue =
    | VNull
    | VScalar(text: string)
    | VNode(tree: Tree)
    | VList(trees: seq<Tree>)
    | VOther(typeName: string)

  /** What `get` returns: null, a string (text, CDATA or attribute value), a
      new document holding a copy of an element, another single node, or the
      node list when there are several matches. */
  datatype GetResult = GNull | GString(s: string) | GDocument(tree: Tree) | GNode(id: NodeId) | GList(locs: seq<Loc>)

  // ---------------------------------------------------------------- the log

  /** `doMsg($errno, $errstr)`: the log gains `$errstr` and a separator. */
  function DoMsgSpec(errs: string, errno: string, errstr: string): (r: string)
    ensures StartsWith(r, errs) && EndsWith(r, "; ") && |r| == |errs| + |errstr| + 2
  {
    errs + errstr + "; "
  }

  /** The compiler's own messages: `doMsg` is called with the message as
      `$errno` only, so the log gains just the separator. */
  function Log(s: DocState, message: string): (r: DocState)
    ensures r.store == s.store && r.loaded == s.loaded && r.fault == s.fault
    ensures r.errs == s.errs + "; "
  {
    s.(errs := DoMsgSpec(s.errs, message, ""))
  }

  /** A PHP warning raised while `doMsg` is the error handler: the log gains
      its message. */
  function Warn(s: DocState, message: string): (r: DocState)
    ensures r.store == s.store && r.loaded == s.loaded && r.fault == s.fault
    ensures r.errs == s.errs + message + "; "
  {
    s.(errs := DoMsgSpec(s.errs, "", message))
  }

  function Fail(s: DocState, why: string): DocState {
    s.(fault := Some(why))
  }

  // ---------------------------------------------------------------- target selection

  predicate IsPrefixed(name: string) {
    StartsWith(name, Prefix)
  }

  /** The prefixed attributes of `owner`, in order; with `skipSection` the
      section attribute is left out. */
  function PrefixedAttrs(owner: NodeId, attrs: seq<Attr>, skipSection: bool): (r: seq<Loc>)
    ensures forall k :: 0 <= k < |r| ==>
              r[k].AttrLoc? && r[k].owner == owner && IsPrefixed(r[k].name) && (skipSection ==> r[k].name != SectionAttr)
    ensures forall k ::
              0 <= k < |attrs| && IsPrefixed(attrs[k].name) && !(skipSection && attrs[k].name == SectionAttr) ==>
              AttrLoc(owner, attrs[k].name) in r
    decreases |attrs|
  {
    if |attrs| == 0 then []
    else
      var rest := PrefixedAttrs(owner, attrs[1..], skipSection);
      assert forall k :: 1 <= k < |attrs| ==> attrs[k] == attrs[1..][k - 1];
      if IsPrefixed(attrs[0].name) && !(skipSection && attrs[0].name == SectionAttr)
      then [AttrLoc(owner, attrs[0].name)] + rest
      else rest
  }

  function AttrsOf(st: Store, id: NodeId): seq<Attr> {
    if id in st.nodes then st.nodes[id].attrs else []
  }

  /** Every prefixed attribute of the elements `ids`, element by element. */
  function AllPrefixedAttrLocs(st: Store, ids: seq<NodeId>): (r: seq<Loc>)
    ensures forall k :: 0 <= k < |r| ==> r[k].AttrLoc? && IsPrefixed(r[k].name)
    decreases |ids|
  {
    if |ids| == 0 then [] else PrefixedAttrs(ids[0], AttrsOf(st, ids[0]), false) + AllPrefixedAttrLocs(st, ids[1..])
  }

  predicate HasPrefixedAttr(st: Store, id: NodeId) {
    exists k :: 0 <= k < |AttrsOf(st, id)| && IsPrefixed(AttrsOf(st, id)[k].name)
  }

  function WithPrefixedAttr(st: Store, ids: seq<NodeId>): (r: seq<NodeId>)
    ensures forall x :: x in r <==> x in ids && HasPrefixedAttr(st, x)
    decreases |ids|
  {
    if |ids| == 0 then []
    else (if HasPrefixedAttr(st, ids[0]) then [ids[0]] else []) + WithPrefixedAttr(st, ids[1..])
  }

  function WithAttr(st: Store, ids: seq<NodeId>, name: string): (r: seq<NodeId>)
    ensures forall x :: x in r <==> x in ids && HasAttr(st, x, name)
    decreases |ids|
  {
    if |ids| == 0 then []
    else (if HasAttr(st, ids[0], name) then [ids[0]] else []) + WithAttr(st, ids[1..], name)
  }

  function WithAttrValue(st: Store, ids: seq<NodeId>, name: string, value: string): (r: seq<NodeId>)
    ensures forall x :: x in r <==> x in ids && HasAttr(st, x, name) && GetAttr(st, x, name) == value
    decreases |ids|
  {
    if |ids| == 0 then []
    else
      var head := if HasAttr(st, ids[0], name) && GetAttr(st, ids[0], name) == value then [ids[0]] else [];
      head + WithAttrValue(st, ids[1..], name, value)
  }

  function NodeLocs(ids: seq<NodeId>): (r: seq<Loc>)
    ensures |r| == |ids| && forall k :: 0 <= k < |ids| ==> r[k] == NodeLoc(ids[k])
    decreases |ids|
  {
    if |ids| == 0 then [] else [NodeLoc(ids[0])] + NodeLocs(ids[1..])
  }

  /** The context node of a relative query: the reference node, or the
      document element when there is none (DOMXPath's default). */
  function ContextNode(st: Store, ref: Option<NodeId>): Option<NodeId> {
    if ref.Some? then ref else DocumentElement(st)
  }

  /** `$xp->query($path, $ref)`: the compiler's own path shapes are evaluated
      here, every other path by the given evaluator. `None` means the query
      failed (an invalid expression). */
  function Resolve(env: Env, st: Store, path: string, ref: Option<NodeId>): Option<seq<Loc>> {
    var ctx := ContextNode(st, ref);
    match Classify(path)
    case SelfNode => Some(if ctx.Some? then [NodeLoc(ctx.value)] else [])
    case FirstChildElement =>
      Some(if ctx.None? then [] else
        match FirstElementIn(st, Kids(st, ctx.value))
        case None => []
        case Some(e) => [NodeLoc(e)])
    case OwnAttr(n) => Some(if ctx.Some? && HasAttr(st, ctx.value, n) then [AttrLoc(ctx.value, n)] else [])
    case OwnPrefixedButSection => Some(if ctx.Some? then PrefixedAttrs(ctx.value, AttrsOf(st, ctx.value), true) else [])
    case AllPrefixedAttrs => Some(AllPrefixedAttrLocs(st, Elements(st)))
    case ElementsWithPrefixedAttr => Some(NodeLocs(WithPrefixedAttr(st, Elements(st))))
    case ElementsWithAttr(n) => Some(NodeLocs(WithAttr(st, Elements(st), n)))
    case ElementsWithSection(sec) => Some(NodeLocs(WithAttrValue(st, Elements(st), SectionAttr, sec)))
    case RootAttr(n) =>
      var de := DocumentElement(st);
      Some(if de.Some? && HasAttr(st, de.value, n) then [AttrLoc(de.value, n)] else [])
    case Other => env.evaluate(st, path, ref)
  }

  /** `set` skips the query for `.` with a reference node; the query would
      give the same single target. */
  lemma SelfShortcut(env: Env, st: Store, r: NodeId)
    ensures Resolve(env, st, ".", Some(r)) == Some([NodeLoc(r)])
  {
  }

  // ---------------------------------------------------------------- set: deleting

  /** One matched entry under a null value: an attribute is removed from its
      element, a node is taken out of its parent, and a node without a parent
      (the document itself) makes the document new and empty. A node that is
      no longer in the store is left alone. */
  function DeleteEntry(s: DocState, e: Loc): DocState {
    match e
    case AttrLoc(o, n) => s.(store := RemoveAttr(s.store, o, n))
    case NodeLoc(id) =>
      if id !in s.store.nodes then s
      else match s.store.nodes[id].parent
        case None => s.(store := EmptyDocument(s.store.next))
        case Some(p) => s.(store := RemoveChild(s.store, p, id))
  }

  function DeleteAll(s: DocState, es: seq<Loc>): DocState
    decreases |es|
  {
    if |es| == 0 then s else DeleteEntry(DeleteAll(s, es[..|es| - 1]), es[|es| - 1])
  }

  // ---------------------------------------------------------------- set: placing

  /** The string edit of a gap mode: replace, prepend, or append. */
  function GapEdit(cur: string, v: string, gap: Gap): (r: string)
    ensures gap == GapNone || gap == GapData ==> r == v
    ensures gap == GapPreceding ==> r == v + cur
    ensures gap == GapFollowing || gap == GapChild ==> r == cur + v
  {
    match gap
    case GapNone => v
    case GapData => v
    case GapPreceding => v + cur
    case GapFollowing => cur + v
    case GapChild => cur + v
  }

  /** With an attribute step, a scalar is escaped before anything else. */
  function Prepared(v: SetValue, aName: Option<string>): SetValue {
    if aName.Some? && v.VScalar? then VScalar(Xmlenc(v.text)) else v
  }

  /** `strToNode`: the log is cleared, the escaped string is parsed as a
      fragment and its warnings logged; when they report a parser error the
      raw string becomes a single text node instead. The nodes are imported
      as fresh, parentless nodes. */
  function StrToNodeSpec(env: Env, s: DocState, text: string): (r: (DocState, seq<NodeId>))
    ensures r.0.loaded == s.loaded && r.0.fault == s.fault
  {
    var parsed := env.parse(Xmlenc(text));
    var errs := "" + parsed.warnings;
    var trees := if Contains(errs, "parser error") then [TText(text)] else parsed.nodes;
    var added := AddForest(s.store, trees, None);
    (s.(store := added.0, errs := errs), added.1)
  }

  /** Placing fresh nodes at node `id` by gap mode: replace it, insert before
      it, insert after it, or append them to its children. The first three
      need a parent; PHP stops with a fatal error when there is none. Text,
      CDATA and comment nodes take no children. */
  function Place(s: DocState, id: NodeId, gap: Gap, ids: seq<NodeId>): DocState {
    var st := s.store;
    match gap
    case GapChild =>
      if id in st.nodes && IsCharacterData(st.nodes[id].kind) then s
      else s.(store := AppendChildren(st, id, ids))
    case _ =>
      match ParentOf(st, id)
      case None => Fail(s, "Call to a member function on null")
      case Some(p) =>
        s.(store :=
          if gap == GapPreceding then InsertBefore(st, p, id, ids)
          else if gap == GapFollowing then InsertAfter(st, p, id, ids)
          else ReplaceChild(st, p, id, ids))
  }

  /** A node list is placed item by item, each as a fresh copy. */
  function PlaceList(s: DocState, id: NodeId, gap: Gap, trees: seq<Tree>): DocState
    decreases |trees|
  {
    if |trees| == 0 then s
    else
      var s1 := PlaceList(s, id, gap, trees[..|trees| - 1]);
      if s1.fault.Some? then s1
      else
        var added := AddForest(s1.store, [trees[|trees| - 1]], None);
        Place(s1.(store := added.0), id, gap, added.1)
  }

  /** The attribute edit of an attribute step on an element: replace, prepend
      or append to the current value (which is "" when it is absent). An
      empty value is set like any other. */
  function AttrByName(st: Store, e: NodeId, gap: Gap, name: string, v: string): Store {
    SetAttr(st, e, name, GapEdit(GetAttr(st, e, name), v, gap))
  }

  /** The same edit as the compiler writes it: under replacement, a value
      that is empty or only white space removes the attribute. */
  function AttrByNameAsWritten(st: Store, e: NodeId, gap: Gap, name: string, v: string): Store {
    if (gap == GapNone || gap == GapData) && IsNullOrEmpty(Some(v)) then RemoveAttr(st, e, name)
    else SetAttr(st, e, name, GapEdit(GetAttr(st, e, name), v, gap))
  }

  /** The markers PHP's `str_replace` strips from comment text. */
  function CommentOpenAt(t: string): nat {
    if StartsWith(t, "<!--") then 4 else 0
  }

  function CommentCloseAt(t: string): nat {
    if StartsWith(t, "-->") then 3 else 0
  }

  function StripCommentMarkers(s: string): string {
    RemoveAll(RemoveAll(s, CommentOpenAt), CommentCloseAt)
  }

  /** One matched entry under a non-null value `v` (already prepared). */
  function PlaceEntry(env: Env, s: DocState, e: Loc, gap: Gap, aName: Option<string>, v: SetValue): DocState {
    match e
    case AttrLoc(o, n) =>
      if v.VScalar? then
        s.(store := SetAttr(s.store, o, n, GapEdit(GetAttr(s.store, o, n), Xmlenc(v.text), gap)))
      else s
    case NodeLoc(id) =>
      if id !in s.store.nodes then s
      else
        var node := s.store.nodes[id];
        if node.kind.CDataNode? && v.VScalar? then
          if gap == GapData then s
          else s.(store := SetData(s.store, id, GapEdit(node.data, v.text, gap)))
        else if node.kind.CommentNode? && gap == GapData then
          if v.VScalar? then s.(store := SetData(s.store, id, StripCommentMarkers(v.text))) else s
        else PlaceValue(env, s, id, gap, aName, v)
  }

  /** A value placed at an element, text node or comment `id` (under a gap
      other than `/data()` for a comment). */
  function PlaceValue(env: Env, s: DocState, id: NodeId, gap: Gap, aName: Option<string>, v: SetValue): DocState
    requires id in s.store.nodes
  {
    match v
    case VList(trees) => PlaceList(s, id, gap, trees)
    case VScalar(text) => PlaceText(env, s, id, gap, aName, text)
    case VNode(t) => PlaceTree(s, id, gap, aName, t)
    case _ => s
  }

  /** A string: parsed into fresh nodes, which are placed, or (under an
      attribute step) the attribute edit. */
  function PlaceText(env: Env, s: DocState, id: NodeId, gap: Gap, aName: Option<string>, text: string): DocState
    requires id in s.store.nodes
  {
    var made := StrToNodeSpec(env, s, text);
    if aName.Some? then
      if s.store.nodes[id].kind.Element? then made.0.(store := AttrByName(made.0.store, id, gap, aName.value, text))
      else made.0
    else Place(made.0, id, gap, made.1)
  }

  /** A tree: a fresh copy of it is placed, or, under an attribute step on an
      element, handed to the attribute edit as it is. */
  function PlaceTree(s: DocState, id: NodeId, gap: Gap, aName: Option<string>, t: Tree): DocState
    requires id in s.store.nodes
  {
    var added := AddForest(s.store, [t], None);
    if aName.Some? then
      if s.store.nodes[id].kind.Element? then NodeAsAttr(s.(store := added.0), id, gap, aName.value, t)
      else s.(store := added.0)
    else Place(s.(store := added.0), id, gap, added.1)
  }

  /** The PHP class of a DOM node of this kind. */
  function DomClass(t: Tree): string {
    match t
    case TElement(_, _, _) => "DOMElement"
    case TText(_) => "DOMText"
    case TCData(_) => "DOMCdataSection"
    case TComment(_) => "DOMComment"
  }

  /** The PHP 7 warnings for a node passed where a string parameter is expected. */
  const TrimRejectsObject: string := "trim() expects parameter 1 to be string, object given"
  const SetAttributeRejectsObject: string := "DOMElement::setAttribute() expects parameter 2 to be string, object given"

  /** A node used as an attribute's value, under PHP 7, where each failure
      below is a warning that `doMsg` logs and execution goes on. In replace
      mode `trim` rejects the object, so it does not count as empty, and then
      `setAttribute` rejects it too: the attribute is left as it was. In the
      other modes the node's string conversion fails and gives "", so the
      attribute is set to its old value ("" when it was absent). */
  function NodeAsAttr(s: DocState, e: NodeId, gap: Gap, name: string, t: Tree): DocState {
    if gap == GapNone || gap == GapData then
      Warn(Warn(s, TrimRejectsObject), SetAttributeRejectsObject)
    else
      var w := Warn(s, "Object of class " + DomClass(t) + " could not be converted to string");
      w.(store := AttrByName(w.store, e, gap, name, ""))
  }

  /** In replace mode a node handed to an attribute leaves the document as it
      was and logs the two rejections. */
  lemma NodeAsAttrReplace(s: DocState, e: NodeId, gap: Gap, name: string, t: Tree)
    requires gap == GapNone || gap == GapData
    ensures var r := NodeAsAttr(s, e, gap, name, t);
      r.store == s.store && r.fault == s.fault && r.loaded == s.loaded
      && r.errs == s.errs + TrimRejectsObject + "; " + SetAttributeRejectsObject + "; "
  {
  }

  /** In the other modes the attribute keeps its text (it is added, empty,
      when it was absent), nothing else changes, and the failed string
      conversion is logged. */
  lemma NodeAsAttrEdit(s: DocState, e: NodeId, gap: Gap, name: string, t: Tree)
    requires e in s.store.nodes && gap != GapNone && gap != GapData
    ensures var r := NodeAsAttr(s, e, gap, name, t);
      r.fault == s.fault && r.loaded == s.loaded && OnlyAttrsChanged(s.store, r.store, e)
      && HasAttr(r.store, e, name) && GetAttr(r.store, e, name) == GetAttr(s.store, e, name)
      && (forall m :: m != name ==> HasAttr(r.store, e, m) == HasAttr(s.store, e, m) && GetAttr(r.store, e, m) == GetAttr(s.store, e, m))
    ensures NodeAsAttr(s, e, gap, name, t).errs == s.errs + ("Object of class " + DomClass(t) + " could not be converted to string") + "; "
  {
    var cur := GetAttr(s.store, e, name);
    if gap == GapPreceding {
      assert GapEdit(cur, "", gap) == cur by {
        assert "" + cur == cur;
      }
    } else {
      assert GapEdit(cur, "", gap) == cur by {
        assert cur + "" == cur;
      }
    }
  }

  function PlaceAll(env: Env, s: DocState, es: seq<Loc>, gap: Gap, aName: Option<string>, v: SetValue): DocState
    decreases |es|
  {
    if |es| == 0 then s
    else
      var s1 := PlaceAll(env, s, es[..|es| - 1], gap, aName, v);
      if s1.fault.Some? then s1 else PlaceEntry(env, s1, es[|es| - 1], gap, aName, v)
  }

  /** `set($xpath, $value, $ref)`. */
  function SetSpec(env: Env, s: DocState, xpath: string, value: SetValue, ref: Option<NodeId>): DocState {
    if s.fault.Some? then s
    else if !s.loaded then Log(s, "set() " + xpath + " attempted on a non-document.")
    else
      var path := ParseGap(xpath).0;
      var gap := ParseGap(xpath).1;
      match value
      case VNull =>
        if gap != GapNone then s
        else
          (match Resolve(env, s.store, path, ref)
           case None => Log(s, "NView::set() " + path + " failed.")
           case Some(es) => DeleteAll(s, es))
      case VOther(t) => Log(s, "NView: Unknown value type of object " + t + " found")
      case _ =>
        var target := SplitAttributeStep(path, env.validName).0;
        var aName := SplitAttributeStep(path, env.validName).1;
        match Resolve(env, s.store, target, ref)
        case None => Log(s, "NView::set() " + target + " failed.")
        case Some(es) => if |es| == 0 then s else PlaceAll(env, s, es, gap, aName, Prepared(value, aName))
  }

  // ---------------------------------------------------------------- get, consume, count

  /** The value of a single match. */
  function EntryValue(st: Store, e: Loc): GetResult {
    match e
    case AttrLoc(o, n) => GString(GetAttr(st, o, n))
    case NodeLoc(id) =>
      if id !in st.nodes then GNode(id)
      else
        var node := st.nodes[id];
        if node.kind.TextNode? || node.kind.CDataNode? then GString(node.data)
        else if node.kind.Element? then
          var ts := ToTreeList(st, id, st.next);
          if |ts| == 1 then GDocument(ts[0]) else GNode(id)
        else GNode(id)
  }

  /** `get($xpath, $ref)`: null for no match, the single match's value, or the list. */
  function GetSpec(env: Env, s: DocState, xpath: string, ref: Option<NodeId>): (GetResult, DocState) {
    if s.fault.Some? then (GNull, s)
    else if !s.loaded then (GNull, Log(s, "NView::get() " + xpath + " attempted on a non-document."))
    else
      match Resolve(env, s.store, xpath, ref)
      case None => (GNull, Log(s, "NView::get() " + xpath + " failed."))
      case Some(es) =>
        if |es| == 0 then (GNull, s)
        else if |es| == 1 then (EntryValue(s.store, es[0]), s)
        else (GList(es), s)
  }

  /** `consume($xpath, $ref)`: `get`, then delete the matches unless `get` gave null. */
  function ConsumeSpec(env: Env, s: DocState, xpath: string, ref: Option<NodeId>): (GetResult, DocState) {
    var g := GetSpec(env, s, xpath, ref);
    if g.0.GNull? then g else (g.0, SetSpec(env, g.1, xpath, VNull, ref))
  }

  /** `count($xpath, $ref)`. */
  function CountSpec(env: Env, s: DocState, xpath: string, ref: Option<NodeId>): (nat, DocState) {
    if s.fault.Some? then (0, s)
    else if !s.loaded then (0, Log(s, "NView: count() " + xpath + " attempted on a non-document."))
    else
      match Resolve(env, s.store, xpath, ref)
      case None => (0, Log(s, "NView: count() " + xpath + " failed."))
      case Some(es) => (|es|, s)
  }

  // ---------------------------------------------------------------- tidyView

  /** An element `tidyView` pads: it has no child nodes and its local name
      does not occur in the void-element list string. */
  predicate NeedsPadding(st: Store, id: NodeId) {
    IsElement(st, id) && Kids(st, id) == [] && !IsVoidName(LocalName(st.nodes[id].kind.name))
  }

  function PaddingTargets(st: Store, ids: seq<NodeId>): (r: seq<NodeId>)
    ensures forall x :: x in r <==> x in ids && NeedsPadding(st, x)
    decreases |ids|
  {
    if |ids| == 0 then []
    else (if NeedsPadding(st, ids[0]) then [ids[0]] else []) + PaddingTargets(st, ids[1..])
  }

  /** `appendChild(createTextNode(''))`: a fresh empty text node, numbered
      `next`, becomes the last child of `id`. */
  function PadOne(st: Store, id: NodeId): Store {
    if id !in st.nodes then st
    else
      var y := st.next;
      var withChild := st.nodes[id := st.nodes[id].(children := st.nodes[id].children + [y])];
      Store(withChild[y := Node(TextNode, "", Some(id), [], [])], st.next + 1)
  }

  function PadAll(st: Store, es: seq<NodeId>): Store
    decreases |es|
  {
    if |es| == 0 then st else PadOne(PadAll(st, es[..|es| - 1]), es[|es| - 1])
  }

  /** `tidyView`. */
  function TidySpec(st: Store): Store {
    PadAll(st, PaddingTargets(st, Elements(st)))
  }

  /** Node `c` is an empty text node with no children. */
  predicate IsEmptyText(st: Store, c: NodeId) {
    c in st.nodes && st.nodes[c].kind == TextNode && st.nodes[c].data == "" && st.nodes[c].children == []
  }

  /** Padding one node: it gains a fresh empty text node as its last child
      and nothing else that existed changes. */
  lemma PadOneEffect(st: Store, id: NodeId)
    requires Valid(st) && id in st.nodes
    ensures var r := PadOne(st, id);
      Valid(r) && r.next > st.next
      && Kids(r, id) == Kids(st, id) + [st.next] && IsEmptyText(r, st.next)
      && r.nodes[id] == st.nodes[id].(children := Kids(r, id))
      && (forall x :: x in st.nodes && x != id ==> x in r.nodes && r.nodes[x] == st.nodes[x])
  {
  }

  /** `r` is `st` with each node of `es` given one empty text child. */
  predicate PaddedFrom(st: Store, r: Store, es: seq<NodeId>) {
    Valid(r) && r.next >= st.next
    && (forall x :: x in st.nodes ==> x in r.nodes && r.nodes[x].kind == st.nodes[x].kind)
    && (forall k :: 0 <= k < |es| ==>
          |Kids(r, es[k])| == 1 && IsEmptyText(r, Kids(r, es[k])[0]) && Kids(r, es[k])[0] >= st.next)
    && (forall x :: x in st.nodes && x !in es ==> Kids(r, x) == Kids(st, x))
  }

  lemma PadStep(st: Store, r1: Store, front: seq<NodeId>, id: NodeId)
    requires Valid(st) && PaddedFrom(st, r1, front) && id in st.nodes && id !in front && Kids(st, id) == []
    ensures PaddedFrom(st, PadOne(r1, id), front + [id])
  {
    PadOneEffect(r1, id);
    var r := PadOne(r1, id);
    var es := front + [id];
    forall k | 0 <= k < |es|
      ensures |Kids(r, es[k])| == 1 && IsEmptyText(r, Kids(r, es[k])[0]) && Kids(r, es[k])[0] >= st.next
    {
      if k < |front| {
        assert es[k] == front[k];
        var c := Kids(r1, front[k])[0];
        assert c in r1.nodes && c != id;
        assert r.nodes[c] == r1.nodes[c];
      }
    }
  }

  /** Splitting the last element off a distinct list. */
  lemma DistinctSnoc(es: seq<NodeId>)
    requires Distinct(es) && |es| > 0
    ensures var front := es[..|es| - 1];
      Distinct(front) && es[|es| - 1] !in front && front + [es[|es| - 1]] == es
      && (forall k :: 0 <= k < |front| ==> front[k] == es[k])
  {
    var front := es[..|es| - 1];
    var id := es[|es| - 1];
    assert forall k :: 0 <= k < |front| ==> front[k] == es[k];
    assert id !in front by {
      forall k | 0 <= k < |front| ensures front[k] != id {
        assert front[k] == es[k];
      }
    }
    SnocOfIndexed(front, es);
  }

  /** Padding a list of distinct childless nodes: each ends with one empty text
      child, every other node keeps its child list. */
  lemma {:induction false} PadAllEffect(st: Store, es: seq<NodeId>)
    requires Valid(st) && Distinct(es)
    requires forall k :: 0 <= k < |es| ==> es[k] in st.nodes && Kids(st, es[k]) == []
    ensures PaddedFrom(st, PadAll(st, es), es)
    decreases |es|
  {
    if |es| > 0 {
      var front := es[..|es| - 1];
      var id := es[|es| - 1];
      DistinctSnoc(es);
      PadAllEffect(st, front);
      PadStep(st, PadAll(st, front), front, id);
    }
  }

  /** `tidyView`: every childless element whose local name does not occur in
      the void-element list ends up with exactly one child, an empty text
      node; every other node keeps its children. */
  lemma TidyPads(st: Store)
    requires Valid(st) && Distinct(Elements(st))
    ensures var r := TidySpec(st);
      (forall e :: e in Elements(st) && NeedsPadding(st, e) ==> |Kids(r, e)| == 1 && IsEmptyText(r, Kids(r, e)[0]))
      && (forall x :: x in st.nodes && !(x in Elements(st) && NeedsPadding(st, x)) ==> Kids(r, x) == Kids(st, x))
  {
    var es := PaddingTargets(st, Elements(st));
    PaddingTargetsDistinct(st, Elements(st));
    assert forall k :: 0 <= k < |es| ==> es[k] in es;
    PadAllEffect(st, es);
    var r := TidySpec(st);
    forall e | e in Elements(st) && NeedsPadding(st, e)
      ensures |Kids(r, e)| == 1 && IsEmptyText(r, Kids(r, e)[0])
    {
      var k :| 0 <= k < |es| && es[k] == e;
    }
  }

  lemma {:induction false} PaddingTargetsDistinct(st: Store, ids: seq<NodeId>)
    requires Distinct(ids)
    ensures Distinct(PaddingTargets(st, ids))
    decreases |ids|
  {
    if |ids| > 0 {
      assert Distinct(ids[1..]) by {
        forall a, b | 0 <= a < b < |ids[1..]| ensures ids[1..][a] != ids[1..][b] {
          assert ids[1..][a] == ids[a + 1] && ids[1..][b] == ids[b + 1];
        }
      }
      PaddingTargetsDistinct(st, ids[1..]);
      assert ids[0] !in ids[1..];
    }
  }

  // ---------------------------------------------------------------- properties of set

  /** A null value deletes only in replace mode: under a gap step nothing happens. */
  lemma SetNullUnderGapIsNoop(env: Env, s: DocState, p: string, g: Gap, ref: Option<NodeId>)
    requires s.loaded && g != GapNone
    ensures SetSpec(env, s, p + GapSuffix(g), VNull, ref) == s
  {
    ParseGapSuffix(p, g);
  }

  /** One deletion step keeps the store consistent, does its own entry's work,
      and undoes no earlier one. */
  lemma DeleteEntryEffect(s: DocState, e: Loc)
    requires Consistent(s.store)
    ensures var r := DeleteEntry(s, e);
      Consistent(r.store) && r.errs == s.errs && r.loaded == s.loaded && r.fault == s.fault
      && (e.AttrLoc? ==> !HasAttr(r.store, e.owner, e.name))
      && (e.NodeLoc? ==> ParentOf(r.store, e.id) == None)
      && (forall o, n :: !HasAttr(s.store, o, n) ==> !HasAttr(r.store, o, n))
      && (forall x :: ParentOf(s.store, x) == None ==> ParentOf(r.store, x) == None)
  {
    match e
    case AttrLoc(o, n) =>
      RemoveAttrConsistent(s.store, o, n);
    case NodeLoc(id) =>
      if id in s.store.nodes {
        match s.store.nodes[id].parent
        case None =>
          EmptyDocumentConsistent(s.store.next);
        case Some(p) =>
          RemoveChildConsistent(s.store, p, id);
          RemoveChildShrinks(s.store, p, id);
      }
  }

  /** Deleting a list of matches: every matched attribute is gone and every
      matched node is out of the tree, and the log is untouched. */
  lemma {:induction false} DeleteAllEffect(s: DocState, es: seq<Loc>)
    requires Consistent(s.store)
    ensures var r := DeleteAll(s, es);
      Consistent(r.store) && r.errs == s.errs && r.loaded == s.loaded && r.fault == s.fault
      && (forall k :: 0 <= k < |es| && es[k].AttrLoc? ==> !HasAttr(r.store, es[k].owner, es[k].name))
      && (forall k :: 0 <= k < |es| && es[k].NodeLoc? ==> Detached(r.store, es[k].id))
    decreases |es|
  {
    if |es| > 0 {
      var front := es[..|es| - 1];
      DeleteAllEffect(s, front);
      var r1 := DeleteAll(s, front);
      DeleteEntryEffect(r1, es[|es| - 1]);
      var r := DeleteAll(s, es);
      assert r == DeleteEntry(r1, es[|es| - 1]);
      forall k | 0 <= k < |es| && es[k].NodeLoc?
        ensures Detached(r.store, es[k].id)
      {
        if k < |es| - 1 {
          assert front[k] == es[k];
          ParentlessIsDetached(r1.store, es[k].id);
        }
        ParentlessIsDetached(r.store, es[k].id);
      }
      forall k | 0 <= k < |es| - 1 && es[k].AttrLoc?
        ensures !HasAttr(r.store, es[k].owner, es[k].name)
      {
        assert front[k] == es[k];
      }
    }
  }

  /** `set($xpath, null)` in replace mode: a failed query only logs; otherwise
      every matched attribute is removed and every matched node detached. */
  lemma SetNullDeletes(env: Env, s: DocState, xpath: string, ref: Option<NodeId>)
    requires s.fault.None? && s.loaded && Consistent(s.store)
    requires ParseGap(xpath).1 == GapNone
    ensures var r := SetSpec(env, s, xpath, VNull, ref);
      r.loaded && r.fault.None? && Consistent(r.store)
      && match Resolve(env, s.store, ParseGap(xpath).0, ref)
         case None => r.store == s.store && r.errs == s.errs + "; "
         case Some(es) =>
           r.errs == s.errs
           && (forall k :: 0 <= k < |es| && es[k].AttrLoc? ==> !HasAttr(r.store, es[k].owner, es[k].name))
           && (forall k :: 0 <= k < |es| && es[k].NodeLoc? ==> Detached(r.store, es[k].id))
  {
    match Resolve(env, s.store, ParseGap(xpath).0, ref)
    case None =>
    case Some(es) => DeleteAllEffect(s, es);
  }

  /** Deleting the document node itself (it has no parent) leaves a new,
      empty document. */
  lemma SetNullOnDocumentResets(env: Env, s: DocState)
    requires s.fault.None? && s.loaded && ParentOf(s.store, DocId) == None && DocId in s.store.nodes
    ensures var r := SetSpec(env, s, ".", VNull, Some(DocId));
      r.store == EmptyDocument(s.store.next) && r.store.nodes.Keys == {DocId} && Kids(r.store, DocId) == []
  {
    assert ParseGap(".") == (".", GapNone);
    assert Resolve(env, s.store, ".", Some(DocId)) == Some([NodeLoc(DocId)]);
    assert [NodeLoc(DocId)][..0] == [];
    assert DeleteAll(s, [NodeLoc(DocId)]) == DeleteEntry(s, NodeLoc(DocId));
  }

  // ---------------------------------------------------------------- attribute edits

  lemma AttrStepNotGap(p: string, n: string)
    requires '/' !in n && '(' !in n
    ensures !EndsWith(p + "/@" + n, "-gap()")
  {
    var x := p + "/@" + n;
    if |x| >= 6 {
      var t := x[|x| - 6..];
      if |n| >= 2 {
        assert t[4] == n[|n| - 2];
      } else {
        assert t[4] == ("/@" + n)[|n|];
      }
      assert t[4] != '(';
    }
  }

  lemma AttrStepNotData(p: string, n: string)
    requires '/' !in n
    ensures !EndsWith(p + "/@" + n, "/data()")
  {
    var x := p + "/@" + n;
    if |x| >= 7 {
      var t := x[|x| - 7..];
      if |n| >= 7 {
        assert t[0] == n[|n| - 7];
        assert t[0] != '/';
      } else {
        assert t[6 - |n|] == x[|p| + 1] == '@';
        assert "/data()"[6 - |n|] != '@';
      }
    }
  }

  /** A plain attribute name leaves no gap step behind it. */
  lemma ParseGapAttrStep(p: string, n: string)
    requires '/' !in n && '(' !in n
    ensures ParseGap(p + "/@" + n) == (p + "/@" + n, GapNone)
  {
    AttrStepNotGap(p, n);
    AttrStepNotData(p, n);
  }

  /** The path of an attribute edit in gap mode `g`. */
  function AttrEditPath(p: string, n: string, g: Gap): string {
    p + "/@" + n + GapSuffix(g)
  }

  lemma ParseAttrEditPath(p: string, n: string, g: Gap)
    requires '/' !in n && '(' !in n
    ensures ParseGap(AttrEditPath(p, n, g)) == (p + "/@" + n, g)
  {
    if g == GapNone {
      assert AttrEditPath(p, n, g) == p + "/@" + n;
      ParseGapAttrStep(p, n);
    } else {
      ParseGapSuffix(p + "/@" + n, g);
    }
  }

  /** `set('…/@name', v)` on a single element: the value, escaped, replaces the
      attribute (no gap or `/data()`), is prepended to it (`preceding-gap()`)
      or appended to it (`child-gap()`, `following-gap()`); a missing attribute
      counts as empty. No other attribute and no other node changes. */
  lemma SetAttributeByName(env: Env, s: DocState, p: string, n: string, g: Gap, v: string, ref: Option<NodeId>, e: NodeId)
    requires s.fault.None? && s.loaded && Valid(s.store)
    requires '/' !in n && '(' !in n && env.validName(n)
    requires Resolve(env, s.store, p, ref) == Some([NodeLoc(e)]) && IsElement(s.store, e)
    ensures var r := SetSpec(env, s, AttrEditPath(p, n, g), VScalar(v), ref);
      r.fault.None? && r.loaded
      && HasAttr(r.store, e, n) && GetAttr(r.store, e, n) == GapEdit(GetAttr(s.store, e, n), Xmlenc(v), g)
      && (forall m :: m != n ==> HasAttr(r.store, e, m) == HasAttr(s.store, e, m) && GetAttr(r.store, e, m) == GetAttr(s.store, e, m))
      && (forall x :: x in s.store.nodes && x != e ==> x in r.store.nodes && r.store.nodes[x] == s.store.nodes[x])
  {
    SetAttributeByNameUnfold(env, s, p, n, g, v, ref, e);
    var made := StrToNodeSpec(env, s, Xmlenc(v));
    AttrByNameAfterAdd(s.store, made.0.store, e, g, n, Xmlenc(v));
  }

  lemma SetAttributeByNameUnfold(env: Env, s: DocState, p: string, n: string, g: Gap, v: string, ref: Option<NodeId>, e: NodeId)
    requires s.fault.None? && s.loaded && Valid(s.store)
    requires '/' !in n && '(' !in n && env.validName(n)
    requires Resolve(env, s.store, p, ref) == Some([NodeLoc(e)]) && IsElement(s.store, e)
    ensures var made := StrToNodeSpec(env, s, Xmlenc(v));
      SetSpec(env, s, AttrEditPath(p, n, g), VScalar(v), ref) == made.0.(store := AttrByName(made.0.store, e, g, n, Xmlenc(v)))
  {
    ParseAttrEditPath(p, n, g);
    SplitAttributeStepRoundTrip(p, n, env.validName);
    var path := p + "/@" + n;
    SetScalarDispatch(env, s, AttrEditPath(p, n, g), v, ref, path, g, p, Some(n), [NodeLoc(e)]);
    PlaceAllSingle(env, s, NodeLoc(e), g, Some(n), VScalar(Xmlenc(v)));
  }

  /** `set` with a string value whose target matched something. */
  lemma SetScalarDispatch(env: Env, s: DocState, xpath: string, v: string, ref: Option<NodeId>,
                          path: string, g: Gap, target: string, aName: Option<string>, es: seq<Loc>)
    requires s.fault.None? && s.loaded
    requires ParseGap(xpath) == (path, g) && SplitAttributeStep(path, env.validName) == (target, aName)
    requires Resolve(env, s.store, target, ref) == Some(es) && |es| > 0
    ensures SetSpec(env, s, xpath, VScalar(v), ref) == PlaceAll(env, s, es, g, aName, Prepared(VScalar(v), aName))
  {
  }

  lemma PlaceAllSingle(env: Env, s: DocState, x: Loc, g: Gap, aName: Option<string>, v: SetValue)
    requires s.fault.None?
    ensures PlaceAll(env, s, [x], g, aName, v) == PlaceEntry(env, s, x, g, aName, v)
  {
    assert [x][..0] == [];
  }

  /** The attribute edit on a store that extends `st` with fresh nodes. */
  lemma AttrByNameAfterAdd(st: Store, st1: Store, e: NodeId, g: Gap, n: string, w: string)
    requires Valid(st) && IsElement(st, e)
    requires forall x :: x in st.nodes && x < st.next ==> x in st1.nodes && st1.nodes[x] == st.nodes[x]
    ensures var r := AttrByName(st1, e, g, n, w);
      HasAttr(r, e, n) && GetAttr(r, e, n) == GapEdit(GetAttr(st, e, n), w, g)
      && (forall m :: m != n ==> HasAttr(r, e, m) == HasAttr(st, e, m) && GetAttr(r, e, m) == GetAttr(st, e, m))
      && (forall x :: x in st.nodes && x != e ==> x in r.nodes && r.nodes[x] == st.nodes[x])
  {
    assert e in st.nodes && e < st.next;
    assert st1.nodes[e] == st.nodes[e];
  }

  /** The attribute edit as the compiler writes it drops an attribute set to
      the empty string, where `tests/src/DocumentTest.php` expects `id=""`. */
  lemma AttrByNameAsWrittenDropsEmpty(st: Store, e: NodeId, n: string)
    requires IsElement(st, e)
    ensures !HasAttr(AttrByNameAsWritten(st, e, GapNone, n, ""), e, n)
    ensures HasAttr(AttrByName(st, e, GapNone, n, ""), e, n) && GetAttr(AttrByName(st, e, GapNone, n, ""), e, n) == ""
  {
    assert IsNullOrEmpty(Some(""));
  }

  // ---------------------------------------------------------------- placing nodes

  /** With a node value, no attribute step and a single target, `set` adds
      one fresh copy of the node (numbered `next`) and places it. */
  lemma SetNodeOnSingleTarget(env: Env, s: DocState, p: string, g: Gap, t: Tree, ref: Option<NodeId>, e: NodeId)
    requires s.fault.None? && s.loaded
    requires ParseGap(p + GapSuffix(g)) == (p, g) && g != GapData
    requires !Contains(p, "/@")
    requires Resolve(env, s.store, p, ref) == Some([NodeLoc(e)]) && e in s.store.nodes
    ensures var added := AddForest(s.store, [t], None);
      added.1 == [s.store.next]
      && SetSpec(env, s, p + GapSuffix(g), VNode(t), ref) == Place(s.(store := added.0), e, g, [s.store.next])
  {
    var xpath := p + GapSuffix(g);
    assert SplitAttributeStep(p, env.validName) == (p, None);
    assert [NodeLoc(e)][..0] == [];
    assert PlaceAll(env, s, [NodeLoc(e)], g, None, VNode(t)) == PlaceEntry(env, s, NodeLoc(e), g, None, VNode(t));
    assert SetSpec(env, s, xpath, VNode(t), ref) == PlaceAll(env, s, [NodeLoc(e)], g, None, VNode(t));
  }

  /** `set($xpath, $node)` on a single target `e`, child `i` of `q`: the fresh
      copy of the node (numbered `next`) replaces `e`, goes right before it,
      or right after it (appended when `e` is the last child); no other child
      of `q` moves. */
  lemma SetPlacesNode(env: Env, s: DocState, p: string, g: Gap, t: Tree, ref: Option<NodeId>, e: NodeId, q: NodeId, i: nat)
    requires s.fault.None? && s.loaded && Valid(s.store)
    requires g == GapNone || g == GapPreceding || g == GapFollowing
    requires g == GapNone ==> !EndsWith(p, "-gap()") && !EndsWith(p, "/data()")
    requires !Contains(p, "/@")
    requires Resolve(env, s.store, p, ref) == Some([NodeLoc(e)])
    requires e in s.store.nodes && ParentOf(s.store, e) == Some(q) && q != e && q in s.store.nodes
    requires i < |Kids(s.store, q)| && Kids(s.store, q)[i] == e && Distinct(Kids(s.store, q))
    ensures var r := SetSpec(env, s, p + GapSuffix(g), VNode(t), ref);
      var x := s.store.next;
      var k := Kids(s.store, q);
      r.fault.None? && ParentOf(r.store, x) == Some(q)
      && (g == GapNone ==> Kids(r.store, q) == k[..i] + [x] + k[i + 1..] && ParentOf(r.store, e) == None)
      && (g == GapPreceding ==> Kids(r.store, q) == k[..i] + [x] + k[i..])
      && (g == GapFollowing ==> Kids(r.store, q) == k[..i + 1] + [x] + k[i + 1..])
  {
    if g == GapNone {
      assert p + GapSuffix(g) == p;
    } else {
      ParseGapSuffix(p, g);
    }
    SetNodeOnSingleTarget(env, s, p, g, t, ref, e);
    var x := s.store.next;
    var st1 := AddForest(s.store, [t], None).0;
    assert Kids(st1, q) == Kids(s.store, q);
    assert ParentOf(st1, e) == Some(q);
    if g == GapNone {
      ReplaceChildPlaces(st1, q, e, [x], i);
    } else if g == GapPreceding {
      InsertBeforePlaces(st1, q, e, [x], i);
    } else {
      InsertAfterPlaces(st1, q, e, [x], i);
    }
  }

  /** `…/child-gap()`: the fresh copy becomes the last child of an element
      target; a text, CDATA or comment target takes no children. */
  lemma SetAppendsChild(env: Env, s: DocState, p: string, t: Tree, ref: Option<NodeId>, e: NodeId)
    requires s.fault.None? && s.loaded && Valid(s.store)
    requires !Contains(p, "/@")
    requires Resolve(env, s.store, p, ref) == Some([NodeLoc(e)]) && e in s.store.nodes
    ensures var r := SetSpec(env, s, p + GapSuffix(GapChild), VNode(t), ref);
      var x := s.store.next;
      r.fault.None?
      && (!IsCharacterData(s.store.nodes[e].kind) ==> Kids(r.store, e) == Kids(s.store, e) + [x] && ParentOf(r.store, x) == Some(e))
      && (IsCharacterData(s.store.nodes[e].kind) ==> Kids(r.store, e) == Kids(s.store, e) && ParentOf(r.store, x) == None)
  {
    ParseGapSuffix(p, GapChild);
    SetNodeOnSingleTarget(env, s, p, GapChild, t, ref, e);
    var x := s.store.next;
    var st1 := AddForest(s.store, [t], None).0;
    assert Kids(st1, e) == Kids(s.store, e);
    if !IsCharacterData(s.store.nodes[e].kind) {
      AppendChildrenPlaces(st1, e, [x]);
    }
  }

  // ---------------------------------------------------------------- properties of get, consume, count

  /** `get` dispatches on the number of matches: none gives null, several give
      the list, and a single attribute or element gives its value or a copy of
      its tree. */
  lemma GetDispatch(env: Env, s: DocState, xpath: string, ref: Option<NodeId>, es: seq<Loc>)
    requires s.fault.None? && s.loaded && Valid(s.store)
    requires Resolve(env, s.store, xpath, ref) == Some(es)
    ensures var g := GetSpec(env, s, xpath, ref);
      g.1 == s
      && (g.0.GNull? <==> |es| == 0)
      && (|es| >= 2 ==> g.0 == GList(es))
      && (|es| == 1 && es[0].AttrLoc? ==> g.0 == GString(GetAttr(s.store, es[0].owner, es[0].name)))
      && (|es| == 1 && es[0].NodeLoc? && IsElement(s.store, es[0].id) ==>
            g.0.GDocument? && g.0.tree.TElement?
            && g.0.tree.name == s.store.nodes[es[0].id].kind.name
            && g.0.tree.attrs == s.store.nodes[es[0].id].attrs)
  {
  }

  /** `count` is the number of matches, and it is zero exactly when `get`
      finds nothing. */
  lemma CountAgreesWithGet(env: Env, s: DocState, xpath: string, ref: Option<NodeId>)
    requires s.fault.None? && s.loaded
    ensures var c := CountSpec(env, s, xpath, ref);
      var g := GetSpec(env, s, xpath, ref);
      (Resolve(env, s.store, xpath, ref).Some? ==> c.0 == |Resolve(env, s.store, xpath, ref).value| && c.1 == s)
      && (c.0 == 0 <==> g.0.GNull?)
  {
  }

  /** `consume` is `get` followed by deleting the matches, and the deletion
      happens only when `get` found something. */
  lemma ConsumeEffect(env: Env, s: DocState, xpath: string, ref: Option<NodeId>)
    requires s.fault.None? && s.loaded && Consistent(s.store) && ParseGap(xpath) == (xpath, GapNone)
    ensures var c := ConsumeSpec(env, s, xpath, ref);
      c.0 == GetSpec(env, s, xpath, ref).0
      && match Resolve(env, s.store, xpath, ref)
         case None => c.0.GNull? && c.1.store == s.store && c.1.errs == s.errs + "; "
         case Some(es) =>
           (|es| == 0 ==> c.0.GNull? && c.1 == s)
           && (|es| > 0 ==>
                 !c.0.GNull? && c.1.errs == s.errs && c.1.fault.None? && Consistent(c.1.store)
                 && (forall k :: 0 <= k < |es| && es[k].AttrLoc? ==> !HasAttr(c.1.store, es[k].owner, es[k].name))
                 && (forall k :: 0 <= k < |es| && es[k].NodeLoc? ==> Detached(c.1.store, es[k].id)))
  {
    match Resolve(env, s.store, xpath, ref)
    case None =>
    case Some(es) =>
      if |es| > 0 {
        SetNullDeletes(env, s, xpath, ref);
      }
  }

  // ---------------------------------------------------------------- the document object

  /** A `Document`: the node store, the error log, whether a document is
      loaded, and the fatal error that ended the request, if any. Every
      operation is proved to change the state exactly as its specification
      function above says. */
  class Document {
    var store: Store
    var errs: string
    var loaded: bool
    var fault: Option<string>
    const env: Env

    function State(): DocState
      reads this
    {
      DocState(store, errs, loaded, fault)
    }

    /** A document over the nodes its markup parsed to. */
    constructor (env: Env, st: Store)
      ensures this.env == env && State() == DocState(st, "", true, None)
    {
      this.env := env;
      store := st;
      errs := "";
      loaded := true;
      fault := None;
    }

    /** A document whose markup could not be loaded (`$doc` stays null). */
    constructor Unloaded(env: Env)
      ensures this.env == env && !loaded && errs == "" && fault.None?
    {
      this.env := env;
      store := EmptyDocument(1);
      errs := "";
      loaded := false;
      fault := None;
    }

    /** `conClass`: a deep copy of another document's nodes, with a log of its own. */
    constructor Clone(other: Document)
      ensures env == other.env && State() == DocState(other.store, "", other.loaded, None)
    {
      env := other.env;
      store := other.store;
      errs := "";
      loaded := other.loaded;
      fault := None;
    }

    /** `doMsg`. */
    method DoMsg(errno: string, errstr: string)
      modifies this
      ensures State() == old(State()).(errs := DoMsgSpec(old(errs), errno, errstr))
    {
      errs := errs + errstr + "; ";
    }

    /** `initDoc`: a new, empty document. */
    method InitDoc()
      modifies this
      ensures State() == old(State()).(store := EmptyDocument(old(store).next))
    {
      store := EmptyDocument(store.next);
    }

    method DeleteEntryAt(e: Loc)
      modifies this
      ensures State() == DeleteEntry(old(State()), e)
    {
      match e {
        case AttrLoc(o, n) =>
          store := RemoveAttr(store, o, n);
        case NodeLoc(id) =>
          if id in store.nodes {
            match store.nodes[id].parent {
              case None => InitDoc();
              case Some(p) => store := RemoveChild(store, p, id);
            }
          }
      }
    }

    method DeleteEntries(es: seq<Loc>)
      modifies this
      ensures State() == DeleteAll(old(State()), es)
    {
      for i := 0 to |es|
        invariant State() == DeleteAll(old(State()), es[..i])
      {
        assert es[..i + 1][..i] == es[..i];
        DeleteEntryAt(es[i]);
      }
      assert es[..|es|] == es;
    }

    /** `strToNode`. */
    method StrToNode(text: string) returns (ids: seq<NodeId>)
      modifies this
      ensures (State(), ids) == StrToNodeSpec(env, old(State()), text)
    {
      errs := "";
      var parsed := env.parse(Xmlenc(text));
      errs := errs + parsed.warnings;
      var trees := parsed.nodes;
      if Contains(errs, "parser error") {
        trees := [TText(text)];
      }
      var added := AddForest(store, trees, None);
      store := added.0;
      ids := added.1;
    }

    /** The placement switch of `set` for one node target. */
    method PlaceAt(id: NodeId, gap: Gap, ids: seq<NodeId>)
      modifies this
      ensures State() == Place(old(State()), id, gap, ids)
    {
      if gap == GapChild {
        if !(id in store.nodes && IsCharacterData(store.nodes[id].kind)) {
          store := AppendChildren(store, id, ids);
        }
        return;
      }
      var parent := ParentOf(store, id);
      if parent.None? {
        fault := Some("Call to a member function on null");
        return;
      }
      var p := parent.value;
      if gap == GapPreceding {
        store := InsertBefore(store, p, id, ids);
      } else if gap == GapFollowing {
        store := InsertAfter(store, p, id, ids);
      } else {
        store := ReplaceChild(store, p, id, ids);
      }
    }

    /** A node list: each item is copied in and placed in turn. */
    method PlaceListAt(id: NodeId, gap: Gap, trees: seq<Tree>)
      modifies this
      ensures State() == PlaceList(old(State()), id, gap, trees)
    {
      for j := 0 to |trees|
        invariant State() == PlaceList(old(State()), id, gap, trees[..j])
      {
        assert trees[..j + 1][..j] == trees[..j];
        if fault.None? {
          var added := AddForest(store, [trees[j]], None);
          store := added.0;
          PlaceAt(id, gap, added.1);
        }
      }
      assert trees[..|trees|] == trees;
    }

    /** One matched entry under a non-null value. */
    method PlaceEntryAt(e: Loc, gap: Gap, aName: Option<string>, v: SetValue)
      modifies this
      ensures State() == PlaceEntry(env, old(State()), e, gap, aName, v)
    {
      match e {
        case AttrLoc(o, n) =>
          if v.VScalar? {
            store := SetAttr(store, o, n, GapEdit(GetAttr(store, o, n), Xmlenc(v.text), gap));
          }
        case NodeLoc(id) =>
          if id !in store.nodes {
            return;
          }
          var node := store.nodes[id];
          if node.kind.CDataNode? && v.VScalar? {
            if gap != GapData {
              store := SetData(store, id, GapEdit(node.data, v.text, gap));
            }
          } else if node.kind.CommentNode? && gap == GapData {
            if v.VScalar? {
              store := SetData(store, id, StripCommentMarkers(v.text));
            }
          } else {
            PlaceValueAt(id, gap, aName, v);
          }
      }
    }

    method PlaceValueAt(id: NodeId, gap: Gap, aName: Option<string>, v: SetValue)
      requires id in store.nodes
      modifies this
      ensures State() == PlaceValue(env, old(State()), id, gap, aName, v)
    {
      match v {
        case VList(trees) =>
          PlaceListAt(id, gap, trees);
        case VScalar(text) =>
          PlaceTextAt(id, gap, aName, text);
        case VNode(t) =>
          PlaceTreeAt(id, gap, aName, t);
        case _ =>
      }
    }

    method PlaceTextAt(id: NodeId, gap: Gap, aName: Option<string>, text: string)
      requires id in store.nodes
      modifies this
      ensures State() == PlaceText(env, old(State()), id, gap, aName, text)
    {
      var node := store.nodes[id];
      var ids := StrToNode(text);
      if aName.Some? {
        if node.kind.Element? {
          store := AttrByName(store, id, gap, aName.value, text);
        }
      } else {
        PlaceAt(id, gap, ids);
      }
    }

    method PlaceTreeAt(id: NodeId, gap: Gap, aName: Option<string>, t: Tree)
      requires id in store.nodes
      modifies this
      ensures State() == PlaceTree(old(State()), id, gap, aName, t)
    {
      var node := store.nodes[id];
      var added := AddForest(store, [t], None);
      store := added.0;
      if aName.Some? {
        if node.kind.Element? {
          NodeAsAttrAt(id, gap, aName.value, t);
        }
      } else {
        PlaceAt(id, gap, added.1);
      }
    }

    /** A node handed to an attribute of element `e`, as `NodeAsAttr`. */
    method NodeAsAttrAt(e: NodeId, gap: Gap, name: string, t: Tree)
      modifies this
      ensures State() == NodeAsAttr(old(State()), e, gap, name, t)
    {
      if gap == GapNone || gap == GapData {
        DoMsg("2", TrimRejectsObject);
        DoMsg("2", SetAttributeRejectsObject);
      } else {
        DoMsg("4096", "Object of class " + DomClass(t) + " could not be converted to string");
        var original := GetAttr(store, e, name);
        store := SetAttr(store, e, name, GapEdit(original, "", gap));
      }
    }

    method PlaceEntries(es: seq<Loc>, gap: Gap, aName: Option<string>, v: SetValue)
      modifies this
      ensures State() == PlaceAll(env, old(State()), es, gap, aName, v)
    {
      for i := 0 to |es|
        invariant State() == PlaceAll(env, old(State()), es[..i], gap, aName, v)
      {
        assert es[..i + 1][..i] == es[..i];
        if fault.None? {
          PlaceEntryAt(es[i], gap, aName, v);
        }
      }
      assert es[..|es|] == es;
    }

    /** The gap step of `set`, taken off the path as `set` removes it. */
    static method SplitGap(xpath: string) returns (path: string, gap: Gap)
      ensures (path, gap) == ParseGap(xpath)
    {
      path := xpath;
      gap := GapNone;
      if EndsWith(path, "-gap()") {
        path := path[..|path| - 6];
        if EndsWith(path, "/child") {
          path := path[..|path| - 6];
          gap := GapChild;
        } else if EndsWith(path, "/preceding") {
          path := path[..|path| - 10];
          gap := GapPreceding;
        } else if EndsWith(path, "/following") {
          path := path[..|path| - 10];
          gap := GapFollowing;
        }
      } else if EndsWith(path, "/data()") {
        path := path[..|path| - 7];
        gap := GapData;
      }
    }

    /** The attribute step of `set`: the name after the last `/@`, cut off
        the path when it is a valid name. */
    method SplitAttr(path: string) returns (target: string, aName: Option<string>)
      ensures (target, aName) == SplitAttributeStep(path, env.validName)
    {
      target := path;
      aName := None;
      var atPoint := LastIndexOf(path, "/@");
      if atPoint.Some? {
        aName := Some(path[atPoint.value + 2..]);
        if env.validName(aName.value) {
          target := path[..atPoint.value];
        }
      }
    }

    /** The branch of `set` for values other than null. */
    method SetValueAt(path: string, gap: Gap, value: SetValue, ref: Option<NodeId>)
      requires fault.None? && loaded && !value.VNull? && !value.VOther?
      modifies this
      ensures var target := SplitAttributeStep(path, env.validName).0;
        var aName := SplitAttributeStep(path, env.validName).1;
        State() == match Resolve(env, old(store), target, ref)
          case None => Log(old(State()), "NView::set() " + target + " failed.")
          case Some(es) => if |es| == 0 then old(State()) else PlaceAll(env, old(State()), es, gap, aName, Prepared(value, aName))
    {
      var target, aName := SplitAttr(path);
      var entries: Option<seq<Loc>>;
      if ref.Some? && target == "." {
        SelfShortcut(env, store, ref.value);
        entries := Some([NodeLoc(ref.value)]);
      } else {
        entries := Resolve(env, store, target, ref);
      }
      if entries.None? {
        DoMsg("NView::set() " + target + " failed.", "");
      } else if |entries.value| != 0 {
        var v := value;
        if aName.Some? && v.VScalar? {
          v := VScalar(Xmlenc(v.text));
        }
        PlaceEntries(entries.value, gap, aName, v);
      }
    }

    /** `set($xpath, $value, $ref)`. */
    method Set(xpath: string, value: SetValue, ref: Option<NodeId>)
      modifies this
      ensures State() == SetSpec(env, old(State()), xpath, value, ref)
    {
      if fault.Some? {
        return;
      }
      if !loaded {
        DoMsg("set() " + xpath + " attempted on a non-document.", "");
        return;
      }
      var path, gap := SplitGap(xpath);
      match value {
        case VNull =>
          if gap == GapNone {
            var entries := Resolve(env, store, path, ref);
            if entries.None? {
              DoMsg("NView::set() " + path + " failed.", "");
            } else {
              DeleteEntries(entries.value);
            }
          }
        case VOther(t) =>
          DoMsg("NView: Unknown value type of object " + t + " found", "");
        case _ =>
          SetValueAt(path, gap, value, ref);
      }
    }

    /** `get($xpath, $ref)`. */
    method Get(xpath: string, ref: Option<NodeId>) returns (r: GetResult)
      modifies this
      ensures (r, State()) == GetSpec(env, old(State()), xpath, ref)
    {
      r := GNull;
      if fault.Some? {
        return;
      }
      if !loaded {
        DoMsg("NView::get() " + xpath + " attempted on a non-document.", "");
        return;
      }
      var entries := Resolve(env, store, xpath, ref);
      if entries.None? {
        DoMsg("NView::get() " + xpath + " failed.", "");
      } else if |entries.value| == 1 {
        r := EntryValue(store, entries.value[0]);
      } else if |entries.value| > 1 {
        r := GList(entries.value);
      }
    }

    /** `consume($xpath, $ref)`. */
    method Consume(xpath: string, ref: Option<NodeId>) returns (r: GetResult)
      modifies this
      ensures (r, State()) == ConsumeSpec(env, old(State()), xpath, ref)
    {
      r := Get(xpath, ref);
      if !r.GNull? {
        Set(xpath, VNull, ref);
      }
    }

    /** `count($xpath, $ref)`. */
    method Count(xpath: string, ref: Option<NodeId>) returns (n: nat)
      modifies this
      ensures (n, State()) == CountSpec(env, old(State()), xpath, ref)
    {
      n := 0;
      if fault.Some? {
        return;
      }
      if !loaded {
        DoMsg("NView: count() " + xpath + " attempted on a non-document.", "");
        return;
      }
      var entries := Resolve(env, store, xpath, ref);
      if entries.None? {
        DoMsg("NView: count() " + xpath + " failed.", "");
      } else {
        n := |entries.value|;
      }
    }

    /** An error PHP does not recover from: the request ends here, and the
        document takes no further edits. */
    method Abort(why: string)
      modifies this
      ensures State() == Fail(old(State()), why)
    {
      fault := Some(why);
    }

    /** DOM `removeChild` on a node of this document. */
    method RemoveChildAt(p: NodeId, c: NodeId)
      modifies this
      ensures State() == old(State()).(store := RemoveChild(old(store), p, c))
    {
      store := RemoveChild(store, p, c);
    }

    /** `tidyView`, which `show` and `text` call on a loaded document: every
        element it finds childless and not void gets an empty text child. */
    method TidyView()
      requires loaded
      modifies this
      ensures State() == old(State()).(store := TidySpec(old(store)))
    {
      var es := PaddingTargets(store, Elements(store));
      ghost var st0 := store;
      for i := 0 to |es|
        invariant store == PadAll(st0, es[..i])
        invariant errs == old(errs) && loaded == old(loaded) && fault == old(fault)
      {
        assert es[..i + 1][..i] == es[..i];
        store := PadOne(store, es[i]);
      }
      assert es[..|es|] == es;
    }
  }
}
