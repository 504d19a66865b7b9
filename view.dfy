/** The directive layer (`View.php`): a view holds a document and its data.
    Compiling it first fills the `data-v.contents` slots with sections of a
    child document, then runs, for each element that carries a `data-v.`
    attribute, the handlers its attributes name, each as one or more `set`
    calls on the document. The services the handlers reach (the view
    factory, the gate, authentication, the translator, the URL generator)
    are given as functions. */
module ViewModel {
  import opened Strings
  import opened Values
  import opened Paths
  import opened Dom
  import opened Doc
  import opened Directives
  import opened Markup

  /** What a nested view is made from: a view name, or what `get` or
      `consume` returned (a copied element, a node, null, ...). */
  datatype Template = Named(name: string) | Fragment(source: GetResult)

  /** The services the handlers call.
      `compile(t, data, child)`: `$factory->make(t, data)` with `child` set,
      then `compile()`, as the value `set` is handed;
      `allows`: `Gate::allows(activity, value)`; `loggedIn`: `Auth::check()`;
      `translate`: the translator's `trans`; `route`: `URL::route`;
      `asset`: the URL generator's `asset`; `hasPages`: the paginator's
      `hasPages()`; `size`: `count` of a countable object. */
  datatype Services = Services(
    compile: (Template, Context, Option<SetValue>) -> SetValue,
    allows: (string, Value) -> bool,
    loggedIn: bool,
    translate: string -> string,
    route: (string, Value) -> string,
    asset: string -> string,
    hasPages: Value -> bool,
    size: Value -> nat)

  /** `View::DEFAULT_SECTION`: the whole child document. */
  const DefaultSection: string := "#document"
  const ContentsAttr: string := "data-v.contents"
  const ContainerAttr: string := "data-v.container"
  const ChildGapPath: string := "./child-gap()"

  lemma ChildGapPathParts()
    ensures ChildGapPath == SelfPath + GapSuffix(GapChild)
    ensures !Contains(SelfPath, "/@")
  {
  }

  /** How `set` sees a value handed to it: null, a scalar through `strval`,
      a node, or an array or plain object, which it only logs. A document
      without a document element unwraps to null after the type switch, and
      is then placed as the string `""`. */
  function ToSetValue(v: Value): (r: SetValue)
    ensures r.VNull? <==> v.Null?
    ensures v.Bool? || v.Int? || v.Str? ==> r == VScalar(StrVal(v))
    ensures v.Arr? || v.Obj? ==> r.VOther?
    ensures v == Markup(None) ==> r == VScalar("")
    ensures r.VNode? <==> v.Markup? && v.tree.Some?
  {
    match v
    case Null => VNull
    case Bool(_) => VScalar(StrVal(v))
    case Int(_) => VScalar(StrVal(v))
    case Str(s) => VScalar(s)
    case Arr(_, _) => VOther("array")
    case Obj(_, _) => VOther("object")
    case Markup(t) => if t.Some? then VNode(t.value) else VScalar("")
  }

  /** PHP `count` with countable objects asking the object. */
  function Size(svc: Services, v: Value): nat {
    if v.Obj? then svc.size(v) else Count(v)
  }

  /** `getNodeAttribute($node, $name)`: the prefixed attribute's value, ""
      when it is absent. */
  function NodeAttr(st: Store, node: NodeId, name: string): string {
    GetAttr(st, node, Prefix + name)
  }

  /** `getCompilerParameter` of a node. */
  function Param(st: Store, node: NodeId, data: Context): Value {
    CompilerParameter(NodeAttr(st, node, "param"), NodeAttr(st, node, "literal"), data)
  }

  /** `matching`: the node's parameter is loosely equal to the attribute's value. */
  predicate Matching(st: Store, node: NodeId, a: Attr, data: Context) {
    LooseEq(Param(st, node, data), ParamValue(a.value, data))
  }

  /** `compileAsset` writes `href` on a `link` element and `src` elsewhere. */
  function AssetProperty(st: Store, node: NodeId): string {
    if node in st.nodes && st.nodes[node].kind == Element("link") then "href" else "src"
  }

  /** `(array)` of a value used as view data: an array's entries, nothing otherwise. */
  function AsContext(v: Value): Context {
    match v
    case Arr(ks, vs) => PairsToMap(ks, vs)
    case _ => map[]
  }

  /** The entries of an array, the i-th key paired with the i-th value; a key
      given twice keeps the value of its last pair (see PairsToMapEntries). */
  function PairsToMap(ks: seq<string>, vs: seq<Value>): (r: Context)
    ensures forall k :: k in r ==> k in ks
    decreases |ks|
  {
    if |ks| == 0 || |vs| == 0 then map[]
    else
      var rest := PairsToMap(ks[1..], vs[1..]);
      if ks[0] in rest then rest else rest[ks[0] := vs[0]]
  }

  /** No pair after the i-th has the same key. */
  predicate LastPair(ks: seq<string>, vs: seq<Value>, i: int)
    requires 0 <= i < |ks|
  {
    forall j :: i < j < |ks| && j < |vs| ==> ks[j] != ks[i]
  }

  /** The entries are exactly the keys of the pairs, and each key has the value
      of its last pair. */
  lemma PairsToMapEntries(ks: seq<string>, vs: seq<Value>)
    ensures forall k :: k in PairsToMap(ks, vs) ==> exists i :: 0 <= i < |ks| && i < |vs| && ks[i] == k
    ensures forall i :: 0 <= i < |ks| && i < |vs| ==> ks[i] in PairsToMap(ks, vs)
    ensures forall i :: 0 <= i < |ks| && i < |vs| && LastPair(ks, vs, i) ==> PairsToMap(ks, vs)[ks[i]] == vs[i]
  {
    PairsToMapKeys(ks, vs);
    PairsToMapLast(ks, vs);
  }

  /** The entries are exactly the keys of the pairs. */
  lemma {:induction false} PairsToMapKeys(ks: seq<string>, vs: seq<Value>)
    ensures forall k :: k in PairsToMap(ks, vs) ==> exists i :: 0 <= i < |ks| && i < |vs| && ks[i] == k
    ensures forall i :: 0 <= i < |ks| && i < |vs| ==> ks[i] in PairsToMap(ks, vs)
    decreases |ks|
  {
    if |ks| > 0 && |vs| > 0 {
      var r := PairsToMap(ks, vs);
      PairsToMapKeys(ks[1..], vs[1..]);
      forall k | k in r
        ensures exists i :: 0 <= i < |ks| && i < |vs| && ks[i] == k
      {
        if k != ks[0] {
          var i :| 0 <= i < |ks[1..]| && i < |vs[1..]| && ks[1..][i] == k;
          assert ks[i + 1] == k;
        }
      }
      forall i | 1 <= i < |ks| && i < |vs|
        ensures ks[i] in r
      {
        assert ks[1..][i - 1] == ks[i];
      }
    }
  }

  /** A key has the value of its last pair. */
  lemma {:induction false} PairsToMapLast(ks: seq<string>, vs: seq<Value>)
    ensures forall i :: 0 <= i < |ks| && i < |vs| && LastPair(ks, vs, i) ==> ks[i] in PairsToMap(ks, vs) && PairsToMap(ks, vs)[ks[i]] == vs[i]
    decreases |ks|
  {
    if |ks| > 0 && |vs| > 0 {
      var r := PairsToMap(ks, vs);
      PairsToMapKeys(ks[1..], vs[1..]);
      PairsToMapLast(ks[1..], vs[1..]);
      forall i | 0 <= i < |ks| && i < |vs| && LastPair(ks, vs, i)
        ensures ks[i] in r && r[ks[i]] == vs[i]
      {
        if i == 0 {
          forall j | 0 <= j < |ks[1..]| && j < |vs[1..]| ensures ks[1..][j] != ks[0] {
            assert ks[1..][j] == ks[j + 1];
          }
          assert ks[0] !in PairsToMap(ks[1..], vs[1..]);
        } else {
          assert ks[1..][i - 1] == ks[i] && vs[1..][i - 1] == vs[i];
          forall j | i - 1 < j < |ks[1..]| && j < |vs[1..]| ensures ks[1..][j] != ks[1..][i - 1] {
            assert ks[1..][j] == ks[j + 1];
          }
          assert LastPair(ks[1..], vs[1..], i - 1);
        }
      }
    }
  }

  // ---------------------------------------------------------------- removing a node

  /** The node is out of the tree and has no children left. */
  predicate Removed(st: Store, node: NodeId) {
    Detached(st, node) && Kids(st, node) == []
  }

  /** `deleteDescendants($node)`, unless the request has already ended. The
      recursion is bounded by the number of ids handed out, which no chain
      of nodes exceeds. */
  function ClearBelow(s: DocState, node: NodeId): DocState {
    if s.fault.Some? then s else s.(store := DeleteDescendants(s.store, node, s.store.next))
  }

  /** `set('.', null, $node)` followed by `deleteDescendants($node)`. */
  function RemoveSubtree(env: Env, s: DocState, node: NodeId): DocState {
    ClearBelow(SetSpec(env, s, SelfPath, VNull, Some(node)), node)
  }

  function RemoveIf(env: Env, s: DocState, node: NodeId, remove: bool): DocState {
    if remove then RemoveSubtree(env, s, node) else s
  }

  /** Removing a node that is in the tree takes it out, leaves it without
      children, and changes neither the log nor the fault. */
  lemma RemoveSubtreeEffect(env: Env, s: DocState, node: NodeId)
    requires s.fault.None? && s.loaded && Valid(s.store) && Consistent(s.store)
    requires node in s.store.nodes && ParentOf(s.store, node).Some?
    ensures var r := RemoveSubtree(env, s, node);
      Removed(r.store, node) && r.fault.None? && r.loaded && r.errs == s.errs && r != s
  {
    var p := ParentOf(s.store, node).value;
    assert ParseGap(SelfPath) == (SelfPath, GapNone);
    SelfShortcut(env, s.store, node);
    SetNullDeletes(env, s, SelfPath, Some(node));
    var s1 := SetSpec(env, s, SelfPath, VNull, Some(node));
    assert Resolve(env, s.store, SelfPath, Some(node)) == Some([NodeLoc(node)]);
    assert s1 == DeleteAll(s, [NodeLoc(node)]);
    assert [NodeLoc(node)][..0] == [];
    assert DeleteAll(s, [NodeLoc(node)]) == DeleteEntry(DeleteAll(s, []), NodeLoc(node));
    assert s1 == DeleteEntry(s, NodeLoc(node));
    assert s1.store == RemoveChild(s.store, p, node);
    assert node in s1.store.nodes && s1.store.next == s.store.next;
    assert Detached(s1.store, node);
    var st := DeleteDescendants(s1.store, node, s1.store.next);
    ShrinksKeepsDetached(s1.store, st, node);
  }

  /** `set('.', null, $node)` on a node that is in the tree takes it out
      and changes neither the log nor the fault. */
  lemma DetachSelf(env: Env, s: DocState, node: NodeId)
    requires s.fault.None? && s.loaded && Valid(s.store) && Consistent(s.store)
    requires node in s.store.nodes && ParentOf(s.store, node).Some?
    ensures var r := SetSpec(env, s, SelfPath, VNull, Some(node));
      Detached(r.store, node) && r.fault.None? && r.loaded && r.errs == s.errs && r != s
  {
    var p := ParentOf(s.store, node).value;
    assert ParseGap(SelfPath) == (SelfPath, GapNone);
    SelfShortcut(env, s.store, node);
    SetNullDeletes(env, s, SelfPath, Some(node));
    var s1 := SetSpec(env, s, SelfPath, VNull, Some(node));
    assert s1 == DeleteAll(s, [NodeLoc(node)]);
    assert [NodeLoc(node)][..0] == [];
    assert DeleteAll(s, [NodeLoc(node)]) == DeleteEntry(DeleteAll(s, []), NodeLoc(node));
    assert s1.store == RemoveChild(s.store, p, node);
  }

  // ---------------------------------------------------------------- the handlers

  /** The handlers that only decide whether the node stays. */
  predicate IsConditional(h: Handler) {
    h == Exists || h == NotExists || h == Match || h == NoMatch || h == Can || h == Cannot || h == Auth
  }

  /** When a conditional handler removes its node: `exists` when the path
      has no value, `empty` when it has one, `match` when the parameter
      differs loosely from the value, `nomatch` when it equals it, `can`
      when the gate denies, `cannot` when it allows, `auth` when being
      logged in differs from the attribute read as a boolean. */
  predicate Removes(svc: Services, data: Context, st: Store, h: Handler, node: NodeId, a: Attr) {
    match h
    case Exists => !HasValue(a.value, data)
    case NotExists => HasValue(a.value, data)
    case Match => !Matching(st, node, a, data)
    case NoMatch => Matching(st, node, a, data)
    case Can => !svc.allows(a.value, Param(st, node, data))
    case Cannot => svc.allows(a.value, Param(st, node, data))
    case Auth => svc.loggedIn != FilterBool(a.value)
    case _ => false
  }

  /** The handlers that make a single `set` call on their node. */
  predicate IsSetter(h: Handler) {
    h == ChildGap || h == Replace || h == Translations || h == Url || h == Attribute || h == Route || h == Asset
  }

  /** The path (relative to the node) and the value of a single-`set`
      handler: `child` appends the value, `replace` replaces the node with
      it, `tr` replaces it with the translation, `url` writes the
      substituted text to `href`, `attr.<n>` writes it to `<n>`, `route`
      writes the route's URL to `href`, `asset` writes the asset URL to
      `href` or `src`. */
  function EditPath(st: Store, h: Handler, node: NodeId, a: Attr): string {
    match h
    case ChildGap => ChildGapPath
    case Url => AttrPath(HrefAttr)
    case Attribute => AttrPath(AttributeTarget(a.name))
    case Route => AttrPath(HrefAttr)
    case Asset => AttrPath(AssetProperty(st, node))
    case _ => SelfPath
  }

  /** The value a single-`set` handler writes. */
  function EditValue(svc: Services, data: Context, st: Store, h: Handler, node: NodeId, a: Attr): SetValue {
    match h
    case ChildGap => ToSetValue(ParamValue(a.value, data))
    case Replace => ToSetValue(ParamValue(a.value, data))
    case Translations => VScalar(svc.translate(a.value))
    case Url => VScalar(Filled(a.value, data))
    case Attribute => VScalar(Filled(a.value, data))
    case Route => VScalar(svc.route(Filled(a.value, data), Param(st, node, data)))
    case Asset => VScalar(svc.asset(a.value))
    case _ => VNull
  }

  /** An attribute value with its `{path}` placeholders filled from the data. */
  function Filled(text: string, data: Context): string {
    Substitute(text, PathText(data))
  }

  /** The link attribute `url` and `route` write. */
  const HrefAttr: string := "href"

  /** `compileErrors`: with errors in the data the node becomes the compiled
      error view, otherwise it is removed. */
  function ErrorsSpec(env: Env, svc: Services, data: Context, s: DocState, node: NodeId, a: Attr): DocState {
    var errors := if "errors" in data then data["errors"] else Null;
    if Size(svc, errors) > 0 then SetSpec(env, s, SelfPath, svc.compile(Named(a.value), data, None), Some(node))
    else SetSpec(env, s, SelfPath, VNull, Some(node))
  }

  /** `compileInclude`: the node becomes the named view, compiled with the
      parameter as its data (the view's own data when the parameter is
      loosely ""), and what was below the node is deleted. */
  function IncludeSpec(env: Env, svc: Services, data: Context, s: DocState, node: NodeId, a: Attr): DocState {
    ClearBelow(SetSpec(env, s, SelfPath, svc.compile(Named(a.value), IncludeData(s.store, node, data), None), Some(node)), node)
  }

  /** The data an included view sees. */
  function IncludeData(st: Store, node: NodeId, data: Context): Context {
    var params := Param(st, node, data);
    if LooseEq(params, Str("")) then data else AsContext(params)
  }

  /** `compilePagination`: a truthy paginator with pages replaces the node
      with the named view, which also sees `paginator` unless the data has
      its own. Calling `hasPages()` on a truthy non-object is fatal. */
  function PaginationSpec(env: Env, svc: Services, data: Context, s: DocState, node: NodeId, a: Attr): DocState {
    var p := ParamValue(NodeAttr(s.store, node, "name"), data);
    if !Truthy(p) then s
    else if !p.Obj? then Fail(s, "Call to a member function hasPages() on a non-object")
    else if svc.hasPages(p) then
      SetSpec(env, s, SelfPath, svc.compile(Named(a.value), map["paginator" := p] + data, None), Some(node))
    else s
  }

  // ---------------------------------------------------------------- foreach

  /** The key variable of `renderForEach` as it is written: `getAttribute`
      gives "" for a missing attribute, so the `?? "#key"` never applies. */
  function KeyNameAsWritten(st: Store, node: NodeId): string {
    NodeAttr(st, node, "key")
  }

  /** The key variable as intended: `data-v.key`, or `#key` without one. */
  function KeyName(st: Store, node: NodeId): string {
    if HasAttr(st, node, Prefix + "key") then NodeAttr(st, node, "key") else "#key"
  }

  /** Without a `data-v.key` attribute the items see the key under "", not `#key`. */
  lemma KeyNameDefault(st: Store, node: NodeId)
    requires node in st.nodes && !HasAttr(st, node, Prefix + "key")
    ensures KeyNameAsWritten(st, node) == "" && KeyName(st, node) == "#key"
  {
    AttrValueAbsent(st.nodes[node].attrs, Prefix + "key");
  }

  lemma {:induction false} AttrValueAbsent(attrs: seq<Attr>, name: string)
    requires !HasAttrIn(attrs, name)
    ensures AttrValueIn(attrs, name) == ""
    decreases |attrs|
  {
    if |attrs| > 0 {
      AttrValueAbsent(attrs[1..], name);
    }
  }

  /** `array_merge($this->data, [$aKey => $key, $name => $value])`. */
  function Merged(data: Context, keyName: string, name: string, k: Value, v: Value): (r: Context)
    ensures name in r && r[name] == v
    ensures keyName != name ==> keyName in r && r[keyName] == k
    ensures forall x :: x in data && x != keyName && x != name ==> x in r && r[x] == data[x]
  {
    data[keyName := k][name := v]
  }

  /** The data of each item, in iteration order. */
  function ItemData(data: Context, keyName: string, name: string, es: seq<(Value, Value)>): (r: seq<Context>)
    ensures |r| == |es|
    ensures forall i :: 0 <= i < |es| ==> r[i] == Merged(data, keyName, name, es[i].0, es[i].1)
  {
    seq(|es|, i requires 0 <= i < |es| => Merged(data, keyName, name, es[i].0, es[i].1))
  }

  function Item(svc: Services, template: GetResult, d: Context): SetValue {
    svc.compile(Fragment(template), d, None)
  }

  /** One compiled item per data, each through `set('./child-gap()', …)`. */
  function AppendItems(env: Env, svc: Services, s: DocState, node: NodeId, template: GetResult, ds: seq<Context>): DocState
    decreases |ds|
  {
    if |ds| == 0 then s
    else AppendItem(env, AppendItems(env, svc, s, node, template, ds[..|ds| - 1]), node, Item(svc, template, ds[|ds| - 1]))
  }

  /** `set('./child-gap()', $item, $node)`. */
  function AppendItem(env: Env, s: DocState, node: NodeId, v: SetValue): DocState {
    SetSpec(env, s, ChildGapPath, v, Some(node))
  }

  /** `renderForEach`: the first child element is taken out as the item
      template, then one compiled item is appended per entry. */
  function RenderForEach(env: Env, svc: Services, data: Context, s: DocState, node: NodeId, items: Value): DocState {
    var name := NodeAttr(s.store, node, "name");
    var keyName := KeyName(s.store, node);
    var c := ConsumeSpec(env, s, FirstChildPath, Some(node));
    AppendItems(env, svc, c.1, node, c.0, ItemData(data, keyName, name, Entries(items)))
  }

  /** `compileForEach`: an empty collection removes the node. */
  function ForEachSpec(env: Env, svc: Services, data: Context, s: DocState, node: NodeId, a: Attr): DocState {
    var items := ParamValue(a.value, data);
    if Size(svc, items) == 0 then SetSpec(env, s, SelfPath, VNull, Some(node))
    else RenderForEach(env, svc, data, s, node, items)
  }

  // ---------------------------------------------------------------- container

  /** `compileContainer`: the node, without its `data-v.container`
      attribute, is compiled as the child of the named container view, the
      compiled container replaces the node, and what was below the node is
      deleted. */
  function ContainerSpec(env: Env, svc: Services, data: Context, s: DocState, node: NodeId, a: Attr): DocState {
    var s1 := SetSpec(env, s, AttrPath(ContainerAttr), VNull, Some(node));
    var child := svc.compile(Fragment(EntryValue(s1.store, NodeLoc(node))), data, None);
    var s2 := SetSpec(env, s1, SelfPath, svc.compile(Named(a.value), data, Some(child)), Some(node));
    ClearBelow(s2, node)
  }

  // ---------------------------------------------------------------- dispatch

  /** `compile<Name>($node, $attr)`: one handler on one node; nothing happens
      once the request has ended. `null` evaluates its path and does nothing. */
  function HandlerSpec(env: Env, svc: Services, data: Context, s: DocState, h: Handler, node: NodeId, a: Attr): DocState {
    if s.fault.Some? then s
    else if IsConditional(h) then RemoveIf(env, s, node, Removes(svc, data, s.store, h, node, a))
    else if IsSetter(h) then
      SetSpec(env, s, EditPath(s.store, h, node, a), EditValue(svc, data, s.store, h, node, a), Some(node))
    else match h
      case Errors => ErrorsSpec(env, svc, data, s, node, a)
      case Include => IncludeSpec(env, svc, data, s, node, a)
      case Pagination => PaginationSpec(env, svc, data, s, node, a)
      case ForEach => ForEachSpec(env, svc, data, s, node, a)
      case Container => ContainerSpec(env, svc, data, s, node, a)
      case _ => s
  }

  /** A setter handler is one `set` at its path with its value. */
  lemma SetterIsSet(env: Env, svc: Services, data: Context, s: DocState, h: Handler, node: NodeId, a: Attr)
    requires s.fault.None? && !IsConditional(h) && IsSetter(h)
    ensures HandlerSpec(env, svc, data, s, h, node, a)
      == SetSpec(env, s, EditPath(s.store, h, node, a), EditValue(svc, data, s.store, h, node, a), Some(node))
  {
  }

  /** The handler list of one node, in order; a handler whose node has lost
      its parent by its turn is skipped. */
  function RunHandlers(env: Env, svc: Services, data: Context, s: DocState, node: NodeId, cs: seq<Compiler>): DocState
    decreases |cs|
  {
    if |cs| == 0 then s
    else
      var s1 := RunHandlers(env, svc, data, s, node, cs[..|cs| - 1]);
      if ParentOf(s1.store, node).None? then s1
      else HandlerSpec(env, svc, data, s1, cs[|cs| - 1].handler, node, cs[|cs| - 1].attr)
  }

  /** One turn of the scan: a node without a parent is skipped; otherwise its
      handlers run, and when there was at least one, its prefixed attributes
      other than `data-v.section` are removed. */
  function NodeStep(env: Env, svc: Services, data: Context, s: DocState, node: NodeId): DocState {
    if ParentOf(s.store, node).None? then s
    else
      var cs := GetCompilers(AttrsOf(s.store, node));
      var s1 := RunHandlers(env, svc, data, s, node, cs);
      if |cs| > 0 then SetSpec(env, s1, StripPath, VNull, Some(node)) else s1
  }

  function RunNodes(env: Env, svc: Services, data: Context, s: DocState, nodes: seq<NodeId>): DocState
    decreases |nodes|
  {
    if |nodes| == 0 then s
    else NodeStep(env, svc, data, RunNodes(env, svc, data, s, nodes[..|nodes| - 1]), nodes[|nodes| - 1])
  }

  /** `getAllTokenNodes`: the elements with a prefixed attribute, in
      document order, taken once before the scan (`getList` gives nothing
      without a document). */
  function TokenNodes(s: DocState): seq<NodeId> {
    if s.loaded then WithPrefixedAttr(s.store, Elements(s.store)) else []
  }

  /** `runCompilers`. */
  function RunSpec(env: Env, svc: Services, data: Context, s: DocState): DocState {
    RunNodes(env, svc, data, s, TokenNodes(s))
  }

  /** `tidy`: every prefixed attribute of the document is removed. */
  function TidyAttrsSpec(env: Env, s: DocState): DocState {
    SetSpec(env, s, TidyPath, VNull, None)
  }

  // ---------------------------------------------------------------- sections of the child

  /** A document handed to `set`: its document element's tree. `set`
      unwraps a document to `->doc->documentElement`; when either is null the
      value is null, which every branch of `set` then treats as the string
      `strval(null)`, that is `""`. */
  function DocumentValue(c: DocState): (r: SetValue)
    ensures !c.loaded || DocumentElement(c.store).None? ==> r == VScalar("")
    ensures r.VNode? ==> c.loaded && DocumentElement(c.store).Some?
    ensures r.VNode? <==> c.loaded && DocumentElement(c.store).Some? && EntryValue(c.store, NodeLoc(DocumentElement(c.store).value)).GDocument?
  {
    if !c.loaded then VScalar("")
    else match DocumentElement(c.store)
      case None => VScalar("")
      case Some(e) =>
        match EntryValue(c.store, NodeLoc(e))
        case GDocument(t) => VNode(t)
        case _ => VOther("object")
  }

  /** A copied element without the attribute `name` on its root. */
  function WithoutRootAttr(t: Tree, name: string): (r: Tree)
    ensures t.TElement? ==> r.TElement? && r.name == t.name && !HasAttrIn(r.attrs, name)
  {
    match t
    case TElement(n, attrs, kids) => TElement(n, RemoveAttrIn(attrs, name), kids)
    case _ => t
  }

  /** `getSectionFromDocument` as written. It is declared to return a
      `Document`, so a named section, which `get` gives as a `DOMDocument` or
      null, ends the request with a type error; several sections of one name
      fail earlier, on `removeAttribute` of the list's missing document
      element. Also gives the child's new state (`get` may log). */
  function SectionAsWritten(env: Env, c: DocState, attribute: string): (Result<SetValue>, DocState) {
    if attribute == DefaultSection then (Ok(DocumentValue(c)), c)
    else
      var g := GetSpec(env, c, SectionPath(attribute), None);
      match g.0
      case GNull => (Err("Return value must be of type Document, null returned"), g.1)
      case GList(_) => (Err("Call to a member function removeAttribute() on null"), g.1)
      case _ => (Err("Return value must be of type Document, DOMDocument returned"), g.1)
  }

  /** `getSectionFromDocument` as intended: the child's element for the
      section, without its `data-v.section` attribute, or null when the child
      has none. */
  function Section(env: Env, c: DocState, attribute: string): (Result<SetValue>, DocState) {
    if attribute == DefaultSection then (Ok(DocumentValue(c)), c)
    else
      var g := GetSpec(env, c, SectionPath(attribute), None);
      match g.0
      case GNull => (Ok(VNull), g.1)
      case GDocument(t) => (Ok(VNode(WithoutRootAttr(t, SectionAttr))), g.1)
      case _ => (Err("Call to a member function removeAttribute() on null"), g.1)
  }

  /** Every named section ends the request in the code as written. */
  lemma SectionAsWrittenFails(env: Env, c: DocState, attribute: string)
    requires attribute != DefaultSection
    ensures SectionAsWritten(env, c, attribute).0.Err?
    ensures SectionAsWritten(env, c, attribute).1 == Section(env, c, attribute).1
  {
  }

  /** A section the child has exactly once is handed over as a copy of its
      element without the section attribute; a section it lacks is null. */
  lemma SectionFound(env: Env, c: DocState, attribute: string)
    requires c.fault.None? && c.loaded && Valid(c.store) && attribute != DefaultSection
    ensures var sec := Section(env, c, attribute);
      match Resolve(env, c.store, SectionPath(attribute), None)
         case Some(es) =>
           sec.1 == c
           && (|es| == 0 ==> sec.0 == Ok(VNull))
           && (|es| == 1 && es[0].NodeLoc? && IsElement(c.store, es[0].id) ==>
                 sec.0.Ok? && sec.0.value.VNode? && sec.0.value.tree.TElement?
                 && sec.0.value.tree.name == c.store.nodes[es[0].id].kind.name
                 && !HasAttrIn(sec.0.value.tree.attrs, SectionAttr))
         case None => sec.0 == Ok(VNull) && sec.1 == Log(c, "NView::get() " + SectionPath(attribute) + " failed.")
  {
    match Resolve(env, c.store, SectionPath(attribute), None)
    case Some(es) => GetDispatch(env, c, SectionPath(attribute), None, es);
    case None =>
  }

  /** The elements with a `data-v.contents` attribute, in document order. */
  function ContentsNodes(s: DocState): seq<NodeId> {
    if s.loaded then WithAttr(s.store, Elements(s.store), ContentsAttr) else []
  }

  /** One slot: its section of the child replaces it. */
  function FillOne(env: Env, s: DocState, c: DocState, node: NodeId): (DocState, DocState) {
    if s.fault.Some? then (s, c)
    else
      var sec := Section(env, c, GetAttr(s.store, node, ContentsAttr));
      match sec.0
      case Err(why) => (Fail(s, why), sec.1)
      case Ok(v) => (SetSpec(env, s, SelfPath, v, Some(node)), sec.1)
  }

  function FillAll(env: Env, s: DocState, c: DocState, nodes: seq<NodeId>): (DocState, DocState)
    decreases |nodes|
  {
    if |nodes| == 0 then (s, c)
    else
      var prev := FillAll(env, s, c, nodes[..|nodes| - 1]);
      FillOne(env, prev.0, prev.1, nodes[|nodes| - 1])
  }

  /** `renderChildren`: without a child nothing happens; otherwise every
      contents slot is filled from the child. */
  function RenderChildrenSpec(env: Env, s: DocState, child: Option<DocState>): (DocState, Option<DocState>) {
    if child.None? then (s, child)
    else
      var r := FillAll(env, s, child.value, ContentsNodes(s));
      (r.0, Some(r.1))
  }

  // ---------------------------------------------------------------- properties of the handlers

  /** A conditional handler on a node in the tree either changes nothing or
      takes the node out and leaves it childless, and which of the two it
      does is exactly its removal condition. */
  lemma ConditionalEffect(env: Env, svc: Services, data: Context, s: DocState, h: Handler, node: NodeId, a: Attr)
    requires IsConditional(h)
    requires s.fault.None? && s.loaded && Valid(s.store) && Consistent(s.store)
    requires node in s.store.nodes && ParentOf(s.store, node).Some?
    ensures var r := HandlerSpec(env, svc, data, s, h, node, a);
      (r == s <==> !Removes(svc, data, s.store, h, node, a))
      && (Removes(svc, data, s.store, h, node, a) ==> Removed(r.store, node) && r.errs == s.errs && r.fault.None?)
  {
    RemoveSubtreeEffect(env, s, node);
  }

  /** `exists`/`empty`, `match`/`nomatch` and `can`/`cannot` are
      complementary: for the same node and data exactly one of the pair
      removes the node, and the other changes nothing. */
  lemma ConditionalPair(env: Env, svc: Services, data: Context, s: DocState, node: NodeId, a: Attr, yes: Handler, no: Handler)
    requires (yes, no) == (Exists, NotExists) || (yes, no) == (Match, NoMatch) || (yes, no) == (Can, Cannot)
    requires s.fault.None? && s.loaded && Valid(s.store) && Consistent(s.store)
    requires node in s.store.nodes && ParentOf(s.store, node).Some?
    ensures var y := HandlerSpec(env, svc, data, s, yes, node, a);
      var n := HandlerSpec(env, svc, data, s, no, node, a);
      (y == s && Removed(n.store, node)) || (n == s && Removed(y.store, node))
    ensures (HandlerSpec(env, svc, data, s, yes, node, a) == s) != (HandlerSpec(env, svc, data, s, no, node, a) == s)
  {
    ConditionalEffect(env, svc, data, s, yes, node, a);
    ConditionalEffect(env, svc, data, s, no, node, a);
  }

  /** For a plain path, `exists` keeps the node exactly when `getValue` is not null. */
  lemma ExistsKeepsIff(env: Env, svc: Services, data: Context, s: DocState, node: NodeId, a: Attr)
    requires ';' !in a.value && ':' !in a.value
    requires s.fault.None? && s.loaded && Valid(s.store) && Consistent(s.store)
    requires node in s.store.nodes && ParentOf(s.store, node).Some?
    ensures HandlerSpec(env, svc, data, s, Exists, node, a) == s <==> ParamValue(a.value, data) != Null
  {
    ConditionalEffect(env, svc, data, s, Exists, node, a);
    HasValueIffValue(a.value, data);
  }

  /** `auth` keeps the node exactly when being logged in agrees with the
      attribute read as a boolean. */
  lemma AuthKeepsIff(env: Env, svc: Services, data: Context, s: DocState, node: NodeId, a: Attr)
    requires s.fault.None? && s.loaded && Valid(s.store) && Consistent(s.store)
    requires node in s.store.nodes && ParentOf(s.store, node).Some?
    ensures HandlerSpec(env, svc, data, s, Auth, node, a) == s <==> svc.loggedIn == FilterBool(a.value)
  {
    ConditionalEffect(env, svc, data, s, Auth, node, a);
  }

  lemma SetterSpec(env: Env, svc: Services, data: Context, s: DocState, h: Handler, node: NodeId, a: Attr)
    requires s.fault.None? && (h == Url || h == Attribute)
    ensures HandlerSpec(env, svc, data, s, h, node, a)
         == SetSpec(env, s, EditPath(s.store, h, node, a), EditValue(svc, data, s.store, h, node, a), Some(node))
  {
    assert !IsConditional(h) && IsSetter(h);
  }

  /** Writing text to attribute `n` of the node itself. */
  lemma WriteOwnAttr(env: Env, s: DocState, node: NodeId, n: string, v: string)
    requires s.fault.None? && s.loaded && Valid(s.store) && IsElement(s.store, node)
    requires '/' !in n && '(' !in n && env.validName(n)
    ensures var r := SetSpec(env, s, AttrPath(n), VScalar(v), Some(node));
      r.fault.None?
      && HasAttr(r.store, node, n) && GetAttr(r.store, node, n) == Xmlenc(v)
      && (forall m :: m != n ==> HasAttr(r.store, node, m) == HasAttr(s.store, node, m) && GetAttr(r.store, node, m) == GetAttr(s.store, node, m))
      && (forall x :: x in s.store.nodes && x != node ==> x in r.store.nodes && r.store.nodes[x] == s.store.nodes[x])
  {
    SelfShortcut(env, s.store, node);
    assert AttrEditPath(SelfPath, n, GapNone) == AttrPath(n);
    SetAttributeByName(env, s, SelfPath, n, GapNone, v, Some(node), node);
  }

  /** `attr.<n>` writes the substituted text, escaped, to attribute `<n>` of
      its element and changes no other attribute and no other node. */
  lemma AttributeWritesTarget(env: Env, svc: Services, data: Context, s: DocState, node: NodeId, a: Attr, n: string)
    requires s.fault.None? && s.loaded && Valid(s.store) && IsElement(s.store, node)
    requires a.name == Prefix + "attr." + n && '.' !in n && '/' !in n && '(' !in n && env.validName(n)
    ensures var r := HandlerSpec(env, svc, data, s, Attribute, node, a);
      r.fault.None?
      && HasAttr(r.store, node, n) && GetAttr(r.store, node, n) == Xmlenc(Filled(a.value, data))
      && (forall m :: m != n ==> HasAttr(r.store, node, m) == HasAttr(s.store, node, m) && GetAttr(r.store, node, m) == GetAttr(s.store, node, m))
      && (forall x :: x in s.store.nodes && x != node ==> x in r.store.nodes && r.store.nodes[x] == s.store.nodes[x])
  {
    AttributeTargetOfName(n);
    SetterSpec(env, svc, data, s, Attribute, node, a);
    WriteOwnAttr(env, s, node, n, Filled(a.value, data));
  }

  lemma UrlSetSpec(env: Env, svc: Services, data: Context, s: DocState, node: NodeId, a: Attr)
    requires s.fault.None?
    ensures HandlerSpec(env, svc, data, s, Url, node, a) == SetSpec(env, s, AttrPath(HrefAttr), VScalar(Filled(a.value, data)), Some(node))
  {
    SetterSpec(env, svc, data, s, Url, node, a);
    assert EditPath(s.store, Url, node, a) == AttrPath(HrefAttr);
    assert EditValue(svc, data, s.store, Url, node, a) == VScalar(Filled(a.value, data));
  }

  /** `url` writes the substituted text, escaped, to `href`. */
  lemma UrlWritesHref(env: Env, svc: Services, data: Context, s: DocState, node: NodeId, a: Attr)
    requires s.fault.None? && s.loaded && Valid(s.store) && IsElement(s.store, node) && env.validName(HrefAttr)
    ensures var r := HandlerSpec(env, svc, data, s, Url, node, a);
      r.fault.None?
      && HasAttr(r.store, node, HrefAttr) && GetAttr(r.store, node, HrefAttr) == Xmlenc(Filled(a.value, data))
      && (forall m :: m != HrefAttr ==> HasAttr(r.store, node, m) == HasAttr(s.store, node, m) && GetAttr(r.store, node, m) == GetAttr(s.store, node, m))
  {
    var r := HandlerSpec(env, svc, data, s, Url, node, a);
    WriteHref(env, s, node, Filled(a.value, data));
    UrlSetSpec(env, svc, data, s, node, a);
  }

  lemma WriteHref(env: Env, s: DocState, node: NodeId, v: string)
    requires s.fault.None? && s.loaded && Valid(s.store) && IsElement(s.store, node) && env.validName(HrefAttr)
    ensures var r := SetSpec(env, s, AttrPath(HrefAttr), VScalar(v), Some(node));
      r.fault.None?
      && HasAttr(r.store, node, HrefAttr) && GetAttr(r.store, node, HrefAttr) == Xmlenc(v)
      && (forall m :: m != HrefAttr ==> HasAttr(r.store, node, m) == HasAttr(s.store, node, m) && GetAttr(r.store, node, m) == GetAttr(s.store, node, m))
  {
    assert HrefAttr == ['h', 'r', 'e', 'f'];
    WriteOwnAttr(env, s, node, HrefAttr, v);
  }

  /** As the compiler writes it, `set('./@n', text)` in replace mode removes
      `n` when the text is empty or white space; the lemmas above state the
      intended edit, which keeps `n` with that text. Escaping leaves such a
      text as it is. */
  lemma BlankTextRemovedAsWritten(st: Store, node: NodeId, n: string, v: string)
    requires IsElement(st, node) && IsNullOrEmpty(Some(v))
    ensures Xmlenc(v) == v
    ensures !HasAttr(AttrByNameAsWritten(st, node, GapNone, n, Xmlenc(v)), node, n)
    ensures HasAttr(AttrByName(st, node, GapNone, n, Xmlenc(v)), node, n)
  {
    IsNullOrEmptyIff(v);
    assert '&' !in v by {
      forall k | 0 <= k < |v| ensures v[k] != '&' {
        assert IsTrimChar(v[k]);
      }
    }
    XmlencNoAmpersand(v);
  }

  /** A placeholder naming an unset variable fills to the empty text, so
      `data-v.attr.title="{missing}"` hands `set` a blank value. */
  lemma UnsetPlaceholderIsBlank(data: Context, n: string)
    requires IsPlaceholderName(n) && '.' !in n && ';' !in n && ':' !in n && n !in data
    ensures Filled("{" + n + "}", data) == ""
    ensures IsNullOrEmpty(Some(Filled("{" + n + "}", data)))
  {
    SplitNoSeparator(n, ';');
    ParamValueSingle(n, data);
    SplitNoSeparator(n, '.');
    FilledLonePlaceholder(data, n);
  }

  /** A text that is one placeholder fills to that placeholder's value. */
  lemma FilledLonePlaceholder(data: Context, n: string)
    requires IsPlaceholderName(n)
    ensures Filled("{" + n + "}", data) == StrVal(ParamValue(n, data))
  {
    var t := "{" + n + "}";
    assert "" + "{" == "{";
    assert "" + "{" + n + "}" == t;
    assert t + "" == t;
    SubstituteSplice("", n, "", PathText(data));
  }

  // ---------------------------------------------------------------- properties of the scan

  /** A node without a parent runs none of its handlers. */
  lemma {:induction false} HandlersSkipDetached(env: Env, svc: Services, data: Context, s: DocState, node: NodeId, cs: seq<Compiler>)
    requires ParentOf(s.store, node).None?
    ensures RunHandlers(env, svc, data, s, node, cs) == s
    decreases |cs|
  {
    if |cs| > 0 {
      HandlersSkipDetached(env, svc, data, s, node, cs[..|cs| - 1]);
    }
  }

  lemma {:induction false} RunHandlersConcat(env: Env, svc: Services, data: Context, s: DocState, node: NodeId, a: seq<Compiler>, b: seq<Compiler>)
    ensures RunHandlers(env, svc, data, s, node, a + b)
         == RunHandlers(env, svc, data, RunHandlers(env, svc, data, s, node, a), node, b)
    decreases |b|
  {
    if |b| == 0 {
      assert a + b == a;
    } else {
      RunHandlersConcat(env, svc, data, s, node, a, b[..|b| - 1]);
      assert (a + b)[..|a + b| - 1] == a + b[..|b| - 1];
      assert (a + b)[|a + b| - 1] == b[|b| - 1];
    }
  }

  /** Once a handler has taken its node out, the rest of the node's handler
      list is skipped. */
  lemma DetachedMidSequence(env: Env, svc: Services, data: Context, s: DocState, node: NodeId, a: seq<Compiler>, b: seq<Compiler>)
    requires ParentOf(RunHandlers(env, svc, data, s, node, a).store, node).None?
    ensures RunHandlers(env, svc, data, s, node, a + b) == RunHandlers(env, svc, data, s, node, a)
  {
    RunHandlersConcat(env, svc, data, s, node, a, b);
    HandlersSkipDetached(env, svc, data, RunHandlers(env, svc, data, s, node, a), node, b);
  }

  /** A node none of whose attributes names a directive is left as it is,
      prefixed attributes included. */
  lemma UnknownTokensKept(env: Env, svc: Services, data: Context, s: DocState, node: NodeId)
    requires forall k :: 0 <= k < |AttrsOf(s.store, node)| ==> TokenOf(AttrsOf(s.store, node)[k].name).None?
    ensures NodeStep(env, svc, data, s, node) == s
  {
    GetCompilersNone(AttrsOf(s.store, node));
  }

  lemma {:induction false} GetCompilersNone(attrs: seq<Attr>)
    requires forall k :: 0 <= k < |attrs| ==> TokenOf(attrs[k].name).None?
    ensures GetCompilers(attrs) == []
    decreases |attrs|
  {
    if |attrs| > 0 {
      GetCompilersNone(attrs[..|attrs| - 1]);
    }
  }

  /** An attribute that is present sits at some index. */
  lemma {:induction false} HasAttrInIndex(attrs: seq<Attr>, name: string) returns (k: nat)
    requires HasAttrIn(attrs, name)
    ensures k < |attrs| && attrs[k].name == name
    decreases |attrs|
  {
    if attrs[0].name == name {
      k := 0;
    } else {
      var j := HasAttrInIndex(attrs[1..], name);
      k := j + 1;
    }
  }

  /** Only the nodes' attributes differ. */
  predicate SameShape(st: Store, r: Store) {
    r.next == st.next && r.nodes.Keys == st.nodes.Keys
    && forall x :: x in st.nodes ==> r.nodes[x] == st.nodes[x].(attrs := r.nodes[x].attrs)
  }

  /** Deleting attribute matches only: each matched attribute goes, every
      other attribute keeps its value, and no node moves. */
  lemma {:induction false} DeleteAttrsEffect(s: DocState, es: seq<Loc>, o: NodeId, m: string)
    requires forall k :: 0 <= k < |es| ==> es[k].AttrLoc?
    ensures var r := DeleteAll(s, es);
      r.errs == s.errs && r.fault == s.fault && r.loaded == s.loaded && SameShape(s.store, r.store)
      && (AttrLoc(o, m) in es ==> !HasAttr(r.store, o, m))
      && (AttrLoc(o, m) !in es ==> HasAttr(r.store, o, m) == HasAttr(s.store, o, m) && GetAttr(r.store, o, m) == GetAttr(s.store, o, m))
    decreases |es|
  {
    if |es| > 0 {
      var front := es[..|es| - 1];
      var e := es[|es| - 1];
      FrontAndLast(es);
      DeleteAttrsEffect(s, front, o, m);
      var r1 := DeleteAll(s, front);
      assert DeleteAll(s, es) == r1.(store := RemoveAttr(r1.store, e.owner, e.name));
      RemoveAttrLocEffect(s.store, r1.store, e, o, m);
    }
  }

  /** Removing the attribute at one location, after earlier removals. */
  lemma RemoveAttrLocEffect(st: Store, st1: Store, e: Loc, o: NodeId, m: string)
    requires e.AttrLoc? && SameShape(st, st1)
    ensures var r := RemoveAttr(st1, e.owner, e.name);
      SameShape(st, r)
      && (e == AttrLoc(o, m) ==> !HasAttr(r, o, m))
      && (e != AttrLoc(o, m) ==> HasAttr(r, o, m) == HasAttr(st1, o, m) && GetAttr(r, o, m) == GetAttr(st1, o, m))
  {
  }

  /** The attribute strip after a node's handlers: every prefixed attribute
      but `data-v.section` is gone, the others keep their values, and no node
      moves. */
  lemma StripEffect(env: Env, s: DocState, node: NodeId)
    requires s.fault.None? && s.loaded
    ensures var r := SetSpec(env, s, StripPath, VNull, Some(node));
      r.fault.None? && r.errs == s.errs && SameShape(s.store, r.store)
      && (forall n :: IsPrefixed(n) && n != SectionAttr ==> !HasAttr(r.store, node, n))
      && (forall n :: !IsPrefixed(n) || n == SectionAttr ==>
            HasAttr(r.store, node, n) == HasAttr(s.store, node, n) && GetAttr(r.store, node, n) == GetAttr(s.store, node, n))
  {
    PathPrefixes();
    assert Classify(StripPath) == OwnPrefixedButSection;
    FixedPathsNoGap();
    var attrs := AttrsOf(s.store, node);
    var es := PrefixedAttrs(node, attrs, true);
    assert Resolve(env, s.store, StripPath, Some(node)) == Some(es);
    var r := SetSpec(env, s, StripPath, VNull, Some(node));
    assert r == DeleteAll(s, es);
    DeleteAttrsEffect(s, es, node, "");
    forall n | IsPrefixed(n) && n != SectionAttr
      ensures !HasAttr(r.store, node, n)
    {
      DeleteAttrsEffect(s, es, node, n);
      if HasAttr(s.store, node, n) {
        var k := HasAttrInIndex(attrs, n);
        assert AttrLoc(node, attrs[k].name) in es;
      }
    }
    forall n | !IsPrefixed(n) || n == SectionAttr
      ensures HasAttr(r.store, node, n) == HasAttr(s.store, node, n) && GetAttr(r.store, node, n) == GetAttr(s.store, node, n)
    {
      DeleteAttrsEffect(s, es, node, n);
    }
  }

  /** Every prefixed attribute of an element among `ids` is in the list `tidy` deletes. */
  lemma {:induction false} AllPrefixedComplete(st: Store, ids: seq<NodeId>, x: NodeId, n: string)
    requires x in ids && HasAttr(st, x, n) && IsPrefixed(n)
    ensures AttrLoc(x, n) in AllPrefixedAttrLocs(st, ids)
    decreases |ids|
  {
    if ids[0] == x {
      var k := HasAttrInIndex(AttrsOf(st, x), n);
      assert AttrLoc(x, n) in PrefixedAttrs(x, AttrsOf(st, x), false);
    } else {
      AllPrefixedComplete(st, ids[1..], x, n);
    }
  }

  /** `tidy` removes every prefixed attribute of every element and keeps
      the others, and no node moves. */
  lemma TidyRemovesPrefixed(env: Env, s: DocState)
    requires s.fault.None? && s.loaded
    ensures var r := TidyAttrsSpec(env, s);
      r.fault.None? && r.errs == s.errs && SameShape(s.store, r.store)
      && (forall x, n :: x in Elements(s.store) && IsPrefixed(n) ==> !HasAttr(r.store, x, n))
      && (forall x, n :: !IsPrefixed(n) ==> HasAttr(r.store, x, n) == HasAttr(s.store, x, n) && GetAttr(r.store, x, n) == GetAttr(s.store, x, n))
  {
    PathPrefixes();
    assert Classify(TidyPath) == AllPrefixedAttrs;
    FixedPathsNoGap();
    var es := AllPrefixedAttrLocs(s.store, Elements(s.store));
    assert Resolve(env, s.store, TidyPath, None) == Some(es);
    var r := TidyAttrsSpec(env, s);
    assert r == DeleteAll(s, es);
    DeleteAttrsEffect(s, es, 0, "");
    forall x, n | x in Elements(s.store) && IsPrefixed(n)
      ensures !HasAttr(r.store, x, n)
    {
      DeleteAttrsEffect(s, es, x, n);
      if HasAttr(s.store, x, n) {
        AllPrefixedComplete(s.store, Elements(s.store), x, n);
      }
    }
    forall x, n | !IsPrefixed(n)
      ensures HasAttr(r.store, x, n) == HasAttr(s.store, x, n) && GetAttr(r.store, x, n) == GetAttr(s.store, x, n)
    {
      DeleteAttrsEffect(s, es, x, n);
    }
  }

  // ---------------------------------------------------------------- properties of foreach

  /** An empty collection takes the `foreach` node out of the tree. */
  lemma ForEachEmptyRemoves(env: Env, svc: Services, data: Context, s: DocState, node: NodeId, a: Attr)
    requires s.fault.None? && s.loaded && Consistent(s.store)
    requires Size(svc, ParamValue(a.value, data)) == 0
    ensures var r := HandlerSpec(env, svc, data, s, ForEach, node, a);
      r.fault.None? && r.errs == s.errs && Detached(r.store, node)
  {
    SelfShortcut(env, s.store, node);
    SetNullDeletes(env, s, SelfPath, Some(node));
  }

  /** Node `x` is the root of a copy of `t`: its record, apart from the
      parent link and the child list, is the tree's root. */
  predicate HoldsRoot(st: Store, x: NodeId, t: Tree) {
    x in st.nodes && st.nodes[x].(parent := None, children := []) == NodeOfTree(t, None)
  }

  /** The compiled items, in order. */
  function Items(svc: Services, template: GetResult, ds: seq<Context>): (r: seq<SetValue>)
    ensures |r| == |ds|
    ensures forall k :: 0 <= k < |ds| ==> r[k] == Item(svc, template, ds[k])
  {
    seq(|ds|, k requires 0 <= k < |ds| => Item(svc, template, ds[k]))
  }

  /** `after` is `before` with one fresh child per value appended to
      `node`, in order, each the root of a copy of its value's tree. */
  predicate AppendedInOrder(before: Store, after: Store, node: NodeId, vs: seq<SetValue>) {
    |Kids(after, node)| == |Kids(before, node)| + |vs|
    && Kids(after, node)[..|Kids(before, node)|] == Kids(before, node)
    && forall k :: 0 <= k < |vs| ==> AppendedAt(before, after, node, vs, k)
  }

  /** The `k`-th appended child holds the `k`-th value. */
  predicate AppendedAt(before: Store, after: Store, node: NodeId, vs: seq<SetValue>, k: nat) {
    var i := |Kids(before, node)| + k;
    i < |Kids(after, node)| && k < |vs|
    && before.next <= Kids(after, node)[i] && ParentOf(after, Kids(after, node)[i]) == Some(node)
    && vs[k].VNode? && HoldsRoot(after, Kids(after, node)[i], vs[k].tree)
  }

  /** `set(<p>/child-gap(), $node)` on a single element target appends one
      fresh copy, numbered `next`, and changes no other node. */
  lemma AppendAt(env: Env, s: DocState, p: string, t: Tree, ref: Option<NodeId>, node: NodeId)
    requires s.fault.None? && s.loaded && Valid(s.store) && IsElement(s.store, node)
    requires !Contains(p, "/@")
    requires Resolve(env, s.store, p, ref) == Some([NodeLoc(node)])
    ensures var r := SetSpec(env, s, p + GapSuffix(GapChild), VNode(t), ref);
      var x := s.store.next;
      r.fault.None? && r.loaded && r.errs == s.errs && Valid(r.store) && r.store.next > x
      && Kids(r.store, node) == Kids(s.store, node) + [x]
      && ParentOf(r.store, x) == Some(node) && HoldsRoot(r.store, x, t)
      && r.store.nodes[node] == s.store.nodes[node].(children := Kids(r.store, node))
      && (forall y :: y in s.store.nodes && y != node ==> y in r.store.nodes && r.store.nodes[y] == s.store.nodes[y])
  {
    AppendAtUnfold(env, s, p, t, ref, node);
    var added := AddForest(s.store, [t], None);
    AppendFresh(s.store, t, node);
    AddForestKeeps(s.store, [t], None);
    AppendFreshFrame(s.store, added.0, node, s.store.next);
  }

  lemma AppendAtUnfold(env: Env, s: DocState, p: string, t: Tree, ref: Option<NodeId>, node: NodeId)
    requires s.fault.None? && s.loaded && Valid(s.store) && IsElement(s.store, node)
    requires !Contains(p, "/@")
    requires Resolve(env, s.store, p, ref) == Some([NodeLoc(node)])
    ensures SetSpec(env, s, p + GapSuffix(GapChild), VNode(t), ref)
         == s.(store := AppendChildren(AddForest(s.store, [t], None).0, node, [s.store.next]))
  {
    ParseGapSuffix(p, GapChild);
    SetNodeOnSingleTarget(env, s, p, GapChild, t, ref, node);
    var added := AddForest(s.store, [t], None);
    AddForestKeeps(s.store, [t], None);
    assert node in added.0.nodes && !IsCharacterData(added.0.nodes[node].kind);
    assert Place(s.(store := added.0), node, GapChild, [s.store.next])
        == s.(store := AppendChildren(added.0, node, [s.store.next]));
  }

  /** A fresh copy of `t` appended to element `node`: it is the last child. */
  lemma AppendFresh(st: Store, t: Tree, node: NodeId)
    requires Valid(st) && IsElement(st, node)
    ensures var added := AddForest(st, [t], None);
      var r := AppendChildren(added.0, node, [st.next]);
      var x := st.next;
      Valid(r) && r.next > x
      && Kids(r, node) == Kids(st, node) + [x]
      && ParentOf(r, x) == Some(node) && HoldsRoot(r, x, t)
  {
    var added := AddForest(st, [t], None);
    assert node in added.0.nodes && added.0.nodes[node] == st.nodes[node];
    AppendChildrenPlaces(added.0, node, [st.next]);
  }

  /** Appending a node that is not yet in `st` to `node`, in a store that
      extends `st`, changes no other node of `st`, and only the child list of
      `node`. */
  lemma AppendFreshFrame(st: Store, a: Store, node: NodeId, x: NodeId)
    requires node in st.nodes && x !in st.nodes
    requires forall y :: y in st.nodes ==> y in a.nodes && a.nodes[y] == st.nodes[y]
    ensures var r := AppendChildren(a, node, [x]);
      r.nodes[node] == st.nodes[node].(children := Kids(r, node))
      && (forall y :: y in st.nodes && y != node ==> y in r.nodes && r.nodes[y] == st.nodes[y])
  {
    assert node != x && a.nodes[node] == st.nodes[node];
  }

  /** `set('./child-gap()', $node)` on an element appends one fresh copy. */
  lemma AppendOne(env: Env, s: DocState, node: NodeId, t: Tree)
    requires s.fault.None? && s.loaded && Valid(s.store) && IsElement(s.store, node)
    ensures var r := AppendItem(env, s, node, VNode(t));
      var x := s.store.next;
      r.fault.None? && r.loaded && r.errs == s.errs && Valid(r.store) && r.store.next > x
      && Kids(r.store, node) == Kids(s.store, node) + [x]
      && ParentOf(r.store, x) == Some(node) && HoldsRoot(r.store, x, t)
      && r.store.nodes[node] == s.store.nodes[node].(children := Kids(r.store, node))
      && (forall y :: y in s.store.nodes && y != node ==> y in r.store.nodes && r.store.nodes[y] == s.store.nodes[y])
  {
    ChildGapPathParts();
    SelfShortcut(env, s.store, node);
    AppendAt(env, s, SelfPath, t, Some(node), node);
  }

  /** Appending one more fresh child keeps the appended children in order. */
  lemma AppendedStep(before: Store, mid: Store, after: Store, node: NodeId, vs: seq<SetValue>, v: SetValue, x: NodeId)
    requires AppendedInOrder(before, mid, node, vs)
    requires node < before.next
    requires Kids(after, node) == Kids(mid, node) + [x] && before.next <= x
    requires ParentOf(after, x) == Some(node) && v.VNode? && HoldsRoot(after, x, v.tree)
    requires forall y :: y in mid.nodes && y != node ==> y in after.nodes && after.nodes[y] == mid.nodes[y]
    ensures AppendedInOrder(before, after, node, vs + [v])
  {
    var k0 := Kids(before, node);
    var k1 := Kids(mid, node);
    var k2 := Kids(after, node);
    var ws := vs + [v];
    assert k2[..|k0|] == k1[..|k0|];
    forall k | 0 <= k < |ws|
      ensures AppendedAt(before, after, node, ws, k)
    {
      if k < |vs| {
        assert AppendedAt(before, mid, node, vs, k);
        var z := k1[|k0| + k];
        assert k2[|k0| + k] == z && ws[k] == vs[k];
        assert z in mid.nodes && z != node;
        assert after.nodes[z] == mid.nodes[z];
      } else {
        assert k2[|k0| + k] == x && ws[k] == v;
      }
    }
  }

  /** The item loop of `renderForEach` keeps the store valid and changes no
      node but the `foreach` node among those that were there. */
  lemma {:induction false} AppendItemsKeeps(env: Env, svc: Services, s: DocState, node: NodeId, template: GetResult, ds: seq<Context>)
    requires s.fault.None? && s.loaded && Valid(s.store) && IsElement(s.store, node)
    requires forall k :: 0 <= k < |ds| ==> Item(svc, template, ds[k]).VNode?
    ensures var r := AppendItems(env, svc, s, node, template, ds);
      r.fault.None? && r.loaded && r.errs == s.errs && Valid(r.store) && IsElement(r.store, node)
      && r.store.next >= s.store.next && ParentOf(r.store, node) == ParentOf(s.store, node)
      && (forall y :: y in s.store.nodes && y != node ==> y in r.store.nodes && r.store.nodes[y] == s.store.nodes[y])
    decreases |ds|
  {
    if |ds| > 0 {
      var front := ds[..|ds| - 1];
      assert forall k :: 0 <= k < |front| ==> front[k] == ds[k];
      AppendItemsKeeps(env, svc, s, node, template, front);
      var s1 := AppendItems(env, svc, s, node, template, front);
      var v := Item(svc, template, ds[|ds| - 1]);
      assert v == VNode(v.tree);
      AppendOne(env, s1, node, v.tree);
    }
  }

  lemma ItemsSnoc(svc: Services, template: GetResult, ds: seq<Context>)
    requires |ds| > 0
    ensures Items(svc, template, ds) == Items(svc, template, ds[..|ds| - 1]) + [Item(svc, template, ds[|ds| - 1])]
  {
  }

  /** The item loop of `renderForEach` appends one fresh child per item to
      the node, in order, each the root of a copy of its compiled item. */
  lemma {:induction false} AppendItemsInOrder(env: Env, svc: Services, s: DocState, node: NodeId, template: GetResult, ds: seq<Context>)
    requires s.fault.None? && s.loaded && Valid(s.store) && IsElement(s.store, node)
    requires forall k :: 0 <= k < |ds| ==> Item(svc, template, ds[k]).VNode?
    ensures AppendedInOrder(s.store, AppendItems(env, svc, s, node, template, ds).store, node, Items(svc, template, ds))
    decreases |ds|
  {
    if |ds| == 0 {
      var k0 := Kids(s.store, node);
      assert k0[..|k0|] == k0;
    } else {
      var front := ds[..|ds| - 1];
      assert forall k :: 0 <= k < |front| ==> front[k] == ds[k];
      AppendItemsInOrder(env, svc, s, node, template, front);
      AppendItemsKeeps(env, svc, s, node, template, front);
      var s1 := AppendItems(env, svc, s, node, template, front);
      var v := Item(svc, template, ds[|ds| - 1]);
      assert v == VNode(v.tree);
      AppendOne(env, s1, node, v.tree);
      var r := AppendItems(env, svc, s, node, template, ds);
      ItemsSnoc(svc, template, ds);
      AppendedStep(s.store, s1.store, r.store, node, Items(svc, template, front), v, s1.store.next);
    }
  }

  /** `consume` with a single node match takes that node out of its parent. */
  lemma ConsumeSingle(env: Env, s: DocState, p: string, ref: Option<NodeId>, e: NodeId, q: NodeId)
    requires s.fault.None? && s.loaded && ParseGap(p) == (p, GapNone)
    requires Resolve(env, s.store, p, ref) == Some([NodeLoc(e)])
    requires e in s.store.nodes && s.store.nodes[e].parent == Some(q)
    ensures ConsumeSpec(env, s, p, ref) == (EntryValue(s.store, NodeLoc(e)), s.(store := RemoveChild(s.store, q, e)))
  {
    assert [NodeLoc(e)][..0] == [];
    assert SetSpec(env, s, p, VNull, ref) == DeleteAll(s, [NodeLoc(e)]);
    assert DeleteAll(s, [NodeLoc(e)]) == DeleteEntry(DeleteAll(s, []), NodeLoc(e));
  }

  /** Taking an element child out of an element keeps the store valid and
      consistent, and leaves the child detached. */
  lemma RemoveElementChild(st: Store, p: NodeId, c: NodeId)
    requires Valid(st) && Consistent(st) && IsElement(st, p) && IsElement(st, c) && c in Kids(st, p)
    ensures var r := RemoveChild(st, p, c);
      Valid(r) && Consistent(r) && IsElement(r, p) && Detached(r, c) && Kids(r, p) == Without(Kids(st, p), c)
      && r.next == st.next && r.nodes.Keys == st.nodes.Keys
  {
    RemoveChildConsistent(st, p, c);
    var r := RemoveChild(st, p, c);
    ParentlessIsDetached(r, c);
    assert r.nodes[DocId] == st.nodes[DocId];
  }

  /** The first-child-element query of `consume` under a node: the first
      child element (when there is one) is copied out and taken out of the
      tree. */
  lemma ConsumeFirstAt(env: Env, s: DocState, p: string, node: NodeId)
    requires s.fault.None? && s.loaded && Valid(s.store) && Consistent(s.store) && IsElement(s.store, node)
    requires Classify(p) == FirstChildElement && ParseGap(p) == (p, GapNone)
    ensures var c := ConsumeSpec(env, s, p, Some(node));
      c.1.fault.None? && c.1.loaded && c.1.errs == s.errs && Valid(c.1.store) && Consistent(c.1.store)
      && IsElement(c.1.store, node) && c.1.store.next == s.store.next && c.1.store.nodes.Keys == s.store.nodes.Keys
      && match FirstElementIn(s.store, Kids(s.store, node))
         case None => c == (GNull, s)
         case Some(e) =>
           c.0 == EntryValue(s.store, NodeLoc(e)) && Detached(c.1.store, e)
           && Kids(c.1.store, node) == Without(Kids(s.store, node), e)
  {
    match FirstElementIn(s.store, Kids(s.store, node))
    case None =>
    case Some(e) =>
      assert Resolve(env, s.store, p, Some(node)) == Some([NodeLoc(e)]);
      assert s.store.nodes[e].parent == Some(node);
      ConsumeSingle(env, s, p, Some(node), e, node);
      RemoveElementChild(s.store, node, e);
      var r := RemoveChild(s.store, node, e);
      assert ConsumeSpec(env, s, p, Some(node)) == (EntryValue(s.store, NodeLoc(e)), s.(store := r));
  }

  /** The template step of `renderForEach`. */
  lemma ConsumeFirstChild(env: Env, s: DocState, node: NodeId)
    requires s.fault.None? && s.loaded && Valid(s.store) && Consistent(s.store) && IsElement(s.store, node)
    ensures var c := ConsumeSpec(env, s, FirstChildPath, Some(node));
      c.1.fault.None? && c.1.loaded && c.1.errs == s.errs && Valid(c.1.store) && Consistent(c.1.store)
      && IsElement(c.1.store, node) && c.1.store.next == s.store.next && c.1.store.nodes.Keys == s.store.nodes.Keys
      && match FirstElementIn(s.store, Kids(s.store, node))
         case None => c == (GNull, s)
         case Some(e) =>
           c.0 == EntryValue(s.store, NodeLoc(e)) && Detached(c.1.store, e)
           && Kids(c.1.store, node) == Without(Kids(s.store, node), e)
  {
    FixedPathsNoGap();
    assert Classify(FirstChildPath) == FirstChildElement;
    ConsumeFirstAt(env, s, FirstChildPath, node);
  }

  lemma ForEachUnfold(env: Env, svc: Services, data: Context, s: DocState, node: NodeId, a: Attr)
    requires s.fault.None? && Size(svc, ParamValue(a.value, data)) > 0
    ensures HandlerSpec(env, svc, data, s, ForEach, node, a)
         == AppendItems(env, svc, ConsumeSpec(env, s, FirstChildPath, Some(node)).1, node,
                        ConsumeSpec(env, s, FirstChildPath, Some(node)).0,
                        ItemData(data, KeyName(s.store, node), NodeAttr(s.store, node, "name"), Entries(ParamValue(a.value, data))))
  {
    ForEachDispatch(env, svc, data, s, ForEach, node, a);
  }

  lemma ForEachDispatch(env: Env, svc: Services, data: Context, s: DocState, h: Handler, node: NodeId, a: Attr)
    requires s.fault.None? && h == ForEach
    ensures HandlerSpec(env, svc, data, s, h, node, a) == ForEachSpec(env, svc, data, s, node, a)
  {
    assert !IsConditional(h) && !IsSetter(h);
  }

  /** The item loop after the template step, on any state the template
      step can leave. */
  lemma ForEachItems(env: Env, svc: Services, s: DocState, c: (GetResult, DocState), node: NodeId, ds: seq<Context>)
    requires c.1.fault.None? && c.1.loaded && c.1.errs == s.errs && Valid(c.1.store) && IsElement(c.1.store, node)
    requires forall t, d :: svc.compile(Fragment(t), d, None).VNode?
    ensures var r := AppendItems(env, svc, c.1, node, c.0, ds);
      r.fault.None? && r.errs == s.errs && Valid(r.store)
      && AppendedInOrder(c.1.store, r.store, node, Items(svc, c.0, ds))
      && (forall e :: e in c.1.store.nodes && ParentOf(c.1.store, e) == None ==> ParentOf(r.store, e) == None)
  {
    AppendItemsKeeps(env, svc, c.1, node, c.0, ds);
    AppendItemsInOrder(env, svc, c.1, node, c.0, ds);
  }

  /** `foreach` over a non-empty collection: the first child element is the
      item template (see `ConsumeFirstChild`) and stays out of the tree, then
      one compiled item per entry is appended to the node, in order, each
      from the data merged with the entry's key and value. */
  lemma ForEachRenders(env: Env, svc: Services, data: Context, s: DocState, node: NodeId, a: Attr)
    requires s.fault.None? && s.loaded && Valid(s.store) && Consistent(s.store) && IsElement(s.store, node)
    requires Size(svc, ParamValue(a.value, data)) > 0
    requires forall t, d :: svc.compile(Fragment(t), d, None).VNode?
    ensures var c := ConsumeSpec(env, s, FirstChildPath, Some(node));
      var ds := ItemData(data, KeyName(s.store, node), NodeAttr(s.store, node, "name"), Entries(ParamValue(a.value, data)));
      var r := HandlerSpec(env, svc, data, s, ForEach, node, a);
      r.fault.None? && r.errs == s.errs && Valid(r.store)
      && AppendedInOrder(c.1.store, r.store, node, Items(svc, c.0, ds))
      && (forall e :: FirstElementIn(s.store, Kids(s.store, node)) == Some(e) ==> ParentOf(r.store, e) == None)
  {
    ConsumeFirstChild(env, s, node);
    ForEachUnfold(env, svc, data, s, node, a);
    var c := ConsumeSpec(env, s, FirstChildPath, Some(node));
    ForEachItems(env, svc, s, c, node,
                 ItemData(data, KeyName(s.store, node), NodeAttr(s.store, node, "name"), Entries(ParamValue(a.value, data))));
  }

  // ---------------------------------------------------------------- properties of the replacing handlers

  /** The compiled view `t` took the place of `node`, child `i` of `q`: the
      fresh root (numbered `before.next`) sits at that position, and `node`
      has no parent. */
  predicate ReplacedBy(before: Store, m: Store, node: NodeId, q: NodeId, i: nat, t: Tree) {
    var x := before.next;
    var k := Kids(before, q);
    i < |k| && Kids(m, q) == k[..i] + [x] + k[i + 1..]
    && ParentOf(m, x) == Some(q) && ParentOf(m, node) == None && HoldsRoot(m, x, t)
  }

  /** `set('.', $tree, $node)`: a fresh copy of the tree takes the node's place. */
  lemma ReplaceSelf(env: Env, s: DocState, node: NodeId, t: Tree, q: NodeId, i: nat)
    requires s.fault.None? && s.loaded && Valid(s.store)
    requires node in s.store.nodes && ParentOf(s.store, node) == Some(q) && q != node && q in s.store.nodes
    requires i < |Kids(s.store, q)| && Kids(s.store, q)[i] == node && Distinct(Kids(s.store, q))
    ensures var m := SetSpec(env, s, SelfPath, VNode(t), Some(node));
      m.fault.None? && m.errs == s.errs && m.loaded && m.store.next > s.store.next
      && node in m.store.nodes && ReplacedBy(s.store, m.store, node, q, i, t)
  {
    SelfShortcut(env, s.store, node);
    assert SelfPath + GapSuffix(GapNone) == SelfPath;
    SetPlacesNode(env, s, SelfPath, GapNone, t, Some(node), node, q, i);
    SetNodeOnSingleTarget(env, s, SelfPath, GapNone, t, Some(node), node);
    var added := AddForest(s.store, [t], None);
    var x := s.store.next;
    var k := Kids(s.store, q);
    assert x !in s.store.nodes;
    assert Kids(added.0, q) == k;
    IndexOfDistinct(k, i);
    var w := WithChildren(added.0, q, k[..i] + [x] + k[i + 1..], [x]);
    var m := SetSpec(env, s, SelfPath, VNode(t), Some(node));
    assert m.store == SetParents(w, [node], None);
    assert w.nodes[x] == added.0.nodes[x].(parent := Some(q));
    assert m.store.nodes[x] == w.nodes[x];
  }

  /** `deleteDescendants($node)`: the node ends with no children, and
      children are only removed. */
  lemma ClearBelowEffect(s: DocState, node: NodeId)
    requires s.fault.None? && node in s.store.nodes && s.store.next > 0
    ensures var r := ClearBelow(s, node);
      r.fault.None? && r.errs == s.errs && r.loaded == s.loaded && Shrinks(s.store, r.store) && Kids(r.store, node) == []
  {
  }

  /** A view replaces a node and clears below it: the view's root stays in
      place of the node (`ReplacedBy` before the clearing), and the node
      ends without parent and children. */
  lemma ReplaceAndClear(env: Env, s: DocState, node: NodeId, t: Tree, q: NodeId, i: nat)
    requires s.fault.None? && s.loaded && Valid(s.store)
    requires node in s.store.nodes && ParentOf(s.store, node) == Some(q) && q != node && q in s.store.nodes
    requires i < |Kids(s.store, q)| && Kids(s.store, q)[i] == node && Distinct(Kids(s.store, q))
    ensures var m := SetSpec(env, s, SelfPath, VNode(t), Some(node));
      var r := ClearBelow(m, node);
      ReplacedBy(s.store, m.store, node, q, i, t)
      && r.fault.None? && r.errs == s.errs && ParentOf(r.store, node) == None && Kids(r.store, node) == []
      && HoldsRoot(r.store, s.store.next, t) && Shrinks(m.store, r.store)
  {
    ReplaceSelf(env, s, node, t, q, i);
    ClearBelowEffect(SetSpec(env, s, SelfPath, VNode(t), Some(node)), node);
  }

  /** `include`: the named view, compiled with the parameter as data (or the
      view's own data), takes the node's place, and the node ends without
      parent and children. */
  lemma IncludeReplaces(env: Env, svc: Services, data: Context, s: DocState, node: NodeId, a: Attr, q: NodeId, i: nat)
    requires s.fault.None? && s.loaded && Valid(s.store)
    requires node in s.store.nodes && ParentOf(s.store, node) == Some(q) && q != node && q in s.store.nodes
    requires i < |Kids(s.store, q)| && Kids(s.store, q)[i] == node && Distinct(Kids(s.store, q))
    requires svc.compile(Named(a.value), IncludeData(s.store, node, data), None).VNode?
    ensures var v := svc.compile(Named(a.value), IncludeData(s.store, node, data), None);
      var m := SetSpec(env, s, SelfPath, v, Some(node));
      var r := HandlerSpec(env, svc, data, s, Include, node, a);
      ReplacedBy(s.store, m.store, node, q, i, v.tree)
      && r.fault.None? && r.errs == s.errs && ParentOf(r.store, node) == None && Kids(r.store, node) == []
      && HoldsRoot(r.store, s.store.next, v.tree)
  {
    var v := svc.compile(Named(a.value), IncludeData(s.store, node, data), None);
    assert v == VNode(v.tree);
    IncludeDispatch(env, svc, data, s, Include, node, a);
    ReplaceAndClear(env, s, node, v.tree, q, i);
  }

  lemma IncludeDispatch(env: Env, svc: Services, data: Context, s: DocState, h: Handler, node: NodeId, a: Attr)
    requires s.fault.None? && h == Include
    ensures HandlerSpec(env, svc, data, s, h, node, a) == IncludeSpec(env, svc, data, s, node, a)
  {
    assert !IsConditional(h) && !IsSetter(h);
  }

  /** `errors` with errors in the data: the compiled error view takes the
      node's place. */
  lemma ErrorsReplaces(env: Env, svc: Services, data: Context, s: DocState, node: NodeId, a: Attr, q: NodeId, i: nat)
    requires s.fault.None? && s.loaded && Valid(s.store)
    requires node in s.store.nodes && ParentOf(s.store, node) == Some(q) && q != node && q in s.store.nodes
    requires i < |Kids(s.store, q)| && Kids(s.store, q)[i] == node && Distinct(Kids(s.store, q))
    requires "errors" in data && Size(svc, data["errors"]) > 0
    requires svc.compile(Named(a.value), data, None).VNode?
    ensures var v := svc.compile(Named(a.value), data, None);
      var r := HandlerSpec(env, svc, data, s, Errors, node, a);
      ReplacedBy(s.store, r.store, node, q, i, v.tree) && r.fault.None? && r.errs == s.errs
  {
    var v := svc.compile(Named(a.value), data, None);
    assert v == VNode(v.tree);
    ReplaceSelf(env, s, node, v.tree, q, i);
  }

  /** `errors` without errors in the data takes the node out of the tree. */
  lemma ErrorsAbsentRemoves(env: Env, svc: Services, data: Context, s: DocState, node: NodeId, a: Attr)
    requires s.fault.None? && s.loaded && Consistent(s.store)
    requires "errors" !in data || Size(svc, data["errors"]) == 0
    ensures var r := HandlerSpec(env, svc, data, s, Errors, node, a);
      r.fault.None? && r.errs == s.errs && Detached(r.store, node)
  {
    SelfShortcut(env, s.store, node);
    SetNullDeletes(env, s, SelfPath, Some(node));
  }

  lemma PaginationUnfold(env: Env, svc: Services, data: Context, s: DocState, node: NodeId, a: Attr)
    requires s.fault.None?
    ensures HandlerSpec(env, svc, data, s, Pagination, node, a) == PaginationSpec(env, svc, data, s, node, a)
  {
    assert !IsConditional(Pagination) && !IsSetter(Pagination);
  }

  /** `pagination`: a falsy paginator changes nothing, a truthy one that is
      not an object ends the request, and an object without pages changes
      nothing. */
  lemma PaginationWithoutPages(env: Env, svc: Services, data: Context, s: DocState, node: NodeId, a: Attr)
    requires s.fault.None?
    ensures var p := ParamValue(NodeAttr(s.store, node, "name"), data);
      var r := HandlerSpec(env, svc, data, s, Pagination, node, a);
      (!Truthy(p) ==> r == s)
      && (Truthy(p) && !p.Obj? ==> r.fault == Some("Call to a member function hasPages() on a non-object") && r.store == s.store)
      && (p.Obj? && !svc.hasPages(p) ==> r == s)
  {
    PaginationUnfold(env, svc, data, s, node, a);
  }

  /** `pagination` with pages: the named view, given the paginator as
      `paginator` on top of the view's data, takes the node's place. */
  lemma PaginationReplaces(env: Env, svc: Services, data: Context, s: DocState, node: NodeId, a: Attr, q: NodeId, i: nat)
    requires s.fault.None? && s.loaded && Valid(s.store)
    requires node in s.store.nodes && ParentOf(s.store, node) == Some(q) && q != node && q in s.store.nodes
    requires i < |Kids(s.store, q)| && Kids(s.store, q)[i] == node && Distinct(Kids(s.store, q))
    requires var p := ParamValue(NodeAttr(s.store, node, "name"), data);
      p.Obj? && svc.hasPages(p) && svc.compile(Named(a.value), map["paginator" := p] + data, None).VNode?
    ensures var p := ParamValue(NodeAttr(s.store, node, "name"), data);
      var r := HandlerSpec(env, svc, data, s, Pagination, node, a);
      ReplacedBy(s.store, r.store, node, q, i, svc.compile(Named(a.value), map["paginator" := p] + data, None).tree)
      && r.fault.None? && r.errs == s.errs
  {
    var p := ParamValue(NodeAttr(s.store, node, "name"), data);
    var v := svc.compile(Named(a.value), map["paginator" := p] + data, None);
    assert v == VNode(v.tree);
    assert Truthy(p);
    PaginationUnfold(env, svc, data, s, node, a);
    ReplaceSelf(env, s, node, v.tree, q, i);
  }

  /** `container`: the node handed to the container view as its child no
      longer carries `data-v.container`; every other attribute and every
      node's place is as before. */
  lemma ContainerDropsOwnAttr(env: Env, s: DocState, node: NodeId)
    requires s.fault.None? && s.loaded
    ensures var s1 := SetSpec(env, s, AttrPath(ContainerAttr), VNull, Some(node));
      s1.fault.None? && s1.errs == s.errs && SameShape(s.store, s1.store)
      && !HasAttr(s1.store, node, ContainerAttr)
      && (forall m :: m != ContainerAttr ==> HasAttr(s1.store, node, m) == HasAttr(s.store, node, m) && GetAttr(s1.store, node, m) == GetAttr(s.store, node, m))
  {
    ContainerPath();
    var es := if HasAttr(s.store, node, ContainerAttr) then [AttrLoc(node, ContainerAttr)] else [];
    assert Resolve(env, s.store, AttrPath(ContainerAttr), Some(node)) == Some(es);
    var s1 := SetSpec(env, s, AttrPath(ContainerAttr), VNull, Some(node));
    assert s1 == DeleteAll(s, es);
    DeleteAttrsEffect(s, es, node, ContainerAttr);
    forall m | m != ContainerAttr
      ensures HasAttr(s1.store, node, m) == HasAttr(s.store, node, m) && GetAttr(s1.store, node, m) == GetAttr(s.store, node, m)
    {
      DeleteAttrsEffect(s, es, node, m);
    }
  }

  lemma ContainerPath()
    ensures Classify(AttrPath(ContainerAttr)) == OwnAttr(ContainerAttr)
    ensures ParseGap(AttrPath(ContainerAttr)) == (AttrPath(ContainerAttr), GapNone)
  {
    assert ContainerAttr == "data-v.container";
    assert SimpleName(ContainerAttr);
    ClassifyAttrPath(ContainerAttr);
    assert AttrPath(ContainerAttr)[|AttrPath(ContainerAttr)| - 1] == 'r';
    if EndsWith(AttrPath(ContainerAttr), "-gap()") { LastChar(AttrPath(ContainerAttr), "-gap()"); }
    if EndsWith(AttrPath(ContainerAttr), "/data()") { LastChar(AttrPath(ContainerAttr), "/data()"); }
  }
}
