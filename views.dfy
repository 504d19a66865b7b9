/** The view object of `View.php`: a document that its methods edit in
    place, the view data, and the child document a container hands in.
    Every method is proved to leave the document in the state that the
    corresponding function of `ViewModel` describes, so the properties
    proved there hold of the objects. */
module Views {
  import opened Values
  import opened Paths
  import opened Dom
  import opened Doc
  import opened Directives
  import opened ViewModel

  class View {
    const document: Document
    const svc: Services
    var data: Context
    var child: Option<Document>

    constructor (document: Document, svc: Services, data: Context)
      ensures this.document == document && this.svc == svc && this.data == data && child.None?
    {
      this.document := document;
      this.svc := svc;
      this.data := data;
      child := None;
    }

    /** `with($key, $value)`: one entry of the data is added or overwritten. */
    method With(key: string, value: Value)
      modifies this
      ensures data == old(data)[key := value] && child == old(child)
    {
      data := data[key := value];
    }

    /** `with($array)`: `array_merge`, the given entries winning. */
    method WithAll(entries: Context)
      modifies this
      ensures data == old(data) + entries && child == old(child)
    {
      data := data + entries;
    }

    /** `withErrors` and `withErrorBag`: the message bag under `errors`. */
    method WithErrors(bag: Value)
      modifies this
      ensures data == old(data)["errors" := bag] && child == old(child)
    {
      With("errors", bag);
    }

    /** `setChild`. */
    method SetChild(c: Document)
      modifies this
      ensures child == Some(c) && data == old(data)
    {
      child := Some(c);
    }

    /** `set($xpath, $document, $ref)`: the edit goes to the view's document; nothing else changes. */
    method Set(xpath: string, value: SetValue, ref: Option<NodeId>)
      modifies document
      ensures document.State() == SetSpec(document.env, old(document.State()), xpath, value, ref)
    {
      document.Set(xpath, value, ref);
    }

    // ------------------------------------------------------------ removing nodes

    /** `deleteDescendants($node)`: while the node has a first child, delete
        below that child, then remove it. `depth` bounds the recursion. */
    method DeleteDescendantsAt(id: NodeId, depth: nat)
      modifies document
      ensures document.store == DeleteDescendants(old(document.store), id, depth)
      ensures document.errs == old(document.errs) && document.loaded == old(document.loaded)
      ensures document.fault == old(document.fault)
      decreases depth, 1
    {
      if depth == 0 || id !in document.store.nodes {
        return;
      }
      ghost var target := DeleteDescendants(document.store, id, depth);
      while |document.store.nodes[id].children| > 0
        invariant id in document.store.nodes
        invariant DeleteDescendants(document.store, id, depth) == target
        invariant document.errs == old(document.errs) && document.loaded == old(document.loaded)
        invariant document.fault == old(document.fault)
        decreases |document.store.nodes[id].children|
      {
        ghost var before := document.store;
        DeleteFirstChild(id, depth);
        DeleteDescendantsRound(before, id, depth);
      }
    }

    /** One round of the loop: below the first child, then the first child. */
    method DeleteFirstChild(id: NodeId, depth: nat)
      requires depth > 0 && id in document.store.nodes && |document.store.nodes[id].children| > 0
      modifies document
      ensures document.store == DeleteRound(old(document.store), id, depth)
      ensures document.errs == old(document.errs) && document.loaded == old(document.loaded)
      ensures document.fault == old(document.fault)
      decreases depth, 0
    {
      var first := document.store.nodes[id].children[0];
      DeleteDescendantsAt(first, Below(depth));
      if |document.store.nodes[id].children| > 0 {
        document.RemoveChildAt(id, document.store.nodes[id].children[0]);
      }
    }

    /** `deleteDescendants` unless the request has already ended. */
    method ClearBelowAt(node: NodeId)
      modifies document
      ensures document.State() == ClearBelow(old(document.State()), node)
    {
      if document.fault.None? {
        DeleteDescendantsAt(node, document.store.next);
      }
    }

    /** `removeNode` and then `deleteDescendants`. */
    method RemoveSubtreeAt(node: NodeId)
      modifies document
      ensures document.State() == RemoveSubtree(document.env, old(document.State()), node)
    {
      document.Set(SelfPath, VNull, Some(node));
      ClearBelowAt(node);
    }

    // ------------------------------------------------------------ the handlers

    /** `compileErrors`. */
    method Errors(node: NodeId, a: Attr)
      modifies document
      ensures document.State() == ErrorsSpec(document.env, svc, data, old(document.State()), node, a)
    {
      var errors := if "errors" in data then data["errors"] else Null;
      if Size(svc, errors) > 0 {
        document.Set(SelfPath, svc.compile(Named(a.value), data, None), Some(node));
      } else {
        document.Set(SelfPath, VNull, Some(node));
      }
    }

    /** `compileInclude`. */
    method Include(node: NodeId, a: Attr)
      modifies document
      ensures document.State() == IncludeSpec(document.env, svc, data, old(document.State()), node, a)
    {
      var d := IncludeData(document.store, node, data);
      document.Set(SelfPath, svc.compile(Named(a.value), d, None), Some(node));
      ClearBelowAt(node);
    }

    /** `compilePagination`. */
    method Pagination(node: NodeId, a: Attr)
      modifies document
      ensures document.State() == PaginationSpec(document.env, svc, data, old(document.State()), node, a)
    {
      var p := ParamValue(NodeAttr(document.store, node, "name"), data);
      if !Truthy(p) {
        return;
      }
      if !p.Obj? {
        document.Abort("Call to a member function hasPages() on a non-object");
      } else if svc.hasPages(p) {
        document.Set(SelfPath, svc.compile(Named(a.value), map["paginator" := p] + data, None), Some(node));
      }
    }

    /** `renderForEach`: the template is consumed once, then one compiled
        item per entry is appended, in iteration order. */
    method RenderForEachAt(node: NodeId, items: Value)
      modifies document
      ensures document.State() == RenderForEach(document.env, svc, data, old(document.State()), node, items)
    {
      var name := NodeAttr(document.store, node, "name");
      var keyName := KeyName(document.store, node);
      var template := document.Consume(FirstChildPath, Some(node));
      var ds := ItemData(data, keyName, name, Entries(items));
      ghost var s1 := document.State();
      for i := 0 to |ds|
        invariant document.State() == AppendItems(document.env, svc, s1, node, template, ds[..i])
      {
        assert ds[..i + 1][..i] == ds[..i];
        document.Set(ChildGapPath, Item(svc, template, ds[i]), Some(node));
      }
      assert ds[..|ds|] == ds;
    }

    /** `compileForEach`. */
    method ForEach(node: NodeId, a: Attr)
      modifies document
      ensures document.State() == ForEachSpec(document.env, svc, data, old(document.State()), node, a)
    {
      var items := ParamValue(a.value, data);
      if Size(svc, items) == 0 {
        document.Set(SelfPath, VNull, Some(node));
      } else {
        RenderForEachAt(node, items);
      }
    }

    /** `compileContainer`. */
    method Container(node: NodeId, a: Attr)
      modifies document
      ensures document.State() == ContainerSpec(document.env, svc, data, old(document.State()), node, a)
    {
      document.Set(AttrPath(ContainerAttr), VNull, Some(node));
      var inner := svc.compile(Fragment(EntryValue(document.store, NodeLoc(node))), data, None);
      document.Set(SelfPath, svc.compile(Named(a.value), data, Some(inner)), Some(node));
      ClearBelowAt(node);
    }

    /** One handler on one node (`$this->$fn($node, $attribute)`). */
    method Handle(h: Handler, node: NodeId, a: Attr)
      modifies document
      ensures document.State() == HandlerSpec(document.env, svc, data, old(document.State()), h, node, a)
    {
      if document.fault.Some? {
        return;
      }
      if IsConditional(h) {
        HandleConditional(h, node, a);
      } else if IsSetter(h) {
        HandleSetter(h, node, a);
      } else {
        HandleStructural(h, node, a);
      }
    }

    /** A conditional handler: the node goes when the condition says so. */
    method HandleConditional(h: Handler, node: NodeId, a: Attr)
      requires document.fault.None? && IsConditional(h)
      modifies document
      ensures document.State() == HandlerSpec(document.env, svc, data, old(document.State()), h, node, a)
    {
      if Removes(svc, data, document.store, h, node, a) {
        RemoveSubtreeAt(node);
      }
    }

    /** A setter handler: one `set` on the node. */
    method HandleSetter(h: Handler, node: NodeId, a: Attr)
      requires document.fault.None? && !IsConditional(h) && IsSetter(h)
      modifies document
      ensures document.State() == HandlerSpec(document.env, svc, data, old(document.State()), h, node, a)
    {
      ghost var s0 := document.State();
      var path := EditPath(document.store, h, node, a);
      var value := EditValue(svc, data, document.store, h, node, a);
      document.Set(path, value, Some(node));
      SetterIsSet(document.env, svc, data, s0, h, node, a);
    }

    /** A handler that replaces or rebuilds the node's content. */
    method HandleStructural(h: Handler, node: NodeId, a: Attr)
      requires document.fault.None? && !IsConditional(h) && !IsSetter(h)
      modifies document
      ensures document.State() == HandlerSpec(document.env, svc, data, old(document.State()), h, node, a)
    {
      match h
      case Errors => Errors(node, a);
      case Include => Include(node, a);
      case Pagination => Pagination(node, a);
      case ForEach => ForEach(node, a);
      case Container => Container(node, a);
      case _ =>
    }

    // ------------------------------------------------------------ the scan

    /** One turn of `runCompilers`: skipped when the node has no parent;
        otherwise its handlers run in attribute order, each only while the
        node still has a parent, and then its prefixed attributes other than
        `data-v.section` are removed if any handler was listed. */
    method NodeTurn(node: NodeId)
      modifies document
      ensures document.State() == NodeStep(document.env, svc, data, old(document.State()), node)
    {
      if ParentOf(document.store, node).None? {
        return;
      }
      var cs := GetCompilers(AttrsOf(document.store, node));
      ghost var s0 := document.State();
      for j := 0 to |cs|
        invariant document.State() == RunHandlers(document.env, svc, data, s0, node, cs[..j])
      {
        assert cs[..j + 1][..j] == cs[..j];
        if ParentOf(document.store, node).Some? {
          Handle(cs[j].handler, node, cs[j].attr);
        }
      }
      assert cs[..|cs|] == cs;
      if |cs| > 0 {
        document.Set(StripPath, VNull, Some(node));
      }
    }

    /** `runCompilers`: the nodes with a prefixed attribute are listed once,
        then visited in document order. */
    method RunCompilers()
      modifies document
      ensures document.State() == RunSpec(document.env, svc, data, old(document.State()))
    {
      var nodes := TokenNodes(document.State());
      ghost var s0 := document.State();
      for i := 0 to |nodes|
        invariant document.State() == RunNodes(document.env, svc, data, s0, nodes[..i])
      {
        assert nodes[..i + 1][..i] == nodes[..i];
        NodeTurn(nodes[i]);
      }
      assert nodes[..|nodes|] == nodes;
    }

    // ------------------------------------------------------------ the child's sections

    /** `getSectionFromDocument`, as intended. */
    method SectionOf(c: Document, attribute: string) returns (r: Result<SetValue>)
      modifies c
      ensures (r, c.State()) == Section(c.env, old(c.State()), attribute)
    {
      if attribute == DefaultSection {
        r := Ok(DocumentValue(c.State()));
        return;
      }
      var g := c.Get(SectionPath(attribute), None);
      match g
      case GNull => r := Ok(VNull);
      case GDocument(t) => r := Ok(VNode(WithoutRootAttr(t, SectionAttr)));
      case _ => r := Err("Call to a member function removeAttribute() on null");
    }

    /** One contents slot: its section of the child replaces it. */
    method FillSlot(c: Document, node: NodeId)
      requires c != document && c.env == document.env
      modifies document, c
      ensures (document.State(), c.State()) == FillOne(document.env, old(document.State()), old(c.State()), node)
    {
      if document.fault.Some? {
        return;
      }
      var sec := SectionOf(c, GetAttr(document.store, node, ContentsAttr));
      match sec
      case Err(why) => document.Abort(why);
      case Ok(v) => document.Set(SelfPath, v, Some(node));
    }

    /** `renderChildren`: with a child, every element carrying
        `data-v.contents`, listed once in document order, is filled from it. */
    method RenderChildren()
      requires child.Some? ==> child.value != document && child.value.env == document.env
      modifies document, if child.Some? then {child.value} else {}
      ensures child.None? ==> document.State() == old(document.State())
      ensures child.Some? ==>
        (document.State(), Some(child.value.State()))
          == RenderChildrenSpec(document.env, old(document.State()), Some(old(child.value.State())))
    {
      if child.None? {
        return;
      }
      var c := child.value;
      var nodes := ContentsNodes(document.State());
      ghost var s0 := document.State();
      ghost var c0 := c.State();
      for i := 0 to |nodes|
        invariant (document.State(), c.State()) == FillAll(document.env, s0, c0, nodes[..i])
      {
        assert nodes[..i + 1][..i] == nodes[..i];
        FillSlot(c, nodes[i]);
      }
      assert nodes[..|nodes|] == nodes;
    }

    // ------------------------------------------------------------ compiling and rendering

    /** The child's state, when there is a child. */
    function ChildState(): Option<DocState>
      reads this, if child.Some? then {child.value} else {}
    {
      if child.Some? then Some(child.value.State()) else None
    }

    /** `compile`: the child's sections first, then the scan. */
    method Compile()
      requires child.Some? ==> child.value != document && child.value.env == document.env
      modifies document, if child.Some? then {child.value} else {}
      ensures var rc := RenderChildrenSpec(document.env, old(document.State()), old(ChildState()));
        ChildState() == rc.1 && document.State() == RunSpec(document.env, svc, data, rc.0)
    {
      RenderChildren();
      RunCompilers();
    }

    /** `tidy`: every prefixed attribute of the document is removed. */
    method Tidy()
      modifies document
      ensures document.State() == TidyAttrsSpec(document.env, old(document.State()))
    {
      document.Set(TidyPath, VNull, None);
    }

    /** `render`: the factory's shared data under the view's own, then
        compiling, then tidying. */
    method Render(shared: Context)
      requires child.Some? ==> child.value != document && child.value.env == document.env
      modifies this, document, if child.Some? then {child.value} else {}
      ensures data == shared + old(data) && child == old(child)
      ensures var rc := RenderChildrenSpec(document.env, old(document.State()), old(ChildState()));
        ChildState() == rc.1
        && document.State() == TidyAttrsSpec(document.env, RunSpec(document.env, svc, data, rc.0))
    {
      data := shared + data;
      Compile();
      Tidy();
    }
  }
}
