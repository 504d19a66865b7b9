/** The older compiler (`NViewCompiler.php`): the view data is flattened
    into dotted keys once, the tokens present in the view are collected,
    and then each entry of a fixed compiler table whose token is present
    visits, in table order, every element carrying its attribute. */
module Legacy {
  import opened Strings
  import opened Values
  import opened Paths
  import opened Dom
  import opened Doc
  import opened ViewModel

  // ---------------------------------------------------------------- flattened data

  /** `array_dot` on an array's entries under a key prefix: a non-empty
      array is flattened below `key.`, every other value is a leaf. Pairs
      come in iteration order; a later pair with the same key wins. */
  function DotPairs(ks: seq<string>, vs: seq<Value>, prepend: string): (r: seq<(string, Value)>)
    ensures forall i :: 0 <= i < |r| ==> StartsWith(r[i].0, prepend)
    decreases vs
  {
    if |ks| == 0 || |vs| == 0 then []
    else
      var v := vs[0];
      var head := if v.Arr? && |v.keys| > 0 && |v.vals| > 0 then DotPairs(v.keys, v.vals, prepend + ks[0] + ".")
                  else [(prepend + ks[0], v)];
      PrefixExtends(prepend, ks[0] + ".");
      head + DotPairs(ks[1..], vs[1..], prepend)
  }

  lemma PrefixExtends(p: string, q: string)
    ensures forall s :: StartsWith(s, p + q) ==> StartsWith(s, p)
  {
    forall s | StartsWith(s, p + q)
      ensures StartsWith(s, p)
    {
      assert s[..|p|] == (p + q)[..|p|];
    }
  }

  /** `collect(array_dot($data))`. */
  function Flatten(data: Value): seq<(string, Value)> {
    if data.Arr? then DotPairs(data.keys, data.vals, "") else []
  }

  /** `Collection::has`: some pair has the key. */
  predicate FlatHas(flat: seq<(string, Value)>, k: string) {
    exists i :: 0 <= i < |flat| && flat[i].0 == k
  }

  /** `Collection::get`: the value of the last pair with the key (later
      writes win), null when there is none. */
  function FlatGet(flat: seq<(string, Value)>, k: string): (r: Value)
    ensures !FlatHas(flat, k) ==> r == Null
    ensures FlatHas(flat, k) ==> exists i :: 0 <= i < |flat| && flat[i] == (k, r) && forall j :: i < j < |flat| ==> flat[j].0 != k
    decreases |flat|
  {
    if |flat| == 0 then Null
    else if flat[|flat| - 1].0 == k then flat[|flat| - 1].1
    else
      var r := FlatGet(flat[..|flat| - 1], k);
      assert forall i :: 0 <= i < |flat| - 1 ==> flat[..|flat| - 1][i] == flat[i];
      r
  }

  // ---------------------------------------------------------------- getValue

  /** `getValueFromData($composite, $data)`, with the remaining segments
      in reading order: a property of an object, a flattened key of an
      array, null for anything else. */
  function FromData(segments: seq<string>, data: Value): (r: Value)
    ensures |segments| > 0 && !data.Obj? && !data.Arr? ==> r == Null
    decreases |segments|
  {
    if |segments| == 0 then data
    else match data
      case Obj(ps, pvs) =>
        (match Lookup(ps, pvs, segments[0])
         case None => FromData(segments[1..], Null)
         case Some(v) => FromData(segments[1..], v))
      case Arr(_, _) => FromData(segments[1..], FlatGet(Flatten(data), segments[0]))
      case _ => Null
  }

  /** The walk reads the segments left to right. */
  lemma {:induction false} FromDataAppend(a: seq<string>, b: seq<string>, data: Value)
    ensures FromData(a + b, data) == FromData(b, FromData(a, data))
    decreases |a|
  {
    if |a| == 0 {
      assert a + b == b;
    } else {
      assert (a + b)[0] == a[0];
      assert (a + b)[1..] == a[1..] + b;
      match data
      case Obj(ps, pvs) =>
        match Lookup(ps, pvs, a[0]) {
          case None => FromDataAppend(a[1..], b, Null);
          case Some(v) => FromDataAppend(a[1..], b, v);
        }
      case Arr(_, _) => FromDataAppend(a[1..], b, FlatGet(Flatten(data), a[0]));
      case _ =>
        if |b| > 0 {
          assert FromData(b, Null) == Null;
        }
    }
  }

  /** A value returned where `: string` is declared: scalars are converted
      (PHP's coercive mode), anything else is a `TypeError`. */
  function AsString(v: Value): (r: Result<string>)
    ensures r.Ok? <==> v.Str? || v.Int? || v.Bool?
    ensures r.Ok? ==> r.value == StrVal(v)
  {
    match v
    case Str(s) => Ok(s)
    case Int(_) => Ok(StrVal(v))
    case Bool(_) => Ok(StrVal(v))
    case Null => Err("Return value must be of type string, null returned")
    case Arr(_, _) => Err("Return value must be of type string, array returned")
    case _ => Err("Return value must be of type string, object returned")
  }

  /** `getValue($attribute, $data)`: the whole dotted key when the
      flattened data has it; otherwise, when the first segment is a key,
      the walk from there; otherwise the attribute text itself. */
  function GetValue(attribute: string, flat: seq<(string, Value)>): (r: Result<string>)
    ensures FlatHas(flat, attribute) ==> r == AsString(FlatGet(flat, attribute))
    ensures !FlatHas(flat, attribute) && !FlatHas(flat, Split(attribute, '.')[0]) ==> r == Ok(attribute)
    ensures !FlatHas(flat, attribute) && FlatHas(flat, Split(attribute, '.')[0]) ==>
      r == AsString(FromData(Split(attribute, '.')[1..], FlatGet(flat, Split(attribute, '.')[0])))
  {
    if FlatHas(flat, attribute) then AsString(FlatGet(flat, attribute))
    else
      var segments := Split(attribute, '.');
      if FlatHas(flat, segments[0]) then AsString(FromData(segments[1..], FlatGet(flat, segments[0])))
      else Ok(attribute)
  }

  /** A string nested one level deep is found under its dotted path,
      because flattening puts it under exactly that key. */
  lemma NestedFound(k: string, j: string, x: string)
    ensures GetValue(k + "." + j, Flatten(Arr([k], [Arr([j], [Str(x)])]))) == Ok(x)
  {
    var flat := Flatten(Arr([k], [Arr([j], [Str(x)])]));
    FlattenOne(k, j, x);
    assert flat[0].0 == k + "." + j;
    assert FlatHas(flat, k + "." + j);
  }

  /** The flattening of `[k => [j => x]]`. */
  lemma FlattenOne(k: string, j: string, x: string)
    ensures Flatten(Arr([k], [Arr([j], [Str(x)])])) == [(k + "." + j, Str(x))]
  {
    assert "" + k + "." == k + ".";
    assert DotPairs([j], [Str(x)], k + ".") == [(k + "." + j, Str(x))] + DotPairs([j][1..], [Str(x)][1..], k + ".");
    assert [Str(x)][1..] == [];
    assert DotPairs([k], [Arr([j], [Str(x)])], "")
        == DotPairs([j], [Str(x)], k + ".") + DotPairs([k][1..], [Arr([j], [Str(x)])][1..], "");
    assert [Arr([j], [Str(x)])][1..] == [];
    assert (k + ".") + j == k + "." + j;
  }

  /** A nested array is never a key itself, so a path into it that the
      flattening lacks falls back to the text. */
  lemma MissingNestedIsText(k: string, j: string, other: string, x: string)
    requires '.' !in k && other != j
    ensures GetValue(k + "." + other, Flatten(Arr([k], [Arr([j], [Str(x)])]))) == Ok(k + "." + other)
  {
    var flat := Flatten(Arr([k], [Arr([j], [Str(x)])]));
    FlattenOne(k, j, x);
    assert (k + "." + other)[|k| + 1..] == other;
    assert (k + "." + j)[|k| + 1..] == j;
    assert !FlatHas(flat, k + "." + other);
    assert k + "." + other == k + ['.'] + other;
    SplitConcat(k, other, '.');
    SplitNoSeparator(k, '.');
    var first := Split(k + "." + other, '.')[0];
    assert first == k;
    assert |k| < |k + "." + j|;
    assert !FlatHas(flat, first);
  }

  // ---------------------------------------------------------------- tokens

  /** The names after `data-v.` of the prefixed ones among `names`, in order. */
  function Stripped(names: seq<string>): (r: seq<string>)
    ensures forall t :: t in r <==> exists i :: 0 <= i < |names| && StartsWith(names[i], Prefix) && names[i][|Prefix|..] == t
    decreases |names|
  {
    if |names| == 0 then []
    else
      var prev := Stripped(names[..|names| - 1]);
      assert forall i :: 0 <= i < |names| - 1 ==> names[..|names| - 1][i] == names[i];
      var last := names[|names| - 1];
      if StartsWith(last, Prefix) then prev + [last[|Prefix|..]] else prev
  }

  /** `array_unique`: the first occurrence of each value, in order. */
  function Unique(s: seq<string>): (r: seq<string>)
    ensures forall t :: t in r <==> t in s
    ensures forall i, j :: 0 <= i < j < |r| ==> r[i] != r[j]
    decreases |s|
  {
    if |s| == 0 then []
    else
      var prev := Unique(s[..|s| - 1]);
      assert forall t :: t in s <==> t in s[..|s| - 1] || t == s[|s| - 1];
      if s[|s| - 1] in prev then prev else prev + [s[|s| - 1]]
  }

  /** The names of the view's prefixed attributes, element by element in
      document order (`getList` gives nothing without a document). */
  function AttributeNames(s: DocState): seq<string> {
    if s.loaded then LocNames(AllPrefixedAttrLocs(s.store, Elements(s.store))) else []
  }

  function LocNames(es: seq<Loc>): (r: seq<string>)
    requires forall k :: 0 <= k < |es| ==> es[k].AttrLoc?
    ensures |r| == |es| && forall k :: 0 <= k < |es| ==> r[k] == es[k].name
  {
    seq(|es|, k requires 0 <= k < |es| => es[k].name)
  }

  /** `getTokensFromView` on a document state. */
  function Tokens(s: DocState): seq<string> {
    Unique(Stripped(AttributeNames(s)))
  }

  /** The tokens are exactly the prefix-stripped attribute names, each once. */
  lemma TokensExact(s: DocState)
    ensures forall t :: t in Tokens(s) <==> exists i :: 0 <= i < |AttributeNames(s)| && StartsWith(AttributeNames(s)[i], Prefix)
                                                     && AttributeNames(s)[i][|Prefix|..] == t
    ensures forall i, j :: 0 <= i < j < |Tokens(s)| ==> Tokens(s)[i] != Tokens(s)[j]
  {
  }

  // ---------------------------------------------------------------- the compiler table

  datatype LegacyHandler = LCan | LCannot | LChildGap | LText | LTranslations

  /** `$compilers`, in declared order. */
  const LegacyTable: seq<(string, LegacyHandler)> :=
    [("can", LCan), ("cannot", LCannot), ("child", LChildGap), ("text", LText), ("tr", LTranslations)]

  /** What one closure does to one node, given the attribute's value.
      `can`/`cannot` remove the node when the gate denies/allows the
      ability, `child` appends and `text` replaces with the looked-up
      value, `tr` replaces with the translation. A lookup that is not a
      string ends the request. */
  function NodeEdit(env: Env, svc: Services, flat: seq<(string, Value)>, s: DocState, h: LegacyHandler, node: NodeId, attribute: string): DocState {
    if s.fault.Some? then s
    else match h
      case LCan => if !svc.allows(attribute, Null) then SetSpec(env, s, SelfPath, VNull, Some(node)) else s
      case LCannot => if svc.allows(attribute, Null) then SetSpec(env, s, SelfPath, VNull, Some(node)) else s
      case LChildGap =>
        (match GetValue(attribute, flat)
         case Err(e) => Fail(s, e)
         case Ok(v) => SetSpec(env, s, ChildGapPath, VScalar(v), Some(node)))
      case LText =>
        (match GetValue(attribute, flat)
         case Err(e) => Fail(s, e)
         case Ok(v) => SetSpec(env, s, SelfPath, VScalar(v), Some(node)))
      case LTranslations => SetSpec(env, s, SelfPath, VScalar(svc.translate(attribute)), Some(node))
  }

  /** `getNodesByToken`: the elements carrying `data-v.<token>`, in
      document order. */
  function NodesWith(s: DocState, token: string): seq<NodeId> {
    if s.loaded then WithAttr(s.store, Elements(s.store), Prefix + token) else []
  }

  /** The closure applied to each listed node in turn, with the attribute
      value read at the node's turn; a node's being detached is not checked. */
  function Visit(env: Env, svc: Services, flat: seq<(string, Value)>, s: DocState, h: LegacyHandler, token: string, nodes: seq<NodeId>): DocState
    decreases |nodes|
  {
    if |nodes| == 0 then s
    else
      var prev := Visit(env, svc, flat, s, h, token, nodes[..|nodes| - 1]);
      var node := nodes[|nodes| - 1];
      NodeEdit(env, svc, flat, prev, h, node, GetAttr(prev.store, node, Prefix + token))
  }

  /** One more node visited. */
  lemma VisitStep(env: Env, svc: Services, flat: seq<(string, Value)>, s: DocState, h: LegacyHandler, token: string, nodes: seq<NodeId>, i: nat)
    requires i < |nodes|
    ensures var prev := Visit(env, svc, flat, s, h, token, nodes[..i]);
      Visit(env, svc, flat, s, h, token, nodes[..i + 1])
        == NodeEdit(env, svc, flat, prev, h, nodes[i], GetAttr(prev.store, nodes[i], Prefix + token))
  {
    assert nodes[..i + 1][..i] == nodes[..i];
  }

  /** `compileNodes($token, $closure)`. */
  function CompileNodesSpec(env: Env, svc: Services, flat: seq<(string, Value)>, s: DocState, h: LegacyHandler, token: string): DocState {
    Visit(env, svc, flat, s, h, token, NodesWith(s, token))
  }

  /** Each of the entries in turn, when its token is present. */
  function RunTable(env: Env, svc: Services, flat: seq<(string, Value)>, s: DocState, tokens: seq<string>, entries: seq<(string, LegacyHandler)>): DocState
    decreases |entries|
  {
    if |entries| == 0 then s
    else
      var prev := RunTable(env, svc, flat, s, tokens, entries[..|entries| - 1]);
      var e := entries[|entries| - 1];
      if e.0 in tokens then CompileNodesSpec(env, svc, flat, prev, e.1, e.0) else prev
  }

  /** `runCompilers`. */
  function LegacyRunSpec(env: Env, svc: Services, data: Value, s: DocState): DocState {
    RunTable(env, svc, Flatten(data), s, Tokens(s), LegacyTable)
  }

  /** The table entries whose token is present, in table order. */
  function Invoked(tokens: seq<string>, entries: seq<(string, LegacyHandler)>): (r: seq<(string, LegacyHandler)>)
    ensures forall e :: e in r <==> e in entries && e.0 in tokens
    ensures |r| <= |entries|
    decreases |entries|
  {
    if |entries| == 0 then []
    else
      var prev := Invoked(tokens, entries[..|entries| - 1]);
      var e := entries[|entries| - 1];
      assert forall x :: x in entries <==> x in entries[..|entries| - 1] || x == e;
      if e.0 in tokens then prev + [e] else prev
  }

  /** The compilers run one after another, as listed. */
  function RunList(env: Env, svc: Services, flat: seq<(string, Value)>, s: DocState, list: seq<(string, LegacyHandler)>): DocState
    decreases |list|
  {
    if |list| == 0 then s
    else
      var prev := RunList(env, svc, flat, s, list[..|list| - 1]);
      CompileNodesSpec(env, svc, flat, prev, list[|list| - 1].1, list[|list| - 1].0)
  }

  /** Running the table is running exactly the present entries, in table order. */
  lemma {:induction false} RunTableInvoked(env: Env, svc: Services, flat: seq<(string, Value)>, s: DocState, tokens: seq<string>, entries: seq<(string, LegacyHandler)>)
    ensures RunTable(env, svc, flat, s, tokens, entries) == RunList(env, svc, flat, s, Invoked(tokens, entries))
    decreases |entries|
  {
    if |entries| > 0 {
      RunTableInvoked(env, svc, flat, s, tokens, entries[..|entries| - 1]);
      var prev := Invoked(tokens, entries[..|entries| - 1]);
      var e := entries[|entries| - 1];
      if e.0 in tokens {
        assert (prev + [e])[..|prev + [e]| - 1] == prev;
      }
    }
  }

  /** With every token present, all five compilers run in table order,
      whatever order the attributes have in the view. */
  lemma AllPresentRunInTableOrder(tokens: seq<string>)
    requires forall i :: 0 <= i < |LegacyTable| ==> LegacyTable[i].0 in tokens
    ensures Invoked(tokens, LegacyTable) == LegacyTable
  {
    var t := LegacyTable;
    assert t[..0] == [];
    assert t[..1] == t[..0] + [t[0]];
    assert t[..2] == t[..1] + [t[1]];
    assert t[..3] == t[..2] + [t[2]];
    assert t[..4] == t[..3] + [t[3]];
    assert t[..5] == t[..4] + [t[4]];
    assert Invoked(tokens, t[..1]) == t[..1];
    assert Invoked(tokens, t[..2]) == t[..2];
    assert Invoked(tokens, t[..3]) == t[..3];
    assert Invoked(tokens, t[..4]) == t[..4];
    assert t[..5] == t;
  }

  /** `can` takes its node out exactly when the gate denies the ability,
      and `cannot` exactly when it allows it. */
  lemma GateDecides(env: Env, svc: Services, flat: seq<(string, Value)>, s: DocState, node: NodeId, attribute: string)
    requires s.fault.None? && s.loaded && Valid(s.store) && Consistent(s.store)
    requires node in s.store.nodes && ParentOf(s.store, node).Some?
    ensures var c := NodeEdit(env, svc, flat, s, LCan, node, attribute);
      (c == s <==> svc.allows(attribute, Null))
      && (!svc.allows(attribute, Null) ==> Detached(c.store, node) && c.errs == s.errs && c.fault.None?)
    ensures var c := NodeEdit(env, svc, flat, s, LCannot, node, attribute);
      (c == s <==> !svc.allows(attribute, Null))
      && (svc.allows(attribute, Null) ==> Detached(c.store, node) && c.errs == s.errs && c.fault.None?)
  {
    DetachSelf(env, s, node);
  }

  /** A `child` or `text` lookup that is not a string ends the request with
      its message and leaves the nodes as they were; nothing later changes
      them. */
  lemma LookupFailureEnds(env: Env, svc: Services, flat: seq<(string, Value)>, s: DocState, node: NodeId, attribute: string, h: LegacyHandler, later: seq<NodeId>, token: string)
    requires s.fault.None? && (h == LChildGap || h == LText) && GetValue(attribute, flat).Err?
    ensures var c := NodeEdit(env, svc, flat, s, h, node, attribute);
      c.fault == Some(GetValue(attribute, flat).error) && c.store == s.store && c.errs == s.errs
      && Visit(env, svc, flat, c, h, token, later) == c
  {
    VisitAfterFault(env, svc, flat, NodeEdit(env, svc, flat, s, h, node, attribute), h, token, later);
  }

  /** Once the request has ended, visiting more nodes changes nothing. */
  lemma {:induction false} VisitAfterFault(env: Env, svc: Services, flat: seq<(string, Value)>, s: DocState, h: LegacyHandler, token: string, nodes: seq<NodeId>)
    requires s.fault.Some?
    ensures Visit(env, svc, flat, s, h, token, nodes) == s
    decreases |nodes|
  {
    if |nodes| > 0 {
      VisitAfterFault(env, svc, flat, s, h, token, nodes[..|nodes| - 1]);
    }
  }

  /** Without any of the table's tokens in the view, nothing is compiled. */
  lemma {:induction false} NoTokensNoChange(env: Env, svc: Services, flat: seq<(string, Value)>, s: DocState, tokens: seq<string>, entries: seq<(string, LegacyHandler)>)
    requires forall i :: 0 <= i < |entries| ==> entries[i].0 !in tokens
    ensures RunTable(env, svc, flat, s, tokens, entries) == s
    decreases |entries|
  {
    if |entries| > 0 {
      NoTokensNoChange(env, svc, flat, s, tokens, entries[..|entries| - 1]);
    }
  }

  // ---------------------------------------------------------------- the compiler object

  /** The compiler object: its document, its data and the services its
      closures call. */
  class LegacyCompiler {
    const view: Document
    const svc: Services
    const data: Value

    constructor (view: Document, svc: Services, data: Value)
      ensures this.view == view && this.svc == svc && this.data == data
    {
      this.view := view;
      this.svc := svc;
      this.data := data;
    }

    /** `getTokensFromView`: the loop appends, for each listed attribute
        that has the prefix, its name without it; then duplicates go. */
    method GetTokensFromView() returns (tokens: seq<string>)
      ensures tokens == Tokens(view.State())
    {
      var names := AttributeNames(view.State());
      var found: seq<string> := [];
      for i := 0 to |names|
        invariant found == Stripped(names[..i])
      {
        assert names[..i + 1][..i] == names[..i];
        if StartsWith(names[i], Prefix) {
          found := found + [names[i][|Prefix|..]];
        }
      }
      assert names[..|names|] == names;
      tokens := Unique(found);
    }

    /** `compileNodes`: the node list is taken once, then the closure runs
        on each node with its attribute's current value. */
    method CompileNodes(flat: seq<(string, Value)>, h: LegacyHandler, token: string)
      modifies view
      ensures view.State() == CompileNodesSpec(view.env, svc, flat, old(view.State()), h, token)
    {
      var nodes := NodesWith(view.State(), token);
      ghost var s0 := view.State();
      for i := 0 to |nodes|
        invariant view.State() == Visit(view.env, svc, flat, s0, h, token, nodes[..i])
      {
        VisitStep(view.env, svc, flat, s0, h, token, nodes, i);
        var attribute := GetAttr(view.store, nodes[i], Prefix + token);
        Edit(flat, h, nodes[i], attribute);
      }
      assert nodes[..|nodes|] == nodes;
    }

    /** The closure of one compiler on one node. */
    method Edit(flat: seq<(string, Value)>, h: LegacyHandler, node: NodeId, attribute: string)
      modifies view
      ensures view.State() == NodeEdit(view.env, svc, flat, old(view.State()), h, node, attribute)
    {
      if view.fault.Some? {
        return;
      }
      match h
      case LCan =>
        if !svc.allows(attribute, Null) {
          view.Set(SelfPath, VNull, Some(node));
        }
      case LCannot =>
        if svc.allows(attribute, Null) {
          view.Set(SelfPath, VNull, Some(node));
        }
      case LChildGap =>
        var v := GetValue(attribute, flat);
        match v {
          case Err(e) => view.Abort(e);
          case Ok(text) => view.Set(ChildGapPath, VScalar(text), Some(node));
        }
      case LText =>
        var v := GetValue(attribute, flat);
        match v {
          case Err(e) => view.Abort(e);
          case Ok(text) => view.Set(SelfPath, VScalar(text), Some(node));
        }
      case LTranslations =>
        view.Set(SelfPath, VScalar(svc.translate(attribute)), Some(node));
    }

    /** `runCompilers`: the data is flattened and the tokens collected
        once, then the table is walked in order. */
    method RunCompilers()
      modifies view
      ensures view.State() == LegacyRunSpec(view.env, svc, data, old(view.State()))
    {
      var flat := Flatten(data);
      var tokens := GetTokensFromView();
      ghost var s0 := view.State();
      for i := 0 to |LegacyTable|
        invariant view.State() == RunTable(view.env, svc, flat, s0, tokens, LegacyTable[..i])
      {
        assert LegacyTable[..i + 1][..i] == LegacyTable[..i];
        if LegacyTable[i].0 in tokens {
          CompileNodes(flat, LegacyTable[i].1, LegacyTable[i].0);
        }
      }
      assert LegacyTable[..|LegacyTable|] == LegacyTable;
    }

    /** `tidy`: every prefixed attribute of the document is removed. */
    method Tidy()
      modifies view
      ensures view.State() == TidyAttrsSpec(view.env, old(view.State()))
    {
      view.Set(TidyPath, VNull, None);
    }
  }
}
