/** The view factory (`Factory.php`): the table of file extensions and their
    engines, the routing of `make` between the file finder and views built
    from markup, the data a new view is given, the data shared by all views,
    and the per-name cache of parsed documents, which hands out copies. */
module FactoryModel {
  import opened Strings
  import opened Values
  import opened Dom
  import opened Doc

  // ---------------------------------------------------------------- extensions and engines

  /** `$extensions`, in declared order: extension to engine name. */
  const Extensions: seq<(string, string)> :=
    [("blade.php", "blade"), ("php", "blade"), ("css", "blade"), ("xml", "nview"), ("ixml", "nview")]

  /** The path ends in `.` followed by the extension. */
  predicate HasExtension(path: string, e: string) {
    EndsWith(path, "." + e)
  }

  /** The index of the first entry of `es`, from `from` on, whose extension
      the path has. */
  function FirstMatch(path: string, es: seq<(string, string)>, from: nat): (r: Option<nat>)
    requires from <= |es|
    ensures r.Some? ==> from <= r.value < |es| && HasExtension(path, es[r.value].0)
    ensures r.Some? ==> forall j :: from <= j < r.value ==> !HasExtension(path, es[j].0)
    ensures r.None? ==> forall j :: from <= j < |es| ==> !HasExtension(path, es[j].0)
    decreases |es| - from
  {
    if from == |es| then None
    else if HasExtension(path, es[from].0) then Some(from)
    else FirstMatch(path, es, from + 1)
  }

  /** `getExtension`: `Arr::first` over the table's keys, in table order. */
  function ExtensionOf(path: string): (r: Option<string>)
    ensures r.Some? ==> exists i :: (0 <= i < |Extensions| && Extensions[i].0 == r.value && HasExtension(path, r.value)
      && forall j :: 0 <= j < i ==> !HasExtension(path, Extensions[j].0))
    ensures r.None? <==> forall j :: 0 <= j < |Extensions| ==> !HasExtension(path, Extensions[j].0)
  {
    match FirstMatch(path, Extensions, 0)
    case None => None
    case Some(i) => Some(Extensions[i].0)
  }

  /** `getEngineFromPath`: the engine of the path's extension, or the
      `InvalidArgumentException` for a path without a known extension. */
  function EngineFromPath(path: string): (r: Result<string>)
    ensures r.Err? <==> ExtensionOf(path).None?
    ensures r.Err? ==> r.error == "Unrecognized extension in file: " + path
    ensures r.Ok? ==> exists i :: 0 <= i < |Extensions| && Extensions[i] == (ExtensionOf(path).value, r.value)
  {
    match FirstMatch(path, Extensions, 0)
    case None => Err("Unrecognized extension in file: " + path)
    case Some(i) => Ok(Extensions[i].1)
  }

  /** `blade.php` comes before `php` in the table, so a Blade template is
      given the Blade engine under its full extension. */
  lemma BladeBeforePhp(path: string)
    requires EndsWith(path, ".blade.php")
    ensures ExtensionOf(path) == Some("blade.php") && EngineFromPath(path) == Ok("blade")
  {
    assert "." + Extensions[0].0 == ".blade.php";
  }

  /** Any path that ends in `.xml` is compiled by this package. */
  lemma XmlIsNView(path: string)
    requires EndsWith(path, ".xml")
    ensures ExtensionOf(path) == Some("xml") && EngineFromPath(path) == Ok("nview")
  {
    var n := |path|;
    assert path[n - 4..] == ".xml";
    assert path[n - 1] == 'l' && path[n - 2] == 'm' && path[n - 3] == 'x' && path[n - 4] == '.';
    assert "." + Extensions[0].0 == ".blade.php";
    assert !HasExtension(path, Extensions[0].0);
    assert "." + Extensions[1].0 == ".php";
    assert !HasExtension(path, Extensions[1].0);
    assert "." + Extensions[2].0 == ".css";
    assert !HasExtension(path, Extensions[2].0);
    assert "." + Extensions[3].0 == ".xml";
  }

  // ---------------------------------------------------------------- routing in make

  /** `strpos($s, $c)`: the first index of `c` in `s`, or `false`. */
  function FirstIndex(s: string, c: char): (r: Option<nat>)
    ensures r.Some? ==> r.value < |s| && s[r.value] == c && forall j :: 0 <= j < r.value ==> s[j] != c
    ensures r.None? <==> c !in s
    decreases |s|
  {
    if |s| == 0 then None
    else if s[0] == c then Some(0)
    else match FirstIndex(s[1..], c)
      case None => None
      case Some(i) => Some(i + 1)
  }

  /** What `make` is handed: a view name or markup string, or something
      else (a document, a DOM node, an object). */
  datatype Source = Text(s: string) | Other(v: Value)

  datatype Route = ToFinder | ToMakeView

  /** The test in `make` as written: `strpos($viewName, '<') == false`. The
      loose `==` also holds for the index 0, so markup that begins with `<`
      is looked up as a file name. */
  function RouteAsWritten(v: Source): (r: Route)
    ensures r == ToFinder <==> v.Text? && ('<' !in v.s || (|v.s| > 0 && v.s[0] == '<'))
  {
    if v.Text? && (FirstIndex(v.s, '<').None? || FirstIndex(v.s, '<') == Some(0)) then ToFinder else ToMakeView
  }

  /** The test as intended (`=== false`): only a string without `<` is a
      view name. */
  function RouteOf(v: Source): (r: Route)
    ensures r == ToFinder <==> v.Text? && '<' !in v.s
  {
    if v.Text? && FirstIndex(v.s, '<').None? then ToFinder else ToMakeView
  }

  /** The two tests differ exactly on strings that begin with `<`. */
  lemma RoutesDiffer(v: Source)
    ensures RouteAsWritten(v) != RouteOf(v) <==> v.Text? && |v.s| > 0 && v.s[0] == '<'
  {
  }

  /** A concrete case: the markup `<p/>` is sent to the finder as written. */
  lemma MarkupSentToFinder()
    ensures RouteAsWritten(Text("<p/>")) == ToFinder && RouteOf(Text("<p/>")) == ToMakeView
  {
    assert Text("<p/>").s[0] == '<';
  }

  /** A view `make` produced: a view of this package over a document source
      (a file path or the markup itself) with its data, or the request
      handed on to the Blade factory. */
  datatype Made =
    | NViewMade(name: Option<string>, document: Source, data: Context)
    | BladeMade(bladeName: string, bladeData: Context, mergeData: Context)

  /** `makeView`'s data: `array_merge($mergeData, $data)`, the view's own
      data winning. */
  function MergedData(data: Context, mergeData: Context): (r: Context)
    ensures r.Keys == data.Keys + mergeData.Keys
    ensures forall k :: k in data ==> r[k] == data[k]
    ensures forall k :: k in mergeData && k !in data ==> r[k] == mergeData[k]
  {
    mergeData + data
  }

  /** `make`, with the corrected routing test. `find` is the file finder
      (an error when no file has that name) and `normalize` Laravel's view
      name normalisation; both are given. */
  function Make(find: string -> Result<string>, normalize: string -> string, viewName: Source, data: Context, mergeData: Context): (r: Result<Made>)
    ensures RouteOf(viewName) == ToMakeView ==> r == Ok(NViewMade(None, viewName, MergedData(data, mergeData)))
    ensures RouteOf(viewName) == ToFinder && find(normalize(viewName.s)).Err? ==> r == Err(find(normalize(viewName.s)).error)
    ensures RouteOf(viewName) == ToFinder && find(normalize(viewName.s)).Ok? ==>
      var path := find(normalize(viewName.s)).value;
      (EngineFromPath(path).Err? ==> r == Err(EngineFromPath(path).error))
      && (EngineFromPath(path) == Ok("nview") ==> r == Ok(NViewMade(Some(normalize(viewName.s)), Text(path), MergedData(data, mergeData))))
      && (EngineFromPath(path).Ok? && EngineFromPath(path) != Ok("nview") ==> r == Ok(BladeMade(normalize(viewName.s), data, mergeData)))
  {
    if RouteOf(viewName) == ToMakeView then Ok(NViewMade(None, viewName, MergedData(data, mergeData)))
    else
      var name := normalize(viewName.s);
      match find(name)
      case Err(e) => Err(e)
      case Ok(path) =>
        match EngineFromPath(path)
        case Err(e) => Err(e)
        case Ok(engine) =>
          if engine == "nview" then Ok(NViewMade(Some(name), Text(path), MergedData(data, mergeData)))
          else Ok(BladeMade(name, data, mergeData))
  }

  /** A view file with the `.xml` extension becomes a view of this package
      under its normalised name, and markup never reaches the finder. */
  lemma MakeXmlFile(find: string -> Result<string>, normalize: string -> string, name: string, data: Context, mergeData: Context)
    requires '<' !in name && find(normalize(name)).Ok? && EndsWith(find(normalize(name)).value, ".xml")
    ensures Make(find, normalize, Text(name), data, mergeData)
         == Ok(NViewMade(Some(normalize(name)), Text(find(normalize(name)).value), MergedData(data, mergeData)))
  {
    XmlIsNView(find(normalize(name)).value);
  }

  // ---------------------------------------------------------------- shared data

  /** The shared map after `$shared[$k] = $v` for each pair in turn. */
  function Assign(m: Context, es: seq<(string, Value)>): (r: Context)
    ensures forall k :: k in r <==> k in m || exists i :: 0 <= i < |es| && es[i].0 == k
    decreases |es|
  {
    if |es| == 0 then m
    else
      var prev := Assign(m, es[..|es| - 1]);
      assert forall i :: 0 <= i < |es| - 1 ==> es[..|es| - 1][i] == es[i];
      prev[es[|es| - 1].0 := es[|es| - 1].1]
  }

  /** Of several writes to a key, the last one wins. */
  lemma {:induction false} AssignLastWins(m: Context, es: seq<(string, Value)>, i: nat)
    requires i < |es| && forall j :: i < j < |es| ==> es[j].0 != es[i].0
    ensures es[i].0 in Assign(m, es) && Assign(m, es)[es[i].0] == es[i].1
    decreases |es|
  {
    if i < |es| - 1 {
      var init := es[..|es| - 1];
      assert init[i] == es[i];
      assert forall j :: i < j < |init| ==> init[j] == es[j];
      AssignLastWins(m, init, i);
    }
  }

  /** A key no pair names keeps its old entry. */
  lemma {:induction false} AssignKeeps(m: Context, es: seq<(string, Value)>, k: string)
    requires forall j :: 0 <= j < |es| ==> es[j].0 != k
    ensures (k in Assign(m, es) <==> k in m) && (k in m ==> Assign(m, es)[k] == m[k])
    decreases |es|
  {
    if |es| > 0 {
      var init := es[..|es| - 1];
      assert forall j :: 0 <= j < |init| ==> init[j] == es[j];
      AssignKeeps(m, init, k);
    }
  }

  /** `Arr::get($array, $key, $default)` from the inner segments on: each
      step must find the segment as a key of an array. */
  function Walk(v: Value, segments: seq<string>, default: Value): Value
    decreases |segments|
  {
    if |segments| == 0 then v
    else match v
      case Arr(ks, vs) =>
        (match Lookup(ks, vs, segments[0])
         case None => default
         case Some(x) => Walk(x, segments[1..], default))
      case _ => default
  }

  /** `shared($key, $default)` (`Arr::get`): the entry of that exact key;
      otherwise, for a key without a dot, the default; otherwise the walk
      along the dot-separated segments. */
  function SharedGet(shared: Context, key: string, default: Value): (r: Value)
    ensures key in shared ==> r == shared[key]
    ensures key !in shared && '.' !in key ==> r == default
    ensures key !in shared && Split(key, '.')[0] !in shared ==> r == default
  {
    if key in shared then shared[key]
    else if '.' !in key then default
    else
      var segments := Split(key, '.');
      if segments[0] in shared then Walk(shared[segments[0]], segments[1..], default) else default
  }

  // ---------------------------------------------------------------- the factory object

  /** The factory object: the document cache, the shared data, and the
      services it needs (`env`, the document layer's libxml behaviour;
      `load`, reading and parsing a view's file or markup). */
  class Factory {
    var cache: map<string, Document>
    var shared: Context
    const env: Env
    const load: string -> Store

    /** The constructor shares the factory itself as `__env`. */
    constructor (env: Env, load: string -> Store, self: Value)
      ensures this.env == env && this.load == load
      ensures cache == map[] && shared == map["__env" := self]
    {
      this.env := env;
      this.load := load;
      cache := map[];
      shared := map[];
      new;
      var _ := Share("__env", self);
    }

    /** `share($key, $value)`: one entry, later writes winning; gives the value. */
    method Share(key: string, value: Value) returns (r: Value)
      modifies this
      ensures shared == old(shared)[key := value] && r == value && cache == old(cache)
    {
      r := ShareAll([(key, value)], value);
      assert [(key, value)][..0] == [];
    }

    /** `share($array)`: each pair in order. PHP's loop variable `$value`
        is what is returned: the last pair's value, or the argument when
        the array is empty. */
    method ShareAll(entries: seq<(string, Value)>, value: Value) returns (r: Value)
      modifies this
      ensures shared == Assign(old(shared), entries) && cache == old(cache)
      ensures r == if |entries| == 0 then value else entries[|entries| - 1].1
    {
      r := value;
      for i := 0 to |entries|
        invariant shared == Assign(old(shared), entries[..i]) && cache == old(cache)
        invariant r == if i == 0 then value else entries[i - 1].1
      {
        assert entries[..i + 1][..i] == entries[..i];
        shared := shared[entries[i].0 := entries[i].1];
        r := entries[i].1;
      }
      assert entries[..|entries|] == entries;
    }

    /** `shared($key, $default)`. */
    method Shared(key: string, default: Value) returns (r: Value)
      ensures r == SharedGet(shared, key, default)
    {
      r := SharedGet(shared, key, default);
    }

    /** `getShared`: the whole map. */
    method GetShared() returns (r: Context)
      ensures r == shared
    {
      r := shared;
    }

    /** `addDocument`: the name now stands for this document, replacing any
        earlier one. */
    method AddDocument(name: string, d: Document)
      modifies this
      ensures cache == old(cache)[name := d] && shared == old(shared)
    {
      cache := cache[name := d];
    }

    /** `hasDocument`. */
    method HasDocument(name: string) returns (b: bool)
      ensures b <==> name in cache
    {
      b := name in cache;
    }

    /** `getDocument`: a new document cloned from the cached one (fresh
        log, no fault). A name never added is PHP's undefined-index notice,
        which Laravel's error handler raises as an `ErrorException`. */
    method GetDocument(name: string) returns (r: Result<Document>)
      ensures name in cache ==> (r.Ok? && fresh(r.value) && r.value.env == cache[name].env
        && r.value.State() == DocState(cache[name].store, "", cache[name].loaded, None))
      ensures name !in cache ==> r == Err("Undefined index: " + name)
    {
      if name !in cache {
        return Err("Undefined index: " + name);
      }
      var copy := new Document.Clone(cache[name]);
      r := Ok(copy);
    }

    /** `initialiseDocument` of a view named by a string: the name is
        loaded and cached the first time, and the view works on a copy. */
    method DocumentFor(name: string) returns (d: Document)
      modifies this
      ensures name in cache && fresh(d) && shared == old(shared)
      ensures old(name in cache) ==> cache == old(cache)
      ensures !old(name in cache) ==> (cache == old(cache)[name := cache[name]] && fresh(cache[name])
        && cache[name].State() == DocState(load(name), "", true, None) && cache[name].env == env)
      ensures d.env == cache[name].env && d.State() == DocState(cache[name].store, "", cache[name].loaded, None)
    {
      var has := HasDocument(name);
      if !has {
        var loaded := new Document(env, load(name));
        AddDocument(name, loaded);
      }
      var got := GetDocument(name);
      d := got.value;
    }

    /** Editing a copy from the cache leaves the cached document, and every
        later copy, as it was. */
    method EditCopy(name: string, xpath: string, v: SetValue, ref: Option<NodeId>) returns (edited: Document, again: Document)
      requires name in cache
      ensures fresh(edited) && fresh(again) && edited != again
      ensures var base := DocState(cache[name].store, "", cache[name].loaded, None);
        edited.State() == SetSpec(cache[name].env, base, xpath, v, ref) && again.State() == base
      ensures cache[name].State() == old(cache[name].State())
    {
      ghost var cached := cache[name];
      ghost var base := DocState(cached.store, "", cached.loaded, None);
      var first := GetDocument(name);
      edited := first.value;
      assert edited.State() == base && edited.env == cached.env;
      edited.Set(xpath, v, ref);
      assert cached.State() == old(cached.State());
      var second := GetDocument(name);
      again := second.value;
    }
  }
}
