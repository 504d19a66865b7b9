/** The pure part of the directive layer (`View.php`): which attribute names
    a directive, the handler table, the `;`/`:` parameter lists of
    `getValue`, `{path}` placeholder substitution, PHP's boolean filter and
    the class name of a view controller. */
module Directives {
  import opened Strings
  import opened Values
  import opened Paths

  // ---------------------------------------------------------------- the compiler table

  /** The directive handlers (`compile<Name>` methods of the view). */
  datatype Handler =
    | Attribute | Container | Errors | Auth | Can | Cannot | Exists | NotExists
    | Match | NoMatch | Include | Pagination | ForEach | Url | Route | Asset
    | ChildGap | Replace | Translations | NullHandler

  /** The compiler table: token to handler, in its declared order. */
  function HandlerOf(token: string): Option<Handler> {
    match token
    case "attr" => Some(Attribute)
    case "container" => Some(Container)
    case "errors" => Some(Errors)
    case "auth" => Some(Auth)
    case "can" => Some(Can)
    case "cannot" => Some(Cannot)
    case "exists" => Some(Exists)
    case "empty" => Some(NotExists)
    case "match" => Some(Match)
    case "nomatch" => Some(NoMatch)
    case "include" => Some(Include)
    case "pagination" => Some(Pagination)
    case "foreach" => Some(ForEach)
    case "url" => Some(Url)
    case "route" => Some(Route)
    case "asset" => Some(Asset)
    case "child" => Some(ChildGap)
    case "replace" => Some(Replace)
    case "tr" => Some(Translations)
    case "null" => Some(NullHandler)
    case _ => None
  }

  /** `isCompiler`: the token is a key of the table. */
  predicate IsCompiler(token: string) {
    HandlerOf(token).Some?
  }

  // ---------------------------------------------------------------- attribute names

  /** `substr($name, strlen($prefix))`: empty when the name is not longer. */
  function AfterPrefix(name: string): string {
    if |name| <= |Prefix| then "" else name[|Prefix|..]
  }

  /** `getArrayFromAttribute`: the dot-separated segments after the prefix. */
  function ArrayFromAttribute(name: string): (r: seq<string>)
    ensures |r| >= 1
  {
    Split(AfterPrefix(name), '.')
  }

  /** The segments put back together give the prefixed name back. */
  lemma ArrayFromAttributeJoins(name: string)
    requires StartsWith(name, Prefix) && |name| > |Prefix|
    ensures Prefix + Join(ArrayFromAttribute(name), ".") == name
  {
    JoinSplit(AfterPrefix(name), '.');
    assert name == name[..|Prefix|] + name[|Prefix|..];
  }

  /** `getCompilerTokenFromAttribute`: the first segment of a prefixed name,
      when the table knows it. */
  function TokenOf(name: string): Option<string> {
    if !StartsWith(name, Prefix) then None
    else
      var token := ArrayFromAttribute(name)[0];
      if IsCompiler(token) then Some(token) else None
  }

  /** A directive attribute `data-v.<token>` or `data-v.<token>.<sub>` names
      its token, whatever the sub-segment; any other name names none. */
  lemma TokenOfDirectiveName(token: string, sub: string, other: string)
    requires IsCompiler(token) && token != "" && '.' !in token
    requires !StartsWith(other, Prefix)
    ensures TokenOf(Prefix + token) == Some(token)
    ensures TokenOf(Prefix + token + "." + sub) == Some(token)
    ensures TokenOf(other) == None
  {
    var a := Prefix + token;
    var b := Prefix + token + "." + sub;
    assert a[..|Prefix|] == Prefix && b[..|Prefix|] == Prefix;
    assert AfterPrefix(a) == token;
    SplitNoSeparator(token, '.');
    assert AfterPrefix(b) == token + "." + sub;
    SplitConcat(token, sub, '.');
    assert token + "." + sub == token + ['.'] + sub;
  }

  // ---------------------------------------------------------------- the handler list of a node

  /** One handler call of a node: which handler, and for which attribute. */
  datatype Compiler = Compiler(handler: Handler, attr: Attr)

  function CompilerOf(a: Attr): seq<Compiler> {
    match TokenOf(a.name)
    case None => []
    case Some(t) => [Compiler(HandlerOf(t).value, a)]
  }

  /** `getCompilers`: an `array_reduce` over the node's attributes in their
      own order, keeping those that name a directive. */
  function GetCompilers(attrs: seq<Attr>): (r: seq<Compiler>)
    ensures |r| <= |attrs|
    ensures forall k :: 0 <= k < |r| ==> r[k].attr in attrs && CompilerOf(r[k].attr) == [r[k]]
    decreases |attrs|
  {
    if |attrs| == 0 then []
    else GetCompilers(attrs[..|attrs| - 1]) + CompilerOf(attrs[|attrs| - 1])
  }

  /** The handler list of two runs of attributes is the list of the first run
      followed by that of the second: calls follow attribute order. */
  lemma {:induction false} GetCompilersConcat(a: seq<Attr>, b: seq<Attr>)
    ensures GetCompilers(a + b) == GetCompilers(a) + GetCompilers(b)
    decreases |b|
  {
    if |b| == 0 {
      assert a + b == a;
    } else {
      var b' := b[..|b| - 1];
      GetCompilersConcat(a, b');
      LastOfAppend(a, b);
      AppendAssoc(GetCompilers(a), GetCompilers(b'), CompilerOf(b[|b| - 1]));
    }
  }

  lemma GetCompilersPair(a: Attr, b: Attr)
    ensures GetCompilers([a, b]) == CompilerOf(a) + CompilerOf(b)
  {
    assert [a, b][..1] == [a];
    assert [a][..0] == [];
  }

  /** A `replace` attribute before an `attr.title` attribute runs first, though
      `attr` comes first in the table. */
  lemma AttributeOrderNotTableOrder(r: Attr, t: Attr)
    requires TokenOf(r.name) == Some("replace") && TokenOf(t.name) == Some("attr")
    ensures GetCompilers([r, t]) == [Compiler(Replace, r), Compiler(Attribute, t)]
  {
    assert HandlerOf("replace") == Some(Replace);
    assert HandlerOf("attr") == Some(Attribute);
    CompilerOfToken(r, "replace");
    CompilerOfToken(t, "attr");
    GetCompilersPair(r, t);
  }

  lemma CompilerOfToken(a: Attr, token: string)
    requires TokenOf(a.name) == Some(token)
    ensures CompilerOf(a) == [Compiler(HandlerOf(token).value, a)]
  {
  }

  // ---------------------------------------------------------------- getValue

  /** A PHP array being built: keys and values in order, and the next free
      integer key (`nNextFreeElement`, which starts at 0). */
  datatype Acc = Acc(keys: seq<string>, vals: seq<Value>, next: nat)

  /** `$result[$k] = $v`: a canonical integer key at or above the next free
      key moves it up. */
  function Assign(a: Acc, k: string, v: Value): (r: Acc)
    requires |a.keys| == |a.vals|
    ensures |r.keys| == |r.vals|
  {
    var p := Put(a.keys, a.vals, k, v);
    Acc(p.0, p.1, if IsCanonicalNat(k) && DigitsValue(k) >= a.next then DigitsValue(k) + 1 else a.next)
  }

  /** One parameter: `name:path` is stored under `name`, a bare path is
      appended (`$result[] = …`). */
  function AddParam(data: Context, a: Acc, part: string): (r: Acc)
    requires |a.keys| == |a.vals|
    ensures |r.keys| == |r.vals|
  {
    var nv := Split(part, ':');
    if |nv| < 2 then Assign(a, NatToString(a.next), DataGetPath(data, part))
    else Assign(a, nv[0], DataGetPath(data, nv[1]))
  }

  function Params(data: Context, parts: seq<string>): (r: Acc)
    ensures |r.keys| == |r.vals|
    decreases |parts|
  {
    if |parts| == 0 then Acc([], [], 0)
    else AddParam(data, Params(data, parts[..|parts| - 1]), parts[|parts| - 1])
  }

  /** What `getValue($attribute, $data)` returns: the array of the `;`-separated
      parameters, or, when it has exactly one entry, the entry under key 0
      (null when there is none). */
  function ParamValue(attribute: string, data: Context): Value {
    var r := Params(data, Split(attribute, ';'));
    if |r.keys| == 1 then
      match Lookup(r.keys, r.vals, "0")
      case Some(v) => v
      case None => Null
    else Arr(r.keys, r.vals)
  }

  /** `getValue`, accumulating the array parameter by parameter. */
  method GetValue(attribute: string, data: Context) returns (r: Value)
    ensures r == ParamValue(attribute, data)
  {
    var parts := Split(attribute, ';');
    var acc := Acc([], [], 0);
    for i := 0 to |parts|
      invariant acc == Params(data, parts[..i])
    {
      assert parts[..i + 1][..i] == parts[..i];
      var nameValue := Split(parts[i], ':');
      if |nameValue| < 2 {
        acc := Assign(acc, NatToString(acc.next), DataGetPath(data, parts[i]));
      } else {
        acc := Assign(acc, nameValue[0], DataGetPath(data, nameValue[1]));
      }
    }
    assert parts[..|parts|] == parts;
    if |acc.keys| == 1 {
      var v := Lookup(acc.keys, acc.vals, "0");
      r := if v.Some? then v.value else Null;
    } else {
      r := Arr(acc.keys, acc.vals);
    }
  }

  /** The keys "0", "1", … of a list of `n` entries. */
  function Numbered(n: nat): (r: seq<string>)
    ensures |r| == n && forall i :: 0 <= i < n ==> r[i] == NatToString(i)
  {
    if n == 0 then [] else Numbered(n - 1) + [NatToString(n - 1)]
  }

  function Looked(data: Context, parts: seq<string>): (r: seq<Value>)
    ensures |r| == |parts| && forall i :: 0 <= i < |parts| ==> r[i] == DataGetPath(data, parts[i])
  {
    seq(|parts|, i requires 0 <= i < |parts| => DataGetPath(data, parts[i]))
  }

  /** Unnamed parameters only: the list of their values under 0, 1, …, and the
      next free key is their number. */
  lemma {:induction false} ParamsPositional(data: Context, parts: seq<string>)
    requires forall k :: 0 <= k < |parts| ==> ':' !in parts[k]
    ensures Params(data, parts) == Acc(Numbered(|parts|), Looked(data, parts), |parts|)
    decreases |parts|
  {
    if |parts| > 0 {
      var n := |parts| - 1;
      var front := parts[..n];
      ParamsPositional(data, front);
      SplitNoSeparator(parts[n], ':');
      forall i | 0 <= i < n ensures Numbered(n)[i] != NatToString(n) {
        NatToStringCanonical(i, n);
      }
      var v := DataGetPath(data, parts[n]);
      assert AddParam(data, Params(data, front), parts[n]) == Assign(Params(data, front), NatToString(n), v);
      PutAbsent(Numbered(n), Looked(data, front), NatToString(n), v);
      NatToStringCanonical(n, n);
      NatToStringValue(n);
      SnocOfIndexed(Looked(data, front), Looked(data, parts));
      assert Numbered(n + 1) == Numbered(n) + [NatToString(n)];
    }
  }

  /** A single unnamed parameter gives its value itself. */
  lemma ParamValueSingle(attribute: string, data: Context)
    requires ';' !in attribute && ':' !in attribute
    ensures ParamValue(attribute, data) == DataGetPath(data, attribute)
  {
    SplitNoSeparator(attribute, ';');
    ParamsPositional(data, [attribute]);
    assert Numbered(1) == ["0"];
  }

  /** A single named parameter gives null, because nothing is stored under
      key 0, unless its name is `0`. */
  lemma ParamValueLoneNamed(attribute: string, data: Context)
    requires ';' !in attribute && |Split(attribute, ':')| >= 2
    ensures var nv := Split(attribute, ':');
      ParamValue(attribute, data) == if nv[0] == "0" then DataGetPath(data, nv[1]) else Null
  {
    SplitNoSeparator(attribute, ';');
    var parts := Split(attribute, ';');
    var nv := Split(attribute, ':');
    var val := DataGetPath(data, nv[1]);
    assert parts == [attribute] && parts[..0] == [];
    var a0 := Acc([], [], 0);
    assert Params(data, parts[..0]) == a0;
    var r := Params(data, parts);
    assert r == AddParam(data, a0, attribute);
    assert AddParam(data, a0, attribute) == Assign(a0, nv[0], val);
    assert Put([], [], nv[0], val) == ([nv[0]], [val]);
    assert r.keys == [nv[0]] && r.vals == [val];
    assert Lookup(r.keys, r.vals, "0") == if nv[0] == "0" then Some(val) else None;
  }

  /** Several unnamed parameters give the list of their values, keyed 0, 1, …. */
  lemma ParamValueList(attribute: string, data: Context)
    requires ':' !in attribute && |Split(attribute, ';')| >= 2
    ensures ParamValue(attribute, data) == Arr(Numbered(|Split(attribute, ';')|), Looked(data, Split(attribute, ';')))
  {
    SplitPiecesWithout(attribute, ';', ':');
    ParamsPositional(data, Split(attribute, ';'));
  }

  /** The last parameter `name:path` decides the value under `name`. */
  lemma ParamValueNamedLast(parts: seq<string>, data: Context)
    requires |parts| >= 1 && |Split(parts[|parts| - 1], ':')| >= 2
    ensures var nv := Split(parts[|parts| - 1], ':');
      var r := Params(data, parts);
      Lookup(r.keys, r.vals, nv[0]) == Some(DataGetPath(data, nv[1]))
  {
    var nv := Split(parts[|parts| - 1], ':');
    var a := Params(data, parts[..|parts| - 1]);
    PutLookup(a.keys, a.vals, nv[0], DataGetPath(data, nv[1]), nv[0]);
  }

  /** `hasValue`: the path leads to something other than null. */
  predicate HasValue(attribute: string, data: Context) {
    DataGetPath(data, attribute) != Null
  }

  /** For a plain path `hasValue` holds exactly when `getValue` is not null. */
  lemma HasValueIffValue(attribute: string, data: Context)
    requires ';' !in attribute && ':' !in attribute
    ensures HasValue(attribute, data) <==> ParamValue(attribute, data) != Null
  {
    ParamValueSingle(attribute, data);
  }

  /** `getCompilerParameter`: the `param` attribute's value(s) when it is not
      empty, else the `literal` attribute's text. */
  function CompilerParameter(param: string, literal: string, data: Context): Value {
    if param == "" then Str(literal) else ParamValue(param, data)
  }

  // ---------------------------------------------------------------- {path} placeholders

  /** A character of `[\d\w.]` (ASCII letters, digits, `_` and `.`). */
  predicate IsPathChar(ch: char) {
    ('a' <= ch <= 'z') || ('A' <= ch <= 'Z') || ('0' <= ch <= '9') || ch == '_' || ch == '.'
  }

  predicate IsPlaceholderName(n: string) {
    |n| > 0 && forall k :: 0 <= k < |n| ==> IsPathChar(n[k])
  }

  /** The length of the run of path characters at the front of `s`. */
  function PathRun(s: string): (r: nat)
    ensures r <= |s| && IsPlaceholderName(s[..r]) == (r > 0)
    ensures forall k :: 0 <= k < r ==> IsPathChar(s[k])
    ensures r < |s| ==> !IsPathChar(s[r])
    decreases |s|
  {
    if |s| > 0 && IsPathChar(s[0]) then
      var r := 1 + PathRun(s[1..]);
      assert forall k :: 1 <= k < r ==> s[k] == s[1..][k - 1];
      r
    else 0
  }

  /** A placeholder `{name}` at the front of `s`: the length of its name. */
  function PlaceholderAt(s: string): (r: Option<nat>)
    ensures r.Some? ==> 1 <= r.value && r.value + 2 <= |s|
  {
    if |s| > 0 && s[0] == '{' then
      var n := PathRun(s[1..]);
      if n >= 1 && n + 1 < |s| && s[n + 1] == '}' then Some(n) else None
    else None
  }

  /** `preg_replace_callback('/{([\d\w\.]+)}/', f, s)`: each placeholder,
      scanning left to right, is replaced by `f` of its name. */
  function Substitute(s: string, f: string -> string): string
    decreases |s|
  {
    if |s| == 0 then ""
    else match PlaceholderAt(s)
      case Some(n) => f(s[1..n + 1]) + Substitute(s[n + 2..], f)
      case None => [s[0]] + Substitute(s[1..], f)
  }

  /** The callback of `compileUrl` and `compileAttribute`: the value of the
      path, as a string. */
  function PathText(data: Context): string -> string {
    (n: string) => StrVal(ParamValue(n, data))
  }

  /** Text without a `{` is left as it is. */
  lemma {:induction false} SubstituteNoPlaceholder(s: string, f: string -> string)
    requires '{' !in s
    ensures Substitute(s, f) == s
    decreases |s|
  {
    if |s| > 0 {
      assert '{' !in s[1..];
      SubstituteNoPlaceholder(s[1..], f);
      assert [s[0]] + s[1..] == s;
    }
  }

  /** A placeholder after text without `{`: the text stays, the placeholder
      becomes `f` of its name, and substitution goes on after it. */
  lemma {:induction false} SubstituteSplice(pre: string, n: string, post: string, f: string -> string)
    requires '{' !in pre && IsPlaceholderName(n)
    ensures Substitute(pre + "{" + n + "}" + post, f) == pre + f(n) + Substitute(post, f)
    decreases |pre|
  {
    if |pre| == 0 {
      assert pre + "{" + n + "}" + post == "{" + n + "}" + post;
      SubstituteAtPlaceholder(n, post, f);
    } else {
      var y := "{" + n + "}" + post;
      var t := pre[1..] + "{" + n + "}" + post;
      AppendAssoc5(pre, "{", n, "}", post);
      AppendAssoc5(pre[1..], "{", n, "}", post);
      ConsFront(pre, y);
      assert '{' !in pre[1..];
      SubstituteSplice(pre[1..], n, post, f);
      SubstitutePlain(pre[0], t, f);
      var tail := f(n) + Substitute(post, f);
      AppendAssoc(pre[1..], f(n), Substitute(post, f));
      AppendAssoc(pre, f(n), Substitute(post, f));
      ConsFront(pre, tail);
    }
  }

  /** A character other than `{` is copied. */
  lemma SubstitutePlain(x: char, t: string, f: string -> string)
    requires x != '{'
    ensures Substitute([x] + t, f) == [x] + Substitute(t, f)
  {
    var s := [x] + t;
    assert s[0] == x && s[1..] == t;
    assert PlaceholderAt(s).None?;
  }

  /** A placeholder at the front is replaced by `f` of its name. */
  lemma SubstituteAtPlaceholder(n: string, post: string, f: string -> string)
    requires IsPlaceholderName(n)
    ensures Substitute("{" + n + "}" + post, f) == f(n) + Substitute(post, f)
  {
    var s := "{" + n + "}" + post;
    var t := n + "}" + post;
    assert s[0] == '{' && s[1..] == t;
    PathRunOfName(n, "}" + post);
    assert n + ("}" + post) == t;
    assert s[|n| + 1] == '}';
    assert s[1..|n| + 1] == n;
    assert s[|n| + 2..] == post;
  }

  /** The path run of a name followed by a non-path character is the name. */
  lemma PathRunOfName(n: string, rest: string)
    requires IsPlaceholderName(n) && |rest| > 0 && !IsPathChar(rest[0])
    ensures PathRun(n + rest) == |n|
  {
    var s := n + rest;
    var r := PathRun(s);
    assert forall k :: 0 <= k < |n| ==> s[k] == n[k];
    assert s[|n|] == rest[0];
  }

  /** Inside a placeholder the name has no `;` or `:`, so `getValue` reads the
      single path. */
  lemma PlaceholderValue(n: string, data: Context)
    requires IsPlaceholderName(n)
    ensures PathText(data)(n) == StrVal(DataGetPath(data, n))
  {
    assert forall k :: 0 <= k < |n| ==> n[k] != ';' && n[k] != ':';
    ParamValueSingle(n, data);
  }

  /** `compileAttribute` writes attribute segment 1 of the directive's name
      (empty when there is none); `compileUrl` writes `href`. */
  function AttributeTarget(directive: string): string {
    var segs := ArrayFromAttribute(directive);
    if |segs| >= 2 then segs[1] else ""
  }

  lemma AttributeTargetOfName(n: string)
    requires '.' !in n
    ensures AttributeTarget(Prefix + "attr." + n) == n
  {
    var d := Prefix + "attr." + n;
    assert AfterPrefix(d) == "attr" + ['.'] + n;
    SplitConcat("attr", n, '.');
    SplitNoSeparator("attr", '.');
    SplitNoSeparator(n, '.');
  }

  // ---------------------------------------------------------------- filter_var booleans

  /** `filter_var($s, FILTER_VALIDATE_BOOLEAN)`: true for "1", "true", "on"
      and "yes" in any case around white space, false for everything else. */
  predicate FilterBool(s: string) {
    var t := LowerAll(Trim(s));
    t == "1" || t == "true" || t == "on" || t == "yes"
  }

  lemma FilterBoolTrue(s: string)
    requires s == "true"
    ensures FilterBool(s)
  {
    assert s[0] == 't' && s[3] == 'e';
    TrimUntouched(s);
    assert s[1] == 'r' && s[2] == 'u';
    LowerAllUntouched(s);
  }

  lemma FilterBoolFalse(s: string)
    requires s == "false"
    ensures !FilterBool(s)
  {
    assert s[0] == 'f' && s[4] == 'e';
    TrimUntouched(s);
    assert s[1] == 'a' && s[2] == 'l' && s[3] == 's';
    LowerAllUntouched(s);
  }

  /** Leading white space does not change the verdict of the filter. */
  lemma FilterBoolLeadingSpace(s: string)
    ensures FilterBool(" " + s) == FilterBool(s)
  {
    assert (" " + s)[1..] == s;
    assert TrimLeft(" " + s) == TrimLeft(s);
  }

  // ---------------------------------------------------------------- controller class names

  function StudlyAll(parts: seq<string>): (r: seq<string>)
    ensures |r| == |parts| && forall k :: 0 <= k < |parts| ==> r[k] == Studly(parts[k])
  {
    seq(|parts|, k requires 0 <= k < |parts| => Studly(parts[k]))
  }

  /** The namespace a controller lives in: the configured path of the first
      segment, or `__default` (empty when not configured). */
  function ControllerBase(parts: seq<string>, controllers: map<string, string>): string
    requires |parts| >= 1
  {
    if parts[0] in controllers then controllers[parts[0]]
    else if "__default" in controllers then controllers["__default"] else ""
  }

  /** `getViewControllerClassName`: studly-case the dot-separated segments;
      a configured first segment is replaced by its path, otherwise the
      default path goes in front; the pieces are joined with `\`. */
  function ControllerClassName(name: string, controllers: map<string, string>): string {
    var parts := StudlyAll(Split(name, '.'));
    var rest := if parts[0] in controllers then parts[1..] else parts;
    ControllerBase(parts, controllers) + "\\" + Join(rest, "\\")
  }

  lemma {:induction false} StudlyWithout(s: string, c: char)
    requires c !in s && c != ' ' && !('A' <= c <= 'Z')
    ensures c !in Studly(s)
  {
    var d := DashesToSpaces(s);
    var u := UcWords(d, true);
    UcWordsKeepsOtherChars(d, true);
    forall k | 0 <= k < |u| ensures u[k] == ' ' || u[k] != c {
      assert d[k] == ' ' || d[k] == s[k];
    }
    RemoveSpacesKeeps(u, (ch: char) => ch != c);
  }

  /** The class name, split at `\`, is the namespace's pieces followed by the
      studly-cased segments (the first one dropped when it is configured);
      with no segments left the name ends in `\`. */
  lemma ControllerClassNamePieces(name: string, controllers: map<string, string>)
    requires '\\' !in name
    ensures var parts := StudlyAll(Split(name, '.'));
      var rest := if parts[0] in controllers then parts[1..] else parts;
      Split(ControllerClassName(name, controllers), '\\')
        == Split(ControllerBase(parts, controllers), '\\') + (if |rest| == 0 then [""] else rest)
  {
    var segs := Split(name, '.');
    var parts := StudlyAll(segs);
    var rest := if parts[0] in controllers then parts[1..] else parts;
    SplitPiecesWithout(name, '.', '\\');
    forall k | 0 <= k < |parts| ensures '\\' !in parts[k] {
      StudlyWithout(segs[k], '\\');
    }
    var base := ControllerBase(parts, controllers);
    SplitConcat(base, Join(rest, "\\"), '\\');
    assert base + "\\" + Join(rest, "\\") == base + ['\\'] + Join(rest, "\\");
    if |rest| > 0 {
      SplitJoin(rest, '\\');
    }
  }
}
