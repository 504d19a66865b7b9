/** The values the compiler moves around: XML trees held as values (a
    cloned element, a parsed fragment), PHP's dynamically typed data
    values, and the data context of a view. */
module Values {
  import opened Strings

  datatype Option<+T> = None | Some(value: T)

  datatype Result<+T> = Ok(value: T) | Err(error: string)

  /** One attribute of an element: name and (unescaped) value. */
  datatype Attr = Attr(name: string, value: string)

  /** A detached XML tree, as produced by cloning an element or parsing a fragment. */
  datatype Tree =
    | TElement(name: string, attrs: seq<Attr>, children: seq<Tree>)
    | TText(text: string)
    | TCData(text: string)
    | TComment(text: string)

  /** A PHP value as it appears in view data. Arrays and objects keep their
      keys in order; an array key is kept as its string form (PHP stores
      decimal-integer keys as integers, which compare equal to that form).
      `Markup` is a document or DOM node carried in the data. */
  datatype Value =
    | Null
    | Bool(b: bool)
    | Int(i: int)
    | Str(s: string)
    | Arr(keys: seq<string>, vals: seq<Value>)
    | Obj(props: seq<string>, pvals: seq<Value>)
    | Markup(tree: Option<Tree>)

  /** The data of a view: top-level variable name to value. */
  type Context = map<string, Value>

  /** The value stored under key `k`, if any (the first entry with that key). */
  function Lookup(keys: seq<string>, vals: seq<Value>, k: string): (r: Option<Value>)
    ensures r.Some? ==> exists i :: 0 <= i < |keys| && i < |vals| && keys[i] == k && vals[i] == r.value
    ensures r.None? ==> forall i :: 0 <= i < |keys| && i < |vals| ==> keys[i] != k
    decreases |keys|
  {
    if |keys| == 0 || |vals| == 0 then None
    else if keys[0] == k then Some(vals[0])
    else
      var r := Lookup(keys[1..], vals[1..], k);
      assert r.Some? ==> exists i :: 0 <= i < |keys[1..]| && i < |vals[1..]| && keys[1..][i] == k && vals[1..][i] == r.value;
      r
  }

  /** PHP `$a[$k] = $v` on an ordered array: an existing key keeps its
      position and gets the new value, a new key goes to the end. */
  function Put(keys: seq<string>, vals: seq<Value>, k: string, v: Value): (r: (seq<string>, seq<Value>))
    requires |keys| == |vals|
    ensures |r.0| == |r.1|
    decreases |keys|
  {
    if |keys| == 0 then ([k], [v])
    else if keys[0] == k then (keys, [v] + vals[1..])
    else
      var rest := Put(keys[1..], vals[1..], k, v);
      ([keys[0]] + rest.0, [vals[0]] + rest.1)
  }

  /** After `Put`, the key holds the new value and every other key keeps its own. */
  lemma {:induction false} PutLookup(keys: seq<string>, vals: seq<Value>, k: string, v: Value, k': string)
    requires |keys| == |vals|
    ensures var r := Put(keys, vals, k, v);
      Lookup(r.0, r.1, k') == if k' == k then Some(v) else Lookup(keys, vals, k')
    decreases |keys|
  {
    if |keys| > 0 && keys[0] != k {
      PutLookup(keys[1..], vals[1..], k, v, k');
      var rest := Put(keys[1..], vals[1..], k, v);
      assert ([keys[0]] + rest.0)[1..] == rest.0;
      assert ([vals[0]] + rest.1)[1..] == rest.1;
    }
  }

  /** A key that is not there yet goes to the end. */
  lemma {:induction false} PutAbsent(keys: seq<string>, vals: seq<Value>, k: string, v: Value)
    requires |keys| == |vals| && k !in keys
    ensures Put(keys, vals, k, v) == (keys + [k], vals + [v])
    decreases |keys|
  {
    if |keys| > 0 {
      assert keys[0] in keys && k !in keys[1..];
      PutAbsent(keys[1..], vals[1..], k, v);
      assert Put(keys, vals, k, v) == ([keys[0]] + Put(keys[1..], vals[1..], k, v).0, [vals[0]] + Put(keys[1..], vals[1..], k, v).1);
      ConsFront(keys, [k]);
      ConsFront(vals, [v]);
    } else {
      assert keys + [k] == [k] && vals + [v] == [v];
    }
  }

  /** One step of Laravel's `data_get`: an array key that exists, or an object
      property. */
  function Step(target: Value, segment: string): Option<Value> {
    match target
    case Arr(ks, vs) => Lookup(ks, vs, segment)
    case Obj(ps, pvs) => Lookup(ps, pvs, segment)
    case _ => None
  }

  /** Laravel's `data_get($target, $segments)`: follow the segments left to
      right; a missing step gives the default `null`. A `*` segment applies
      the rest of the path to every value of an array, in order, and lists
      the results; when the rest holds another `*`, the lists it gives are
      run together (`Arr::collapse`). Under `*` anything but an array gives
      the default. */
  function DataGet(target: Value, segments: seq<string>): Value
    decreases |segments|
  {
    if |segments| == 0 then target
    else if segments[0] == "*" then
      match target
      case Arr(_, vs) =>
        var items := seq(|vs|, i requires 0 <= i < |vs| => DataGet(vs[i], segments[1..]));
        if "*" in segments[1..] then ListOf(Collapse(items)) else ListOf(items)
      case _ => Null
    else match Step(target, segments[0])
      case None => Null
      case Some(v) => DataGet(v, segments[1..])
  }

  /** The keys `0, 1, …` of a PHP list of `n` values. */
  function Positions(n: nat): (r: seq<string>)
    ensures |r| == n && forall i :: 0 <= i < n ==> r[i] == NatToString(i)
  {
    seq(n, i requires 0 <= i < n => NatToString(i))
  }

  /** A PHP list: the values under the keys `0, 1, …`. */
  function ListOf(vs: seq<Value>): (r: Value)
    ensures IsList(r) && r.vals == vs
  {
    Arr(Positions(|vs|), vs)
  }

  predicate IsList(v: Value) {
    v.Arr? && v.keys == Positions(|v.vals|)
  }

  /** `Arr::collapse`: the values of the arrays among the items, one after
      the other; other items are skipped. `array_merge` renumbers list keys,
      and the items it meets here are lists (see WildcardGivesList). */
  function Collapse(items: seq<Value>): (r: seq<Value>)
    ensures |items| == 0 ==> r == []
    decreases |items|
  {
    if |items| == 0 then []
    else (if items[0].Arr? then items[0].vals else []) + Collapse(items[1..])
  }

  /** `data_get($data, $path)` on a view's data array, with `.` separating segments. */
  function DataGetPath(data: Context, path: string): Value {
    var segments := Split(path, '.');
    if segments[0] in data then DataGet(data[segments[0]], segments[1..]) else Null
  }

  lemma {:induction false} DataGetOfNull(segments: seq<string>)
    requires |segments| > 0
    ensures DataGet(Null, segments) == Null
  {
  }

  /** A lookup along `a + b` is the lookup along `b` from where `a` leads,
      when `a` has no wildcard (after a `*` the rest is applied to each item). */
  lemma {:induction false} DataGetAppend(t: Value, a: seq<string>, b: seq<string>)
    requires "*" !in a
    ensures DataGet(t, a + b) == DataGet(DataGet(t, a), b)
    decreases |a|
  {
    if |a| == 0 {
      assert a + b == b;
    } else {
      assert (a + b)[0] == a[0];
      assert (a + b)[1..] == a[1..] + b;
      assert a[0] != "*" && "*" !in a[1..];
      match Step(t, a[0])
      case None =>
        if |b| > 0 {
          DataGetOfNull(b);
        }
      case Some(v) =>
        DataGetAppend(v, a[1..], b);
    }
  }

  /** A path with a wildcard gives null or a list, so `Arr::collapse` only
      ever joins lists. */
  lemma {:induction false} WildcardGivesList(t: Value, segments: seq<string>)
    requires "*" in segments
    ensures DataGet(t, segments).Null? || IsList(DataGet(t, segments))
    decreases |segments|
  {
    if segments[0] != "*" {
      assert "*" in segments[1..];
      match Step(t, segments[0])
      case None =>
      case Some(v) => WildcardGivesList(v, segments[1..]);
    }
  }

  /** `*` followed by a plain path lists that path's value in every item, in
      order; an item without it gives null in its place. */
  lemma WildcardMaps(ks: seq<string>, vs: seq<Value>, rest: seq<string>)
    requires "*" !in rest
    ensures var r := DataGet(Arr(ks, vs), ["*"] + rest);
      IsList(r) && |r.vals| == |vs| && forall i :: 0 <= i < |vs| ==> r.vals[i] == DataGet(vs[i], rest)
  {
    assert (["*"] + rest)[0] == "*" && (["*"] + rest)[1..] == rest;
  }

  /** `items.*.name` over two items with names: the list of both names. */
  lemma WildcardExample(a: Value, b: Value, items: Value)
    requires a == Arr(["name"], [Str("a")]) && b == Arr(["name"], [Str("b")])
    requires items == Arr(["0", "1"], [a, b])
    ensures DataGet(items, ["*", "name"]) == Arr(["0", "1"], [Str("a"), Str("b")])
  {
    WildcardMaps(items.keys, items.vals, ["name"]);
    assert ["*"] + ["name"] == ["*", "name"];
    var r := DataGet(items, ["*", "name"]);
    assert DataGet(a, ["name"]) == Str("a") && DataGet(b, ["name"]) == Str("b");
    assert NatToString(0) == "0" && NatToString(1) == "1";
    assert r.keys == Positions(2);
  }

  /** `*.*` over a list of lists runs the inner lists together. */
  lemma WildcardCollapses(x: Value, y: Value, t: Value)
    requires x == ListOf([Int(1), Int(2)]) && y == ListOf([Int(3)]) && t == ListOf([x, y])
    ensures DataGet(t, ["*", "*"]) == ListOf([Int(1), Int(2), Int(3)])
  {
    assert ["*", "*"][1..] == ["*"];
    assert DataGet(x, ["*"]) == x by {
      assert DataGet(Int(1), []) == Int(1) && DataGet(Int(2), []) == Int(2);
    }
    assert DataGet(y, ["*"]) == y by {
      assert DataGet(Int(3), []) == Int(3);
    }
    assert "*" in ["*", "*"][1..];
    var items := seq(|t.vals|, i requires 0 <= i < |t.vals| => DataGet(t.vals[i], ["*"]));
    assert items == [x, y];
    assert Collapse([y]) == [Int(3)] + Collapse([]);
    assert Collapse([x, y]) == [Int(1), Int(2)] + Collapse([y]);
    assert Collapse(items) == [Int(1), Int(2), Int(3)];
  }

  /** The path `items.*.name`, as `exists` and `getValue` read it: the names
      of all the items, which is not null. */
  lemma WildcardPathExample(data: Context, a: Value, b: Value)
    requires a == Arr(["name"], [Str("a")]) && b == Arr(["name"], [Str("b")])
    requires data == map["items" := Arr(["0", "1"], [a, b])]
    ensures DataGetPath(data, "items.*.name") == Arr(["0", "1"], [Str("a"), Str("b")])
    ensures DataGetPath(data, "items.*.name") != Null
  {
    var parts := ["items", "*", "name"];
    assert Join(parts, ".") == "items.*.name" by {
      assert Join(["name"], ".") == "name";
      assert Join(["*", "name"], ".") == "*" + "." + "name";
    }
    assert forall k :: 0 <= k < |parts| ==> '.' !in parts[k];
    SplitJoin(parts, '.');
    assert Split("items.*.name", '.')[1..] == ["*", "name"];
    WildcardExample(a, b, data["items"]);
  }

  /** A path without dots reads the top-level variable directly. */
  lemma DataGetPathSimple(data: Context, name: string)
    requires '.' !in name
    ensures DataGetPath(data, name) == if name in data then data[name] else Null
  {
    SplitNoSeparator(name, '.');
  }

  /** PHP `strval` for the value kinds that convert without an error;
      an array becomes "Array" (with a notice). */
  function StrVal(v: Value): string {
    match v
    case Null => ""
    case Bool(b) => if b then "1" else ""
    case Int(i) => IntToString(i)
    case Str(s) => s
    case Arr(_, _) => "Array"
    case Obj(_, _) => ""
    case Markup(_) => ""
  }

  /** PHP truthiness. */
  predicate Truthy(v: Value) {
    match v
    case Null => false
    case Bool(b) => b
    case Int(i) => i != 0
    case Str(s) => s != "" && s != "0"
    case Arr(ks, _) => |ks| > 0
    case Obj(_, _) => true
    case Markup(_) => true
  }

  /** PHP `count`: arrays count their entries, null counts 0, any other
      value counts 1. */
  function Count(v: Value): nat {
    match v
    case Null => 0
    case Arr(ks, _) => |ks|
    case _ => 1
  }

  predicate IsDigit(ch: char) { '0' <= ch <= '9' }

  function DigitsValue(s: string): nat
    decreases |s|
  {
    if |s| == 0 then 0
    else DigitsValue(s[..|s| - 1]) * 10 + (if IsDigit(s[|s| - 1]) then s[|s| - 1] as int - '0' as int else 0)
  }

  predicate AllDigits(s: string) {
    |s| > 0 && forall k :: 0 <= k < |s| ==> IsDigit(s[k])
  }

  /** The blanks PHP 7 skips before a numeral: space, `\t`, `\n`, `\v`, `\f`, `\r`. */
  predicate IsNumeralSpace(ch: char) {
    ch == ' ' || ('\t' <= ch <= '\r')
  }

  function LeadingDigits(s: string): (r: string)
    ensures |r| <= |s| && r == s[..|r|]
    decreases |s|
  {
    if |s| > 0 && IsDigit(s[0]) then [s[0]] + LeadingDigits(s[1..]) else ""
  }

  /** `m * 10^e`, for an exponent of either sign. */
  function Scale(m: real, e: int): real
    decreases if e < 0 then -e else e
  {
    if e == 0 then m else if e > 0 then 10.0 * Scale(m, e - 1) else Scale(m, e + 1) / 10.0
  }

  /** A numeral read from the front of a string: its value and how many
      characters it takes, blanks included. */
  datatype Numeral = Numeral(value: real, length: nat)

  /** An exponent `[eE][+-]?digits` at the front of `s`: its value and length. */
  function ExponentAt(s: string): (r: Option<(int, nat)>)
    ensures r.Some? ==> r.value.1 <= |s|
  {
    if |s| >= 2 && (s[0] == 'e' || s[0] == 'E') then
      var sign := if s[1] == '-' || s[1] == '+' then 1 else 0;
      var digits := LeadingDigits(s[1 + sign..]);
      var e: int := if sign == 1 && s[1] == '-' then -(DigitsValue(digits) as int) else DigitsValue(digits);
      if |digits| == 0 then None else Some((e, 1 + sign + |digits|))
    else None
  }

  /** The numeral PHP 7's `is_numeric_string` reads at the front of `s`:
      blanks, an optional sign, then digits with an optional `.` and
      fraction (or `.` and at least one digit), then an optional exponent.
      None when no digit is found. */
  function NumeralAt(s: string): (r: Option<Numeral>)
    ensures r.Some? ==> r.value.length <= |s|
    decreases |s|
  {
    if |s| > 0 && IsNumeralSpace(s[0]) then Shifted(NumeralAt(s[1..]), 1) else SignedAt(s)
  }

  /** A numeral that starts `k` characters later. */
  function Shifted(n: Option<Numeral>, k: nat): (r: Option<Numeral>)
    ensures r.Some? <==> n.Some?
    ensures r.Some? ==> r.value == Numeral(n.value.value, n.value.length + k)
  {
    match n
    case None => None
    case Some(x) => Some(Numeral(x.value, x.length + k))
  }

  /** A numeral after the blanks: an optional sign, then an unsigned numeral. */
  function SignedAt(t: string): (r: Option<Numeral>)
    ensures r.Some? ==> r.value.length <= |t|
  {
    if |t| > 0 && t[0] == '-' then
      match UnsignedAt(t[1..])
      case None => None
      case Some(x) => Some(Numeral(-x.value, x.length + 1))
    else if |t| > 0 && t[0] == '+' then Shifted(UnsignedAt(t[1..]), 1)
    else UnsignedAt(t)
  }

  /** Digits, an optional `.` and fraction digits (at least one digit in
      all), then an optional exponent. */
  function UnsignedAt(u: string): (r: Option<Numeral>)
    ensures r.Some? ==> r.value.length <= |u|
  {
    var whole := LeadingDigits(u);
    if |whole| < |u| && u[|whole|] == '.' then WithFraction(whole, u[|whole| + 1..])
    else if |whole| == 0 then None
    else WithExponent(Decimal(whole, ""), |whole|, u[|whole|..])
  }

  /** After `whole.`: the fraction digits, then an optional exponent. */
  function WithFraction(whole: string, rest: string): (r: Option<Numeral>)
    ensures r.Some? ==> r.value.length <= |whole| + 1 + |rest|
  {
    var frac := LeadingDigits(rest);
    if |whole| == 0 && |frac| == 0 then None
    else WithExponent(Decimal(whole, frac), |whole| + 1 + |frac|, rest[|frac|..])
  }

  /** A mantissa of `length` characters, scaled by the exponent after it, if any. */
  function WithExponent(m: real, length: nat, rest: string): (r: Option<Numeral>)
    ensures r.Some? && r.value.length <= length + |rest|
  {
    match ExponentAt(rest)
    case None => Some(Numeral(m, length))
    case Some(e) => Some(Numeral(Scale(m, e.0), length + e.1))
  }

  /** The value of `whole.frac`. */
  function Decimal(whole: string, frac: string): real {
    DigitsValue(whole) as real + FractionValue(frac)
  }

  /** The value of the digits after a decimal point. */
  function FractionValue(frac: string): real
    decreases |frac|
  {
    if |frac| == 0 then 0.0
    else ((if IsDigit(frac[0]) then frac[0] as int - '0' as int else 0) as real + FractionValue(frac[1..])) / 10.0
  }

  /** A numeric string in PHP 7: the whole string is one numeral (leading
      blanks are allowed, trailing ones are not). */
  predicate IsNumeric(s: string) {
    var n := NumeralAt(s);
    n.Some? && n.value.length == |s|
  }

  /** The number a string stands for when PHP 7 compares it with a number:
      the numeral at its front, or 0 when there is none. */
  function NumberOf(s: string): real {
    var n := NumeralAt(s);
    if n.Some? then n.value.value else 0.0
  }

  /** PHP 7 loose comparison `==`. A string meets a number as the numeral
      at its front; two strings compare as numbers when both are numeric;
      two arrays are equal when they have as many entries and each key of
      the first is in the second with a loosely equal value, in whatever
      order. */
  predicate LooseEq(a: Value, b: Value)
    decreases a, 2
  {
    match (a, b)
    case (Bool(x), _) => x == Truthy(b)
    case (_, Bool(y)) => Truthy(a) == y
    case (Null, Null) => true
    case (Null, Str(s)) => s == ""
    case (Str(s), Null) => s == ""
    case (Null, Int(i)) => i == 0
    case (Int(i), Null) => i == 0
    case (Null, Arr(ks, _)) => |ks| == 0
    case (Arr(ks, _), Null) => |ks| == 0
    case (Int(i), Int(j)) => i == j
    case (Int(i), Str(s)) => i as real == NumberOf(s)
    case (Str(s), Int(i)) => i as real == NumberOf(s)
    case (Str(s), Str(t)) => if IsNumeric(s) && IsNumeric(t) then NumberOf(s) == NumberOf(t) else s == t
    case (Arr(ka, va), Arr(kb, vb)) => ArraysLooseEq(ka, va, kb, vb)
    case (Obj(_, _), Obj(_, _)) => a == b
    case (Markup(_), Markup(_)) => a == b
    case _ => false
  }

  /** `==` on two arrays (`zend_hash_compare`, unordered): as many entries,
      and each entry of the first has its key in the second with a loosely
      equal value. */
  predicate ArraysLooseEq(ka: seq<string>, va: seq<Value>, kb: seq<string>, vb: seq<Value>)
    decreases Arr(ka, va), 1
  {
    |ka| == |kb| &&
    forall i {:trigger EntryMatches(ka, va, kb, vb, i)} :: 0 <= i < |ka| && i < |va| ==> EntryMatches(ka, va, kb, vb, i)
  }

  /** Entry `i` of the first array has its key in the second, with a
      loosely equal value. */
  predicate EntryMatches(ka: seq<string>, va: seq<Value>, kb: seq<string>, vb: seq<Value>, i: int)
    requires 0 <= i < |ka| && i < |va|
    decreases Arr(ka, va), 0
  {
    exists j :: 0 <= j < |kb| && j < |vb| && kb[j] == ka[i] && LooseEq(va[i], vb[j])
  }

  predicate UniqueKeys(ks: seq<string>) {
    forall i, j :: 0 <= i < j < |ks| ==> ks[i] != ks[j]
  }

  /** A value PHP can hold: every array and object has one value per key
      and no key twice. */
  predicate WellFormed(v: Value) {
    match v
    case Arr(ks, vs) => |ks| == |vs| && UniqueKeys(ks) && forall i :: 0 <= i < |vs| ==> WellFormed(vs[i])
    case Obj(ps, pvs) => |ps| == |pvs| && UniqueKeys(ps) && forall i :: 0 <= i < |pvs| ==> WellFormed(pvs[i])
    case _ => true
  }

  /** Every value is loosely equal to itself. */
  lemma {:induction false} LooseEqReflexive(a: Value)
    ensures LooseEq(a, a)
    decreases a, 1
  {
    if a.Arr? {
      ArraysReflexive(a.keys, a.vals);
    }
  }

  lemma {:induction false} ArraysReflexive(ks: seq<string>, vs: seq<Value>)
    ensures ArraysLooseEq(ks, vs, ks, vs)
    decreases Arr(ks, vs), 0
  {
    forall i | 0 <= i < |ks| && i < |vs|
      ensures EntryMatches(ks, vs, ks, vs, i)
    {
      assert vs[i] < Arr(ks, vs);
      LooseEqReflexive(vs[i]);
      assert ks[i] == ks[i] && LooseEq(vs[i], vs[i]);
    }
  }

  /** Equally many distinct keys, each of the first among the second: then
      each of the second is among the first. */
  lemma KeysCovered(ka: seq<string>, kb: seq<string>)
    requires |ka| == |kb| && UniqueKeys(ka)
    requires forall i :: 0 <= i < |ka| ==> ka[i] in kb
    ensures forall j :: 0 <= j < |kb| ==> kb[j] in ka
  {
    var A := set i | 0 <= i < |ka| :: ka[i];
    var B := set j | 0 <= j < |kb| :: kb[j];
    UniqueCard(ka);
    SeqSetCard(kb);
    assert A <= B;
    assert A * B == A && A + B == B && A - B == {};
    assert |B - A| == 0;
    forall j | 0 <= j < |kb| ensures kb[j] in ka {
      assert kb[j] in B;
      assert kb[j] !in B - A;
    }
  }

  /** The keys of a sequence without repeats are as many as its length. */
  lemma {:induction false} UniqueCard(ks: seq<string>)
    requires UniqueKeys(ks)
    ensures |set i | 0 <= i < |ks| :: ks[i]| == |ks|
    decreases |ks|
  {
    if |ks| > 0 {
      var front := ks[..|ks| - 1];
      assert UniqueKeys(front);
      UniqueCard(front);
      var F := set i | 0 <= i < |front| :: front[i];
      assert (set i | 0 <= i < |ks| :: ks[i]) == F + {ks[|ks| - 1]};
      assert ks[|ks| - 1] !in F;
    }
  }

  /** A sequence has at most as many distinct keys as its length. */
  lemma {:induction false} SeqSetCard(ks: seq<string>)
    ensures |set i | 0 <= i < |ks| :: ks[i]| <= |ks|
    decreases |ks|
  {
    if |ks| > 0 {
      var front := ks[..|ks| - 1];
      SeqSetCard(front);
      var F := set i | 0 <= i < |front| :: front[i];
      assert (set i | 0 <= i < |ks| :: ks[i]) == F + {ks[|ks| - 1]};
    }
  }

  /** Loose equality of well-formed values, read the other way round. */
  lemma {:induction false} LooseEqFlip(a: Value, b: Value)
    requires WellFormed(a) && WellFormed(b) && LooseEq(a, b)
    ensures LooseEq(b, a)
    decreases a, 1
  {
    if a.Arr? && b.Arr? {
      ArraysFlip(a.keys, a.vals, b.keys, b.vals);
    }
  }

  /** The array case: by the key count, each key of the second array is a
      key of the first, and its value matches the one found from there. */
  lemma {:induction false} ArraysFlip(ka: seq<string>, va: seq<Value>, kb: seq<string>, vb: seq<Value>)
    requires WellFormed(Arr(ka, va)) && WellFormed(Arr(kb, vb)) && LooseEq(Arr(ka, va), Arr(kb, vb))
    ensures LooseEq(Arr(kb, vb), Arr(ka, va))
    decreases Arr(ka, va), 0
  {
    assert ArraysLooseEq(ka, va, kb, vb);
    forall i | 0 <= i < |ka| ensures ka[i] in kb {
      assert EntryMatches(ka, va, kb, vb, i);
      var j :| 0 <= j < |kb| && j < |vb| && kb[j] == ka[i] && LooseEq(va[i], vb[j]);
    }
    KeysCovered(ka, kb);
    forall j | 0 <= j < |kb| && j < |vb|
      ensures EntryMatches(kb, vb, ka, va, j)
    {
      var i :| 0 <= i < |ka| && ka[i] == kb[j];
      assert EntryMatches(ka, va, kb, vb, i);
      var j' :| 0 <= j' < |kb| && j' < |vb| && kb[j'] == ka[i] && LooseEq(va[i], vb[j']);
      assert j' == j;
      assert va[i] < Arr(ka, va);
      LooseEqFlip(va[i], vb[j]);
      assert ka[i] == kb[j] && LooseEq(vb[j], va[i]);
    }
    assert ArraysLooseEq(kb, vb, ka, va);
  }

  /** Loose equality does not depend on the order of its operands. */
  lemma LooseEqSymmetric(a: Value, b: Value)
    requires WellFormed(a) && WellFormed(b)
    ensures LooseEq(a, b) == LooseEq(b, a)
  {
    if LooseEq(a, b) {
      LooseEqFlip(a, b);
    }
    if LooseEq(b, a) {
      LooseEqFlip(b, a);
    }
  }

  lemma {:induction false} LeadingDigitsPrefix(w: string, rest: string)
    requires forall k :: 0 <= k < |w| ==> IsDigit(w[k])
    requires |rest| == 0 || !IsDigit(rest[0])
    ensures LeadingDigits(w + rest) == w
    decreases |w|
  {
    if |w| == 0 {
      assert w + rest == rest;
    } else {
      assert (w + rest)[0] == w[0] && (w + rest)[1..] == w[1..] + rest;
      LeadingDigitsPrefix(w[1..], rest);
      assert [w[0]] + w[1..] == w;
    }
  }

  /** A string that starts with a digit starts with no blank and no sign. */
  lemma StartsWithDigit(s: string)
    requires |s| > 0 && IsDigit(s[0])
    ensures NumeralAt(s) == UnsignedAt(s)
  {
    assert SignedAt(s) == UnsignedAt(s);
  }

  /** A run of digits is read as that number. */
  lemma DigitsNumeral(w: string)
    requires AllDigits(w)
    ensures NumeralAt(w) == Some(Numeral(DigitsValue(w) as real, |w|))
  {
    StartsWithDigit(w);
    LeadingDigitsPrefix(w, "");
    assert w + "" == w;
    assert w[|w|..] == "";
    assert WithExponent(Decimal(w, ""), |w|, "") == Some(Numeral(Decimal(w, ""), |w|));
  }

  lemma UnsignedFraction(s: string, w: string, f: string)
    requires LeadingDigits(s) == w && |w| < |s| && s[|w|] == '.' && s[|w| + 1..] == f
    ensures UnsignedAt(s) == WithFraction(w, f)
  {
  }

  lemma FractionEnd(w: string, f: string)
    requires |w| > 0 && forall k :: 0 <= k < |f| ==> IsDigit(f[k])
    ensures WithFraction(w, f) == Some(Numeral(Decimal(w, f), |w| + 1 + |f|))
  {
    LeadingDigitsPrefix(f, "");
    assert f + "" == f && f[|f|..] == "";
    assert WithExponent(Decimal(w, f), |w| + 1 + |f|, "") == Some(Numeral(Decimal(w, f), |w| + 1 + |f|));
  }

  /** Two numeric strings compare as numbers: `"10" == "10.00"`. */
  lemma DecimalStringsEqual(s: string, t: string)
    requires s == "10" && t == "10.00"
    ensures IsNumeric(s) && IsNumeric(t) && LooseEq(Str(s), Str(t))
  {
    DigitsNumeral(s);
    assert s[..1] == "1" && DigitsValue(s[..1]) == 1;
    TenWithFraction(t);
  }

  lemma TenWithFraction(t: string)
    requires t == "10.00"
    ensures NumeralAt(t) == Some(Numeral(10.0, 5))
  {
    StartsWithDigit(t);
    assert t == "10" + ".00" && t[3..] == "00";
    LeadingDigitsPrefix("10", ".00");
    UnsignedFraction(t, "10", "00");
    FractionEnd("10", "00");
    assert DigitsValue("10") == 10 && FractionValue("00") == 0.0;
  }

  /** An integer meets a string as the number in it: `1 == "1.5"` fails. */
  lemma IntAgainstFraction(i: int, s: string)
    requires i == 1 && s == "1.5"
    ensures NumberOf(s) == 1.5 && !LooseEq(Int(i), Str(s))
  {
    StartsWithDigit(s);
    assert LeadingDigits(s) == "1" && s[2..] == "5";
    UnsignedFraction(s, "1", "5");
    FractionEnd("1", "5");
    assert DigitsValue("1") == 1 && FractionValue("5") == 0.5;
  }

  /** An exponent counts: `1000 == "1e3"`. */
  lemma IntAgainstExponent(i: int, s: string)
    requires i == 1000 && s == "1e3"
    ensures NumberOf(s) == 1000.0 && LooseEq(Int(i), Str(s))
  {
    StartsWithDigit(s);
    assert LeadingDigits(s) == "1";
    assert s[1..] == "e3";
    ExponentThree(s[1..]);
    assert Decimal("1", "") == 1.0;
    assert Scale(1.0, 3) == 1000.0;
  }

  lemma ExponentThree(x: string)
    requires x == "e3"
    ensures ExponentAt(x) == Some((3, 2))
  {
    assert x[1..] == "3";
    assert LeadingDigits(x[1..]) == "3";
    assert DigitsValue("3") == 3;
  }

  /** The order of the entries does not matter: `["a" => 1, "b" => 2] == ["b" => 2, "a" => 1]`. */
  lemma ArrayOrderIgnored(ka: seq<string>, va: seq<Value>, kb: seq<string>, vb: seq<Value>)
    requires ka == ["a", "b"] && va == [Int(1), Int(2)] && kb == ["b", "a"] && vb == [Int(2), Int(1)]
    ensures LooseEq(Arr(ka, va), Arr(kb, vb))
  {
    assert kb[1] == ka[0] && LooseEq(va[0], vb[1]);
    assert EntryMatches(ka, va, kb, vb, 0);
    assert kb[0] == ka[1] && LooseEq(va[1], vb[0]);
    assert EntryMatches(ka, va, kb, vb, 1);
    assert ArraysLooseEq(ka, va, kb, vb);
  }

  /** PHP 7: a string without a leading number counts as 0 against an integer,
      so `0 == "abc"` holds. */
  lemma ZeroAgainstWord(i: int, s: string)
    requires i == 0 && s == "abc"
    ensures !IsNumeric(s) && NumberOf(s) == 0.0 && LooseEq(Int(i), Str(s))
  {
    assert LeadingDigits(s) == "";
  }

  /** A blank in front of a string does not change the numeral read from it. */
  lemma NumeralAfterBlank(c: char, s: string)
    requires IsNumeralSpace(c)
    ensures NumeralAt([c] + s) == Shifted(NumeralAt(s), 1)
  {
    assert ([c] + s)[1..] == s;
  }

  /** Hence a numeric string with a blank in front equals itself: `" 1" == "1"`. */
  lemma LeadingBlankIgnored(c: char, s: string)
    requires IsNumeralSpace(c) && IsNumeric(s)
    ensures IsNumeric([c] + s) && LooseEq(Str([c] + s), Str(s))
  {
    NumeralAfterBlank(c, s);
  }

  /** The decimal rendering of an integer is a numeric string standing for
      that integer, so the two are loosely equal. */
  lemma IntStringLooseEq(i: int)
    ensures IsNumeric(IntToString(i)) && NumberOf(IntToString(i)) == i as real
    ensures LooseEq(Int(i), Str(IntToString(i)))
  {
    var n: nat := if i < 0 then -i else i;
    var d := NatToString(n);
    NatToStringValue(n);
    DigitsNumeral(d);
    var s := IntToString(i);
    if i < 0 {
      assert s == "-" + d && s[0] == '-' && s[1..] == d;
      StartsWithDigit(d);
      assert SignedAt(s) == Some(Numeral(-(n as real), |d| + 1));
    } else {
      assert s == d;
    }
  }

  /** A canonical decimal key ("0", "17", but not "007" or "-0"): PHP turns such array keys into integers. */
  predicate IsCanonicalNat(s: string) {
    AllDigits(s) && (s[0] != '0' || |s| == 1)
  }

  /** Reading back a rendered natural number gives the number. */
  lemma {:induction false} NatToStringValue(n: nat)
    ensures AllDigits(NatToString(n)) && DigitsValue(NatToString(n)) == n
    decreases n
  {
    var s := NatToString(n);
    if n >= 10 {
      NatToStringValue(n / 10);
      assert s[..|s| - 1] == NatToString(n / 10);
    }
  }

  /** A rendered natural number is a canonical key, and different numbers
      render differently. */
  lemma NatToStringCanonical(n: nat, m: nat)
    ensures IsCanonicalNat(NatToString(n))
    ensures NatToString(n) == NatToString(m) ==> n == m
  {
    NatToStringValue(n);
    NatToStringValue(m);
    NatToStringLeading(n);
  }

  lemma {:induction false} NatToStringLeading(n: nat)
    ensures NatToString(n)[0] != '0' || n == 0
    ensures n < 10 <==> |NatToString(n)| == 1
    decreases n
  {
    if n >= 10 {
      NatToStringLeading(n / 10);
    }
  }

  /** The key of an array entry as PHP's `foreach` hands it out. */
  function KeyValue(k: string): Value {
    if IsCanonicalNat(k) then Int(DigitsValue(k)) else Str(k)
  }

  /** The (key, value) pairs PHP's `foreach` visits, in order. Arrays give
      their entries, objects their properties, other values nothing. */
  function Entries(v: Value): (r: seq<(Value, Value)>)
    ensures v.Arr? && |v.keys| == |v.vals| ==> |r| == |v.keys|
  {
    match v
    case Arr(ks, vs) => Zip(ks, vs)
    case Obj(ps, pvs) => Zip(ps, pvs)
    case _ => []
  }

  function Zip(ks: seq<string>, vs: seq<Value>): (r: seq<(Value, Value)>)
    ensures |r| == if |ks| <= |vs| then |ks| else |vs|
    ensures forall i :: 0 <= i < |r| ==> r[i] == (KeyValue(ks[i]), vs[i])
    decreases |ks|
  {
    if |ks| == 0 || |vs| == 0 then [] else [(KeyValue(ks[0]), vs[0])] + Zip(ks[1..], vs[1..])
  }
}
