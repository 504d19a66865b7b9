/** String helpers shared by the document layer and the directive layer:
    PHP's `explode`/`implode` on one-character separators, `trim`,
    prefix/suffix tests, substring search, decimal rendering and
    Laravel's `studly_case`. */
module Strings {

  predicate StartsWith(s: string, p: string) {
    |p| <= |s| && s[..|p|] == p
  }

  predicate EndsWith(s: string, p: string) {
    |p| <= |s| && s[|s| - |p|..] == p
  }

  /** `s` occurs in `t` somewhere (PHP `strpos !== false`, XPath `contains`). */
  predicate Contains(t: string, s: string) {
    exists i :: 0 <= i <= |t| - |s| && OccursAt(t, s, i)
  }

  /** `s` occurs in `t` starting at index `i`. */
  predicate OccursAt(t: string, s: string, i: int) {
    0 <= i <= |t| - |s| && t[i..i + |s|] == s
  }

  /** PHP `explode(c, s)` for a one-character separator: the pieces between
      separators, always at least one. */
  function Split(s: string, c: char): (r: seq<string>)
    ensures |r| >= 1
    decreases |s|
  {
    if |s| == 0 then [""]
    else
      var rest := Split(s[1..], c);
      if s[0] == c then [""] + rest
      else [[s[0]] + rest[0]] + rest[1..]
  }

  /** PHP `implode(sep, parts)`. */
  function Join(parts: seq<string>, sep: string): string
    decreases |parts|
  {
    if |parts| == 0 then ""
    else if |parts| == 1 then parts[0]
    else parts[0] + sep + Join(parts[1..], sep)
  }

  lemma {:induction false} SplitPiecesExcludeSeparator(s: string, c: char)
    ensures forall k :: 0 <= k < |Split(s, c)| ==> c !in Split(s, c)[k]
    decreases |s|
  {
    if |s| > 0 {
      SplitPiecesExcludeSeparator(s[1..], c);
    }
  }

  /** Joining the pieces with the separator gives the string back. */
  lemma {:induction false} JoinSplit(s: string, c: char)
    ensures Join(Split(s, c), [c]) == s
    decreases |s|
  {
    if |s| > 0 {
      var rest := Split(s[1..], c);
      JoinSplit(s[1..], c);
      if s[0] == c {
        assert Split(s, c) == [""] + rest;
        assert Join([""] + rest, [c]) == "" + [c] + Join(rest, [c]);
      } else {
        var r := [[s[0]] + rest[0]] + rest[1..];
        assert Split(s, c) == r;
        if |rest| == 1 {
          assert Join(r, [c]) == [s[0]] + rest[0];
        } else {
          assert r[1..] == rest[1..];
          assert Join(rest, [c]) == rest[0] + [c] + Join(rest[1..], [c]);
          assert Join(r, [c]) == [s[0]] + rest[0] + [c] + Join(rest[1..], [c]);
        }
      }
    }
  }

  /** Splitting a join of separator-free pieces gives the pieces back. */
  lemma {:induction false} SplitJoin(parts: seq<string>, c: char)
    requires |parts| >= 1
    requires forall k :: 0 <= k < |parts| ==> c !in parts[k]
    ensures Split(Join(parts, [c]), c) == parts
    decreases |parts|, |parts[0]|
  {
    if |parts| == 1 {
      SplitNoSeparator(parts[0], c);
    } else {
      var p := parts[0];
      if |p| == 0 {
        SplitJoin(parts[1..], c);
        assert Join(parts, [c]) == [c] + Join(parts[1..], [c]);
        assert ([c] + Join(parts[1..], [c]))[1..] == Join(parts[1..], [c]);
      } else {
        var parts' := [p[1..]] + parts[1..];
        assert parts'[1..] == parts[1..];
        SplitJoin(parts', c);
        assert Join(parts', [c]) == p[1..] + [c] + Join(parts[1..], [c]);
        assert Join(parts, [c]) == [p[0]] + Join(parts', [c]);
        assert ([p[0]] + Join(parts', [c]))[1..] == Join(parts', [c]);
        assert [p[0]] + p[1..] == p;
      }
    }
  }

  /** Splitting at a separator splits the two sides independently. */
  lemma {:induction false} SplitConcat(a: string, b: string, c: char)
    ensures Split(a + [c] + b, c) == Split(a, c) + Split(b, c)
    decreases |a|
  {
    if |a| == 0 {
      assert a + [c] + b == [c] + b;
      SplitCons(c, b, c);
    } else {
      var t := a[1..] + [c] + b;
      assert a + [c] + b == [a[0]] + t;
      assert a == [a[0]] + a[1..];
      SplitConcat(a[1..], b, c);
      SplitCons(a[0], t, c);
      SplitCons(a[0], a[1..], c);
      var front, back := Split(a[1..], c), Split(b, c);
      if a[0] == c {
        ConsAppend("", front, back);
      } else {
        assert (front + back)[0] == front[0];
        ReplaceHeadAppend(front, back, [a[0]] + front[0]);
      }
    }
  }

  /** Sequence algebra, stated over an arbitrary element type so that the
      solver does not look inside the elements. */
  lemma AppendAssoc<T>(x: seq<T>, y: seq<T>, z: seq<T>)
    ensures (x + y) + z == x + (y + z)
  {
  }

  lemma LastOfAppend<T>(x: seq<T>, y: seq<T>)
    requires |y| >= 1
    ensures (x + y)[..|x + y| - 1] == x + y[..|y| - 1]
    ensures (x + y)[|x + y| - 1] == y[|y| - 1]
  {
    assert (x + y)[..|x + y| - 1] == x + y[..|y| - 1];
  }

  lemma ConsFront<T>(x: seq<T>, y: seq<T>)
    requires |x| > 0
    ensures x + y == [x[0]] + (x[1..] + y)
  {
    assert x == [x[0]] + x[1..];
  }

  lemma AppendAssoc5<T>(p: seq<T>, a: seq<T>, b: seq<T>, c: seq<T>, d: seq<T>)
    ensures p + a + b + c + d == p + (a + b + c + d)
  {
  }

  lemma SnocOfIndexed<T>(a: seq<T>, b: seq<T>)
    requires |b| == |a| + 1 && forall i :: 0 <= i < |a| ==> b[i] == a[i]
    ensures b == a + [b[|a|]]
  {
  }

  /** A non-empty sequence is its front and its last element. */
  lemma FrontAndLast<T>(es: seq<T>)
    requires |es| > 0
    ensures var front := es[..|es| - 1];
      front + [es[|es| - 1]] == es
      && (forall k :: 0 <= k < |front| ==> front[k] == es[k])
      && (forall x :: x in es <==> x in front || x == es[|es| - 1])
  {
    var front := es[..|es| - 1];
    assert front + [es[|es| - 1]] == es;
  }

  lemma ConsAppend<T>(h: T, front: seq<T>, back: seq<T>)
    ensures [h] + (front + back) == ([h] + front) + back
  {
  }

  lemma ReplaceHeadAppend<T>(front: seq<T>, back: seq<T>, h: T)
    requires |front| >= 1
    ensures [h] + (front + back)[1..] == ([h] + front[1..]) + back
  {
    assert (front + back)[1..] == front[1..] + back;
  }

  /** One step of `explode` on a string that starts with `x`. */
  lemma SplitCons(x: char, t: string, c: char)
    ensures Split([x] + t, c) ==
      if x == c then [""] + Split(t, c) else [[x] + Split(t, c)[0]] + Split(t, c)[1..]
  {
    assert ([x] + t)[0] == x && ([x] + t)[1..] == t;
  }

  /** A character absent from the string is absent from every piece. */
  lemma {:induction false} SplitPiecesWithout(s: string, c: char, d: char)
    requires d !in s
    ensures forall k :: 0 <= k < |Split(s, c)| ==> d !in Split(s, c)[k]
    decreases |s|
  {
    if |s| > 0 {
      assert d !in s[1..];
      SplitPiecesWithout(s[1..], c, d);
    }
  }

  lemma {:induction false} SplitNoSeparator(s: string, c: char)
    requires c !in s
    ensures Split(s, c) == [s]
    decreases |s|
  {
    if |s| > 0 {
      assert c !in s[1..];
      SplitNoSeparator(s[1..], c);
      assert [s[0]] + s[1..] == s;
    }
  }

  /** The characters PHP's `trim` strips by default. */
  predicate IsTrimChar(ch: char) {
    ch == ' ' || ch == '\t' || ch == '\n' || ch == '\r' || ch == '\0' || ch == '\U{000B}'
  }

  function TrimLeft(s: string): (r: string)
    ensures |r| <= |s| && r == s[|s| - |r|..]
    ensures forall k :: 0 <= k < |s| - |r| ==> IsTrimChar(s[k])
    ensures r == [] || !IsTrimChar(r[0])
    decreases |s|
  {
    if |s| > 0 && IsTrimChar(s[0]) then TrimLeft(s[1..]) else s
  }

  function TrimRight(s: string): (r: string)
    ensures |r| <= |s| && r == s[..|r|]
    ensures forall k :: |r| <= k < |s| ==> IsTrimChar(s[k])
    ensures r == [] || !IsTrimChar(r[|r| - 1])
    decreases |s|
  {
    if |s| > 0 && IsTrimChar(s[|s| - 1]) then TrimRight(s[..|s| - 1]) else s
  }

  /** PHP `trim($s)`. */
  function Trim(s: string): string {
    TrimRight(TrimLeft(s))
  }

  /** A string that neither starts nor ends with a trim character is its own trim. */
  lemma TrimUntouched(s: string)
    requires |s| > 0 && !IsTrimChar(s[0]) && !IsTrimChar(s[|s| - 1])
    ensures Trim(s) == s
  {
    assert TrimLeft(s) == s;
  }

  /** `trim` keeps exactly the middle of `s` between two runs of trim characters. */
  lemma TrimIsInfix(s: string)
    ensures var r := Trim(s);
      exists i :: OccursAt(s, r, i)
        && (forall k :: 0 <= k < i ==> IsTrimChar(s[k]))
        && (forall k :: i + |r| <= k < |s| ==> IsTrimChar(s[k]))
    ensures Trim(s) == [] || (!IsTrimChar(Trim(s)[0]) && !IsTrimChar(Trim(s)[|Trim(s)| - 1]))
  {
    var l := TrimLeft(s);
    var r := TrimRight(l);
    var i := |s| - |l|;
    assert s[i..i + |r|] == l[..|r|];
    assert OccursAt(s, r, i);
    forall k | i + |r| <= k < |s| ensures IsTrimChar(s[k]) {
      assert s[k] == l[k - i];
    }
    assert Trim(s) == r;
  }

  /** The trimmed string is empty exactly when every character is a trim character. */
  lemma TrimEmptyIff(s: string)
    ensures Trim(s) == [] <==> forall k :: 0 <= k < |s| ==> IsTrimChar(s[k])
  {
    var l := TrimLeft(s);
    assert forall k :: |s| - |l| <= k < |s| ==> s[k] == l[k - (|s| - |l|)];
  }

  function DigitChar(d: nat): char
    requires d < 10
  {
    "0123456789"[d]
  }

  /** Decimal rendering of a natural number (PHP's integer-to-string). */
  function NatToString(n: nat): (r: string)
    ensures |r| >= 1
    decreases n
  {
    if n < 10 then [DigitChar(n)] else NatToString(n / 10) + [DigitChar(n % 10)]
  }

  function IntToString(i: int): string {
    if i < 0 then "-" + NatToString(-i) else NatToString(i)
  }

  /** ASCII upper-casing, as PHP's `ucwords` does in the C locale. */
  function Upper(ch: char): char {
    if 'a' <= ch <= 'z' then (ch as int - 32) as char else ch
  }

  /** ASCII lower-casing, as PHP's `strtolower` does in the C locale. */
  function Lower(ch: char): char {
    if 'A' <= ch <= 'Z' then (ch as int + 32) as char else ch
  }

  function LowerAll(s: string): (r: string)
    ensures |r| == |s| && forall k :: 0 <= k < |s| ==> r[k] == Lower(s[k])
  {
    if |s| == 0 then "" else [Lower(s[0])] + LowerAll(s[1..])
  }

  /** A string without capitals is its own lower-casing. */
  lemma LowerAllUntouched(s: string)
    requires forall k :: 0 <= k < |s| ==> !('A' <= s[k] <= 'Z')
    ensures LowerAll(s) == s
  {
    assert forall k :: 0 <= k < |s| ==> LowerAll(s)[k] == s[k];
  }

  /** The word delimiters of PHP's `ucwords`. */
  predicate IsWordDelimiter(ch: char) {
    ch == ' ' || ch == '\t' || ch == '\r' || ch == '\n' || ch == '\U{000C}' || ch == '\U{000B}'
  }

  function DashesToSpaces(s: string): (r: string)
    ensures |r| == |s|
    ensures forall k :: 0 <= k < |s| ==>
      r[k] == if s[k] == '-' || s[k] == '_' then ' ' else s[k]
  {
    if |s| == 0 then "" else [if s[0] == '-' || s[0] == '_' then ' ' else s[0]] + DashesToSpaces(s[1..])
  }

  /** PHP `ucwords`: upper-case the first character and every character
      that follows a delimiter. */
  function UcWords(s: string, atWordStart: bool): (r: string)
    ensures |r| == |s|
    decreases |s|
  {
    if |s| == 0 then ""
    else [if atWordStart then Upper(s[0]) else s[0]] + UcWords(s[1..], IsWordDelimiter(s[0]))
  }

  function RemoveSpaces(s: string): (r: string)
    ensures ' ' !in r
    ensures |r| <= |s|
  {
    if |s| == 0 then "" else (if s[0] == ' ' then "" else [s[0]]) + RemoveSpaces(s[1..])
  }

  /** Laravel's `studly_case`: dashes and underscores separate words, each
      word is capitalised, and the spaces are dropped. */
  function Studly(s: string): string {
    RemoveSpaces(UcWords(DashesToSpaces(s), true))
  }

  lemma {:induction false} UcWordsKeepsOtherChars(s: string, b: bool)
    ensures forall k :: 0 <= k < |s| ==>
      UcWords(s, b)[k] == s[k] || UcWords(s, b)[k] == Upper(s[k])
    decreases |s|
  {
    if |s| > 0 {
      UcWordsKeepsOtherChars(s[1..], IsWordDelimiter(s[0]));
    }
  }

  lemma {:induction false} RemoveSpacesKeeps(s: string, P: char -> bool)
    requires forall k :: 0 <= k < |s| ==> s[k] == ' ' || P(s[k])
    ensures forall k :: 0 <= k < |RemoveSpaces(s)| ==> P(RemoveSpaces(s)[k])
    decreases |s|
  {
    if |s| > 0 {
      RemoveSpacesKeeps(s[1..], P);
    }
  }

  /** A studly-cased name contains no space, dash or underscore. */
  lemma StudlyHasNoSeparators(s: string)
    ensures forall k :: 0 <= k < |Studly(s)| ==>
      Studly(s)[k] != ' ' && Studly(s)[k] != '-' && Studly(s)[k] != '_'
  {
    var d := DashesToSpaces(s);
    var u := UcWords(d, true);
    UcWordsKeepsOtherChars(d, true);
    RemoveSpacesKeeps(u, ch => ch != ' ' && ch != '-' && ch != '_');
  }
}
