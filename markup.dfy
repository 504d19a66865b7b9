/** The string functions of the document layer: ampersand escaping,
    fragment-mode stripping of a serialised document, the "null or
    blank" test, and the void-element rule of the self-closing-tag pass. */
module Markup {
  import opened Strings
  import opened Values

  // ---------------------------------------------------------------------
  // xmlenc: escape every `&` that does not start an entity reference

  /** A character of the class `[\w#]`. */
  predicate IsEntityChar(ch: char) {
    ('a' <= ch <= 'z') || ('A' <= ch <= 'Z') || ('0' <= ch <= '9') || ch == '_' || ch == '#'
  }

  /** The `k` characters at the front of `t` are entity characters and a `;` follows them. */
  predicate EntityRun(t: string, k: nat) {
    k < |t| && t[k] == ';' && forall j :: 0 <= j < k ==> IsEntityChar(t[j])
  }

  /** The look-ahead `(?![\w#]{1,7};)` fails, i.e. an entity reference
      follows, on the text `t` right after an ampersand. */
  predicate EntityAhead(t: string) {
    exists k :: 1 <= k <= 7 && EntityRun(t, k)
  }

  /** `preg_replace('/&(?![\w#]{1,7};)/i', '&amp;', s)`. */
  function Xmlenc(s: string): string
    decreases |s|
  {
    if |s| == 0 then ""
    else if s[0] == '&' && !EntityAhead(s[1..]) then "&amp;" + Xmlenc(s[1..])
    else [s[0]] + Xmlenc(s[1..])
  }

  /** Text without ampersands is left as it is. */
  lemma {:induction false} XmlencNoAmpersand(s: string)
    requires '&' !in s
    ensures Xmlenc(s) == s
    decreases |s|
  {
    if |s| > 0 {
      assert '&' !in s[1..];
      XmlencNoAmpersand(s[1..]);
      assert [s[0]] + s[1..] == s;
    }
  }

  /** A stretch without ampersands passes through unchanged in front of the rest. */
  lemma {:induction false} XmlencPrefix(s: string, n: nat)
    requires n <= |s|
    requires forall j :: 0 <= j < n ==> s[j] != '&'
    ensures Xmlenc(s) == s[..n] + Xmlenc(s[n..])
    decreases n
  {
    if n > 0 {
      assert s[0] != '&';
      assert Xmlenc(s) == [s[0]] + Xmlenc(s[1..]);
      XmlencPrefix(s[1..], n - 1);
      assert s[1..][n - 1..] == s[n..];
      assert [s[0]] + s[1..][..n - 1] == s[..n];
    }
  }

  /** Escaping keeps an entity run, so an entity stays recognisable. */
  lemma XmlencKeepsEntityRun(t: string, k: nat)
    requires EntityRun(t, k)
    ensures EntityRun(Xmlenc(t), k)
  {
    XmlencPrefix(t, k + 1);
    assert Xmlenc(t)[..k + 1] == t[..k + 1];
  }

  /** An ampersand followed by an entity reference is copied. */
  lemma XmlencKeepsAmpersand(t: string)
    requires EntityAhead(t)
    ensures Xmlenc("&" + t) == "&" + Xmlenc(t)
  {
    var s := "&" + t;
    assert s[0] == '&' && s[1..] == t;
  }

  /** The characters of an entity name followed by `;` form an entity run. */
  lemma EntityNameRun(name: string, rest: string)
    requires forall j :: 0 <= j < |name| ==> IsEntityChar(name[j])
    ensures EntityRun(name + ";" + rest, |name|)
  {
    var t := name + ";" + rest;
    assert t[|name|] == ';';
    assert forall j :: 0 <= j < |name| ==> t[j] == name[j];
  }

  /** An ampersand that begins an entity reference is kept. */
  lemma XmlencEntityKept(name: string, rest: string)
    requires 1 <= |name| <= 7
    requires forall j :: 0 <= j < |name| ==> IsEntityChar(name[j])
    ensures Xmlenc("&" + name + ";" + rest) == "&" + name + ";" + Xmlenc(rest)
  {
    var head := name + ";";
    var t := head + rest;
    EntityNameRun(name, rest);
    XmlencKeepsAmpersand(t);
    assert "&" + name + ";" + rest == "&" + t;
    XmlencPrefix(t, |name| + 1);
    assert t[..|name| + 1] == head && t[|name| + 1..] == rest;
    assert "&" + (head + Xmlenc(rest)) == "&" + name + ";" + Xmlenc(rest);
  }

  /** Escaping twice is escaping once. */
  lemma {:induction false} XmlencIdempotent(s: string)
    ensures Xmlenc(Xmlenc(s)) == Xmlenc(s)
    decreases |s|
  {
    if |s| > 0 {
      XmlencIdempotent(s[1..]);
      var e := Xmlenc(s[1..]);
      if s[0] == '&' && !EntityAhead(s[1..]) {
        assert Xmlenc(s) == "&amp;" + e;
        XmlencKeepsEscape(e);
      } else if s[0] == '&' {
        var k :| 1 <= k <= 7 && EntityRun(s[1..], k);
        XmlencKeepsEntityRun(s[1..], k);
        assert Xmlenc(s) == "&" + e;
        XmlencKeepsAmpersand(e);
      } else {
        assert Xmlenc(s) == [s[0]] + e;
        XmlencPlain(s[0], e);
      }
    }
  }

  /** An escape written by `xmlenc` is itself an entity reference, so it is kept. */
  lemma XmlencKeepsEscape(e: string)
    ensures Xmlenc("&amp;" + e) == "&amp;" + Xmlenc(e)
  {
    var w := "&amp;";
    var u := w[1..];
    assert w[0] == '&' && u[0] == 'a' && u[1] == 'm' && u[2] == 'p' && u[3] == ';';
    var t := u + e;
    ConsFront(w, e);
    assert EntityRun(t, 3) by {
      assert t[0] == u[0] && t[1] == u[1] && t[2] == u[2] && t[3] == u[3];
    }
    XmlencKeepsAmpersand(t);
    XmlencPrefixConcat(u, e);
    ConsFront(w, Xmlenc(e));
  }

  /** A stretch without ampersands in front is copied. */
  lemma XmlencPrefixConcat(u: string, e: string)
    requires forall j :: 0 <= j < |u| ==> u[j] != '&'
    ensures Xmlenc(u + e) == u + Xmlenc(e)
  {
    var t := u + e;
    XmlencPrefix(t, |u|);
    assert t[..|u|] == u && t[|u|..] == e;
  }

  /** A character other than `&` is copied. */
  lemma XmlencPlain(c: char, t: string)
    requires c != '&'
    ensures Xmlenc([c] + t) == [c] + Xmlenc(t)
  {
    assert ([c] + t)[0] == c && ([c] + t)[1..] == t;
  }

  lemma XmlencExample()
    ensures Xmlenc("foo&bar") == "foo&amp;bar"
  {
    var s := "foo&bar";
    XmlencPrefix(s, 3);
    assert s[..3] == "foo";
    assert s[3..] == "&bar";
    assert "&bar"[1..] == "bar";
    assert !EntityAhead("bar");
    XmlencNoAmpersand("bar");
  }

  // ---------------------------------------------------------------------
  // asFragment: drop the declaration, doctype and XHTML namespace, then trim

  /** Remove every leftmost, non-overlapping match of a pattern; `matchAt(t)`
      is the length of the pattern's match at the front of `t` (0 for none). */
  function RemoveAll(s: string, matchAt: string -> nat): (r: string)
    ensures |r| <= |s|
    decreases |s|
  {
    if |s| == 0 then ""
    else
      var n := matchAt(s);
      if 0 < n <= |s| then RemoveAll(s[n..], matchAt)
      else [s[0]] + RemoveAll(s[1..], matchAt)
  }

  /** Leading characters other than `?`, the `[^?]+` of the declaration pattern. */
  function NonQuestionRun(t: string): (n: nat)
    ensures n <= |t|
    ensures forall j :: 0 <= j < n ==> t[j] != '?'
    ensures n < |t| ==> t[n] == '?'
    decreases |t|
  {
    if |t| > 0 && t[0] != '?' then 1 + NonQuestionRun(t[1..]) else 0
  }

  /** Match length of `<\?xml[^?]+\?>` at the front of `t`. */
  function DeclarationAt(t: string): nat {
    if StartsWith(t, "<?xml") then
      var n := NonQuestionRun(t[5..]);
      if n >= 1 && StartsWith(t[5 + n..], "?>") then 5 + n + 2 else 0
    else 0
  }

  predicate IsWordChar(ch: char) {
    ('a' <= ch <= 'z') || ('A' <= ch <= 'Z') || ('0' <= ch <= '9') || ch == '_'
  }

  function WordRun(t: string): (n: nat)
    ensures n <= |t|
    ensures forall j :: 0 <= j < n ==> IsWordChar(t[j])
    ensures n < |t| ==> !IsWordChar(t[n])
    decreases |t|
  {
    if |t| > 0 && IsWordChar(t[0]) then 1 + WordRun(t[1..]) else 0
  }

  /** Match length of `<!DOCTYPE \w+>` at the front of `t`. */
  function DoctypeAt(t: string): nat {
    if StartsWith(t, "<!DOCTYPE ") then
      var n := WordRun(t[10..]);
      if n >= 1 && StartsWith(t[10 + n..], ">") then 10 + n + 1 else 0
    else 0
  }

  /** PCRE's `\s`. */
  predicate IsSpaceChar(ch: char) {
    ch == ' ' || ch == '\t' || ch == '\n' || ch == '\r' || ch == '\U{000B}' || ch == '\U{000C}'
  }

  /** The text of the namespace pattern after `\s`; its two unescaped dots
      match any character except a newline. */
  const NamespaceHead: string := "xmlns=\"http://www"
  const NamespaceMid: string := "w3"
  const NamespaceTail: string := "org/1999/xhtml\""
  const NamespaceText: string := NamespaceHead + "." + NamespaceMid + "." + NamespaceTail

  /** Character `k` of the namespace pattern matches `t[1 + k]`. */
  predicate NamespaceCharMatches(t: string, k: nat) {
    k < |NamespaceText| && 1 + k < |t| &&
    if NamespaceText[k] == '.' then t[1 + k] != '\n' else t[1 + k] == NamespaceText[k]
  }

  /** Match length of `\sxmlns="http:\/\/www.w3.org\/1999\/xhtml"` at the front of `t`. */
  function NamespaceAt(t: string): nat {
    if |t| >= 1 + |NamespaceText| && IsSpaceChar(t[0])
      && forall k :: 0 <= k < |NamespaceText| ==> NamespaceCharMatches(t, k)
    then 1 + |NamespaceText| else 0
  }

  /** `Document::asFragment`: the three patterns applied one after the other, then `trim`. */
  function AsFragment(doc: string): string {
    Trim(RemoveAll(RemoveAll(RemoveAll(doc, DeclarationAt), DoctypeAt), NamespaceAt))
  }

  /** A pattern match at the front is dropped entirely. */
  lemma RemoveAllDropsMatch(x: string, rest: string, matchAt: string -> nat)
    requires |x| > 0 && matchAt(x + rest) == |x|
    ensures RemoveAll(x + rest, matchAt) == RemoveAll(rest, matchAt)
  {
    assert (x + rest)[|x|..] == rest;
  }

  /** Text where no match starts is copied unchanged in front of the rest. */
  lemma {:induction false} RemoveAllKeepsPrefix(a: string, rest: string, matchAt: string -> nat)
    requires forall i :: 0 <= i < |a| ==> matchAt(a[i..] + rest) == 0
    ensures RemoveAll(a + rest, matchAt) == a + RemoveAll(rest, matchAt)
    decreases |a|
  {
    if |a| == 0 {
      assert a + rest == rest;
    } else {
      assert a[0..] == a;
      assert matchAt(a + rest) == 0;
      assert (a + rest)[1..] == a[1..] + rest;
      forall i | 0 <= i < |a[1..]| ensures matchAt(a[1..][i..] + rest) == 0 {
        assert a[1..][i..] == a[i + 1..];
      }
      RemoveAllKeepsPrefix(a[1..], rest, matchAt);
      assert [a[0]] + a[1..] == a;
    }
  }

  /** A string in which no match starts anywhere is unchanged. */
  lemma RemoveAllNoMatch(s: string, matchAt: string -> nat)
    requires forall i :: 0 <= i < |s| ==> matchAt(s[i..]) == 0
    ensures RemoveAll(s, matchAt) == s
  {
    forall i | 0 <= i < |s| ensures matchAt(s[i..] + "") == 0 {
      assert s[i..] + "" == s[i..];
    }
    RemoveAllKeepsPrefix(s, "", matchAt);
    assert s + "" == s;
  }

  /** An XML declaration is stripped wherever it stands. */
  lemma DeclarationStripped(body: string, rest: string)
    requires |body| >= 1 && '?' !in body
    ensures RemoveAll("<?xml" + body + "?>" + rest, DeclarationAt) == RemoveAll(rest, DeclarationAt)
  {
    var x := "<?xml" + body + "?>";
    var t := x + rest;
    assert t[5..] == body + "?>" + rest;
    NonQuestionRunOver(body, "?>" + rest);
    assert t[5 + |body|..] == "?>" + rest;
    RemoveAllDropsMatch(x, rest, DeclarationAt);
  }

  lemma {:induction false} NonQuestionRunOver(body: string, rest: string)
    requires '?' !in body
    requires |rest| > 0 && rest[0] == '?'
    ensures NonQuestionRun(body + rest) == |body|
    decreases |body|
  {
    if |body| > 0 {
      assert (body + rest)[1..] == body[1..] + rest;
      assert '?' !in body[1..];
      NonQuestionRunOver(body[1..], rest);
    } else {
      assert body + rest == rest;
    }
  }

  lemma {:induction false} WordRunOver(name: string, rest: string)
    requires forall j :: 0 <= j < |name| ==> IsWordChar(name[j])
    requires |rest| > 0 && !IsWordChar(rest[0])
    ensures WordRun(name + rest) == |name|
    decreases |name|
  {
    if |name| > 0 {
      assert (name + rest)[1..] == name[1..] + rest;
      WordRunOver(name[1..], rest);
    } else {
      assert name + rest == rest;
    }
  }

  /** A `<!DOCTYPE name>` is stripped wherever it stands. */
  lemma DoctypeStripped(name: string, rest: string)
    requires |name| >= 1 && forall j :: 0 <= j < |name| ==> IsWordChar(name[j])
    ensures RemoveAll("<!DOCTYPE " + name + ">" + rest, DoctypeAt) == RemoveAll(rest, DoctypeAt)
  {
    var x := "<!DOCTYPE " + name + ">";
    var t := x + rest;
    assert t[10..] == name + (">" + rest);
    WordRunOver(name, ">" + rest);
    assert t[10 + |name|..] == ">" + rest;
    RemoveAllDropsMatch(x, rest, DoctypeAt);
  }

  /** The default XHTML namespace declaration (with the whitespace before it) is stripped. */
  lemma NamespaceStripped(ws: char, rest: string)
    requires IsSpaceChar(ws)
    ensures RemoveAll([ws] + NamespaceText + rest, NamespaceAt) == RemoveAll(rest, NamespaceAt)
  {
    var x := [ws] + NamespaceText;
    var t := x + rest;
    forall k | 0 <= k < |NamespaceText| ensures NamespaceCharMatches(t, k) {
      assert t[1 + k] == NamespaceText[k];
    }
    RemoveAllDropsMatch(x, rest, NamespaceAt);
  }

  /** Because the pattern's dots are unescaped, any two characters other
      than a newline may stand where the URL has its dots. */
  lemma NamespaceDotsMatchAnyCharacter(ws: char, c1: char, c2: char)
    requires IsSpaceChar(ws) && c1 != '\n' && c2 != '\n'
    ensures NamespaceAt([ws] + NamespaceHead + [c1] + NamespaceMid + [c2] + NamespaceTail) == 1 + |NamespaceText|
  {
    var t := [ws] + NamespaceHead + [c1] + NamespaceMid + [c2] + NamespaceTail;
    var h := |NamespaceHead|;
    var m := |NamespaceMid|;
    forall k | 0 <= k < |NamespaceText| ensures NamespaceCharMatches(t, k) {
      if k < h {
        assert t[1 + k] == NamespaceHead[k] == NamespaceText[k];
      } else if k == h {
        assert t[1 + k] == c1;
      } else if k < h + 1 + m {
        assert t[1 + k] == NamespaceMid[k - h - 1] == NamespaceText[k];
      } else if k == h + 1 + m {
        assert t[1 + k] == c2;
      } else {
        assert t[1 + k] == NamespaceTail[k - h - 2 - m] == NamespaceText[k];
      }
    }
  }

  // ---------------------------------------------------------------------
  // isNullOrEmpty and tidyView's void-element list

  /** `Document::isNullOrEmpty`: not set, or only whitespace after `trim`. */
  predicate IsNullOrEmpty(v: Option<string>) {
    v.None? || Trim(v.value) == ""
  }

  /** A set value is "null or empty" exactly when all its characters are trimmed away. */
  lemma IsNullOrEmptyIff(s: string)
    ensures IsNullOrEmpty(Some(s)) <==> forall k :: 0 <= k < |s| ==> IsTrimChar(s[k])
  {
    TrimEmptyIff(s);
  }

  /** The literal string tidyView searches with XPath `contains`, in four pieces. */
  const VoidList1: string := "[area|base|br|col|"
  const VoidList2: string := "hr|img|input|link|"
  const VoidList3: string := "meta|param|command|"
  const VoidList4: string := "keygen|source]"
  const VoidList: string := VoidList1 + VoidList2 + VoidList3 + VoidList4

  /** XPath `local-name()`: the part of a qualified name after its prefix. */
  function LocalName(qname: string): (r: string)
    ensures ':' in qname ==> r == qname[IndexOfColon(qname) + 1..]
    ensures ':' !in qname ==> r == qname
  {
    if ':' in qname then qname[IndexOfColon(qname) + 1..] else qname
  }

  function IndexOfColon(s: string): (i: nat)
    requires ':' in s
    ensures i < |s| && s[i] == ':' && ':' !in s[..i]
  {
    if s[0] == ':' then 0 else
      assert ':' in s[1..] by { var j :| 0 <= j < |s| && s[j] == ':'; assert s[1..][j - 1] == ':'; }
      var i := 1 + IndexOfColon(s[1..]);
      assert s[..i] == [s[0]] + s[1..][..i - 1];
      i
  }

  /** An element with this local name is left self-closed by tidyView:
      its name is a SUBSTRING of the bracketed list, not necessarily an item of it. */
  predicate IsVoidName(local: string) {
    Contains(VoidList, local)
  }

  lemma OccursInPiece(a: string, piece: string, b: string, s: string, j: nat)
    requires OccursAt(piece, s, j)
    ensures OccursAt(a + piece + b, s, |a| + j)
  {
    var t := a + piece + b;
    assert t[|a| + j..|a| + j + |s|] == piece[j..j + |s|];
  }

  /** A name found in one piece of the bracketed list is void. */
  lemma VoidInFirst(name: string, j: nat)
    requires OccursAt(VoidList1, name, j)
    ensures IsVoidName(name)
  {
    OccursInPiece([], VoidList1, VoidList2 + VoidList3 + VoidList4, name, j);
    assert [] + VoidList1 + (VoidList2 + VoidList3 + VoidList4) == VoidList;
  }

  lemma VoidInSecond(name: string, j: nat)
    requires OccursAt(VoidList2, name, j)
    ensures IsVoidName(name)
  {
    OccursInPiece(VoidList1, VoidList2, VoidList3 + VoidList4, name, j);
    assert VoidList1 + VoidList2 + (VoidList3 + VoidList4) == VoidList;
  }

  lemma VoidInFourth(name: string, j: nat)
    requires OccursAt(VoidList4, name, j)
    ensures IsVoidName(name)
  {
    OccursInPiece(VoidList1 + VoidList2 + VoidList3, VoidList4, [], name, j);
    assert VoidList1 + VoidList2 + VoidList3 + VoidList4 + [] == VoidList;
  }

  /** The listed names are void, and so are single letters such as `a`,
      `b`, `p` and `i`, which only occur inside listed names. */
  lemma VoidNames()
    ensures IsVoidName("br") && IsVoidName("img") && IsVoidName("source")
    ensures IsVoidName("a") && IsVoidName("b") && IsVoidName("p") && IsVoidName("i")
  {
    VoidListedNames();
    VoidLetters();
  }

  lemma VoidListedNames()
    ensures IsVoidName("br") && IsVoidName("img") && IsVoidName("source")
  {
    assert VoidList1[11..13] == "br" by { assert VoidList1[11] == 'b' && VoidList1[12] == 'r'; }
    VoidInFirst("br", 11);
    assert VoidList2[3..6] == "img" by { assert VoidList2[3] == 'i' && VoidList2[4] == 'm' && VoidList2[5] == 'g'; }
    VoidInSecond("img", 3);
    assert VoidList4[7..13] == "source" by {
      assert VoidList4[7] == 's' && VoidList4[8] == 'o' && VoidList4[9] == 'u';
      assert VoidList4[10] == 'r' && VoidList4[11] == 'c' && VoidList4[12] == 'e';
    }
    VoidInFourth("source", 7);
  }

  lemma VoidLetters()
    ensures IsVoidName("a") && IsVoidName("b") && IsVoidName("p") && IsVoidName("i")
  {
    assert VoidList1[1..2] == "a" by { assert VoidList1[1] == 'a'; }
    VoidInFirst("a", 1);
    assert VoidList1[6..7] == "b" by { assert VoidList1[6] == 'b'; }
    VoidInFirst("b", 6);
    assert VoidList2[3..4] == "i" by { assert VoidList2[3] == 'i'; }
    VoidInSecond("i", 3);
    assert VoidList2[9..10] == "p" by { assert VoidList2[9] == 'p'; }
    VoidInSecond("p", 9);
  }

  /** A name with a character the list lacks is never void. */
  lemma NotVoidIfForeignChar(local: string, ch: char)
    requires ch in local && ch !in VoidList
    ensures !IsVoidName(local)
  {
    forall i | 0 <= i <= |VoidList| - |local| ensures !OccursAt(VoidList, local, i) {
      var j :| 0 <= j < |local| && local[j] == ch;
      assert VoidList[i..i + |local|][j] == VoidList[i + j];
    }
  }

  /** A character missing from every piece of the list is missing from the list. */
  lemma ForeignToList(ch: char)
    requires ch !in VoidList1 && ch !in VoidList2 && ch !in VoidList3 && ch !in VoidList4
    ensures ch !in VoidList
  {
  }

  /** Ordinary container elements such as `div` and `textarea` are not void,
      so tidyView gives them an explicit closing tag. */
  lemma ContainersAreNotVoid()
    ensures !IsVoidName("div") && !IsVoidName("textarea")
  {
    NoVInList();
    NoXInList();
    assert "div"[2] == 'v';
    assert "textarea"[2] == 'x';
    NotVoidIfForeignChar("div", 'v');
    NotVoidIfForeignChar("textarea", 'x');
  }

  lemma NoVInList()
    ensures 'v' !in VoidList
  {
    assert 'v' !in VoidList1 && 'v' !in VoidList2;
    assert 'v' !in VoidList3 && 'v' !in VoidList4;
    ForeignToList('v');
  }

  lemma NoXInList()
    ensures 'x' !in VoidList
  {
    assert 'x' !in VoidList1 && 'x' !in VoidList2;
    assert 'x' !in VoidList3 && 'x' !in VoidList4;
    ForeignToList('x');
  }

}
