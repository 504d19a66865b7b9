/** The string side of a `Document::set` path: the trailing gap step that
    selects the edit mode, the trailing `/@name` attribute step, and the few
    XPath shapes the compiler builds and the model evaluates itself. */
module Paths {
  import opened Strings
  import opened Values

  /** `GAP_NONE`, `GAP_FOLLOWING`, `GAP_PRECEDING`, `GAP_CHILD`, `GAP_DATA`. */
  datatype Gap = GapNone | GapFollowing | GapPreceding | GapChild | GapData

  /** Split the gap step off a path: `…/child-gap()`, `…/preceding-gap()`,
      `…/following-gap()`, `…/data()`. Any other `…-gap()` ending is cut
      off but leaves the mode at `GapNone`. */
  function ParseGap(xpath: string): (r: (string, Gap)) {
    if EndsWith(xpath, "-gap()") then
      var p := xpath[..|xpath| - 6];
      if EndsWith(p, "/child") then (p[..|p| - 6], GapChild)
      else if EndsWith(p, "/preceding") then (p[..|p| - 10], GapPreceding)
      else if EndsWith(p, "/following") then (p[..|p| - 10], GapFollowing)
      else (p, GapNone)
    else if EndsWith(xpath, "/data()") then (xpath[..|xpath| - 7], GapData)
    else (xpath, GapNone)
  }

  /** The path ending that selects each mode. */
  function GapSuffix(g: Gap): string {
    match g
    case GapNone => ""
    case GapChild => "/child-gap()"
    case GapPreceding => "/preceding-gap()"
    case GapFollowing => "/following-gap()"
    case GapData => "/data()"
  }

  lemma EndsWithConcat(p: string, s: string)
    ensures EndsWith(p + s, s)
    ensures (p + s)[..|p + s| - |s|] == p
  {
    assert (p + s)[|p + s| - |s|..] == s;
  }

  /** Writing a mode's ending after a path and parsing gives both back. */
  lemma ParseGapSuffix(p: string, g: Gap)
    requires g != GapNone
    ensures ParseGap(p + GapSuffix(g)) == (p, g)
  {
    var x := p + GapSuffix(g);
    EndsWithConcat(p, GapSuffix(g));
    match g
    case GapChild =>
      assert x == (p + "/child") + "-gap()";
      EndsWithConcat(p + "/child", "-gap()");
      EndsWithConcat(p, "/child");
    case GapPreceding =>
      assert x == (p + "/preceding") + "-gap()";
      EndsWithConcat(p + "/preceding", "-gap()");
      EndsWithConcat(p, "/preceding");
      assert (p + "/preceding")[|p| + 4..] == "ceding";
    case GapFollowing =>
      assert x == (p + "/following") + "-gap()";
      EndsWithConcat(p + "/following", "-gap()");
      EndsWithConcat(p, "/following");
      assert (p + "/following")[|p| + 4..] == "lowing";
      assert (p + "/following")[|p|..] == "/following";
    case GapData =>
      assert x[|x| - 6..] == "data()";
  }

  /** A mode other than `GapNone` comes only from its own ending, so the
      path is the stripped path followed by that ending. */
  lemma ParseGapInverse(xpath: string)
    ensures ParseGap(xpath).1 != GapNone ==> xpath == ParseGap(xpath).0 + GapSuffix(ParseGap(xpath).1)
    ensures ParseGap(xpath).1 == GapNone ==>
      ParseGap(xpath).0 == xpath || xpath == ParseGap(xpath).0 + "-gap()"
  {
    if EndsWith(xpath, "-gap()") {
      var q := xpath[..|xpath| - 6];
      assert xpath == q + "-gap()";
      if EndsWith(q, "/child") {
        assert q == q[..|q| - 6] + "/child";
        assert xpath == q[..|q| - 6] + "/child-gap()";
      } else if EndsWith(q, "/preceding") {
        assert q == q[..|q| - 10] + "/preceding";
        assert xpath == q[..|q| - 10] + "/preceding-gap()";
      } else if EndsWith(q, "/following") {
        assert q == q[..|q| - 10] + "/following";
        assert xpath == q[..|q| - 10] + "/following-gap()";
      }
    } else if EndsWith(xpath, "/data()") {
      assert xpath == xpath[..|xpath| - 7] + "/data()";
    }
  }

  /** An unknown `-gap()` step is removed and the mode stays `GapNone`. */
  lemma ParseUnknownGap(p: string)
    requires !EndsWith(p, "/child") && !EndsWith(p, "/preceding") && !EndsWith(p, "/following")
    ensures ParseGap(p + "-gap()") == (p, GapNone)
  {
    EndsWithConcat(p, "-gap()");
  }

  /** A path without either kind of step is returned as it is. */
  lemma ParseNoGap(p: string)
    requires !EndsWith(p, "-gap()") && !EndsWith(p, "/data()")
    ensures ParseGap(p) == (p, GapNone)
  {
  }

  // ---------------------------------------------------------------------
  // the trailing attribute step

  /** The last position where `t` occurs in `s` (PHP `mb_strrpos`). */
  function LastIndexOf(s: string, t: string): (r: Option<nat>)
    ensures r.Some? ==> OccursAt(s, t, r.value)
    ensures r.Some? ==> forall j :: r.value < j <= |s| - |t| ==> !OccursAt(s, t, j)
    ensures r.None? ==> forall j :: 0 <= j <= |s| - |t| ==> !OccursAt(s, t, j)
  {
    if |t| > |s| then None else LastFrom(s, t, |s| - |t|)
  }

  function LastFrom(s: string, t: string, k: nat): (r: Option<nat>)
    requires k <= |s| - |t|
    ensures r.Some? ==> r.value <= k && OccursAt(s, t, r.value)
    ensures r.Some? ==> forall j :: r.value < j <= k ==> !OccursAt(s, t, j)
    ensures r.None? ==> forall j :: 0 <= j <= k ==> !OccursAt(s, t, j)
    decreases k
  {
    if s[k..k + |t|] == t then Some(k)
    else if k == 0 then None
    else LastFrom(s, t, k - 1)
  }

  /** The attribute name after the last `/@`, and the path with that step
      removed when the name is valid. The name is reported even when it is
      not valid, in which case the path is kept whole. */
  function SplitAttributeStep(xpath: string, validName: string -> bool): (r: (string, Option<string>)) {
    match LastIndexOf(xpath, "/@")
    case None => (xpath, None)
    case Some(i) =>
      var name := xpath[i + 2..];
      if validName(name) then (xpath[..i], Some(name)) else (xpath, Some(name))
  }

  /** A trailing `/@name` step is split off exactly. */
  lemma SplitAttributeStepRoundTrip(p: string, name: string, validName: string -> bool)
    requires '/' !in name && validName(name)
    ensures SplitAttributeStep(p + "/@" + name, validName) == (p, Some(name))
  {
    var x := p + "/@" + name;
    assert OccursAt(x, "/@", |p|);
    forall j | |p| < j <= |x| - 2 ensures !OccursAt(x, "/@", j) {
      assert x[j..j + 2][0] == x[j];
      if j == |p| + 1 {
        assert x[j] == '@';
      } else {
        assert x[j] == name[j - |p| - 2];
      }
    }
    var r := LastIndexOf(x, "/@");
    assert r == Some(|p|);
    assert x[|p| + 2..] == name;
    assert x[..|p|] == p;
  }

  /** When the name is valid the path was exactly the stripped path plus the step;
      when there is no step the path is untouched. */
  lemma SplitAttributeStepInverse(xpath: string, validName: string -> bool)
    ensures var r := SplitAttributeStep(xpath, validName);
      (r.1.Some? && validName(r.1.value) ==> xpath == r.0 + "/@" + r.1.value)
      && (r.1.Some? && !validName(r.1.value) ==> r.0 == xpath)
      && (r.1.None? ==> r.0 == xpath && !Contains(xpath, "/@"))
  {
    match LastIndexOf(xpath, "/@")
    case None =>
    case Some(i) =>
      assert xpath == xpath[..i] + "/@" + xpath[i + 2..];
  }

  // ---------------------------------------------------------------------
  // the paths the compiler builds

  const Prefix: string := "data-v."
  /** The attribute that names a content section of a container. */
  const SectionAttr: string := "data-v.section"

  const SelfPath: string := "."
  const FirstChildPath: string := "./*[1]"
  /** `removeAttributesFromNode`: the node's prefixed attributes except `data-v.section`. */
  const StripPath: string := "./@*" + "[starts-with(name(),'data-v.') and name() != 'data-v.section' ]"
  /** `tidy`: every prefixed attribute of every element. */
  const TidyPath: string := "//*/@*" + "[starts-with(name(),'data-v.')]"
  /** `getAllTokenNodes`: every element that has a prefixed attribute. */
  const TokenNodesPath: string := "//*[@*" + "[starts-with(name(),'data-v.')]]"
  const SectionPathHead: string := "//*[@data-v.section='"
  const SectionPathTail: string := "']"

  function AttrPath(name: string): string { "./@" + name }
  function SectionPath(section: string): string { SectionPathHead + section + SectionPathTail }
  // `getNodesByToken`, and the contents query of `renderChildren`.
  function HasAttrPath(name: string): string { "//*[@" + name + "]" }
  // An attribute of the document element, as `loadViewController` asks for.
  function RootAttrPath(name: string): string { "/*/@" + name }

  predicate IsNameChar(ch: char) {
    ('a' <= ch <= 'z') || ('A' <= ch <= 'Z') || ('0' <= ch <= '9') || ch == '.' || ch == '-' || ch == '_' || ch == ':'
  }

  /** A plain XPath name test: a letter or `_`, then name characters. */
  predicate SimpleName(n: string) {
    |n| > 0 && (('a' <= n[0] <= 'z') || ('A' <= n[0] <= 'Z') || n[0] == '_')
    && forall k :: 0 <= k < |n| ==> IsNameChar(n[k])
  }

  /** The XPath shapes the model evaluates itself; everything else is `Other`. */
  datatype Shape =
    | SelfNode
    | FirstChildElement
    | OwnAttr(name: string)
    | OwnPrefixedButSection
    | AllPrefixedAttrs
    | ElementsWithPrefixedAttr
    | ElementsWithAttr(name: string)
    | ElementsWithSection(section: string)
    | RootAttr(name: string)
    | Other

  function Middle(s: string, head: string, tail: string): string
    requires |head| + |tail| <= |s|
  {
    s[|head|..|s| - |tail|]
  }

  function Classify(path: string): (r: Shape) {
    if path == SelfPath then SelfNode
    else if path == FirstChildPath then FirstChildElement
    else if path == StripPath then OwnPrefixedButSection
    else if path == TidyPath then AllPrefixedAttrs
    else if path == TokenNodesPath then ElementsWithPrefixedAttr
    else if StartsWith(path, "./@") && SimpleName(path[3..]) then OwnAttr(path[3..])
    else if StartsWith(path, "/*/@") && SimpleName(path[4..]) then RootAttr(path[4..])
    else if |path| >= |SectionPathHead| + |SectionPathTail| && StartsWith(path, SectionPathHead)
      && EndsWith(path, SectionPathTail) && '\'' !in Middle(path, SectionPathHead, SectionPathTail)
    then ElementsWithSection(Middle(path, SectionPathHead, SectionPathTail))
    else if |path| >= 6 && StartsWith(path, "//*[@") && EndsWith(path, "]") && SimpleName(path[5..|path| - 1])
    then ElementsWithAttr(path[5..|path| - 1])
    else Other
  }

  lemma SimpleNameChars(n: string)
    requires SimpleName(n)
    ensures '[' !in n && '/' !in n && '*' !in n && '\'' !in n && '@' !in n && ']' !in n
  {
  }

  lemma PathPrefixes()
    ensures StripPath[..4] == "./@*" && TidyPath[..6] == "//*/@*" && TokenNodesPath[..6] == "//*[@*"
  {
  }

  lemma LastChar(p: string, t: string)
    requires EndsWith(p, t) && |t| > 0
    ensures p[|p| - 1] == t[|t| - 1]
  {
    assert p[|p| - |t|..][|t| - 1] == p[|p| - 1];
  }

  /** None of the fixed queries ends in a gap or data step. */
  lemma FixedPathsNoGap()
    ensures ParseGap(StripPath) == (StripPath, GapNone)
    ensures ParseGap(TidyPath) == (TidyPath, GapNone)
    ensures ParseGap(FirstChildPath) == (FirstChildPath, GapNone)
  {
    assert "-gap()"[5] == ')' && "/data()"[6] == ')';
    assert StripPath[|StripPath| - 1] == ']';
    assert TidyPath[|TidyPath| - 1] == ']';
    assert FirstChildPath[|FirstChildPath| - 1] == ']';
    if EndsWith(StripPath, "-gap()") { LastChar(StripPath, "-gap()"); }
    if EndsWith(StripPath, "/data()") { LastChar(StripPath, "/data()"); }
    if EndsWith(TidyPath, "-gap()") { LastChar(TidyPath, "-gap()"); }
    if EndsWith(TidyPath, "/data()") { LastChar(TidyPath, "/data()"); }
    if EndsWith(FirstChildPath, "-gap()") { LastChar(FirstChildPath, "-gap()"); }
    if EndsWith(FirstChildPath, "/data()") { LastChar(FirstChildPath, "/data()"); }
  }

  /** `./@name` is recognised as the node's attribute `name`. */
  lemma ClassifyAttrPath(name: string)
    requires SimpleName(name)
    ensures Classify(AttrPath(name)) == OwnAttr(name)
  {
    PathPrefixes();
    var a := AttrPath(name);
    assert a[3..] == name;
    assert a != SelfPath && a != FirstChildPath;
    assert a != StripPath by { assert a[3] == name[0]; assert StripPath[3] == "./@*"[3]; }
    assert a != TidyPath by { assert TidyPath[0] == '/'; }
    assert a != TokenNodesPath by { assert TokenNodesPath[0] == '/'; }
  }

  // The root-attribute path is recognised as the document element's attribute `name`.
  lemma ClassifyRootAttrPath(name: string)
    requires SimpleName(name)
    ensures Classify(RootAttrPath(name)) == RootAttr(name)
  {
    PathPrefixes();
    var ra := RootAttrPath(name);
    assert ra[4..] == name;
    assert ra[..3] == "/*/";
    assert !StartsWith(ra, "./@");
    assert ra != TidyPath by { assert TidyPath[1] == '/'; assert ra[1] == '*'; }
    assert ra != TokenNodesPath by { assert TokenNodesPath[1] == '/'; assert ra[1] == '*'; }
    assert ra != StripPath by { assert StripPath[0] == '.'; }
  }

  // The has-attribute path is recognised as the elements carrying attribute `name`.
  lemma ClassifyHasAttrPath(name: string)
    requires SimpleName(name)
    ensures Classify(HasAttrPath(name)) == ElementsWithAttr(name)
  {
    PathPrefixes();
    SimpleNameChars(name);
    var h := HasAttrPath(name);
    assert h[5..|h| - 1] == name;
    assert h[..5] == "//*[@";
    assert !StartsWith(h, "./@") by { assert h[0] == '/'; }
    assert !StartsWith(h, "/*/@") by { assert h[1] == '/'; }
    assert h != TidyPath by { assert TidyPath[3] == '/'; assert h[3] == '['; }
    assert h != TokenNodesPath by { assert TokenNodesPath[5] == '*'; assert h[5] == name[0]; }
    assert h != StripPath by { assert StripPath[0] == '.'; }
    assert h != SelfPath && h != FirstChildPath;
    assert |SectionPathHead| == 21 && SectionPathHead[20] == '\'';
    if |h| >= 21 {
      if |name| > 15 {
        assert h[20] == name[15];
      } else {
        assert h[20] == ']';
      }
    }
  }

  /** The section query of `getSectionFromDocument` is recognised with its section name. */
  lemma ClassifySectionPath(section: string)
    requires '\'' !in section
    ensures Classify(SectionPath(section)) == ElementsWithSection(section)
  {
    PathPrefixes();
    var s := SectionPath(section);
    assert s[..|SectionPathHead|] == SectionPathHead;
    assert s[|s| - 2..] == SectionPathTail;
    assert Middle(s, SectionPathHead, SectionPathTail) == section;
    assert !StartsWith(s, "./@") by { assert s[0] == '/'; }
    assert !StartsWith(s, "/*/@") by { assert s[1] == '/'; }
    assert s != TidyPath by { assert TidyPath[3] == '/'; assert s[3] == '['; }
    assert s != TokenNodesPath by { assert TokenNodesPath[5] == '*'; assert s[5] == 'd'; }
    assert s != StripPath by { assert StripPath[0] == '.'; }
    assert s != SelfPath && s != FirstChildPath;
  }
}
