# NView template compiler — a Dafny model

NView is a Laravel view engine whose templates are XML/XHTML documents.
Directives are attributes prefixed `data-v.`: `data-v.foreach`,
`data-v.exists`, `data-v.attr.href`, `data-v.include`, `data-v.container`
and so on. Compiling a view walks the document, runs the handler each
directive names, and removes the directive attributes afterwards, so that
what comes out is plain markup.

This project models four parts:

- **The document layer** (`Document`). It lets the compiler read and edit
  a DOM through XPath-like paths: `set`, `get`, `consume`, `count`, the
  gap modes (`-gap()` and `/data()` suffixes), attribute escaping,
  `asFragment` and `tidyView`.
- **The directive compiler of the view class** (`View`):
  - the scan over every element that carries a prefixed attribute;
  - the per-element list of handlers in attribute order;
  - each handler's effect on the tree;
  - `foreach` rendering, and containers filled from a child document's
    sections;
  - parameter lookup (`getValue`);
  - the final tidy.
- **The factory** (`Factory`):
  - extension-to-engine lookup, and the routing of `make` between the
    file finder and inline markup;
  - shared data;
  - the cache of parsed documents that every view gets a fresh copy of.
- **The older compiler** (`NViewCompiler`): flattened dotted data, the
  token scan, and a fixed table of five compilers run in table order.

## Modules

| Module | File | Contents |
|---|---|---|
| `Strings` | `strings.dfy` | PHP string helpers: `explode`/`implode`, `trim`, `studly_case`, decimal rendering |
| `Values` | `values.dfy` | PHP values: ordered arrays, objects and scalars; `data_get`; loose `==`; numeric keys |
| `Markup` | `markup.dfy` | `xmlenc`, `asFragment`, `isNullOrEmpty`, `tidyView`'s void-element list |
| `Paths` | `paths.dfy` | Gap suffixes, the trailing `/@name` step, and the fixed query shapes the compiler uses |
| `Dom` | `store.dfy` | The node store: ids, child lists, parent links, attributes, placement, document order, `deleteDescendants` |
| `Doc` | `document.dfy` | Specification functions of `set`/`get`/`consume`/`count`/`tidyView`, and `class Document`, whose methods are proved against them |
| `Directives` | `directives.dfy` | The directive table, `getCompilers`, `getValue`, placeholder substitution, boolean filter, controller class names |
| `ViewModel` | `view.dfy` | Specification of every handler, of one element's turn, of the scan, of `renderChildren` and of tidying, with the lemmas about them |
| `Views` | `views.dfy` | `class View`: methods that edit the document in place, each proved against its `ViewModel` function |
| `FactoryModel` | `factory.dfy` | Extensions, `make` routing, shared data, and `class Factory` with its document cache |
| `Legacy` | `legacy.dfy` | `NViewCompiler`: `array_dot`, `getValue`, the token scan, the compiler table, and `class LegacyCompiler` |

## How the model is built

- **Document state.** A document's state (`Doc.DocState`) has four parts:
  - a node store;
  - the `errs` log that `doMsg` appends to;
  - the `loaded` flag (whether `$doc` is set);
  - a `fault`: a PHP fatal error or uncaught exception, after which
    nothing further happens.

  Each `Document` method is proved to produce the state that its
  specification function computes. The lemmas state what those functions
  mean.
- **Parsing.** libxml parsing of markup fragments is a function parameter
  of the document's environment (`Doc.Env`), and so is `validName`.
  Queries fall into two groups:
  - the queries the compiler issues are modelled exactly: `.`, `./*[1]`,
    `./@name`, the prefixed-attribute scans and the section query;
  - any other path is resolved by an environment function.
- **PHP version.** The model follows PHP 7. While `set` has installed
  `doMsg` as the error handler, a warning (a built-in given an object
  where it expects a string) and the recoverable error of converting a
  node to a string are logged, and execution goes on; the failed
  conversion gives `""`.
- **Outside services.** The gate, the authentication guard, the
  translator, URL generation and the compilation of nested views are
  fields of `ViewModel.Services`; their results are inputs to the model.

## Model

| member | source | states |
|---|---|---|
| Strings.SplitPiecesExcludeSeparator | src/View.php:864-873 | No piece that `explode` returns contains the separator |
| Strings.JoinSplit | src/View.php:944-957 | `implode` of the `explode` pieces with the same separator gives the string back |
| Strings.SplitJoin | src/View.php:1010-1014 | `explode` of an `implode` of separator-free pieces gives the pieces back |
| Strings.SplitConcat | src/View.php:864-873 | Splitting at a separator splits the two sides independently |
| Strings.SplitNoSeparator | src/View.php:878-879 | A parameter without a separator is a single piece |
| Strings.TrimIsInfix | src/Document.php:669-671 | `trim` keeps exactly the part of the string between two runs of trim characters |
| Strings.TrimEmptyIff | src/Document.php:669-671 | The trimmed string is empty exactly when every character is a trim character |
| Strings.StudlyHasNoSeparators | src/View.php:944-949 | A `studly_case` name contains no space, dash or underscore |
| Strings.UcWordsKeepsOtherChars | src/View.php:946-948 | Upper-casing word starts changes only letters, at word starts |
| Values.Lookup | src/View.php:873-882 | The value under a key is the first entry with that key, if any |
| Values.PutLookup | src/View.php:873-882 | After `$result[$k] = v`, `k` holds `v` and every other key keeps its value |
| Values.PutAbsent | src/View.php:873-882 | A key not yet present is appended at the end, in PHP array order |
| Values.DataGetAppend | src/View.php:879-881 | `data_get` along `a + b` is `data_get` along `b`, starting from where `a` leads, when `a` has no `*` |
| Values.WildcardGivesList | src/View.php:879-881 | A `data_get` path with a `*` gives null or a list, so `Arr::collapse` only joins lists |
| Values.WildcardMaps | src/View.php:879-881 | `*` followed by a plain path lists that path's value in every item of an array, in order |
| Values.WildcardExample | src/View.php:879-881 | `*.name` over two named items gives the list of both names |
| Values.WildcardCollapses | src/View.php:879-881 | `*.*` over a list of lists runs the inner lists together |
| Values.WildcardPathExample | src/View.php:895-897 | `items.*.name` reads every item's name, which is not null, so `exists` keeps its node |
| Values.DataGetOfNull | src/View.php:879-881 | `data_get` through null is null, whatever the remaining segments |
| Values.DataGetPathSimple | src/View.php:895-897 | A path without dots reads the top-level variable itself, null when it is absent |
| Values.LooseEqSymmetric | src/View.php:496-501 | PHP 7 loose `==`, as `matching` uses it, does not depend on operand order, for values whose arrays have unique keys as PHP arrays do |
| Values.LooseEqReflexive | src/View.php:496-501 | Every value is loosely equal to itself, arrays included |
| Values.LooseEqFlip | src/View.php:496-501 | If `a == b` holds for well-formed values then `b == a` holds |
| Values.KeysCovered | src/View.php:496-501 | Two arrays with equally many distinct keys, each key of one found in the other, have the same keys, so the unordered array comparison can be read both ways |
| Values.ArrayOrderIgnored | src/View.php:496-501 | Array `==` compares entries by key, not by position: `["a"=>1,"b"=>2] == ["b"=>2,"a"=>1]` |
| Values.DecimalStringsEqual | src/View.php:496-501 | Two numeric strings compare as numbers: `"10" == "10.00"` |
| Values.IntAgainstFraction | src/View.php:496-501 | An integer compared with a string compares with its number, fraction included: `1 == "1.5"` is false |
| Values.IntAgainstExponent | src/View.php:496-501 | A numeric string may carry an exponent: `1000 == "1e3"` |
| Values.ZeroAgainstWord | src/View.php:496-501 | A string without a leading number counts as 0 against an integer: `0 == "abc"` |
| Values.NumeralAfterBlank | src/View.php:496-501 | Leading whitespace before a number is skipped and counted in the numeral's length |
| Values.LeadingBlankIgnored | src/View.php:496-501 | A numeric string stays numeric, and equal to itself without the blank, when whitespace is put in front |
| Values.IntStringLooseEq | src/View.php:496-501 | An integer equals its own decimal text under `==` |
| Values.DigitsNumeral | src/View.php:496-501 | A run of digits is a numeral of its decimal value spanning the whole string |
| Values.NatToStringValue | src/View.php:878-885 | The positional keys `0, 1, …` read back as the integers they render |
| Values.NatToStringCanonical | src/View.php:878-885 | Distinct positions give distinct canonical keys |
| Values.Zip | src/View.php:706-717 | `foreach` pairs each key (integer keys as integers) with its value, in order |
| Markup.XmlencNoAmpersand | src/Document.php:650-652 | Text without `&` is not changed by escaping |
| Markup.XmlencEntityKept | src/Document.php:650-652 | An `&` that begins an entity of 1 to 7 word characters or `#`, followed by `;`, is kept |
| Markup.XmlencIdempotent | src/Document.php:650-652 | Escaping twice is the same as escaping once |
| Markup.XmlencExample | src/Document.php:650-652 | A bare ampersand becomes `&amp;` and an existing `&amp;` stays |
| Markup.RemoveAllNoMatch | src/Document.php:102-108 | A pattern that matches nowhere leaves the text unchanged |
| Markup.DeclarationStripped | src/Document.php:102-108 | An `<?xml …?>` declaration is removed wherever it stands |
| Markup.DoctypeStripped | src/Document.php:102-108 | A `<!DOCTYPE name>` is removed wherever it stands |
| Markup.NamespaceStripped | src/Document.php:102-108 | The default XHTML namespace declaration and the whitespace before it are removed |
| Markup.NamespaceDotsMatchAnyCharacter | src/Document.php:105 | The unescaped dots of the namespace pattern match any character except a newline |
| Markup.IsNullOrEmptyIff | src/Document.php:669-671 | A set value counts as null-or-empty exactly when all its characters are whitespace |
| Markup.VoidNames | src/Document.php:657-666 | The `contains` test treats the listed names as void, and also single letters such as `a`, `b`, `p`, `i` |
| Markup.NotVoidIfForeignChar | src/Document.php:657-666 | A name with a character that does not occur in the list string is never void |
| Markup.ContainersAreNotVoid | src/Document.php:657-666 | `div` and `textarea` are not void, so they are padded with an empty text child |
| Paths.ParseGap | src/Document.php:259-275 | The gap suffix is removed and the path is what remains in front of it |
| Paths.ParseGapSuffix | src/Document.php:259-275 | A path followed by a mode's suffix parses back to that path and mode |
| Paths.ParseGapInverse | src/Document.php:259-275 | Writing the parsed mode's suffix after the parsed path gives back the input, or an unknown `-gap()` step was dropped |
| Paths.ParseUnknownGap | src/Document.php:260-271 | An unknown `-gap()` step is removed and the mode stays `GAP_NONE` |
| Paths.ParseNoGap | src/Document.php:259-275 | A path without a gap or `/data()` step is returned as it is |
| Paths.LastIndexOf | src/Document.php:314 | `mb_strrpos`: the last occurrence, with nothing after it |
| Paths.SplitAttributeStepRoundTrip | src/Document.php:313-320 | A trailing `/@name` with a valid name is split off exactly |
| Paths.SplitAttributeStepInverse | src/Document.php:313-320 | The split parts rebuild the path; an invalid name leaves the path whole |
| Paths.ClassifyAttrPath | src/View.php:825-827 | `./@name` is recognised as the node's own attribute `name` |
| Paths.ClassifyRootAttrPath | src/View.php:910 | `/*/@name` is recognised as an attribute of the document element |
| Paths.ClassifyHasAttrPath | src/NViewCompiler.php:271-274 | `//*[@name]` is recognised as the elements carrying `name` |
| Paths.ClassifySectionPath | src/View.php:791 | The section query is recognised along with its section name |
| Paths.FixedPathsNoGap | src/View.php:806-817 | None of the compiler's fixed queries ends in a gap or data step |
| Dom.EmptyDocument | src/Document.php:533-537 | `initDoc`: a store with only the document node, and with valid and consistent links |
| Dom.SetAttrIn | src/Document.php:452 | `setAttribute`: the name holds the new value and every other attribute is unchanged |
| Dom.RemoveAttrIn | src/Document.php:288 | `removeAttribute`: only that name disappears; the rest stay in order |
| Dom.RemoveChildLinked | src/Document.php:294 | `removeChild` keeps child lists and parent links in agreement |
| Dom.RemoveChildConsistent | src/Document.php:294 | `removeChild` keeps the links consistent in both directions, and detaches the child |
| Dom.ParentlessIsDetached | src/View.php:985-987 | In a consistent store, a node without a parent is in no child list |
| Dom.ReplaceChildPlaces | src/Document.php:475 | `replaceChild`: the new nodes take the old child's position |
| Dom.InsertBeforePlaces | src/Document.php:479 | `insertBefore`: the new nodes go right before the reference node |
| Dom.InsertAfterPlaces | src/Document.php:482-487 | Following gap: the new nodes go after the reference node, or last when it has no next sibling |
| Dom.AppendChildrenPlaces | src/Document.php:491 | `appendChild`: the new nodes are placed after the existing children |
| Dom.PreorderInStore | src/Document.php:659-660 | Document order lists only nodes of the store |
| Dom.Elements | src/View.php:981-983 | Document order restricted to elements |
| Dom.DocumentElement | src/Document.php:342 | `documentElement` is the first element child of the document node |
| Dom.AddForestKeeps | src/Document.php:443-444 | `importNode` in a valid store keeps every existing node record, and the next fresh id is unused |
| Dom.ShrinksKeepsDetached | src/View.php:747-752 | A node outside the tree stays outside while children are only being removed |
| Dom.DeleteDescendants | src/View.php:747-752 | `deleteDescendants` leaves the node without children and only ever removes children |
| Dom.DeleteDescendantsStep | src/View.php:748-751 | One round of the loop: delete below the first child, then remove that child |
| Dom.DeleteDescendantsRound | src/View.php:748-751 | A round strictly shortens the node's child list and leaves the final result of `deleteDescendants` unchanged, so the loop ends where the recursion does |
| Doc.DoMsgSpec | src/Document.php:695-697 | The log gains the message followed by `"; "` |
| Doc.GapEdit | src/Document.php:350-365 | String edits per mode: replace, prepend, or append |
| Doc.PrefixedAttrs | src/View.php:815-817 | Only prefixed attributes are selected, all of them, with `section` excepted when asked |
| Doc.WithAttr | src/NViewCompiler.php:271-274 | The selected elements are exactly those that carry the attribute |
| Doc.WithAttrValue | src/View.php:791 | The selected elements are exactly those whose attribute has the given value |
| Doc.WithPrefixedAttr | src/View.php:981-983 | The selected elements are exactly those with a prefixed attribute |
| Doc.SelfShortcut | src/Document.php:321-322 | `.` with a reference node selects exactly that node, without evaluating a query |
| Doc.StrToNodeSpec | src/Document.php:122-143 | Converting text to nodes changes neither the loaded flag nor the fault |
| Doc.PadOneEffect | src/Document.php:663 | Padding gives the element one new empty text node as its last child and changes no other node |
| Doc.PadAllEffect | src/Document.php:661-665 | Every listed element is padded once, in turn |
| Doc.PaddingTargetsDistinct | src/Document.php:659-660 | The query lists each childless non-void element once |
| Doc.TidyPads | src/Document.php:657-666 | After `tidyView`, each childless non-void element has exactly one empty text child; every other node's children are unchanged |
| Doc.SetNullUnderGapIsNoop | src/Document.php:278-303 | A null value under a gap or data step deletes nothing and logs nothing |
| Doc.DeleteEntryEffect | src/Document.php:286-297 | Deleting one match removes the attribute or detaches the node, keeps links consistent, and never restores anything |
| Doc.DeleteAllEffect | src/Document.php:286-298 | After deleting all matches, every matched attribute is gone and every matched node is detached |
| Doc.SetNullDeletes | src/Document.php:278-303 | `set(path, null)`: a failed query logs; otherwise every match is removed and nothing is logged |
| Doc.SetNullOnDocumentResets | src/Document.php:290-292 | Deleting the parentless document node starts a new empty document |
| Doc.ParseAttrEditPath | src/Document.php:259-275 | An attribute edit path parses back to its attribute step and mode |
| Doc.SetAttributeByName | src/Document.php:344-346 | `set(p/@n-mode, text)` on a single element writes the escaped text to `n`, edited per mode; other attributes and nodes are unchanged |
| Doc.AttrByNameAfterAdd | src/Document.php:446-470 | The attribute edit after fresh nodes were added: the named attribute holds the edited value, other attributes and all older nodes are unchanged |
| Doc.SetNodeOnSingleTarget | src/Document.php:440-445 | A node value is copied in once, with the next fresh id, then placed |
| Doc.SetPlacesNode | src/Document.php:472-489 | A node value replaces the target, goes before it, or goes after it, according to the mode |
| Doc.SetAppendsChild | src/Document.php:490-492 | In child mode the node is appended to an element, and is not attached under character data |
| Doc.GetDispatch | src/Document.php:194-250 | `get` returns null for no match, the string for one attribute, a document of the element for one element, and the list for several |
| Doc.CountAgreesWithGet | src/Document.php:148-165 | `count` is the number of matches, and it is 0 exactly when `get` returns null |
| Doc.ConsumeEffect | src/Document.php:170-177 | `consume` returns what `get` returns, then removes every match unless that was null |
| Doc.Document.constructor | src/Document.php:30-60 | A document over parsed nodes, with an empty log |
| Doc.Document.Unloaded | src/Document.php:628-630 | Markup that cannot be loaded leaves `$doc` null |
| Doc.Document.Clone | src/Document.php:550-556 | A deep copy of another document's nodes, with a log of its own |
| Doc.Document.DoMsg | src/Document.php:695-697 | Only the log changes, as `DoMsgSpec` describes |
| Doc.Document.InitDoc | src/Document.php:533-537 | The store becomes a new empty document |
| Doc.Document.StrToNode | src/Document.php:122-143 | The state and new node ids are those of `StrToNodeSpec` |
| Doc.Document.PlaceAt | src/Document.php:472-494 | The state after placement is `Place` |
| Doc.Document.PlaceListAt | src/Document.php:411-438 | Each list item is copied in and placed, in list order |
| Doc.Document.PlaceEntryAt | src/Document.php:348-496 | One match under a non-null value is edited as `PlaceEntry` describes |
| Doc.Document.PlaceValueAt | src/Document.php:410-496 | A node list, a string or a node is placed at an element or text target as `PlaceValue` describes |
| Doc.Document.PlaceTextAt | src/Document.php:439-496 | A string is turned into fresh nodes and placed at the target, or, under an attribute step, written to the attribute of an element target |
| Doc.Document.PlaceTreeAt | src/Document.php:439-496 | A fresh copy of the node is placed at the target; under an attribute step on an element the PHP 7 warnings are logged and the request goes on, as `NodeAsAttr` describes |
| Doc.Document.NodeAsAttrAt | src/Document.php:446-469 | A node handed to an attribute of an element, as `NodeAsAttr` describes |
| Doc.NodeAsAttrReplace | src/Document.php:449-456 | In replace mode, `trim` and `setAttribute` reject the node with warnings that go to the log, and the document is as it was |
| Doc.NodeAsAttrEdit | src/Document.php:458-468 | In the other modes the node's string conversion fails with a logged warning and gives "", so the attribute keeps its text and nothing else changes |
| Doc.Document.SplitGap | src/Document.php:259-275 | Removes the gap step exactly as `ParseGap` |
| Doc.Document.SplitAttr | src/Document.php:313-320 | Splits the attribute step exactly as `SplitAttributeStep` |
| Doc.Document.SetValueAt | src/Document.php:310-507 | A failed query logs `NView::set() … failed.`; no match changes nothing; otherwise every match is edited |
| Doc.Document.Set | src/Document.php:255-522 | The new state is `SetSpec` of the old state |
| Doc.Document.Get | src/Document.php:194-250 | The result and new state are those of `GetSpec` |
| Doc.Document.Consume | src/Document.php:170-177 | The result and new state are those of `ConsumeSpec` |
| Doc.Document.Count | src/Document.php:148-165 | The result and new state are those of `CountSpec` |
| Doc.Document.TidyView | src/Document.php:657-666 | The store becomes `TidySpec` of the old store |
| Directives.ArrayFromAttributeJoins | src/View.php:1010-1014 | The prefix followed by the dot-joined pieces is the attribute name again |
| Directives.TokenOfDirectiveName | src/View.php:371-386 | `data-v.t` and `data-v.t.sub` both give token `t`; unprefixed names give none |
| Directives.GetCompilers | src/View.php:352-362 | The handler list has one entry per directive attribute, each for its own attribute |
| Directives.GetCompilersConcat | src/View.php:352-362 | Handlers are gathered in attribute order: the list for `a + b` is the list for `a` followed by the list for `b` |
| Directives.AttributeOrderNotTableOrder | src/View.php:93-114 | A `replace` written before an `attr` runs first, although the table lists `attr` first |
| Directives.CompilerOfToken | src/View.php:394-396 | A recognised token selects the handler named in the table |
| Directives.GetValue | src/View.php:855-886 | Computes `ParamValue` with a loop over the `;` pieces |
| Directives.ParamsPositional | src/View.php:868-883 | Unnamed pieces get the keys `0, 1, …` with their `data_get` values |
| Directives.ParamValueSingle | src/View.php:885 | A single unnamed piece gives its `data_get` value itself, not an array |
| Directives.ParamValueLoneNamed | src/View.php:881-885 | A single named piece gives its value only when it is named `0`; otherwise null |
| Directives.ParamValueList | src/View.php:864-885 | Several unnamed pieces give the list of their values |
| Directives.ParamValueNamedLast | src/View.php:881 | The last piece's name holds that piece's value |
| Directives.HasValueIffValue | src/View.php:895-897 | `hasValue` holds exactly when `getValue` of a plain path is not null |
| Directives.PathRun | src/View.php:610 | The run of `[\d\w.]` characters at the front, stopping at the first other character |
| Directives.SubstituteNoPlaceholder | src/View.php:608-614 | Text without `{` is left unchanged by substitution |
| Directives.SubstituteSplice | src/View.php:608-614 | `{name}` is replaced by the callback's text, everything before it is kept, and the rest is substituted |
| Directives.PlaceholderValue | src/View.php:610-612 | A placeholder becomes the string of its `getValue` |
| Directives.AttributeTargetOfName | src/View.php:676-678 | `data-v.attr.n` writes attribute `n` |
| Directives.FilterBoolTrue | src/View.php:580 | `"true"` reads as true |
| Directives.FilterBoolFalse | src/View.php:580 | `"false"` reads as false |
| Directives.FilterBoolLeadingSpace | src/View.php:580 | Leading whitespace does not change the boolean reading |
| Directives.StudlyWithout | src/View.php:946-948 | Studly-casing introduces no character the name did not have, apart from capitals |
| Directives.ControllerClassNamePieces | src/View.php:944-958 | The class name is the configured base followed by the studly pieces, with the first piece dropped when it names a configured base |
| ViewModel.ChildGapPathParts | src/View.php:437-441 | `./child-gap()` is `.` in child mode, with no attribute step |
| ViewModel.ToSetValue | src/Document.php:277-343 | Null stays null, scalars become their string, arrays and objects are other values, and a document without a document element becomes `""` |
| ViewModel.DocumentValue | src/Document.php:334-343 | A document is its document element's tree; one that is unloaded or has no document element unwraps to null, placed as `""` |
| ViewModel.RemoveSubtreeEffect | src/View.php:806-808 | Removing a node in the tree takes it out and leaves it childless, with no log entry |
| ViewModel.DetachSelf | src/View.php:806-808 | `set('.', null, $node)` on a node in the tree detaches it and logs nothing |
| ViewModel.ConditionalEffect | src/View.php:475-584 | A conditional handler keeps the state exactly when its condition holds; otherwise it removes the node |
| ViewModel.ConditionalPair | src/View.php:475-567 | Of `exists`/`empty`, `match`/`nomatch` and `can`/`cannot`, exactly one of each pair removes the node |
| ViewModel.ExistsKeepsIff | src/View.php:475-480 | `exists` keeps the node exactly when the path's value is not null |
| ViewModel.AuthKeepsIff | src/View.php:576-584 | `auth` keeps the node exactly when being logged in agrees with the attribute read as a boolean |
| ViewModel.SetterSpec | src/View.php:608-685 | `url` and `attr` are a single `set` on the node |
| ViewModel.WriteOwnAttr | src/Document.php:313-353 | `set('./@n', text, $node)` writes the escaped text to `n` and leaves every other attribute and node as it was |
| ViewModel.AttributeWritesTarget | src/View.php:676-685 | `data-v.attr.n` sets `n` to the escaped, substituted text; nothing else changes |
| ViewModel.UrlSetSpec | src/View.php:608-614 | `url` writes the substituted text to `href` |
| ViewModel.UrlWritesHref | src/View.php:608-614 | After `url`, `href` holds the escaped substituted text; other attributes are unchanged |
| ViewModel.WriteHref | src/View.php:613 | Writing `./@href` sets `href` only |
| ViewModel.BlankTextRemovedAsWritten | src/Document.php:449-455 | As written, replacing `n` with blank text removes `n`. The escaping leaves such text unchanged, and the intended edit keeps `n` |
| ViewModel.UnsetPlaceholderIsBlank | src/View.php:676-685 | A placeholder naming an unset variable fills to `""`, which `set` treats as blank |
| ViewModel.FilledLonePlaceholder | src/View.php:676-685 | A text that is a single placeholder fills to that placeholder's value |
| ViewModel.HandlersSkipDetached | src/View.php:332-337 | The handlers of a node without a parent do nothing |
| ViewModel.RunHandlersConcat | src/View.php:332-337 | Running `a + b` is running `a`, then `b` |
| ViewModel.DetachedMidSequence | src/View.php:334 | Once a handler has detached the node, its later handlers are skipped |
| ViewModel.UnknownTokensKept | src/View.php:330-341 | An element whose prefixed attributes name no handler keeps every attribute |
| ViewModel.GetCompilersNone | src/View.php:352-362 | Without recognised tokens the handler list is empty |
| ViewModel.DeleteAttrsEffect | src/View.php:815-817 | Deleting attribute matches removes those attributes, keeps the others and the tree shape |
| ViewModel.StripEffect | src/View.php:815-817 | After a node's handlers, its prefixed attributes other than `section` are gone; the rest are unchanged |
| ViewModel.AllPrefixedComplete | src/View.php:975 | The tidy query lists every prefixed attribute of every element |
| ViewModel.TidyRemovesPrefixed | src/View.php:974-976 | `tidy` removes every prefixed attribute and keeps every other attribute and the tree shape |
| ViewModel.ForEachEmptyRemoves | src/View.php:694-698 | `foreach` over an empty collection detaches the node |
| ViewModel.Merged | src/View.php:713-714 | Each item's data is the view data with the key and value names overridden |
| ViewModel.ItemData | src/View.php:712-714 | One data set per entry, in `foreach` order |
| ViewModel.KeyNameDefault | src/View.php:708 | Without a key attribute the key name is `""` as written and `#key` as intended |
| ViewModel.AttrValueAbsent | src/View.php:836-838 | An absent attribute reads as the empty string |
| ViewModel.Items | src/View.php:712-715 | One compiled item per data set, in order |
| ViewModel.AppendAt | src/Document.php:490-492 | `./child-gap()` with a node appends one fresh copy as the last child and changes no other node |
| ViewModel.AppendFresh | src/Document.php:443-444 | A fresh copy of a tree appended to an element becomes its last child and holds the tree's root |
| ViewModel.AppendFreshFrame | src/Document.php:490-492 | Appending a node that is new to the store changes only the element's child list |
| ViewModel.AppendOne | src/View.php:715 | One item is appended as the node's last child |
| ViewModel.AppendedStep | src/View.php:712-716 | Appending one more item extends the appended sequence in order |
| ViewModel.AppendItemsKeeps | src/View.php:712-716 | Appending items leaves the node in place and changes no other node |
| ViewModel.AppendItemsInOrder | src/View.php:712-716 | The items are appended after the existing children, one after another, in order |
| ViewModel.ConsumeSingle | src/Document.php:170-177 | Consuming a single node match returns its value and removes it from its parent |
| ViewModel.RemoveElementChild | src/Document.php:294 | Removing an element's child element keeps the store valid and drops only that child |
| ViewModel.ConsumeFirstAt | src/View.php:710 | Consuming `./*[1]` yields the first child element and detaches it, or null when there is none |
| ViewModel.ConsumeFirstChild | src/View.php:710 | The same, for the template path `foreach` uses |
| ViewModel.ForEachUnfold | src/View.php:694-717 | A non-empty `foreach` consumes the template, then appends one item per entry |
| ViewModel.ForEachItems | src/View.php:712-716 | Items appended after taking the template come in order and keep parentless nodes parentless |
| ViewModel.ForEachRenders | src/View.php:694-717 | `foreach` detaches the template and appends one compiled item per entry, in order |
| ViewModel.ReplaceSelf | src/Document.php:472-476 | `set('.', node, $node)` puts the copy in the node's position and detaches the node |
| ViewModel.ClearBelowEffect | src/View.php:747-752 | `deleteDescendants` leaves the node childless and only removes children |
| ViewModel.ReplaceAndClear | src/View.php:597-598 | Replacing and then clearing below leaves the copy in place and the old node detached and empty |
| ViewModel.IncludeReplaces | src/View.php:593-599 | `include` replaces the node with the compiled view, using the parameter's data when there is one |
| ViewModel.ErrorsReplaces | src/View.php:421-428 | With errors, the node is replaced by the compiled error view |
| ViewModel.ErrorsAbsentRemoves | src/View.php:421-428 | Without errors, the node is removed |
| ViewModel.PaginationUnfold | src/View.php:659-667 | The handler is `PaginationSpec` |
| ViewModel.PaginationWithoutPages | src/View.php:659-667 | A falsy paginator changes nothing; a truthy non-object is a fatal error; an object without pages changes nothing |
| ViewModel.PaginationReplaces | src/View.php:659-667 | A paginator with pages replaces the node with the compiled view, the paginator added to the data |
| ViewModel.ContainerDropsOwnAttr | src/View.php:730 | The container first removes its own `container` attribute and nothing else |
| ViewModel.ContainerPath | src/View.php:825-827 | The container attribute path is the node's attribute, with no gap |
| ViewModel.WithoutRootAttr | src/View.php:795 | The section's root element loses its `section` attribute and keeps its name |
| ViewModel.SectionFound | src/View.php:782-799 | A found section is the element without its `section` attribute; no match gives null; a failed query logs |
| ViewModel.PairsToMap | src/View.php:594-597 | The data handed to an included view holds only keys of the given array |
| ViewModel.PairsToMapEntries | src/View.php:594-597 | The data handed to an included view holds exactly the array's keys, each with the value of its last entry |
| ViewModel.PairsToMapKeys | src/View.php:594-597 | The `(array)` cast keeps exactly the keys of the array's entries |
| ViewModel.PairsToMapLast | src/View.php:594-597 | A key repeated in the array keeps the value of its last entry |
| Views.View.constructor | src/View.php:124-133 | A view over a document, its data and its services, without a child |
| Views.View.With | src/View.php:250-258 | `with($key, $value)` adds or overwrites one entry |
| Views.View.WithAll | src/View.php:250-253 | `with($array)` merges in the entries, which win |
| Views.View.WithErrors | src/View.php:266-279 | The message bag is stored under `errors` |
| Views.View.SetChild | src/View.php:230-232 | The child document is set; the data is unchanged |
| Views.View.Set | src/View.php:289-291 | The document receives the `set` |
| Views.View.DeleteDescendantsAt | src/View.php:747-752 | The loop leaves the store as `DeleteDescendants` computes |
| Views.View.DeleteFirstChild | src/View.php:749-750 | One round edits the document into `DeleteRound` of its store: below the first child deleted, then the first child detached |
| Views.View.ClearBelowAt | src/View.php:747-752 | The document becomes `ClearBelow` |
| Views.View.RemoveSubtreeAt | src/View.php:806-808 | The document becomes `RemoveSubtree` |
| Views.View.Errors | src/View.php:421-428 | The document becomes `ErrorsSpec` |
| Views.View.Include | src/View.php:593-599 | The document becomes `IncludeSpec` |
| Views.View.Pagination | src/View.php:659-667 | The document becomes `PaginationSpec` |
| Views.View.RenderForEachAt | src/View.php:706-717 | The loop over the entries leaves the document as `RenderForEach` |
| Views.View.ForEach | src/View.php:694-698 | The document becomes `ForEachSpec` |
| Views.View.Container | src/View.php:726-745 | The document becomes `ContainerSpec` |
| Views.View.Handle | src/View.php:335 | Dispatching one handler leaves the document as `HandlerSpec` |
| Views.View.NodeTurn | src/View.php:326-341 | One element's turn leaves the document as `NodeStep` |
| Views.View.RunCompilers | src/View.php:319-344 | The scan leaves the document as `RunSpec` |
| Views.View.SectionOf | src/View.php:782-799 | The result and child state are those of `Section` |
| Views.View.FillSlot | src/View.php:769-774 | One contents slot is filled as `FillOne` describes |
| Views.View.RenderChildren | src/View.php:758-776 | No child: nothing changes; otherwise every contents slot is filled in document order |
| Views.View.Compile | src/View.php:166-182 | Children first, then the scan |
| Views.View.Tidy | src/View.php:974-976 | The document becomes `TidyAttrsSpec` |
| Views.View.Render | src/View.php:150-159 | The shared data goes under the view's own data, then the view is compiled and tidied |
| FactoryModel.FirstMatch | src/Factory.php:435-442 | `Arr::first`: the first extension, in table order, that the path ends with |
| FactoryModel.ExtensionOf | src/Factory.php:435-442 | The first matching extension in table order; none exactly when no extension matches |
| FactoryModel.EngineFromPath | src/Factory.php:180-189 | No extension gives `Unrecognized extension in file: …`; otherwise the table's engine |
| FactoryModel.BladeBeforePhp | src/Factory.php:71-77 | `.blade.php` matches `blade.php` before `php` |
| FactoryModel.XmlIsNView | src/Factory.php:71-77 | `.xml` files use the nview engine |
| FactoryModel.FirstIndex | src/Factory.php:120 | `strpos`: the first position of the character, or none when it is absent |
| FactoryModel.RouteAsWritten | src/Factory.php:120 | As written: strings without `<`, and strings starting with `<`, go to the finder |
| FactoryModel.RouteOf | src/Factory.php:118-120 | As intended: only strings without `<` go to the finder |
| FactoryModel.RoutesDiffer | src/Factory.php:120 | The two routes differ exactly for strings that start with `<` |
| FactoryModel.MarkupSentToFinder | src/Factory.php:120 | `<p/>` goes to the finder as written |
| FactoryModel.MergedData | src/Factory.php:140-150 | `array_merge($mergeData, $data)`: all keys, and `$data` wins |
| FactoryModel.Make | src/Factory.php:116-138 | Markup becomes an nview view; a name is found, normalised and routed by engine; finder and extension errors are returned |
| FactoryModel.MakeXmlFile | src/Factory.php:116-150 | A name found as an `.xml` file makes a named nview view over that path |
| FactoryModel.Assign | src/Factory.php:250-252 | Assigning the entries gives exactly the old keys and the assigned keys |
| FactoryModel.AssignLastWins | src/Factory.php:250-252 | The last assignment of a key wins |
| FactoryModel.AssignKeeps | src/Factory.php:250-252 | Keys that are not assigned keep their values |
| FactoryModel.SharedGet | src/Factory.php:346-348 | `Arr::get`: a direct key first; a missing head segment gives the default |
| FactoryModel.Factory.constructor | src/Factory.php:85-90 | The shared data starts as `__env` mapped to the factory; the cache is empty |
| FactoryModel.Factory.Share | src/Factory.php:246-254 | One key is shared and its value returned |
| FactoryModel.Factory.ShareAll | src/Factory.php:246-254 | Every entry is shared in order; the value returned is the last one, or the argument when there are no entries |
| FactoryModel.Factory.Shared | src/Factory.php:346-348 | The result is `SharedGet` |
| FactoryModel.Factory.GetShared | src/Factory.php:355-357 | All shared data |
| FactoryModel.Factory.AddDocument | src/Factory.php:405-407 | The cache maps the name to the document |
| FactoryModel.Factory.HasDocument | src/Factory.php:415-417 | True exactly when the name is cached |
| FactoryModel.Factory.GetDocument | src/Factory.php:425-427 | A fresh copy of the cached document with an empty log, or `Undefined index` |
| FactoryModel.Factory.DocumentFor | src/View.php:135-143 | A name is loaded and cached once; every view gets a fresh copy of the cached document |
| FactoryModel.Factory.EditCopy | src/View.php:135-143 | Editing a view's copy does not change the cached document, and a later copy equals the original |
| Legacy.DotPairs | src/NViewCompiler.php:156 | `array_dot` keys all start with the prefix they are flattened under |
| Legacy.PrefixExtends | src/NViewCompiler.php:156 | A key under `p.q` is also under `p` |
| Legacy.FlatGet | src/NViewCompiler.php:251-252 | `Collection::get`: the last pair with the key, or null |
| Legacy.FromData | src/NViewCompiler.php:283-303 | A step into a scalar or null gives null |
| Legacy.FromDataAppend | src/NViewCompiler.php:283-303 | Reading along `a + b` is reading `b` from where `a` leads |
| Legacy.AsString | src/NViewCompiler.php:249 | The `string` return type accepts strings, integers and booleans and rejects the rest |
| Legacy.GetValue | src/NViewCompiler.php:249-263 | A direct key first, then the head segment followed by the path, otherwise the attribute text itself |
| Legacy.NestedFound | src/NViewCompiler.php:249-263 | `k.j` finds a nested string |
| Legacy.FlattenOne | src/NViewCompiler.php:156 | Flattening a nested array gives one dotted key |
| Legacy.MissingNestedIsText | src/NViewCompiler.php:257-261 | A non-existent nested key gives back the attribute text |
| Legacy.Stripped | src/NViewCompiler.php:356-360 | The tokens are the prefixed names with the prefix removed |
| Legacy.Unique | src/NViewCompiler.php:362 | `array_unique`: the same members, without duplicates |
| Legacy.LocNames | src/NViewCompiler.php:352-358 | The names of the matched attributes, in order |
| Legacy.TokensExact | src/NViewCompiler.php:350-363 | The tokens are exactly the prefixed attribute names with the prefix removed, each listed once |
| Legacy.Invoked | src/NViewCompiler.php:158-166 | The table entries whose token is present, in table order |
| Legacy.RunTableInvoked | src/NViewCompiler.php:158-166 | Running the table runs exactly the present entries, in table order |
| Legacy.AllPresentRunInTableOrder | src/NViewCompiler.php:66-72 | With every token present, all five compilers run in the table's order |
| Legacy.GateDecides | src/NViewCompiler.php:201-223 | `can` removes its node exactly when the gate denies; `cannot` exactly when it allows |
| Legacy.LookupFailureEnds | src/NViewCompiler.php:181-199 | A lookup that is not a string ends the request with its message, and later nodes are untouched |
| Legacy.VisitAfterFault | src/NViewCompiler.php:225-235 | After the request has ended, visiting more nodes changes nothing |
| Legacy.NoTokensNoChange | src/NViewCompiler.php:154-167 | Without any table token in the view, nothing is compiled |
| Legacy.LegacyCompiler.constructor | src/NViewCompiler.php:82-89 | The compiler over its document, data and services |
| Legacy.LegacyCompiler.GetTokensFromView | src/NViewCompiler.php:350-363 | The loop collects `Tokens` of the view |
| Legacy.LegacyCompiler.CompileNodes | src/NViewCompiler.php:225-235 | The loop over the token's elements leaves the view as `CompileNodesSpec` |
| Legacy.LegacyCompiler.Edit | src/NViewCompiler.php:169-223 | One closure on one node, as `NodeEdit` describes |
| Legacy.LegacyCompiler.RunCompilers | src/NViewCompiler.php:154-167 | The table run leaves the view as `LegacyRunSpec` |
| Legacy.LegacyCompiler.Tidy | src/NViewCompiler.php:346-348 | Every prefixed attribute is removed, as `TidyAttrsSpec` describes |

## Left out

- libxml parsing, serialisation (`show`, `text`, `save`) and `normalizeDocument`: the parser is a function parameter, and output is not modelled.
- General XPath evaluation: the compiler's fixed queries are modelled; any other path is resolved by an environment function.
- Namespace handling: `addNamespace`, the `h` prefix, and the copying of `xmlns:` attributes in `conNode`/`get`.
- `validName`: the XML Name regular expression is a predicate parameter.
- The `/data()` branch for comments when the value is a node or a node list: the model leaves the comment unchanged. A node value on an attribute match is likewise left unchanged.
- The gate, the authentication guard, the translator, URL/route/asset generation and nested-view compilation: these are fields of `Services`.
- `callComposer`, `renderViewController`, controller loading through `class_exists`, and `renderParent`: these go through the service container. Only the class name computation (`ControllerClassName`) is modelled.
- `gatherData`: `Renderable` values in the data are not compiled; `Render` takes the shared data as a parameter.
- The `$compiled` flag: it is never set, so `compile` always runs in full.
- `error_reporting` and `set_error_handler`: warnings go to the log only through the paths the model names.
- ViewModel.IncludeReplaces: stated only when the compiled view is a node.
- ViewModel.ErrorsReplaces: stated only when the compiled error view is a node.
- ViewModel.PaginationReplaces: stated only when the compiled pagination view is a node.
- ViewModel.ForEachItems: stated only for services whose compiled items are all nodes.
- ViewModel.ForEachRenders: stated only for services whose compiled items are all nodes.
- ViewModel.ReplaceSelf: the parent's list is stated for the replacement itself. After `deleteDescendants` only the shrinking of child lists is stated.
- Views.View.RenderChildren: requires the child to be a distinct document over the same environment. The source never passes the view's own document as its child.
- `array_merge` renumbering of integer keys in `with`, `gatherData` and the factory: a `Context` is a map, without key order.
- Legacy.DotPairs: the renumbering of integer keys by `array_merge` inside Laravel's `array_dot` is not modelled.
- Legacy.FromData: a missing object property gives null, without the PHP notice.
- `normalizeName` and the view finder: these are function parameters of `Make`.
- FactoryModel.SharedGet: nested look-up follows arrays only; `ArrayAccess` objects are not followed.
- Dom.DeleteDescendants: the recursion is bounded by the number of ids handed out, which no chain of nodes exceeds.
- `View::formatDocument` and `withErrors`' `MessageBag` construction: the value passed in is already in its final form.
- The Blade factory and `makeBlade`: only the choice of engine and the data handed over are modelled.
- Construction from a stream resource, and `conFile`'s file reading: the document constructor takes the parsed store.
- `initDoc` does not rebuild `$xp`: the model uses the one store.
- Values.DataGet: a `Collection` under a `*` segment gives null like any other object, where `data_get` takes its items; objects carry no class. `ArrayAccess` objects are not followed either.
- Values.DataGetPath: a path whose first segment is `*` (every top-level variable) reads a variable named `*`; a view's data is a map without the order that list would need.
- Values.DataGetPathSimple: as Values.DataGetPath, the path `*` reads a variable named `*`, not the list of all top-level values.
- Directives.GetValue: a piece whose path starts with `*` is read as Values.DataGetPath reads it; wildcards after the first segment are modelled.
- Values.DataGetAppend: stated for a first part without `*`; after a wildcard, the rest of the path applies to each item, as Values.WildcardMaps states.
- Doc.Document.PlaceEntryAt: an attribute-node target (a path whose last `/@` step is not a plain name, such as `@title[1]` or `@*`) gets the escaped text, where PHP's `DOMAttr::value` decodes entity references again and stores the plain text. The compiler never writes a non-null value through such a path.
- Doc.Document.SetValueAt: as Doc.Document.PlaceEntryAt, attribute-node targets get the escaped text.
- Doc.Document.Set: as Doc.Document.PlaceEntryAt, attribute-node targets get the escaped text.
- Values.LooseEq: there is no floating-point value, so a double given to `set` or held in the data, and comparisons with one, are not modelled.
- Values.LooseEq: numeric strings compare as exact decimals, where PHP converts them to doubles; rounding of long fractions and integer strings beyond 64 bits are not modelled.
- Values.LooseEq: objects compare only with objects, by their properties in order; PHP also requires the same class, compares properties loosely, and converts an object with `__toString` when it meets a string.
- Values.StrVal: an object or a markup value converts to `""`; PHP calls `__toString`, or raises an Error for an object without one. The model gives objects no class.
- PlaceholderValue: stated through Values.StrVal, so a placeholder holding an object gives `""` rather than the object's `__toString` text or an Error.
- Directives.PlaceholderValue: see the line above; the same holds for Directives.PathText.
- ViewModel.EditValue: in `route`, a placeholder holding an Eloquent model gives its lower-cased class basename (src/View.php:628); the model has no classes and uses Values.StrVal for every value.
- Legacy.AsString: PHP's coercive mode also accepts an object with `__toString` for a `string` return type; the model rejects every object.
- FactoryModel.Factory.GetDocument: a missing name is the `Undefined index` notice that Laravel's error handler raises as an exception; outside Laravel PHP would carry on with `new Document(null)`, which is not modelled.
- Doc.Document.Set: an empty attribute value is kept, as intended; the code as written is Doc.AttrByNameAsWritten.
- Doc.Document.PlaceTextAt: an empty attribute value is kept, as intended; the code as written is Doc.AttrByNameAsWritten.
- Views.View.RenderForEachAt: the key is bound under `#key` when no key name is given, as intended; the code as written is ViewModel.KeyNameAsWritten.
- Views.View.ForEach: the key is bound under `#key` when no key name is given, as intended; the code as written is ViewModel.KeyNameAsWritten.
- Views.View.SectionOf: a named section gives its element, as intended; the code as written, which fails on its return type, is ViewModel.SectionAsWritten.
- Views.View.FillSlot: fills slots with sections as intended; the code as written is ViewModel.SectionAsWritten.
- Views.View.RenderChildren: fills slots with sections as intended; the code as written is ViewModel.SectionAsWritten.
- FactoryModel.Make: markup starting with `<` goes to `makeView`, as intended; the code as written is FactoryModel.RouteAsWritten.
- Doc.AttrByNameAfterAdd: the named attribute holds the edited value even when a replacing value is blank, as intended in the first row of "## Findings". As written, Doc.AttrByNameAsWritten removes it.
- Doc.Document.PlaceEntryAt: a blank value under an attribute step is kept, as intended in the first row of "## Findings"; the code as written is Doc.AttrByNameAsWritten.
- Doc.Document.PlaceValueAt: a blank value under an attribute step is kept, as intended in the first row of "## Findings"; the code as written is Doc.AttrByNameAsWritten.
- Doc.Document.SetValueAt: a blank value under an attribute step is kept, as intended in the first row of "## Findings"; the code as written is Doc.AttrByNameAsWritten.
- ViewModel.WriteOwnAttr: `n` holds the escaped text even when it is blank, as intended in the first row of "## Findings". As written, `n` is removed, as ViewModel.BlankTextRemovedAsWritten states.
- ViewModel.AttributeWritesTarget: the target attribute holds the substituted text even when it is blank (an unset placeholder, ViewModel.UnsetPlaceholderIsBlank), as intended. As written, it is removed (ViewModel.BlankTextRemovedAsWritten).
- ViewModel.UrlWritesHref: `href` holds the substituted text even when it is blank, as intended. As written, `href` is removed (ViewModel.BlankTextRemovedAsWritten).
- ViewModel.WriteHref: `href` holds the escaped text even when it is blank, as intended. As written, `href` is removed (ViewModel.BlankTextRemovedAsWritten).
- Views.View.Set: the document's `set` keeps a blank attribute value, as intended in the first row of "## Findings"; the code as written is Doc.AttrByNameAsWritten.
- Views.View.Handle: follows the intended behaviour of the first and third rows of "## Findings" (blank attribute text is kept, and the default key name is `#key`); the code as written is Doc.AttrByNameAsWritten and ViewModel.KeyNameAsWritten.
- Views.View.NodeTurn: follows the intended behaviour of the first and third rows of "## Findings"; the code as written is Doc.AttrByNameAsWritten and ViewModel.KeyNameAsWritten.
- Views.View.RunCompilers: follows the intended behaviour of the first and third rows of "## Findings"; the code as written is Doc.AttrByNameAsWritten and ViewModel.KeyNameAsWritten.
- Views.View.Compile: follows the intended behaviour of the first, third and fourth rows of "## Findings"; the code as written is Doc.AttrByNameAsWritten, ViewModel.KeyNameAsWritten and ViewModel.SectionAsWritten.
- Views.View.Render: follows the intended behaviour of the first, third and fourth rows of "## Findings", through Views.View.Compile; the code as written is Doc.AttrByNameAsWritten, ViewModel.KeyNameAsWritten and ViewModel.SectionAsWritten.


## Findings

| source | as written | input that shows it | evidently intended | confidence | as-written member | corrected member |
|---|---|---|---|---|---|---|
| src/Document.php:446-456 | In replace mode `set('./@id', "")` removes the attribute, because `isNullOrEmpty` is true for `""` | `set('./@id', "")` on `<p id="x"/>` gives `<p/>` | The attribute is kept with the value `""` | not executed | Doc.AttrByNameAsWrittenDropsEmpty | Doc.SetAttributeByName |
| src/Factory.php:120 | `strpos($viewName, '<') == false` is also true when `strpos` returns `0` | `make("<p/>")` goes to the finder | Inline markup goes to `makeView` | not executed | FactoryModel.MarkupSentToFinder | FactoryModel.RouteOf |
| src/View.php:708 | `getNodeAttribute(...) ?? "#key"`: `getAttribute` never returns null, so the default never applies | `foreach` without `data-v.key` binds the key under `""` | The key is bound under `#key` | not executed | ViewModel.KeyNameDefault | ViewModel.KeyName |
| src/View.php:782-799 | The declared return type `Document` does not fit the `DOMDocument` or null returned for named sections | `data-v.contents="main"` with a child document: a TypeError | The section's element, or nothing when absent | not executed | ViewModel.SectionAsWrittenFails | ViewModel.SectionFound |
