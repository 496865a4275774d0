# Endemic placeholder engine, in Dafny

Endemic (`endemic.js`) turns a `<div is="endemic-definition">` template into a custom
element. Every instance does four things:

- It seeds one field per host attribute.
- It clones the template's element children.
- It discovers every `${key}` placeholder in their text and attribute values.
- It renders the placeholders from the fields. It then re-renders only the affected
  placeholders when a host attribute changes.

A separate `import(name)` fetches `name.html` at most once.

This project models that engine with the DOM abstracted away:

- A node is its text plus an ordered list of attributes. It also carries the set of
  attribute names whose `setAttribute` was intercepted.
- An instance is a field map (`undefined` = absent key, `null` = `None`), its nodes, and a
  registry. The registry holds the ordered token list and the key-to-tokens index.

The modules follow the source:

| module | models |
|---|---|
| `Scanner` | the regular expression `/\${(.+?)}/g` |
| `Strings` | `String.prototype.replace` with a string pattern, and the escape strip |
| `Dom` | `getAttribute` and `setAttribute` |
| `TokenIndex` | `_pushToken` |
| `Discovery` | `_discoverTokens` |
| `Component` | the intercepted `setAttribute`, `render`, `_updateToken` |
| `Watcher` | `_onAttributeChange` |
| `Instantiation` | the registered class's constructor |
| `Imports` | `endemic.import` |

`FirstPaint` proves what the constructor's first render shows. `Examples` works through
concrete templates.

Behaviour worth knowing:

- **Undefined fields.** A field that is undefined or falsy is substituted as `""`. It is
  not skipped (`|| ""`, endemic.js:100, 197, 206).
- **When content is reset.** Each run of consecutive tokens on one node starts again from
  the token's snapshot. There is no separate reset pass over all tokens.
- **Render is not idempotent.** Painting an attribute whose whole value is a placeholder
  goes through the intercepted `setAttribute`. That write changes the field of the same
  name, which later renders read (`Examples.RenderNotIdempotent`).
- **Escapes.** Only the first `\{` or `\}` of a text is removed before scanning. The regex
  has no `g` flag.
- **Placeholder keys.** A key is any non-empty run of characters other than line
  terminators, up to the first `}`. The key's first character may itself be `}`.
- **Re-registration.** `register` has no guard against it. It is left out.
- **Text versus markup.** Text is read and written through `textContent`, not
  `innerHTML`.

## Model

| member | source | states |
|---|---|---|
| Scanner.MatchEnd | endemic.js:20 | the match tried at position i, if any, is the unique end e such that s[i..e] is `${`, a non-empty run of non-line-terminators and the first `}` that may close it |
| Scanner.Spans | endemic.js:20 | the global scan lists only genuine matches, in increasing order and without overlap |
| Scanner.SpansComplete | endemic.js:20 | no match is missed: every position where a match can start is covered by a listed match |
| Scanner.SpansIsLeftmostCover | endemic.js:20 | the scan's matches are the leftmost, non-overlapping cover of the string |
| Scanner.SpansUnique | endemic.js:20 | any list of leftmost, non-overlapping matches is the scan, so the scan is fully determined by the regex semantics |
| Scanner.Slices | endemic.js:49 | `match` yields one raw string per match, the matched substring itself |
| Scanner.KeyOf | endemic.js:31 | the key is the raw token without its leading `${` and trailing `}`, and is never empty |
| Scanner.KeyRoundTrip | endemic.js:20-31 | `${k}` is one whole token exactly when k is non-empty, has no line terminator and has no `}` after its first character; then its key is k again |
| Scanner.WholeValueIsToken | endemic.js:66-69 | a value appears among its own matches exactly when it is one token and nothing else, and then it is its only match |
| Scanner.ScanOfCover | endemic.js:49 | `match` returns exactly the slices of the leftmost non-overlapping cover, so any list of genuine leftmost matches read off the string is the result |
| Scanner.SpansSkip | endemic.js:20 | a stretch without `$` contributes no match |
| Strings.IndexOf | endemic.js:100 | the search finds the leftmost occurrence at or after the start, and reports none only when there is none |
| Strings.ReplaceFirst | endemic.js:197 | a string replace changes only the first occurrence of the pattern, and leaves a string without one unchanged |
| Strings.EscapeIsOccurrence | endemic.js:48 | an escape is an occurrence of `\{` or of `\}` |
| Strings.StripFirstEscape | endemic.js:48 | only the first backslash-brace pair is deleted, and text without one is unchanged |
| Strings.EscapedPlaceholder | endemic.js:47-49 | text with `$\{k}` as its first escape yields no token starting at that `$`, unless k itself starts with `{` (`$\{{x}` strips to the token `${x}`) |
| Strings.OnlyFirstEscapeStripped | endemic.js:48 | of two escaped placeholders only the first loses its backslash |
| Dom.GetAttribute | endemic.js:94 | `getAttribute` is null exactly when the attribute is absent, and otherwise reads the first attribute of that name |
| Dom.SetAttr | endemic.js:82 | `setAttribute` keeps the order and every attribute of another name; the first attribute of the name takes the new value in place and later duplicates are kept; a new name is appended |
| Dom.GetAfterSet | endemic.js:82 | after `setAttribute(name, v)`, `getAttribute(name)` is v and every other name reads as before |
| Dom.SetKeepsUnique | endemic.js:82 | `setAttribute` never creates a second attribute of the same name |
| TokenIndex.Filter | endemic.js:35-39 | a token is in the filtered list exactly when it is in the list and carries the key |
| TokenIndex.FilterAppend | endemic.js:35-39 | filtering a list made of two parts is filtering each part, in order, so the index keeps push order |
| TokenIndex.PushToken | endemic.js:28-40 | a push appends the token to the list and keeps the index equal to the list filtered by key |
| TokenIndex.LookupIsFilter | endemic.js:35-39 | `tokenIndex[k]`, read with `|| []` as at endemic.js:121 so that a key with no entry gives the empty list, is exactly the subsequence of `tokens` whose key is k, in the same order |
| TokenIndex.TokenUnderOwnKey | endemic.js:35-39 | every token is filed under its own key and under no other |
| TokenIndex.PushAll | endemic.js:160-171 | pushing a run of tokens appends them in order and keeps the index consistent |
| TokenIndex.PushTokenAsWritten | endemic.js:35-39 | the push as written throws exactly for keys that name `Object.prototype` members |
| TokenIndex.PrototypeKeyThrows | endemic.js:35-39 | a `${constructor}` token makes the as-written push throw, while the corrected push files it under `constructor` |
| Discovery.TextTokens | endemic.js:48-52 | one text token per match of the escape-stripped text, in match order, each on the node with the whole unstripped text as snapshot |
| Discovery.AttrTokens | endemic.js:54-64 | every attribute token sits on the node, names an attribute whose value is its snapshot, and is one of that value's matches |
| Discovery.AttrTokensAppend | endemic.js:56-64 | attributes are visited in order: the tokens of two attribute lists are those of the first followed by those of the second |
| Discovery.AttrTokensOne | endemic.js:56-64 | one attribute yields one token per match of its value, in match order, each naming the attribute with its value as snapshot |
| Discovery.NodeTokens | endemic.js:46-64 | a node's tokens are its text tokens followed by its attribute tokens, all on the node; text tokens take the whole unstripped text as snapshot and are matches of the stripped text |
| Discovery.WatchedNames | endemic.js:66-69 | only names of attributes the node has are ever watched |
| Discovery.WatchedIffWholeToken | endemic.js:66-69 | a name is watched exactly when some attribute of that name holds one token and nothing else |
| Discovery.AllTokens | endemic.js:160-171 | tokens are listed node by node in child order, each snapshot being its node's text or one of its attributes |
| Discovery.AllTokensPerNode | endemic.js:160-171 | the tokens of `tokens` on a given clone are exactly the ones discovered on that clone, in discovery order, so none is missed, added or reordered |
| Discovery.TokensContiguous | endemic.js:160-171 | the tokens of one node are contiguous in `tokens` |
| Discovery.WatchIntercepts | endemic.js:66-84 | each node keeps its text and attributes; a name is intercepted exactly when some attribute of that name holds one token and nothing else; intercepting again adds nothing |
| Discovery.Discover | endemic.js:157-171 | the registry holds every discovered token in order, with an index consistent with it |
| Component.SetAttributeMirrors | endemic.js:77-83 | after the intercepted write the attribute reads back the value, and the field too when the name is watched; other attributes and other nodes are untouched |
| Component.ApplyTokenFrame | endemic.js:187-209 | one render step touches only its token's node, keeps every attribute and interception, changes fields only through that node's watched names; a text step leaves the fields and attributes alone, an attribute step leaves the text alone |
| Component.ApplyTokenTarget | endemic.js:187-209 | one render step (`ApplyToken`, reading the field through `FieldText`) writes its start content with the first occurrence of the raw token replaced by the field value or "" |
| Component.ApplyTokenOtherAttrs | endemic.js:187-209 | a render step leaves every attribute of another name unchanged, on every node |
| Component.RenderSeq | endemic.js:183-210 | rendering keeps the registry and the intercepts, leaves nodes without tokens as they were, and changes only watched fields |
| Component.Render | endemic.js:182-211 | `render` keeps every token applicable, the registry and the intercepts, and changes only watched fields |
| Component.UpdateToken | endemic.js:88-111 | `_updateToken` always starts from the snapshot: the target becomes the snapshot with only this token replaced; no other node changes |
| Watcher.UpdateAll | endemic.js:121 | updating the indexed tokens touches only their nodes and changes only watched fields |
| Watcher.UpdateAllKeepsText | endemic.js:121 | updates that write no text on a node leave its text alone |
| Watcher.UpdateAllKeepsAttr | endemic.js:121 | updates that write no attribute of a name on a node leave that attribute alone |
| Watcher.UpdateAllLastText | endemic.js:88-111 | after a run of updates, a node's text is the last text token's snapshot with only that token substituted, so the other placeholders show again; stated when that token's key is not a watched attribute name |
| Watcher.UpdateAllLastAttr | endemic.js:88-111 | after a run of updates, an attribute is the last token's snapshot for it with only that token substituted; stated when that token's key is not a watched attribute name |
| Watcher.ChangeStep | endemic.js:119-122 | one record keeps the instance renderable and changes no node without a token filed under the record's name |
| Watcher.ChangeSetsField | endemic.js:120 | an attribute change sets the field of that name to the host's current attribute value, or null when it is gone |
| Watcher.ChangeSetsText | endemic.js:120-121 | after an attribute change, a text holding that key shows the new value ("" when the attribute is gone) in the last such placeholder's place |
| Watcher.ChangeSetsAttr | endemic.js:120-121 | after an attribute change, an attribute holding that key shows the new value ("" when the attribute is gone) in the last such placeholder's place |
| Watcher.OnAttributeChange | endemic.js:117-124 | processing a batch keeps the instance renderable, the registry and the intercepts |
| Watcher.BatchesCompose | endemic.js:117-124 | records are processed strictly in list order: a batch equals its two halves delivered one after the other |
| Watcher.AttributeRecords | endemic.js:119 | a record is kept exactly when it is in the batch and its type is "attributes" |
| Watcher.AttributeRecordsAppend | endemic.js:118-119 | the filter keeps batch order: filtering two batches in a row is filtering each |
| Watcher.OnlyAttributeRecordsCount | endemic.js:119 | records of any other type have no effect |
| Watcher.UnboundChangeSetsFieldOnly | endemic.js:120-121 | a change to a name with no index entry only sets that field |
| Instantiation.Instantiate | endemic.js:160-171 | exactly the `HTMLElement` children that are not `HTMLScriptElement`s are cloned, with nothing intercepted yet; other nodes, SVG and MathML elements included, are skipped |
| Instantiation.InstantiateAppend | endemic.js:160 | children are visited in order: the clones of two child lists are those of the first followed by those of the second |
| Instantiation.InstantiateOne | endemic.js:161-165 | one child gives one clone, with its text and attributes and nothing intercepted, when it is an `HTMLElement` that is not an `HTMLScriptElement`, and none otherwise |
| Instantiation.SeedReadsHost | endemic.js:151-153 | `Seed`: the seeded fields are exactly the host's attribute names, each holding what `getAttribute` reads for it |
| Instantiation.Construct | endemic.js:148-173 | a new instance holds the discovered tokens of its clones with a consistent index and the right intercepts, and its fields are the host's attributes except for watched names |
| Instantiation.DiscoveredFit | endemic.js:160-171 | every discovered attribute token names an attribute its node has |
| Imports.Import | endemic.js:219-245 | after a call the name is present; a new name becomes loaded and is requested once, as `name.html`; a present name keeps its state and sends nothing; other names are kept |
| Imports.Complete | endemic.js:226-242 | other names are kept; a name is failed afterwards exactly when the completion was not a load with status 200 or it had already failed |
| Imports.Run | endemic.js:219-245 | over a sequence of calls and completions no name is ever dropped, and every request is for a name some call asked for |
| Imports.AtMostOneRequest | endemic.js:219-245 | over any sequence of calls and completions, each file is requested at most once, never for a name already present, and every imported name is recorded |
| Imports.FailedIsFinal | endemic.js:226-242 | a failed import stays failed whatever happens later |
| Imports.ImportAsWritten | endemic.js:220-223 | the guard as written skips names of `Object.prototype` members, and otherwise behaves like `Import` |
| Imports.PrototypeNameNeverFetched | endemic.js:220-223 | `import("constructor")` on a fresh table sends no request |
| FirstPaint.RenderSeqSplit | endemic.js:183-210 | rendering a token list equals rendering a prefix and then the rest, starting from the node the prefix ended on |
| FirstPaint.TextRun | endemic.js:199-209 | a run of text tokens on one node substitutes each token, in order, into the snapshot and changes no field |
| FirstPaint.TextUntouched | endemic.js:184-210 | tokens on other nodes, or in attributes, never change a node's text |
| FirstPaint.FirstPaintText | endemic.js:182-211 | after the first `render`, a node whose keys are not watched shows its text with each placeholder, in order, replaced by its field value or "" |
| FirstPaint.ConstructFirstPaintText | endemic.js:148-211 | a freshly constructed instance shows each such text with every placeholder replaced by the host attribute of that name |
| Examples.WordToken | endemic.js:20-31 | `${k}` with a lower-case key is one token, needs no unescaping, scans as itself and has key k |
| Examples.TwoTokensScan | endemic.js:49 | `"${a} ${b}"` yields exactly the tokens `${a}` and `${b}` |
| Examples.FirstPaintOfTwoPlaceholders | endemic.js:148-211 | a template `"${a} ${b}"` on a host with a="1" and b="2" first shows "1 2" |
| Examples.ConstructTitle | endemic.js:148-211 | for text `${title}` with attribute title="${a}", the first paint shows the host's title, and the attribute write overwrites the title field with a's value |
| Examples.RenderNotIdempotent | endemic.js:182-211 | rendering that instance once more changes what it shows, from "y" to "x" |
| Examples.UpdateRevertsSecondPlaceholder | endemic.js:88-111 | updating the first `${a}` of `"${a} ${a}"` shows "v ${a}", bringing the second placeholder back |

## Left out

- The custom-element and DOM machinery is not modelled. This covers `customElements.define`, `attachShadow`, `cloneNode`, `appendChild` and `removeChild` (endemic.js:15, 141, 155, 165, 169, 214, 216). Nodes are records. The shadow root is the list of cloned children.
- `register` is not modelled (endemic.js:132-217), because it is bound to the DOM.
  - Its context check at endemic.js:134 can never fire: `!component` is evaluated before `instanceof`.
  - Its `data-name` check at endemic.js:137-139 is not modelled.
  - It has no guard against registering a name twice.
- The user class's own constructor (`super()`, endemic.js:149) is not modelled, because it is caller code.
- Delivery of `MutationObserver` records is host I/O (endemic.js:175-176). A record list is a parameter. The host's current attributes are a parameter, read when a record is processed.
- The XHR and the injection of the response with `createContextualFragment` are host I/O (endemic.js:225-245). Requests are recorded as data, and completions arrive as events.
- `String.prototype.replace` special patterns are not modelled. A value containing `$&`, `$$` or similar is inserted literally.
- Only a node's own `textContent` is modelled. Writing `textContent` flattens nested elements, which is not.
- `_updateToken` assigns the implicit global `content` (endemic.js:93, 104). This has no effect on the model.
- Fields are a map separate from the element object. Inherited `HTMLElement` properties (`this.id`, `this.tabIndex`, …) do not exist in the map, so an absent name reads as "". Host attributes that would overwrite `tokens`, `tokenIndex` or `render` are not modelled. Writing a field whose name is a reflected `HTMLElement` property such as `title` or `id` (endemic.js:79, 152) also changes the host's own attribute in the source; that write-back is not modelled.
- Characters are Unicode scalar values, not JavaScript UTF-16 code units: a surrogate pair is one character here and two code units in the source. Matching and replacing are unaffected, because `$`, `{`, `}`, `\` and the line terminators are not surrogates and `.` only has to match a non-empty run.
- Watcher.ChangeSetsAttr: the same restriction as `ChangeSetsField`.
- Watcher.UpdateAllLastText: stated only when the token's key is not a watched attribute name. A watched attribute token earlier in the run can change that field through the intercepted `setAttribute` before the text token reads it.
- Watcher.UpdateAllLastAttr: stated only when the token's key is not a watched attribute name, for the same reason.
- FirstPaint.FirstPaintText: stated only for a node's text, and only when none of the text's keys is a watched attribute name. A watched attribute painted earlier can overwrite such a field during the same render (see `Examples.ConstructTitle`). The first paint of attributes is described by `Component.ApplyTokenTarget` step by step, not in closed form.
- FirstPaint.ConstructFirstPaintText: the same restriction as `FirstPaintText`.
- Watcher.ChangeSetsField: stated only when the changed name is not a watched attribute name. Otherwise an updated attribute token writes the field again.
- Watcher.ChangeSetsText: the same restriction as `ChangeSetsField`.
- Watcher.ChangeStep: does not model the `TypeError` that `(this.tokenIndex[name] || []).forEach` raises for a name such as `constructor` (endemic.js:121). That is the same prototype-name defect as the first finding. The model uses the corrected index, where such a name has no entry.

## Findings

| source | as written | input that shows it | evidently intended | confidence | as-written member | corrected member |
|---|---|---|---|---|---|---|
| endemic.js:35-39 | `!this.tokenIndex[key]` is tested on a `{}` literal, so a key naming an `Object.prototype` member finds the inherited value. No list is created, and `.push` then throws a `TypeError`. | a template containing `${constructor}` (or `${toString}`, `${__proto__}`, …) | every key gets its own token list | not executed | TokenIndex.PushTokenAsWritten | TokenIndex.PushToken |
| endemic.js:220 | `_imported[componentName]` is tested on a `{}` literal, so a name like `constructor` looks already imported and is never fetched | `Endemic.import("constructor")` | the first import of any name fetches `name.html` | not executed | Imports.ImportAsWritten | Imports.Import |

`TokenIndex.PrototypeKeyThrows` and `Imports.PrototypeNameNeverFetched` exhibit the two
discrepancies. `TokenIndex.LookupIsFilter` and `Imports.AtMostOneRequest` prove the
intended properties of the corrected definitions. The rest of the model uses the
corrected definitions.
