# vim-scissors stylesheet sync, modelled in Dafny

vim-scissors keeps a stylesheet open in an editor in sync with the same
stylesheet live in a browser. Both sides see a stylesheet as an ordered list
of rules, and a rule's position in that list is its only identity. This
project models two halves of that engine. They speak different wire formats,
and each is specified against its own format.

* **The server's sheet** (`lib/sheet.js`, module `ServerSheet` in
  `server_sheet.dfy`):
  * The constructor builds the rules from the rule texts a browser reports.
    It splits each text at `{`, at commas and at semicolons. Each
    declaration goes through `/^(.*):\s*(.*)$/`, and each match is assigned
    into a style object.
  * `getRulesDiff` compares two rule lists position by position. It emits
    a changed-rule entry `{index, selectorText?, style}` for each position
    that changed. New rules past the old length are emitted as the rules
    themselves, each tagged with the old length. Each old position past the
    new length gets `{index, remove: true}`.
  * `getCSSText` renders the rules as CSS.
* **The browser's rule tree and patcher** (`scissors.js`, modules
  `RuleTree` in `rule_tree.dfy` and `ClientSheet` in `rules_list.dfy`):
  * The rule values `Rule`, `MediaRule` and `KeyframesRule`, plus the shared
    `Rule.dummy` placeholder.
  * Their JSON form (`toJSON`, `initJSON`, `Rule.fromJSON`,
    `RulesList.initJSON/toJSON`) and their CSS text (`toString`).
  * `RulesList.applyDiff`, which replays a stream of `{skip, remove, insert,
    type, ...}` entries at a cumulative cursor. It splices the in-memory
    list and mirrors removals and insertions into the browser's style sheet
    (the sink). When the sink refuses a rule, a placeholder fills its slot.

JavaScript values shared by both halves are in module `Js` (`js.dfy`):
* `undefined` is `Option`.
* `Array.prototype.join` is `Join`.
* A style object is a `Style`: its declarations in enumeration order, with
  distinct property names. `style[p]` is `Lookup` and `style[p] = v` is
  `Assign`.

Each operation that works by updating state is a method proved against a
function:
* `Sheet.GetRulesDiff` against `RulesDiff`.
* `Sheet.GetCSSText` against `CssText`.
* The `Sheet.FromBrowser` constructor against `RulesFromTexts`.
* `RulesList.ApplyDiff` against `Patch`.

Lemmas state what those functions promise.

The browser's style sheet is a class with `insertRule`/`deleteRule`. Its
parser is an oracle `accepts: string -> bool`: it decides which rule texts
`insertRule` takes. The model has two of the JavaScript exceptions that
escape `applyDiff`: a removal past the end of the list, and an insertion
refused while `cssOk` is set. Each is a `false` result, and the lists are
left as they were when it was thrown. Two other escaping throws are not
modelled (see "## Left out"): a `media` payload with no `rules`
(scissors.js:337), and a keyframes diff naming a key the rule does not have
(scissors.js:271).

`applyDiff` declares `cssOk` once for the whole call and never resets it, so
a refusal after an earlier accepted insertion throws (see "## Findings").
`Patch` and `Step` take a flag `sticky`:
* With `sticky`, `cssOk` carries over from pass to pass, as the code has it.
  The methods of `RulesList` are proved against this mode.
* Without it, every pass starts with `cssOk` unset, and a refused rule
  always leaves `Rule.dummy` in its slot, as the code's comment intends.
The lemmas about `Patch` hold in both modes.

## Model

| member | source | states |
|---|---|---|
| Js.Assign | lib/sheet.js:30 | after `style[p] = v`, looking `p` up finds `v`, every other property looks up as before, the keys gain `p`, and a new property goes at the end |
| Js.AssignKeepsPositions | lib/sheet.js:30 | an assignment never moves an existing property: every declaration keeps its position in enumeration order |
| ServerSheet.Split | lib/sheet.js:25-26 | `split(/<sep>\s*/)` gives at least one piece, and no piece holds the separator |
| ServerSheet.SplitTrimmed | lib/sheet.js:24-25 | since a separator takes the whitespace after it along, no piece after the first starts with whitespace |
| ServerSheet.Selectors | lib/sheet.js:24-25 | the selector list has no empty strings and no commas |
| ServerSheet.SelectorsTrimmed | lib/sheet.js:24-25 | no selector after the first starts with whitespace |
| ServerSheet.SplitJoin | lib/sheet.js:24-33 | a list of comma-free pieces, none after the first starting with whitespace, joined with `', '` splits back into the same list |
| ServerSheet.SelectorsRoundTrip | lib/sheet.js:24-33 | the stored selector text, split again by `split(/,\s*/).filter(Boolean)`, gives back exactly the selectors it was joined from |
| ServerSheet.MatchDeclarationSplits | lib/sheet.js:29 | a match cuts the declaration at the last colon of its first line: the property lies on that line before it, whitespace follows it, and the value starts with no whitespace and has no line break |
| ServerSheet.MatchDeclarationFinds | lib/sheet.js:29-30 | a browser declaration `p: v` (one line, no colon in the value) matches as property `p` with value `v` |
| ServerSheet.ColonInValue | lib/sheet.js:29 | `a: x: y` matches as property `a: x` with value `y` |
| ServerSheet.GreedyMissplits | lib/sheet.js:29 | for a value holding a colon, `p: v` never matches as property `p` with value `v`: either nothing matches or the property is longer than `p` |
| ServerSheet.MatchFirstFinds | lib/sheet.js:29 | cutting at the first colon instead, `p: v` matches as property `p` with value `v` for any one-line value, colons included, when `p` has no colon |
| ServerSheet.StyleFromKeys | lib/sheet.js:27-31 | the built style holds exactly the properties some declaration matched |
| ServerSheet.StyleFromLastWins | lib/sheet.js:28-31 | each property holds the value of the last declaration that names it |
| ServerSheet.StyleFromOrder | lib/sheet.js:28-31 | properties are listed in the order they were first declared |
| ServerSheet.BuildStyle | lib/sheet.js:27-31 | the `forEach` over the declarations builds the style `StyleOf` specifies |
| ServerSheet.RulesFromTextsAt | lib/sheet.js:22-36 | the `map` gives one rule per rule text, with rule `k` built from text `k` alone and untagged |
| ServerSheet.Sheet.FromBrowser | lib/sheet.js:21-36 | the array branch of the constructor keeps the name and builds one rule per text, in order, each with the joined selectors, the style `BuildStyle` builds and no tag |
| ServerSheet.StyleDiffLookup | lib/sheet.js:68-81 | the style diff is silent on properties whose values agree; otherwise it carries the new value, or `''` for a property the new style lacks |
| ServerSheet.StyleDiffEmptyIff | lib/sheet.js:68-83 | the style diff is empty exactly when both styles hold the same properties with the same values |
| ServerSheet.DiffStyle | lib/sheet.js:68-81 | the two property loops build the style diff and raise `dirty` exactly when they write into it |
| ServerSheet.DiffRule | lib/sheet.js:59-90 | `dirty` is raised exactly when the selector or some property changed; the entry then carries the position, the new selector (or `null` for an empty one) and the style diff |
| ServerSheet.RulesDiffChanged | lib/sheet.js:50-91 | a changed-rule entry for position `i` is in the diff exactly when both lists have a rule at `i` that changed, and it holds that rule's change |
| ServerSheet.RulesDiffEmptyIff | lib/sheet.js:42-103 | the diff is empty exactly when both lists have the same length and every position has the same selector and an equivalent style |
| ServerSheet.SelfDiffEmpty | lib/sheet.js:42-103 | diffing a sheet against an identical one yields the empty list |
| ServerSheet.RulesDiffLength | lib/sheet.js:50-99 | the diff has at most `max(len old, len new)` entries and at least their difference |
| ServerSheet.RulesDiffOrdered | lib/sheet.js:50-99 | changed entries come first, then new rules, then removals; index tags never decrease, and they strictly increase except among new rules |
| ServerSheet.RulesDiffTail | lib/sheet.js:50-99 | after the changed entries come the new rules in order, each tagged with the old length, or the removals of the old positions past the new length in increasing order |
| ServerSheet.AppendRemovals | lib/sheet.js:94-99 | the removal loop appends `{index: i, remove: true}` for each `i` from the new length up to the old one |
| ServerSheet.Sheet.GetRulesDiff | lib/sheet.js:42-103 | returns `RulesDiff` of the two lists, and tags each of the other sheet's rules past this sheet's length with that length, leaving the rest unchanged |
| ServerSheet.CssTextEmpty | lib/sheet.js:105-113 | an empty sheet renders as `""`; a rule with no declarations renders as its selector and an empty block |
| ServerSheet.CssTextAppend | lib/sheet.js:105-113 | one more rule renders as one more block after a blank line |
| ServerSheet.Sheet.GetCSSText | lib/sheet.js:105-113 | the nested loops render exactly `CssText` of the rules |
| RuleTree.ListToJson | scissors.js:392-396 | `RulesList.toJSON` gives one object per rule, in order, each the rule's own `toJSON` |
| RuleTree.InitJsonAppend | scissors.js:387-390 | `initJSON` keeps input order: a concatenation builds the rules of each part, one after the other |
| RuleTree.InitJsonSingle | scissors.js:133-140 | an object yields its rule when `Rule.types` knows its type and nothing otherwise; a comment yields nothing |
| RuleTree.InitJsonClean | scissors.js:387-390 | a list built from JSON never holds a placeholder, at any depth |
| RuleTree.RuleRoundTrip | scissors.js:133-206 | `Rule.fromJSON(rule.toJSON())` rebuilds a plain rule's selector and style and a keyframes rule's name and keyframes; a media rule loses only its nested placeholders; the placeholder yields nothing |
| RuleTree.ListRoundTrip | scissors.js:335-396 | `initJSON(list.toJSON())` is the list with every placeholder removed, at any depth |
| RuleTree.RoundTripOfInitJson | scissors.js:387-396 | a list built from JSON survives a JSON round trip unchanged |
| RuleTree.StyleTextAppend | scissors.js:37-43 | `Style.toString` renders one more declaration as `p: v;` after the others and a space, before ` }` |
| RuleTree.ListTextAppend | scissors.js:398-401 | `RulesList.toString` renders one more rule after a blank line |
| ClientSheet.RemoveRunSpec | scissors.js:413-437 | `remove: n` deletes the `n` rules at the cursor and shifts later ones down; the sink loses a text at the same position for each one that is not a placeholder; with fewer than `n` rules left it removes the rest and then throws |
| ClientSheet.InsertEntrySpec | scissors.js:439-462 | an insertion that does not throw: an untyped payload inserts nothing; a typed one grows the list by one at `min(cursor, length)` and shifts the later rules up; the slot holds the built rule if the sink takes its text, and `Rule.dummy` otherwise, with the sink unchanged in that case |
| ClientSheet.InsertBranchSpec | scissors.js:439-462 | the insertion branch throws exactly when a typed payload is refused while `cssOk` is set, and then changes nothing; otherwise it inserts as `InsertEntry` does; `cssOk` ends up set once any rule was taken |
| ClientSheet.ApplyRuleDiffSpec | scissors.js:167-174 | `rule.applyDiff` keeps the rule's kind; a non-empty `selectorText`, `mediaText` or `name` replaces the rule's own; style and keyframes stay; a media rule takes the nested patch of `rules` and throws when that throws; the placeholder stays as it is |
| ClientSheet.StepSpec | scissors.js:406-466 | one entry adds its `skip` to the cursor; a removal run past the end throws; after the removals, a rule at the cursor without `insert` is patched in place with every other rule and the sink left alone; an insertion throws exactly when a typed payload is refused while a sticky `cssOk` is set; a completed step loses `remove` rules and gains one exactly when a typed payload is inserted |
| ClientSheet.StaleOkThrows | scissors.js:449-460 | as written, a taken rule followed by one of unknown type ends `applyDiff` with an exception and only the first rule; with `cssOk` reset for every pass, the patch completes with `Rule.dummy` in the second slot |
| ClientSheet.RefusalKeepsGoing | scissors.js:449-461 | with `cssOk` reset for every pass, an insertion never throws and is exactly `InsertEntry` |
| ClientSheet.PatchSkip | scissors.js:404-411 | the cumulative skip is the sum of the `skip` fields read, all of them when the loop completes |
| ClientSheet.PatchCursor | scissors.js:404-411 | the cursor of entry `i` is `i` plus the `skip` fields of entries `0..i` |
| ClientSheet.PatchSkipGrows | scissors.js:404-411 | the cumulative skip never decreases |
| ClientSheet.PatchStops | scissors.js:403-468 | once an entry throws, later entries change nothing |
| ClientSheet.PatchRulesIgnoreSink | scissors.js:354-362 | the in-memory result of a patch does not depend on what the sink holds, only on which texts it accepts |
| ClientSheet.StyleSheet.InsertRule | scissors.js:449-457 | `insertRule` succeeds exactly for an index within the list and an accepted text, and then splices the text in |
| ClientSheet.StyleSheet.DeleteRule | scissors.js:431-436 | `deleteRule` succeeds exactly for an index within the list, and then removes that text |
| ClientSheet.RulesList.InitJSON | scissors.js:387-390 | the rules become those `initJSON` builds from the objects |
| ClientSheet.RulesList.RemoveRules | scissors.js:413-437 | the removal loop leaves the lists and the outcome `RemoveRun` specifies |
| ClientSheet.RulesList.Insert | scissors.js:439-462 | the insertion branch leaves the lists, `cssOk` and the outcome that `InsertBranch` specifies |
| ClientSheet.RulesList.ApplyEntry | scissors.js:407-466 | one pass of the loop leaves the lists, the skip, `cssOk` and the outcome that `Step` specifies with a sticky `cssOk` |
| ClientSheet.RulesList.ApplyDiff | scissors.js:403-468 | the rules, the sink's texts and the outcome are those of `Patch` over the whole diff, with one `cssOk` for the whole call |

## Left out

- `server.js` and `lib/server.js`: WebSocket, HTTP and editor plumbing, with no list logic of their own.
- The string branch of the `Sheet` constructor (lib/sheet.js:5-20): a wrapper over the external `css.parse` library.
- The implicit globals of `getRulesDiff` (lib/sheet.js:44-47) are modelled as locals; nothing outside reads them.
- `console.error`/`console.log` calls are not modelled; they change no state.
- Prototype-chain keys: `prop in ourStyle` also sees `Object.prototype` members, and `style['__proto__'] = v` sets the prototype. The model treats every name as an ordinary own property, since CSS property names never clash with these.
- RuleTree.FromJson: `Rule.types[obj.type]` (scissors.js:134) also finds `Object.prototype` members. For `type: 'constructor'` it builds a plain object with no `initJSON`, and the call throws outside the `try` (scissors.js:448). The model treats every type other than `rule`, `media` and `keyframes` as unknown, since the server never sends such a type.
- Integer-like property names, which JavaScript enumerates before the others, are enumerated in insertion order like every other name; CSS property names are never integer-like.
- `Rule.fromCSS`, the `initCSS` methods and `Style.initCSS`: they read the live DOM. The `RulesList` constructor takes the rules `initCSS` would read as a parameter.
- ClientSheet.InsertEntry: after a successful `insertRule`, the source re-reads the rule from the browser (`rule.initCSS`, scissors.js:458-460); the model keeps the rule built from JSON.
- ClientSheet.RemoveOne: the "rule moved" search (scissors.js:421-430) compares DOM objects; the model deletes from the sink at the cursor, the position the source checks first.
- ClientSheet.ApplyRuleDiff: `Style.applyDiff` writes only to the DOM style, so the in-memory style is unchanged, as in the source. `Keyframes.applyDiff` and `Keyframe.applyDiff` (scissors.js:261-322) are not modelled: a keyframes rule keeps its keyframes. The DOM writes to `cssRule.selectorText`, `cssRule.mediaText` and `cssRule.name` are not modelled either.
- ClientSheet.ApplyRuleDiff: a nested media rule's own sink (its `CSSMediaRule`) is given as empty and its final state is dropped. `PatchRulesIgnoreSink` shows that the in-memory rules do not depend on it.
- RuleTree.Json: field presence is not modelled. An absent string field is read as `""` and an absent count as `0`; only `insert` is tested for presence. The code's truthiness tests treat the two alike, but its rendering does not. A rule built from JSON without `selectorText`, `mediaText` or `name` renders as `undefined{ }`, `@media undefined {…` or `@-webkit-keyframes undefined {…` (scissors.js:156, 342, 196). `RuleText` renders an empty field there instead. Negative `skip` or `remove` values are not modelled.
- RuleTree.FromJson: a `media` object with no `rules` field throws at `obj.rules.map` (scissors.js:337). The call is outside the `try` (scissors.js:448), so the exception escapes `applyDiff`. The model reads the missing list as empty and inserts the media rule.
- ClientSheet.ApplyRuleDiff: a keyframes diff naming a key the rule does not have reads `keyframe.cssKeyframe` on `undefined` (scissors.js:271), and the exception escapes `applyDiff`. The model leaves keyframes alone and completes the pass.
- `Comment.toString` and a comment's text: `Comment.initJSON` returns nothing, so no comment ever reaches a rule list.
- `xhr`, `captureStylesheet(s)` and the WebSocket handlers (scissors.js:470-555): network and DOM I/O.

## Findings

| source | as written | input that shows it | evidently intended | confidence | as-written member | corrected member |
|---|---|---|---|---|---|---|
| scissors.js:449-460 | `var cssOk` is set by the first accepted insertion and never reset. A later refused or unknown-type insertion then calls `initCSS` on `Rule.dummy`, which has no such method. `applyDiff` throws before the splice, and later entries are skipped | diff `[{type: 'rule', selectorText: 'a'}, {type: 'foo'}]` on an empty list, with a sink that accepts every text | the refused rule is replaced by `Rule.dummy` and the patch goes on, as the comment at scissors.js:455 says | high, not executed | ClientSheet.StaleOkThrows | ClientSheet.RefusalKeepsGoing |
| lib/sheet.js:29 | the greedy `(.*)` ends the property at the last colon of the declaration's first line, so a value holding a colon is cut into the property | `a: x: y`, or `background: url("http://a/b.png")` | the property ends at the first colon, as the lazy `(.*?):` of `Style.declarationRegexp` (scissors.js:15) does | high, not executed | ServerSheet.GreedyMissplits | ServerSheet.MatchFirstFinds |

The methods keep the code as written: `RulesList` uses a sticky `cssOk`, and
`Sheet.FromBrowser` uses the greedy match. The lemmas about the built style
(`StyleFromKeys`, `StyleFromLastWins`, `StyleFromOrder`) hold for any
sequence of matches, so they hold for either match.
