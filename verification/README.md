# strut-js template engine in Dafny

strut-js binds a DOM element to a data object. At construction, `_parse` walks the element
once. It records every non-blank text node that holds `{key}` placeholders as an entry of
`_nodes`: the node's text split by the placeholder pattern, and its path of child offsets.
It seeds the data object with each key bound to its own placeholder text. It builds `_map`,
the reverse index from each key to the positions of the entries that name it.
`update(u)` flattens a nested argument into dotted leaf paths and writes them with `_set`.
It then re-renders, once each, the entries that `_map` lists for those paths, reading
values with `_get`. `clone(d)` copies the tree, `_map` and entries. It rebinds each entry by
walking its path (`_xpath`) and runs one `update` with the parent's data shallow-merged
with `d`. `map(ds)` clones once per datum.

The model is a set of Dafny modules:

- `Results`: `Option`, `Result` and the two errors the engine can raise. `UnknownKeys` is
  the `TypeError` from `_map[path]` being `undefined`. `PathConflict` is the strict-mode
  `TypeError` from writing through a string.
- `Paths`: `path.split(".")`, its inverse, and the prefix relation on segment lists.
- `Placeholders`: the pattern `/\{([^\\\}]+)\}/g`, `String.split` with it, and the
  interleaving of literals and keys.
- `Data`: the data object as nested `Leaf(string) | Obj(map)` values; `_delve`, `_get` and
  `_set`.
- `Tree`: an abstract child-offset tree (`Element`, `Text`, `Other`), `_xpath` and the
  `textContent` write.
- `Flatten`: how `update` turns its argument into leaf writes, and applying them.
- `Template`: entries, `_parse`, `_map`, seeding and rendering.
- `Engine`: `update`.
- `Cloning`: `clone` and `map`.

An instance is the immutable record `Instance(tree, data, index, nodes)`. Each operation
returns a new instance, so a clone shares nothing with its parent. Updating either one
leaves the other as it was by construction.

`update` enumerates its argument with `for...in`. The leaf writes are a set of
(path, string) pairs, and `ApplyWrites` performs them in an order chosen by `:|`. It is
therefore ghost, and so are `UpdateOrdered`, `Update`, `Clone` and `MapClones`.
`UpdateOrdered` takes the writes in two groups and performs all of the first before any of
the second. `Update` has one group, because nothing fixes the order of an arbitrary
argument's keys. Its properties hold whatever order is chosen. Where they speak of the
values written, they assume the writes are `Unambiguous`: no path is written with two
different strings. `clone(d)` passes `Object.assign({}, parent data, d)` to `update`.
That object lists the parent's keys first, each with `d`'s value where `d` has the key
(`Kept`). It then lists the keys only `d` has (`Added`). `Clone` therefore writes `Kept`'s
group before `Added`'s, so in `clone({"a.b": x})` over a parent holding `{a: {b: y}}`, `x`
wins.

An entry is current when it shows its rendering against the data. `Current` asks this of
every entry that names a key holding a string. `Parse`, `Update` and `Clone` all produce
current instances. `Synced` asks it of every entry, and `Complete` asks that every key hold
a string. `Valid` also keeps the data object's own keys single segments (`Plain`), and a
value at a key is never an object (`Scalar`).

The re-render loop reads through `_get`, which may create empty intermediate objects.
`RenderReads` models that loop as written. `RenderReadsAgrees` proves that, for
prefix-free keys, it produces the same text as the pure `Render`. It also proves that it
changes the value at no key. `Update` therefore renders with `Render` and keeps the data
as `_set` left it.

## Model

| member | source | states |
|---|---|---|
| Paths.JoinSegments | index.js:51 | joining the segments of `path.split(".")` with dots gives the path back |
| Paths.SegmentsWithoutDot | index.js:47-49 | a path without a dot is its own single segment, so `_delve`'s shortcut agrees with the general loop |
| Paths.SegmentsJoin | index.js:51-52 | splitting a join of dot-free segments gives the same segments |
| Paths.SegmentsInjective | index.js:51 | two paths with the same segments are equal |
| Paths.SegmentsAtDot | index.js:51 | splitting `x + "." + y` splits the segment list at that dot |
| Paths.ProperPrefixIsDottedExtension | index.js:53-58 | one key's segments properly prefix another's exactly when the second is the first plus a dot and more text (`a` and `a.b`) |
| Placeholders.KeyRun | index.js:83 | the greedy `[^\\\}]+` run: every counted character is a key character, and the next one is not |
| Placeholders.PlaceholderAt | index.js:83 | the pattern matches at the start of a string exactly when it returns a key length; when it returns none, no key length matches |
| Placeholders.Split | index.js:100 | `text.split(_RGX)` has odd length, and every odd position holds a valid captured key |
| Placeholders.JoinSplit | index.js:100 | re-joining the split (each key wrapped back in braces) gives the original text |
| Placeholders.SplitJoin | index.js:100 | splitting the join of a plain split (keys valid, literals free of `{`) gives the same parts |
| Placeholders.SplitFindsPlaceholder | index.js:100-103 | the split has more than one part exactly when a placeholder occurs in the text |
| Placeholders.SplitKeyPrefix | index.js:83 | a placeholder at the start of the text splits off as an empty literal and its key |
| Placeholders.SplitLiteralPrefix | index.js:83 | a brace-free literal prefix merges into the first literal of the split |
| Placeholders.KeysOf | index.js:106-107 | the keys read at odd positions, in order: one for each odd index of the parts |
| Placeholders.KeysOfMembership | index.js:106-107 | a key is among the keys of a split exactly when it sits at some odd position |
| Placeholders.FillCongruence | index.js:150-157 | the render loop consults the value function only at key positions |
| Data.SetPathSucceeds | index.js:78-81 | `_set` succeeds exactly when no proper prefix of the path holds a string |
| Data.SetPathEffect | index.js:53-58 | after `_set`: the value sits at the path, objects sit on every proper prefix, nothing sits below a written string, and unrelated paths are unchanged |
| Data.SetPathSame | index.js:78-81 | writing a value a path already holds changes nothing |
| Data.GetPathEffect | index.js:67-70 | `_get` fails exactly when a string sits before the last intermediate; it returns the looked-up value; it changes only the path's proper prefixes, and nothing at all when the value exists |
| Data.GetPathAddsObjects | index.js:53-56 | `_get` only adds empty objects: wherever a value changes, an object now sits |
| Data.GetAfterPut | index.js:67-81 | `_get` after `_set` of the same path returns the written value and creates nothing |
| Data.PutFrame | index.js:78-81 | `_set` leaves every path unrelated to the written one as it was |
| Data.PutKey | index.js:78-81 | writing a string at one key of a prefix-free key set succeeds, changes no other key, and keeps every key writable and every string at a key |
| Data.PutSame | index.js:78-81 | writing the string already at a path changes nothing |
| Data.PutPlain | index.js:53-58 | `_set` adds at most the path's first segment as an own key, so an object whose own keys are single segments keeps them so |
| Tree.SetTextEffect | index.js:158 | the `textContent` write puts the text at its path and leaves every path that is neither that one nor above it unchanged |
| Tree.SetTextSame | index.js:158 | writing the text a node already has changes nothing |
| Tree.SetTextMissing | index.js:158 | where no text node sits at the path, the write changes nothing |
| Tree.BelowText | index.js:166-172 | `_xpath` finds nothing below a text node |
| Tree.TextPathsApart | index.js:166-172 | of two different text nodes, neither path leads through the other |
| Tree.SetTextKeepsText | index.js:158 | a text node stays a text node whatever text is written anywhere |
| Flatten.ApplyWritesSucceeds | index.js:137-139 | writing known keys of a prefix-free key set succeeds in any order, and keeps every key writable and every string at a key |
| Flatten.ApplyWritesEffect | index.js:128-140 | unambiguous writes to known keys leave each written key holding its string and every other key unchanged, whatever the order |
| Flatten.ApplyWritesSame | index.js:139 | writes that already hold change nothing |
| Flatten.WritesFromLeaves | index.js:128-139 | every leaf write is a string of the argument, written at the prefix plus the dotted path of keys that reaches it |
| Flatten.LeavesAreWritten | index.js:128-139 | every string of the argument is written at its dotted path |
| Flatten.TidyWrites | index.js:195 | a data object whose strings all sit at keys, passed back to `update`, writes exactly its key strings |
| Flatten.NestedWrites | index.js:129-131 | an object value contributes its fields' writes under `key + "."` |
| Flatten.SingleWrite | index.js:137-139 | a single string key writes its string at the prefix plus that key |
| Flatten.DottedSameWrites | index.js:128-139 | rewriting an argument with dotted keys only writes the same pairs |
| Flatten.ApplyWritesFrame | index.js:128-140 | writes to known keys of a prefix-free key set succeed in any order, leave a string at every written key and every other key unchanged, whatever the strings, and keep the object's own keys single segments |
| Flatten.WritesUnion | index.js:128-139 | the writes of an object made of two objects with disjoint keys are the writes of each |
| Flatten.LeafWrites | index.js:136-139 | an object of strings writes exactly each key with its string |
| Template.DescriptorsSound | index.js:90-105 | every entry `_parse` records lies below the current path, and its path leads to a recorded text node whose split is the entry's parts |
| Template.DescriptorsComplete | index.js:92-105 | every recorded text node below the root is found, with its split and its full path |
| Template.DescriptorsDistinct | index.js:92-105 | no two entries share a path |
| Template.RecordedIffPlaceholder | index.js:99-103 | the blank-text test never rejects a text with a placeholder, so a text is recorded exactly when it holds a placeholder |
| Template.RegisterEntries | index.js:106-114 | registering entry `j` appends `j` to a key's list once per occurrence of that key |
| Template.RegisterKeys | index.js:110-112 | registering an entry adds exactly its keys to `_map` |
| Template.IndexCounts | index.js:104-114 | `_map[k]` holds each entry once per occurrence of `k` in it, and no other entry |
| Template.IndexStep | index.js:104-113 | recording one more entry appends its position to a key's list once per occurrence of the key in it |
| Template.IndexEntries | index.js:104-114 | `_map[k]` lists exactly the entries that name `k` |
| Template.IndexKeys | index.js:110-113 | the keys of `_map` are exactly the keys the entries name |
| Template.IndexMembership | index.js:106-113 | a key is in `_map` exactly when some entry names it |
| Template.SeedKeysEffect | index.js:106-108 | seeding one entry's keys succeeds with prefix-free keys; each binds to its own `{key}`, other keys keep their values, and the object stays open and tidy |
| Template.SeedEffect | index.js:108 | with prefix-free keys, seeding succeeds; each key is bound to its own `{key}` text, and other keys keep their values |
| Template.RenderFrame | index.js:148-157 | an entry's rendering depends only on the values of the keys it names |
| Template.RenderSeeded | index.js:148-157 | with every key bound to its own placeholder, a split text renders back to itself |
| Template.GetKey | index.js:67-70 | `_get` of a key of a prefix-free set succeeds, returns the key's value, and leaves every key's value unchanged |
| Template.ReadPartKeep | index.js:150-156 | one turn of the render loop copies a literal or appends a key's shown value, and changes no key's value |
| Template.RenderReadsAgrees | index.js:148-157 | the render loop as written, reading through `_get`, succeeds on prefix-free keys; it yields the pure rendering and changes no key's value |
| Template.RenderReadsText | index.js:150-157 | the render loop as written builds the pure rendering |
| Template.RenderReadsKeep | index.js:150-157 | the render loop as written succeeds and changes no key's value |
| Template.ShowsKeys | index.js:150-157 | a rendering reads the data only at the keys it names |
| Template.ParseSpec | index.js:90-118 | with prefix-free keys, parsing succeeds; the instance keeps the element, is valid, every node shows its rendering against the seeded data, and every key holds `{key}` |
| Template.ParseValid | index.js:90-118 | with prefix-free keys, parsing succeeds, keeps the element, and gives a valid instance |
| Template.ParseSynced | index.js:90-118 | with prefix-free keys, each recorded node shows its rendering against the seeded data, and every key holds `{key}` |
| Template.ParseData | index.js:104-108 | seeding the empty object with the recorded entries succeeds and binds each key to `{key}` |
| Template.ParseShape | index.js:97-105 | every recorded entry has a non-empty path to a text node and names at least one key |
| Template.ParseCurrent | index.js:90-118 | with prefix-free keys, parsing succeeds and every entry naming a key that holds a string shows its rendering |
| Template.SeededValid | index.js:104-114 | entries at distinct text-node paths with prefix-free keys, seeded and indexed, form a valid instance |
| Template.ParseEntry | index.js:104-108 | each entry's node is a text node that renders from the seeded data to its own text |
| Template.ParseFinds | index.js:97-105 | a text node below the root gets an entry exactly when a placeholder occurs in it |
| Template.FoundIfPlaceholder | index.js:97-105 | a text node below the root with a placeholder in it gets an entry with its path |
| Template.PlaceholderIfFound | index.js:99-103 | a recorded text node holds a placeholder |
| Engine.TouchedSpec | index.js:128-137 | an entry is re-rendered exactly when one of its keys is written, and only once however often the key is written |
| Engine.OrderedOutcome | index.js:128-140 | an update in two groups throws exactly when it writes a path no placeholder names, reporting those paths; otherwise it succeeds |
| Engine.OrderedFrame | index.js:128-140 | a successful update in two groups keeps the entries and `_map`, leaves a string at every written key and every other key as it was, and keeps the object's own keys single segments |
| Engine.OrderedValues | index.js:128-140 | with each group unambiguous, the later group's strings hold, and so do the earlier group's at paths the later group does not write |
| Engine.OrderedValid | index.js:125-160 | an update in two groups keeps the instance valid |
| Engine.OrderedTree | index.js:148-158 | after an update in two groups, every touched entry shows its parts rendered against the final data, and every path on no touched entry's path is unchanged |
| Engine.UpdateOutcome | index.js:137 | `update` throws exactly when it writes a path no placeholder names, reporting those paths; otherwise it succeeds |
| Engine.UpdateData | index.js:128-140 | after `update`, written keys hold their strings and every other key keeps its value; entries and `_map` are unchanged |
| Engine.UpdateFrame | index.js:128-140 | whatever its strings, a successful update keeps entries and `_map`, leaves a string at every written key and every other key as it was |
| Engine.UpdateValid | index.js:125-160 | `update` keeps the instance valid |
| Engine.UpdateTree | index.js:148-158 | every touched entry shows its parts rendered against the new data, and every path on no touched entry's path is unchanged |
| Engine.RerenderHit | index.js:148-158 | the render loop leaves each touched entry showing its rendering |
| Engine.RerenderFrame | index.js:148-158 | the render loop changes nothing off the touched entries' paths |
| Engine.RerenderSame | index.js:148-158 | re-rendering entries that already show their rendering changes nothing |
| Engine.RerenderShown | index.js:148-158 | re-rendering entries that already show their rendering against the data leaves the tree unchanged |
| Engine.StepFrame | index.js:158 | one turn of the render loop changes nothing outside the touched entry's path |
| Engine.RerenderKeepsText | index.js:148-158 | the render loop keeps every text node a text node |
| Engine.UntouchedKept | index.js:148-158 | an entry that names no written key keeps its node, the values of its keys and its rendering, whatever the strings written |
| Engine.UpdateKeepsSynced | index.js:125-160 | if every entry showed its rendering before `update`, it still does afterwards |
| Engine.UpdateKeepsCurrent | index.js:125-160 | if every entry naming a key that holds a string showed its rendering before `update`, the same holds after it |
| Engine.UpdateKeepsComplete | index.js:128-140 | every key still holds a string after `update` |
| Engine.UpdateShape | index.js:125-160 | a successful update keeps `_nodes` and `_map` |
| Engine.UpdateEmpty | index.js:125-160 | `update({})` changes nothing |
| Engine.UpdateIdempotent | index.js:125-160 | repeating an update changes nothing further |
| Engine.UpdateDotted | index.js:129-139 | a nested argument and its dotted flattening update alike |
| Engine.UpdateNested | index.js:129-139 | `update({a: {b: v}})` is `update({"a.b": v})` |
| Engine.SyncedView | index.js:148-158 | what a synced template shows depends only on the values at its keys |
| Engine.EntryView | index.js:148-157 | an entry renders alike against two data objects that agree at every key |
| Engine.LastValuesWin | index.js:139 | after two updates, each key holds the value the second update alone gives it, when the second writes every path the first did |
| Engine.LastWriteWins | index.js:125-160 | for any valid instance, synced or not, an update that writes every path an earlier one did succeeds exactly when it would alone, and leaves the same view |
| Engine.LastViewWins | index.js:125-160 | for any valid instance, when both second updates succeed, the two instances show the same view |
| Engine.LastEntryWins | index.js:148-158 | an entry the second update touches shows its rendering of the same values either way; any other entry is touched by neither update and keeps its text |
| Cloning.MapClones | index.js:213-221 | `map(ds)` succeeds exactly when every clone does; it then gives one clone per datum, in order; otherwise it fails with the first failing clone's error |
| Cloning.MapResults | index.js:217-220 | the `forEach` loop stops at the first throw: it succeeds exactly when every call does, returns the values in order, and otherwise gives the first call's error that threw |
| Cloning.FreshValid | index.js:180-193 | the copied tree, `_map` and entries with empty data form a valid instance |
| Cloning.CloneOutcome | index.js:195 | `clone` throws exactly when the merged data writes a path no placeholder names |
| Cloning.CloneSpec | index.js:179-195 | a clone keeps the parent's entries and `_map` and is valid; merged strings sit at the written keys and nothing at the others; entries the merge names show their rendering, and the rest show the parent's text |
| Cloning.MergeSplit | index.js:195 | the parent's keys with the override's values and the override's new keys make up `Object.assign({}, parent, d)`, and their writes make up its writes |
| Cloning.CloneFrame | index.js:179-195 | whatever the strings, a clone keeps the parent's entries and `_map`, has a string at every path the merge writes and nothing at the other keys; entries the merge names show their rendering, the rest the parent's text |
| Cloning.CloneMerged | index.js:195 | when the merged data is unambiguous, every write it makes holds in the clone |
| Cloning.CloneLaterWins | index.js:195 | with each group unambiguous, every write of the override's new keys holds, and every write of the parent's keys holds where the new keys do not write |
| Cloning.CloneValid | index.js:179-195 | every successful clone of a valid instance is valid |
| Cloning.CloneCurrent | index.js:179-195 | in every clone, each entry naming a key that holds a string shows its rendering |
| Cloning.OverrideGroups | index.js:195 | with string values under keys, the parent's group writes the override's string at each key the override replaces and the parent's strings elsewhere, the new keys' group writes each new key's string, and all paths are keys |
| Cloning.KeptShallow | index.js:195 | with string values under keys, the parent's group is the parent's data with the replaced keys overwritten by single-segment strings |
| Cloning.CloneOnePath | index.js:179-195 | `clone({p: x})` for any key `p`, dotted or not, of a complete template succeeds, holds `x` at `p` and shows every entry rendered |
| Cloning.MergeWrites | index.js:195 | strings under dot-free keys merged over the parent's data write each override key with its string, and each other key with the parent's string |
| Cloning.CloneOverride | index.js:179-195 | `clone(d)` of a complete template with string values under any of its keys, dotted or not, succeeds; each overridden key holds the override and every other key the parent's string; every entry shows its rendering |
| Cloning.CloneSelf | index.js:179-195 | `clone()` of a current template (every instance `Parse`, `Update` and `Clone` build) succeeds with the same tree, entries and `_map`, and the same value at every key |
| Cloning.CloneSameTree | index.js:186-195 | `clone()` of a current template has the parent's tree: every entry it re-renders already shows that rendering |
| Cloning.CloneValues | index.js:195 | with string values under any keys, `clone` succeeds; a key is written exactly when the override or the parent has a value for it; each overridden key holds the override, even a dotted one the parent reaches through an object, and every other key holds the parent's value |
| Cloning.CloneSynced | index.js:186-195 | a clone whose merged data writes every key shows every entry rendered |
| Cloning.AllMentioned | index.js:106-113 | every entry names its first key, so it mentions any set of paths holding every key |
| Cloning.ShownAgain | index.js:148-157 | an entry of a current template naming a path that holds a string shows its rendering against any data agreeing at every key |
| Cloning.MergeKnown | index.js:195 | strings under dot-free keys merged over the parent's data write only keys, each with one string |

## Left out

- DOM lookup (`_el`, `document.querySelector`) and the constructor's throw when no element is found (index.js:21-39). The model starts from a given tree.
- The DOM side effects: `textContent` assignment and HTML escaping, `cloneNode`, `removeAttribute("id")` on the clone's root, and attaching clones to a parent in `clone` and `map` (index.js:158, 181, 185, 197-203, 222-234). The tree is a value, `SetText` stands for the `textContent` write, and the clone starts from the parent's tree.
- The stripping of `id` attributes along every walked path is not modelled. The code removes only the root's `id` (index.js:185), and the model has no attributes.
- JavaScript coercions: non-string leaf values (numbers, booleans, `null`, which `typeof` calls an object), and string indexing in `_get` when the last intermediate is a string (index.js:129, 153). Leaves are strings. A read through a string gives `undefined`.
- Keys that clash as prefixes (`{a}` and `{a.b}` in one template). `ParseSpec` requires prefix-free keys, and the update and clone lemmas rely on `Valid`. Without that, `_set` can throw or overwrite another key's object.
- `Object.prototype` names (`constructor`, `__proto__`) as keys, and inherited properties of `_map`.
- The enumeration order of `for...in` within one argument, and that of the re-render set. `ApplyWrites` picks an arbitrary order within a group, and `Rerender` visits entries by position. Statements about written values assume the writes within a group are `Unambiguous`, and entry paths are distinct text nodes.
- `Object.assign` and `for...in` list integer-like keys (`"0"`, `"12"`) before the others. `Clone` does not model that. It cannot matter here: the parent's own keys are single segments, so a key only the override has never names a path the parent's keys write, unless it is dotted, and a dotted key is never integer-like.
- `Cloning.CloneSpec`: assumes the merged writes are `Unambiguous`. An override that writes one path twice under two of its own keys (`{"a.b": x, a: {b: y}}`) depends on its key order, which the model does not fix. `Cloning.CloneLaterWins` covers an override whose own writes are unambiguous.
- Writes made before an unknown key throws. The model returns the error and no instance.
- The empty intermediate objects `_get` creates while the render loop reads a dotted key (index.js:54-56, reached from index.js:153). `Update` returns the data as the writes left it, without them. No key can observe the difference: `Template.RenderReadsKeep` and `Template.RenderReadsAgrees` prove the loop changes no key's value and builds the same text.
- `Engine.LastWriteWins`: states that the two instances show the same view (same entries, `_map`, key values and entry nodes), not that they are equal. Data objects can differ in empty intermediate objects, which no key can observe.
- `Cloning.CloneOverride`: covers overrides whose values are strings, under plain or dotted keys. For nested overrides, `Cloning.CloneSpec` and `Cloning.CloneLaterWins` give the statement.
- `Cloning.MapClones`: models only the clones `map` returns. Clearing and filling the parent is DOM attachment.
- Unknown keys: the test suite (index.spec.js:40-44, 63-67) expects an update with a key no placeholder names to be ignored silently. The code dereferences `_map[path + key]` unguarded (index.js:137) and throws. The model follows the code.
- Keys are used exactly as captured: no trimming and no `key=default` syntax, as in the code (index.js:83, 107).
