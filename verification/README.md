# Dragos-SceneBuilder, modelled in Dafny

Dragos-SceneBuilder is a set of ComfyUI nodes for composing a structured
scene description: variables, objects and schema-driven "structured
builder" nodes feed a scene compiler, and a prompt-file loader supplies
prompt text. This project models the pure core of that system over
immutable values and proves what it promises:

- **Schema-driven field engine** (`web/dragos_structured_builder.js`):
  `prettifyLabel`, the "other" rule of the dropdown handler, the field
  list `buildWidgetsFromSchema` produces (dropdowns, text boxes, headers,
  the gender pseudo-field, dotted paths, inherited condition maps),
  `evaluateConditions`, `buildNestedObjectFromWidgets`, the restore loop
  of `rebuild` and the `_meta` it stores.
- **Graph resolver and scene composer** (`web/dragos_dynamic.js`):
  `isNodeActive`, `getWidgetValue`, `getValueRecursive` over a read-only
  graph snapshot, the scene mapping of `refreshNode` (with `camera` and
  `character_N` keys) and its dynamic-input rule.
- **Prompt-file parser** (`parse_prompt_file` and `load_prompt` in
  `nodes.py`, `parsePrompt` and `loadPromptFile` in
  `web/dragos_prompt_loader.js`).
- **Python value constructors** (`nodes.py`): `is_valid_prompt_var`,
  `get_text`, `build_object`, `_unwrap_prompt_var`, `compile_json` and the
  structured builder's `build`. The older copy in `scene_builder.py`
  is modelled too. Its `is_valid_prompt_var`, `get_text`, `build_object`
  and `_unwrap_prompt_var` (scene_builder.py:21-130) match the
  `nodes.py` ones apart from debug output, so the `Backend` members
  model both. Its different `compile_json` and `build` are in
  `LegacyBackend`.

One document type, `Json.JVal`, serves both languages. A mapping is an
ordered list of entries with unique keys. Assigning to an existing key
overwrites its value in place; assigning a new key appends it. That is how
JavaScript objects with non-numeric keys and Python dicts behave.
Further conventions:

- `Option.None` stands for JavaScript `undefined`; `JNull` stands for
  `null` and Python `None`.
- A Python tuple is a `JTuple`.
- Serialised text is represented by the document it encodes.

Modules, one per file: `Wrappers`, `Text` (ASCII case, trimming,
splitting, decimal rendering), `Json`, `Widgets`, `SchemaForm`,
`Conditions`, `Nested` (dotted-path insertion and lookup, serialisation
and restore), `Rebuild`, `Graph`, `Ports`, `Scene`, `Prompt`, `Backend`,
`LegacyBackend`.

The dynamic-input rule of `refreshNode` (web/dragos_dynamic.js:175-185)
removes one trailing free input per call, so a list that ends in k free
inputs needs k - 1 calls to settle. `Ports.Converges` proves the exact
number of calls, and `Ports.TwoCallsExample` exhibits a list that needs
two.

## Model

| member | source | states |
|---|---|---|
| SchemaForm.PrettifyLabel | web/dragos_structured_builder.js:22-24 | `prettifyLabel(key)`, the modelling function. Its contract is stated by `PrettifyLabelSpec` and `PrettifyLabelIdempotent` |
| SchemaForm.SpaceUnderscores | web/dragos_structured_builder.js:23 | every `_` becomes a space, every other character is kept, the length is unchanged |
| SchemaForm.CapitalizeAt | web/dragos_structured_builder.js:23 | a word character is upper-cased exactly when no word character precedes it |
| SchemaForm.PrettifyLabelSpec | web/dragos_structured_builder.js:22-24 | the label is as long as the key and contains no `_`; each character is the key's, with `_` turned into a space and the first letter or digit of each word upper-cased |
| SchemaForm.PrettifyLabelIdempotent | web/dragos_structured_builder.js:22-24 | prettifying a label again changes nothing |
| SchemaForm.OnComboChange | web/dragos_structured_builder.js:66-73 | only the value changes. A non-"other" value is left alone. After "other", a non-null, non-empty reply becomes the value; otherwise the value becomes the first option or `""` |
| SchemaForm.FirstOptionOrEmpty | web/dragos_structured_builder.js:72 | `values[0] \|\| ""`: the first option when it is truthy, else `""` |
| SchemaForm.OtherSelectionResolves | web/dragos_structured_builder.js:67-73 | after the handler the value is defined, and it is "other" again only if the user typed "other" or the first option is "other" |
| SchemaForm.BuildForm | web/dragos_structured_builder.js:88-160 | `buildWidgetsFromSchema(node, schema)` at the root, the modelling function. `FormShapes` and `UnderscoreKeysIgnored` state its contract |
| SchemaForm.BuildLevel | web/dragos_structured_builder.js:88-160 | one recursive call of `buildWidgetsFromSchema`, the modelling function. `LevelGenderFirst`, `LevelShapes`, `LevelUnder`, `LevelEntrySlice` and `LevelConditions` state its contract |
| SchemaForm.GenderWidgets | web/dragos_structured_builder.js:92-101 | helper: a level emits at most one gender pseudo-field. `LevelGenderFirst` carries the rule |
| SchemaForm.LevelGenderFirst | web/dragos_structured_builder.js:92-101 | a truthy `_meta.gender` puts one pseudo-field with path `Gender` and no conditions ahead of the level's keyed entries; otherwise the level is just its entries |
| SchemaForm.FormShapes | web/dragos_structured_builder.js:88-160 | every built field is visible with no popup value. A dropdown's value is its first option; a text box starts at `""`; a header has no path; the gender field has no conditions |
| SchemaForm.LevelShapes | web/dragos_structured_builder.js:88-160 | the shape rule for every field of one schema level |
| SchemaForm.EntriesShapes | web/dragos_structured_builder.js:103-159 | the shape rule for the fields of a run of keyed entries |
| SchemaForm.EntryShapes | web/dragos_structured_builder.js:103-159 | the shape rule for the fields of one keyed entry |
| SchemaForm.LevelUnder | web/dragos_structured_builder.js:107-145 | below a non-empty parent path, every path-bearing field's path starts with `parent.` |
| SchemaForm.EntriesUnder | web/dragos_structured_builder.js:107 | the same prefix rule for a run of entries |
| SchemaForm.EntryUnder | web/dragos_structured_builder.js:107-145 | the same prefix rule for one entry, including its nested subtree |
| SchemaForm.NestedEntryLayout | web/dragos_structured_builder.js:126-146 | a nested object yields exactly one path-less header carrying the merged conditions. The header is followed immediately by its subtree's fields, whose paths lie under `parent.key` |
| SchemaForm.ScalarEntryLayout | web/dragos_structured_builder.js:112-124 | an array yields one dropdown valued at its first element with path `parent.key` (`key` at the root); `""` or `"string"` yields one text box valued `""`; any other scalar yields nothing |
| SchemaForm.Unreserved | web/dragos_structured_builder.js:104 | the entries kept are those of the level whose key does not start with `_` |
| SchemaForm.UnderscoreKeysIgnored | web/dragos_structured_builder.js:103-104 | keys starting with `_` produce no fields: building from the unreserved entries gives the same list |
| SchemaForm.BuildEntriesAppend | web/dragos_structured_builder.js:103-159 | the fields of consecutive entries are concatenated in key order |
| SchemaForm.EntrySlice | web/dragos_structured_builder.js:103-159 | entry i's own fields appear contiguously, after the fields of the entries before it |
| SchemaForm.EntryOwnConditions | web/dragos_structured_builder.js:122-157 | the first field of a producing entry carries the level's merged conditions |
| SchemaForm.LevelEntrySlice | web/dragos_structured_builder.js:88-159 | in a level's output, entry i's fields sit after the gender field and the earlier entries, and its first field carries the merged conditions |
| SchemaForm.LevelEntryRange | web/dragos_structured_builder.js:88-159 | in a level's output, entry i's fields sit after the gender field and the earlier entries |
| SchemaForm.LevelEntryHead | web/dragos_structured_builder.js:89-157 | the first field of entry i in a level carries the merged conditions |
| SchemaForm.LevelConditions | web/dragos_structured_builder.js:89 | the merged condition map is the inherited map overridden key by key by the level's own `_conditions` |
| Conditions.ValueTableOf | web/dragos_structured_builder.js:166-170 | the first loop of `evaluateConditions`, the modelling function. `ValueTableIsLastWriter` states its contract |
| Conditions.Includes | web/dragos_structured_builder.js:177 | `allowed.includes(current)`, the modelling predicate. For a list it is membership of a string or `null` value; an object or array value never matches, because `includes` compares those by reference. For a string it is substring search. `EvaluateSpec` and `GenderConditionExample` state the visibility rule it feeds |
| Conditions.ReferenceNeverIncluded | web/dragos_structured_builder.js:177 | an object or array value is not in a condition list, even one holding an equal value |
| Conditions.ValueTableIsLastWriter | web/dragos_structured_builder.js:166-170 | the lookup table gives every key the value of the last path-bearing field whose last path segment is that key, and `undefined` when there is none |
| Conditions.ApplyVisibility | web/dragos_structured_builder.js:171-183 | helper: the second loop keeps the number of fields. `ApplyVisibilityAt` and `EvaluateSpec` carry the rule |
| Conditions.ApplyVisibilityAt | web/dragos_structured_builder.js:171-183 | a field with a condition map is hidden exactly when some condition fails; a field without one is left unchanged |
| Conditions.Evaluate | web/dragos_structured_builder.js:165-184 | helper: evaluation keeps the number of fields. `EvaluateSpec` carries the rule |
| Conditions.EvaluateSpec | web/dragos_structured_builder.js:165-184 | only hidden flags change. Fields without conditions keep their flag. A field with conditions is visible exactly when every condition key's last-writer value is truthy and allowed. An empty map means visible |
| Conditions.ValueTableDependsOnPathsAndValues | web/dragos_structured_builder.js:167-170 | the table depends only on the fields' paths and values, not on their hidden flags |
| Conditions.EvaluateIdempotent | web/dragos_structured_builder.js:165-184 | evaluating twice equals evaluating once |
| Conditions.VisibleSingle | web/dragos_structured_builder.js:174-181 | with one condition, the loop's verdict is that condition |
| Conditions.SingleCondition | web/dragos_structured_builder.js:171-183 | a field with a single condition is hidden exactly when the last writer of its key fails it |
| Conditions.GenderExampleWriter | web/dragos_structured_builder.js:166-170 | in a two-field example, the `gender` dropdown is the last writer of `gender` |
| Conditions.GenderExampleRule | web/dragos_structured_builder.js:171-183 | a field conditioned on `gender: ["female"]` is hidden exactly when the dropdown's value fails that condition |
| Conditions.GenderConditionExample | web/dragos_structured_builder.js:171-183 | that field is hidden for `male` and for `undefined`, and visible for `female` |
| Widgets.Segments | web/dragos_structured_builder.js:216 | helper: splitting a path on `.` gives at least one segment. `Text.JoinSplit` states that the segments join back to the path |
| Widgets.FindByName | web/dragos_structured_builder.js:190 | `find` returns a widget with that name from the list, and nothing exactly when no widget has the name |
| Nested.GetPath | web/dragos_structured_builder.js:314-332 | reading a document at a dotted path, descending only through mappings as the insertion loop does. `SetPathSpec` and `NestSpec` state the document through it |
| Nested.SetPath | web/dragos_structured_builder.js:314-332 | the insertion loop for one field, the modelling function. `SetPathSpec` states its contract |
| Nested.Nest | web/dragos_structured_builder.js:296-333 | the loop over the fields of `buildNestedObjectFromWidgets`, the modelling function. `NestSpec` states its contract |
| Nested.BuildNestedObject | web/dragos_structured_builder.js:292-336 | `buildNestedObjectFromWidgets(node)`, the modelling function. `NestSpec` and `Rebuild.RebuildStoresItsWidgets` state its contract |
| Nested.SetPathSpec | web/dragos_structured_builder.js:314-332 | after inserting v at path q: q reads v; a path strictly above q reads a mapping; a path unrelated to q reads what it read before |
| Nested.NestSpec | web/dragos_structured_builder.js:292-336 | with prefix-free contributing paths, the document holds at each contributing path the value of the last visible, non-empty field there. Paths above a contributing path are mappings, and every other path is absent |
| Nested.LastValueAtFound | web/dragos_structured_builder.js:298-312 | a contributing path has a last value, and it is not `""`, `null` or `undefined` |
| Nested.NestIgnoresPopupWhenUnset | web/dragos_dynamic.js:40-67 | when no field has a popup value, the resolver's mapping equals the stored document |
| Nested.WalkSpec | web/dragos_structured_builder.js:216-228 | walking a path finds the value there. It throws exactly when the walk reaches a string before the last key (`k in <string>` is a TypeError). Otherwise it finds nothing |
| Nested.RestoreWidget | web/dragos_structured_builder.js:213-229 | restoring a field changes at most its value |
| Nested.Restore | web/dragos_structured_builder.js:213-229 | the loop succeeds exactly when no field's walk throws, and then restores each field independently |
| Nested.SavedData | web/dragos_structured_builder.js:198-204 | the saved data is always a truthy value (`parsed.data \|\| {}`) |
| Nested.RestoreWidgetRoundTrip | web/dragos_structured_builder.js:213-229 | restoring from a serialised field set gives a field at a contributing path the serialised value. A field at a path above one gets a mapping; a path-less field or one at an absent path is left unchanged |
| Nested.RestoreRoundTrip | web/dragos_structured_builder.js:213-229 | serialise then restore: the same guarantee for every field of a freshly built list, with nothing thrown |
| Rebuild.OrElse | web/dragos_structured_builder.js:238-243 | `a || d` is `a` when `a` is truthy, else `d` |
| Rebuild.Or | web/dragos_structured_builder.js:238 | `a \|\| b` is truthy exactly when one of them is |
| Rebuild.DeriveMeta | web/dragos_structured_builder.js:237-247 | the three `_meta` strings, the modelling function. `DeriveMetaSpec` states its contract |
| Rebuild.Final | web/dragos_structured_builder.js:240-247 | the stored `{_meta, data}` document, the modelling function. `SavedDataOfFinal` and `Backend.BuildReadsStoredDocument` state how it reads back |
| Rebuild.DeriveMetaSpec | web/dragos_structured_builder.js:237-247 | every stored `_meta` string is lower case. Without display names the category equals the schema name. An absent category gives schema `""`. A truthy `display_name` gives its lower-cased text |
| Rebuild.SavedDataOfFinal | web/dragos_structured_builder.js:198-247 | reading the stored document back yields the data it was built from |
| Rebuild.KeepCategory | web/dragos_structured_builder.js:207 | clearing keeps exactly the widgets named `category` |
| Rebuild.IndexNamed | web/dragos_structured_builder.js:250 | the index of the first widget with the name, or none when no widget has it |
| Rebuild.StoreJson | web/dragos_structured_builder.js:250-257 | afterwards `json_data` holds the document. An existing `json_data` widget is overwritten in place; otherwise one is appended; every other widget is untouched |
| Rebuild.RebuildNode | web/dragos_structured_builder.js:189-229 | the rebuild does nothing exactly when there is no `category` widget or no schema. It aborts exactly when some walk of the restore loop throws; the node is then left with the fresh field list, restored before the first throwing field and untouched from it on |
| Rebuild.NestAppendInert | web/dragos_structured_builder.js:298-299 | a path-less widget adds nothing to the document |
| Rebuild.RebuildStoresItsWidgets | web/dragos_structured_builder.js:236-257 | the stored `json_data` is `{_meta, data}`, where `data` serialises the rebuilt widgets and `_meta` is derived from the schema and category |
| Rebuild.RebuildKeepsRestored | web/dragos_structured_builder.js:210-229 | a rebuilt field keeps the value the restore loop gave it |
| Rebuild.RestoreWidgetName | web/dragos_structured_builder.js:213-229 | restoring never renames a field |
| Rebuild.RebuildRestoresSaved | web/dragos_structured_builder.js:189-261 | rebuilding from a stored document gives each new field at a contributing path the old value, and a field at an absent path keeps its schema default |
| Graph.IsNodeActive | web/dragos_dynamic.js:5-13 | `isNodeActive(node)`, the modelling predicate: a node exists and its mode is neither 2 nor 4. `ResolveDefinedIff` states what it decides |
| Graph.GetWidgetValue | web/dragos_dynamic.js:15-26 | `getWidgetValue(node, names)`, the modelling function. `GetWidgetValueSpec` states its contract |
| Graph.Resolve | web/dragos_dynamic.js:28-97 | `getValueRecursive(node, graph)`, the modelling function. `ResolveDefinedIff`, `VariableResolution`, `StructuredResolution` and `ObjectResolution` state its contract |
| Graph.GetWidgetValueSpec | web/dragos_dynamic.js:15-26 | the value of the first listed name that has a widget, even an empty value; nothing exactly when no listed name has a widget |
| Graph.ResolveDefinedIff | web/dragos_dynamic.js:28-97 | a node resolves to a defined value exactly when it exists, its mode is neither 2 nor 4, and its class is Variable, StructuredBuilder or Object |
| Graph.VariableResolution | web/dragos_dynamic.js:34-37 | a variable resolves to its `text` value, or `""` when that value is null or undefined or the widget is missing |
| Graph.StructuredResolution | web/dragos_dynamic.js:40-67 | a structured builder resolves to a mapping holding the value of the last visible, non-empty field at each contributing path, and nothing at unrelated paths |
| Graph.ObjectEntriesKeyed | web/dragos_dynamic.js:74-92 | a key is assigned exactly when some contributing input has that key |
| Graph.ObjectEntriesLast | web/dragos_dynamic.js:74-92 | the value last assigned to a key is the value of the last contributing input with that key |
| Graph.ObjectResolution | web/dragos_dynamic.js:70-95 | an object's keys are those of its contributing inputs, in first-assignment order. Each key holds the value of the last input that assigns it |
| Ports.Grow | web/dragos_dynamic.js:167-173 | the growing half of the dynamic-input rule, the modelling function. `StepGrows` states its contract |
| Ports.Shrink | web/dragos_dynamic.js:175-185 | the shrinking half of the rule, the modelling function. `StepShrinks` and `TrailingFreeShrinks` state its contract |
| Ports.Step | web/dragos_dynamic.js:164-185 | one call of the dynamic-input rule, the modelling function. `SettledIffFixpoint`, `StepKeepsPrefix` and `Converges` state its contract |
| Ports.StepGrows | web/dragos_dynamic.js:167-173 | a linked last input gets exactly one new free input `input_{n+1}` appended, and nothing is removed in that call |
| Ports.StepShrinks | web/dragos_dynamic.js:175-185 | with two free inputs at the end, exactly the last one is removed |
| Ports.SettledIffFixpoint | web/dragos_dynamic.js:164-185 | the rule changes nothing exactly on settled lists: empty, or the last input free and the one before it (if any) linked |
| Ports.StepKeepsPrefix | web/dragos_dynamic.js:164-185 | no input before the last one is touched |
| Ports.TrailingFree | web/dragos_dynamic.js:175-185 | helper: the number of free inputs at the end, which is at most the list's length. `TrailingFreeShrinks` and `TrailingFreeSettled` carry the rule it measures |
| Ports.TrailingFreeShrinks | web/dragos_dynamic.js:175-185 | removing one free input at the end lowers the count of trailing free inputs by one |
| Ports.TrailingFreeSettled | web/dragos_dynamic.js:175-185 | a list ending in a free input is settled exactly when it has exactly one trailing free input |
| Ports.Converges | web/dragos_dynamic.js:164-185 | repeated calls reach a settled list after exactly `StepsNeeded` calls, and not before |
| Ports.TwoCallsExample | web/dragos_dynamic.js:175-185 | a linked input followed by three free ones needs two calls to settle |
| Scene.KeyRuleOf | web/dragos_dynamic.js:122-148 | the key choice of one input, the modelling function. `KeyRuleCases` states every branch; `SlotIsLocal` and `CharacterNumbering` state how the character branch is numbered |
| Scene.KeyRuleCases | web/dragos_dynamic.js:122-148 | a structured builder is keyed `camera` exactly for the category `"camera"`, by character number exactly for a string category starting with `character`, else by its string category, or by the input's name when the category is null or undefined. Any other origin is keyed by its `var_name` widget, else its `obj_name` widget, else the input's name when that value is null or undefined |
| Scene.Compose | web/dragos_dynamic.js:106-154 | the scene loop of `refreshNode` over its first k inputs, the modelling function. `ComposeState`, `ComposeCounter` and `ComposeSpec` state its contract |
| Scene.SceneOf | web/dragos_dynamic.js:106-154 | the scene `refreshNode` serialises, the modelling function. `SceneContents` states its contract |
| Scene.Slots | web/dragos_dynamic.js:109-150 | each input's contribution is computed from that input alone |
| Scene.ComposeCounter | web/dragos_dynamic.js:107-136 | the character counter is one more than the number of character origins seen so far |
| Scene.ComposeStep | web/dragos_dynamic.js:150-153 | one iteration writes the resolved value under the slot's key, or nothing when the value is undefined |
| Scene.ComposeState | web/dragos_dynamic.js:106-154 | after any number of iterations the loop's state is the writes so far assigned in order, with the counter one past the character origins seen |
| Scene.ComposeSpec | web/dragos_dynamic.js:106-154 | the loop's scene is its list of writes assigned in order |
| Scene.CharacterKeysDistinct | web/dragos_dynamic.js:134-137 | two different character origins get different keys |
| Scene.CharacterNumbering | web/dragos_dynamic.js:134-137 | the n-th character origin in input order is keyed `character_n`, whatever other origins come between |
| Scene.SceneContents | web/dragos_dynamic.js:106-154 | the scene's keys are the written keys in first-write order, and each holds the value of the last write |
| Scene.SlotIsLocal | web/dragos_dynamic.js:122-142 | an input reaches a character origin exactly when its active origin is a structured builder whose category is a string starting with `character` |
| Scene.Refresh | web/dragos_dynamic.js:100-185 | the preview is written exactly when the node has one and its text differs from the scene, and it then holds the scene. The input list becomes the rule's next list |
| Scene.AppendFreeKeepsScene | web/dragos_dynamic.js:111 | an unlinked input adds nothing to the scene |
| Scene.StepKeepsScene | web/dragos_dynamic.js:164-185 | the dynamic-input rule never changes the scene |
| Scene.SecondRefreshWritesNothing | web/dragos_dynamic.js:156-159 | a second refresh against an unchanged graph leaves the preview untouched, even after the first refresh changed the inputs |
| Text.LowerStr | web/dragos_structured_builder.js:242 | lower-casing maps each character on its own and keeps the length |
| Text.LowerStrIsLower | web/dragos_structured_builder.js:242-244 | the result has no upper-case letter, and lower-casing twice equals lower-casing once |
| Text.JsTrim | web/dragos_prompt_loader.js:28 | the result neither starts nor ends with JavaScript whitespace |
| Text.PyStrip | nodes.py:45 | the result neither starts nor ends with Python whitespace |
| Text.TrimSpec | nodes.py:45 | the result is a middle piece of the text, and only whitespace is cut from either end |
| Text.TrimAgree | nodes.py:50 | on text without U+001C..U+001F, Python's strip and JavaScript's trim agree |
| Text.Split | web/dragos_structured_builder.js:216 | splitting gives at least one piece, and no piece contains the separator |
| Text.JoinSplit | web/dragos_structured_builder.js:314 | joining the pieces with the separator gives the path back |
| Text.NatToString | web/dragos_dynamic.js:136 | the decimal rendering of n is non-empty, all digits, and starts with `0` only for zero |
| Text.NatToStringValue | web/dragos_dynamic.js:136 | reading the rendered digits back gives n |
| Text.NatToStringInjective | web/dragos_dynamic.js:136 | different numbers render differently |
| Json.GetSome | nodes.py:185 | a lookup finds a value exactly when some entry has the key |
| Json.SetKey | web/dragos_structured_builder.js:323 | after assignment the key holds the new value and every other key is unchanged. An existing key keeps its position; a new key is appended. Keys stay unique |
| Json.Merge | web/dragos_structured_builder.js:89 | spreading `b` over `a` leaves keys absent from `b` as they are in `a` |
| Json.MergeGet | web/dragos_structured_builder.js:89 | a key of `b` takes `b`'s value; every other key keeps `a`'s |
| Json.Assign | nodes.py:180-185 | assigning a list of entries one by one leaves unique keys |
| Json.AssignSpec | nodes.py:180-185 | each key holds the value of its last entry, and the keys appear in first-occurrence order |
| Prompt.FindTag | nodes.py:48 | the first position at or after the start where the tag occurs, ignoring ASCII case, or none |
| Prompt.Search | nodes.py:48-53 | a found block is a match: an opening tag, then a closing tag no earlier than the opening tag's end |
| Prompt.SearchSpec | web/dragos_prompt_loader.js:30-33 | no match starts further left, and none from the same start is shorter (lazy matching); when nothing is found, nothing matches anywhere |
| Prompt.Whole | nodes.py:58 | helper: the matched text `group(0)`, which spans at least both tags. `RemoveAllFirst` and `RemoveOnlyCopy` state what removing it does |
| Prompt.IndexOf | web/dragos_prompt_loader.js:35 | the first occurrence at or after the start, or none |
| Prompt.RemoveAll | nodes.py:58 | helper: `replace(pat, "")` never lengthens the text. `RemoveAllFirst` and `RemoveAllAbsent` carry the rule |
| Prompt.RemoveFirst | web/dragos_prompt_loader.js:35 | with a string pattern, the first occurrence is removed: putting it back gives the original text; without an occurrence the text is unchanged |
| Prompt.RemoveAllAbsent | nodes.py:58 | text without an occurrence is unchanged |
| Prompt.RemoveAllFirst | nodes.py:58 | everything before the first occurrence is kept, the occurrence is dropped, and the scan continues after it |
| Prompt.RemoveOnlyCopy | nodes.py:58 | with exactly one occurrence, removing all copies and removing the first agree |
| Prompt.ParsePromptFile | nodes.py:44-63 | both outputs are stripped. The info is the stripped inner text of the first info block, or `""` without one. The prompt is the stripped inner text of the first prompt block; else, with an info block, the stripped text with every copy of that block removed; else the stripped content |
| Prompt.ParsePrompt | web/dragos_prompt_loader.js:26-38 | both outputs are trimmed. The info is the trimmed inner text of the first info block, or `""` without one. The prompt is the trimmed inner text of the first prompt block; else, with an info block, the trimmed text with its first copy removed; else the trimmed content |
| Prompt.InfoAgrees | web/dragos_prompt_loader.js:30-31 | on text without U+001C..U+001F both parsers extract the same info |
| Prompt.PromptBlockAgrees | web/dragos_prompt_loader.js:33-34 | on text without U+001C..U+001F, when a prompt block exists, both parsers extract the same prompt |
| Prompt.RemainderAgrees | web/dragos_prompt_loader.js:35 | on text without U+001C..U+001F, with only an info block and that block not repeated, both parsers give the same remainder |
| Prompt.ParsersAgree | web/dragos_prompt_loader.js:26-38 | `parsePrompt` equals `parse_prompt_file` when the matched info block occurs once or a prompt block exists, on text without U+001C..U+001F |
| Prompt.InfoThenText | nodes.py:44-61 | `<info>x</info>body`, where neither part contains `<`, parses to the stripped `x` and the stripped `body` |
| Prompt.InfoThenBody | nodes.py:56-58 | `"<info>Test info</info>Actual prompt body"` parses to `("Test info", "Actual prompt body")` |
| Prompt.RepeatedInfoBlock | web/dragos_prompt_loader.js:35 | when the identical info block appears twice, Python's prompt is `""` and the browser's is the second copy, so the two differ |
| Prompt.LoadPromptFile | web/dragos_prompt_loader.js:8-21 | an empty or missing name, or a failed fetch, gives two empty fields; otherwise the fetched text is parsed |
| Prompt.LoadPrompt | nodes.py:84-97 | a non-blank stripped `prompt_text` wins over the parsed prompt, and the result is always stripped |
| Prompt.MissingFile | nodes.py:84-97 | a missing file parses to empty fields, so the loader returns the stripped text box |
| Backend.IsValidPromptVar | nodes.py:112-123 | `is_valid_prompt_var(v)`, the modelling predicate: a dict with `name` and `value` keys whose value is not `None`. `GetTextValid` and `BuildObject` state what it accepts |
| Backend.GetText | nodes.py:141-149 | an empty or `None` name gives `None`; otherwise the result is `{name, value: text}` |
| Backend.GetTextValid | nodes.py:112-149 | a variable's output is a valid prompt variable exactly when its name is set and its text is not `None` |
| Backend.ValidEntries | nodes.py:180-185 | helper: there are no entries exactly when no input is valid. `ValidEntriesKeyed` and `ValidEntriesLast` tie the entries to the inputs |
| Backend.ValidEntriesKeyed | nodes.py:180-185 | an entry named `k` is produced exactly when some input is a valid variable named `k` |
| Backend.ValidEntriesLast | nodes.py:180-185 | the last entry named `k` carries the `value` of the last valid variable named `k` |
| Backend.AssignNonEmpty | nodes.py:187-188 | the combined dict is empty exactly when there were no valid entries |
| Backend.BuildObject | nodes.py:173-193 | the result is `None` exactly when the name is empty or no input is valid; otherwise it is `{name, value: combined}` |
| Backend.BuildObjectContents | nodes.py:178-193 | the combined keys are the valid names in first-seen order, and each holds the value of the last valid input with that name |
| Backend.BuildObjectNamed | nodes.py:178-193 | the object's `value` dict has a key `k` exactly when some input is a valid variable named `k`, and holds the value of the last such input |
| Backend.Unwrap | nodes.py:216-222 | the result is never a one-element tuple |
| Backend.UnwrapSpec | nodes.py:216-222 | unwrapping is idempotent, undoes any number of one-tuple wrappers, and leaves anything else alone |
| Backend.SceneEntries | nodes.py:232-235 | helper: there are at most as many scene entries as inputs. `SceneEntriesKeyed` and `SceneEntriesLast` carry the rule |
| Backend.SceneEntriesKeyed | nodes.py:232-235 | an entry named `k` is produced exactly when some input unwraps to a dict with `name` `k` and a `value` key |
| Backend.SceneEntriesLast | nodes.py:232-235 | the last entry named `k` carries the value of the last input that unwraps to an entry named `k` |
| Backend.CompileJson | nodes.py:224-238 | a truthy `output_json_string` is returned verbatim exactly when present; otherwise the result is a scene with unique keys |
| Backend.CompileJsonScene | nodes.py:231-238 | the scene's keys are the entry names in first-seen order, and each holds the value of the last input with that name, `None` included |
| Backend.CompileJsonNamed | nodes.py:231-238 | the compiled scene has a key exactly when some input unwraps to an entry with that name, and the key holds the last such input's value |
| Backend.GetTextIsEntry | nodes.py:232-235 | a variable's output, however deeply wrapped, becomes a scene entry exactly when its name is set, even when its text is `None` |
| Backend.ParseOrEmpty | nodes.py:259-262 | empty or malformed text parses to `{}`; otherwise to the document it encodes |
| Backend.Build | nodes.py:257-271 | Python raises exactly when the parsed value or its `_meta` is not a dict. Otherwise the name is `_meta.category`, falling back to the selected category, and the value is `data`, falling back to `{}`. Empty or malformed text yields the selected category and `{}` |
| Backend.BuildReadsStoredDocument | nodes.py:264-271 | on the document the browser stores, the name is `_meta.category` and the value is `data` |
| LegacyBackend.CompileJson | scene_builder.py:132-150 | there is no shortcut: each name holds the value of the last input carrying it, and keys appear in first-seen order |
| LegacyBackend.CompilersAgree | scene_builder.py:132-150 | without a truthy hidden string both compilers produce the same scene |
| LegacyBackend.Build | scene_builder.py:169-179 | the name is the selected category, and the value is the whole parsed document, or `{}` |
| LegacyBackend.BuildersDiffer | scene_builder.py:169-179 | on the stored document the old builder passes `{_meta, data}`, while the current one passes only `data` |

## Left out

- File and network I/O are parameters: `loadSchema`, the `fetch` of
  `loadPromptFile`, `load_prompt_files`, `load_schema_categories` and
  the file read in `load_prompt`. A schema is given as `Option`, a
  fetched text as `Option`, and a file's text as a string that is `""`
  when the file is missing.
- Host and UI plumbing is left out:
  - `applyWidgetVisibility` layout, header drawing, `setDirtyCanvas`, `setSize`;
  - the preview widget setup and the extension registration hooks;
  - the wrapping of widget callbacks in `rebuild`;
  - `setTimeout` and the polling interval.
- The blocking `window.prompt` call is the `reply` parameter of `SchemaForm.OnComboChange`.
- JSON text encoding and decoding are left out.
  - Equal text is modelled as equal documents.
  - A parse failure is `Malformed` or `None`.
  - The stored `json_data` is the document rather than its text.
- Regular expressions are not modelled in general. The section search is
  "leftmost opening tag, then the first closing tag after it".
- Case folding, `trim` and `strip` cover ASCII only. Unicode case folding
  and non-ASCII whitespace are not modelled.
- `Graph.ObjectResolution`, `Scene.SceneContents`, `Json.SetKey`: keys are
  kept in insertion order. JavaScript objects enumerate integer-like keys
  (`"0"`, `"12"`) first, in numeric order, both in `for…in` and in
  `JSON.stringify`. This applies to every key on the JavaScript side:
  schema keys, the variable and object names of `getValueRecursive`, and
  the scene keys of `refreshNode`. The stated key order is exact only when
  no key is integer-like; the values under each key are exact always.
- `Json.JVal` has no numbers and no booleans. Schema or document values
  such as `_meta.gender: true` or a numeric `display_name` cannot be
  represented; their truthiness and `String(...)` rendering are not
  modelled.
- `Rebuild.RebuildNode` takes the schema as `Option<Fields>`. A truthy
  schema that is not an object, which the source would still walk with
  `for…in`, is outside the model.
- `Nested.Walk`: arrays are treated as having no keys. In JavaScript,
  `"0" in [..]` is true, but schema paths never index arrays.
- `SchemaForm.LocalConditions`: a `_conditions` value that is not a
  mapping counts as `{}`.
- `SchemaForm.Label`: a truthy non-string `display_name` is rendered with `String(...)`.
- `Conditions.Includes`: an allowed value that is neither a list nor a
  string is treated as matching nothing. When `current` is truthy, the
  source throws a TypeError there instead (`allowed.includes` is not a
  function).
- Keys inherited from `Object.prototype` (such as `toString` in `k in
  current`) are not modelled.
- `Scene.KeyRuleOf`: a truthy category that is not a string is keyed by
  `String(category)`. The source would throw at `startsWith`.
- `Nested.Nest` (and the resolver): when a contributing path runs through
  another field's scalar value, the document is left unchanged. The
  source throws there. Every lemma about the document requires
  prefix-free contributing paths (`Nested.PrefixFree`).
- `Nested.RestoreRoundTrip`: a new path that runs through an old scalar
  makes the source throw. The lemma requires `Nested.Compatible`.
- `Graph.Resolve`: cyclic graphs make `getValueRecursive` recurse forever.
  Resolution requires a rank map in which every origin ranks below the
  node it feeds (`Graph.Ranked`).
- `Scene.Refresh`: a node whose `inputs` is undefined returns before
  doing anything. This is not modelled; the model takes a list.
- `Backend.BuildObject`, `Backend.BuildObjectNamed`, `Backend.ValidEntriesKeyed`,
  `Backend.ValidEntriesLast`, `Backend.CompileJson`, `Backend.SceneEntriesKeyed`,
  `Backend.SceneEntriesLast`, `Backend.CompileJsonNamed`,
  `LegacyBackend.CompileJson`: dict keys are strings in the model. A valid variable's `name` must be a
  string where it becomes a key (`ValidNamesAreStrings`,
  `EntryNamesAreStrings`). Python would also accept other hashable names.
- Node functions return a one-element tuple. The model returns that
  tuple's single element.
- The debug `print` calls of `scene_builder.py` and the registration
  tables of `__init__.py` are left out.
